/**
 The quiz-taking dialog of the student dashboard: a cursor over the questions
 and the answers chosen so far, changed by the option buttons and the Back and
 Next/Finish buttons.
 */
module QuizSessions {
  import opened Seqs
  import opened Types

  class QuizSession {
    const questions: seq<Question>
    var currentIdx: nat
    var answers: seq<int>

    /**
     The cursor is on a question, and the answers form a gap-free prefix that
     reaches at least up to the cursor and never past the last question.
     */
    ghost predicate Valid()
      reads this
    {
      0 < |questions| && currentIdx < |questions| && currentIdx <= |answers| <= |questions|
    }

    /** The dialog opens on the first question with no answers. */
    constructor (questions: seq<Question>)
      requires |questions| > 0
      ensures this.questions == questions
      ensures currentIdx == 0 && answers == []
      ensures Valid()
    {
      this.questions := questions;
      currentIdx := 0;
      answers := [];
    }

    /** The cursor is on the last question, so the forward button reads "Finish". */
    predicate IsLast()
      reads this
    {
      currentIdx == |questions| - 1
    }

    /** Back is disabled on the first question. */
    predicate BackDisabled()
      reads this
    {
      currentIdx == 0
    }

    /** Next/Finish is disabled while the current question has no answer. */
    predicate ForwardDisabled()
      reads this
    {
      currentIdx >= |answers|
    }

    /** Choose option `choice` for the current question; the other answers stay as they were. */
    method Select(choice: nat)
      requires Valid()
      requires choice < |questions[currentIdx].options|
      modifies this
      ensures Valid()
      ensures currentIdx == old(currentIdx)
      ensures |answers| == if old(currentIdx) < old(|answers|) then old(|answers|) else old(|answers|) + 1
      ensures answers[currentIdx] == choice
      ensures forall i :: 0 <= i < |old(answers)| && i != currentIdx ==> answers[i] == old(answers)[i]
      ensures !ForwardDisabled()
    {
      if currentIdx < |answers| {
        answers := answers[currentIdx := choice];
      } else {
        answers := answers + [choice];
      }
    }

    /**
     Go back one question; nothing happens on the first one. The question moved
     to is already answered, so Next/Finish is enabled there.
     */
    method Back()
      requires Valid()
      modifies this
      ensures Valid()
      ensures answers == old(answers)
      ensures old(BackDisabled()) ==> currentIdx == old(currentIdx)
      ensures !old(BackDisabled()) ==> currentIdx == old(currentIdx) - 1 && !ForwardDisabled()
    {
      if currentIdx != 0 {
        currentIdx := currentIdx - 1;
      }
    }

    /**
     The Next/Finish button: nothing happens while the current question is
     unanswered; on the last question it submits the answers; otherwise it
     moves to the next question. A submission therefore answers every question.
     */
    method Forward() returns (submitted: Option<seq<int>>)
      requires Valid()
      modifies this
      ensures Valid()
      ensures answers == old(answers)
      ensures old(ForwardDisabled()) ==> submitted == None && currentIdx == old(currentIdx)
      ensures !old(ForwardDisabled()) && old(IsLast()) ==> submitted == Some(answers) && currentIdx == old(currentIdx)
      ensures !old(ForwardDisabled()) && !old(IsLast()) ==> submitted == None && currentIdx == old(currentIdx) + 1
      ensures submitted.Some? ==> |submitted.value| == |questions|
    {
      submitted := None;
      if currentIdx < |answers| {
        if IsLast() {
          submitted := Some(answers);
        } else {
          currentIdx := currentIdx + 1;
        }
      }
    }
  }
}
