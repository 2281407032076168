/**
 The non-visual logic of the student dashboard: which chapters and content
 items a student sees for their class, how a finished quiz is graded,
 turned into a percentage and reported to the store, and the URL tests that
 decide how a video or an avatar is shown.
 */
module Dashboard {
  import opened Seqs
  import opened Strings
  import opened Types
  import opened Store

  // ---------------------------------------------------------------------------
  // Chapter and content filtering

  /** The static chapter catalogue. */
  const InitialChapters := [
    Chapter("c4-1", "Chimpu Monkey", Class4),
    Chapter("c5-1", "Dignity of Labour", Class5),
    Chapter("c3-1", "Introduction to Numbers", Class3)
  ]

  /** The chapters of the student's class, in catalogue order; none when no class is set. */
  function FilteredChapters(chapters: seq<Chapter>, currentClass: Option<ClassLevel>): seq<Chapter>
  {
    Filter(chapters, (c: Chapter) => Some(c.classLevel) == currentClass)
  }

  /** The ids of the given chapters, in order. */
  function ChapterIds(chapters: seq<Chapter>): (ids: seq<string>)
    ensures |ids| == |chapters|
    ensures forall id :: id in ids <==> exists c :: c in chapters && c.id == id
  {
    if chapters == [] then []
    else
      assert chapters == [chapters[0]] + chapters[1..];
      [chapters[0].id] + ChapterIds(chapters[1..])
  }

  /** The items whose chapter id is one of `ids`, in their original order. */
  function InChapters(items: seq<Content>, ids: seq<string>): seq<Content>
  {
    Filter(items, (x: Content) => x.chapterId in ids)
  }

  /** What the dashboard lists in its three tabs. */
  datatype Visible = Visible(videos: seq<Content>, maps: seq<Content>, quizzes: seq<Content>)

  /** The content of the student's chapters, one list per catalogue. */
  function VisibleContent(chapters: seq<Chapter>, currentClass: Option<ClassLevel>,
                          videos: seq<Content>, mindMaps: seq<Content>, quizzes: seq<Content>): Visible
  {
    var ids := ChapterIds(FilteredChapters(chapters, currentClass));
    Visible(InChapters(videos, ids), InChapters(mindMaps, ids), InChapters(quizzes, ids))
  }

  /** A chapter is shown exactly when it belongs to the selected class; the order is kept. */
  lemma FilteredChaptersSpec(chapters: seq<Chapter>, currentClass: Option<ClassLevel>)
    ensures forall c :: c in FilteredChapters(chapters, currentClass) <==>
      c in chapters && currentClass == Some(c.classLevel)
    ensures IsSubsequence(FilteredChapters(chapters, currentClass), chapters)
    ensures currentClass.None? ==> FilteredChapters(chapters, currentClass) == []
  {
    FilterIsSubsequence(chapters, (c: Chapter) => Some(c.classLevel) == currentClass);
  }

  /** The item `x` belongs to some chapter of the selected class. */
  ghost predicate InClass(x: Content, chapters: seq<Chapter>, currentClass: Option<ClassLevel>)
  {
    exists c :: c in chapters && currentClass == Some(c.classLevel) && c.id == x.chapterId
  }

  /**
   Each tab lists exactly the items of its catalogue that belong to a chapter
   of the selected class, as an order-preserving subsequence; with no class
   selected every tab is empty.
   */
  lemma VisibleContentSpec(chapters: seq<Chapter>, currentClass: Option<ClassLevel>,
                           videos: seq<Content>, mindMaps: seq<Content>, quizzes: seq<Content>)
    ensures var v := VisibleContent(chapters, currentClass, videos, mindMaps, quizzes);
      && (forall x :: x in v.videos <==> x in videos && InClass(x, chapters, currentClass))
      && (forall x :: x in v.maps <==> x in mindMaps && InClass(x, chapters, currentClass))
      && (forall x :: x in v.quizzes <==> x in quizzes && InClass(x, chapters, currentClass))
      && IsSubsequence(v.videos, videos)
      && IsSubsequence(v.maps, mindMaps)
      && IsSubsequence(v.quizzes, quizzes)
    ensures currentClass.None? ==> VisibleContent(chapters, currentClass, videos, mindMaps, quizzes) == Visible([], [], [])
  {
    var ids := ChapterIds(FilteredChapters(chapters, currentClass));
    FilteredChaptersSpec(chapters, currentClass);
    var p := (x: Content) => x.chapterId in ids;
    FilterIsSubsequence(videos, p);
    FilterIsSubsequence(mindMaps, p);
    FilterIsSubsequence(quizzes, p);
    forall x: Content ensures x.chapterId in ids <==> InClass(x, chapters, currentClass) {
      if x.chapterId in ids {
        var c :| c in FilteredChapters(chapters, currentClass) && c.id == x.chapterId;
        assert c in chapters && currentClass == Some(c.classLevel);
      }
      if InClass(x, chapters, currentClass) {
        var c :| c in chapters && currentClass == Some(c.classLevel) && c.id == x.chapterId;
        assert c in FilteredChapters(chapters, currentClass);
      }
    }
  }

  /** A class-4 student sees the "Chimpu Monkey" chapter and nothing else. */
  lemma Class4Chapters()
    ensures FilteredChapters(InitialChapters, Some(Class4)) == [Chapter("c4-1", "Chimpu Monkey", Class4)]
  {
  }

  // ---------------------------------------------------------------------------
  // Quiz grading

  /** Question `i` was answered, with its correct option. An answer past the end of `answers` is missing. */
  predicate AnsweredCorrectly(questions: seq<Question>, answers: seq<int>, i: nat)
    requires i < |questions|
  {
    i < |answers| && answers[i] == questions[i].correctAnswer
  }

  /** How many of the first `k` questions were answered correctly. */
  function CorrectAmong(questions: seq<Question>, answers: seq<int>, k: nat): nat
    requires k <= |questions|
  {
    if k == 0 then 0
    else CorrectAmong(questions, answers, k - 1) + (if AnsweredCorrectly(questions, answers, k - 1) then 1 else 0)
  }

  /** The number of correctly answered questions of a quiz. */
  function Score(questions: seq<Question>, answers: seq<int>): nat
  {
    CorrectAmong(questions, answers, |questions|)
  }

  /**
   The count of correct answers among the first `k` questions is at most `k`,
   at most the number of answers given (a missing answer never counts), and
   reaches `k` exactly when each of those questions was answered correctly.
   */
  lemma {:induction false} CorrectAmongSpec(questions: seq<Question>, answers: seq<int>, k: nat)
    requires k <= |questions|
    ensures CorrectAmong(questions, answers, k) <= k
    ensures CorrectAmong(questions, answers, k) <= |answers|
    ensures CorrectAmong(questions, answers, k) == k <==> forall i :: 0 <= i < k ==> AnsweredCorrectly(questions, answers, i)
  {
    if k > 0 {
      CorrectAmongSpec(questions, answers, k - 1);
      if CorrectAmong(questions, answers, k) == k {
        forall i | 0 <= i < k ensures AnsweredCorrectly(questions, answers, i) {
          if i < k - 1 {
            assert CorrectAmong(questions, answers, k - 1) == k - 1;
          }
        }
      }
    }
  }

  /** The score lies between 0 and the number of questions and is full exactly when every answer is right. */
  lemma ScoreSpec(questions: seq<Question>, answers: seq<int>)
    ensures Score(questions, answers) <= |questions|
    ensures Score(questions, answers) <= |answers|
    ensures Score(questions, answers) == |questions| <==>
      forall i :: 0 <= i < |questions| ==> AnsweredCorrectly(questions, answers, i)
  {
    CorrectAmongSpec(questions, answers, |questions|);
  }

  /** The grading loop of the quiz submit handler: count the positions whose answer is the correct option. */
  method GradeQuiz(questions: seq<Question>, answers: seq<int>) returns (score: nat)
    ensures score == Score(questions, answers)
  {
    score := 0;
    var idx := 0;
    while idx < |questions|
      invariant idx <= |questions|
      invariant score == CorrectAmong(questions, answers, idx)
    {
      if idx < |answers| && answers[idx] == questions[idx].correctAnswer {
        score := score + 1;
      }
      idx := idx + 1;
    }
  }

  /** The score as a whole percentage of the question count, halves rounded up, in exact arithmetic. */
  function Percentage(score: nat, total: nat): int
    requires total > 0
  {
    (200 * score + total) / (2 * total)
  }

  /** The percentage is the integer nearest to `100 * score / total`, halves rounded up. */
  lemma PercentageIsRounded(score: nat, total: nat)
    requires total > 0
    ensures 200 * score - total < 2 * total * Percentage(score, total) <= 200 * score + total
  {
  }

  /** Cancelling a positive factor from both sides of a strict inequality. */
  lemma CancelFactor(a: int, x: int, y: int)
    requires a > 0 && a * x < a * y
    ensures x < y
  {
  }

  /**
   For a score out of `total` the percentage lies in [0, 100]; it is 100 exactly
   when the wrong answers are at most a two-hundredth of the questions, so for
   quizzes of fewer than 200 questions exactly when every answer is right.
   */
  lemma PercentageRange(score: nat, total: nat)
    requires 0 < total && score <= total
    ensures 0 <= Percentage(score, total) <= 100
    ensures Percentage(score, total) == 100 <==> 200 * (total - score) <= total
    ensures total < 200 ==> (Percentage(score, total) == 100 <==> score == total)
  {
    PercentageIsRounded(score, total);
    var p, d := Percentage(score, total), 2 * total;
    assert d * p <= 200 * score + total;
    assert 200 * score - total < d * p;
    assert d * 101 == 202 * total && d * -1 == -2 * total && d * 99 == 198 * total && d * 100 == 200 * total;
    CancelFactor(d, p, 101);
    CancelFactor(d, -1, p);
    if 200 * (total - score) <= total {
      CancelFactor(d, 99, p);
    }
  }

  /** A higher score never gives a lower percentage. */
  lemma PercentageMonotone(s1: nat, s2: nat, total: nat)
    requires total > 0 && s1 <= s2
    ensures Percentage(s1, total) <= Percentage(s2, total)
  {
    PercentageIsRounded(s1, total);
    PercentageIsRounded(s2, total);
    var d := 2 * total;
    var p1, p2 := Percentage(s1, total), Percentage(s2, total);
    assert d * (p2 + 1) == d * p2 + d;
    assert d * p1 < d * (p2 + 1);
    CancelFactor(d, p1, p2 + 1);
  }

  /**
   The quiz submit handler: grade the answers, report the percentage for the
   quiz's id to the store as a progress update without a video, and return
   the raw score and the question count shown in the result dialog. The
   session user's stored score for the quiz becomes the better of the old one
   (0 if none) and this percentage; their other scores and watched videos stay.
   In a valid store every logged-in user is found, so the result is recorded.
   */
  method HandleQuizSubmit(store: AppStore, quiz: Content, answers: seq<int>) returns (percentage: int, score: nat, total: nat)
    requires quiz.Quiz? && |quiz.questions| > 0
    modifies store
    ensures total == |quiz.questions| && score == Score(quiz.questions, answers)
    ensures percentage == Percentage(score, total) && 0 <= percentage <= 100
    ensures old(store.currentUser).None? || FindById(old(store.users), old(store.currentUser).value.id).None? ==>
      store.users == old(store.users) && store.currentUser == old(store.currentUser)
    ensures old(store.currentUser).Some? && FindById(old(store.users), old(store.currentUser).value.id).Some? ==>
      var u := old(store.users)[FindById(old(store.users), old(store.currentUser).value.id).value];
      var updated := u.(progress := Progress(u.progress.watchedVideos, BestScore(u.progress.quizScores, QuizResult(quiz.id, percentage))));
      && store.currentUser == Some(updated)
      && store.users == WithUser(old(store.users), updated)
      && updated.progress.quizScores[quiz.id] == Max(ScoreOf(u.progress.quizScores, quiz.id), percentage)
      && (forall q :: q != quiz.id && q in u.progress.quizScores ==> q in updated.progress.quizScores && updated.progress.quizScores[q] == u.progress.quizScores[q])
    ensures old(store.Valid()) && old(store.currentUser).Some? ==>
      && store.currentUser.Some?
      && quiz.id in store.currentUser.value.progress.quizScores
      && store.currentUser.value.progress.quizScores[quiz.id] >= percentage
    ensures store.videos == old(store.videos) && store.mindMaps == old(store.mindMaps) && store.quizzes == old(store.quizzes)
    ensures old(store.Valid()) ==> store.Valid()
  {
    score := GradeQuiz(quiz.questions, answers);
    total := |quiz.questions|;
    ScoreSpec(quiz.questions, answers);
    PercentageRange(score, total);
    percentage := Percentage(score, total);
    store.UpdateProgress(None, Some(QuizResult(quiz.id, percentage)));
  }

  /** Two of three questions right gives 67 per cent. */
  lemma TwoOfThree()
    ensures var qs := [Question("a", ["x", "y", "z"], 1), Question("b", ["x", "y", "z"], 0), Question("c", ["x", "y", "z"], 2)];
      Score(qs, [1, 1, 2]) == 2 && Percentage(2, 3) == 67 && Score(qs, [1, 0, 2]) == 3 && Score(qs, [1]) == 1
  {
  }

  // ---------------------------------------------------------------------------
  // Video and avatar URLs

  /** The URL mentions either YouTube host, so the video plays in an embedded frame. */
  predicate IsYouTube(url: string)
  {
    Contains(url, "youtube.com") || Contains(url, "youtu.be")
  }

  /** Rewrite a watch or short link into an embeddable link; leave every other URL alone. */
  function GetEmbedUrl(url: string): string
  {
    if Contains(url, "youtube.com/watch?v=") then ReplaceFirst(url, "watch?v=", "embed/")
    else if Contains(url, "youtu.be/") then ReplaceFirst(url, "youtu.be/", "youtube.com/embed/")
    else url
  }

  /**
   A watch link gets its first `watch?v=` turned into `embed/`; a short link its
   first `youtu.be/` turned into `youtube.com/embed/`; any other URL is returned
   unchanged. Only YouTube URLs are rewritten, and a YouTube URL stays one, so
   the embedded frame is used for the rewritten link too.
   */
  lemma GetEmbedUrlSpec(url: string)
    ensures GetEmbedUrl(url) != url ==> IsYouTube(url)
    ensures Contains(url, "youtube.com/watch?v=") ==>
      && Contains(url, "watch?v=")
      && var i := IndexOf(url, "watch?v=").value;
         GetEmbedUrl(url) == url[..i] + "embed/" + url[i + 8..]
    ensures Contains(url, "youtube.com/watch?v=") ==> Contains(GetEmbedUrl(url), "embed/")
    ensures !Contains(url, "youtube.com/watch?v=") && Contains(url, "youtu.be/") ==>
      var i := IndexOf(url, "youtu.be/").value;
      GetEmbedUrl(url) == url[..i] + "youtube.com/embed/" + url[i + 9..]
    ensures !Contains(url, "youtube.com/watch?v=") && Contains(url, "youtu.be/") ==>
      Contains(GetEmbedUrl(url), "youtube.com/embed/") && IsYouTube(GetEmbedUrl(url))
    ensures !Contains(url, "youtube.com/watch?v=") && !Contains(url, "youtu.be/") ==> GetEmbedUrl(url) == url
    ensures IsYouTube(url) ==> IsYouTube(GetEmbedUrl(url))
  {
    assert "youtube.com/watch?v=" == "youtube.com" + "/watch?v=";
    assert "youtu.be/" == "youtu.be" + "/";
    assert "youtube.com/embed/" == "youtube.com" + "/embed/";
    if Contains(url, "youtube.com/watch?v=") {
      ContainsPrefix(url, "youtube.com", "/watch?v=");
      assert Contains(url, "watch?v=") by {
        var i := IndexOf(url, "youtube.com/watch?v=").value;
        assert url[i + 12..i + 20] == "youtube.com/watch?v="[12..] == "watch?v=";
        assert OccursAt(url, "watch?v=", i + 12);
      }
      ReplaceFirstContainsReplacement(url, "watch?v=", "embed/");
      WatchRewriteStaysYouTube(url);
    } else if Contains(url, "youtu.be/") {
      ContainsPrefix(url, "youtu.be", "/");
      ReplaceFirstContainsReplacement(url, "youtu.be/", "youtube.com/embed/");
      ContainsPrefix(GetEmbedUrl(url), "youtube.com", "/embed/");
    }
  }

  /** The character at offset `d` of an occurrence of `p` is the pattern's own. */
  lemma CharOfOccurrence(s: string, p: string, at: nat, d: nat)
    requires OccursAt(s, p, at) && d < |p|
    ensures s[at + d] == p[d]
  {
    assert s[at + d] == s[at..at + |p|][d];
  }

  /** An occurrence of `watch?v=` cannot overlap the `youtube.com/` of an occurrence of `youtube.com/watch?v=`. */
  lemma WatchNotInsideHost(url: string, i: nat, j: nat)
    requires OccursAt(url, "watch?v=", i) && OccursAt(url, "youtube.com/watch?v=", j)
    ensures i + 8 <= j || j + 12 <= i
  {
    CharOfOccurrence(url, "watch?v=", i, 0);
    CharOfOccurrence(url, "youtube.com/watch?v=", j, 0);
    if j <= i < j + 12 {
      CharOfOccurrence(url, "youtube.com/watch?v=", j, i - j);
      assert false;
    } else if i < j < i + 8 {
      CharOfOccurrence(url, "watch?v=", i, j - i);
      assert false;
    }
  }

  /**
   Rewriting a watch link keeps it a YouTube link: the first `watch?v=` lies
   either at the matched `/watch?v=` or wholly before `youtube.com`, so that
   `youtube.com` survives the replacement.
   */
  lemma WatchRewriteStaysYouTube(url: string)
    requires Contains(url, "youtube.com/watch?v=")
    ensures IsYouTube(GetEmbedUrl(url))
  {
    var j := IndexOf(url, "youtube.com/watch?v=").value;
    assert url[j..j + 11] == url[j..j + 20][..11] == "youtube.com";
    assert url[j + 12..j + 20] == url[j..j + 20][12..] == "watch?v=";
    assert OccursAt(url, "watch?v=", j + 12);
    WatchNotInsideHost(url, IndexOf(url, "watch?v=").value, j);
    ReplaceFirstKeeps(url, "watch?v=", "embed/", "youtube.com", j);
  }

  /**
   The header shows the avatar as a picture when it is set, non-empty and
   starts with `data:` or `http`; otherwise it is shown as text (an emoji).
   */
  predicate IsAvatarUrl(avatar: Option<string>)
  {
    avatar.Some? && avatar.value != "" && (StartsWith(avatar.value, "data:") || StartsWith(avatar.value, "http"))
  }

  /** An avatar counts as a URL exactly by its prefix; a short text avatar such as an emoji never does. */
  lemma IsAvatarUrlSpec(avatar: string)
    ensures IsAvatarUrl(Some(avatar)) <==> "data:" <= avatar || "http" <= avatar
    ensures |avatar| < 4 ==> !IsAvatarUrl(Some(avatar))
    ensures !IsAvatarUrl(None)
  {
  }
}
