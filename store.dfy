/**
 The application store: one state record (users, the three content catalogues
 and the session user) that every operation replaces. The record is the class
 `AppStore`; the per-operation updaters are pure functions over its fields.
 Persistence to the browser's storage is not part of this model.
 */
module Store {
  import opened Seqs
  import opened Types

  /** The one account of a fresh install. */
  const AdminSeed := User("admin-1", "Super Admin", "admin@visualminds.com", Admin, None, None, EmptyProgress)

  /** The avatar a newly registered student gets (a smiling-face emoji). */
  const DefaultAvatar := "\U{1F60A}"

  // ---------------------------------------------------------------------------
  // Finding users

  /** The position of the first account with exactly this email and this role. */
  function FindLogin(users: seq<User>, email: string, role: Role): (r: Option<nat>)
    ensures r.Some? <==> exists i :: 0 <= i < |users| && users[i].email == email && users[i].role == role
    ensures r.Some? ==> r.value < |users| && users[r.value].email == email && users[r.value].role == role
    ensures r.Some? ==> forall j :: 0 <= j < r.value ==> !(users[j].email == email && users[j].role == role)
  {
    IndexOfFirst(users, (u: User) => u.email == email && u.role == role)
  }

  /** The position of the first account with this id. */
  function FindById(users: seq<User>, id: string): (r: Option<nat>)
    ensures r.Some? <==> exists i :: 0 <= i < |users| && users[i].id == id
    ensures r.Some? ==> r.value < |users| && users[r.value].id == id
    ensures r.Some? ==> forall j :: 0 <= j < r.value ==> users[j].id != id
  {
    IndexOfFirst(users, (u: User) => u.id == id)
  }

  /** The account `register` creates: a student with the default avatar and no progress. */
  function NewStudent(id: string, name: string, email: string): User
  {
    User(id, name, email, Student, Some(DefaultAvatar), None, EmptyProgress)
  }

  /**
   Registration performs no duplicate-email check: when an account with the
   same email and the student role already exists, a later login with that
   email finds the OLDER account, so the new one cannot be reached by logging in.
   Otherwise login finds exactly the new account.
   */
  lemma {:induction false} RegisterThenLogin(users: seq<User>, id: string, name: string, email: string)
    ensures FindLogin(users, email, Student).Some? ==>
      FindLogin(users + [NewStudent(id, name, email)], email, Student) == FindLogin(users, email, Student)
    ensures FindLogin(users, email, Student).None? ==>
      FindLogin(users + [NewStudent(id, name, email)], email, Student) == Some(|users|)
  {
    var all := users + [NewStudent(id, name, email)];
    assert forall j :: 0 <= j < |users| ==> all[j] == users[j];
    assert all[|users|] == NewStudent(id, name, email);
    var r := FindLogin(all, email, Student);
    match FindLogin(users, email, Student)
    case Some(k) =>
      assert all[k] == users[k];
    case None =>
  }

  // ---------------------------------------------------------------------------
  // The session/user-set dual write

  /** The user set with every account that has `updated`'s id replaced by `updated`. */
  function WithUser(users: seq<User>, updated: User): seq<User>
  {
    ReplaceWhere(users, (u: User) => u.id == updated.id, updated)
  }

  /**
   Writing a user back replaces every account with the same id and leaves the
   others in place; when the id was present, the written record is a member.
   */
  lemma WithUserEffect(users: seq<User>, updated: User)
    ensures |WithUser(users, updated)| == |users|
    ensures forall i :: 0 <= i < |users| && users[i].id != updated.id ==> WithUser(users, updated)[i] == users[i]
    ensures forall i :: 0 <= i < |users| && users[i].id == updated.id ==> WithUser(users, updated)[i] == updated
    ensures (exists u :: u in users && u.id == updated.id) ==> updated in WithUser(users, updated)
    ensures forall u :: u in WithUser(users, updated) ==> u == updated || u in users
  {
  }

  // ---------------------------------------------------------------------------
  // Progress

  /** The watched list after `updateProgress(videoId)`: appended only if non-empty and new. */
  function AddWatched(watched: seq<string>, videoId: Option<string>): seq<string>
  {
    if videoId.Some? && videoId.value != "" && videoId.value !in watched
    then watched + [videoId.value]
    else watched
  }

  /**
   Recording a video keeps the list duplicate-free, keeps what was there, grows
   it by at most one entry, records the id when it is non-empty, changes the
   list exactly when the id is given, non-empty and new, and is idempotent.
   */
  lemma AddWatchedSpec(watched: seq<string>, videoId: Option<string>)
    ensures NoDuplicates(watched) ==> NoDuplicates(AddWatched(watched, videoId))
    ensures |watched| <= |AddWatched(watched, videoId)| <= |watched| + 1
    ensures AddWatched(watched, videoId)[..|watched|] == watched
    ensures videoId.Some? && videoId.value != "" ==> videoId.value in AddWatched(watched, videoId)
    ensures AddWatched(watched, videoId) != watched <==> videoId.Some? && videoId.value != "" && videoId.value !in watched
    ensures forall x :: x in AddWatched(watched, videoId) ==> x in watched || videoId == Some(x)
    ensures AddWatched(AddWatched(watched, videoId), videoId) == AddWatched(watched, videoId)
  {
  }

  /** The stored score of a quiz, with `|| 0` for a quiz never taken. */
  function ScoreOf(scores: map<string, int>, quizId: string): int
  {
    if quizId in scores then scores[quizId] else 0
  }

  function Max(a: int, b: int): int
  {
    if a < b then b else a
  }

  /** The score map after reporting `result`: the quiz keeps its best score. */
  function BestScore(scores: map<string, int>, result: QuizResult): map<string, int>
  {
    scores[result.quizId := Max(ScoreOf(scores, result.quizId), result.score)]
  }

  /**
   Reporting a result never lowers any stored score, stores at least the
   reported one, leaves other quizzes untouched, and reporting the same result
   again changes nothing.
   */
  lemma BestScoreSpec(scores: map<string, int>, result: QuizResult)
    ensures result.quizId in BestScore(scores, result)
    ensures BestScore(scores, result)[result.quizId] >= result.score
    ensures BestScore(scores, result)[result.quizId] >= ScoreOf(scores, result.quizId)
    ensures BestScore(scores, result)[result.quizId] == result.score || BestScore(scores, result)[result.quizId] == ScoreOf(scores, result.quizId)
    ensures forall q :: q in scores ==> q in BestScore(scores, result) && BestScore(scores, result)[q] >= scores[q]
    ensures forall q :: q != result.quizId ==> (q in BestScore(scores, result) <==> q in scores)
    ensures forall q :: q != result.quizId && q in scores ==> BestScore(scores, result)[q] == scores[q]
    ensures BestScore(BestScore(scores, result), result) == BestScore(scores, result)
  {
  }

  /** The largest of a non-empty list of scores. */
  function MaxOf(ss: seq<int>): int
    requires |ss| > 0
  {
    if |ss| == 1 then ss[0] else Max(ss[0], MaxOf(ss[1..]))
  }

  /** The score map after reporting the scores `ss` for one quiz, in order. */
  function ReportAll(scores: map<string, int>, quizId: string, ss: seq<int>): map<string, int>
    decreases |ss|
  {
    if ss == [] then scores else ReportAll(BestScore(scores, QuizResult(quizId, ss[0])), quizId, ss[1..])
  }

  /** After a series of results for one quiz its stored score is the best of them (or of the earlier score). */
  lemma {:induction false} ReportAllIsBest(scores: map<string, int>, quizId: string, ss: seq<int>)
    requires |ss| > 0
    ensures quizId in ReportAll(scores, quizId, ss)
    ensures ReportAll(scores, quizId, ss)[quizId] == Max(ScoreOf(scores, quizId), MaxOf(ss))
    decreases |ss|
  {
    var next := BestScore(scores, QuizResult(quizId, ss[0]));
    if |ss| > 1 {
      ReportAllIsBest(next, quizId, ss[1..]);
    }
  }

  /** The progress record after `updateProgress(videoId, quizResult)`. */
  function ProgressAfter(p: Progress, videoId: Option<string>, quizResult: Option<QuizResult>): Progress
  {
    Progress(
      AddWatched(p.watchedVideos, videoId),
      match quizResult
      case None => p.quizScores
      case Some(r) => BestScore(p.quizScores, r))
  }

  /** Reporting the same progress twice is the same as reporting it once. */
  lemma ProgressAfterIdempotent(p: Progress, videoId: Option<string>, quizResult: Option<QuizResult>)
    ensures ProgressAfter(ProgressAfter(p, videoId, quizResult), videoId, quizResult) == ProgressAfter(p, videoId, quizResult)
  {
  }

  /** Progress never regresses: nothing watched is forgotten and no score goes down. */
  lemma ProgressAfterMonotone(p: Progress, videoId: Option<string>, quizResult: Option<QuizResult>)
    ensures forall v :: v in p.watchedVideos ==> v in ProgressAfter(p, videoId, quizResult).watchedVideos
    ensures forall q :: q in p.quizScores ==>
      q in ProgressAfter(p, videoId, quizResult).quizScores && ProgressAfter(p, videoId, quizResult).quizScores[q] >= p.quizScores[q]
  {
  }

  // ---------------------------------------------------------------------------
  // Content catalogues

  /** The catalogue a content operation works on. */
  datatype Collection = Videos | MindMaps | Quizzes

  /** The catalogue a kind tag selects; any tag other than the video and map tags selects the quizzes. */
  function CollectionOf(kind: string): (c: Collection)
    ensures c == Videos <==> kind == "video"
    ensures c == MindMaps <==> kind == "map"
    ensures c == Quizzes <==> kind != "video" && kind != "map"
  {
    if kind == "video" then Videos else if kind == "map" then MindMaps else Quizzes
  }

  /** The catalogue without the items that have this id. */
  function RemoveById(items: seq<Content>, id: string): seq<Content>
  {
    Filter(items, (x: Content) => x.id != id)
  }

  /** Removal drops every item with the id and keeps every other item, in order and with its multiplicity. */
  lemma RemoveByIdSpec(items: seq<Content>, id: string)
    ensures forall x :: x in RemoveById(items, id) ==> x.id != id
    ensures forall x :: x in items && x.id != id ==> x in RemoveById(items, id)
    ensures forall x: Content :: x.id != id ==> multiset(RemoveById(items, id))[x] == multiset(items)[x]
    ensures IsSubsequence(RemoveById(items, id), items)
    ensures (forall x :: x in items ==> x.id != id) ==> RemoveById(items, id) == items
  {
    var p := (x: Content) => x.id != id;
    FilterIsSubsequence(items, p);
    if forall x :: x in items ==> x.id != id {
      FilterAll(items, p);
    }
  }

  /** The catalogue with every item that has this id replaced by `updated`. */
  function EditById(items: seq<Content>, id: string, updated: Content): seq<Content>
  {
    ReplaceWhere(items, (x: Content) => x.id == id, updated)
  }

  /** Editing keeps length and order, replaces every item with the id and no other. */
  lemma EditByIdSpec(items: seq<Content>, id: string, updated: Content)
    ensures |EditById(items, id, updated)| == |items|
    ensures forall i :: 0 <= i < |items| && items[i].id == id ==> EditById(items, id, updated)[i] == updated
    ensures forall i :: 0 <= i < |items| && items[i].id != id ==> EditById(items, id, updated)[i] == items[i]
    ensures (exists x :: x in items && x.id == id) ==> updated in EditById(items, id, updated)
    ensures forall x :: x in EditById(items, id, updated) && x != updated ==> x in items && x.id != id
  {
  }

  // ---------------------------------------------------------------------------
  // The store

  class AppStore {
    var users: seq<User>
    var videos: seq<Content>
    var mindMaps: seq<Content>
    var quizzes: seq<Content>
    var currentUser: Option<User>

    /**
     The store's invariant: the session user is one of the accounts, and no
     account lists a watched video twice.
     */
    ghost predicate Valid()
      reads this
    {
      && (currentUser.Some? ==> currentUser.value in users)
      && (forall u :: u in users ==> NoDuplicates(u.progress.watchedVideos))
    }

    /** The catalogue selected by `c`. */
    function Items(c: Collection): seq<Content>
      reads this
    {
      match c
      case Videos => videos
      case MindMaps => mindMaps
      case Quizzes => quizzes
    }

    /** The seed state: the admin account only, empty catalogues, nobody logged in. */
    constructor ()
      ensures users == [AdminSeed]
      ensures videos == [] && mindMaps == [] && quizzes == []
      ensures currentUser == None
      ensures Valid()
    {
      users := [AdminSeed];
      videos, mindMaps, quizzes := [], [], [];
      currentUser := None;
    }

    /** Log in as the first account with exactly this email and role; report whether there is one. */
    method Login(email: string, role: Role) returns (ok: bool)
      modifies this
      ensures ok <==> exists u :: u in users && u.email == email && u.role == role
      ensures ok ==> currentUser == Some(users[FindLogin(users, email, role).value])
      ensures !ok ==> currentUser == old(currentUser)
      ensures users == old(users) && videos == old(videos) && mindMaps == old(mindMaps) && quizzes == old(quizzes)
      ensures old(Valid()) ==> Valid()
    {
      var found := FindLogin(users, email, role);
      if found.Some? {
        currentUser := Some(users[found.value]);
        ok := true;
      } else {
        ok := false;
        assert forall u :: u in users ==> !(u.email == email && u.role == role);
      }
    }

    /** Create a student account with the given id and log it in. */
    method Register(id: string, name: string, email: string)
      modifies this
      ensures users == old(users) + [NewStudent(id, name, email)]
      ensures currentUser == Some(NewStudent(id, name, email))
      ensures videos == old(videos) && mindMaps == old(mindMaps) && quizzes == old(quizzes)
      ensures old(Valid()) ==> Valid()
    {
      var u := NewStudent(id, name, email);
      users := users + [u];
      currentUser := Some(u);
    }

    /** End the session; nothing else changes. */
    method Logout()
      modifies this
      ensures currentUser == None
      ensures users == old(users) && videos == old(videos) && mindMaps == old(mindMaps) && quizzes == old(quizzes)
      ensures old(Valid()) ==> Valid()
    {
      currentUser := None;
    }

    /** Write `updated` into the user set and the session together. */
    method Commit(updated: User)
      modifies this
      ensures users == WithUser(old(users), updated)
      ensures currentUser == Some(updated)
      ensures videos == old(videos) && mindMaps == old(mindMaps) && quizzes == old(quizzes)
    {
      users := WithUser(users, updated);
      currentUser := Some(updated);
    }

    /** After a commit of a record whose id was present and whose watched list has no repeats, the invariant holds. */
    lemma CommitKeepsValid(before: seq<User>, updated: User)
      requires forall u :: u in before ==> NoDuplicates(u.progress.watchedVideos)
      requires NoDuplicates(updated.progress.watchedVideos)
      requires exists u :: u in before && u.id == updated.id
      ensures updated in WithUser(before, updated)
      ensures forall u :: u in WithUser(before, updated) ==> NoDuplicates(u.progress.watchedVideos)
    {
      WithUserEffect(before, updated);
    }

    /** Under the invariant a logged-in user is always found in the user set by id. */
    lemma SessionIsFound()
      requires Valid() && currentUser.Some?
      ensures FindById(users, currentUser.value.id).Some?
    {
      assert currentUser.value in users;
    }

    /** Set the session user's class; a no-op when nobody is logged in. */
    method SetClass(level: ClassLevel)
      modifies this
      ensures old(currentUser).None? ==> users == old(users) && currentUser == None
      ensures old(currentUser).Some? ==>
        var updated := old(currentUser).value.(selectedClass := Some(level));
        users == WithUser(old(users), updated) && currentUser == Some(updated)
      ensures videos == old(videos) && mindMaps == old(mindMaps) && quizzes == old(quizzes)
      ensures old(Valid()) ==> Valid()
    {
      if currentUser.Some? {
        ghost var wasValid := Valid();
        ghost var before := users;
        var updated := currentUser.value.(selectedClass := Some(level));
        Commit(updated);
        if wasValid {
          CommitKeepsValid(before, updated);
        }
      }
    }

    /** Set the session user's name and avatar; a no-op when nobody is logged in. */
    method UpdateProfile(name: string, avatar: string)
      modifies this
      ensures old(currentUser).None? ==> users == old(users) && currentUser == None
      ensures old(currentUser).Some? ==>
        var updated := old(currentUser).value.(name := name, avatar := Some(avatar));
        users == WithUser(old(users), updated) && currentUser == Some(updated)
      ensures videos == old(videos) && mindMaps == old(mindMaps) && quizzes == old(quizzes)
      ensures old(Valid()) ==> Valid()
    {
      if currentUser.Some? {
        ghost var wasValid := Valid();
        ghost var before := users;
        var updated := currentUser.value.(name := name, avatar := Some(avatar));
        Commit(updated);
        if wasValid {
          CommitKeepsValid(before, updated);
        }
      }
    }

    /**
     Record a watched video and/or a quiz result for the session user. The
     update starts from the account's copy in the user set (looked up by the
     session user's id); nothing happens when nobody is logged in or the id is
     not in the user set. Under the invariant the id is always found, so a
     logged-in user's video and quiz result are then recorded.
     */
    method UpdateProgress(videoId: Option<string>, quizResult: Option<QuizResult>)
      modifies this
      ensures old(currentUser).None? || FindById(old(users), old(currentUser).value.id).None? ==>
        users == old(users) && currentUser == old(currentUser)
      ensures old(currentUser).Some? && FindById(old(users), old(currentUser).value.id).Some? ==>
        var u := old(users)[FindById(old(users), old(currentUser).value.id).value];
        var updated := u.(progress := ProgressAfter(u.progress, videoId, quizResult));
        users == WithUser(old(users), updated) && currentUser == Some(updated)
      ensures old(Valid()) && old(currentUser).Some? ==>
        && currentUser.Some?
        && (videoId.Some? && videoId.value != "" ==> videoId.value in currentUser.value.progress.watchedVideos)
        && (quizResult.Some? ==>
              && quizResult.value.quizId in currentUser.value.progress.quizScores
              && currentUser.value.progress.quizScores[quizResult.value.quizId] >= quizResult.value.score)
      ensures videos == old(videos) && mindMaps == old(mindMaps) && quizzes == old(quizzes)
      ensures old(Valid()) ==> Valid()
    {
      if Valid() && currentUser.Some? {
        SessionIsFound();
      }
      if currentUser.None? {
        return;
      }
      var found := FindById(users, currentUser.value.id);
      if found.None? {
        return;
      }
      ghost var wasValid := Valid();
      ghost var before := users;
      var u := users[found.value];
      var updated := u.(progress := ProgressAfter(u.progress, videoId, quizResult));
      Commit(updated);
      if wasValid {
        assert u in before;
        AddWatchedSpec(u.progress.watchedVideos, videoId);
        CommitKeepsValid(before, updated);
      }
    }

    /** Append `item` to the catalogue `kind` selects. */
    method AddContent(kind: string, item: Content)
      modifies this
      ensures Items(CollectionOf(kind)) == old(Items(CollectionOf(kind))) + [item]
      ensures forall c :: c != CollectionOf(kind) ==> Items(c) == old(Items(c))
      ensures users == old(users) && currentUser == old(currentUser)
      ensures old(Valid()) ==> Valid()
    {
      match CollectionOf(kind)
      case Videos => videos := videos + [item];
      case MindMaps => mindMaps := mindMaps + [item];
      case Quizzes => quizzes := quizzes + [item];
    }

    /** Drop every item with this id from the catalogue `kind` selects. */
    method RemoveContent(kind: string, id: string)
      modifies this
      ensures Items(CollectionOf(kind)) == RemoveById(old(Items(CollectionOf(kind))), id)
      ensures forall c :: c != CollectionOf(kind) ==> Items(c) == old(Items(c))
      ensures users == old(users) && currentUser == old(currentUser)
      ensures old(Valid()) ==> Valid()
    {
      match CollectionOf(kind)
      case Videos => videos := RemoveById(videos, id);
      case MindMaps => mindMaps := RemoveById(mindMaps, id);
      case Quizzes => quizzes := RemoveById(quizzes, id);
    }

    /** Replace every item with this id in the catalogue `kind` selects. */
    method EditContent(kind: string, id: string, updated: Content)
      modifies this
      ensures Items(CollectionOf(kind)) == EditById(old(Items(CollectionOf(kind))), id, updated)
      ensures forall c :: c != CollectionOf(kind) ==> Items(c) == old(Items(c))
      ensures users == old(users) && currentUser == old(currentUser)
      ensures old(Valid()) ==> Valid()
    {
      match CollectionOf(kind)
      case Videos => videos := EditById(videos, id, updated);
      case MindMaps => mindMaps := EditById(mindMaps, id, updated);
      case Quizzes => quizzes := EditById(quizzes, id, updated);
    }
  }
}
