# Learning portal core, modelled in Dafny

This project models the logic of a small browser learning portal for young
students:

- **The application store** (`store.ts`). It is one state record: accounts,
  the video, mind-map and quiz catalogues, and the logged-in user. Its
  operations are login, registration, logout, class selection, profile
  editing, progress recording, and adding, removing and editing content.
  The store is the class `Store.AppStore`. Its invariant `Valid()` says that
  the session user is one of the accounts and that no account lists a watched
  video twice. The per-operation updaters are pure functions with their own
  lemmas.
- **The student dashboard's logic** (`pages/StudentDashboard.tsx`):
  - the chapter and content filters by class level;
  - quiz grading (a counting loop) and the percentage;
  - YouTube embed-URL rewriting and the avatar-URL test;
  - the quiz dialog's cursor and answers, modelled as the class
    `QuizSessions.QuizSession`.
- **The route guard** (`App.tsx`). It is the function `Routes.Route` from
  (session user, path) to a rendered page or a redirect, together with the
  navigation-bar rule.

Files:

- `seqs.dfy`: the optional type and the generic find/filter/replace helpers.
- `strings.dfy`: JavaScript's `includes`, first-occurrence `replace` and
  `startsWith`.
- `types.dfy`: the records.
- `store.dfy`, `dashboard.dfy`, `quiz_session.dfy`, `routes.dfy`: one per
  component.

`types.ts` is not part of this model. The records in `types.dfy` are
reconstructed from how the store and the dashboard use them. Content items
are one datatype with three constructors, because the store's content
operations accept any item for any catalogue.

Modelling choices:

- Integers are unbounded. Quiz scores are integers.
- An `undefined` optional parameter is `None`.
- The quiz answers are a sequence, and an answer past its end is missing.
- `register`'s random id is a parameter of `Register`.
- The percentage is computed in floating point in the source. Here it is
  exact round-half-up, `(200·score + total) / (2·total)`.
- The store's methods do not assume `Valid()` on entry, because a state
  restored from storage is not validated. Each method promises that it keeps
  `Valid()`.

Three behaviours of the code are worth knowing; the model keeps them:

- Login compares emails exactly, so `A@x.com` and `a@x.com` are different
  accounts.
- Registering an email that a student account already uses appends a second
  student account. A later student login still finds the older one
  (`Store.RegisterThenLogin`). Login also matches on role, so an email that
  only an admin account uses leads a student login to the new account.
- A session user restored from storage is not re-checked against the
  accounts. Loading is not part of this model.

## Model

| member | source | states |
|---|---|---|
| `Store.AppStore.constructor` | store.ts:16-30 | The seed state holds only the `admin-1` account (role admin, no progress), three empty catalogues and no session user; the invariant holds. |
| `Store.FindLogin` | store.ts:47 | The found index is the FIRST account whose email equals the given one exactly (case-sensitive) and whose role matches; none is found iff no account matches. |
| `Store.FindById` | store.ts:102 | The found index is the first account with the session user's id; none is found iff no account has that id. |
| `Store.NewStudent` | store.ts:56-63 | The account `register` creates: a student with the given id, name and email, the smiling-face emoji avatar, no class and no progress; its properties are stated by `Store.AppStore.Register` and `Store.RegisterThenLogin`. |
| `Store.AppStore.Login` | store.ts:46-53 | Returns true iff some account has that email and role; on success the session user is the first such account; on failure the session is unchanged; accounts and catalogues never change; the invariant is kept. |
| `Store.AppStore.Register` | store.ts:55-69 | Appends exactly one student account (default emoji avatar, no class, empty progress) at the end and makes it the session user; nothing else changes. |
| `Store.RegisterThenLogin` | store.ts:47-68 | With no duplicate-email check, registering an email that a student account already has leaves login finding the older account; otherwise login finds the new one at the end. |
| `Store.AppStore.Logout` | store.ts:71-73 | The session becomes empty and every other field is unchanged. |
| `Store.WithUser` | store.ts:81 | The user set with every account that has the written record's id replaced by that record; `Store.WithUserEffect` states its effect. |
| `Store.WithUserEffect` | store.ts:81 | The user-set write replaces every account with the written id and no other, keeps the length, and contains the written record whenever the id was present. |
| `Store.AppStore.Commit` | store.ts:116-121 | The dual write the updaters end with: the user set becomes `WithUser` of the old one and the session user becomes the written record; the catalogues are unchanged. |
| `Store.AppStore.CommitKeepsValid` | store.ts:79-83 | Writing back a record whose id is present keeps the invariant: the record is then an account, and no account lists a watched video twice. |
| `Store.AppStore.SetClass` | store.ts:75-85 | No-op without a session; otherwise the session user with only `selectedClass` changed is written to both the session and every account with its id; catalogues unchanged; invariant kept. |
| `Store.AppStore.UpdateProfile` | store.ts:87-97 | No-op without a session; otherwise only name and avatar change, written to both the session and every account with its id; invariant kept. |
| `Store.AppStore.SessionIsFound` | store.ts:101-103 | Under the invariant a logged-in user is always found in the user set by id, so the lookup's not-found branch only fires on an invalid state. |
| `Store.AppStore.UpdateProgress` | store.ts:99-123 | No-op without a session or when the session id is not among the accounts; otherwise the account's copy in the user set gets the updated progress, written to the session and to every account with that id; invariant kept. From a valid state with a session user, the update is always recorded: a non-empty video id is then in the user's watched list, and a reported quiz is stored with at least the reported score. |
| `Store.AddWatched` | store.ts:106-108 | A video id is appended only when it is given, non-empty and not yet listed; `Store.AddWatchedSpec` states its properties. |
| `Store.AddWatchedSpec` | store.ts:106-108 | Recording a video keeps the list duplicate-free and keeps its old entries as a prefix; it grows by at most one; the list changes exactly when the id is given, non-empty and not yet listed, so no id or an empty id leaves it as it was; a non-empty id is present afterwards; it adds nothing else; recording twice equals recording once. |
| `Store.BestScore` | store.ts:109-114 | The score map with the reported quiz set to the larger of its old score (0 if none) and the reported one; `Store.BestScoreSpec` states its properties. |
| `Store.BestScoreSpec` | store.ts:109-114 | The stored score becomes the larger of the old score (0 if none) and the new one; no stored score decreases; other quizzes are untouched; reporting the same result again changes nothing. |
| `Store.ReportAllIsBest` | store.ts:109-114 | After results s1..sn for one quiz, its stored score is the maximum of the earlier score (0 if none) and all the si. |
| `Store.ProgressAfter` | store.ts:104-114 | The progress record after an update: the watched list through `AddWatched`, the scores through `BestScore` when a result is reported. |
| `Store.ProgressAfterIdempotent` | store.ts:99-114 | Applying the same progress update twice gives the same progress as applying it once. |
| `Store.ProgressAfterMonotone` | store.ts:104-114 | A progress update forgets no watched video and lowers no quiz score. |
| `Store.CollectionOf` | store.ts:126 | `'video'` selects the videos, `'map'` the mind maps, and every other tag the quizzes. |
| `Store.AppStore.AddContent` | store.ts:125-131 | The selected catalogue gets the item appended at its end; the other catalogues, the accounts and the session are unchanged. |
| `Store.RemoveById` | store.ts:137 | The catalogue without the items that have the id; `Store.RemoveByIdSpec` states its properties. |
| `Store.RemoveByIdSpec` | store.ts:137 | Removal leaves no item with the id; it keeps every other item with its multiplicity and in its order; it changes nothing when no item has the id. |
| `Store.AppStore.RemoveContent` | store.ts:133-139 | The selected catalogue loses every item with the id; the other catalogues, the accounts and the session are unchanged. |
| `Store.EditById` | store.ts:145 | The catalogue with every item that has the id replaced; `Store.EditByIdSpec` states its properties. |
| `Store.EditByIdSpec` | store.ts:145 | Editing keeps length and order; every position holding the id gets the new item; every other position is unchanged. |
| `Store.AppStore.EditContent` | store.ts:141-147 | The selected catalogue has every item with the id replaced; the other catalogues, the accounts and the session are unchanged. |
| `Dashboard.FilteredChapters` | pages/StudentDashboard.tsx:18-21 | The chapters whose class level equals the student's class; `Dashboard.FilteredChaptersSpec` states its properties. |
| `Dashboard.FilteredChaptersSpec` | pages/StudentDashboard.tsx:18-21 | A chapter is listed iff it is in the catalogue and its class level is the student's class; catalogue order is kept; with no class nothing is listed. |
| `Dashboard.ChapterIds` | pages/StudentDashboard.tsx:24 | The id list has one entry per chapter and holds exactly the chapters' ids. |
| `Dashboard.VisibleContent` | pages/StudentDashboard.tsx:23-30 | The three tabs: each catalogue filtered to the items whose chapter id is among the listed chapters' ids; `Dashboard.VisibleContentSpec` states its properties. |
| `Dashboard.VisibleContentSpec` | pages/StudentDashboard.tsx:23-30 | Each tab lists exactly the items of its catalogue whose chapter belongs to the student's class, as an order-preserving subsequence; with no class all three are empty. |
| `Dashboard.Class4Chapters` | constants.ts:4-8 | With the static catalogue, a class-4 student sees only the chapter "Chimpu Monkey". |
| `Dashboard.CorrectAmong` | pages/StudentDashboard.tsx:38-39 | The number of the first k questions whose given answer equals the correct option; `Dashboard.CorrectAmongSpec` states its properties. |
| `Dashboard.Score` | pages/StudentDashboard.tsx:37-40 | The number of correctly answered questions of the quiz; `Dashboard.ScoreSpec` states its properties and `Dashboard.GradeQuiz` computes it. |
| `Dashboard.GradeQuiz` | pages/StudentDashboard.tsx:37-40 | The counting loop returns the number of positions whose given answer equals the question's correct option. |
| `Dashboard.CorrectAmongSpec` | pages/StudentDashboard.tsx:38-39 | Among the first k questions, the correct count is at most k and at most the number of answers given (a missing answer never counts); it equals k iff each of them was answered correctly. |
| `Dashboard.ScoreSpec` | pages/StudentDashboard.tsx:36-40 | 0 ≤ score ≤ number of questions; the score is full iff every question was answered correctly. |
| `Dashboard.Percentage` | pages/StudentDashboard.tsx:41 | The score as a whole percentage of the question count, halves rounded up; `Dashboard.PercentageIsRounded`, `Dashboard.PercentageRange` and `Dashboard.PercentageMonotone` state its properties. |
| `Dashboard.PercentageIsRounded` | pages/StudentDashboard.tsx:41 | The percentage is the integer nearest to 100·score/total, with halves rounded up. |
| `Dashboard.PercentageRange` | pages/StudentDashboard.tsx:41 | The percentage lies in [0, 100]. It is 100 iff 200·(total − score) ≤ total, so for fewer than 200 questions iff every answer is right. |
| `Dashboard.PercentageMonotone` | pages/StudentDashboard.tsx:41 | A higher score never gives a lower percentage. |
| `Dashboard.HandleQuizSubmit` | pages/StudentDashboard.tsx:36-44 | Returns the graded score, the question count and the percentage (in [0, 100]), and reports the percentage to the store as a progress update without a video: with a session user found among the accounts, that user's stored score for the quiz becomes the larger of the old one (0 if none) and the percentage, their other scores and watched videos stay, and the record is written to the session and the accounts; otherwise the store is unchanged. From a valid store with a session user, the user is always found, so afterwards their stored score for the quiz is at least the percentage. The catalogues never change and the store's invariant is kept. |
| `Dashboard.TwoOfThree` | pages/StudentDashboard.tsx:36-41 | Concrete cases: answers 1,1,2 against correct 1,0,2 score 2 (67 per cent); 1,0,2 score 3; a single answer 1 scores 1. |
| `Dashboard.IsYouTube` | pages/StudentDashboard.tsx:58 | A URL is played in the embedded frame when it mentions `youtube.com` or `youtu.be`. |
| `Dashboard.GetEmbedUrl` | pages/StudentDashboard.tsx:48-56 | The watch-link and short-link rewrite, tested in that order; `Dashboard.GetEmbedUrlSpec` states its result. |
| `Dashboard.GetEmbedUrlSpec` | pages/StudentDashboard.tsx:48-58 | Only URLs that satisfy the YouTube test are rewritten. A watch link becomes the text before its first `watch?v=`, then `embed/`, then the text after that occurrence. A short link becomes the text before its first `youtu.be/`, then `youtube.com/embed/`, then the rest. Any other URL is returned unchanged. A YouTube URL is still one after the rewrite. |
| `Dashboard.WatchRewriteStaysYouTube` | pages/StudentDashboard.tsx:49-50 | Rewriting a watch link leaves `youtube.com` in it. The first `watch?v=` cannot overlap the host part of the matched link, so replacing it keeps the host. |
| `Dashboard.IsAvatarUrl` | pages/StudentDashboard.tsx:46 | The avatar is shown as a picture when it is set, non-empty and starts with `data:` or `http`; `Dashboard.IsAvatarUrlSpec` states its properties. |
| `Dashboard.IsAvatarUrlSpec` | pages/StudentDashboard.tsx:46 | An avatar is shown as a picture iff it is set and starts with `data:` or `http`; an unset avatar or a text shorter than four characters (an emoji) never is. |
| `QuizSessions.QuizSession.constructor` | pages/StudentDashboard.tsx:233-235 | A non-empty quiz opens on question 0 with no answers. |
| `QuizSessions.QuizSession.IsLast` | pages/StudentDashboard.tsx:241 | The cursor is on the last question, so the forward button submits. |
| `QuizSessions.QuizSession.BackDisabled` | pages/StudentDashboard.tsx:260 | The Back button is disabled on the first question. |
| `QuizSessions.QuizSession.ForwardDisabled` | pages/StudentDashboard.tsx:261 | The Next/Finish button is disabled while the current question has no answer. |
| `QuizSessions.QuizSession.Select` | pages/StudentDashboard.tsx:236-240 | Sets the answer at the cursor and leaves every other answer and the cursor unchanged; the forward button becomes enabled. |
| `QuizSessions.QuizSession.Back` | pages/StudentDashboard.tsx:260 | Where Back is disabled (the first question) nothing happens; otherwise the cursor moves back one question, and as that question is already answered, Next/Finish is enabled. The answers are unchanged. |
| `QuizSessions.QuizSession.Forward` | pages/StudentDashboard.tsx:241-263 | While the current question is unanswered nothing happens. On the last question it submits the answers, and a submission covers every question. Otherwise it moves to the next question. The cursor always stays on a question. |
| `Routes.Route` | App.tsx:28-59 | The route decision on the session user, their role and their class; `Routes.RouteMatchesTable`, `Routes.RedirectTargetRenders` and `Routes.StudentClassSelection` state its properties. |
| `Routes.ShowNavbar` | App.tsx:24 | The navigation bar is shown whenever someone is logged in. |
| `Routes.RouteMatchesTable` | App.tsx:24-59 | A path renders iff the session kind may open it: logged out `/login` and `/register`; admin `/admin`; student without class `/select-class`; student with class also `/dashboard`, `/progress` and `/profile`. Every other path redirects to that session's home, which is itself an open path. The navigation bar is shown for every session kind except the logged-out one. |
| `Routes.RedirectTargetRenders` | App.tsx:28-59 | The target of every redirect renders a page, so there are no redirect chains. |
| `Routes.StudentClassSelection` | App.tsx:24-58 | A student always reaches class selection. Without a class, the dashboard redirects to class selection. With a class chosen, the dashboard renders. The navigation bar is shown. |

## Left out

- Loading from and writing to the browser's storage (store.ts:33-44) is not
  modelled. This is browser I/O. The store starts from the seed state. A
  stored session user would be restored unchecked on load, which is why no
  method assumes the invariant on entry.
- `register`'s random id (store.ts:57) is a parameter. It is not claimed to
  be unique, so the user-set writes replace every account that shares an id.
- Aliasing in `updateProgress` is not modelled. The shallow copy at
  store.ts:105 means the `push` and the score write (lines 107 and 110) also
  change the previous state's arrays and maps. Only the new state's values
  are modelled.
- The percentage uses exact arithmetic instead of floating point.
  Floating-point rounding at exact halves is not modelled.
- An empty quiz is not modelled. The source would report `NaN`, but the quiz
  dialog cannot open on an empty quiz, because it reads the first question's
  text. So `HandleQuizSubmit` and `QuizSession` require at least one
  question.
- `QuizSession.Select` requires the choice to be one of the current
  question's options. Only the option buttons call it.
- The dialog's cancel button is not modelled. It only tells the dashboard to
  close the dialog.
- Route matching is exact string equality. React Router's case-insensitive
  matching and trailing-slash tolerance are not modelled.
- All rendering is out: JSX, tabs, modals, empty states, and the video
  `onLoad`/`onEnded` triggers that call `updateProgress` with a video id.
- `ClassLevel` has the three levels the chapter catalogue uses. `types.ts`
  is not part of this model.
- `pages/Login.tsx`, the colour constants, the build configuration and the
  AI tutor service are not part of this model.
