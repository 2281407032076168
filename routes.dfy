/**
 The application's route table: which page a path shows, or where it
 redirects, depending on who is logged in, and whether the navigation bar is
 shown.
 */
module Routes {
  import opened Seqs
  import opened Types

  /** The pages the router can show. */
  datatype Page =
    | LoginPage
    | RegisterPage
    | AdminDashboardPage
    | ClassSelectionPage
    | StudentDashboardPage
    | ProgressTrackerPage
    | ProfilePage

  /** A path either shows a page or redirects (replacing the history entry) to another path. */
  datatype Outcome = Render(page: Page) | Redirect(target: string)

  /** The route table as a nested decision on the session user, their role and their class. */
  function Route(currentUser: Option<User>, path: string): Outcome
  {
    if currentUser.None? then
      if path == "/login" then Render(LoginPage)
      else if path == "/register" then Render(RegisterPage)
      else Redirect("/login")
    else if currentUser.value.role == Admin then
      if path == "/admin" then Render(AdminDashboardPage)
      else Redirect("/admin")
    else if path == "/select-class" then Render(ClassSelectionPage)
    else if currentUser.value.selectedClass.Some? then
      if path == "/dashboard" then Render(StudentDashboardPage)
      else if path == "/progress" then Render(ProgressTrackerPage)
      else if path == "/profile" then Render(ProfilePage)
      else Redirect("/dashboard")
    else Redirect("/select-class")
  }

  /** The navigation bar is shown whenever someone is logged in. */
  predicate ShowNavbar(currentUser: Option<User>)
  {
    currentUser.Some?
  }

  /** The four kinds of session the table distinguishes. */
  datatype Session = Anonymous | AdminSession | StudentWithoutClass | StudentWithClass

  function SessionOf(currentUser: Option<User>): Session
  {
    if currentUser.None? then Anonymous
    else if currentUser.value.role == Admin then AdminSession
    else if currentUser.value.selectedClass.None? then StudentWithoutClass
    else StudentWithClass
  }

  /** The paths each kind of session may open, as a table. */
  function OpenPaths(s: Session): set<string>
  {
    match s
    case Anonymous => {"/login", "/register"}
    case AdminSession => {"/admin"}
    case StudentWithoutClass => {"/select-class"}
    case StudentWithClass => {"/select-class", "/dashboard", "/progress", "/profile"}
  }

  /** Where each kind of session is sent when it asks for anything else. */
  function Home(s: Session): string
  {
    match s
    case Anonymous => "/login"
    case AdminSession => "/admin"
    case StudentWithoutClass => "/select-class"
    case StudentWithClass => "/dashboard"
  }

  /**
   The route table agrees with the per-session table: a path renders exactly
   when the session may open it, every other path redirects to the session's
   home, the home is itself an open path, and the navigation bar is shown for
   every session except the anonymous one.
   */
  lemma RouteMatchesTable(currentUser: Option<User>, path: string)
    ensures Route(currentUser, path).Render? <==> path in OpenPaths(SessionOf(currentUser))
    ensures Route(currentUser, path).Redirect? ==> Route(currentUser, path).target == Home(SessionOf(currentUser))
    ensures Home(SessionOf(currentUser)) in OpenPaths(SessionOf(currentUser))
    ensures ShowNavbar(currentUser) <==> SessionOf(currentUser) != Anonymous
  {
  }

  /** No redirect chains: the target of every redirect renders a page. */
  lemma RedirectTargetRenders(currentUser: Option<User>, path: string)
    requires Route(currentUser, path).Redirect?
    ensures Route(currentUser, Route(currentUser, path).target).Render?
  {
  }

  /** Students always reach class selection, and choosing a class opens the dashboard. */
  lemma StudentClassSelection(u: User, level: ClassLevel)
    requires u.role == Student
    ensures Route(Some(u), "/select-class") == Render(ClassSelectionPage)
    ensures u.selectedClass.None? ==> Route(Some(u), "/dashboard") == Redirect("/select-class")
    ensures Route(Some(u.(selectedClass := Some(level))), "/dashboard") == Render(StudentDashboardPage)
    ensures ShowNavbar(Some(u))
  {
  }
}
