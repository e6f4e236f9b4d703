/**
 * The authentication provider and route guards of `App.tsx`. The app keeps
 * its own copy of the signed-in user next to the store's `authUser`; every
 * action of the provider goes through the store and then updates the copy,
 * so every sign-in, registration and sign-out keeps the two in step.
 */
module App {
  import opened Wrappers
  import opened Types
  import Db

  datatype AppState = AppState(store: Db.Store, current: Option<User>)

  /** The app's copy of the user is the store's signed-in user. */
  predicate InSync(a: AppState) {
    a.current == a.store.authUser
  }

  /** Mounting: the user is read back from the store. Seeding is not modelled. */
  function Boot(st: Db.Store): (a: AppState)
    ensures InSync(a) && a.store == st
  {
    AppState(st, st.authUser)
  }

  /**
   * `login`: succeeds exactly when some stored user matches the credentials;
   * on success the app's user is the first stored user that matches, and the
   * store changes only in recording that user as signed in; on failure
   * nothing changes.
   */
  function Login(a: AppState, email: string, pass: string): (r: (AppState, bool))
    ensures r.1 <==> exists u :: u in a.store.users && Db.LoginMatches(u, email, pass)
    ensures r.1 ==>
      r.0.current.Some? && r.0.current.value in a.store.users && Db.LoginMatches(r.0.current.value, email, pass)
    ensures r.1 ==> Db.FirstToMatch(a.store.users, email, pass, r.0.current.value)
    ensures r.1 ==> r.0.store == a.store.(authUser := r.0.current)
    ensures !r.1 ==> r.0 == a
    ensures InSync(a) ==> InSync(r.0)
  {
    var (st, u) := Db.Login(a.store, email, pass);
    if u.Some? then (AppState(st, u), true) else (a, false)
  }

  /** `register`: the new user is stored and becomes the signed-in user; the other lists stay. */
  function Register(a: AppState, draft: User, now: nat): (r: AppState)
    ensures r.current == Some(draft.(id := Db.NewUserId(now)))
    ensures r.store.users == a.store.users + [r.current.value]
    ensures r.store == a.store.(users := r.store.users, authUser := r.current)
    ensures InSync(r)
  {
    var (st, u) := Db.Register(a.store, draft, now);
    AppState(st, Some(u))
  }

  /** `logout`: nobody is signed in, in the store or in the app. */
  function Logout(a: AppState): (r: AppState)
    ensures r.current.None? && InSync(r)
    ensures r.store == a.store.(authUser := None)
  {
    AppState(Db.Logout(a.store), None)
  }

  /** Whatever the sequence of sign-ins, registrations and sign-outs, the copies agree. */
  datatype AuthAction = SignIn(email: string, pass: string) | SignUp(draft: User, now: nat) | SignOut

  function Apply(a: AppState, act: AuthAction): (r: AppState)
    ensures InSync(a) ==> InSync(r)
  {
    match act
    case SignIn(e, p) => Login(a, e, p).0
    case SignUp(d, n) => Register(a, d, n)
    case SignOut => Logout(a)
  }

  function ApplyAll(a: AppState, acts: seq<AuthAction>): (r: AppState)
    requires InSync(a)
    ensures InSync(r)
    decreases |acts|
  {
    if acts == [] then a else ApplyAll(Apply(a, acts[0]), acts[1..])
  }

  // ---------------------------------------------------------------- routing

  /** What a guarded route does: render its page, or redirect (replacing history) to a path. */
  datatype Outcome = Render | Redirect(to: string)

  /** `RequireAuth`: without a user, redirect to the sign-in form. */
  function RequireAuth(user: Option<User>): (o: Outcome)
    ensures o == Render <==> user.Some?
    ensures o != Render ==> o == Redirect("/auth?mode=login")
  {
    if user.None? then Redirect("/auth?mode=login") else Render
  }

  /**
   * The guard follows the session: after signing out it sends to the
   * sign-in form, after a successful sign-in or a registration it renders
   * its children.
   */
  lemma RequireAuthFollowsSession(a: AppState, email: string, pass: string, draft: User, now: nat)
    ensures RequireAuth(Logout(a).current) == Redirect("/auth?mode=login")
    ensures Login(a, email, pass).1 ==> RequireAuth(Login(a, email, pass).0.current) == Render
    ensures RequireAuth(Register(a, draft, now).current) == Render
  {
  }

  /** `AdminRoute`: only an administrator gets the dashboard; everyone else goes home. */
  function AdminRoute(user: Option<User>): (o: Outcome)
    ensures o == Render <==> user.Some? && user.value.role == Admin
    ensures o != Render ==> o == Redirect("/")
  {
    if user.None? || user.value.role != Admin then Redirect("/") else Render
  }

  /** The `/auth` route: a signed-in user is sent home instead of seeing the form. */
  function AuthRoute(user: Option<User>): (o: Outcome)
    ensures o == Render <==> user.None?
    ensures o != Render ==> o == Redirect("/")
  {
    if user.Some? then Redirect("/") else Render
  }

  /** Signing out closes the admin dashboard and reopens the sign-in form. */
  lemma LogoutClosesAdmin(a: AppState)
    ensures AdminRoute(Logout(a).current) == Redirect("/")
    ensures AuthRoute(Logout(a).current) == Render
  {
  }

  /** A registered user is never let into the admin dashboard unless the draft itself asked for the role. */
  lemma RegisterAdminOnlyByRole(a: AppState, draft: User, now: nat)
    ensures AdminRoute(Register(a, draft, now).current) == Render <==> draft.role == Admin
  {
  }
}
