/** The dashboard route guard: a signed-in user is kept to the dashboard
    area of their role, and the sign-in check runs only on dashboard paths. */
module Proxy {
  import opened Text

  /** The session token; its `role` may be missing. */
  datatype Token = Token(role: Option<string>)

  /** `NextResponse.redirect(...)`, `NextResponse.next()`, or the sign-in
      page the middleware sends to when `authorized` says no. */
  datatype Decision = Redirect(to: string) | Next | SignIn

  const Auth := "/auth"
  const Student := "student"
  const Organizer := "organizer"
  const Admin := "admin"

  /** `/dashboard/<role>`. */
  function Dashboard(role: string): string
  {
    "/dashboard/" + role
  }

  /** The role a path belongs to: the first of the three dashboard
      prefixes it starts with. The test is on text, not on path segments. */
  function AreaOf(path: string): Option<string>
  {
    if StartsWith(path, Dashboard(Student)) then Some(Student)
    else if StartsWith(path, Dashboard(Organizer)) then Some(Organizer)
    else if StartsWith(path, Dashboard(Admin)) then Some(Admin)
    else None
  }

  /** Where a user who is denied an area is sent. */
  function Redirected(role: Option<string>, first: string, second: string): Decision
  {
    if role == Some(first) then Redirect(Dashboard(first))
    else if role == Some(second) then Redirect(Dashboard(second))
    else Redirect(Auth)
  }

  /** The `proxy` function: no token goes to `/auth`; in each role's area a
      user of another role goes to their own dashboard, or to `/auth` when
      the role is none of the three. */
  function Route(token: Option<Token>, path: string): Decision
  {
    if token.None? then Redirect(Auth)
    else
      var role := token.value.role;
      if StartsWith(path, Dashboard(Student)) then
        if role != Some(Student) then Redirected(role, Organizer, Admin) else Next
      else if StartsWith(path, Dashboard(Organizer)) then
        if role != Some(Organizer) then Redirected(role, Student, Admin) else Next
      else if StartsWith(path, Dashboard(Admin)) then
        if role != Some(Admin) then Redirected(role, Student, Organizer) else Next
      else Next
  }

  /** The `authorized` callback: a token is needed under `/dashboard`. */
  function Authorized(token: Option<Token>, path: string): bool
  {
    if StartsWith(path, "/dashboard") then token.Some? else true
  }

  /** The `matcher`, `/dashboard/:path*`. */
  predicate Guarded(path: string)
  {
    path == "/dashboard" || StartsWith(path, "/dashboard/")
  }

  /** The whole middleware: outside the matcher nothing happens; inside it,
      `authorized` runs first and `proxy` after it. */
  function Middleware(token: Option<Token>, path: string): Decision
  {
    if !Guarded(path) then Next
    else if !Authorized(token, path) then SignIn
    else Route(token, path)
  }

  // ---------------------------------------------------------------------------
  // Properties
  // ---------------------------------------------------------------------------

  /** One of the three roles. */
  predicate IsRole(role: string)
  {
    role == Student || role == Organizer || role == Admin
  }

  /** Where a user belongs: their dashboard, or `/auth` without a role. */
  function Home(role: Option<string>): string
  {
    if role.Some? && IsRole(role.value) then Dashboard(role.value) else Auth
  }

  /** With a token, the guard lets a user through exactly when the path is in
      no role's area or in their own; otherwise it sends them home. */
  lemma RouteByArea(t: Token, path: string)
    ensures Route(Some(t), path) == if AreaOf(path).None? || AreaOf(path) == t.role then Next else Redirect(Home(t.role))
  {
  }

  /** Without a token, the user goes to `/auth`. */
  lemma NoTokenToAuth(path: string)
    ensures Route(None, path) == Redirect(Auth)
  {
  }

  /** A redirect never sends the user into the area they were denied, and
      the page it sends them to lets them in. */
  lemma RedirectLandsOutsideDenied(t: Token, path: string)
    requires AreaOf(path).Some? && Route(Some(t), path).Redirect?
    ensures Route(Some(t), path).to != Dashboard(AreaOf(path).value)
    ensures Route(Some(t), path).to == Auth || Route(Some(t), path).to == Home(t.role)
    ensures Route(Some(t), path).to != Auth ==> Route(Some(t), Route(Some(t), path).to) == Next
  {
    RouteByArea(t, path);
    var home := Home(t.role);
    if home != Auth {
      HomeArea(t.role.value);
      RouteByArea(t, home);
    }
  }

  /** A role's own dashboard is in that role's area. */
  lemma HomeArea(role: string)
    requires IsRole(role)
    ensures AreaOf(Dashboard(role)) == Some(role)
  {
    var d := Dashboard(role);
    if role == Organizer {
      assert d == "/dashboard/organizer";
      assert d[..18][11] == 'o' != Dashboard(Student)[11];
    } else if role == Admin {
      assert d == "/dashboard/admin";
      assert |d| < |Dashboard(Student)| && |d| < |Dashboard(Organizer)|;
    } else {
      assert d[..|d|] == d;
    }
  }

  /** Dashboard pages outside the three areas pass for any token. */
  lemma OtherDashboardsPass(t: Token)
    ensures Route(Some(t), "/dashboard/sponsor") == Next
  {
    assert "/dashboard/sponsor"[11] == 's' != Dashboard(Organizer)[11];
    assert "/dashboard/sponsor"[11] == 's' != Dashboard(Admin)[11];
    assert "/dashboard/sponsor"[12] == 'p' != Dashboard(Student)[12];
  }

  /** The area test is not segment-aware: `/dashboard/studentx` is the
      student area. */
  lemma PrefixNotSegment()
    ensures AreaOf("/dashboard/studentx") == Some(Student)
  {
    assert "/dashboard/studentx"[..18] == Dashboard(Student);
  }

  /** Through the middleware, a guarded path without a token goes to the
      sign-in page, so `proxy`'s own no-token branch is not reached there;
      paths outside the matcher always pass. */
  lemma MiddlewareSignIn(token: Option<Token>, path: string)
    ensures Guarded(path) && token.None? ==> Middleware(token, path) == SignIn
    ensures Guarded(path) && token.Some? ==> Middleware(token, path) == Route(token, path)
    ensures !Guarded(path) ==> Middleware(token, path) == Next
  {
    if path == "/dashboard" {
      assert StartsWith(path, "/dashboard");
    } else if Guarded(path) {
      assert path[..10] == path[..11][..10];
    }
  }
}
