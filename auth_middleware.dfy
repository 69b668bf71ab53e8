/**
 * The authorisation middleware: the roles derived from a user's groups,
 * the session user built at login, the checks that admit or turn away a
 * request, and the inactivity expiry of a session.
 */
module AuthMiddleware {
  import opened JsValues
  import LdapService

  /** What a check does with a request: pass it on, answer with a JSON
      error, redirect a page request, or fail with a thrown `TypeError`. */
  datatype Response = Next | Json(status: int, error: string) | Redirect(location: string) | Thrown

  /** The role a group's `cn` grants. */
  function RoleFor(cn: string): (role: string)
    ensures cn == "administrators" <==> role == "admin" && cn != "admin"
    ensures cn == "developers" ==> role == "developer"
    ensures cn == "managers" ==> role == "manager"
    ensures cn !in {"administrators", "developers", "managers"} ==> role == cn
  {
    if cn == "administrators" then "admin"
    else if cn == "developers" then "developer"
    else if cn == "managers" then "manager"
    else cn
  }

  /** `[...new Set(xs)]`: each value once, at its first occurrence. */
  function Dedupe(xs: seq<string>): (r: seq<string>)
    ensures forall x :: x in r <==> x in xs
    ensures forall i, j :: 0 <= i < j < |r| ==> r[i] != r[j]
    ensures |xs| > 0 ==> |r| > 0 && r[0] == xs[0]
    decreases |xs|
  {
    if xs == [] then []
    else
      var init := xs[..|xs| - 1];
      var d := Dedupe(init);
      assert xs == init + [xs[|xs| - 1]];
      if xs[|xs| - 1] in d then d else d + [xs[|xs| - 1]]
  }

  /** The index of the first occurrence of `x` in `xs`. */
  function FirstIndex(xs: seq<string>, x: string): (k: nat)
    requires x in xs
    ensures k < |xs| && xs[k] == x
    ensures forall m :: 0 <= m < k ==> xs[m] != x
  {
    if xs[0] == x then 0 else 1 + FirstIndex(xs[1..], x)
  }

  /** Appending a value leaves the first occurrences already there. */
  lemma FirstIndexSnoc(init: seq<string>, y: string, x: string)
    requires x in init
    ensures FirstIndex(init + [y], x) == FirstIndex(init, x)
  {
    var k, k' := FirstIndex(init, x), FirstIndex(init + [y], x);
    assert (init + [y])[k] == x;
    assert forall m :: 0 <= m < k ==> (init + [y])[m] == init[m];
  }

  /** `[...new Set(xs)]` keeps the values in the order of their first
      occurrences in `xs`. */
  lemma {:induction false} DedupeOrder(xs: seq<string>)
    ensures forall i, j :: 0 <= i < j < |Dedupe(xs)| ==> FirstIndex(xs, Dedupe(xs)[i]) < FirstIndex(xs, Dedupe(xs)[j])
  {
    if xs != [] {
      var init, last := xs[..|xs| - 1], xs[|xs| - 1];
      assert xs == init + [last];
      var d := Dedupe(init);
      DedupeOrder(init);
      forall x | x in d ensures FirstIndex(xs, x) == FirstIndex(init, x) {
        FirstIndexSnoc(init, last, x);
      }
      if last !in d {
        assert last !in init;
        assert FirstIndex(xs, last) == |init|;
        var r := d + [last];
        forall i, j | 0 <= i < j < |r| ensures FirstIndex(xs, r[i]) < FirstIndex(xs, r[j]) {
          assert r[i] == d[i] && d[i] in d;
          if j < |d| {
            assert r[j] == d[j] && d[j] in d;
            assert FirstIndex(init, d[i]) < FirstIndex(init, d[j]);
          } else {
            assert r[j] == last;
            assert FirstIndex(xs, d[i]) == FirstIndex(init, d[i]) < |init|;
          }
        }
      }
    }
  }

  /** The roles before de-duplication: `user`, then one per group. */
  function RawRoles(groups: seq<string>): (r: seq<string>)
    ensures |r| == |groups| + 1 && r[0] == "user"
    ensures forall i :: 0 <= i < |groups| ==> r[i + 1] == RoleFor(groups[i])
  {
    ["user"] + seq(|groups|, i requires 0 <= i < |groups| => RoleFor(groups[i]))
  }

  /** One more group adds its role at the end. */
  lemma RawRolesSnoc(gs: seq<string>, i: nat)
    requires i < |gs|
    ensures RawRoles(gs[..i + 1]) == RawRoles(gs[..i]) + [RoleFor(gs[i])]
  {
    var a, b := RawRoles(gs[..i + 1]), RawRoles(gs[..i]) + [RoleFor(gs[i])];
    assert |a| == |b|;
    forall k | 0 <= k < |a| ensures a[k] == b[k] {
      if 0 < k <= i { assert gs[..i + 1][k - 1] == gs[..i][k - 1]; }
    }
  }

  /** `getUserRoles`: `groups` are the `cn`s of the user's groups, or
      `None` when looking them up failed. */
  function Roles(groups: Option<seq<string>>): seq<string>
  {
    match groups
    case None => ["user"]
    case Some(gs) => Dedupe(RawRoles(gs))
  }

  /** The loop of `getUserRoles` and the `Set` that follows it. */
  method GetUserRoles(groups: Option<seq<string>>) returns (roles: seq<string>)
    ensures roles == Roles(groups)
  {
    if groups.None? {
      return ["user"];
    }
    var gs := groups.value;
    var raw := ["user"];
    var i := 0;
    while i < |gs|
      invariant 0 <= i <= |gs|
      invariant raw == RawRoles(gs[..i])
    {
      var cn := gs[i];
      RawRolesSnoc(gs, i);
      if cn == "administrators" {
        raw := raw + ["admin"];
      } else if cn == "developers" {
        raw := raw + ["developer"];
      } else if cn == "managers" {
        raw := raw + ["manager"];
      } else {
        raw := raw + [cn];
      }
      i := i + 1;
    }
    assert gs[..|gs|] == gs;
    roles := Dedupe(raw);
  }

  /** `user` always comes first, no role appears twice, and the roles are
      exactly `user` and those the groups grant. */
  lemma RolesSpec(groups: Option<seq<string>>)
    ensures |Roles(groups)| > 0 && Roles(groups)[0] == "user"
    ensures forall i, j :: 0 <= i < j < |Roles(groups)| ==> Roles(groups)[i] != Roles(groups)[j]
    ensures groups.None? ==> Roles(groups) == ["user"]
    ensures groups.Some? ==> forall r :: r in Roles(groups) <==>
              r == "user" || exists i :: 0 <= i < |groups.value| && RoleFor(groups.value[i]) == r
  {
    if groups.Some? {
      var raw := RawRoles(groups.value);
      forall r | r in raw ensures r == "user" || exists i :: 0 <= i < |groups.value| && RoleFor(groups.value[i]) == r {
        var k :| 0 <= k < |raw| && raw[k] == r;
        if k > 0 { assert RoleFor(groups.value[k - 1]) == r; }
      }
      forall r | r != "user" && exists i :: 0 <= i < |groups.value| && RoleFor(groups.value[i]) == r ensures r in raw {
        var i :| 0 <= i < |groups.value| && RoleFor(groups.value[i]) == r;
        assert raw[i + 1] == r;
      }
    }
  }

  /** A user gets the `admin` role from the groups exactly when one of
      them is `administrators` or `admin`. */
  lemma AdminRoleIff(groups: seq<string>)
    ensures "admin" in Roles(Some(groups)) <==> "administrators" in groups || "admin" in groups
  {
    RolesSpec(Some(groups));
    if "administrators" in groups || "admin" in groups {
      var i :| 0 <= i < |groups| && groups[i] in {"administrators", "admin"};
      assert RoleFor(groups[i]) == "admin";
    }
  }

  /** The session user built at login.  `roles` is `None` when a session
      holds a user without roles; `lastLogin` is the login time as
      `toISOString` writes it. */
  datatype SessionUser = SessionUser(username: string, displayName: string, email: string, department: string,
                                     title: string, dn: string, roles: Option<seq<string>>, lastLogin: string)

  datatype LoginResult = LoggedIn(user: SessionUser) | LoginFailed(error: string)

  /** The display names known at login; anyone else is shown by user name. */
  function DisplayNameFor(username: string): (name: string)
    ensures username == "admin" ==> name == "Administrador"
    ensures username == "juan.perez" ==> name == "Juan Perez"
    ensures username == "ana.martinez" ==> name == "Ana Martinez"
    ensures username == "maria.garcia" ==> name == "Maria Garcia"
    ensures username !in {"admin", "juan.perez", "ana.martinez", "maria.garcia"} ==> name == username
  {
    if username == "admin" then "Administrador"
    else if username == "juan.perez" then "Juan Perez"
    else if username == "ana.martinez" then "Ana Martinez"
    else if username == "maria.garcia" then "Maria Garcia"
    else username
  }

  /** The middleware's `authenticateUser`, given the service's outcome and
      the ISO text of the current time.  The roles are fixed here and never
      read from the directory. */
  function AuthenticateUser(username: string, outcome: LdapService.AuthOutcome, now: string): (r: LoginResult)
    ensures r.LoginFailed? <==> outcome.NotAuthenticated?
    ensures r.LoginFailed? ==> r.error == "Credenciales inválidas"
    ensures r.LoggedIn? ==>
      && r.user.dn == outcome.userDN
      && r.user.username == username
      && r.user.email == username + "@ejemplo.com"
      && r.user.roles == Some(if username in {"admin", "ana.martinez"} then ["user", "admin"] else ["user"])
      && r.user.displayName == DisplayNameFor(username)
      && r.user.department == (if username == "admin" then "IT" else "General")
      && r.user.title == (if username == "admin" then "System Administrator" else "Usuario")
      && r.user.lastLogin == now
  {
    match outcome
    case NotAuthenticated(_) => LoginFailed("Credenciales inválidas")
    case Authenticated(dn) =>
      var roles := if username == "admin" || username == "ana.martinez" then ["user", "admin"] else ["user"];
      LoggedIn(SessionUser(username, DisplayNameFor(username), username + "@ejemplo.com",
                           if username == "admin" then "IT" else "General",
                           if username == "admin" then "System Administrator" else "Usuario",
                           dn, Some(roles), now))
  }

  /** Login through the service: a logged-in user's DN is the DN they bound
      with, and it is the administrator's DN only for `admin`. */
  lemma LoginDN(username: string, password: string, connectError: Option<string>,
                bind: (string, string) -> Option<string>, now: string)
    ensures var r := AuthenticateUser(username, LdapService.AuthenticateUser(username, password, connectError, bind), now);
      r.LoggedIn? ==> r.user.dn == LdapService.BindDN(username)
                      && (r.user.dn == LdapService.AdminDN <==> username == "admin")
  {
    LdapService.BindDNAdminIff(username);
  }

  /** `requireAuth`: a request with a session user goes on; any other gets
      401 or is sent to the login page. */
  function RequireAuth(user: Option<SessionUser>, wantsJson: bool): (r: Response)
    ensures r == Next <==> user.Some?
    ensures user.None? ==> r == if wantsJson then Json(401, "No autorizado") else Redirect("/auth/login")
  {
    if user.None? then (if wantsJson then Json(401, "No autorizado") else Redirect("/auth/login"))
    else Next
  }

  /** `requireRole(requiredRole)`. */
  function RequireRole(requiredRole: string, user: Option<SessionUser>, wantsJson: bool): (r: Response)
    ensures user.None? ==> r == RequireAuth(user, wantsJson)
  {
    if user.None? then RequireAuth(user, wantsJson)
    else
      var roles := if user.value.roles.Some? then user.value.roles.value else [];
      if requiredRole !in roles && "admin" !in roles then
        (if wantsJson then Json(403, "Acceso denegado") else Redirect("/dashboard"))
      else Next
  }

  /** A request passes `requireRole(r)` exactly when its user holds `r`
      or `admin`; a user without roles holds none. */
  lemma RequireRoleIff(requiredRole: string, user: Option<SessionUser>, wantsJson: bool)
    ensures RequireRole(requiredRole, user, wantsJson) == Next <==>
      user.Some? && user.value.roles.Some? &&
      (requiredRole in user.value.roles.value || "admin" in user.value.roles.value)
    ensures user.Some? && RequireRole(requiredRole, user, wantsJson) != Next ==>
      RequireRole(requiredRole, user, wantsJson) == if wantsJson then Json(403, "Acceso denegado") else Redirect("/dashboard")
  {
  }

  /** The administrator logged in through `authenticateUser` passes every
      role check; any other user logged in there passes only `user`. */
  lemma LoggedInRoles(username: string, outcome: LdapService.AuthOutcome, now: string, requiredRole: string, wantsJson: bool)
    requires AuthenticateUser(username, outcome, now).LoggedIn?
    ensures var u := AuthenticateUser(username, outcome, now).user;
      username in {"admin", "ana.martinez"} ==> RequireRole(requiredRole, Some(u), wantsJson) == Next
    ensures var u := AuthenticateUser(username, outcome, now).user;
      username !in {"admin", "ana.martinez"} ==>
        (RequireRole(requiredRole, Some(u), wantsJson) == Next <==> requiredRole == "user")
  {
    var u := AuthenticateUser(username, outcome, now).user;
    if username in {"admin", "ana.martinez"} {
      assert "admin" in u.roles.value;
    } else {
      assert u.roles.value == ["user"];
    }
  }

  /** `canModifyUser`: the target is the route's `dn`, else the body's.
      Without a session user, or one without roles, the check throws. */
  function CanModifyUser(user: Option<SessionUser>, paramsDN: string, bodyDN: string, wantsJson: bool): (r: Response)
    ensures r == Thrown <==> user.None? || user.value.roles.None?
    ensures r == Next <==>
      (user.Some? && user.value.roles.Some? &&
       ("admin" in user.value.roles.value || user.value.dn == (if paramsDN != "" then paramsDN else bodyDN)))
  {
    if user.None? || user.value.roles.None? then Thrown
    else
      var target := if paramsDN != "" then paramsDN else bodyDN;
      if "admin" in user.value.roles.value then Next
      else if user.value.dn == target then Next
      else if wantsJson then Json(403, "Acceso denegado")
      else Redirect("/dashboard")
  }

  /** Two hours, in milliseconds. */
  const MaxInactivity: int := 2 * 60 * 60 * 1000

  /** The session as `validateSession` sees it: its user, the time of the
      last activity (0 when never recorded) and whether it was destroyed. */
  datatype SessionState = SessionState(user: Option<SessionUser>, lastActivity: int, destroyed: bool)

  /** `validateSession` at time `now`: a session with a user expires when
      more than two hours passed since its last activity, and otherwise
      records `now` as its last activity. */
  function Validate(s: SessionState, now: int, wantsJson: bool): (r: (SessionState, Response))
    ensures s.user.None? ==> r == (s, Next)
    ensures s.user.Some? && now - s.lastActivity > MaxInactivity ==>
      r.0 == s.(destroyed := true) && r.1 == (if wantsJson then Json(401, "Sesión expirada") else Redirect("/auth/login"))
    ensures s.user.Some? && now - s.lastActivity <= MaxInactivity ==>
      r.1 == Next && r.0 == s.(lastActivity := now)
  {
    if s.user.None? then (s, Next)
    else if now - s.lastActivity > MaxInactivity then
      (s.(destroyed := true), if wantsJson then Json(401, "Sesión expirada") else Redirect("/auth/login"))
    else (s.(lastActivity := now), Next)
  }

  /** A session used at least every two hours never expires: each request
      that passes moves the window forward. */
  lemma {:induction false} ActiveSessionStays(s: SessionState, times: seq<int>, wantsJson: bool)
    requires s.user.Some?
    requires |times| > 0 ==> times[0] - s.lastActivity <= MaxInactivity
    requires forall i :: 0 < i < |times| ==> times[i] - times[i - 1] <= MaxInactivity
    ensures Replay(s, times, wantsJson).1
    ensures Replay(s, times, wantsJson).0.user == s.user
    ensures |times| > 0 ==> Replay(s, times, wantsJson).0.lastActivity == times[|times| - 1]
    decreases |times|
  {
    if |times| > 0 {
      var s' := Validate(s, times[0], wantsJson).0;
      ActiveSessionStays(s', times[1..], wantsJson);
    }
  }

  /** The session after a request at each of `times`, and whether every
      request was passed on. */
  function Replay(s: SessionState, times: seq<int>, wantsJson: bool): (SessionState, bool)
    decreases |times|
  {
    if times == [] then (s, true)
    else
      var (s', resp) := Validate(s, times[0], wantsJson);
      var (t, ok) := Replay(s', times[1..], wantsJson);
      (t, ok && resp == Next)
  }

  /** The session object: `validateSession` updates it in place. */
  class Session {
    var user: Option<SessionUser>
    var lastActivity: int
    var destroyed: bool

    function State(): SessionState
      reads this
    {
      SessionState(user, lastActivity, destroyed)
    }

    constructor(user: Option<SessionUser>, lastActivity: int)
      ensures State() == SessionState(user, lastActivity, false)
    {
      this.user := user;
      this.lastActivity := lastActivity;
      this.destroyed := false;
    }

    method ValidateSession(now: int, wantsJson: bool) returns (resp: Response)
      modifies this
      ensures (State(), resp) == Validate(old(State()), now, wantsJson)
    {
      resp := Next;
      if user.Some? {
        if now - lastActivity > MaxInactivity {
          destroyed := true;
          resp := if wantsJson then Json(401, "Sesión expirada") else Redirect("/auth/login");
          return;
        }
        lastActivity := now;
      }
    }
  }
}
