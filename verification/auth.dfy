/** The sign-in decisions: the role guard in front of protected routes
    (`src/features/auth/ProtectedRoute.jsx`) and the login form
    (`src/features/auth/Login.jsx`). Browser storage reads are parameters:
    `None` is a key that is not stored. */
module Auth {
  import opened Basics

  /** What the guard renders: a redirect, or the protected content. */
  datatype Route = Redirect(to: string) | Outlet

  /** JavaScript truthiness of an optional string: present and not empty. */
  predicate Truthy(s: Option<string>) {
    s.Some? && s.value != ""
  }

  /** `ProtectedRoute`: no stored role sends the visitor to "/", as does a stored
      role other than a required one; otherwise the route is shown. */
  function Guard(storedRole: Option<string>, requiredRole: Option<string>): (r: Route)
    ensures r.Redirect? ==> r.to == "/"
    ensures r == Outlet <==>
      Truthy(storedRole) && (!Truthy(requiredRole) || storedRole.value == requiredRole.value)
  {
    if !Truthy(storedRole) then Redirect("/")
    else if Truthy(requiredRole) && storedRole.value != requiredRole.value then Redirect("/")
    else Outlet
  }

  /** Without a required role any signed-in role passes, and with one only that
      role passes. */
  lemma GuardRoles(role: string, required: string)
    requires role != "" && required != ""
    ensures Guard(Some(role), None) == Outlet && Guard(Some(role), Some("")) == Outlet
    ensures Guard(Some(role), Some(required)) == Outlet <==> role == required
    ensures Guard(None, Some(required)) == Redirect("/") && Guard(Some(""), Some(required)) == Redirect("/")
  {
  }

  /** An entry of the user list. */
  datatype User = User(username: string, password: string, role: string)

  predicate Matches(u: User, username: string, password: string) {
    u.username == username && u.password == password
  }

  /** `users.find(...)`: the first entry whose user name and password both match. */
  function FindUser(users: seq<User>, username: string, password: string): (r: Option<User>)
    ensures r.None? <==> forall i :: 0 <= i < |users| ==> !Matches(users[i], username, password)
    ensures r.Some? ==> exists i :: 0 <= i < |users| && users[i] == r.value && Matches(r.value, username, password)
                                   && forall j :: 0 <= j < i ==> !Matches(users[j], username, password)
  {
    if |users| == 0 then None
    else if Matches(users[0], username, password) then Some(users[0])
    else
      var r := FindUser(users[1..], username, password);
      if r.Some? then
        var i :| 0 <= i < |users[1..]| && users[1..][i] == r.value && Matches(r.value, username, password)
                 && forall j :: 0 <= j < i ==> !Matches(users[1..][j], username, password);
        assert users[i + 1] == r.value;
        assert forall j :: 1 <= j < i + 1 ==> users[j] == users[1..][j - 1];
        r
      else
        assert forall i :: 1 <= i < |users| ==> users[i] == users[1..][i - 1];
        r
  }

  /** Where a signed-in user is sent after logging in. */
  function HomeOf(role: string): (r: string)
    ensures r == "/admin" <==> role == "admin"
    ensures r == "/admin" || r == "/user"
  {
    if role == "admin" then "/admin" else "/user"
  }

  /** The effect of submitting the form: the error text shown, what is written
      under the "auth" key, and where the browser goes. */
  datatype LoginOutcome = LoginOutcome(error: string, stored: Option<User>, navigate: Option<string>)

  const InvalidCredentials := "Invalid username or password"

  /** `handleLogin`: with no matching entry the error is set and nothing is
      stored or visited; with one, the entry is stored and the browser goes to
      the home of its role. A successful login leaves the error text as it was. */
  function HandleLogin(users: seq<User>, username: string, password: string, error: string): (r: LoginOutcome)
    ensures r.stored == FindUser(users, username, password)
    ensures r.stored.None? ==> r.error == InvalidCredentials && r.navigate.None?
    ensures r.stored.Some? ==> r.error == error && r.navigate == Some(HomeOf(r.stored.value.role))
  {
    match FindUser(users, username, password)
    case None => LoginOutcome(InvalidCredentials, None, None)
    case Some(u) => LoginOutcome(error, Some(u), Some(HomeOf(u.role)))
  }

  /** Logging in succeeds exactly when some entry matches, and the browser goes to
      "/admin" exactly when the first match is an administrator. */
  lemma LoginNavigates(users: seq<User>, username: string, password: string, error: string)
    ensures var r := HandleLogin(users, username, password, error);
      && (r.navigate.Some? <==> exists i :: 0 <= i < |users| && Matches(users[i], username, password))
      && (r.navigate == Some("/admin") <==> r.stored.Some? && r.stored.value.role == "admin")
  {
  }

  /** The redirect when the form is shown with a stored record: administrators to
      "/admin", users to "/user", anyone else stays. */
  function RedirectOnRender(auth: Option<User>): (r: Option<string>)
    ensures r.Some? <==> auth.Some? && (auth.value.role == "admin" || auth.value.role == "user")
    ensures r.Some? ==> r.value == HomeOf(auth.value.role)
  {
    if auth.Some? && auth.value.role == "admin" then Some("/admin")
    else if auth.Some? && auth.value.role == "user" then Some("/user")
    else None
  }

  /** Showing the form again after a successful login sends an administrator or
      a user where the login did; for any other role the login went to "/user"
      but showing the form again stays put. */
  lemma LoginThenRender(users: seq<User>, username: string, password: string, error: string)
    requires FindUser(users, username, password).Some?
    ensures var r := HandleLogin(users, username, password, error);
      var role := r.stored.value.role;
      && (role == "admin" || role == "user" ==> RedirectOnRender(r.stored) == r.navigate)
      && (role != "admin" && role != "user" ==> RedirectOnRender(r.stored).None? && r.navigate == Some("/user"))
  {
  }
}
