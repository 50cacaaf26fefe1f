/** The front end's route guard: requests without an access token cookie are
    sent to the login page unless the path is public, and requests with one
    are sent home from the login and register pages. */
module Proxy {
  import opened Http
  import opened Text

  /** What the guard answers: a redirect to `/login?from=<path>`, a redirect
      to `/`, or letting the request through. */
  datatype Decision = RedirectToLogin(from: string) | RedirectHome | PassThrough

  const LoginPath: string := "/login"
  const HomePath: string := "/"

  /** Paths reachable without a token. */
  const PublicRoutes: seq<string> := ["/login", "/register"]

  /** Paths an authenticated user is sent away from. */
  const AuthRoutes: seq<string> := ["/login", "/register"]

  /** `routes.some(route => pathname.startsWith(route))` */
  predicate AnyPrefix(routes: seq<string>, pathname: string) {
    exists i | 0 <= i < |routes| :: StartsWith(pathname, routes[i])
  }

  /** `proxy`: `token` is the `accessToken` cookie, which counts only when
      it is a non-empty string. */
  function Guard(pathname: string, token: Option<string>): (d: Decision)
    ensures d == RedirectToLogin(pathname) <==> !Given(token) && !AnyPrefix(PublicRoutes, pathname)
    ensures d == RedirectHome <==> Given(token) && AnyPrefix(AuthRoutes, pathname)
    ensures d == PassThrough <==>
              (!Given(token) && AnyPrefix(PublicRoutes, pathname)) ||
              (Given(token) && !AnyPrefix(AuthRoutes, pathname))
  {
    var isAuthenticated := Given(token);
    var isPublicRoute := AnyPrefix(PublicRoutes, pathname);
    var isAuthRoute := AnyPrefix(AuthRoutes, pathname);
    if !isAuthenticated && !isPublicRoute then RedirectToLogin(pathname)
    else if isAuthenticated && isAuthRoute then RedirectHome
    else PassThrough
  }

  /** The path a redirect sends the browser to. */
  function Target(d: Decision): (path: string)
    requires !d.PassThrough?
    ensures d.RedirectToLogin? ==> path == LoginPath
    ensures d.RedirectHome? ==> path == HomePath
  {
    if d.RedirectToLogin? then LoginPath else HomePath
  }

  /** No redirect loop: the page a redirect leads to, requested with the
      same cookie, is let through. */
  lemma RedirectTargetPassesThrough(pathname: string, token: Option<string>)
    requires !Guard(pathname, token).PassThrough?
    ensures Guard(Target(Guard(pathname, token)), token) == PassThrough
  {
    if Given(token) {
      assert !AnyPrefix(AuthRoutes, HomePath) by {
        forall i | 0 <= i < |AuthRoutes|
          ensures !StartsWith(HomePath, AuthRoutes[i])
        {
        }
      }
    } else {
      assert StartsWith(LoginPath, PublicRoutes[0]);
    }
  }

  /** The public and auth lists are matched by prefix, so any path that
      merely begins with `/login` or `/register` counts: `/login-help` and
      `/registered` are public, and a signed-in user is sent home from
      them. */
  lemma PrefixMatchWidensPublic(rest: string, token: Option<string>)
    ensures Guard("/login" + rest, token) == (if Given(token) then RedirectHome else PassThrough)
    ensures Guard("/register" + rest, token) == (if Given(token) then RedirectHome else PassThrough)
  {
    assert StartsWith("/login" + rest, PublicRoutes[0]) by {
      assert ("/login" + rest)[..|"/login"|] == "/login";
    }
    assert StartsWith("/register" + rest, PublicRoutes[1]) by {
      assert ("/register" + rest)[..|"/register"|] == "/register";
    }
  }
}
