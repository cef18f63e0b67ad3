/**
 * The redirect decisions of the two request middlewares, as pure functions
 * of whether a session exists and of the request URL. Looking the session
 * up is left to the caller.
 */
module Urls {
  /** A request URL split into the parts the redirects treat differently. */
  datatype Url = Url(origin: string, pathname: string, search: string, hash: string)

  /** What a middleware does with a request. */
  datatype Decision = Pass | Redirect(target: Url)
}

/** middleware.ts at the repository root. */
module RootMiddleware {
  import opened Urls
  import opened Strings

  const SignInPath := "/auth/signin"
  const SignUpPath := "/auth/signup"
  const DashboardPath := "/dashboard"

  /** The path starts with one of the protected prefixes (only `/dashboard`). */
  predicate IsProtectedRoute(path: string)
  {
    StartsWith(path, DashboardPath)
  }

  /** The path starts with one of the sign-in or sign-up prefixes. */
  predicate IsAuthRoute(path: string)
  {
    StartsWith(path, SignInPath) || StartsWith(path, SignUpPath)
  }

  /**
   * `new URL(path, req.url)`: an absolute path resolved against the request
   * keeps only its origin; the query string and fragment are dropped.
   */
  function Resolve(path: string, req: Url): Url
  {
    Url(req.origin, path, "", "")
  }

  /**
   * The decision: without a session a protected route goes to sign-in; with
   * a session a sign-in or sign-up route goes to the dashboard; everything
   * else passes.
   */
  function Decide(hasSession: bool, req: Url): (d: Decision)
    ensures d.Redirect? ==> d.target.origin == req.origin && d.target.search == "" && d.target.hash == ""
  {
    if !hasSession && IsProtectedRoute(req.pathname) then Redirect(Resolve(SignInPath, req))
    else if hasSession && IsAuthRoute(req.pathname) then Redirect(Resolve(DashboardPath, req))
    else Pass
  }

  /** The complete decision table. */
  lemma DecisionTable(hasSession: bool, req: Url)
    ensures Decide(hasSession, req) == Redirect(Url(req.origin, "/auth/signin", "", ""))
        <==> !hasSession && IsProtectedRoute(req.pathname)
    ensures Decide(hasSession, req) == Redirect(Url(req.origin, "/dashboard", "", ""))
        <==> hasSession && IsAuthRoute(req.pathname)
    ensures Decide(hasSession, req) == Pass
        <==> !(!hasSession && IsProtectedRoute(req.pathname)) && !(hasSession && IsAuthRoute(req.pathname))
  {
  }

  /** The two redirect rules never both apply: they test opposite session states. */
  lemma RulesExclusive(hasSession: bool, path: string)
    ensures !((!hasSession && IsProtectedRoute(path)) && (hasSession && IsAuthRoute(path)))
  {
  }

  /** Following a redirect under the same session passes: there is no redirect loop. */
  lemma NoRedirectLoop(hasSession: bool, req: Url)
    requires Decide(hasSession, req).Redirect?
    ensures Decide(hasSession, Decide(hasSession, req).target) == Pass
  {
    assert "/auth/signin"[..|DashboardPath|][1] != DashboardPath[1];
    assert !StartsWith("/dashboard", SignInPath) && !StartsWith("/dashboard", SignUpPath);
  }

  /** Protection is by prefix: nested dashboard paths are protected, other sections are not. */
  lemma ProtectionByPrefix(suffix: string)
    ensures IsProtectedRoute("/dashboard" + suffix)
    ensures !IsProtectedRoute("/vital-signs")
    ensures !IsProtectedRoute("/exercises") && !IsProtectedRoute("/meals")
  {
    assert ("/dashboard" + suffix)[..|DashboardPath|] == DashboardPath;
    assert "/vital-signs"[..|DashboardPath|][1] != DashboardPath[1];
    assert "/exercises"[..|DashboardPath|][1] != DashboardPath[1];
  }
}

/** src/middleware.ts. */
module AppMiddleware {
  import opened Urls
  import opened Strings

  const AuthPrefix := "/auth"
  const SignInPath := "/auth/signin"
  const DashboardPath := "/dashboard"

  /** `nextUrl.clone()` with a new pathname: everything else of the URL is kept. */
  function WithPathname(req: Url, path: string): Url
  {
    req.(pathname := path)
  }

  /**
   * The decision: without a session every path outside `/auth` goes to
   * sign-in; with a session every `/auth` path goes to the dashboard.
   */
  function Decide(hasSession: bool, req: Url): (d: Decision)
    ensures d.Redirect? ==>
      && d.target.origin == req.origin && d.target.search == req.search && d.target.hash == req.hash
  {
    if !hasSession && !StartsWith(req.pathname, AuthPrefix) then Redirect(WithPathname(req, SignInPath))
    else if hasSession && StartsWith(req.pathname, AuthPrefix) then Redirect(WithPathname(req, DashboardPath))
    else Pass
  }

  /** The complete decision table. */
  lemma DecisionTable(hasSession: bool, req: Url)
    ensures !hasSession && !StartsWith(req.pathname, "/auth")
        ==> Decide(hasSession, req) == Redirect(req.(pathname := "/auth/signin"))
    ensures !hasSession && StartsWith(req.pathname, "/auth") ==> Decide(hasSession, req) == Pass
    ensures hasSession && StartsWith(req.pathname, "/auth")
        ==> Decide(hasSession, req) == Redirect(req.(pathname := "/dashboard"))
    ensures hasSession && !StartsWith(req.pathname, "/auth") ==> Decide(hasSession, req) == Pass
  {
  }

  /** A signed-in user cannot stay on the sign-in callback page either: it is under `/auth`. */
  lemma CallbackRedirectsWithSession(req: Url)
    requires req.pathname == "/auth/callback"
    ensures Decide(true, req) == Redirect(req.(pathname := "/dashboard"))
  {
    assert StartsWith("/auth/callback", AuthPrefix);
  }

  /** Following a redirect under the same session passes: there is no redirect loop. */
  lemma NoRedirectLoop(hasSession: bool, req: Url)
    requires Decide(hasSession, req).Redirect?
    ensures Decide(hasSession, Decide(hasSession, req).target) == Pass
  {
    assert StartsWith(SignInPath, AuthPrefix);
    assert DashboardPath[..|AuthPrefix|][1] != AuthPrefix[1];
  }
}
