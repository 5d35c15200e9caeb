/**
  The request middleware that guards every page of the dashboard.

  For each request it classifies the path (an API-auth route by prefix, an
  auth route or a public route by exact membership in a list) and either lets
  the request through or redirects it: a logged-in user away from the login
  pages, a logged-out user on a protected page to the login page with the
  original location carried in the `callbackUrl` query parameter.

  The route constants are parameters (`Routes`), and `encodeURIComponent` is
  an abstract function `encode` that lemmas assume to be injective.
*/
module RouteGuard {

  /** The route constants the middleware imports from the routes module. */
  datatype Routes = Routes(
    apiAuthPrefix: string,
    authRoutes: seq<string>,
    publicRoutes: seq<string>,
    defaultLoginRedirect: string)

  /** What the middleware reads of a request: the URL's pathname, its search
      part (`""` or a string that starts with `?`) and whether a session exists. */
  datatype Request = Request(pathname: string, search: string, isLoggedIn: bool)

  /** `Pass` is the handler's `return null`; `Redirect` is `Response.redirect`
      to a location relative to the request URL. */
  datatype Outcome = Pass | Redirect(location: string)

  /** The login page with the query parameter that carries the callback. */
  const LoginWithCallback: string := "/auth/login?callbackUrl="

  /** `String.prototype.startsWith`. */
  predicate StartsWith(s: string, prefix: string) {
    |prefix| <= |s| && s[..|prefix|] == prefix
  }

  predicate IsApiAuthRoute(routes: Routes, pathname: string) {
    StartsWith(pathname, routes.apiAuthPrefix)
  }

  /** `Array.prototype.includes` on the public-route list. */
  predicate IsPublicRoute(routes: Routes, pathname: string) {
    pathname in routes.publicRoutes
  }

  /** `Array.prototype.includes` on the auth-route list. */
  predicate IsAuthRoute(routes: Routes, pathname: string) {
    pathname in routes.authRoutes
  }

  /** A request as the URL parser delivers it: the pathname holds no `?`, and
      the search part is empty or begins with `?`. */
  predicate WellFormed(req: Request) {
    && (forall i :: 0 <= i < |req.pathname| ==> req.pathname[i] != '?')
    && (req.search == "" || req.search[0] == '?')
  }

  ghost predicate Injective(encode: string -> string) {
    forall a, b :: encode(a) == encode(b) ==> a == b
  }

  /** The location the login page is asked to return to: the pathname, with
      the search part appended only when it is non-empty. */
  function CallbackUrl(req: Request): (r: string)
    ensures r == req.pathname + req.search
  {
    if req.search != "" then req.pathname + req.search else req.pathname
  }

  /** The login redirect for a logged-out user on a protected page. */
  function LoginRedirect(encode: string -> string, req: Request): (o: Outcome)
    ensures o.Redirect? && StartsWith(o.location, LoginWithCallback)
    ensures o.location[|LoginWithCallback|..] == encode(req.pathname + req.search)
  {
    Redirect(LoginWithCallback + encode(CallbackUrl(req)))
  }

  /** The middleware's request handler. */
  function Guard(routes: Routes, encode: string -> string, req: Request): (o: Outcome)
    // an API-auth path passes whatever the session and whatever the lists say
    ensures IsApiAuthRoute(routes, req.pathname) ==> o == Pass
    // a logged-in user is only ever sent from an auth route to the default page
    ensures req.isLoggedIn && o.Redirect? ==>
      IsAuthRoute(routes, req.pathname) && o.location == routes.defaultLoginRedirect
    // a logged-out user is only ever sent to the login page, with the callback
    ensures !req.isLoggedIn && o.Redirect? ==>
      o == LoginRedirect(encode, req) && !IsPublicRoute(routes, req.pathname)
  {
    if IsApiAuthRoute(routes, req.pathname) then
      Pass
    else if IsAuthRoute(routes, req.pathname) then
      if req.isLoggedIn then Redirect(routes.defaultLoginRedirect) else Pass
    else if !req.isLoggedIn && !IsPublicRoute(routes, req.pathname) then
      LoginRedirect(encode, req)
    else
      Pass
  }

  /** The handler redirects exactly in the two situations the guard exists for. */
  lemma RedirectsExactlyWhen(routes: Routes, encode: string -> string, req: Request)
    ensures Guard(routes, encode, req).Redirect? <==>
      && !IsApiAuthRoute(routes, req.pathname)
      && (if IsAuthRoute(routes, req.pathname) then req.isLoggedIn
          else !req.isLoggedIn && !IsPublicRoute(routes, req.pathname))
  {
  }

  /** On an auth route (that is not an API-auth route) a logged-in user goes to
      the default page and a logged-out user passes, even if the route is also public. */
  lemma AuthRouteOutcome(routes: Routes, encode: string -> string, req: Request)
    requires !IsApiAuthRoute(routes, req.pathname) && IsAuthRoute(routes, req.pathname)
    ensures Guard(routes, encode, req) ==
      if req.isLoggedIn then Redirect(routes.defaultLoginRedirect) else Pass
  {
  }

  /** A logged-out user on a path in none of the three classes is sent to the
      login page with the encoded pathname and search as callback. */
  lemma ProtectedRouteOutcome(routes: Routes, encode: string -> string, req: Request)
    requires !req.isLoggedIn
    requires !IsApiAuthRoute(routes, req.pathname)
    requires !IsAuthRoute(routes, req.pathname) && !IsPublicRoute(routes, req.pathname)
    ensures Guard(routes, encode, req) ==
      Redirect(LoginWithCallback + encode(req.pathname + req.search))
  {
  }

  /** A public route that is not an auth route passes whatever the session. */
  lemma PublicRoutePasses(routes: Routes, encode: string -> string, req: Request)
    requires IsPublicRoute(routes, req.pathname) && !IsAuthRoute(routes, req.pathname)
    ensures Guard(routes, encode, req) == Pass
  {
  }

  /** Every request gets exactly one of three outcomes. */
  lemma GuardOutcomes(routes: Routes, encode: string -> string, req: Request)
    ensures var o := Guard(routes, encode, req);
      o == Pass || o == Redirect(routes.defaultLoginRedirect) || o == LoginRedirect(encode, req)
  {
  }

  /** API-auth classification is by prefix: every extension of the prefix is an
      API-auth route. Public and auth classification is by exact equality
      with some list entry. These hold by the definitions of the three
      predicates; the lemma records the matching rules, not a property of
      the handler. */
  lemma ClassificationRules(routes: Routes, rest: string, pathname: string)
    ensures IsApiAuthRoute(routes, routes.apiAuthPrefix + rest)
    ensures IsPublicRoute(routes, pathname) <==>
      exists i :: 0 <= i < |routes.publicRoutes| && routes.publicRoutes[i] == pathname
    ensures IsAuthRoute(routes, pathname) <==>
      exists i :: 0 <= i < |routes.authRoutes| && routes.authRoutes[i] == pathname
  {
  }

  /** The position of the first `?` in `s`, or `|s|` when there is none. */
  function QueryStart(s: string): (k: nat)
    ensures k <= |s|
    ensures forall i :: 0 <= i < k ==> s[i] != '?'
    ensures k < |s| ==> s[k] == '?'
  {
    if s == [] then 0 else if s[0] == '?' then 0 else 1 + QueryStart(s[1..])
  }

  /** In a well-formed request's callback the query starts right after the pathname. */
  lemma {:induction false} QueryStartOfCallback(p: string, q: string)
    requires forall i :: 0 <= i < |p| ==> p[i] != '?'
    requires q == "" || q[0] == '?'
    ensures QueryStart(p + q) == |p|
  {
    if p != [] {
      assert (p + q)[0] == p[0];
      assert (p + q)[1..] == p[1..] + q;
      QueryStartOfCallback(p[1..], q);
    } else {
      assert p + q == q;
    }
  }

  /** Two well-formed requests with the same callback have the same pathname and search. */
  lemma CallbackUrlInjective(r1: Request, r2: Request)
    requires WellFormed(r1) && WellFormed(r2)
    requires CallbackUrl(r1) == CallbackUrl(r2)
    ensures r1.pathname == r2.pathname && r1.search == r2.search
  {
    var c := CallbackUrl(r1);
    QueryStartOfCallback(r1.pathname, r1.search);
    QueryStartOfCallback(r2.pathname, r2.search);
    var k := QueryStart(c);
    assert r1.pathname == c[..k] == r2.pathname;
    assert r1.search == c[k..] == r2.search;
  }

  /** With an injective encoding, the login redirect determines the location
      the user asked for: the login page can send them back exactly there. */
  lemma LoginRedirectRecoversLocation(
    routes: Routes, encode: string -> string, r1: Request, r2: Request)
    requires Injective(encode)
    requires WellFormed(r1) && WellFormed(r2)
    requires !r1.isLoggedIn && !r2.isLoggedIn
    requires Guard(routes, encode, r1).Redirect?
    requires Guard(routes, encode, r1) == Guard(routes, encode, r2)
    ensures r1.pathname == r2.pathname && r1.search == r2.search
  {
    var loc := Guard(routes, encode, r1).location;
    assert loc[|LoginWithCallback|..] == encode(CallbackUrl(r1));
    assert loc[|LoginWithCallback|..] == encode(CallbackUrl(r2));
    assert CallbackUrl(r1) == CallbackUrl(r2);
    CallbackUrlInjective(r1, r2);
  }
}
