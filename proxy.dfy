/** The request gate that runs before every matched request: the external
    proxy rewrite, the fail-open check of the backend credentials, the cookie
    bridge of the session refresh, the public and `/api` pass-throughs, and
    the sign-in and member-status redirects to `/login`. */
module Proxy {
  import opened Common
  import opened JsText

  // ---------------------------------------------------------------------
  // URLs, query parameters, cookies and responses
  // ---------------------------------------------------------------------

  /** One `name=value` pair of a URL's query, in the order `URLSearchParams`
      keeps them. */
  datatype Param = Param(name: string, value: string)

  /** A parsed URL: everything before the path, the path, the query as its
      list of parameters, and the fragment. */
  datatype Url = Url(origin: string, pathname: string, query: seq<Param>, hash: string)

  datatype Cookie = Cookie(name: string, value: string)

  /** A cookie store: request and response cookies are keyed by name. */
  type Jar = map<string, string>

  /** What the gate returns to the framework. */
  datatype Response =
      /** `NextResponse.next({ request })`: continue with the request, which
          carries the cookies `forwarded`, and send `cookies` to the browser. */
    | Next(forwarded: Jar, cookies: Jar)
      /** `NextResponse.rewrite(target)`: serve `target` under the same URL. */
    | Rewrite(target: Url)
      /** `NextResponse.redirect(location)`: a fresh redirect, with no cookies. */
    | Redirect(location: Url)

  datatype Request = Request(url: Url, cookies: Jar)

  /** The deployment's environment. `proxyTarget` is `PROXY_TARGET_URL`,
      already parsed, and `None` when it is unset or empty; the backend's URL
      and public key are the empty string when unset. */
  datatype Config = Config(proxyTarget: Option<Url>, backendUrl: string, anonKey: string)

  /** What the backend answers while the gate runs: the cookie batches the
      identity service hands to `setAll` while it resolves the session (one
      per session refresh), the resolved user, and the `members` row selected
      by that user's id (`None` when `.single()` yields no data). */
  datatype Backend = Backend(refreshes: seq<seq<Cookie>>, user: Option<User>, member: Option<MemberRow>)

  /** The response together with the backend calls made to produce it. */
  datatype Handled = Handled(response: Response, calls: seq<Call>)

  const ProxyPrefix: string := "/proxy/"
  const PublicRoutes: seq<string> := ["/", "/login", "/signup", "/auth", "/favicon.ico"]
  const ApiPrefix: string := "/api"
  const SignInRequiredMessage: string := "กรุณาเข้าสู่ระบบก่อนใช้งาน"
  const InactiveAccountMessage: string := "บัญชีของคุณถูกระงับหรือไม่ใช้งาน"

  // ---------------------------------------------------------------------
  // Route classification
  // ---------------------------------------------------------------------

  /** `path === route || path.startsWith(`${route}/`)` */
  predicate MatchesRoute(path: string, route: string) {
    path == route || StartsWith(path, route + "/")
  }

  /** `PUBLIC_ROUTES.some(...)` */
  predicate IsPublicRoute(path: string) {
    exists i :: 0 <= i < |PublicRoutes| && MatchesRoute(path, PublicRoutes[i])
  }

  /** The public paths, spelled out: the five routes themselves and the
      paths under them. Under `/` that means only paths starting `//`. */
  lemma PublicRouteCases(path: string)
    ensures IsPublicRoute(path) <==>
      || path == "/" || path == "/login" || path == "/signup" || path == "/auth" || path == "/favicon.ico"
      || StartsWith(path, "//") || StartsWith(path, "/login/") || StartsWith(path, "/signup/")
      || StartsWith(path, "/auth/") || StartsWith(path, "/favicon.ico/")
  {
    assert PublicRoutes[0] == "/" && PublicRoutes[1] == "/login" && PublicRoutes[2] == "/signup";
    assert PublicRoutes[3] == "/auth" && PublicRoutes[4] == "/favicon.ico";
    assert "/" + "/" == "//";
    assert "/login" + "/" == "/login/";
    assert "/signup" + "/" == "/signup/";
    assert "/auth" + "/" == "/auth/";
    assert "/favicon.ico" + "/" == "/favicon.ico/";
  }

  /** Prefix matching needs the separator: `/login/reset` and `//x` are
      public, `/loginx` and `/authors` are not. */
  lemma PublicRouteExamples()
    ensures IsPublicRoute("/login/reset") && IsPublicRoute("//x") && IsPublicRoute("/")
    ensures !IsPublicRoute("/loginx") && !IsPublicRoute("/authors")
  {
    assert MatchesRoute("/login/reset", PublicRoutes[1]) by {
      assert "/login/reset"[..7] == "/login/";
    }
    assert MatchesRoute("//x", PublicRoutes[0]) by {
      assert "//x"[..2] == "//";
    }
    assert MatchesRoute("/", PublicRoutes[0]);
    LoginxIsProtected();
    AuthorsIsProtected();
  }

  lemma DiffersAt(s: string, prefix: string, k: nat)
    requires k < |prefix| <= |s| && s[k] != prefix[k]
    ensures !StartsWith(s, prefix)
  {
    assert s[..|prefix|][k] == s[k];
  }

  lemma LoginxIsProtected()
    ensures !IsPublicRoute("/loginx")
  {
    PublicRouteCases("/loginx");
    DiffersAt("/loginx", "//", 1);
    DiffersAt("/loginx", "/login/", 6);
    DiffersAt("/loginx", "/auth/", 1);
  }

  lemma AuthorsIsProtected()
    ensures !IsPublicRoute("/authors")
  {
    PublicRouteCases("/authors");
    DiffersAt("/authors", "//", 1);
    DiffersAt("/authors", "/login/", 1);
    DiffersAt("/authors", "/auth/", 5);
    DiffersAt("/authors", "/signup/", 1);
  }

  /** A path whose second character is not `/` and that does not start with
      one of the route names is protected. */
  lemma NotPublicBySecondChar(path: string)
    requires |path| >= 2 && path[0] == '/' && path[1] !in "/lsaf"
    ensures !IsPublicRoute(path)
  {
    PublicRouteCases(path);
    assert "/login"[1] == 'l' && "/signup"[1] == 's' && "/auth"[1] == 'a' && "/favicon.ico"[1] == 'f';
  }

  /** No path under `/proxy/` is public, so with no proxy target such a path
      is gated like any protected path. */
  lemma ProxyPathsAreProtected(path: string)
    requires StartsWith(path, ProxyPrefix)
    ensures !IsPublicRoute(path)
  {
    assert path[1] == 'p';
    NotPublicBySecondChar(path);
  }

  // ---------------------------------------------------------------------
  // The proxy rewrite
  // ---------------------------------------------------------------------

  /** `pathname.replace(/\/$/, "")`: at most one trailing `/` is dropped. */
  function StripTrailingSlash(p: string): (r: string)
    ensures r == p || r + "/" == p
    ensures r + "/" == p <==> (|p| > 0 && p[|p| - 1] == '/')
  {
    if |p| > 0 && p[|p| - 1] == '/' then p[..|p| - 1] else p
  }

  /** The URL a `/proxy/...` request is rewritten to: the target's own path
      without one trailing `/`, then `/`, then what follows `/proxy/` in the
      request path; the request's query replaces the target's; origin and
      fragment are the target's. */
  function RewriteUrl(target: Url, path: string, query: seq<Param>): Url
    requires StartsWith(path, ProxyPrefix)
  {
    target.(pathname := StripTrailingSlash(target.pathname) + "/" + path[|ProxyPrefix|..], query := query)
  }

  lemma RewriteExample()
    ensures RewriteUrl(Url("https://api.example.com", "/gateway/", [], ""), "/proxy/v1/status", [Param("x", "1")])
         == Url("https://api.example.com", "/gateway/v1/status", [Param("x", "1")], "")
    ensures RewriteUrl(Url("https://api.example.com", "/gateway", [], ""), "/proxy/v1", [])
         == Url("https://api.example.com", "/gateway/v1", [], "")
    ensures RewriteUrl(Url("https://api.example.com", "/a//", [], ""), "/proxy/b", []).pathname == "/a//b"
  {
    assert "/proxy/v1/status"[7..] == "v1/status";
    assert "/proxy/v1"[7..] == "v1";
    assert "/proxy/b"[7..] == "b";
  }

  // ---------------------------------------------------------------------
  // URLSearchParams.set
  // ---------------------------------------------------------------------

  /** `searchParams.get(name)`: the first value under that name. */
  function Lookup(ps: seq<Param>, name: string): Option<string> {
    if ps == [] then None
    else if ps[0].name == name then Some(ps[0].value)
    else Lookup(ps[1..], name)
  }

  /** The parameters with any other name, in order. */
  function Without(ps: seq<Param>, name: string): seq<Param> {
    if ps == [] then []
    else if ps[0].name == name then Without(ps[1..], name)
    else [ps[0]] + Without(ps[1..], name)
  }

  function Count(ps: seq<Param>, name: string): nat {
    if ps == [] then 0
    else (if ps[0].name == name then 1 else 0) + Count(ps[1..], name)
  }

  /** The first parameter with that name takes the new value; the later ones
      with that name are removed. */
  function ReplaceFirst(ps: seq<Param>, name: string, value: string): seq<Param> {
    if ps == [] then []
    else if ps[0].name == name then [Param(name, value)] + Without(ps[1..], name)
    else [ps[0]] + ReplaceFirst(ps[1..], name, value)
  }

  /** `searchParams.set(name, value)`: replace the first parameter of that
      name and drop the others, or append one when there is none. */
  function SetParam(ps: seq<Param>, name: string, value: string): seq<Param> {
    if Count(ps, name) > 0 then ReplaceFirst(ps, name, value) else ps + [Param(name, value)]
  }

  lemma {:induction false} WithoutHasNone(ps: seq<Param>, name: string)
    ensures Count(Without(ps, name), name) == 0
  {
    if ps != [] {
      WithoutHasNone(ps[1..], name);
    }
  }

  lemma {:induction false} WithoutIdle(ps: seq<Param>, name: string)
    requires Count(ps, name) == 0
    ensures Without(ps, name) == ps
  {
    if ps != [] {
      WithoutIdle(ps[1..], name);
    }
  }

  lemma {:induction false} WithoutTwice(ps: seq<Param>, name: string)
    ensures Without(Without(ps, name), name) == Without(ps, name)
  {
    WithoutHasNone(ps, name);
    WithoutIdle(Without(ps, name), name);
  }

  lemma {:induction false} LookupAppend(ps: seq<Param>, p: Param, name: string)
    ensures Lookup(ps + [p], name) == if Count(ps, name) > 0 then Lookup(ps, name)
                                      else if p.name == name then Some(p.value) else None
  {
    if ps != [] {
      assert (ps + [p])[1..] == ps[1..] + [p];
      LookupAppend(ps[1..], p, name);
    }
  }

  lemma {:induction false} CountAppend(ps: seq<Param>, p: Param, name: string)
    ensures Count(ps + [p], name) == Count(ps, name) + (if p.name == name then 1 else 0)
  {
    if ps != [] {
      assert (ps + [p])[1..] == ps[1..] + [p];
      CountAppend(ps[1..], p, name);
    }
  }

  lemma {:induction false} WithoutAppend(ps: seq<Param>, p: Param, name: string)
    ensures Without(ps + [p], name) == Without(ps, name) + (if p.name == name then [] else [p])
  {
    if ps != [] {
      assert (ps + [p])[1..] == ps[1..] + [p];
      WithoutAppend(ps[1..], p, name);
    }
  }

  /** A name other than the removed one is looked up as before. */
  lemma {:induction false} LookupWithout(ps: seq<Param>, removed: string, name: string)
    requires name != removed
    ensures Lookup(Without(ps, removed), name) == Lookup(ps, name)
  {
    if ps != [] {
      LookupWithout(ps[1..], removed, name);
    }
  }

  lemma {:induction false} ReplaceFirstFacts(ps: seq<Param>, name: string, value: string)
    requires Count(ps, name) > 0
    ensures Count(ReplaceFirst(ps, name, value), name) == 1
    ensures Lookup(ReplaceFirst(ps, name, value), name) == Some(value)
    ensures Without(ReplaceFirst(ps, name, value), name) == Without(ps, name)
  {
    if ps[0].name == name {
      WithoutHasNone(ps[1..], name);
      WithoutTwice(ps[1..], name);
    } else {
      ReplaceFirstFacts(ps[1..], name, value);
    }
  }

  lemma {:induction false} CountAt(ps: seq<Param>, name: string, i: int)
    requires 0 <= i < |ps| && ps[i].name == name
    ensures Count(ps, name) > 0
  {
    if i > 0 {
      CountAt(ps[1..], name, i - 1);
    }
  }

  /** The replacement takes the place of the first parameter of that name:
      everything before it is kept as it was. */
  lemma {:induction false} ReplaceFirstKeepsPlace(ps: seq<Param>, name: string, value: string, i: int)
    requires 0 <= i < |ps| && ps[i].name == name
    requires forall j :: 0 <= j < i ==> ps[j].name != name
    ensures var r := ReplaceFirst(ps, name, value);
      i < |r| && r[..i] == ps[..i] && r[i] == Param(name, value)
  {
    if i > 0 {
      ReplaceFirstKeepsPlace(ps[1..], name, value, i - 1);
      var r := ReplaceFirst(ps, name, value);
      assert r == [ps[0]] + ReplaceFirst(ps[1..], name, value);
      assert r[..i] == [ps[0]] + ReplaceFirst(ps[1..], name, value)[..i - 1];
      assert ps[..i] == [ps[0]] + ps[1..][..i - 1];
    }
  }

  /** After `set(name, value)` there is exactly one parameter of that name,
      it holds `value`, and the other parameters are kept, in order; it sits
      where the first parameter of that name was, or at the end when the
      name was absent. */
  lemma SetParamFacts(ps: seq<Param>, name: string, value: string)
    ensures Count(SetParam(ps, name, value), name) == 1
    ensures Count(ps, name) == 0 ==> SetParam(ps, name, value) == ps + [Param(name, value)]
    ensures forall i :: 0 <= i < |ps| && ps[i].name == name && (forall j :: 0 <= j < i ==> ps[j].name != name) ==>
      i < |SetParam(ps, name, value)| && SetParam(ps, name, value)[..i] == ps[..i]
      && SetParam(ps, name, value)[i] == Param(name, value)
    ensures Lookup(SetParam(ps, name, value), name) == Some(value)
    ensures Without(SetParam(ps, name, value), name) == Without(ps, name)
  {
    forall i | 0 <= i < |ps| && ps[i].name == name && (forall j :: 0 <= j < i ==> ps[j].name != name)
      ensures i < |SetParam(ps, name, value)| && SetParam(ps, name, value)[..i] == ps[..i]
        && SetParam(ps, name, value)[i] == Param(name, value)
    {
      CountAt(ps, name, i);
      ReplaceFirstKeepsPlace(ps, name, value, i);
    }
    if Count(ps, name) > 0 {
      ReplaceFirstFacts(ps, name, value);
    } else {
      var p := Param(name, value);
      CountAppend(ps, p, name);
      LookupAppend(ps, p, name);
      WithoutAppend(ps, p, name);
    }
  }

  /** `set` leaves every other name's value as it was. */
  lemma SetParamKeepsOthers(ps: seq<Param>, name: string, value: string, other: string)
    requires other != name
    ensures Lookup(SetParam(ps, name, value), other) == Lookup(ps, other)
  {
    SetParamFacts(ps, name, value);
    LookupWithout(SetParam(ps, name, value), name, other);
    LookupWithout(ps, name, other);
  }

  // ---------------------------------------------------------------------
  // The cookie bridge
  // ---------------------------------------------------------------------

  /** A jar after the cookies of one batch are set on it in order; a later
      cookie of the same name overwrites an earlier one. */
  function Apply(jar: Jar, batch: seq<Cookie>): Jar
    decreases |batch|
  {
    if batch == [] then jar
    else Apply(jar, batch[..|batch| - 1])[batch[|batch| - 1].name := batch[|batch| - 1].value]
  }

  predicate Names(batch: seq<Cookie>, name: string) {
    exists j :: 0 <= j < |batch| && batch[j].name == name
  }

  /** The cookie at `j` is the last one of the batch with that name. */
  predicate IsLastOfName(batch: seq<Cookie>, j: int, name: string)
    requires 0 <= j < |batch|
  {
    batch[j].name == name && forall k :: j < k < |batch| ==> batch[k].name != name
  }

  /** Setting a batch adds its names to the jar and no others. */
  lemma {:induction false} ApplyKeys(jar: Jar, batch: seq<Cookie>, name: string)
    ensures name in Apply(jar, batch) <==> name in jar || Names(batch, name)
    decreases |batch|
  {
    if batch != [] {
      var init := batch[..|batch| - 1];
      ApplyKeys(jar, init, name);
      if Names(batch, name) && batch[|batch| - 1].name != name {
        var j :| 0 <= j < |batch| && batch[j].name == name;
        assert init[j].name == name;
      }
      if Names(init, name) {
        var j :| 0 <= j < |init| && init[j].name == name;
        assert batch[j].name == name;
      }
    }
  }

  /** A name the batch does not set keeps its value. */
  lemma {:induction false} ApplyKeepsUnnamed(jar: Jar, batch: seq<Cookie>, name: string)
    requires !Names(batch, name) && name in jar
    ensures name in Apply(jar, batch) && Apply(jar, batch)[name] == jar[name]
    decreases |batch|
  {
    if batch != [] {
      var init := batch[..|batch| - 1];
      assert !Names(init, name) by {
        forall j | 0 <= j < |init|
          ensures init[j].name != name
        {
          assert init[j] == batch[j];
        }
      }
      ApplyKeepsUnnamed(jar, init, name);
    }
  }

  /** A name the batch sets holds the value of its last cookie of that
      name. */
  lemma {:induction false} ApplyTakesLast(jar: Jar, batch: seq<Cookie>, name: string, j: int)
    requires 0 <= j < |batch| && IsLastOfName(batch, j, name)
    ensures name in Apply(jar, batch) && Apply(jar, batch)[name] == batch[j].value
    decreases |batch|
  {
    if j < |batch| - 1 {
      var init := batch[..|batch| - 1];
      assert init[j] == batch[j];
      assert IsLastOfName(init, j, name) by {
        forall k | j < k < |init|
          ensures init[k].name != name
        {
          assert init[k] == batch[k];
        }
      }
      ApplyTakesLast(jar, init, name, j);
    }
  }

  /** Setting two batches one after the other is setting their
      concatenation: request cookies accumulate across `setAll` calls. */
  lemma {:induction false} ApplyConcat(jar: Jar, first: seq<Cookie>, second: seq<Cookie>)
    ensures Apply(Apply(jar, first), second) == Apply(jar, first + second)
    decreases |second|
  {
    if second != [] {
      var init := second[..|second| - 1];
      ApplyConcat(jar, first, init);
      var all := first + second;
      assert all[..|all| - 1] == first + init;
      assert all[|all| - 1] == second[|second| - 1];
      var last := second[|second| - 1];
      assert Apply(jar, all) == Apply(jar, first + init)[last.name := last.value];
      assert Apply(Apply(jar, first), second) == Apply(Apply(jar, first), init)[last.name := last.value];
    } else {
      assert first + second == first;
    }
  }

  /** The request cookies after every batch of the session refresh. */
  function Accumulated(jar: Jar, batches: seq<seq<Cookie>>): Jar
    decreases |batches|
  {
    if batches == [] then jar
    else Apply(Accumulated(jar, batches[..|batches| - 1]), batches[|batches| - 1])
  }

  function Flatten(batches: seq<seq<Cookie>>): seq<Cookie>
    decreases |batches|
  {
    if batches == [] then [] else Flatten(batches[..|batches| - 1]) + batches[|batches| - 1]
  }

  /** The request ends up carrying every cookie of every batch, the last
      write of a name winning. */
  lemma {:induction false} AccumulatedIsFlatApply(jar: Jar, batches: seq<seq<Cookie>>)
    ensures Accumulated(jar, batches) == Apply(jar, Flatten(batches))
    decreases |batches|
  {
    if batches != [] {
      var init := batches[..|batches| - 1];
      AccumulatedIsFlatApply(jar, init);
      ApplyConcat(jar, Flatten(init), batches[|batches| - 1]);
    }
  }

  /** The pass-through response once the session refresh is over: before any
      `setAll` it is the initial `NextResponse.next`; after one, it is the
      response the last `setAll` made, forwarding the accumulated request
      cookies and setting on the browser exactly the last batch. */
  function Latest(jar: Jar, batches: seq<seq<Cookie>>): (r: Response)
    ensures r.Next?
  {
    if batches == [] then Next(jar, map[])
    else Next(Accumulated(jar, batches), Apply(map[], batches[|batches| - 1]))
  }

  /** The state the cookie adapter of the backend client shares with the
      gate: `request.cookies` and the `supabaseResponse` variable that each
      `setAll` replaces. */
  class CookieBridge {
    var requestCookies: Jar
    var response: Response

    /** `let supabaseResponse = NextResponse.next({ request })` */
    constructor (request: Request)
      ensures requestCookies == request.cookies
      ensures response == Next(request.cookies, map[])
    {
      requestCookies := request.cookies;
      response := Next(request.cookies, map[]);
    }

    /** `setAll(cookiesToSet)`: every cookie is set on the request, then a
        fresh response forwarding the request replaces the previous one, and
        exactly this batch is set on it. */
    method SetAll(cookiesToSet: seq<Cookie>)
      modifies this
      ensures requestCookies == Apply(old(requestCookies), cookiesToSet)
      ensures response == Next(requestCookies, Apply(map[], cookiesToSet))
    {
      var i := 0;
      while i < |cookiesToSet|
        invariant 0 <= i <= |cookiesToSet|
        invariant requestCookies == Apply(old(requestCookies), cookiesToSet[..i])
      {
        assert cookiesToSet[..i + 1][..i] == cookiesToSet[..i];
        requestCookies := requestCookies[cookiesToSet[i].name := cookiesToSet[i].value];
        i := i + 1;
      }
      assert cookiesToSet[..i] == cookiesToSet;
      var responseCookies: Jar := map[];
      i := 0;
      while i < |cookiesToSet|
        invariant 0 <= i <= |cookiesToSet|
        invariant responseCookies == Apply(map[], cookiesToSet[..i])
      {
        assert cookiesToSet[..i + 1][..i] == cookiesToSet[..i];
        responseCookies := responseCookies[cookiesToSet[i].name := cookiesToSet[i].value];
        i := i + 1;
      }
      assert cookiesToSet[..i] == cookiesToSet;
      response := Next(requestCookies, responseCookies);
    }
  }

  // ---------------------------------------------------------------------
  // The gate
  // ---------------------------------------------------------------------

  predicate IsActiveMember(member: Option<MemberRow>) {
    member.Some? && member.value.status == Some(ActiveStatus)
  }

  /** The redirect for a protected request without a session: `/login`,
      the original query kept, `next` set to the original path and `error`
      to the sign-in message. */
  function SignInRedirect(url: Url): Url {
    url.(pathname := LoginPath,
         query := SetParam(SetParam(url.query, "next", url.pathname), "error", SignInRequiredMessage))
  }

  /** The redirect for a session whose member is missing or not active:
      `/login`, the original query kept, `error` set to the inactive-account
      message. */
  function InactiveRedirect(url: Url): Url {
    url.(pathname := LoginPath, query := SetParam(url.query, "error", InactiveAccountMessage))
  }

  /** What the gate does with a request, first matching rule first. */
  function Gate(request: Request, config: Config, backend: Backend): Handled {
    var path := request.url.pathname;
    if StartsWith(path, ProxyPrefix) && config.proxyTarget.Some? then
      Handled(Rewrite(RewriteUrl(config.proxyTarget.value, path, request.url.query)), [])
    else if config.backendUrl == "" || config.anonKey == "" then
      Handled(Next(request.cookies, map[]), [])
    else if IsPublicRoute(path) || StartsWith(path, ApiPrefix) then
      Handled(Latest(request.cookies, backend.refreshes), [GetUser])
    else if backend.user.None? then
      Handled(Redirect(SignInRedirect(request.url)), [GetUser])
    else if !IsActiveMember(backend.member) then
      Handled(Redirect(InactiveRedirect(request.url)), [GetUser, SelectMemberStatus(backend.user.value.id)])
    else
      Handled(Latest(request.cookies, backend.refreshes), [GetUser, SelectMemberStatus(backend.user.value.id)])
  }

  /** `proxy(request)`: the chain of early returns, with the backend's
      answers standing in for its client. The response and the calls made are
      those `Gate` gives. */
  method HandleRequest(request: Request, config: Config, backend: Backend)
    returns (response: Response, calls: seq<Call>)
    ensures Handled(response, calls) == Gate(request, config, backend)
  {
    var bridge := new CookieBridge(request);
    var path := request.url.pathname;
    var isPublicRoute := IsPublicRoute(path);

    if StartsWith(path, ProxyPrefix) {
      if config.proxyTarget.Some? {
        var suffix := path[|ProxyPrefix|..];
        var targetUrl := config.proxyTarget.value;
        targetUrl := targetUrl.(pathname := StripTrailingSlash(targetUrl.pathname) + "/" + suffix);
        targetUrl := targetUrl.(query := request.url.query);
        return Rewrite(targetUrl), [];
      }
    }

    if config.backendUrl == "" || config.anonKey == "" {
      return bridge.response, [];
    }

    // `auth.getUser()`: the identity service hands each refreshed batch of
    // session cookies to `setAll` before it answers.
    calls := [GetUser];
    var i := 0;
    while i < |backend.refreshes|
      invariant 0 <= i <= |backend.refreshes|
      invariant bridge.requestCookies == Accumulated(request.cookies, backend.refreshes[..i])
      invariant bridge.response == Latest(request.cookies, backend.refreshes[..i])
    {
      assert backend.refreshes[..i + 1][..i] == backend.refreshes[..i];
      bridge.SetAll(backend.refreshes[i]);
      i := i + 1;
    }
    assert backend.refreshes[..i] == backend.refreshes;
    var user := backend.user;

    if isPublicRoute {
      return bridge.response, calls;
    }
    if StartsWith(path, ApiPrefix) {
      return bridge.response, calls;
    }

    if user.None? {
      var redirectUrl := request.url;
      redirectUrl := redirectUrl.(pathname := LoginPath);
      redirectUrl := redirectUrl.(query := SetParam(redirectUrl.query, "next", path));
      redirectUrl := redirectUrl.(query := SetParam(redirectUrl.query, "error", SignInRequiredMessage));
      return Redirect(redirectUrl), calls;
    }

    calls := calls + [SelectMemberStatus(user.value.id)];
    var member := backend.member;
    if member.None? || member.value.status != Some(ActiveStatus) {
      var redirectUrl := request.url;
      redirectUrl := redirectUrl.(pathname := LoginPath);
      redirectUrl := redirectUrl.(query := SetParam(redirectUrl.query, "error", InactiveAccountMessage));
      return Redirect(redirectUrl), calls;
    }

    return bridge.response, calls;
  }

  // ---------------------------------------------------------------------
  // What the gate guarantees
  // ---------------------------------------------------------------------

  predicate Rewrites(request: Request, config: Config) {
    StartsWith(request.url.pathname, ProxyPrefix) && config.proxyTarget.Some?
  }

  predicate HasCredentials(config: Config) {
    config.backendUrl != "" && config.anonKey != ""
  }

  predicate IsOpenPath(path: string) {
    IsPublicRoute(path) || StartsWith(path, ApiPrefix)
  }

  /** With a target configured, a `/proxy/` request is rewritten before any
      credential check or backend call: to the target's origin and fragment,
      its path without one trailing `/` plus `/` plus what follows
      `/proxy/`, and the request's own query. */
  lemma ProxyRewriteComesFirst(request: Request, config: Config, backend: Backend)
    requires Rewrites(request, config)
    ensures var h := Gate(request, config, backend);
      var base := config.proxyTarget.value;
      && h.calls == []
      && h.response.Rewrite?
      && h.response.target.origin == base.origin
      && h.response.target.hash == base.hash
      && h.response.target.query == request.url.query
      && h.response.target.pathname
         == StripTrailingSlash(base.pathname) + "/" + request.url.pathname[|ProxyPrefix|..]
  {
  }

  /** Only a configured target rewrites; without one a `/proxy/` path is
      neither public nor under `/api`, so it is gated like any protected
      path. */
  lemma UnconfiguredProxyIsGated(request: Request, config: Config, backend: Backend)
    requires StartsWith(request.url.pathname, ProxyPrefix) && config.proxyTarget.None?
    requires HasCredentials(config)
    ensures !IsOpenPath(request.url.pathname)
    ensures backend.user.None? ==> Gate(request, config, backend).response == Redirect(SignInRedirect(request.url))
  {
    ProxyPathsAreProtected(request.url.pathname);
    DiffersAt(request.url.pathname, ApiPrefix, 1);
  }

  /** Without the backend's URL or key the request passes through untouched,
      and nothing is asked of the backend. */
  lemma MissingCredentialsFailOpen(request: Request, config: Config, backend: Backend)
    requires !Rewrites(request, config) && !HasCredentials(config)
    ensures Gate(request, config, backend) == Handled(Next(request.cookies, map[]), [])
  {
  }

  /** Public paths and paths starting with `/api` (`/apiary` included) pass
      through whatever the session: the user is looked up, the `members`
      table is not. */
  lemma OpenPathsPassThrough(request: Request, config: Config, backend: Backend)
    requires !Rewrites(request, config) && HasCredentials(config)
    requires IsOpenPath(request.url.pathname)
    ensures Gate(request, config, backend) == Handled(Latest(request.cookies, backend.refreshes), [GetUser])
  {
  }

  /** A protected request without a session is sent to `/login`, keeping
      its query, with `next` set to its path and `error` to the sign-in
      message. */
  lemma SignInRequired(request: Request, config: Config, backend: Backend)
    requires !Rewrites(request, config) && HasCredentials(config)
    requires !IsOpenPath(request.url.pathname) && backend.user.None?
    ensures var h := Gate(request, config, backend);
      && h.calls == [GetUser]
      && h.response.Redirect?
      && h.response.location.origin == request.url.origin
      && h.response.location.pathname == LoginPath
      && Lookup(h.response.location.query, "next") == Some(request.url.pathname)
      && Lookup(h.response.location.query, "error") == Some(SignInRequiredMessage)
      && forall name :: name != "next" && name != "error" ==>
           Lookup(h.response.location.query, name) == Lookup(request.url.query, name)
  {
    var q := request.url.query;
    var q1 := SetParam(q, "next", request.url.pathname);
    var q2 := SetParam(q1, "error", SignInRequiredMessage);
    SetParamFacts(q1, "error", SignInRequiredMessage);
    SetParamFacts(q, "next", request.url.pathname);
    SetParamKeepsOthers(q1, "error", SignInRequiredMessage, "next");
    forall name | name != "next" && name != "error"
      ensures Lookup(q2, name) == Lookup(q, name)
    {
      SetParamKeepsOthers(q1, "error", SignInRequiredMessage, name);
      SetParamKeepsOthers(q, "next", request.url.pathname, name);
    }
  }

  /** A session whose member row is missing, or whose status is not exactly
      `active`, is sent to `/login` with the inactive-account message, which
      differs from the sign-in message; `next` is left as it was and no
      sign-out happens (the only calls are the two lookups). */
  lemma InactiveMemberRedirected(request: Request, config: Config, backend: Backend)
    requires !Rewrites(request, config) && HasCredentials(config)
    requires !IsOpenPath(request.url.pathname) && backend.user.Some?
    requires !IsActiveMember(backend.member)
    ensures var h := Gate(request, config, backend);
      && h.calls == [GetUser, SelectMemberStatus(backend.user.value.id)]
      && h.response.Redirect?
      && h.response.location.origin == request.url.origin
      && h.response.location.pathname == LoginPath
      && Lookup(h.response.location.query, "error") == Some(InactiveAccountMessage)
      && InactiveAccountMessage != SignInRequiredMessage
      && forall name :: name != "error" ==>
           Lookup(h.response.location.query, name) == Lookup(request.url.query, name)
  {
    var q := request.url.query;
    SetParamFacts(q, "error", InactiveAccountMessage);
    forall name | name != "error"
      ensures Lookup(SetParam(q, "error", InactiveAccountMessage), name) == Lookup(q, name)
    {
      SetParamKeepsOthers(q, "error", InactiveAccountMessage, name);
    }
    assert SignInRequiredMessage[0] != InactiveAccountMessage[0];
  }

  /** An active member's request passes through with the response of the
      session refresh. */
  lemma ActiveMemberPasses(request: Request, config: Config, backend: Backend)
    requires !Rewrites(request, config) && HasCredentials(config)
    requires !IsOpenPath(request.url.pathname) && backend.user.Some?
    requires IsActiveMember(backend.member)
    ensures Gate(request, config, backend)
         == Handled(Latest(request.cookies, backend.refreshes), [GetUser, SelectMemberStatus(backend.user.value.id)])
  {
  }

  /** The `members` table is read only for a protected path, with backend
      credentials, for the signed-in user, and after the user lookup. */
  lemma MemberQueriedOnlyWhenProtected(request: Request, config: Config, backend: Backend, id: string)
    requires SelectMemberStatus(id) in Gate(request, config, backend).calls
    ensures !Rewrites(request, config) && HasCredentials(config)
    ensures !IsOpenPath(request.url.pathname)
    ensures backend.user == Some(User(id))
    ensures Gate(request, config, backend).calls[0] == GetUser
  {
  }

  /** A pass-through after the session refresh forwards every refreshed
      cookie to the application (the last write of a name winning) and sets
      on the browser exactly the last batch; a redirect carries none of
      them. */
  lemma PassThroughCarriesRefresh(request: Request, config: Config, backend: Backend)
    requires !Rewrites(request, config) && HasCredentials(config)
    requires Gate(request, config, backend).response.Next?
    ensures var r := Gate(request, config, backend).response;
      && r.forwarded == Apply(request.cookies, Flatten(backend.refreshes))
      && r.cookies == (if backend.refreshes == [] then map[]
                       else Apply(map[], backend.refreshes[|backend.refreshes| - 1]))
  {
    AccumulatedIsFlatApply(request.cookies, backend.refreshes);
  }

  /** A `/proxy/` path with a query is rewritten onto the target. */
  lemma GateRewriteExample(cookies: Jar)
    ensures var config := Config(Some(Url("https://api.example.com", "/gateway/", [], "")), "https://db", "key");
      Gate(Request(Url("https://app", "/proxy/v1/status", [Param("x", "1")], ""), cookies), config, Backend([], None, None)).response
        == Rewrite(Url("https://api.example.com", "/gateway/v1/status", [Param("x", "1")], ""))
  {
    RewriteExample();
  }

  /** `/login` without a session passes through. */
  lemma GateLoginExample(cookies: Jar)
    ensures var config := Config(None, "https://db", "key");
      Gate(Request(Url("https://app", "/login", [], ""), cookies), config, Backend([], None, None)).response
        == Next(cookies, map[])
  {
    assert IsPublicRoute("/login") by {
      assert MatchesRoute("/login", PublicRoutes[1]);
    }
  }

  /** An `/api/` path without a session passes through. */
  lemma GateApiExample(cookies: Jar)
    ensures var config := Config(None, "https://db", "key");
      Gate(Request(Url("https://app", "/api/whatever", [], ""), cookies), config, Backend([], None, None)).response
        == Next(cookies, map[])
  {
    assert StartsWith("/api/whatever", ApiPrefix) by {
      assert "/api/whatever"[..4] == "/api";
    }
  }

  /** A suspended member on `/dashboard` is sent to `/login` with the
      inactive-account message. */
  lemma GateSuspendedExample(cookies: Jar)
    ensures var config := Config(None, "https://db", "key");
      Gate(Request(Url("https://app", "/dashboard", [], ""), cookies), config,
           Backend([], Some(User("u1")), Some(MemberRow(Some("suspended"))))).response
        == Redirect(Url("https://app", "/login", [Param("error", InactiveAccountMessage)], ""))
  {
    NotPublicBySecondChar("/dashboard");
    DiffersAt("/dashboard", ApiPrefix, 1);
    assert Some("suspended") != Some(ActiveStatus);
    assert Count([], "error") == 0;
  }
}
