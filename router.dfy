/**
 * Request routing: `url_matches_route`, `match_request_to_route`, `route`
 * and `response`. A route table maps an HTTP method to its
 * `pattern => handler` pairs in declaration order; handlers are opaque
 * values of type `H`, and calling one is the caller-supplied function `call`.
 */
module Router {
  import opened Wrappers
  import opened PhpString

  /** `['GET' => ['/foo' => $handler, ...], ...]`, patterns in declaration order. */
  type RouteTable<H> = map<string, seq<(string, H)>>

  /**
   * The snapshot `expose_all()` hands to handlers. Its `view` closure is
   * not modelled; `route` reads `server['REQUEST_METHOD']` and
   * `server['REQUEST_URI']`, and `response` reads `server['SERVER_PROTOCOL']`.
   */
  datatype RequestContext = RequestContext(
    post: map<string, string>,
    get: map<string, string>,
    request: map<string, string>,
    server: map<string, string>,
    argv: seq<string>,
    env: map<string, string>,
    cookie: map<string, string>,
    session: map<string, string>)

  // ------------------------------------------------------ url_matches_route

  /** `explode('?', $uri)[0]`: the URI up to, not including, its first `?`. */
  function BeforeQuery(uri: string): string
  {
    Split(uri, "?")[0]
  }

  /** The path is a `?`-free prefix of the URI, followed by `?` when it is shorter. */
  lemma BeforeQueryShape(uri: string)
    ensures var path := BeforeQuery(uri);
            && '?' !in path && path <= uri
            && (|path| < |uri| ==> uri[|path|] == '?')
  {
    var path := BeforeQuery(uri);
    SplitHead(uri, "?");
    forall k | 0 <= k < |path| ensures path[k] != '?' {
      OneCharOccursAt(path, "?", k);
    }
    OneCharOccursAt(uri, "?", |path|);
  }

  /** A path without `?` followed by a query (or nothing) cuts back to the path. */
  lemma BeforeQueryOf(path: string, rest: string)
    requires '?' !in path
    requires rest == [] || rest[0] == '?'
    ensures BeforeQuery(path + rest) == path
  {
    if rest == [] {
      assert path + rest == path;
      SplitWhole(path, "?");
    } else {
      assert path + rest == path + "?" + rest[1..];
      SplitFirstPiece(path, "?", rest[1..]);
    }
  }

  /**
   * `url_matches_route($uri, $pattern)`: the URI without its query, and the
   * pattern, are compared after trimming all leading and trailing slashes.
   */
  function UrlMatchesRoute(uri: string, pattern: string): (matches: bool)
    ensures matches <==> Trim(BeforeQuery(uri), '/') == Trim(pattern, '/')
  {
    var u, p := Trim(BeforeQuery(uri), '/'), Trim(pattern, '/');
    assert ("/" + u == "/" + p) ==> u == ("/" + u)[1..] == ("/" + p)[1..] == p;
    "/" + u == "/" + p
  }

  /** The query string never takes part in matching. */
  lemma QueryIgnored(path: string, query: string, pattern: string)
    requires '?' !in path
    ensures UrlMatchesRoute(path + "?" + query, pattern) <==> UrlMatchesRoute(path, pattern)
  {
    assert path + "?" + query == path + ("?" + query);
    BeforeQueryOf(path, "?" + query);
    assert path + [] == path;
    BeforeQueryOf(path, []);
  }

  /**
   * Slashes around a path are insignificant on both sides: any padding of
   * the same slash-free-at-the-ends path on the URI and on the pattern matches.
   */
  lemma SlashPaddingIgnored(x: string, a: nat, b: nat, c: nat, d: nat)
    requires '?' !in x
    requires x == [] || (x[0] != '/' && x[|x| - 1] != '/')
    ensures UrlMatchesRoute(Rep('/', a) + x + Rep('/', b), Rep('/', c) + x + Rep('/', d))
  {
    var uri := Rep('/', a) + x + Rep('/', b);
    assert '?' !in uri;
    assert uri + [] == uri;
    BeforeQueryOf(uri, []);
    TrimOfPadded('/', a, x, b);
    TrimOfPadded('/', c, x, d);
  }

  /** Paths that differ once trimmed never match, whatever the query. */
  lemma DifferentPathsDoNotMatch(path: string, query: string, pattern: string)
    requires '?' !in path
    requires Trim(path, '/') != Trim(pattern, '/')
    ensures !UrlMatchesRoute(path + "?" + query, pattern)
  {
    QueryIgnored(path, query, pattern);
    assert path + [] == path;
    BeforeQueryOf(path, []);
  }

  /** `'/?foo=bar'` matches `'/'`. */
  lemma RootWithQueryMatches(q: string)
    requires q == "foo=bar"
    ensures UrlMatchesRoute("/" + "?" + q, "/")
  {
    QueryIgnored("/", q, "/");
    SlashPaddingIgnored([], 1, 0, 1, 0);
    assert Rep('/', 1) + [] + Rep('/', 0) == "/";
  }

  /** `'/post/url/'` matches `'/post/url'`. */
  lemma TrailingSlashMatches(postUrl: string)
    requires postUrl == "post/url"
    ensures UrlMatchesRoute("/" + postUrl + "/", "/" + postUrl)
  {
    SlashPaddingIgnored(postUrl, 1, 1, 1, 0);
    assert Rep('/', 1) + postUrl + Rep('/', 1) == "/" + postUrl + "/";
    assert Rep('/', 1) + postUrl + Rep('/', 0) == "/" + postUrl;
  }

  /** `'/foo/bar?foo=bar'` matches `'/foo/bar'`. */
  lemma PathWithQueryMatches(fooBar: string, q: string)
    requires fooBar == "foo/bar" && q == "foo=bar"
    ensures UrlMatchesRoute("/" + fooBar + "?" + q, "/" + fooBar)
  {
    var path := "/" + fooBar;
    QueryIgnored(path, q, path);
    assert path == Rep('/', 1) + fooBar + Rep('/', 0);
    SlashPaddingIgnored(fooBar, 1, 0, 1, 0);
  }

  /** `'/foo/bar?foo=bar'` does not match `'/no/way'`. */
  lemma OtherPathDoesNotMatch(fooBar: string, q: string, noWay: string)
    requires fooBar == "foo/bar" && q == "foo=bar" && noWay == "no/way"
    ensures !UrlMatchesRoute("/" + fooBar + "?" + q, "/" + noWay)
  {
    var path, other := "/" + fooBar, "/" + noWay;
    assert path == Rep('/', 1) + fooBar + Rep('/', 0);
    assert other == Rep('/', 1) + noWay + Rep('/', 0);
    TrimOfPadded('/', 1, fooBar, 0);
    TrimOfPadded('/', 1, noWay, 0);
    assert fooBar[0] != noWay[0];
    DifferentPathsDoNotMatch(path, q, other);
  }

  // ------------------------------------------------- match_request_to_route

  /** The first pattern at or after `k` that `uri` matches. */
  function FirstMatchFrom<H>(patterns: seq<(string, H)>, uri: string, k: nat): (r: Option<nat>)
    requires k <= |patterns|
    ensures r.Some? ==> k <= r.value < |patterns| && UrlMatchesRoute(uri, patterns[r.value].0)
    ensures r.Some? ==> forall j :: k <= j < r.value ==> !UrlMatchesRoute(uri, patterns[j].0)
    ensures r.None? <==> forall j :: k <= j < |patterns| ==> !UrlMatchesRoute(uri, patterns[j].0)
    decreases |patterns| - k
  {
    if k == |patterns| then None
    else if UrlMatchesRoute(uri, patterns[k].0) then Some(k)
    else FirstMatchFrom(patterns, uri, k + 1)
  }

  /**
   * The handler `match_request_to_route($routes)($method, $uri)` returns:
   * none when the method has no routes or no pattern matches, otherwise the
   * handler of the earliest declared matching pattern.
   */
  function Resolve<H>(routes: RouteTable<H>, requestMethod: string, uri: string): (r: Option<H>)
    ensures requestMethod !in routes ==> r.None?
    ensures requestMethod in routes ==>
              (r.None? <==> forall j :: 0 <= j < |routes[requestMethod]| ==>
                              !UrlMatchesRoute(uri, routes[requestMethod][j].0))
    ensures r.Some? ==>
              (requestMethod in routes &&
               exists i :: 0 <= i < |routes[requestMethod]| &&
                 r.value == routes[requestMethod][i].1 &&
                 UrlMatchesRoute(uri, routes[requestMethod][i].0) &&
                 forall j :: 0 <= j < i ==> !UrlMatchesRoute(uri, routes[requestMethod][j].0))
  {
    if requestMethod !in routes then None
    else
      var patterns := routes[requestMethod];
      match FirstMatchFrom(patterns, uri, 0)
      case None => None
      case Some(i) => Some(patterns[i].1)
  }

  /** `match_request_to_route`: a scan of the method's patterns that returns at the first match. */
  method MatchRequestToRoute<H>(routes: RouteTable<H>, requestMethod: string, url: string)
    returns (handler: Option<H>)
    ensures handler == Resolve(routes, requestMethod, url)
  {
    if requestMethod !in routes {
      return None;
    }
    var patterns := routes[requestMethod];
    var i := 0;
    while i < |patterns|
      invariant 0 <= i <= |patterns|
      invariant FirstMatchFrom(patterns, url, i) == FirstMatchFrom(patterns, url, 0)
    {
      if UrlMatchesRoute(url, patterns[i].0) {
        return Some(patterns[i].1);
      }
      i := i + 1;
    }
    return None;
  }

  // ------------------------------------------------------- route / response

  /** What `route` yields: the resolved handler applied to the context, or nothing. */
  function Dispatch<H>(routes: RouteTable<H>, requestMethod: string, uri: string,
                       ctx: RequestContext, call: (H, RequestContext) -> string): (r: Option<string>)
    ensures r.None? <==> Resolve(routes, requestMethod, uri).None?
    ensures r.Some? ==> r.value == call(Resolve(routes, requestMethod, uri).value, ctx)
  {
    match Resolve(routes, requestMethod, uri)
    case None => None
    case Some(h) => Some(call(h, ctx))
  }

  /** `route` reads both keys of the server array; PHP raises a TypeError when either is missing. */
  datatype RouteError = MissingServerKey

  /**
   * `route($routes, $exposed_all)`: resolves the request method and URI of
   * the context and calls the handler with the whole context.
   */
  method Route<H>(routes: RouteTable<H>, ctx: RequestContext, call: (H, RequestContext) -> string)
    returns (result: Result<Option<string>, RouteError>)
    ensures result.Err? <==> "REQUEST_METHOD" !in ctx.server || "REQUEST_URI" !in ctx.server
    ensures result.Ok? ==>
              result.value == Dispatch(routes, ctx.server["REQUEST_METHOD"], ctx.server["REQUEST_URI"], ctx, call)
  {
    if "REQUEST_METHOD" !in ctx.server || "REQUEST_URI" !in ctx.server {
      return Err(MissingServerKey);
    }
    var handler := MatchRequestToRoute(routes, ctx.server["REQUEST_METHOD"], ctx.server["REQUEST_URI"]);
    if handler.Some? {
      return Ok(Some(call(handler.value, ctx)));
    }
    return Ok(None);
  }

  const NotFoundBody := "404 Not Found"

  /** The arguments of the `header()` call `response` asks for. */
  datatype StatusHeader = StatusHeader(line: string, replace: bool, code: int)

  /** The body `response` returns and the header it asks to be sent, if any. */
  datatype HttpResponse = HttpResponse(body: string, header: Option<StatusHeader>)

  /** `$server['SERVER_PROTOCOL']`; a missing key reads as `null`, which concatenates as "". */
  function ServerProtocol(server: map<string, string>): string
  {
    if "SERVER_PROTOCOL" in server then server["SERVER_PROTOCOL"] else ""
  }

  /**
   * `response($response, $server)`: a routed body passes through unchanged;
   * no body becomes the not-found page and a 404 status line.
   */
  function Response(response: Option<string>, server: map<string, string>): (r: HttpResponse)
    ensures response.Some? ==> r.body == response.value && r.header.None?
    ensures response.None? ==>
              (r.body == NotFoundBody &&
               r.header == Some(StatusHeader(ServerProtocol(server) + " 404 Not Found", true, 404)))
  {
    match response
    case Some(body) => HttpResponse(body, None)
    case None => HttpResponse(NotFoundBody, Some(StatusHeader(ServerProtocol(server) + " 404 Not Found", true, 404)))
  }

  /**
   * Routing never fails: the response carries the handler's output when a
   * route resolves, and a 404 status exactly when none does.
   */
  lemma RespondToRequest<H>(routes: RouteTable<H>, requestMethod: string, uri: string,
                            ctx: RequestContext, call: (H, RequestContext) -> string)
    ensures var resp := Response(Dispatch(routes, requestMethod, uri, ctx, call), ctx.server);
            && (resp.header.Some? <==> Resolve(routes, requestMethod, uri).None?)
            && (resp.header.Some? ==> resp.header.value.code == 404 && resp.body == NotFoundBody)
            && (Resolve(routes, requestMethod, uri).Some? ==>
                  resp.body == call(Resolve(routes, requestMethod, uri).value, ctx))
  {
  }

  /** With a single pattern for the method, the request resolves to its handler exactly when it matches. */
  lemma ResolveSingleRoute<H>(routes: RouteTable<H>, requestMethod: string, uri: string, pattern: string, h: H)
    requires requestMethod in routes && routes[requestMethod] == [(pattern, h)]
    ensures Resolve(routes, requestMethod, uri) == if UrlMatchesRoute(uri, pattern) then Some(h) else None
  {
  }

  /** The routing tests: GET '/foo?bar' reaches the '/foo' handler, GET '/bar?foo' does not. */
  method RoutingExamples(ctx: RequestContext, foo: string, bar: string, q1: string, q2: string, proto: string)
    returns (result: Result<Option<string>, RouteError>, none: Result<Option<string>, RouteError>, resp: HttpResponse)
    requires foo == "/foo" && bar == "/bar" && q1 == "bar" && q2 == "foo" && proto == "HTTP/1.3"
    ensures result == Ok(Some("bar"))
    ensures none == Ok(None)
    ensures resp == HttpResponse(NotFoundBody, Some(StatusHeader(proto + " 404 Not Found", true, 404)))
  {
    var table: RouteTable<string> := map["GET" := [(foo, "foo-handler")]];
    var call := (h: string, c: RequestContext) => "bar";
    var hit := ctx.(server := map["REQUEST_METHOD" := "GET", "REQUEST_URI" := foo + "?" + q1]);
    MatchesFooWithQuery(foo, q1);
    ResolveSingleRoute(table, "GET", foo + "?" + q1, foo, "foo-handler");
    result := Route(table, hit, call);

    var miss := ctx.(server := map["REQUEST_METHOD" := "GET", "REQUEST_URI" := bar + "?" + q2,
                                   "SERVER_PROTOCOL" := proto]);
    BarDoesNotMatchFoo(bar, q2, foo);
    ResolveSingleRoute(table, "GET", bar + "?" + q2, foo, "foo-handler");
    none := Route(table, miss, call);
    resp := Response(none.value, miss.server);
  }

  lemma MatchesFooWithQuery(path: string, q: string)
    requires path == "/foo" && q == "bar"
    ensures UrlMatchesRoute(path + "?" + q, path)
  {
    QueryIgnored(path, q, path);
    assert path == Rep('/', 1) + "foo" + Rep('/', 0);
    SlashPaddingIgnored("foo", 1, 0, 1, 0);
  }

  lemma BarDoesNotMatchFoo(path: string, q: string, pattern: string)
    requires path == "/bar" && q == "foo" && pattern == "/foo"
    ensures !UrlMatchesRoute(path + "?" + q, pattern)
  {
    assert path == Rep('/', 1) + "bar" + Rep('/', 0);
    assert pattern == Rep('/', 1) + "foo" + Rep('/', 0);
    TrimOfPadded('/', 1, "bar", 0);
    TrimOfPadded('/', 1, "foo", 0);
    DifferentPathsDoNotMatch(path, q, pattern);
  }
}
