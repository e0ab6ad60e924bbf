/**
 * The Cloudflare Worker of src/worker.mjs: a reverse proxy in front of the
 * Google Generative Language API. The router of `fetch`, the request rewrite
 * of `handleProxy`, the preflight response of `handleOPTIONS` and the CORS
 * decoration of `addCorsHeaders`. The upstream `fetch` call is a parameter.
 */
module Worker {
  import opened Wrappers
  import opened Segments
  import opened FetchHeaders

  /** The upstream origin; the target URL is this followed by the inbound path and query. */
  const BaseUrl: string := "https://generativelanguage.googleapis.com"
  /** Only paths starting with this are proxied. */
  const ProxyPrefix: string := "/v1beta"
  const PreflightMethod: string := "OPTIONS"

  const AuthorizationName: string := "Authorization"
  const HostName: string := "Host"
  const ApiKeyName: string := "x-goog-api-key"

  const AllowOrigin: string := "Access-Control-Allow-Origin"
  const AllowMethods: string := "Access-Control-Allow-Methods"
  const AllowHeaders: string := "Access-Control-Allow-Headers"

  /** A request or response body, opaque to the worker: absent, a literal text, or a stream it relays untouched. */
  datatype Body = NullBody | TextBody(text: string) | StreamBody(stream: nat)

  /** An inbound request, with `pathname` and `search` as the URL parser reports them. */
  datatype Request = Request(httpMethod: string, pathname: string, search: string, headers: seq<Header>, body: Body)

  /** The request handed to the upstream `fetch`. */
  datatype Outbound = Outbound(url: string, httpMethod: string, headers: seq<Header>, body: Body)

  datatype Response = Response(status: int, statusText: string, headers: seq<Header>, body: Body)

  /** The `{ headers, status, statusText }` object that `addCorsHeaders` returns. */
  datatype ResponseInit = ResponseInit(headers: seq<Header>, status: int, statusText: string)

  /** The three outcomes of the router. */
  datatype Outcome = ToPreflight | ToProxy | ToNotFound

  /** The ten header names the worker uses are pairwise different, ignoring case. */
  lemma NamesDistinct()
    ensures !NameEq(AuthorizationName, HostName) && !NameEq(AuthorizationName, ApiKeyName) && !NameEq(HostName, ApiKeyName)
    ensures !NameEq(AllowOrigin, AllowMethods) && !NameEq(AllowOrigin, AllowHeaders) && !NameEq(AllowMethods, AllowHeaders)
  {
    assert Fold(AllowMethods)[21] == LowerChar('M') && Fold(AllowHeaders)[21] == LowerChar('H');
  }

  // ---------------------------------------------------------------- router

  /** The decision of `fetch`: the method is looked at first, then the path prefix, case-sensitively. */
  function Route(httpMethod: string, pathname: string): (r: Outcome)
    ensures r == ToPreflight <==> httpMethod == PreflightMethod
    ensures r == ToProxy <==> httpMethod != PreflightMethod && ProxyPrefix <= pathname
    ensures r == ToNotFound <==> httpMethod != PreflightMethod && !(ProxyPrefix <= pathname)
  {
    if httpMethod == PreflightMethod then ToPreflight
    else
      StartsWithIsPrefix(pathname, ProxyPrefix);
      if StartsWith(pathname, ProxyPrefix) then ToProxy else ToNotFound
  }

  /** `new Response("Not Found", { status: 404 })`. */
  const NotFound: Response := Response(404, "", [], TextBody("Not Found"))

  // ---------------------------------------------------------------- preflight

  /** The values a name has in a list of three entries. */
  lemma ValuesOfThree(x: Header, y: Header, z: Header, m: string)
    ensures Values([x, y, z], m) == (if Matches(x, m) then [x.value] else [])
                                  + (if Matches(y, m) then [y.value] else [])
                                  + (if Matches(z, m) then [z.value] else [])
  {
    var vx := if Matches(x, m) then [x.value] else [];
    var vy := if Matches(y, m) then [y.value] else [];
    var vz := if Matches(z, m) then [z.value] else [];
    assert Values([z], m) == vz by {
      ValuesCons(z, [], m);
      assert [z] + [] == [z];
    }
    assert Values([y, z], m) == vy + vz by {
      ValuesCons(y, [z], m);
      assert [y] + [z] == [y, z];
    }
    assert Values([x, y, z], m) == vx + (vy + vz) by {
      ValuesCons(x, [y, z], m);
      assert [x] + [y, z] == [x, y, z];
    }
    assert vx + (vy + vz) == vx + vy + vz;
  }

  /** `handleOPTIONS`: a 200 response with no body and three permissive CORS headers. */
  function PreflightResponse(): (r: Response)
    ensures r.status == 200 && r.statusText == "" && r.body == NullBody
    ensures Lookup(r.headers, AllowOrigin) == Some("*")
    ensures Lookup(r.headers, AllowMethods) == Some("*")
    ensures Lookup(r.headers, AllowHeaders) == Some("*")
    ensures forall m :: Values(r.headers, m) != [] ==> NameEq(m, AllowOrigin) || NameEq(m, AllowMethods) || NameEq(m, AllowHeaders)
  {
    NamesDistinct();
    var hs := [Header(AllowOrigin, "*"), Header(AllowMethods, "*"), Header(AllowHeaders, "*")];
    forall m ensures Values(hs, m) == (if NameEq(AllowOrigin, m) then ["*"] else [])
                                    + (if NameEq(AllowMethods, m) then ["*"] else [])
                                    + (if NameEq(AllowHeaders, m) then ["*"] else []) {
      ValuesOfThree(hs[0], hs[1], hs[2], m);
    }
    Response(200, "", hs, NullBody)
  }

  // ---------------------------------------------------------------- header translation

  /**
   * `auth?.split(" ")[1]` followed by the truthiness test of `if (apiKey)`:
   * the second space-separated segment of the Authorization value, when
   * there is one and it is not empty. The scheme is not checked.
   */
  function ApiKey(auth: Option<string>): Option<string> {
    match auth
    case None => None
    case Some(a) =>
      var parts := Split(a, ' ');
      if |parts| >= 2 && parts[1] != "" then Some(parts[1]) else None
  }

  /**
   * A key is found exactly when the character right after the first space
   * exists and is not itself a space; the key then runs up to the next space.
   */
  lemma ApiKeyFromSpace(a: string)
    ensures ApiKey(Some(a)) == (var i := IndexOf(a, ' ');
                               if i + 1 < |a| && a[i + 1] != ' ' then Some(a[i + 1..IndexFrom(a, ' ', i + 1)]) else None)
  {
    SplitSecond(a, ' ');
    var i := IndexOf(a, ' ');
    if i < |a| {
      SecondSegmentEmpty(a, ' ');
    }
  }

  /**
   * Where a found key sits in the Authorization value: a space-free scheme,
   * one space, the key, then the end or another space.
   */
  lemma ApiKeyShape(a: string, k: string)
    requires ApiKey(Some(a)) == Some(k)
    ensures k != "" && ' ' !in k
    ensures IndexOf(a, ' ') < |a|
    ensures var i := IndexOf(a, ' '); i + 1 + |k| <= |a| && a[i + 1..i + 1 + |k|] == k
    ensures var i := IndexOf(a, ' '); i + 1 + |k| == |a| || a[i + 1 + |k|] == ' '
  {
    SplitSecond(a, ' ');
    SecondSegmentShape(a, ' ', k);
  }

  /**
   * The converse of ApiKeyShape: a space-free scheme, one space, a non-empty
   * space-free key, then the end or a space, always yields that key.
   */
  lemma ApiKeyOfParts(scheme: string, key: string, rest: string)
    requires ' ' !in scheme && ' ' !in key && key != ""
    requires rest == [] || rest[0] == ' '
    ensures ApiKey(Some(scheme + [' '] + key + rest)) == Some(key)
  {
    var a := scheme + [' '] + key + rest;
    assert a == scheme + [' '] + (key + rest);
    SplitAppend(scheme, key + rest, ' ');
    var tail := Split(key + rest, ' ');
    assert tail[0] == key by {
      if rest == [] {
        assert key + rest == key;
        SplitOfPlain(key, ' ');
      } else {
        assert key + rest == key + [' '] + rest[1..];
        SplitAppend(key, rest[1..], ' ');
      }
    }
    assert Split(a, ' ')[1] == tail[0];
  }

  /** The usual case: `Bearer <key>` gives the key. */
  lemma ApiKeyOfBearer()
    ensures ApiKey(Some("Bearer ABC123")) == Some("ABC123")
  {
    assert "Bearer ABC123" == "Bearer" + [' '] + "ABC123" + "";
    ApiKeyOfParts("Bearer", "ABC123", "");
  }

  /** No key from an absent header, or from a lone scheme with no space. */
  lemma ApiKeyMissing()
    ensures ApiKey(None) == None
    ensures ApiKey(Some("Bearer")) == None
  {
    SplitOfPlain("Bearer", ' ');
  }

  /** No key from a double space: the second segment is the empty string, which is falsy. */
  lemma ApiKeyDoubleSpace()
    ensures ApiKey(Some("Bearer  ABC123")) == None
  {
    var tail := Split(" ABC123", ' ');
    assert tail[0] == "" by {
      assert " ABC123" == [] + [' '] + "ABC123";
      SplitAppend([], "ABC123", ' ');
    }
    assert Split("Bearer  ABC123", ' ') == ["Bearer"] + tail by {
      assert "Bearer  ABC123" == "Bearer" + [' '] + " ABC123";
      SplitAppend("Bearer", " ABC123", ' ');
    }
  }

  /** Any scheme is accepted, and only the second segment counts: a key with a space in it is cut short. */
  lemma ApiKeyOfLongerValue()
    ensures ApiKey(Some("Basic one two")) == Some("one")
  {
    assert "Basic one two" == "Basic" + [' '] + "one" + " two";
    ApiKeyOfParts("Basic", "one", " two");
  }

  /**
   * The outbound header list that `handleProxy` builds from the inbound one:
   * with a key, set `x-goog-api-key` and delete `Authorization`; then always
   * delete `Host`.
   */
  function ForwardHeaders(hs: seq<Header>): seq<Header> {
    var key := ApiKey(Lookup(hs, AuthorizationName));
    var translated :=
      if key.Some? then Without(WithValue(hs, ApiKeyName, Normalize(key.value)), AuthorizationName) else hs;
    Without(translated, HostName)
  }

  /** The header names `handleProxy` may change. */
  const Rewritten: seq<string> := [AuthorizationName, HostName, ApiKeyName]

  /** With a key, the outbound list carries it as `x-goog-api-key` (as `set` normalises it) and has no `Authorization`. */
  lemma ForwardKeyTranslated(hs: seq<Header>, k: string)
    requires ApiKey(Lookup(hs, AuthorizationName)) == Some(k)
    ensures Lookup(ForwardHeaders(hs), ApiKeyName) == Some(Normalize(k))
    ensures Lookup(ForwardHeaders(hs), AuthorizationName) == None
    ensures !IsHttpWhitespace(k[0]) && !IsHttpWhitespace(k[|k| - 1]) ==> Lookup(ForwardHeaders(hs), ApiKeyName) == Some(k)
  {
    NamesDistinct();
    if !IsHttpWhitespace(k[0]) && !IsHttpWhitespace(k[|k| - 1]) {
      NormalizeKeeps(k);
    }
    var keyed := WithValue(hs, ApiKeyName, Normalize(k));
    var deleted := Without(keyed, AuthorizationName);
    ValuesWithout(deleted, HostName, ApiKeyName);
    ValuesWithout(keyed, AuthorizationName, ApiKeyName);
    ValuesWithValue(hs, ApiKeyName, Normalize(k), ApiKeyName);
    ValuesWithout(deleted, HostName, AuthorizationName);
    ValuesWithout(keyed, AuthorizationName, AuthorizationName);
  }

  /** Without a key, `Authorization` and `x-goog-api-key` go out exactly as they came in. */
  lemma ForwardNoKey(hs: seq<Header>)
    requires ApiKey(Lookup(hs, AuthorizationName)) == None
    ensures Values(ForwardHeaders(hs), AuthorizationName) == Values(hs, AuthorizationName)
    ensures Values(ForwardHeaders(hs), ApiKeyName) == Values(hs, ApiKeyName)
  {
    NamesDistinct();
    ValuesWithout(hs, HostName, AuthorizationName);
    ValuesWithout(hs, HostName, ApiKeyName);
  }

  /** No outbound entry is called `Host`, in any spelling. */
  lemma ForwardDropsHost(hs: seq<Header>, m: string)
    requires NameEq(m, HostName)
    ensures Lookup(ForwardHeaders(hs), m) == None
    ensures forall e :: e in ForwardHeaders(hs) ==> !Matches(e, m)
  {
    var key := ApiKey(Lookup(hs, AuthorizationName));
    var translated :=
      if key.Some? then Without(WithValue(hs, ApiKeyName, Normalize(key.value)), AuthorizationName) else hs;
    ValuesWithout(translated, HostName, m);
  }

  /** Every entry whose name is not one of the three rewritten names goes out unchanged and in its order. */
  lemma ForwardKeepsOthers(hs: seq<Header>)
    ensures Except(ForwardHeaders(hs), Rewritten) == Except(hs, Rewritten)
  {
    var key := ApiKey(Lookup(hs, AuthorizationName));
    assert AuthorizationName == Rewritten[0] && HostName == Rewritten[1] && ApiKeyName == Rewritten[2];
    if key.Some? {
      var keyed := WithValue(hs, ApiKeyName, Normalize(key.value));
      ExceptWithout(Without(keyed, AuthorizationName), HostName, Rewritten);
      ExceptWithout(keyed, AuthorizationName, Rewritten);
      ExceptWithValue(hs, ApiKeyName, Normalize(key.value), Rewritten);
    } else {
      ExceptWithout(hs, HostName, Rewritten);
    }
  }

  /** So `get` on any other name answers the same before and after the rewrite. */
  lemma ForwardOtherValues(hs: seq<Header>, m: string)
    requires !NameEq(m, AuthorizationName) && !NameEq(m, HostName) && !NameEq(m, ApiKeyName)
    ensures Values(ForwardHeaders(hs), m) == Values(hs, m)
  {
    ForwardKeepsOthers(hs);
    ValuesExcept(hs, m, Rewritten);
    ValuesExcept(ForwardHeaders(hs), m, Rewritten);
  }

  // ---------------------------------------------------------------- CORS decoration

  /** `addCorsHeaders`: copy status, status text and headers, then set `Access-Control-Allow-Origin: *`. */
  method AddCorsHeaders(response: Response) returns (init: ResponseInit)
    ensures init.status == response.status && init.statusText == response.statusText
    ensures init.headers == WithValue(response.headers, AllowOrigin, "*")
  {
    var newHeaders := new Headers(response.headers);
    newHeaders.Set(AllowOrigin, "*");
    init := ResponseInit(newHeaders.entries, response.status, response.statusText);
  }

  /** `new Response(response.body, addCorsHeaders(response))`: the response relayed to the client. */
  function WithCors(response: Response): Response {
    Response(response.status, response.statusText, WithValue(response.headers, AllowOrigin, "*"), response.body)
  }

  /** The relayed response keeps status, status text and body, and allows every origin. */
  lemma CorsSetsOrigin(response: Response)
    ensures WithCors(response).status == response.status
    ensures WithCors(response).statusText == response.statusText
    ensures WithCors(response).body == response.body
    ensures Values(WithCors(response).headers, AllowOrigin) == ["*"]
  {
    ValuesWithValue(response.headers, AllowOrigin, "*", AllowOrigin);
  }

  /** Every upstream header other than `Access-Control-Allow-Origin` is relayed unchanged and in order. */
  lemma CorsKeepsOthers(response: Response, m: string)
    requires !NameEq(m, AllowOrigin)
    ensures Values(WithCors(response).headers, m) == Values(response.headers, m)
    ensures Without(WithCors(response).headers, AllowOrigin) == Without(response.headers, AllowOrigin)
  {
    ValuesWithValue(response.headers, AllowOrigin, "*", m);
    WithoutWithValue(response.headers, AllowOrigin, "*");
  }

  /** Decorating a decorated response changes nothing. */
  lemma CorsIdempotent(response: Response)
    ensures WithCors(WithCors(response)) == WithCors(response)
  {
    WithValueIdempotent(response.headers, AllowOrigin, "*");
  }

  // ---------------------------------------------------------------- proxying

  /**
   * `handleProxy`: the request sent upstream and the response relayed back.
   * `upstream` stands for the network call `fetch(targetUrl, ...)`.
   */
  method HandleProxy(request: Request, pathname: string, search: string, upstream: Outbound -> Response)
    returns (outbound: Outbound, response: Response)
    ensures outbound.url == BaseUrl + pathname + search
    ensures outbound.httpMethod == request.httpMethod && outbound.body == request.body
    ensures outbound.headers == ForwardHeaders(request.headers)
    ensures response == WithCors(upstream(outbound))
  {
    var targetUrl := BaseUrl + pathname + search;
    var forwardHeaders := new Headers(request.headers);
    var auth := forwardHeaders.Get(AuthorizationName);
    var apiKey := ApiKey(auth);
    if apiKey.Some? {
      forwardHeaders.Set(ApiKeyName, apiKey.value);
      forwardHeaders.Delete(AuthorizationName);
    }
    forwardHeaders.Delete(HostName);
    outbound := Outbound(targetUrl, request.httpMethod, forwardHeaders.entries, request.body);
    var fetched := upstream(outbound);
    var init := AddCorsHeaders(fetched);
    response := Response(init.status, init.statusText, init.headers, fetched.body);
  }

  /** The request `handleProxy` sends upstream for an inbound request. */
  function Forwarded(request: Request): Outbound {
    Outbound(BaseUrl + request.pathname + request.search, request.httpMethod, ForwardHeaders(request.headers), request.body)
  }

  /**
   * The `fetch` entry point. Preflight for every OPTIONS request whatever the
   * path; the proxied upstream response, decorated, for a path under
   * `/v1beta`; the fixed 404 otherwise.
   */
  method Fetch(request: Request, upstream: Outbound -> Response) returns (response: Response)
    ensures request.httpMethod == PreflightMethod ==> response == PreflightResponse()
    ensures request.httpMethod != PreflightMethod && ProxyPrefix <= request.pathname ==>
              && response == WithCors(upstream(Forwarded(request)))
              && BaseUrl + ProxyPrefix <= Forwarded(request).url
    ensures request.httpMethod != PreflightMethod && !(ProxyPrefix <= request.pathname) ==> response == NotFound
  {
    match Route(request.httpMethod, request.pathname)
    case ToPreflight =>
      response := PreflightResponse();
    case ToProxy =>
      var outbound;
      outbound, response := HandleProxy(request, request.pathname, request.search, upstream);
      assert BaseUrl + request.pathname + request.search == (BaseUrl + request.pathname) + request.search;
    case ToNotFound =>
      response := NotFound;
  }
}
