# Gemini proxy worker, modelled in Dafny

`src/worker.mjs` is a Cloudflare Worker. It is a reverse proxy in front of the
Google Generative Language API (`https://generativelanguage.googleapis.com`).
For each inbound request it makes one of three decisions:

- **Preflight.** An `OPTIONS` request, whatever its path, gets a synthetic CORS response with no body.
- **Proxy.** A request whose path starts with `/v1beta` is forwarded upstream:
  - the target URL is the base URL, then the path, then the query string;
  - the bearer token in `Authorization` is moved into `x-goog-api-key`;
  - `Host` is removed;
  - the upstream response comes back with `Access-Control-Allow-Origin: *`.
- **Not found.** Anything else gets `404` with the body `Not Found`.

The project has three modules:

- `segments.dfy`
  - `Wrappers`: the `Option` type.
  - `Segments`: JavaScript's `split` with a one-character separator and `startsWith`.
    - `split` comes with an index-based reference definition (`IndexFrom`, `SecondSegment`), lemmas tying the two together, and the split/join round trip.
    - `startsWith` is proved equal to Dafny's sequence-prefix relation `<=`.
- `headers.dfy`, `FetchHeaders`: the `Headers` object of the Fetch Standard, for the operations the worker uses. A header list is a `seq<Header>` of (name, value) entries. Names are compared byte-case-insensitively (section 5.1 of RFC 9110).
  - `get` combines the values of all matching entries with `", "`.
  - `set` normalises the value: it strips leading and trailing HTTP whitespace. It then overwrites the first matching entry in place and drops later ones, or appends a new entry when none matches.
  - `delete` drops every matching entry.
  - The class `Headers` holds the mutable list. Its `Set` and `Delete` methods are specified by the functions `WithValue` and `Without`.
  - Lemmas give the algebra: `get` after `set`/`delete`, idempotence, and "only the named entries change".
- `worker.dfy`, `Worker`:
  - the router `Route`;
  - token extraction `ApiKey`, which is `auth?.split(" ")[1]` plus the truthiness test;
  - the outbound header list `ForwardHeaders`;
  - the imperative `HandleProxy`, which copies the inbound headers into a `Headers` object and changes it step by step, as the source does;
  - `PreflightResponse`, `AddCorsHeaders` and `WithCors` (lines 81 and 105-109);
  - the entry point `Fetch`;
  - lemmas for each property below.

The network call `fetch(targetUrl, …)` is the parameter `upstream: Outbound -> Response`. Bodies are opaque values (`NullBody`, `TextBody`, `StreamBody`) that are passed through unchanged.

Three behaviours of the code worth noting:

- The unsupported-path response is the fixed `404 "Not Found"`.
- The key is the segment between the first and second spaces, not everything after the first space.
- A client-supplied `x-goog-api-key` passes through when no key is extracted. The outbound request therefore lacks that header only when the inbound one did.

## Model

| member | source | states |
|---|---|---|
| `Segments.StartsWith` | src/worker.mjs:25 | No contract of its own. Stated by `StartsWithIsPrefix`. |
| `Worker.Route` | src/worker.mjs:14-32 | The outcome is Preflight exactly when the method is `OPTIONS`, whatever the path. It is Proxy exactly when the method is not `OPTIONS` and `/v1beta` is a case-sensitive prefix of the path. It is NotFound exactly in the remaining case. |
| `Worker.Fetch` | src/worker.mjs:14-32 | The decision is taken by `Route`. An `OPTIONS` request always gets the preflight response. A `/v1beta…` request gets the decorated upstream response to the forwarded request, whose URL starts with the fixed origin followed by `/v1beta`. Any other request gets the fixed 404 `Not Found` response: the constant `NotFound`, which is line 31's `new Response("Not Found", { status: 404 })` with an empty header list. |
| `Segments.StartsWithIsPrefix` | src/worker.mjs:25 | `startsWith` as a character-by-character test holds exactly when the prefix is a sequence prefix of the path. |
| `Worker.Forwarded` | src/worker.mjs:44-73 | No contract of its own. It is the request `HandleProxy` sends, as the `HandleProxy` and `Fetch` contracts state. `Fetch` also proves that its URL starts with the origin followed by `/v1beta`. |
| `Worker.PreflightResponse` | src/worker.mjs:89-96 | Status 200, empty status text and a null body. `Access-Control-Allow-Origin`, `-Methods` and `-Headers` each read `*`. No other header name has any value. |
| `Worker.HandleProxy` | src/worker.mjs:43-82 | The target URL is exactly the base URL followed by the path and the query, with no re-encoding. Method and body are forwarded unchanged. The outbound headers equal `ForwardHeaders` of the inbound ones. The client response is the upstream response decorated by `WithCors`. |
| `Segments.Split` | src/worker.mjs:53 | `split(" ")` always returns at least one segment, and no segment contains the separator. |
| `Segments.SplitSecond` | src/worker.mjs:53 | `split(sep)[1]` is undefined exactly when the separator is absent. Otherwise it is the text from just after the first separator up to the next separator or the end. |
| `Segments.SecondSegmentShape` | src/worker.mjs:53 | A second segment follows the first separator, holds no separator, and is followed by the end or by a separator. |
| `Segments.JoinSplit` | src/worker.mjs:53 | Joining the segments of a split with the separator gives back the original string. |
| `Segments.SplitJoin` | src/worker.mjs:53 | Splitting a join of separator-free segments gives back the segments. |
| `Worker.ApiKey` | src/worker.mjs:53-55 | No contract of its own. Stated by `ApiKeyFromSpace`, `ApiKeyShape`, `ApiKeyOfParts` and the example lemmas below. |
| `Worker.ApiKeyFromSpace` | src/worker.mjs:53-55 | A key is found exactly when the character right after the first space exists and is not a space. The key then runs from there to the next space or the end, and the scheme is not checked. |
| `Worker.ApiKeyShape` | src/worker.mjs:53-55 | A found key is non-empty and space-free. It sits right after the first space and is followed by the end or a space. |
| `Worker.ApiKeyOfParts` | src/worker.mjs:53-55 | The converse of `ApiKeyShape`: a space-free scheme, one space, a non-empty space-free key, then the end or a space, always yields that key. |
| `Worker.ApiKeyOfBearer` | src/worker.mjs:53-55 | `Bearer ABC123` yields the key `ABC123`. |
| `Worker.ApiKeyMissing` | src/worker.mjs:53-55 | No key when `Authorization` is absent, or when its value is the lone scheme `Bearer`. |
| `Worker.ApiKeyDoubleSpace` | src/worker.mjs:53-55 | No key from `Bearer  ABC123`: the second segment is the empty string, which is falsy. |
| `Worker.ApiKeyOfLongerValue` | src/worker.mjs:53-55 | Any scheme works, and only the second segment is taken: `Basic one two` yields `one`. |
| `Worker.ForwardHeaders` | src/worker.mjs:48-66 | No contract of its own. It is the outbound list `HandleProxy` is proved to build, and is stated by `ForwardKeyTranslated`, `ForwardNoKey`, `ForwardDropsHost`, `ForwardKeepsOthers` and `ForwardOtherValues`. |
| `Worker.ForwardKeyTranslated` | src/worker.mjs:52-61 | With an extracted key, the outbound `x-goog-api-key` reads as the key normalised. With no surrounding whitespace the key is verbatim. The outbound list has no `Authorization` entry. |
| `Worker.ForwardNoKey` | src/worker.mjs:52-55 | Without an extracted key, the values of `Authorization` and `x-goog-api-key` go out exactly as they came in. |
| `Worker.ForwardDropsHost` | src/worker.mjs:66 | No outbound entry is called `Host` in any letter case, and `get` of it returns null. |
| `Worker.ForwardKeepsOthers` | src/worker.mjs:48-66 | Entries whose name is not `Authorization`, `Host` or `x-goog-api-key` go out unchanged and in their original order. |
| `Worker.ForwardOtherValues` | src/worker.mjs:48-66 | Any header name other than those three has the same values in the outbound list as in the inbound one. |
| `Worker.WithCors` | src/worker.mjs:81 | No contract of its own. Stated by `CorsSetsOrigin`, `CorsKeepsOthers` and `CorsIdempotent`. |
| `Worker.AddCorsHeaders` | src/worker.mjs:105-109 | Status and status text are copied. The headers are the copied list after `set("Access-Control-Allow-Origin", "*")`. |
| `Worker.CorsSetsOrigin` | src/worker.mjs:81 | The relayed response keeps status, status text and body. `Access-Control-Allow-Origin` has the single value `*`, whether it was absent or held something else. |
| `Worker.CorsKeepsOthers` | src/worker.mjs:105-109 | Every other header name keeps its values. The list without `Access-Control-Allow-Origin` is unchanged, order included. |
| `Worker.CorsIdempotent` | src/worker.mjs:105-109 | Decorating an already decorated response changes nothing. |
| `FetchHeaders.NameEqPointwise` | src/worker.mjs:52 | Two header names are the same name exactly when they have the same length and agree character by character after ASCII lower-casing. |
| `FetchHeaders.Headers.constructor` | src/worker.mjs:48 | `new Headers(request.headers)` holds a copy of the inbound list. |
| `FetchHeaders.Headers.Get` | src/worker.mjs:52 | No contract of its own. It is `Lookup` of the current list. |
| `FetchHeaders.Headers.Set` | src/worker.mjs:58 | After `set(name, value)` the list is `WithValue` of the old list with the normalised value. |
| `FetchHeaders.Headers.Delete` | src/worker.mjs:61 | After `delete(name)` the list is `Without` of the old list. |
| `FetchHeaders.Without` | src/worker.mjs:66 | The entries kept are exactly the old entries whose name does not match, ignoring case. |
| `FetchHeaders.Lookup` | src/worker.mjs:52 | No contract of its own. Stated by `LookupPresent`, `LookupAfterDelete` and `LookupAfterSet`. |
| `FetchHeaders.WithValue` | src/worker.mjs:58 | No contract of its own. It is `set` here and at line 107. Stated by `ValuesWithValue`, `WithoutWithValue`, `WithValueIdempotent` and `ExceptWithValue`. |
| `FetchHeaders.LookupPresent` | src/worker.mjs:52 | `get` returns a value exactly when some entry has the name, ignoring case. |
| `FetchHeaders.ValuesWithout` | src/worker.mjs:61 | After `delete(n)`, names equal to `n` in any letter case have no values. Every other name keeps its values. |
| `FetchHeaders.ValuesWithValue` | src/worker.mjs:58 | After `set(n, v)`, names equal to `n` in any letter case have the single value `v`. Every other name keeps its values. |
| `FetchHeaders.LookupAfterDelete` | src/worker.mjs:66 | `get` after `delete`: null for the deleted name, unchanged for the others. |
| `FetchHeaders.LookupAfterSet` | src/worker.mjs:107 | `get` after `set`: the new value for the set name, unchanged for the others. |
| `FetchHeaders.WithoutIdempotent` | src/worker.mjs:61 | Deleting a name twice is the same as deleting it once. |
| `FetchHeaders.WithoutWithValue` | src/worker.mjs:107 | `set` touches only entries of its name: deleting that name afterwards gives the same list as deleting it before. |
| `FetchHeaders.WithValueIdempotent` | src/worker.mjs:107 | Setting the same name to the same value twice is the same as setting it once. |
| `FetchHeaders.ExceptWithout` | src/worker.mjs:61 | Deleting one of a set of names leaves the entries that match none of them as they were. |
| `FetchHeaders.ExceptWithValue` | src/worker.mjs:58 | Setting one of a set of names leaves the entries that match none of them as they were. |
| `FetchHeaders.ValuesExcept` | src/worker.mjs:48-66 | A name outside a set of names sees the same values in the full list as in the part of it that matches none of the set. |
| `FetchHeaders.TrimStart` | src/worker.mjs:58 | Drops exactly the leading HTTP whitespace: the result is a suffix, everything removed is whitespace, and the result does not start with whitespace. |
| `FetchHeaders.TrimEnd` | src/worker.mjs:58 | Drops exactly the trailing HTTP whitespace: the result is a prefix, everything removed is whitespace, and the result does not end with whitespace. |
| `FetchHeaders.Normalize` | src/worker.mjs:58 | No contract of its own. Stated by `NormalizeKeeps` and `NormalizeIdempotent`. |
| `FetchHeaders.NormalizeKeeps` | src/worker.mjs:58 | A value with no HTTP whitespace at either end is stored by `set` unchanged. |
| `FetchHeaders.NormalizeIdempotent` | src/worker.mjs:58 | Normalised values have no whitespace at either end, and normalising twice is the same as normalising once. |

## Left out

- The upstream `fetch(targetUrl, …)` call (src/worker.mjs:70-77) is network I/O. It is the parameter `upstream`, a total function, so a transport failure, which would reject the promise, is not modelled.
- Body streaming: `request.body` and `response.body` are passed through as opaque values. The `duplex: 'half'` option and stream back-pressure are runtime behaviour.
- `new URL(request.url)` (src/worker.mjs:21) is the runtime's URL parser. The model takes `pathname` and `search` as given strings.
- The async/Promise structure, and the `Request` and `Response` constructors beyond the fields the worker sets. The runtime adds `Content-Type: text/plain;charset=UTF-8` to the 404 text body; that is not modelled. Neither are the status-range checks of `Response`.
- Method normalisation by the runtime: the model compares the method exactly with `OPTIONS`, as line 17 does, on the method string the request reports.
- Parts of `Headers` that this code cannot trigger: the runtime's name and value validity checks (and their `TypeError`s), and header guards.
- `Headers` iteration order. Three places copy a header list through the iterator: `new Headers(request.headers)` (src/worker.mjs:48), `new Headers(headers)` in `addCorsHeaders` (src/worker.mjs:106), and `new Response(response.body, init)` (src/worker.mjs:81). Under the Fetch Standard, that copy is lower-cased and sorted, with duplicates combined except `Set-Cookie`. The model copies the entry list as it is. So the constructor row ("holds a copy of the inbound list") and the `ForwardKeepsOthers` and `CorsKeepsOthers` rows ("unchanged", "order included") describe the model's list only. What `get` answers for any name is the same either way.
