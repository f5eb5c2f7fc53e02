# customFramework router, request and response — a Dafny model

This project models the small HTTP framework in `internal/customFramework`.

- **Server** (`server.go`). The server keeps a table of routes in registration order.
  - `Get`, `Post`, `Put`, `Delete` and `Any` register a route for a pattern such as `/users/{id}`.
  - Registration collects the placeholder names. It rewrites each placeholder into the capture `([^/]+)` and anchors the result.
  - `ServeHTTP` scans the table in order and skips routes whose method is neither the request's method nor `ANY`.
  - The first route whose expression matches the path gets the request, with the captured groups bound to the parameter names.
  - When no route qualifies the reply is 404.
- **Request** (`request.go`). It exposes headers and query parameters. A key with one value collapses to a string, any other key to its list of values. It also gives a path parameter, or the empty string.
- **Response** (`response.go`). It wraps the writer and guards `WriteHeader` with the `headerWritten` flag: the first committing call fixes the status.

Modules:

- `Common`: `Option` and the `byte` type.
- `Patterns` models the placeholder finder and the compiled matcher.
  - The finder `\{([^/]+)\}` is modelled exactly as Go's leftmost-first, greedy search does it, by `Scan`. The name of a placeholder runs to the *last* `}` of its segment, so `{a}{b}` is the single name `a}{b`.
  - The rewrite with `strings.Replace(…, 1)` is `ReplaceFirst` over tokens. It is proved to hit the occurrence the loop is at.
  - The anchored regular expression is a token sequence (`Char` or `Capture`).
  - `Match` is a backtracking matcher that tries each capture longest-first, which is the leftmost-first preference of Go's `regexp`. It is proved sound, complete and preference-maximal against the declarative `Accepts`.
- `Routing` holds the route datatype, the pure dispatcher `Dispatch`, and the class `Server` with fields that its methods update.
  - `RegisterRoute` keeps the compilation loop of the source. Its contract ties the appended route to `CompileRoute`.
  - `ServeHTTP` keeps the scan loop and the parameter loop. Its contract is `Dispatch`.
  - A handler that `Dispatch` invokes is handed a new `Response` around the server's writer (server.go:57-59); its state is `Responses.Fresh()`: uncommitted, with no headers and nothing written.
- `Requests` holds the request context.
- `Responses` holds the response.
  - The underlying writer is the trace (`wire`) of the calls made on it: a `StatusLine` carries the header map as it stood when `WriteHeader` was called, and a `BodyBytes` carries the bytes of a `Write`.
  - `Step` is the functional specification of each method. The class `Response` implements it branch for branch.
- `Scenarios` works through two handlers of `main.go`: `GET /users/42` and the `/stream` handler.

`End` does not set `headerWritten`, so a later `Status`, `Json` or `Write` calls `WriteHeader` again (`EndThenStatusWritesTwice`). `End` and `Json` return nothing; only `Status`, `Header` and `Write` return the response for chaining.

A header set after the status line has gone out does not reach the wire. In particular `res.Status(code).Json(v)`, the form every JSON handler of `main.go` uses, sends the status line before `Json` sets `Content-Type: application/json` (`StatusThenJson`).

## Model

| member | source | states |
|---|---|---|
| Patterns.Scan | internal/customFramework/server.go:73-74 | the finder `FindAllStringSubmatch` of `\{([^/]+)\}`, leftmost-first and greedy; ScanFindsFirst states that every placeholder after '{'-free text is found and closes at the last '}' of its segment, RenderScan that the pieces render back to the pattern, ScanNamesAreCaptures that names are valid captures |
| Patterns.ScanFindsFirst | internal/customFramework/server.go:73-74 | after text without '{', a `{name}` with a non-empty, '/'-free name is the next match found, its name running to the last '}' of the segment, and the search resumes right after it |
| Patterns.RenderScan | internal/customFramework/server.go:73-74 | the finder's pieces, literal characters and `{name}` placeholders, render back to exactly the pattern: nothing is lost or reordered |
| Patterns.ScanNamesAreCaptures | internal/customFramework/server.go:73-76 | every name the finder yields is non-empty and contains no '/', as `[^/]+` demands |
| Patterns.AdjacentPlaceholdersMerge | internal/customFramework/server.go:73-74 | the greedy finder reads `{a}{b}` as one placeholder named `a}{b` |
| Patterns.ScanLiteralPrefix | internal/customFramework/server.go:73-74 | text without '{' holds no match: the finder reads it as literal characters and resumes after it |
| Patterns.SplitFirst | internal/customFramework/server.go:74-77 | a pattern with a match splits at its first match: the literal text before it, the placeholder, and the text after it; the first listed match is that placeholder |
| Patterns.ReplaceFirst | internal/customFramework/server.go:77 | `strings.Replace(s, old, new, 1)` on tokens; ReplaceFirstAt states which occurrence it replaces |
| Patterns.ReplaceFirstAt | internal/customFramework/server.go:77 | `strings.Replace(s, old, new, 1)` replaces the occurrence right after a prefix that cannot start one |
| Patterns.NamesMatchCaptures | internal/customFramework/server.go:75-78 | one parameter name and one capture group per placeholder match |
| Patterns.LiteralsCompile | internal/customFramework/server.go:71 | literal text enters the expression unchanged and contributes no names |
| Patterns.NoOccurrencesAllLiteral | internal/customFramework/server.go:74-75 | a pattern with no match is all literal text |
| Patterns.SafeTokensHaveNoBrace | internal/customFramework/server.go:77 | literal text free of metacharacters leaves no '{' in the expression, so a replacement cannot land in literal text |
| Patterns.Match | internal/customFramework/server.go:49-50 | FindStringSubmatch of the anchored expression; MatchSound, MatchComplete and MatchPrefersLongest give its contract |
| Patterns.TryCapture | internal/customFramework/server.go:49-50 | one `([^/]+)` group, longest run first; TryCaptureChoice gives the length it settles on |
| Patterns.MatchSound | internal/customFramework/server.go:49-50 | whenever FindStringSubmatch on the anchored expression matches, the groups it returns spell the whole path, each a non-empty run without '/' |
| Patterns.MatchComplete | internal/customFramework/server.go:49-50 | whenever some groups make the anchored expression spell the path, the match succeeds |
| Patterns.MatchPrefersLongest | internal/customFramework/server.go:49-50 | among all ways of matching, the groups returned have lexicographically longest lengths; no acceptance outranks them |
| Patterns.TryCaptureChoice | internal/customFramework/server.go:49 | a capture settles on the longest length after which the rest still matches |
| Patterns.FillLiteral | internal/customFramework/server.go:80 | an expression without captures spells exactly its literal text |
| Patterns.LiteralPatternMatchesItself | internal/customFramework/server.go:70-80 | a pattern without placeholders and without metacharacters matches exactly the identical path, with no groups |
| Routing.CompileRoute | internal/customFramework/server.go:70-81 | the route registration builds; Server.RegisterRoute proves the source loop builds exactly it, CompiledRouteShape states its shape |
| Routing.CompiledRouteShape | internal/customFramework/server.go:75-81 | a registered route has as many parameter names as capture groups, each a valid capture |
| Routing.Allows | internal/customFramework/server.go:46-48 | the method test: the route's method is the request's, or ANY; Dispatch states its role |
| Routing.Selects | internal/customFramework/server.go:46-50 | the method test and a successful match together; Dispatch picks the first route satisfying it |
| Routing.Bind | internal/customFramework/server.go:51-56 | the parameter loop, the i-th name to the i-th group when there is one; BindLastWins gives its contract |
| Routing.BindLastWins | internal/customFramework/server.go:51-56 | the parameter map binds exactly the route's names; a name is bound to the group at its last occurrence |
| Routing.DispatchFrom | internal/customFramework/server.go:45-63 | scanning from route i: not found iff no later route has a qualifying method and a matching path, with status 404; otherwise the first such route runs |
| Routing.Dispatch | internal/customFramework/server.go:45-63 | first match wins in registration order: the chosen route qualifies, no earlier one does, its handler runs on the request; 404 iff none qualifies |
| Routing.DispatchInvokes | internal/customFramework/server.go:51-59 | the handler run is the chosen route's, on the request with the route's names bound to the groups |
| Routing.DispatchedParams | internal/customFramework/server.go:49-57 | a handler's PathParam gives, for a route name, the group at its last occurrence, and "" for any other name; the groups spell the path |
| Routing.AppendKeepsDispatch | internal/customFramework/server.go:81 | appending a route never changes where an already answered request goes; an unanswered one goes to the new route iff it qualifies |
| Routing.AppendKeepsDispatchFrom | internal/customFramework/server.go:81 | for the scan from any route i on: appending a route never changes where an already answered request goes; an unanswered one goes to the new route, at the end of the table, iff that route qualifies |
| Routing.ShadowedRouteNeverRuns | internal/customFramework/server.go:45-61 | of two routes with the same method and expression, the later one never runs |
| Routing.Server.constructor | internal/customFramework/server.go:29-33 | a new server has no routes |
| Routing.Server.RegisterRoute | internal/customFramework/server.go:66-82 | the route table grows by exactly the route compiled from the pattern: names in order of appearance, each placeholder rewritten into a capture |
| Routing.Server.Get | internal/customFramework/server.go:84-86 | registers the pattern for GET |
| Routing.Server.Post | internal/customFramework/server.go:88-90 | registers the pattern for POST |
| Routing.Server.Put | internal/customFramework/server.go:92-94 | registers the pattern for PUT |
| Routing.Server.Delete | internal/customFramework/server.go:96-98 | registers the pattern for DELETE |
| Routing.Server.Any | internal/customFramework/server.go:100-102 | registers the pattern for every method |
| Routing.Server.ServeHTTP | internal/customFramework/server.go:43-64 | the scan loop and the parameter loop compute exactly `Dispatch` |
| Routing.CompileStep | internal/customFramework/server.go:75-78 | one round of the loop appends the match's name and rewrites exactly that placeholder |
| Routing.CompileRound | internal/customFramework/server.go:75-78 | each round consumes the next listed match, which is the first placeholder of the text left, and keeps the loop's invariants: names so far, expression so far, safe literals |
| Routing.CompileFinish | internal/customFramework/server.go:80 | after the loop the expression and the names are those compiled from the whole pattern |
| Requests.Collapse | internal/customFramework/request.go:14-22 | same keys; a key with one value maps to it, any other key to all its values |
| Requests.Request.Headers | internal/customFramework/request.go:13-23 | the header map, collapsed |
| Requests.Request.Query | internal/customFramework/request.go:25-35 | the query parameters, collapsed |
| Requests.Request.PathParam | internal/customFramework/request.go:37-39 | the bound value, or "" for a name the route did not bind |
| Responses.Commit | internal/customFramework/response.go:14-17 | the guarded WriteHeader: the response ends committed with the same headers; a status line with the current headers is added only when it was not committed |
| Responses.Step | internal/customFramework/response.go:13-48 | the wire only grows; a committed response stays committed and sends no further status; End leaves the flag as it was; Status, Json and Write commit |
| Responses.StepConsistent | internal/customFramework/response.go:13-48 | every call, End included, keeps "committed implies a status line was sent, and nothing precedes the first status line" |
| Responses.RunConsistent | internal/customFramework/response.go:13-48 | the same for any sequence of calls |
| Responses.StepSingleStatus | internal/customFramework/response.go:13-48 | every call but End keeps "one status line if committed, none otherwise" |
| Responses.RunSingleStatus | internal/customFramework/response.go:13-48 | the same for any sequence of calls without End |
| Responses.AtMostOneStatusLine | internal/customFramework/response.go:13-48 | without End a handler sends at most one status line, and one iff the response ends committed |
| Responses.StepFirstStatus | internal/customFramework/response.go:13-48 | the status line a single call sends first: Status's code, 200 for End, Json and Write (Json with Content-Type set), none for Header |
| Responses.RunFirstStatus | internal/customFramework/response.go:13-48 | the first status line written carries the code of the first committing call (Status's code, 200 for End, Json and Write); once written it is final, headers included |
| Responses.StepBody | internal/customFramework/response.go:38-46 | one call adds exactly its Write data or its Json encoding to the body |
| Responses.RunBody | internal/customFramework/response.go:32-48 | the body is everything Write and Json handed over, in order |
| Responses.RunAppend | internal/customFramework/response.go:13-48 | a handler's calls compose: running a then b is running a + b |
| Responses.RunKeepsCommitted | internal/customFramework/response.go:14-17 | once committed, no call changes the committed flag or the status codes sent |
| Responses.JsonAnnouncesContentType | internal/customFramework/response.go:32-39 | Json on a response with no status line sends 200 with Content-Type: application/json |
| Responses.StatusThenJson | internal/customFramework/response.go:13-39 | after Status then Json, the status line carries the headers as they were before Status, without the Content-Type Json sets |
| Responses.EndThenStatusWritesTwice | internal/customFramework/response.go:26-30 | End does not commit, so End then Status sends two status lines, 200 then the code |
| Responses.Response.constructor | internal/customFramework/server.go:58 | the wrapper starts uncommitted, with no headers and nothing written |
| Responses.Response.WriteHeader | internal/customFramework/response.go:15 | the embedded writer's WriteHeader: appends one status line with the headers as they are now, and changes nothing else |
| Responses.Response.WriteBytes | internal/customFramework/response.go:46 | the embedded writer's Write: appends the bytes to the trace, and changes nothing else |
| Responses.Response.Status | internal/customFramework/response.go:13-19 | implements Step for Status and returns the response itself |
| Responses.Response.Header | internal/customFramework/response.go:21-24 | implements Step for Header and returns the response itself |
| Responses.Response.End | internal/customFramework/response.go:26-30 | implements Step for End |
| Responses.Response.Json | internal/customFramework/response.go:32-39 | implements Step for Json |
| Responses.Response.Write | internal/customFramework/response.go:41-48 | implements Step for Write and returns the response itself |
| Scenarios.UsersPattern | main.go:23 | `/users/{id}` compiles to the literal `/users/` followed by one capture, named `id` |
| Scenarios.UsersMatch | main.go:23-24 | the compiled `/users/{id}` matches `/users/42` with the single group `42` |
| Scenarios.IdPlaceholder | main.go:23 | `{id}` is one placeholder named `id` |
| Scenarios.OneRoute | internal/customFramework/server.go:45-57 | a one-route table with one parameter runs that route on a request it selects, with the parameter bound to the single capture |
| Scenarios.UsersRoute | main.go:23-24 | `GET /users/42` reaches the `/users/{id}` handler and `PathParam("id")` is `42` |
| Scenarios.StreamHandler | main.go:71-78 | Header, then a Write per chunk, then End sends one status line 200 carrying the text/plain header, and the chunks in order as the body |

## Left out

- `Listen` and `Shutdown` (server.go:35-41, 104-108) bind a socket, block and wait on a context deadline. These are network I/O and clocks; the `server` field is not modelled.
- The mutex of `registerRoute` (server.go:67-68) and the unsynchronised read of the table in `ServeHTTP` are left out: the model is sequential.
- Go's `regexp` engine is not modelled in general. Only the expressions registration builds are modelled: literal characters and `([^/]+)` groups, anchored at both ends.
- Routing.Server.RegisterRoute: requires the pattern's literal text to hold no regular-expression metacharacter. The source copies literal text into the expression unescaped, so such text would change the expression's meaning, or make `regexp.MustCompile` panic; neither is modelled.
- `Request.Body` (request.go:41-43) decodes JSON from the request stream. JSON decoding is not modelled.
- Responses.Response.Json: the JSON encoder is a parameter. `Some(bytes)` is its output, `None` is a value that cannot be encoded. The encoder's error is dropped, as in the source.
- Write errors of the underlying writer are ignored by the source and not modelled.
- net/http itself is not part of this model:
  - it ignores a second `WriteHeader` call;
  - it canonicalises header keys (`Header().Set`), which is modelled as a plain map update;
  - it sniffs a content type when none is set;
  - `http.NotFound` writes a body, of which only the status 404 is kept;
  - it treats a `WriteHeader` with a 1xx code other than 101 as informational and still sends a final status later, 200 on the first write, whereas the model's first status line is then the 1xx code;
  - it panics on a code outside 100-999, which the model records as an ordinary status line.
- Go strings are bytes, while the model's paths, patterns and names are sequences of characters. A path holding invalid UTF-8, which Go's `regexp` reads as one U+FFFD per bad byte, is not modelled.
- Requests.Request.Query: the parsing of the URL query string is not modelled. The request carries the query already parsed into a map.
- Aliasing of the slices that `Headers` and `Query` return with the request's own maps is not modelled: the results are values.
- Go's map iteration order in `Headers` and `Query` does not affect their results and is not modelled.
- `main.go` beyond the two worked handlers is not modelled: process start, signal handling, and the user handlers' JSON bodies.
