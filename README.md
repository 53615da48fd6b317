# tv-box static server: a Dafny model of its request handler

The repository is a small Deno HTTP server. Its one handler, `handleRequest` in
`main.ts`, does five things:

- It maps `/` to `/index.html`.
- It classifies the client from its `User-Agent`. Text holding `okhttp/3.15`,
  `okhttp/4.12` or `okhttp/4.50` marks an app client.
- An app client is always sent `{cwd}/interface/main.json`. Any other client
  gets `{cwd}/static{path}`.
- It reads the file. The `content-type` comes from `getContentType`, applied to
  the logical path (`/main.json` for app clients).
- A readable file is answered with 200 and its bytes. Any failure is answered
  with a 404 plain-text `Not Found`.

The model has three modules:

- `Strings` (`strings.dfy`) holds the string operations the handler uses.
  `Split` and `LastSegment` stand for `split('.')` and `pop()`, `ToLower` for
  ASCII `toLowerCase`, and `Contains` for `includes`. Each is tied to an
  independent definition: `Join` undoes `Split`; `IsFinalSegment`
  says what "the text after the last separator" means; `EqualIgnoringCase`
  compares two strings character by character; `OccursAt` says where a
  substring sits.
- `ContentType` (`content_type.dfy`) holds `getContentType`: the 8-key
  extension table and the lemmas about which paths get which type.
- `Handler` (`handler.dfy`) holds the decision logic of `handleRequest`, in
  pure functions. These are path normalisation, client classification, the
  logical and full paths, and the response. The properties of whole requests
  are lemmas here.

`handleRequest`'s inputs become parameters:

- `pathname` stands for `new URL(req.url).pathname`.
- `userAgent: Option<string>` stands for `req.headers.get('User-Agent')`.
- `cwd` stands for `Deno.cwd()`.
- `readFile: string -> ReadResult` stands for `Deno.readFile`. It is applied to
  the computed full path and gives `Ok(bytes)` or `Err`.

The HTTP method is never inspected, so it is not an input.

Three behaviours of main.ts that are easy to misread:

- Every app-client request, whatever its path, is answered from
  `/interface/main.json` (main.ts:46-47), and no path is treated specially
  (`AppClientGetsMainJson`, `AppClientIgnoresPath`).
- The eight keys have seven distinct values, because `jpg` and `jpeg` share
  `image/jpeg`. With `text/plain` that makes eight possible answers
  (`KnownTypes` in `GetContentType`).
- A path with no `.` at all is looked up whole, so a bare `js` is JavaScript
  (`BareKeyGivesItsType`). A URL pathname always starts with `/`, and no key
  holds a `/`, so every such request path gets `text/plain` (`NoDotIsPlain`).

## Model

| member | source | states |
|---|---|---|
| `Strings.Split` | main.ts:4 | `split('.')` always gives at least one piece, and no piece holds the separator |
| `Strings.JoinSplit` | main.ts:4 | joining the pieces of a split with the separator gives back the original string |
| `Strings.LastSegment` | main.ts:4 | the popped last piece is a suffix with no separator, and it is either the whole string or comes right after a separator |
| `Strings.SplitLastIsFinal` | main.ts:4 | the last element of `split(sep)` is that suffix, proved by induction over the string |
| `Strings.FinalSegmentUnique` | main.ts:4 | any suffix with that description is the popped last piece, so the description fixes it |
| `Strings.LastSegmentAfter` | main.ts:4 | the last piece of `prefix + "." + seg` is `seg` whenever `seg` has no `.`, whatever `prefix` holds |
| `Strings.LastSegmentWithout` | main.ts:4 | a string without `.` is its own last piece |
| `Strings.ToLower` | main.ts:4 | lower-casing keeps the length and lowers each character in its place |
| `Strings.ToLowerEqualIff` | main.ts:4 | two strings lower-case to the same text exactly when they differ only in ASCII letter case |
| `Strings.ToLowerIdempotent` | main.ts:4 | lower-casing twice is the same as lower-casing once |
| `Strings.ToLowerFixed` | main.ts:4 | a string with no upper-case ASCII letter is unchanged by lower-casing |
| `Strings.Contains` | main.ts:42-44 | `includes` holds exactly when the needle occurs at some index of the text |
| `Strings.ContainsPrefixOf` | main.ts:42-44 | text that includes `a + b` includes `a` |
| `ContentType.Extension` | main.ts:4 | the extension is the lower-cased text after the last `.`: a suffix of the path with no `.`, either the whole path or right after a `.` |
| `ContentType.GetContentType` | main.ts:2-20 | total; the result is always one of the eight types (seven table types plus `text/plain`), and it is either a table value or `text/plain` |
| `ContentType.KeysAreLowerLetters` | main.ts:7-16 | every table key is made of lower-case ASCII letters only |
| `ContentType.KeysArePlain` | main.ts:7-16 | no key holds `.`, `/` or an upper-case letter, and lower-casing a key leaves it unchanged |
| `ContentType.LastSegmentDecides` | main.ts:4 | only the last `.`-separated piece decides the type: `p + "." + seg` gets the type of `seg` |
| `ContentType.KeyGivesItsType` | main.ts:4-16 | a path ending in `.k`, for any of the eight keys `k`, gets the table's value for `k` |
| `ContentType.BareKeyGivesItsType` | main.ts:4-16 | a path that is exactly one of the eight keys, with no `.`, gets that key's value |
| `ContentType.DoubleExtension` | main.ts:4-16 | `a.png.js` gets `application/javascript` |
| `ContentType.CaseIgnored` | main.ts:4-16 | an extension that differs from a key only in ASCII case gets that key's type |
| `ContentType.CaseInsensitive` | main.ts:4 | two paths whose last pieces differ only in ASCII case get the same type |
| `ContentType.UnknownIsPlain` | main.ts:4-19 | a last piece that is not a key once lower-cased gives `text/plain` |
| `ContentType.TrailingDotIsPlain` | main.ts:4-19 | a path ending in `.` has an empty extension and gives `text/plain` |
| `ContentType.NoDotIsPlain` | main.ts:4-19 | a URL path (starting with `/`) with no `.` gives `text/plain` |
| `Handler.NormalizePath` | main.ts:32-34 | `/` becomes `/index.html`; every other path, `/index.html` included, is kept |
| `Handler.NormalizeIdempotent` | main.ts:32-34 | normalising twice is the same as normalising once |
| `Handler.UserAgentText` | main.ts:37 | an absent User-Agent reads as the empty string; a present one is used as it is |
| `Handler.LogicalPath` | main.ts:29-47 | the path used for the content type is `/main.json` for an app client and the normalised request path otherwise |
| `Handler.AbsentUserAgentIsBrowser` | main.ts:37-45 | an absent User-Agent reads as the empty string, which is never an app client |
| `Handler.AppClientNamesOkhttp` | main.ts:41-45 | every app client's User-Agent holds `okhttp/` |
| `Handler.IsAppClient` | main.ts:41-45 | a User-Agent marks an app client exactly when one of the three okhttp markers occurs in it at some index |
| `Handler.OkhttpAgentIsApp` | main.ts:41-45 | a User-Agent starting with `okhttp/4.12`, such as `okhttp/4.12.0`, marks an app client |
| `Handler.FullPath` | main.ts:41-50 | an app client reads `cwd + "/interface/main.json"`; any other client reads `cwd + "/static"` followed by the normalised path |
| `Handler.Respond` | main.ts:53-69 | status 200 exactly when the read succeeded; then the body is the file bytes and the type is the logical path's type plus `;charset=UTF-8`; on failure the response is the fixed 404 |
| `Handler.HandleRequest` | main.ts:29-69 | one request: a successful read of the full path gives 200, the bytes, and the logical path's type with `;charset=UTF-8`; a failed read gives the fixed 404 |
| `Handler.NotFoundIsPlainText` | main.ts:64-68 | the 404 body is the ASCII bytes of `Not Found`, and its header is `text/plain;charset=UTF-8` |
| `Handler.RootIsIndex` | main.ts:32-49 | `/` and `/index.html` read the same file and get the same response, for any client |
| `Handler.BrowserRootIsHtml` | main.ts:32-54 | a non-app client asking for `/` reads `cwd + "/static/index.html"` and gets `text/html` |
| `Handler.AppClientGetsMainJson` | main.ts:41-54 | an app client reads `cwd + "/interface/main.json"` whatever path it asked for, and gets `application/json` |
| `Handler.AppClientIgnoresPath` | main.ts:41-69 | for an app client, two different request paths get identical responses |
| `Handler.AbsentUserAgentReadsStatic` | main.ts:37-49 | with no User-Agent, the file is `cwd + "/static"` followed by the normalised path, with no decoding or clean-up |
| `Handler.ReadableFileIsServed` | main.ts:53-61 | a readable file is answered with 200, its exact bytes, and one of the eight types followed by `;charset=UTF-8` |
| `Handler.UnreadableFileIsNotFound` | main.ts:62-69 | any failed read gives 404, `text/plain;charset=UTF-8` and the `Not Found` body, whatever the path or client |
| `Handler.IndexWithoutUserAgent` | main.ts:29-61 | `GET /index.html` with no User-Agent reads `cwd + "/static/index.html"`; if that read succeeds, the answer is 200 with `text/html;charset=UTF-8` and the file's bytes |

## Left out

- `Deno.serve` (main.ts:74) and the async machinery are not modelled. They are runtime plumbing. The model handles one request as a function call.
- `Deno.readFile` (main.ts:53) is not modelled as I/O. It becomes the `readFile` parameter. Every kind of failure collapses to `Err`, just as the `catch` collapses them.
- `Deno.cwd()` (main.ts:47, main.ts:49) becomes the `cwd` parameter. The model does not cover `cwd()` itself throwing, which would also end in the 404.
- `new URL(req.url)` (main.ts:25) and `req.headers.get` (main.ts:37) are library parsing. Their results are the `pathname` and `userAgent` inputs. How several `User-Agent` headers are joined into one value is not modelled.
- `console.log` and `console.error` (main.ts:26, main.ts:63) only log, so they are left out.
- The object-prototype behaviour of `types[ext]` is not modelled. In the source, an extension such as `constructor` finds an inherited non-string value, which is then printed into the header. The model treats the table as a plain 8-key map, so such extensions get `text/plain`.
- `ToLower` lowers ASCII letters only. JavaScript's `toLowerCase` follows Unicode. None of the eight keys contains `k`, and `k` is the only ASCII letter that a single non-ASCII character (the Kelvin sign) lowers to. So the lookup result should be the same either way.
- Response headers other than `content-type`, and the response's status text, are not modelled.
