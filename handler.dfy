/** The decision logic of `handleRequest` in main.ts: normalise the request
    path, classify the client by its User-Agent, pick the file to read and
    its logical path, and build the 200 or 404 response. The URL parser, the
    header lookup, `Deno.cwd()` and `Deno.readFile` are parameters. */
module Handler {
  import opened Strings
  import opened ContentType

  datatype Option<T> = None | Some(value: T)

  newtype byte = b: int | 0 <= b < 256

  /** What `Deno.readFile` gives back: the file's bytes, or a thrown error of
      any kind (missing file, no permission, a directory, an I/O error). */
  datatype ReadResult = Ok(bytes: seq<byte>) | Err

  /** The parts of a `Response` a client sees: status, the `content-type`
      header and the body. */
  datatype Response = Response(status: int, contentType: string, body: seq<byte>)

  /** The suffix every `content-type` header carries. */
  const Charset: string := ";charset=UTF-8"

  /** `Not Found`, byte by byte. */
  const NotFoundBody: seq<byte> := [78, 111, 116, 32, 70, 111, 117, 110, 100]

  /** The answer to every failure. */
  const NotFound: Response := Response(404, DefaultType + Charset, NotFoundBody)

  /** Where the handler looks for ordinary clients' files. */
  const StaticRoot: string := "/static"

  /** Where the handler looks for the app clients' file. */
  const InterfaceRoot: string := "/interface"

  /** The one file every app client is given. */
  const AppDocument: string := "/main.json"

  /** `/` stands for `/index.html`; every other path is kept as it is. */
  function NormalizePath(pathname: string): (r: string)
    ensures pathname == "/" ==> r == "/index.html"
    ensures pathname != "/" ==> r == pathname
  {
    if pathname == "/" || pathname == "/index.html" then "/index.html" else pathname
  }

  /** `req.headers.get('User-Agent') || ''`: an absent header reads as the
      empty string. */
  function UserAgentText(userAgent: Option<string>): (r: string)
    ensures userAgent.None? ==> r == ""
    ensures userAgent.Some? ==> r == userAgent.value
  {
    match userAgent
    case None => ""
    case Some(s) => s
  }

  /** A client is an app client when its User-Agent names one of three
      okhttp versions anywhere in its text. */
  predicate IsAppClient(userAgent: string): (r: bool)
    ensures r <==>
      exists m, i :: m in {"okhttp/3.15", "okhttp/4.12", "okhttp/4.50"} && OccursAt(userAgent, m, i)
  {
    || Contains(userAgent, "okhttp/3.15")
    || Contains(userAgent, "okhttp/4.12")
    || Contains(userAgent, "okhttp/4.50")
  }

  /** The path `filePath` holds when the file is read: rewritten to
      `/main.json` for an app client, the normalised request path otherwise. */
  function LogicalPath(pathname: string, userAgent: Option<string>): (r: string)
    ensures IsAppClient(UserAgentText(userAgent)) ==> r == "/main.json"
    ensures !IsAppClient(UserAgentText(userAgent)) ==> r == NormalizePath(pathname)
  {
    if IsAppClient(UserAgentText(userAgent)) then AppDocument else NormalizePath(pathname)
  }

  /** The file system path handed to `Deno.readFile`. */
  function FullPath(cwd: string, pathname: string, userAgent: Option<string>): (r: string)
    ensures IsAppClient(UserAgentText(userAgent)) ==> r == cwd + "/interface/main.json"
    ensures !IsAppClient(UserAgentText(userAgent)) ==> r == cwd + "/static" + NormalizePath(pathname)
  {
    var root := if IsAppClient(UserAgentText(userAgent)) then InterfaceRoot else StaticRoot;
    cwd + root + LogicalPath(pathname, userAgent)
  }

  /** The response once the file has been read (or not): the bytes under the
      logical path's type, or the fixed 404. */
  function Respond(logicalPath: string, read: ReadResult): (r: Response)
    ensures r.status == 200 <==> read.Ok?
    ensures read.Ok? ==> r.body == read.bytes
    ensures read.Ok? ==> r.contentType == GetContentType(logicalPath) + Charset
    ensures read.Err? ==> r == NotFound
  {
    match read
    case Ok(bytes) => Response(200, GetContentType(logicalPath) + Charset, bytes)
    case Err => NotFound
  }

  /** One request: `readFile` stands for `Deno.readFile` over the file system
      as it is when the request comes in, and is asked for the full path. */
  function HandleRequest(pathname: string, userAgent: Option<string>, cwd: string,
                         readFile: string -> ReadResult): (r: Response)
    ensures readFile(FullPath(cwd, pathname, userAgent)).Ok? ==>
      && r.status == 200
      && r.body == readFile(FullPath(cwd, pathname, userAgent)).bytes
      && r.contentType == GetContentType(LogicalPath(pathname, userAgent)) + Charset
    ensures readFile(FullPath(cwd, pathname, userAgent)).Err? ==> r == NotFound
  {
    var fullPath := FullPath(cwd, pathname, userAgent);
    var filePath := LogicalPath(pathname, userAgent);
    Respond(filePath, readFile(fullPath))
  }

  /** The 404 body is the text `Not Found`, one ASCII byte per character. */
  lemma NotFoundIsPlainText()
    ensures |NotFound.body| == |"Not Found"|
    ensures forall i :: 0 <= i < |NotFound.body| ==> NotFound.body[i] as int == "Not Found"[i] as int
    ensures NotFound.contentType == "text/plain;charset=UTF-8"
  {
  }

  /** Normalising an already normalised path changes nothing. */
  lemma NormalizeIdempotent(pathname: string)
    ensures NormalizePath(NormalizePath(pathname)) == NormalizePath(pathname)
  {
  }

  /** The empty string holds none of the okhttp markers, so a request
      without a User-Agent is never an app client. */
  lemma AbsentUserAgentIsBrowser()
    ensures !IsAppClient(UserAgentText(None))
  {
  }

  /** Every app client's User-Agent holds `okhttp/`: one that does not is an
      ordinary client. */
  lemma AppClientNamesOkhttp(userAgent: string)
    requires IsAppClient(userAgent)
    ensures Contains(userAgent, "okhttp/")
  {
    assert "okhttp/" + "3.15" == "okhttp/3.15";
    assert "okhttp/" + "4.12" == "okhttp/4.12";
    assert "okhttp/" + "4.50" == "okhttp/4.50";
    if Contains(userAgent, "okhttp/3.15") {
      ContainsPrefixOf(userAgent, "okhttp/", "3.15");
    } else if Contains(userAgent, "okhttp/4.12") {
      ContainsPrefixOf(userAgent, "okhttp/", "4.12");
    } else {
      ContainsPrefixOf(userAgent, "okhttp/", "4.50");
    }
  }

  /** A User-Agent that starts with a marker, as okhttp's own does, is an
      app client's. */
  lemma OkhttpAgentIsApp(version: string)
    ensures IsAppClient("okhttp/4.12" + version)
  {
    assert "okhttp/4.12" <= "okhttp/4.12" + version;
  }

  /** `/` and `/index.html` are the same request: same file, same response. */
  lemma RootIsIndex(userAgent: Option<string>, cwd: string, readFile: string -> ReadResult)
    ensures FullPath(cwd, "/", userAgent) == FullPath(cwd, "/index.html", userAgent)
    ensures HandleRequest("/", userAgent, cwd, readFile) == HandleRequest("/index.html", userAgent, cwd, readFile)
  {
  }

  /** An ordinary client asking for `/` reads `static/index.html` and is
      answered as HTML. */
  lemma BrowserRootIsHtml(userAgent: Option<string>, cwd: string)
    requires !IsAppClient(UserAgentText(userAgent))
    ensures FullPath(cwd, "/", userAgent) == cwd + "/static/index.html"
    ensures GetContentType(LogicalPath("/", userAgent)) == "text/html"
  {
    assert LogicalPath("/", userAgent) == "/index.html";
    assert "/index.html" == "/index" + "." + "html";
    KeyGivesItsType("/index", "html");
  }

  /** An app client reads `interface/main.json` whatever it asked for, and is
      answered as JSON. */
  lemma AppClientGetsMainJson(pathname: string, userAgent: Option<string>, cwd: string)
    requires IsAppClient(UserAgentText(userAgent))
    ensures FullPath(cwd, pathname, userAgent) == cwd + "/interface/main.json"
    ensures GetContentType(LogicalPath(pathname, userAgent)) == "application/json"
  {
    assert AppDocument == "/main" + "." + "json";
    KeyGivesItsType("/main", "json");
  }

  /** For an app client the request path plays no part in the response. */
  lemma AppClientIgnoresPath(p: string, q: string, userAgent: Option<string>, cwd: string,
                             readFile: string -> ReadResult)
    requires IsAppClient(UserAgentText(userAgent))
    ensures HandleRequest(p, userAgent, cwd, readFile) == HandleRequest(q, userAgent, cwd, readFile)
  {
  }

  /** Without a User-Agent the file is the static root joined with the
      normalised request path, with no decoding and no clean-up. */
  lemma AbsentUserAgentReadsStatic(pathname: string, cwd: string)
    ensures FullPath(cwd, pathname, None) == cwd + "/static" + NormalizePath(pathname)
    ensures LogicalPath(pathname, None) == NormalizePath(pathname)
  {
    AbsentUserAgentIsBrowser();
  }

  /** A file that could be read is sent whole, with status 200 and a
      `content-type` that is a known type followed by `;charset=UTF-8`. */
  lemma ReadableFileIsServed(pathname: string, userAgent: Option<string>, cwd: string,
                             readFile: string -> ReadResult)
    requires readFile(FullPath(cwd, pathname, userAgent)).Ok?
    ensures var r := HandleRequest(pathname, userAgent, cwd, readFile);
      && r.status == 200
      && r.body == readFile(FullPath(cwd, pathname, userAgent)).bytes
      && exists t :: t in KnownTypes && r.contentType == t + Charset
  {
    var t := GetContentType(LogicalPath(pathname, userAgent));
    assert t in KnownTypes;
  }

  /** Any failure to read gives the same plain-text 404, whatever the path
      or the client. */
  lemma UnreadableFileIsNotFound(pathname: string, userAgent: Option<string>, cwd: string,
                                 readFile: string -> ReadResult)
    requires readFile(FullPath(cwd, pathname, userAgent)).Err?
    ensures var r := HandleRequest(pathname, userAgent, cwd, readFile);
      && r.status == 404
      && r.contentType == DefaultType + Charset
      && r.body == NotFoundBody
  {
  }

  /** `GET /index.html` without a User-Agent reads `static/index.html` and,
      when the file is there, answers 200 as HTML. */
  lemma IndexWithoutUserAgent(cwd: string, readFile: string -> ReadResult)
    requires readFile(cwd + "/static/index.html").Ok?
    ensures var r := HandleRequest("/index.html", None, cwd, readFile);
      && r.status == 200
      && r.contentType == "text/html" + Charset
      && r.body == readFile(cwd + "/static/index.html").bytes
  {
    var full := cwd + "/static/index.html";
    BrowserRootIsHtml(None, cwd);
    RootIsIndex(None, cwd, readFile);
    assert FullPath(cwd, "/index.html", None) == full;
    var logical := LogicalPath("/index.html", None);
    assert GetContentType(logical) == "text/html";
    var r := Respond(logical, readFile(full));
    assert r.contentType == "text/html" + Charset;
  }
}
