/** `getResponse`: the Host check, the request path, the redirect of the empty path, and the
    four methods, GET and HEAD through `fetchPage`, POST and PUT writing the store. */
module Routing {
  import opened Wrappers
  import opened JavaText
  import opened Bytes
  import opened Failures
  import opened HttpVersion
  import opened RequestType
  import opened MessageText
  import opened ResponseText
  import opened ResourceStore
  import opened Environment
  import opened Extensions
  import opened Pages

  const HostRequiredText: string := "HTTP 1.1 requests must include the Host: header\r\n"
  const NotWritableText: string := "The requested file could not be written to.\r\n"

  /** The answer of `getResponse` (or the exception it throws) and the store afterwards. */
  datatype Routed = Routed(result: Result<View, Failure>, files: Files)

  /** The request path with one leading `/` removed, then, when it starts with `http://`, the path
      of that URI; `None` for the URISyntaxException. */
  function RequestPath(env: Env, path: string): (r: Option<string>)
    ensures !StartsWith(path, "/") && !StartsWith(path, "http://") ==> r == Some(path)
    ensures StartsWith(path, "/") && !StartsWith(path[1..], "http://") ==> r == Some(path[1..])
  {
    var p := if StartsWith(path, "/") then path[1..] else path;
    if StartsWith(p, "http://") then env.uriPath(p) else Some(p)
  }

  /** The store's name for `public_html/` + path: a `File` collapses the repeated separators, so
      every leading `/` goes. */
  function StoreKey(path: string): (r: string)
    ensures !StartsWith(r, "/")
    ensures !StartsWith(path, "/") ==> r == path
    ensures |r| <= |path|
    decreases |path|
  {
    if StartsWith(path, "/") then StoreKey(path[1..]) else path
  }

  /** The key is what is left of the path once its leading separators are gone. */
  lemma {:induction false} StoreKeySuffix(path: string)
    ensures StoreKey(path) == path[|path| - |StoreKey(path)|..]
    ensures forall i :: 0 <= i < |path| - |StoreKey(path)| ==> path[i] == '/'
    decreases |path|
  {
    if StartsWith(path, "/") {
      StoreKeySuffix(path[1..]);
      assert path[1..][|path| - 1 - |StoreKey(path)|..] == path[|path| - |StoreKey(path)|..];
      forall i | 0 <= i < |path| - |StoreKey(path)| ensures path[i] == '/' {
        if i == 0 {
          assert path[..1] == "/";
        } else {
          assert path[i] == path[1..][i - 1];
        }
      }
    }
  }

  /** The 303 answer for the empty path: `Location: /index.html`. */
  function Redirect(v: Version): (r: View)
    ensures r.kind == Resp(303, "See Other") && r.version == v && r.content == ""
    ensures Get(r.headers, "Location") == Some("/index.html")
  {
    var response := Respond(v, 303, "See Other");
    response.(headers := Put(response.headers, "Location", "/index.html"))
  }

  /** What POST appends: a CRLF first when the file already exists, then the body. */
  function PostBytes(files: Files, key: string, content: string): (r: seq<byte>)
    ensures key in files.data ==> files.data[key] <= r
    ensures |r| == (if key in files.data then |files.data[key]| + 2 else 0) + |content|
  {
    (if key in files.data then files.data[key] else [])
      + Latin1Bytes((if key in files.data then CRLF else "") + content)
  }

  /** The two cases of `PostBytes`: an existing file gets CRLF and the body, a new one the body. */
  lemma {:induction false} PostBytesCases(files: Files, key: string, content: string)
    ensures PostBytes(files, key, content)
         == if key in files.data then files.data[key] + Latin1Bytes(CRLF + content) else Latin1Bytes(content)
  {
    if key !in files.data {
      assert "" + content == content;
      assert [] + Latin1Bytes(content) == Latin1Bytes(content);
    }
  }

  /** `getResponse(request)`. A 1.1 request without Host is 400. The path is reduced as
      `RequestPath` says; an empty one on 1.1 is redirected. Then GET and HEAD serve the file,
      while POST and PUT refuse a directory with 400 and otherwise append to, or overwrite, the
      file with the body, created at `now` if new, and answer 200 without body. */
  function Route(env: Env, req: View, files: Files, now: nat): (r: Routed)
    requires req.kind.Req?
    ensures r.result.Success? ==> r.result.value.kind.Resp?
    ensures r.result.Failure? ==> r.result.error.IllegalRequest? || r.result.error.IllegalHeader?
    ensures req.kind.requestType.GET? || req.kind.requestType.HEAD? ==> r.files == files
    ensures Consistent(files) ==> Consistent(r.files)
  {
    var v := req.version;
    if v == HTTP11 && Get(req.headers, "host").None? then
      Routed(Success(RespondWith(HTTP11, 400, "Bad Request", HostRequiredText, "text/plain")), files)
    else
      match RequestPath(env, req.kind.path)
      case None => Routed(Failure(IllegalRequest), files)
      case Some(path) =>
        if path == [] && v == HTTP11 then Routed(Success(Redirect(v)), files)
        else
          var key := StoreKey(path);
          match req.kind.requestType
          case GET => Routed(FetchPage(env, req, files, key, false), files)
          case HEAD => Routed(FetchPage(env, req, files, key, true), files)
          case POST =>
            if IsDirectory(files, key) then
              Routed(Success(RespondWith(v, 400, "Bad Request", NotWritableText, "text/plain")), files)
            else
              Routed(Success(Respond(v, 200, "OK")), Written(files, key, PostBytes(files, key, req.content), now))
          case PUT =>
            if IsDirectory(files, key) then
              Routed(Success(RespondWith(v, 400, "Bad Request", NotWritableText, "text/plain")), files)
            else
              Routed(Success(Respond(v, 200, "OK")), Written(files, key, Latin1Bytes(req.content), now))
  }

  /** A path the server reads as the plain name of a file below its root. */
  predicate PlainName(key: string) {
    key != [] && !StartsWith(key, "/") && !StartsWith(key, "http://")
  }

  /** A request allowed past the Host check. */
  predicate Admitted(req: View) {
    req.version == HTTP10 || Has(req.headers, "host")
  }

  lemma {:induction false} PlainNamePath(env: Env, key: string)
    requires PlainName(key)
    ensures RequestPath(env, "/" + key) == Some(key) && RequestPath(env, key) == Some(key)
    ensures StoreKey(key) == key
  {
    assert ("/" + key)[1..] == key;
  }

  /** Every HTTP/1.1 request without a Host header is refused with 400 and the store stays. */
  lemma {:induction false} HostRequired(env: Env, req: View, files: Files, now: nat)
    requires req.kind.Req? && req.version == HTTP11 && !Has(req.headers, "host")
    ensures Route(env, req, files, now)
         == Routed(Success(RespondWith(HTTP11, 400, "Bad Request", HostRequiredText, "text/plain")), files)
  {
  }

  /** `/` (or the empty path) on 1.1 is a redirect to `/index.html`, whatever the method. */
  lemma {:induction false} EmptyPathRedirect(env: Env, req: View, files: Files, now: nat)
    requires req.kind.Req? && req.version == HTTP11 && Has(req.headers, "host")
    requires req.kind.path == "/" || req.kind.path == ""
    ensures Route(env, req, files, now) == Routed(Success(Redirect(HTTP11)), files)
  {
    assert StartsWith("/", "/");
    assert "/"[1..] == "";
  }

  /** An absolute-form path is reduced to the path of its URI, and a malformed URI is IllegalRequest. */
  lemma {:induction false} AbsoluteForm(env: Env, req: View, files: Files, now: nat, uri: string)
    requires req.kind.Req? && Admitted(req)
    requires StartsWith(uri, "http://") && req.kind.path == "/" + uri
    ensures env.uriPath(uri).None? ==> Route(env, req, files, now) == Routed(Failure(IllegalRequest), files)
    ensures env.uriPath(uri).Some? ==> RequestPath(env, req.kind.path) == env.uriPath(uri)
  {
    assert StartsWith(req.kind.path, "/");
    assert req.kind.path[1..] == uri;
  }

  /** GET and HEAD of a plain name are `fetchPage` of that file, HEAD without the body; the store stays. */
  lemma {:induction false} ServesPage(env: Env, req: View, files: Files, now: nat, key: string)
    requires req.kind.Req? && (req.kind.requestType == GET || req.kind.requestType == HEAD) && Admitted(req)
    requires PlainName(key) && req.kind.path == "/" + key
    ensures Route(env, req, files, now) == Routed(FetchPage(env, req, files, key, req.kind.requestType == HEAD), files)
  {
    PlainNamePath(env, key);
  }

  /** PUT replaces the file's bytes with the body, at time `now`, and leaves every other file. */
  lemma {:induction false} PutStores(env: Env, req: View, files: Files, now: nat, key: string)
    requires req.kind.Req? && req.kind.requestType == PUT && Admitted(req)
    requires PlainName(key) && req.kind.path == "/" + key && !IsDirectory(files, key)
    ensures Route(env, req, files, now).result == Success(Respond(req.version, 200, "OK"))
    ensures Route(env, req, files, now).files == Written(files, key, Latin1Bytes(req.content), now)
  {
    PlainNamePath(env, key);
  }

  /** POST creates a missing file with the body and adds CRLF and the body to an existing one. */
  lemma {:induction false} PostAppends(env: Env, req: View, files: Files, now: nat, key: string)
    requires req.kind.Req? && req.kind.requestType == POST && Admitted(req)
    requires PlainName(key) && req.kind.path == "/" + key && !IsDirectory(files, key)
    ensures var r := Route(env, req, files, now);
            && r.result == Success(Respond(req.version, 200, "OK"))
            && IsFile(r.files, key) && r.files.mtime[key] == now
            && (key !in files.data ==> r.files.data[key] == Latin1Bytes(req.content))
            && (key in files.data ==> r.files.data[key] == files.data[key] + Latin1Bytes(CRLF + req.content))
  {
    PlainNamePath(env, key);
  }

  /** Neither POST nor PUT writes a directory: 400, and the store stays. */
  lemma {:induction false} DirWriteRejected(env: Env, req: View, files: Files, now: nat, key: string)
    requires req.kind.Req? && (req.kind.requestType == PUT || req.kind.requestType == POST) && Admitted(req)
    requires PlainName(key) && req.kind.path == "/" + key && IsDirectory(files, key)
    ensures Route(env, req, files, now)
         == Routed(Success(RespondWith(req.version, 400, "Bad Request", NotWritableText, "text/plain")), files)
  {
    PlainNamePath(env, key);
  }

  /** A write touches one file only. */
  lemma {:induction false} OtherFilesUnchanged(env: Env, req: View, files: Files, now: nat, key: string, other: string)
    requires req.kind.Req? && Admitted(req)
    requires PlainName(key) && req.kind.path == "/" + key && other != key
    ensures other in Route(env, req, files, now).files.data <==> other in files.data
    ensures other in files.data ==> Route(env, req, files, now).files.data[other] == files.data[other]
  {
    PlainNamePath(env, key);
  }

  /** What a PUT stores, a later GET of the same path serves back, when the body fits in bytes
      and the extension is not an image's. */
  lemma {:induction false} PutThenGet(env: Env, put: View, get: View, files: Files, now: nat, key: string)
    requires put.kind.Req? && put.kind.requestType == PUT && Admitted(put)
    requires get.kind.Req? && get.kind.requestType == GET && Admitted(get)
    requires PlainName(key) && put.kind.path == "/" + key && get.kind.path == "/" + key
    requires !IsDirectory(files, key) && IsLatin1(put.content) && ParseExtension(key) !in ImageExtensions
    requires !Has(get.headers, "if-modified-since") && !Has(get.headers, "if-unmodified-since")
    ensures var after := Route(env, put, files, now).files;
            && Route(env, get, after, now + 1).result.Success?
            && Route(env, get, after, now + 1).result.value.content == put.content
            && Route(env, get, after, now + 1).result.value.kind == Resp(200, "OK")
  {
    PlainNamePath(env, key);
    var after := Route(env, put, files, now).files;
    assert after == Written(files, key, Latin1Bytes(put.content), now);
    UnconditionalServes(env, get, after, key);
    Latin1OfLatin1Bytes(put.content);
  }
}
