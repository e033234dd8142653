/** `fetchPage`: serving a file for GET and HEAD, with the conditional headers
    `If-Modified-Since` and `If-Unmodified-Since`. */
module Pages {
  import opened Wrappers
  import opened JavaText
  import opened JavaNumber
  import opened Bytes
  import opened Failures
  import opened HttpVersion
  import opened MessageText
  import opened ResponseText
  import opened ResourceStore
  import opened Environment
  import opened Extensions

  const NotFoundText: string := "The requested file could not be found on this server.\r\n"

  /** The 200 response for a file: Base64 text for an image extension, the bytes as text otherwise,
      with the content type of the extension. */
  function Page(env: Env, v: Version, files: Files, path: string): (r: View)
    requires IsFile(files, path)
    ensures r.kind == Resp(200, "OK") && r.version == v && r.firstLine == NullText && r.termination == ""
    ensures r.headers == WithContent(map[], r.content, ContentType(ParseExtension(path)))
    ensures ParseExtension(path) in ImageExtensions ==> r.content == env.base64Encode(files.data[path])
    ensures ParseExtension(path) !in ImageExtensions ==> r.content == Latin1(files.data[path])
  {
    var ext := ParseExtension(path);
    var bytes := files.data[path];
    if ext in ImageExtensions then RespondWith(v, 200, "OK", env.base64Encode(bytes), ContentType(ext))
    else RespondWith(v, 200, "OK", Latin1(bytes), ContentType(ext))
  }

  /** The HEAD branch: remember `content-length`, `setContent("", content-type)`, then put the
      remembered length back. */
  function HeadersOnly(r: View): (h: View)
    requires "content-length" in r.headers && "content-type" in r.headers
    ensures h.kind == r.kind && h.version == r.version && h.content == ""
  {
    var length := r.headers["content-length"];
    r.(content := "", headers := WithContent(r.headers, "", r.headers["content-type"])["content-length" := length])
  }

  /** `fetchPage(request, file, headersOnly)`. A missing file or a directory is 404. Otherwise a
      conditional header's date, `If-Modified-Since` taking precedence as the text while the mere
      presence of `If-Unmodified-Since` selects the mode, is parsed in the three syntaxes; if all
      fail, IllegalHeader names the header of the mode and its own value. With the file's time in
      whole seconds, 304 when it is strictly older in modified-since mode, 412 when it is strictly
      newer in unmodified-since mode, and the page otherwise. */
  function FetchPage(env: Env, req: View, files: Files, path: string, headersOnly: bool): (r: Result<View, Failure>)
    ensures r.Success? ==> r.value.kind.Resp? && r.value.version == req.version
    ensures r.Failure? ==> r.error.IllegalHeader?
  {
    if !IsFile(files, path) then
      Success(RespondWith(req.version, 404, "Not Found", NotFoundText, "text/plain"))
    else
      var modifiedString := Get(req.headers, "if-modified-since");
      var unModifiedString := Get(req.headers, "if-unmodified-since");
      var unModified := unModifiedString.Some?;
      var dateString := if modifiedString.Some? then modifiedString else unModifiedString;
      var page := Page(env, req.version, files, path);
      var served := if headersOnly then HeadersOnly(page) else page;
      if dateString.None? then Success(served)
      else ConditionalOn(env, req, files, path, dateString.value, unModified, served)
  }

  /** The page a GET serves carries the byte length of its body and the type of its extension. */
  lemma {:induction false} PageHeaders(env: Env, v: Version, files: Files, path: string)
    requires IsFile(files, path)
    ensures var r := Page(env, v, files, path);
            && Get(r.headers, "Content-Length") == Some(NatToString(|r.content|, 10))
            && Get(r.headers, "Content-Type") == Some(ContentType(ParseExtension(path)))
  {
    var r := Page(env, v, files, path);
    WithContentHeaders(map[], r.content, ContentType(ParseExtension(path)), "");
  }

  /** HEAD answers exactly what GET answers, without the body: the length and type stay. */
  lemma {:induction false} HeadIsGetWithoutBody(env: Env, req: View, files: Files, path: string)
    ensures FetchPage(env, req, files, path, true).Success? == FetchPage(env, req, files, path, false).Success?
    ensures FetchPage(env, req, files, path, false).Success? ==>
              var get := FetchPage(env, req, files, path, false).value;
              var head := FetchPage(env, req, files, path, true).value;
              head == get.(content := if get.kind.code == 200 then "" else get.content)
    ensures FetchPage(env, req, files, path, false).Failure? ==>
              FetchPage(env, req, files, path, true) == FetchPage(env, req, files, path, false)
  {
    if IsFile(files, path) {
      var page := Page(env, req.version, files, path);
      var bare := page.(content := "");
      HeadersOnlyPage(env, req.version, files, path);
      var modifiedString := Get(req.headers, "if-modified-since");
      var unModifiedString := Get(req.headers, "if-unmodified-since");
      var dateString := if modifiedString.Some? then modifiedString else unModifiedString;
      if dateString.None? {
        assert FetchPage(env, req, files, path, true) == Success(bare);
        assert FetchPage(env, req, files, path, false) == Success(page);
      } else {
        var u := unModifiedString.Some?;
        assert FetchPage(env, req, files, path, true) == ConditionalOn(env, req, files, path, dateString.value, u, bare);
        assert FetchPage(env, req, files, path, false) == ConditionalOn(env, req, files, path, dateString.value, u, page);
        ConditionalOnServed(env, req, files, path, dateString.value, u, page, bare);
      }
    }
  }

  /** Serving without the body changes nothing but the body of a page. */
  lemma {:induction false} HeadersOnlyPage(env: Env, v: Version, files: Files, path: string)
    requires IsFile(files, path)
    ensures HeadersOnly(Page(env, v, files, path)) == Page(env, v, files, path).(content := "")
  {
    var page := Page(env, v, files, path);
    ResetContent(map[], page.content, ContentType(ParseExtension(path)));
  }

  /** Clearing the body and putting its length back restores the headers `setContent` made. */
  lemma {:induction false} ResetContent(h: Headers, content: string, contentType: string)
    ensures var w := WithContent(h, content, contentType);
            WithContent(w, "", w["content-type"])["content-length" := w["content-length"]] == w
  {
  }

  /** The conditional part answers the same for any two pages, except that it returns the page
      given, and what it answers on its own has no body. */
  lemma {:induction false} ConditionalOnServed(env: Env, req: View, files: Files, path: string, dateString: string, unModified: bool, page: View, bare: View)
    requires IsFile(files, path)
    ensures var a := ConditionalOn(env, req, files, path, dateString, unModified, page);
            var b := ConditionalOn(env, req, files, path, dateString, unModified, bare);
            || (a == Success(page) && b == Success(bare))
            || (a == b && (a.Success? ==> a.value.content == ""))
  {
  }

  /** A missing file or a directory is 404 with the fixed text, whatever the conditional headers say. */
  lemma {:induction false} MissingIsNotFound(env: Env, req: View, files: Files, path: string, headersOnly: bool)
    requires !IsFile(files, path)
    ensures FetchPage(env, req, files, path, headersOnly)
         == Success(RespondWith(req.version, 404, "Not Found", NotFoundText, "text/plain"))
  {
  }

  /** Without conditional headers every existing file is served. */
  lemma {:induction false} UnconditionalServes(env: Env, req: View, files: Files, path: string)
    requires IsFile(files, path)
    requires !Has(req.headers, "if-modified-since") && !Has(req.headers, "if-unmodified-since")
    ensures FetchPage(env, req, files, path, false) == Success(Page(env, req.version, files, path))
  {
  }

  /** `If-Modified-Since` alone (section 3.3 of RFC 7232, with a strict comparison in whole seconds):
      304 exactly when the file is older than the date, the page otherwise, equal times included. */
  lemma {:induction false} ModifiedSince(env: Env, req: View, files: Files, path: string, date: string, t: int)
    requires IsFile(files, path)
    requires Get(req.headers, "if-modified-since") == Some(date) && !Has(req.headers, "if-unmodified-since")
    requires ParseDate(env, date) == Some(t)
    ensures files.mtime[path] / 1000 < t ==>
              FetchPage(env, req, files, path, false) == Success(Respond(req.version, 304, "Not Modified"))
    ensures files.mtime[path] / 1000 >= t ==>
              FetchPage(env, req, files, path, false) == Success(Page(env, req.version, files, path))
  {
  }

  /** `If-Unmodified-Since` alone (section 3.4 of RFC 7232, strict): 412 exactly when the file is
      newer than the date, the page otherwise. */
  lemma {:induction false} UnmodifiedSince(env: Env, req: View, files: Files, path: string, date: string, t: int)
    requires IsFile(files, path)
    requires Get(req.headers, "if-unmodified-since") == Some(date) && !Has(req.headers, "if-modified-since")
    requires ParseDate(env, date) == Some(t)
    ensures files.mtime[path] / 1000 > t ==>
              FetchPage(env, req, files, path, false) == Success(Respond(req.version, 412, "Precondition Failed"))
    ensures files.mtime[path] / 1000 <= t ==>
              FetchPage(env, req, files, path, false) == Success(Page(env, req.version, files, path))
  {
  }

  /** With both headers, the `If-Modified-Since` date is parsed but judged in unmodified-since mode,
      so the answer is 412 or the page and never 304; when the date does not parse, the error names
      `if-unmodified-since` with that header's own value. */
  lemma {:induction false} BothConditionals(env: Env, req: View, files: Files, path: string, modified: string, unmodified: string)
    requires IsFile(files, path)
    requires Get(req.headers, "if-modified-since") == Some(modified)
    requires Get(req.headers, "if-unmodified-since") == Some(unmodified)
    ensures ParseDate(env, modified).None? ==>
              FetchPage(env, req, files, path, false) == Failure(IllegalHeader("if-unmodified-since: " + unmodified))
    ensures ParseDate(env, modified).Some? ==>
              FetchPage(env, req, files, path, false)
              == if files.mtime[path] / 1000 > ParseDate(env, modified).value
                 then Success(Respond(req.version, 412, "Precondition Failed"))
                 else Success(Page(env, req.version, files, path))
  {
    var page := Page(env, req.version, files, path);
    assert FetchPage(env, req, files, path, false) == ConditionalOn(env, req, files, path, modified, true, page);
    assert "if-unmodified-since" + ": " == "if-unmodified-since: ";
  }

  /** The conditional part of `fetchPage` once the date text and the mode are known. */
  function ConditionalOn(env: Env, req: View, files: Files, path: string, dateString: string, unModified: bool, served: View): (r: Result<View, Failure>)
    requires IsFile(files, path)
    ensures r.Failure? ==> r.error.IllegalHeader?
    ensures r.Success? && served.kind.Resp? && served.version == req.version ==>
              r.value.kind.Resp? && r.value.version == req.version
  {
    match ParseDate(env, dateString)
    case None =>
      var headerKey := if unModified then "if-unmodified-since" else "if-modified-since";
      var value := Get(req.headers, headerKey);
      Failure(IllegalHeader(headerKey + ": " + (if value.Some? then value.value else NullText)))
    case Some(ims) =>
      var seconds := files.mtime[path] / 1000;
      if seconds < ims && !unModified then Success(Respond(req.version, 304, "Not Modified"))
      else if seconds > ims && unModified then Success(Respond(req.version, 412, "Precondition Failed"))
      else Success(served)
  }

  /** A date in none of the three syntaxes is a malformed header, named with its value. */
  lemma {:induction false} BadModifiedDate(env: Env, req: View, files: Files, path: string, date: string, headersOnly: bool)
    requires IsFile(files, path)
    requires Get(req.headers, "if-modified-since") == Some(date) && !Has(req.headers, "if-unmodified-since")
    requires ParseDate(env, date).None?
    ensures FetchPage(env, req, files, path, headersOnly) == Failure(IllegalHeader("if-modified-since: " + date))
  {
    var page := Page(env, req.version, files, path);
    var served := if headersOnly then HeadersOnly(page) else page;
    assert FetchPage(env, req, files, path, headersOnly) == ConditionalOn(env, req, files, path, date, false, served);
    assert "if-modified-since" + ": " == "if-modified-since: ";
  }
}
