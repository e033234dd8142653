/** The message objects: `HTTPMessage` and its two subclasses as one class whose `kind` says which
    it is. Fields are updated in place by `addHeader`, `setContent`, `setTerminationString` and by
    the subclasses' `toString()`, which rewrite the first line before serialising. */
module HttpMessage {
  import opened Wrappers
  import opened JavaText
  import opened JavaNumber
  import opened Failures
  import opened HttpVersion
  import opened RequestType
  import opened MessageText
  import RequestText
  import ResponseText

  class Message {
    var firstLine: string
    var version: Version
    var headers: Headers
    var content: string
    var termination: string
    const kind: Kind

    /** The whole state as a value. */
    function View(): View
      reads this
    {
      MessageText.View(firstLine, version, headers, content, termination, kind)
    }

    /** `HTTPMessage(version)`: no headers, empty body. */
    constructor Plain(v: Version)
      ensures View() == MessageText.View(NullText, v, map[], "", "", Kind.Plain)
    {
      firstLine, version, headers, content, termination := NullText, v, map[], "", "";
      kind := Kind.Plain;
    }

    /** `HTTPMessage(version, content, contentType)`. */
    constructor PlainWithContent(v: Version, body: string, contentType: string)
      ensures View() == MessageText.View(NullText, v, WithContent(map[], body, contentType), body, "", Kind.Plain)
    {
      firstLine, version, headers, content, termination := NullText, v, WithContent(map[], body, contentType), body, "";
      kind := Kind.Plain;
    }

    /** `Request(type, path, version)`: the path gets a leading `/` when it lacks one. */
    constructor Request(t: Method, path: string, v: Version)
      ensures View() == MessageText.View(NullText, v, map[], "", "", Req(t, RequestText.NormalizePath(path)))
    {
      firstLine, version, headers, content, termination := NullText, v, map[], "", "";
      kind := Req(t, RequestText.NormalizePath(path));
    }

    /** `Request(type, path, version, content, contentType)`. */
    constructor RequestWithContent(t: Method, path: string, v: Version, body: string, contentType: string)
      ensures View() == MessageText.View(NullText, v, WithContent(map[], body, contentType), body, "", Req(t, RequestText.NormalizePath(path)))
    {
      firstLine, version, headers, content, termination := NullText, v, WithContent(map[], body, contentType), body, "";
      kind := Req(t, RequestText.NormalizePath(path));
    }

    /** `Response(version, statusCode, status)`. */
    constructor Response(v: Version, code: int32, status: string)
      ensures View() == ResponseText.Respond(v, code, status)
    {
      firstLine, version, headers, content, termination := NullText, v, map[], "", "";
      kind := Resp(code, status);
    }

    /** `Response(version, statusCode, status, content, contentType)`. */
    constructor ResponseWithContent(v: Version, code: int32, status: string, body: string, contentType: string)
      ensures View() == ResponseText.RespondWith(v, code, status, body, contentType)
    {
      firstLine, version, headers, content, termination := NullText, v, WithContent(map[], body, contentType), body, "";
      kind := Resp(code, status);
    }

    /** The object the string constructors leave behind once parsing succeeded. */
    constructor Parsed(w: View)
      ensures View() == w
    {
      firstLine, version, headers, content, termination := w.firstLine, w.version, w.headers, w.content, w.termination;
      kind := w.kind;
    }

    /** `addHeader(key, value)`: stored under the lower-cased key, replacing any earlier value. */
    method AddHeader(key: string, value: string)
      modifies this
      ensures headers == Put(old(headers), key, value)
      ensures GetHeader(key) == Some(value)
      ensures forall k :: Lower(k) != Lower(key) ==> GetHeader(k) == old(GetHeader(k))
      ensures firstLine == old(firstLine) && version == old(version) && content == old(content)
      ensures termination == old(termination)
    {
      headers := Put(headers, key, value);
      GetPutSame(old(headers), key, key, value);
      forall k | Lower(k) != Lower(key)
        ensures GetHeader(k) == old(GetHeader(k))
      {
        GetPutOther(old(headers), key, k, value);
      }
    }

    /** `getHeader(key)`: `None` stands for null. */
    function GetHeader(key: string): (r: Option<string>)
      reads this
      ensures r.Some? <==> HasHeader(key)
    {
      Get(headers, key)
    }

    /** `hasHeader(key)`. */
    predicate HasHeader(key: string)
      reads this
    {
      Has(headers, key)
    }

    /** `setContent(content, contentType)`: the body and its two derived headers. */
    method SetContent(body: string, contentType: string)
      modifies this
      ensures content == body
      ensures headers == WithContent(old(headers), body, contentType)
      ensures GetHeader("Content-Length") == Some(NatToString(|body|, 10))
      ensures GetHeader("Content-Type") == Some(contentType)
      ensures firstLine == old(firstLine) && version == old(version) && termination == old(termination)
    {
      content := body;
      headers := headers["content-length" := NatToString(|body|, 10)];
      headers := headers["content-type" := contentType];
      WithContentHeaders(old(headers), body, contentType, "");
    }

    /** `setTerminationString(t)`. */
    method SetTermination(t: string)
      modifies this
      ensures termination == t
      ensures firstLine == old(firstLine) && version == old(version) && headers == old(headers)
      ensures content == old(content)
    {
      termination := t;
    }

    /** `headerString()`: one `key: value` line per entry, in the map's iteration order, which
        Java leaves unspecified; `order` records the order this run happened to take. */
    method HeaderString() returns (s: string, ghost order: seq<string>)
      ensures IsEnumeration(order, headers.Keys) && Keyed(headers, order)
      ensures s == HeaderBlock(headers, order)
    {
      var remaining := headers.Keys;
      s, order := "", [];
      while remaining != {}
        invariant remaining <= headers.Keys
        invariant Keyed(headers, order)
        invariant s == HeaderBlock(headers, order)
        invariant forall i, j :: 0 <= i < j < |order| ==> order[i] != order[j]
        invariant forall k :: k in order <==> k in headers && k !in remaining
        decreases |remaining|
      {
        var k :| k in remaining;
        HeaderBlockSnoc(headers, order, k);
        s := s + HeaderLine(k, headers[k]);
        order := order + [k];
        remaining := remaining - {k};
      }
    }

    /** `toString()`: a request or a response first rewrites its first line from its fields, then
        the first line, the header block, a blank line, the body and the termination string. */
    method ToString() returns (s: string, ghost order: seq<string>)
      modifies this
      ensures firstLine == WrittenFirstLine(kind, version, old(firstLine))
      ensures version == old(version) && headers == old(headers) && content == old(content)
      ensures termination == old(termination)
      ensures IsEnumeration(order, headers.Keys) && Keyed(headers, order)
      ensures s == Serialize(firstLine, headers, order, content, termination)
    {
      match kind {
        case Req(t, path) => firstLine := RequestText.RequestLine(t, path, version);
        case Resp(code, status) => firstLine := ResponseText.StatusLine(version, code, status);
        case Plain =>
      }
      var block;
      block, order := HeaderString();
      s := firstLine + CRLF + block + CRLF + content + termination;
    }
  }

  /** The first line `toString()` writes. */
  function WrittenFirstLine(kind: Kind, v: Version, stored: string): string {
    match kind
    case Plain => stored
    case Req(t, path) => RequestText.RequestLine(t, path, v)
    case Resp(code, status) => ResponseText.StatusLine(v, code, status)
  }

  /** `HTTPMessage(String)`: split off the body at the first blank line and the first line at the
      first CRLF, then read the header lines one by one. */
  method ParseMessage(raw: string) returns (r: Result<Raw, Failure>)
    ensures r == Parse(raw)
  {
    var parts := SplitOnce(raw, BlankLine);
    var body := if |parts| == 2 then parts[1] else "";
    var headerParts := SplitOnce(parts[0], CRLF);
    if |headerParts| > 1 {
      var h := ReadHeaders(Split(headerParts[1], CRLF));
      if h.Failure? {
        return Failure(h.error);
      }
      r := Success(Raw(headerParts[0], h.value, body));
    } else {
      r := Success(Raw(headerParts[0], map[], body));
    }
  }

  /** The header loop of `HTTPMessage(String)`. */
  method ReadHeaders(lines: seq<string>) returns (r: Result<Headers, Failure>)
    ensures r == HeaderFold(lines, map[])
  {
    var h: Headers := map[];
    var lastHeader := "";
    var i := 0;
    assert lines[i..] == lines;
    while i < |lines|
      invariant 0 <= i <= |lines|
      invariant HeaderFold(lines, map[]) == HeaderFold(lines[i..], h)
    {
      HeaderFoldAt(lines, i, h);
      var lineParts := SplitOnce(lines[i], ":");
      if |lineParts| == 1 {
        if |h| == 0 {
          return Failure(IllegalHeader(lines[i]));
        }
        // The continuation branch stores under the previous value, then reads `lineParts[1]`.
        var previous := if lastHeader in h then h[lastHeader] else NullText;
        h := h[Lower(lastHeader) := previous + Trim(lineParts[0])];
        return Failure(IndexOutOfBounds);
      }
      lastHeader := Trim(lineParts[1]);
      h := h[Lower(lineParts[0]) := lastHeader];
      i := i + 1;
    }
    assert lines[i..] == [];
    r := Success(h);
  }

  /** `Request(String)`. */
  method ReadRequest(raw: string) returns (r: Result<Message, Failure>)
    ensures r.Success? <==> RequestText.ParseRequest(raw).Success?
    ensures r.Success? ==> fresh(r.value) && r.value.View() == RequestText.ParseRequest(raw).value
    ensures r.Failure? ==> r.error == RequestText.ParseRequest(raw).error
  {
    var p := ParseMessage(raw);
    if p.Failure? {
      return Failure(p.error);
    }
    var tokens := Split(p.value.firstLine, " ");
    if |tokens| < 3 {
      return Failure(IllegalRequest);
    }
    var t := ValueOf(tokens[0]);
    if t.None? {
      return Failure(UnsupportedCommand);
    }
    var v := FromToken(tokens[2]);
    if v.None? {
      return Failure(UnsupportedVersion);
    }
    var m := new Message.Parsed(MessageText.View(p.value.firstLine, v.value, p.value.headers, p.value.content, "", Req(t.value, tokens[1])));
    r := Success(m);
  }

  /** `Response(String)`. */
  method ReadResponse(raw: string) returns (r: Result<Message, Failure>)
    ensures r.Success? <==> ResponseText.ParseResponse(raw).Success?
    ensures r.Success? ==> fresh(r.value) && r.value.View() == ResponseText.ParseResponse(raw).value
    ensures r.Failure? ==> r.error == ResponseText.ParseResponse(raw).error
  {
    var p := ParseMessage(raw);
    if p.Failure? {
      return Failure(p.error);
    }
    var parts := SplitLimit3(p.value.firstLine, " ");
    if |parts| < 3 {
      return Failure(IllegalResponse);
    }
    var v := FromToken(parts[0]);
    if v.None? {
      return Failure(UnsupportedVersion);
    }
    var code := ParseInt(parts[1], 10);
    if code.None? {
      return Failure(IllegalResponse);
    }
    var m := new Message.Parsed(MessageText.View(p.value.firstLine, v.value, p.value.headers, p.value.content, "", Resp(code.value, parts[2])));
    r := Success(m);
  }
}
