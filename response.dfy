/** `Response`: the status line and its parser on top of the raw-message parser. */
module ResponseText {
  import opened Wrappers
  import opened JavaText
  import opened JavaNumber
  import opened Failures
  import opened HttpVersion
  import opened MessageText

  /** `Response(version, statusCode, status)`: no headers and an empty body. */
  function Respond(v: Version, code: int32, status: string): View {
    View(NullText, v, map[], "", "", Resp(code, status))
  }

  /** `Response(version, statusCode, status, content, contentType)`: the body and its two headers. */
  function RespondWith(v: Version, code: int32, status: string, body: string, contentType: string): View {
    View(NullText, v, WithContent(map[], body, contentType), body, "", Resp(code, status))
  }

  /** `toString()` rebuilds the first line from the version, the decimal status code and the status text. */
  function StatusLine(v: Version, code: int32, status: string): string {
    VersionString(v) + " " + IntToString(code) + " " + status
  }

  /** `Response(String)`: the raw-message parser, then the first line split at its first two spaces.
      Fewer than three parts is IllegalResponse, an unknown version UnsupportedVersion, a code that
      `Integer.parseInt` rejects IllegalResponse, in that order; the status is the rest of the line. */
  function ParseResponse(raw: string): (r: Result<View, Failure>)
    ensures Parse(raw).Failure? ==> r == Failure(Parse(raw).error)
    ensures r.Success? ==>
              && Parse(raw).Success?
              && var p := Parse(raw).value;
              var parts := SplitLimit3(p.firstLine, " ");
              && r.value.firstLine == p.firstLine
              && r.value.headers == p.headers
              && r.value.content == p.content
              && r.value.termination == ""
              && r.value.kind.Resp?
              && |parts| == 3
              && parts[0] == VersionString(r.value.version)
              && ParseInt(parts[1], 10) == Some(r.value.kind.code)
              && parts[2] == r.value.kind.status
  {
    var p :- Parse(raw);
    var parts := SplitLimit3(p.firstLine, " ");
    if |parts| < 3 then Failure(IllegalResponse)
    else
      match FromToken(parts[0])
      case None => Failure(UnsupportedVersion)
      case Some(v) =>
        match ParseInt(parts[1], 10)
        case None => Failure(IllegalResponse)
        case Some(code) => Success(View(p.firstLine, v, p.headers, p.content, "", Resp(code, parts[2])))
  }

  /** Which error a rejected status line raises: the version is checked before the code, and both
      a missing part and a malformed code are IllegalResponse. */
  lemma {:induction false} ResponseErrorOrder(raw: string)
    requires Parse(raw).Success?
    ensures var parts := SplitLimit3(Parse(raw).value.firstLine, " ");
            && (ParseResponse(raw) == Failure(UnsupportedVersion) <==>
                  |parts| == 3 && forall v: Version :: VersionString(v) != parts[0])
            && (ParseResponse(raw) == Failure(IllegalResponse) <==>
                  || |parts| < 3
                  || ((exists v: Version :: VersionString(v) == parts[0]) && ParseInt(parts[1], 10).None?))
            && (ParseResponse(raw).Failure? ==> ParseResponse(raw).error in {IllegalResponse, UnsupportedVersion})
  {
    var parts := SplitLimit3(Parse(raw).value.firstLine, " ");
    if |parts| == 3 {
      if exists v: Version :: VersionString(v) == parts[0] {
        var v: Version :| VersionString(v) == parts[0];
        FromTokenOfVersionString(v);
      }
    }
  }

  /** A decimal `int` has no space or line break. */
  lemma {:induction false} IntToStringPlain(code: int32)
    ensures Free(IntToString(code), ' ') && NoLineBreak(IntToString(code))
  {
  }

  /** A status line whose status has no line break has none either. */
  lemma {:induction false} StatusLinePlain(v: Version, code: int32, status: string)
    requires NoLineBreak(status)
    ensures NoLineBreak(StatusLine(v, code, status))
  {
    VersionStringPlain(v);
    IntToStringPlain(code);
    var a, b := VersionString(v), IntToString(code);
    FreeAppend(a, " ", '\r');
    FreeAppend(a + " ", b, '\r');
    FreeAppend(a + " " + b, " ", '\r');
    FreeAppend(a + " " + b + " ", status, '\r');
    FreeAppend(a, " ", '\n');
    FreeAppend(a + " ", b, '\n');
    FreeAppend(a + " " + b, " ", '\n');
    FreeAppend(a + " " + b + " ", status, '\n');
  }

  /** The status line splits back into version, code and status, spaces in the status included. */
  lemma {:induction false} StatusLineParts(v: Version, code: int32, status: string)
    ensures SplitLimit3(StatusLine(v, code, status), " ") == [VersionString(v), IntToString(code), status]
  {
    VersionStringPlain(v);
    IntToStringPlain(code);
    SplitLimit3Of(VersionString(v), IntToString(code), status, " ");
  }

  /** Round trip: what a response's `toString()` writes parses back into the same version, status
      code (negative ones included), status text, headers and body, for a status without line break
      and well-formed headers, in whatever order the map yields them. */
  lemma {:induction false} ParseSerializedResponse(v: Version, code: int32, status: string, h: Headers, order: seq<string>, content: string)
    requires NoLineBreak(status)
    requires WellFormedHeaders(h) && IsEnumeration(order, h.Keys)
    ensures Keyed(h, order)
    ensures ParseResponse(Serialize(StatusLine(v, code, status), h, order, content, ""))
         == Success(View(StatusLine(v, code, status), v, h, content, "", Resp(code, status)))
  {
    var line := StatusLine(v, code, status);
    StatusLinePlain(v, code, status);
    ParseSerialize(line, h, order, content);
    StatusLineParts(v, code, status);
    FromTokenOfVersionString(v);
    ParseIntToString(code);
  }
}
