/** `Request`: the request line, its parser on top of the raw-message parser, and the path
    normalisation of the field constructors. */
module RequestText {
  import opened Wrappers
  import opened JavaText
  import opened Failures
  import opened HttpVersion
  import opened RequestType
  import opened MessageText

  /** The constructors from fields prefix a path that does not start with `/`. */
  function NormalizePath(path: string): (r: string)
    ensures StartsWith(r, "/")
    ensures StartsWith(path, "/") ==> r == path
    ensures !StartsWith(path, "/") ==> r == "/" + path
  {
    if StartsWith(path, "/") then path else "/" + path
  }

  /** `toString()` rebuilds the first line from the method, the path and the version. */
  function RequestLine(m: Method, path: string, v: Version): string {
    TypeString(m) + " " + path + " " + VersionString(v)
  }

  /** `Request(String)`: the raw-message parser, then the first line split at spaces (limit 0).
      Fewer than three tokens is IllegalRequest, an unknown method UnsupportedCommand, an unknown
      version UnsupportedVersion, in that order; later tokens are ignored and the path is kept verbatim. */
  function ParseRequest(raw: string): (r: Result<View, Failure>)
    ensures Parse(raw).Failure? ==> r == Failure(Parse(raw).error)
    ensures r.Success? ==>
              && Parse(raw).Success?
              && var p := Parse(raw).value;
              var tokens := Split(p.firstLine, " ");
              && r.value.firstLine == p.firstLine
              && r.value.headers == p.headers
              && r.value.content == p.content
              && r.value.termination == ""
              && r.value.kind.Req?
              && |tokens| >= 3
              && tokens[0] == TypeString(r.value.kind.requestType)
              && tokens[1] == r.value.kind.path
              && tokens[2] == VersionString(r.value.version)
  {
    var p :- Parse(raw);
    var tokens := Split(p.firstLine, " ");
    if |tokens| < 3 then Failure(IllegalRequest)
    else
      match ValueOf(tokens[0])
      case None => Failure(UnsupportedCommand)
      case Some(m) =>
        match FromToken(tokens[2])
        case None => Failure(UnsupportedVersion)
        case Some(v) => Success(View(p.firstLine, v, p.headers, p.content, "", Req(m, tokens[1])))
  }

  /** Which error a rejected request line raises: the token count is checked first, then the method,
      then the version; a header error comes before all three. */
  lemma {:induction false} RequestErrorOrder(raw: string)
    requires Parse(raw).Success?
    ensures var tokens := Split(Parse(raw).value.firstLine, " ");
            && (ParseRequest(raw) == Failure(IllegalRequest) <==> |tokens| < 3)
            && (ParseRequest(raw) == Failure(UnsupportedCommand) <==>
                  |tokens| >= 3 && forall m: Method :: TypeString(m) != tokens[0])
            && (ParseRequest(raw) == Failure(UnsupportedVersion) <==>
                  && |tokens| >= 3
                  && (exists m: Method :: TypeString(m) == tokens[0])
                  && forall v: Version :: VersionString(v) != tokens[2])
            && (ParseRequest(raw).Failure? ==> ParseRequest(raw).error in {IllegalRequest, UnsupportedCommand, UnsupportedVersion})
  {
    var tokens := Split(Parse(raw).value.firstLine, " ");
    if |tokens| >= 3 {
      if exists m: Method :: TypeString(m) == tokens[0] {
        var m: Method :| TypeString(m) == tokens[0];
        ValueOfTypeString(m);
      }
    }
  }

  /** A method token or version string has no space or line break. */
  lemma {:induction false} TokensPlain(m: Method, v: Version)
    ensures Free(TypeString(m), ' ') && NoLineBreak(TypeString(m))
    ensures Free(VersionString(v), ' ') && NoLineBreak(VersionString(v))
  {
    TypeStringPlain(m);
    VersionStringPlain(v);
  }

  /** A request line whose path has no line break has none either. */
  lemma {:induction false} RequestLinePlain(m: Method, path: string, v: Version)
    requires NoLineBreak(path)
    ensures NoLineBreak(RequestLine(m, path, v))
  {
    TokensPlain(m, v);
    var t, p, w := TypeString(m), path, VersionString(v);
    FreeAppend(t, " ", '\r');
    FreeAppend(t + " ", p, '\r');
    FreeAppend(t + " " + p, " ", '\r');
    FreeAppend(t + " " + p + " ", w, '\r');
    FreeAppend(t, " ", '\n');
    FreeAppend(t + " ", p, '\n');
    FreeAppend(t + " " + p, " ", '\n');
    FreeAppend(t + " " + p + " ", w, '\n');
  }

  /** The request line splits back into the method token, the path and the version string. */
  lemma {:induction false} RequestLineTokens(m: Method, path: string, v: Version)
    requires Free(path, ' ')
    ensures Split(RequestLine(m, path, v), " ") == [TypeString(m), path, VersionString(v)]
  {
    TokensPlain(m, v);
    SplitThree(TypeString(m), path, VersionString(v), " ");
  }

  /** Round trip: what a request's `toString()` writes parses back into the same method, path,
      version, headers and body, for a path without spaces or line breaks and for
      well-formed headers, in whatever order the map yields them. */
  lemma {:induction false} ParseSerializedRequest(m: Method, path: string, v: Version, h: Headers, order: seq<string>, content: string)
    requires Free(path, ' ') && NoLineBreak(path)
    requires WellFormedHeaders(h) && IsEnumeration(order, h.Keys)
    ensures Keyed(h, order)
    ensures ParseRequest(Serialize(RequestLine(m, path, v), h, order, content, ""))
         == Success(View(RequestLine(m, path, v), v, h, content, "", Req(m, path)))
  {
    var line := RequestLine(m, path, v);
    RequestLinePlain(m, path, v);
    ParseSerialize(line, h, order, content);
    RequestLineTokens(m, path, v);
    ValueOfTypeString(m);
    FromTokenOfVersionString(v);
  }

  /** A path with a space in it does not survive: the request line then has more than three tokens
      and the version token seen by the parser is the second half of the path. */
  lemma {:induction false} PathWithSpace(m: Method, a: string, b: string, v: Version)
    requires a != [] && b != [] && Free(a, ' ') && Free(b, ' ')
    ensures Split(RequestLine(m, a + " " + b, v), " ") == [TypeString(m), a, b, VersionString(v)]
  {
    TokensPlain(m, v);
    var parts := [TypeString(m), a, b, VersionString(v)];
    assert parts[1..] == [a, b, VersionString(v)];
    assert parts[1..][1..] == [b, VersionString(v)];
    assert parts[1..][1..][1..] == [VersionString(v)];
    var w := VersionString(v);
    assert Join([w], " ") == w;
    assert Join([b, w], " ") == b + " " + w;
    assert Join([a, b, w], " ") == a + " " + (b + " " + w);
    assert Join(parts, " ") == TypeString(m) + " " + (a + " " + (b + " " + w));
    assert Join(parts, " ") == RequestLine(m, a + " " + b, v);
    SplitJoin(parts, " ");
  }
}
