/** The value-level part of HTTPMessage: the lower-cased header map, `setContent`'s derived
    headers, the raw-message parser and the serialiser, and the round trip between them. */
module MessageText {
  import opened Wrappers
  import opened JavaText
  import opened JavaNumber
  import opened Failures
  import opened HttpVersion
  import opened RequestType

  /** Header map: keys are stored lower-cased. */
  type Headers = map<string, string>

  /** What distinguishes a Request and a Response from a plain message. */
  datatype Kind =
    | Plain
    | Req(requestType: Method, path: string)
    | Resp(code: int32, status: string)

  /** The whole state of one message object. */
  datatype View = View(
    firstLine: string,
    version: Version,
    headers: Headers,
    content: string,
    termination: string,
    kind: Kind)

  /** What Java prints for the first line of a message built from fields: it is never assigned. */
  const NullText: string := "null"

  /** What the raw-message parser extracts: first line, headers and body. */
  datatype Raw = Raw(firstLine: string, headers: Headers, content: string)

  // ---------------------------------------------------------------- header map

  /** `headers.put(key.toLowerCase(), value)`. */
  function Put(h: Headers, key: string, value: string): Headers {
    h[Lower(key) := value]
  }

  /** `headers.get(key.toLowerCase())`; `None` for Java's null. */
  function Get(h: Headers, key: string): Option<string> {
    if Lower(key) in h then Some(h[Lower(key)]) else None
  }

  /** `headers.containsKey(key.toLowerCase())`. */
  predicate Has(h: Headers, key: string) {
    Lower(key) in h
  }

  /** A stored value is found under every spelling of its key. */
  lemma {:induction false} GetPutSame(h: Headers, key: string, other: string, value: string)
    requires Lower(other) == Lower(key)
    ensures Get(Put(h, key, value), other) == Some(value)
    ensures Has(Put(h, key, value), other)
  {
  }

  /** Storing under one key changes no other entry. */
  lemma {:induction false} GetPutOther(h: Headers, key: string, other: string, value: string)
    requires Lower(other) != Lower(key)
    ensures Get(Put(h, key, value), other) == Get(h, other)
    ensures Has(Put(h, key, value), other) == Has(h, other)
  {
  }

  /** Lookup ignores case: asking with the lower-cased key gives the same answer. */
  lemma {:induction false} GetIgnoresCase(h: Headers, key: string)
    ensures Get(h, Lower(key)) == Get(h, key)
    ensures Has(h, Lower(key)) == Has(h, key)
  {
    LowerIdempotent(key);
  }

  // ---------------------------------------------------------------- setContent

  /** The headers after `setContent(content, contentType)`: the body's byte length and its type. */
  function WithContent(h: Headers, content: string, contentType: string): Headers {
    h["content-length" := NatToString(|content|, 10)]["content-type" := contentType]
  }

  /** `setContent` sets exactly the two derived headers and leaves every other one alone. */
  lemma {:induction false} WithContentHeaders(h: Headers, content: string, contentType: string, other: string)
    ensures Get(WithContent(h, content, contentType), "Content-Length") == Some(NatToString(|content|, 10))
    ensures Get(WithContent(h, content, contentType), "Content-Type") == Some(contentType)
    ensures Lower(other) != "content-length" && Lower(other) != "content-type" ==>
              Get(WithContent(h, content, contentType), other) == Get(h, other)
  {
    assert Lower("Content-Length") == "content-length";
    assert Lower("Content-Type") == "content-type";
  }

  lemma {:induction false} TrimPlain(s: string)
    requires forall i :: 0 <= i < |s| ==> !IsTrimmed(s[i])
    ensures Trim(s) == s
  {
  }

  /** The `content-length` that `setContent` writes reads back, trimmed and parsed, as the body's length. */
  lemma {:induction false} ContentLengthReadsBack(content: string)
    requires |content| < 0x8000_0000
    ensures ParseInt(Trim(NatToString(|content|, 10)), 10) == Some(|content|)
  {
    TrimPlain(NatToString(|content|, 10));
    ParseNatToString(|content|, 10);
  }

  // ---------------------------------------------------------------- serialisation

  /** One line of `headerString()`. */
  function HeaderLine(key: string, value: string): string {
    key + ": " + value + CRLF
  }

  predicate Keyed(h: Headers, order: seq<string>) {
    forall i :: 0 <= i < |order| ==> order[i] in h
  }

  /** `headerString()` when the map is iterated in the order `order`. */
  function HeaderBlock(h: Headers, order: seq<string>): string
    requires Keyed(h, order)
  {
    if order == [] then "" else HeaderLine(order[0], h[order[0]]) + HeaderBlock(h, order[1..])
  }

  /** `order` lists every key of the map exactly once: one possible iteration order. */
  ghost predicate IsEnumeration(order: seq<string>, keys: set<string>) {
    && (forall i, j :: 0 <= i < j < |order| ==> order[i] != order[j])
    && (forall k :: k in order <==> k in keys)
  }

  lemma {:induction false} HeaderBlockSnoc(h: Headers, order: seq<string>, key: string)
    requires Keyed(h, order) && key in h
    ensures Keyed(h, order + [key])
    ensures HeaderBlock(h, order + [key]) == HeaderBlock(h, order) + HeaderLine(key, h[key])
    decreases |order|
  {
    if order != [] {
      assert (order + [key])[1..] == order[1..] + [key];
      HeaderBlockSnoc(h, order[1..], key);
    }
  }

  /** `toString()`: first line, CRLF, the header lines, CRLF, the body and the termination string. */
  function Serialize(firstLine: string, h: Headers, order: seq<string>, content: string, termination: string): string
    requires Keyed(h, order)
  {
    firstLine + CRLF + HeaderBlock(h, order) + CRLF + content + termination
  }

  // ---------------------------------------------------------------- parsing

  /** The header loop of the raw-message constructor. A line with a `:` stores its trimmed value
      under its lower-cased, untrimmed key; a later line overwrites an earlier one. A line without
      `:` raises IllegalHeaderException before any header is stored; after one, the continuation
      branch falls through to `lineParts[1]`, which is out of range. */
  function HeaderFold(lines: seq<string>, h: Headers): (r: Result<Headers, Failure>)
    ensures r.Success? ==> h.Keys <= r.value.Keys
    ensures r.Failure? ==> r.error.IllegalHeader? || r.error == IndexOutOfBounds
    decreases |lines|
  {
    if lines == [] then Success(h)
    else
      var parts := SplitOnce(lines[0], ":");
      if |parts| == 1 then
        if |h| == 0 then Failure(IllegalHeader(lines[0])) else Failure(IndexOutOfBounds)
      else
        HeaderFold(lines[1..], h[Lower(parts[0]) := Trim(parts[1])])
  }

  /** The raw-message constructor `HTTPMessage(String)`. */
  function Parse(raw: string): (r: Result<Raw, Failure>)
    ensures r.Failure? ==> r.error.IllegalHeader? || r.error == IndexOutOfBounds
    ensures r.Success? ==> StartsWith(raw, r.value.firstLine) && EndsWith(raw, r.value.content)
  {
    var parts := SplitOnce(raw, BlankLine);
    var content := if |parts| == 2 then parts[1] else "";
    var headerParts := SplitOnce(parts[0], CRLF);
    if |headerParts| > 1 then
      var h :- HeaderFold(Split(headerParts[1], CRLF), map[]);
      Success(Raw(headerParts[0], h, content))
    else
      Success(Raw(headerParts[0], map[], content))
  }

  /** One step of the header loop, at line `i`. */
  lemma {:induction false} HeaderFoldAt(lines: seq<string>, i: nat, h: Headers)
    requires i < |lines|
    ensures var parts := SplitOnce(lines[i], ":");
            HeaderFold(lines[i..], h)
            == if |parts| == 1 then Failure(if |h| == 0 then IllegalHeader(lines[i]) else IndexOutOfBounds)
               else HeaderFold(lines[i + 1..], h[Lower(parts[0]) := Trim(parts[1])])
  {
    assert lines[i..][0] == lines[i] && lines[i..][1..] == lines[i + 1..];
  }

  predicate HasColon(line: string) {
    Contains(line, ":")
  }

  /** The key part of a header line (text before its first `:`). */
  function KeyText(line: string): string {
    SplitOnce(line, ":")[0]
  }

  /** The value part of a header line (text after its first `:`). */
  function ValueText(line: string): string
    requires HasColon(line)
  {
    SplitOnce(line, ":")[1]
  }

  /** Every line has a `:`. */
  predicate AllColons(lines: seq<string>) {
    forall j :: 0 <= j < |lines| ==> HasColon(lines[j])
  }

  /** A line with a `:` stores its trimmed value under its lower-cased key, and the loop goes on. */
  lemma {:induction false} HeaderFoldColon(lines: seq<string>, h: Headers)
    requires lines != [] && HasColon(lines[0])
    ensures HeaderFold(lines, h) == HeaderFold(lines[1..], h[Lower(KeyText(lines[0])) := Trim(ValueText(lines[0]))])
  {
  }

  lemma {:induction false} AllColonsTail(lines: seq<string>)
    requires lines != [] && AllColons(lines)
    ensures HasColon(lines[0]) && AllColons(lines[1..])
  {
    forall j | 0 <= j < |lines[1..]| ensures HasColon(lines[1..][j]) {
      assert lines[1..][j] == lines[j + 1];
    }
  }

  /** The first line without a `:` decides the error: IllegalHeader carrying that line when it is
      the very first line and nothing is stored yet, the index error otherwise. */
  lemma {:induction false} HeaderFoldError(lines: seq<string>, h: Headers, i: nat)
    requires i < |lines| && !HasColon(lines[i])
    requires forall j :: 0 <= j < i ==> HasColon(lines[j])
    ensures HeaderFold(lines, h) == Failure(if i == 0 && |h| == 0 then IllegalHeader(lines[0]) else IndexOutOfBounds)
    decreases i
  {
    if i > 0 {
      HeaderFoldColon(lines, h);
      var h' := h[Lower(KeyText(lines[0])) := Trim(ValueText(lines[0]))];
      assert |h'| != 0 by {
        assert Lower(KeyText(lines[0])) in h';
      }
      forall j | 0 <= j < i - 1 ensures HasColon(lines[1..][j]) {
        assert lines[1..][j] == lines[j + 1];
      }
      assert lines[1..][i - 1] == lines[i];
      HeaderFoldError(lines[1..], h', i - 1);
    }
  }

  /** The lower-cased keys of some header lines. */
  function KeysOf(lines: seq<string>): set<string> {
    if lines == [] then {} else {Lower(KeyText(lines[0]))} + KeysOf(lines[1..])
  }

  /** With a `:` on every line the loop succeeds, and the stored keys are the given ones plus
      the lower-cased key of each line. */
  lemma {:induction false} HeaderFoldKeys(lines: seq<string>, h: Headers)
    requires AllColons(lines)
    ensures HeaderFold(lines, h).Success?
    ensures HeaderFold(lines, h).value.Keys == h.Keys + KeysOf(lines)
    decreases |lines|
  {
    if lines != [] {
      AllColonsTail(lines);
      HeaderFoldColon(lines, h);
      var h' := h[Lower(KeyText(lines[0])) := Trim(ValueText(lines[0]))];
      HeaderFoldKeys(lines[1..], h');
    }
  }

  /** The value stored under a key is the trimmed value of the last line with that key. */
  lemma {:induction false} HeaderFoldLastWins(lines: seq<string>, h: Headers, i: nat)
    requires AllColons(lines)
    requires i < |lines|
    requires forall j :: i < j < |lines| ==> Lower(KeyText(lines[j])) != Lower(KeyText(lines[i]))
    ensures HeaderFold(lines, h).Success?
    ensures Lower(KeyText(lines[i])) in HeaderFold(lines, h).value
    ensures HeaderFold(lines, h).value[Lower(KeyText(lines[i]))] == Trim(ValueText(lines[i]))
    decreases |lines|
  {
    AllColonsTail(lines);
    HeaderFoldColon(lines, h);
    var h' := h[Lower(KeyText(lines[0])) := Trim(ValueText(lines[0]))];
    if i == 0 {
      HeaderFoldUntouched(lines[1..], h', Lower(KeyText(lines[0])));
    } else {
      forall j | i - 1 < j < |lines[1..]|
        ensures Lower(KeyText(lines[1..][j])) != Lower(KeyText(lines[1..][i - 1]))
      {
        assert lines[1..][j] == lines[j + 1];
      }
      HeaderFoldLastWins(lines[1..], h', i - 1);
    }
  }

  /** A key that no line mentions keeps its value. */
  lemma {:induction false} HeaderFoldUntouched(lines: seq<string>, h: Headers, k: string)
    requires AllColons(lines)
    requires forall j :: 0 <= j < |lines| ==> Lower(KeyText(lines[j])) != k
    requires k in h
    ensures HeaderFold(lines, h).Success?
    ensures k in HeaderFold(lines, h).value && HeaderFold(lines, h).value[k] == h[k]
    decreases |lines|
  {
    if lines != [] {
      AllColonsTail(lines);
      HeaderFoldColon(lines, h);
      assert Lower(KeyText(lines[0])) != k;
      var h' := h[Lower(KeyText(lines[0])) := Trim(ValueText(lines[0]))];
      forall j | 0 <= j < |lines[1..]| ensures Lower(KeyText(lines[1..][j])) != k {
        assert lines[1..][j] == lines[j + 1];
      }
      HeaderFoldUntouched(lines[1..], h', k);
    }
  }

  /** The body is everything after the first blank line, and the first line is the text before
      the first CRLF of the head; it contains no CRLF. */
  lemma {:induction false} ParseAtFirstBlankLine(raw: string, j: nat)
    requires At(raw, BlankLine, j)
    requires forall k: nat :: k < j ==> !At(raw, BlankLine, k)
    ensures Parse(raw).Success? ==> Parse(raw).value.content == raw[j + 4..]
    ensures Parse(raw).Success? ==> FirstLineOf(raw[..j], Parse(raw).value.firstLine)
  {
    FindIs(raw, BlankLine, j);
    assert raw[..j] + BlankLine + raw[j + 4..] == raw;
    FirstLineSplit(raw[..j]);
  }

  /** Without a blank line the body is empty, and the first line is the text before the first CRLF. */
  lemma {:induction false} ParseWithoutBlankLine(raw: string)
    requires !Contains(raw, BlankLine)
    ensures Parse(raw).Success? ==> Parse(raw).value.content == ""
    ensures Parse(raw).Success? ==> FirstLineOf(raw, Parse(raw).value.firstLine)
  {
    FirstLineSplit(raw);
  }

  /** `line` is the part of `head` before its first CRLF (all of it when there is none). */
  ghost predicate FirstLineOf(head: string, line: string) {
    && StartsWith(head, line)
    && (line == head || At(head, CRLF, |line|))
    && forall k: nat :: !At(line, CRLF, k)
  }

  lemma {:induction false} FirstLineSplit(head: string)
    ensures FirstLineOf(head, SplitOnce(head, CRLF)[0])
  {
    var parts := SplitOnce(head, CRLF);
    if |parts| == 2 {
      var i := |parts[0]|;
      assert head[..i] == parts[0];
      forall k: nat
        ensures !At(parts[0], CRLF, k)
      {
        if k + 2 <= i {
          assert head[k..k + 2] == parts[0][k..k + 2];
          assert !At(head, CRLF, k);
        }
      }
    }
  }

  // ---------------------------------------------------------------- round trip

  predicate NoLineBreak(s: string) {
    Free(s, '\r') && Free(s, '\n')
  }

  /** Headers that `headerString` writes in a form the parser reads back unchanged. */
  predicate WellFormedHeaders(h: Headers) {
    forall k :: k in h ==> WellFormedHeader(k, h[k])
  }

  /** A lower-case key without `:` or line break, and a value without line break or surrounding blanks. */
  predicate WellFormedHeader(key: string, value: string) {
    && Lower(key) == key && Free(key, ':') && NoLineBreak(key)
    && NoLineBreak(value) && Trim(value) == value
  }

  /** The header lines without their CRLF. */
  function HeaderTexts(h: Headers, order: seq<string>): (r: seq<string>)
    requires Keyed(h, order)
    ensures |r| == |order|
    ensures forall i :: 0 <= i < |order| ==> r[i] == order[i] + ": " + h[order[i]]
  {
    seq(|order|, i requires 0 <= i < |order| => order[i] + ": " + h[order[i]])
  }

  function MapOf(h: Headers, order: seq<string>): Headers {
    map k | k in order && k in h :: h[k]
  }

  /** The header block is the join of the first line and the header lines, followed by CRLF. */
  lemma {:induction false} BlockAsJoin(x: string, h: Headers, order: seq<string>)
    requires Keyed(h, order)
    ensures x + CRLF + HeaderBlock(h, order) == Join([x] + HeaderTexts(h, order), CRLF) + CRLF
    decreases |order|
  {
    if order != [] {
      var k := order[0];
      var line := k + ": " + h[k];
      BlockAsJoin(line, h, order[1..]);
      assert HeaderTexts(h, order) == [line] + HeaderTexts(h, order[1..]);
      assert ([x] + HeaderTexts(h, order))[1..] == [line] + HeaderTexts(h, order[1..]);
    }
  }

  lemma {:induction false} AtShift(a: string, b: string, pat: string, k: nat)
    ensures At(a + b, pat, |a| + k) == At(b, pat, k)
  {
    if k + |pat| <= |b| {
      assert (a + b)[|a| + k..|a| + k + |pat|] == b[k..k + |pat|];
    }
  }

  /** In a join of CR-free lines, all but the first non-empty, followed by a blank line,
      the first blank line is the one right after the join. */
  lemma {:induction false} FirstBlankLineAfterJoin(xs: seq<string>, c: string)
    requires |xs| >= 1
    requires forall i :: 0 <= i < |xs| ==> Free(xs[i], '\r')
    requires forall i :: 1 <= i < |xs| ==> xs[i] != []
    ensures Find(Join(xs, CRLF) + BlankLine + c, BlankLine) == Some(|Join(xs, CRLF)|)
    decreases |xs|
  {
    if |xs| == 1 {
      FindAfterFree(xs[0], BlankLine, c);
    } else {
      var x := xs[0];
      var j' := Join(xs[1..], CRLF);
      var t := j' + BlankLine + c;
      var s := Join(xs, CRLF) + BlankLine + c;
      assert s == x + CRLF + t;
      FirstBlankLineAfterJoin(xs[1..], c);
      assert t[0] == xs[1][0] by {
        assert xs[1..][0] == xs[1];
        assert |xs[1..]| == 1 || j' == xs[1] + CRLF + Join(xs[2..], CRLF) by {
          assert xs[1..][1..] == xs[2..];
        }
      }
      assert xs[1][0] != '\r' by {
        assert Free(xs[1], '\r');
      }
      FindAfterLine(x, t, |j'|);
    }
  }

  /** A CR-free line and CRLF in front of a text not starting with CR move its first blank line
      along by their length. */
  lemma {:induction false} FindAfterLine(x: string, t: string, j: nat)
    requires Free(x, '\r') && t != [] && t[0] != '\r' && Find(t, BlankLine) == Some(j)
    ensures Find(x + CRLF + t, BlankLine) == Some(|x| + 2 + j)
  {
    var s := x + CRLF + t;
    AtShift(x + CRLF, t, BlankLine, j);
    forall k: nat | k < |x| + 2 + j
      ensures !At(s, BlankLine, k)
    {
      NoBlankBefore(x, t, j, k);
    }
    FindIs(s, BlankLine, |x| + 2 + j);
  }

  lemma {:induction false} NoBlankBefore(x: string, t: string, j: nat, k: nat)
    requires Free(x, '\r') && t != [] && t[0] != '\r' && Find(t, BlankLine) == Some(j)
    requires k < |x| + 2 + j
    ensures !At(x + CRLF + t, BlankLine, k)
  {
    var s := x + CRLF + t;
    if k + 4 <= |s| {
      if k < |x| {
        assert s[k..k + 4][0] == s[k] == x[k];
      } else if k == |x| {
        assert s[k..k + 4][2] == s[k + 2] == t[0];
      } else if k == |x| + 1 {
        assert s[k..k + 4][0] == s[k] == '\n';
      } else {
        AtShift(x + CRLF, t, BlankLine, k - |x| - 2);
      }
    }
  }

  /** Parsing the header lines of a well-formed map gives the map back, whatever the order. */
  lemma {:induction false} HeaderFoldTexts(h: Headers, order: seq<string>, acc: Headers)
    requires WellFormedHeaders(h) && Keyed(h, order)
    ensures HeaderFold(HeaderTexts(h, order), acc) == Success(acc + MapOf(h, order))
    decreases |order|
  {
    if order == [] {
      assert HeaderTexts(h, order) == [];
      assert acc + MapOf(h, order) == acc;
    } else {
      HeaderTextsCons(h, order, acc);
      HeaderFoldTexts(h, order[1..], acc[order[0] := h[order[0]]]);
      MapOfCons(h, order, acc);
    }
  }

  /** The header loop stores the first header line of a well-formed map and goes on with the rest. */
  lemma {:induction false} HeaderTextsCons(h: Headers, order: seq<string>, acc: Headers)
    requires WellFormedHeaders(h) && Keyed(h, order) && order != []
    ensures Keyed(h, order[1..])
    ensures HeaderFold(HeaderTexts(h, order), acc) == HeaderFold(HeaderTexts(h, order[1..]), acc[order[0] := h[order[0]]])
  {
    var texts := HeaderTexts(h, order);
    assert texts[1..] == HeaderTexts(h, order[1..]);
    HeaderFoldText(texts, acc, h, order[0]);
  }

  /** The header loop stores a well-formed header line under its key. */
  lemma {:induction false} HeaderFoldText(lines: seq<string>, acc: Headers, h: Headers, key: string)
    requires WellFormedHeaders(h) && key in h && lines != [] && lines[0] == key + ": " + h[key]
    ensures HeaderFold(lines, acc) == HeaderFold(lines[1..], acc[key := h[key]])
  {
    HeaderTextSplits(key, h[key]);
  }

  /** One header line splits at the `:` after its key, and its key and trimmed value are the stored ones. */
  lemma {:induction false} HeaderTextSplits(key: string, value: string)
    requires WellFormedHeader(key, value)
    ensures SplitOnce(key + ": " + value, ":") == [key, " " + value]
    ensures Lower(key) == key && Trim(" " + value) == value
  {
    assert key + ": " + value == key + ":" + (" " + value);
    FindAfterFree(key, ":", " " + value);
    TrimLeadingSpace(value);
  }

  lemma {:induction false} MapOfAll(h: Headers, order: seq<string>)
    requires forall k :: k in h ==> k in order
    ensures map[] + MapOf(h, order) == h
  {
  }

  lemma {:induction false} MapOfCons(h: Headers, order: seq<string>, acc: Headers)
    requires order != [] && order[0] in h
    ensures acc[order[0] := h[order[0]]] + MapOf(h, order[1..]) == acc + MapOf(h, order)
  {
    var k := order[0];
    assert forall x :: x in order <==> x == k || x in order[1..];
  }

  /** What `toString()` writes is the join of the first line and the header lines, then a blank line. */
  lemma {:induction false} SerializeAsJoin(firstLine: string, h: Headers, order: seq<string>, content: string)
    requires Keyed(h, order)
    ensures Serialize(firstLine, h, order, content, "")
         == Join([firstLine] + HeaderTexts(h, order), CRLF) + BlankLine + content
  {
    BlockAsJoin(firstLine, h, order);
  }

  /** The header lines of well-formed headers contain no line break and are not empty. */
  lemma {:induction false} HeaderTextsPlain(h: Headers, order: seq<string>)
    requires WellFormedHeaders(h) && Keyed(h, order)
    ensures forall i :: 0 <= i < |order| ==> Free(HeaderTexts(h, order)[i], '\r') && HeaderTexts(h, order)[i] != []
  {
    forall i | 0 <= i < |order|
      ensures Free(HeaderTexts(h, order)[i], '\r') && HeaderTexts(h, order)[i] != []
    {
      HeaderTextPlain(order[i], h[order[i]]);
    }
  }

  lemma {:induction false} HeaderTextPlain(key: string, value: string)
    requires WellFormedHeader(key, value)
    ensures Free(key + ": " + value, '\r') && key + ": " + value != []
  {
    assert Free(": ", '\r');
    FreeAppend(key, ": ", '\r');
    FreeAppend(key + ": ", value, '\r');
  }

  /** A first line alone, then a blank line: no headers, and the body is what follows. */
  lemma {:induction false} ParseFirstLineOnly(firstLine: string, content: string)
    requires Free(firstLine, '\r')
    ensures Parse(Join([firstLine], CRLF) + BlankLine + content) == Success(Raw(firstLine, map[], content))
  {
    var s := firstLine + BlankLine + content;
    FindAfterFree(firstLine, BlankLine, content);
    assert s[..|firstLine|] == firstLine;
    assert s[|firstLine| + 4..] == content;
    FindInFree(firstLine, CRLF);
  }

  /** Parsing a first line and CR-free, non-empty header lines, joined and followed by a blank line:
      the first line is kept, the body is what follows, the header lines go to the header loop. */
  lemma {:induction false} ParseJoined(firstLine: string, texts: seq<string>, content: string)
    requires Free(firstLine, '\r') && texts != []
    requires forall i :: 0 <= i < |texts| ==> Free(texts[i], '\r') && texts[i] != []
    ensures var r := Parse(Join([firstLine] + texts, CRLF) + BlankLine + content);
            match HeaderFold(texts, map[])
            case Success(h) => r == Success(Raw(firstLine, h, content))
            case Failure(e) => r == Failure(e)
  {
    var xs := [firstLine] + texts;
    var p := Join(xs, CRLF);
    var s := p + BlankLine + content;
    ConsLines(firstLine, texts);
    JoinedHead(xs, content);
    assert xs[1..] == texts;
    assert p == firstLine + CRLF + Join(texts, CRLF);
    HeadSplit(firstLine, Join(texts, CRLF));
    SplitJoin(texts, CRLF);
  }

  /** The head of such a message ends at the blank line after the join. */
  lemma {:induction false} JoinedHead(xs: seq<string>, content: string)
    requires |xs| >= 1
    requires forall i :: 0 <= i < |xs| ==> Free(xs[i], '\r')
    requires forall i :: 1 <= i < |xs| ==> xs[i] != []
    ensures SplitOnce(Join(xs, CRLF) + BlankLine + content, BlankLine) == [Join(xs, CRLF), content]
  {
    var p := Join(xs, CRLF);
    FirstBlankLineAfterJoin(xs, content);
    SplitAtFound(p, BlankLine, content);
  }

  /** The first line followed by the header lines. */
  lemma {:induction false} ConsLines(firstLine: string, texts: seq<string>)
    requires Free(firstLine, '\r')
    requires forall i :: 0 <= i < |texts| ==> Free(texts[i], '\r') && texts[i] != []
    ensures forall i :: 0 <= i < |[firstLine] + texts| ==> Free(([firstLine] + texts)[i], '\r')
    ensures forall i :: 1 <= i < |[firstLine] + texts| ==> ([firstLine] + texts)[i] != []
  {
  }

  /** A CR-free first line splits off at the first CRLF. */
  lemma {:induction false} HeadSplit(firstLine: string, rest: string)
    requires Free(firstLine, '\r')
    ensures SplitOnce(firstLine + CRLF + rest, CRLF) == [firstLine, rest]
  {
    var p := firstLine + CRLF + rest;
    FindAfterFree(firstLine, CRLF, rest);
    assert p[..|firstLine|] == firstLine;
    assert p[|firstLine| + 2..] == rest;
  }

  /** Round trip: parsing what `toString()` writes gives back the first line, the header map and
      the body, for a first line and headers without line breaks, lower-case keys without `:`,
      values without surrounding blanks, and an empty termination string. */
  lemma {:induction false} ParseSerialize(firstLine: string, h: Headers, order: seq<string>, content: string)
    requires NoLineBreak(firstLine)
    requires WellFormedHeaders(h)
    requires IsEnumeration(order, h.Keys)
    ensures Keyed(h, order)
    ensures Parse(Serialize(firstLine, h, order, content, "")) == Success(Raw(firstLine, h, content))
  {
    SerializeAsJoin(firstLine, h, order, content);
    HeaderTextsPlain(h, order);
    MapOfAll(h, order);
    if order == [] {
      assert HeaderTexts(h, order) == [];
      assert MapOf(h, order) == map[];
      ParseFirstLineOnly(firstLine, content);
    } else {
      ParseJoined(firstLine, HeaderTexts(h, order), content);
      HeaderFoldTexts(h, order, map[]);
    }
  }
}
