/** How the connection loop cuts one request out of the byte stream: the head up to the first
    blank line, the `Content-Length` and `Transfer-Encoding` lines of that head, then a body of
    fixed length or a chunked body followed by its trailer. Positions index the connection's
    input; reading past its end is the end of the stream. */
module Framing {
  import opened Wrappers
  import opened JavaText
  import opened JavaNumber
  import opened Bytes
  import opened Failures

  /** A value read from the stream, or the exception, and the position reading stopped at. */
  datatype Read<T> = Read(result: Result<T, Failure>, next: nat)

  // ---------------------------------------------------------------- reading up to a terminator

  /** `prefix` followed by the first `k` chars of `text` ends with `pat`. */
  predicate EndsAt(prefix: string, text: string, pat: string, k: nat)
    requires k <= |text|
  {
    EndsWith(prefix + text[..k], pat)
  }

  /** Appending char after char of `text` to `prefix`, testing the buffer after at least `n` of
      them: the first count at which it ends with `pat`, `None` when the text runs out first. */
  function EndSearch(prefix: string, text: string, pat: string, n: nat): (r: Option<nat>)
    decreases |text| - n
    ensures r.Some? ==> n <= r.value <= |text| && EndsAt(prefix, text, pat, r.value)
  {
    if n > |text| then None
    else if EndsAt(prefix, text, pat, n) then Some(n)
    else EndSearch(prefix, text, pat, n + 1)
  }

  /** The count found is the first at which the buffer ends with `pat`, and when none is found
      the buffer never does. */
  lemma {:induction false} EndSearchFirst(prefix: string, text: string, pat: string, n: nat)
    ensures var r := EndSearch(prefix, text, pat, n);
            && (r.Some? ==> forall k :: n <= k < r.value ==> !EndsAt(prefix, text, pat, k))
            && (r.None? ==> forall k :: n <= k <= |text| ==> !EndsAt(prefix, text, pat, k))
    decreases |text| - n
  {
    if n <= |text| && !EndsAt(prefix, text, pat, n) {
      EndSearchFirst(prefix, text, pat, n + 1);
    }
  }

  /** A count at which the buffer ends with `pat`, with none before it, is the one found. */
  lemma {:induction false} EndSearchIs(prefix: string, text: string, pat: string, n: nat, j: nat)
    requires n <= j <= |text| && EndsAt(prefix, text, pat, j)
    requires forall k :: n <= k < j ==> !EndsAt(prefix, text, pat, k)
    ensures EndSearch(prefix, text, pat, n) == Some(j)
    decreases j - n
  {
    if n < j {
      EndSearchIs(prefix, text, pat, n + 1, j);
    }
  }

  /** One more char that does not complete `pat` leaves the search where it was. */
  lemma {:induction false} EndSearchNext(prefix: string, text: string, pat: string, n: nat)
    requires n <= |text| && !EndsAt(prefix, text, pat, n)
    ensures EndSearch(prefix, text, pat, n) == EndSearch(prefix, text, pat, n + 1)
  {
  }

  /** The search stops at the first count where the buffer ends with `pat`. */
  lemma {:induction false} EndSearchHere(prefix: string, text: string, pat: string, n: nat)
    requires n <= |text| && EndsAt(prefix, text, pat, n)
    ensures EndSearch(prefix, text, pat, n) == Some(n)
  {
  }

  /** A text `x + pat + y` whose part before the last element of `pat` lacks that element is cut
      right after `pat`. */
  lemma {:induction false} EndSearchAfter(x: string, pat: string, y: string)
    requires |pat| > 0 && Free(x + pat[..|pat| - 1], pat[|pat| - 1])
    ensures EndSearch("", x + pat + y, pat, 0) == Some(|x| + |pat|)
  {
    var text := x + pat + y;
    assert text[..|x| + |pat|] == x + pat;
    assert "" + text[..|x| + |pat|] == x + pat;
    forall k | 0 <= k < |x| + |pat|
      ensures !EndsAt("", text, pat, k)
    {
      NotEndedBefore(x, pat, y, k);
    }
    EndSearchIs("", text, pat, 0, |x| + |pat|);
  }

  lemma {:induction false} NotEndedBefore(x: string, pat: string, y: string, k: nat)
    requires |pat| > 0 && Free(x + pat[..|pat| - 1], pat[|pat| - 1])
    requires k < |x| + |pat|
    ensures !EndsAt("", x + pat + y, pat, k)
  {
    var text := x + pat + y;
    var buf := "" + text[..k];
    if k > 0 && |pat| <= k {
      assert buf[k - 1] == text[k - 1] == (x + pat[..|pat| - 1])[k - 1];
      assert buf[|buf| - |pat|..][|pat| - 1] == buf[k - 1];
    }
  }

  // ---------------------------------------------------------------- the head's framing lines

  /** What the head says about the body. */
  datatype BodyFraming = BodyFraming(length: int32, chunked: bool)

  /** A line the loop reads a length from. */
  predicate IsLengthLine(line: string) {
    StartsWith(Lower(line), "content-length:")
  }

  /** A line that switches to chunked reading, wherever `chunked` appears in it. */
  predicate IsChunkedLine(line: string) {
    StartsWith(Lower(line), "transfer-encoding:") && Contains(Lower(line), "chunked")
  }

  /** The length on a `Content-Length` line: exactly two pieces around `:`, the second a decimal
      `int` once trimmed; `None` for the IllegalHeaderException. */
  function LengthValue(line: string): (r: Option<int32>)
    ensures r.Some? ==> |Split(line, ":")| == 2 && ParseInt(Trim(Split(line, ":")[1]), 10) == r
  {
    var parts := Split(line, ":");
    if |parts| != 2 then None else ParseInt(Trim(parts[1]), 10)
  }

  /** No line from `i` on declares a length. */
  ghost predicate LastLengthLine(lines: seq<string>, i: nat) {
    forall j :: i < j < |lines| ==> !IsLengthLine(lines[j])
  }

  /** The `for (String line : ...)` loop from framing `f`, line after line: a length line sets the
      length or raises IllegalHeader naming the line, a chunked line sets the chunked flag. */
  function ScanLines(lines: seq<string>, f: BodyFraming): (r: Result<BodyFraming, Failure>)
    decreases |lines|
    ensures r.Failure? ==> r.error.IllegalHeader?
  {
    if lines == [] then Success(f)
    else
      var f1 := ScanLine(lines[0], f);
      if f1.Failure? then f1 else ScanLines(lines[1..], f1.value)
  }

  /** After a complete scan the body is chunked exactly when it was already or some line says so. */
  lemma {:induction false} ScanLinesChunked(lines: seq<string>, f: BodyFraming)
    requires ScanLines(lines, f).Success?
    ensures ScanLines(lines, f).value.chunked
            <==> f.chunked || exists i :: 0 <= i < |lines| && IsChunkedLine(lines[i])
    decreases |lines|
  {
    if lines != [] {
      var f1 := ScanLine(lines[0], f).value;
      ScanLinesChunked(lines[1..], f1);
      if exists i :: 0 <= i < |lines| && IsChunkedLine(lines[i]) {
        var i :| 0 <= i < |lines| && IsChunkedLine(lines[i]);
        if i > 0 {
          assert lines[1..][i - 1] == lines[i];
        }
      }
      if exists i :: 0 <= i < |lines[1..]| && IsChunkedLine(lines[1..][i]) {
        var i :| 0 <= i < |lines[1..]| && IsChunkedLine(lines[1..][i]);
        assert lines[i + 1] == lines[1..][i];
      }
    }
  }

  /** After a complete scan every length line held a number. */
  lemma {:induction false} ScanLinesParsed(lines: seq<string>, f: BodyFraming)
    requires ScanLines(lines, f).Success?
    ensures forall i :: 0 <= i < |lines| && IsLengthLine(lines[i]) ==> LengthValue(lines[i]).Some?
    decreases |lines|
  {
    if lines != [] {
      var f1 := ScanLine(lines[0], f).value;
      ScanLinesParsed(lines[1..], f1);
      forall i | 1 <= i < |lines| && IsLengthLine(lines[i]) ensures LengthValue(lines[i]).Some? {
        assert lines[1..][i - 1] == lines[i];
      }
    }
  }

  /** Without a length line a complete scan keeps the initial length. */
  lemma {:induction false} ScanLinesNoLength(lines: seq<string>, f: BodyFraming)
    requires ScanLines(lines, f).Success?
    requires forall i :: 0 <= i < |lines| ==> !IsLengthLine(lines[i])
    ensures ScanLines(lines, f).value.length == f.length
    decreases |lines|
  {
    if lines != [] {
      var f1 := ScanLine(lines[0], f).value;
      assert !IsLengthLine(lines[0]);
      forall j | 0 <= j < |lines[1..]| ensures !IsLengthLine(lines[1..][j]) {
        assert lines[1..][j] == lines[j + 1];
      }
      ScanLinesNoLength(lines[1..], f1);
    }
  }

  /** After a complete scan the length is the number on the last length line. */
  lemma {:induction false} ScanLinesLastLength(lines: seq<string>, f: BodyFraming, i: nat)
    requires ScanLines(lines, f).Success?
    requires i < |lines| && IsLengthLine(lines[i]) && LastLengthLine(lines, i)
    ensures LengthValue(lines[i]) == Some(ScanLines(lines, f).value.length)
    decreases |lines|
  {
    var f1 := ScanLine(lines[0], f).value;
    if i == 0 {
      forall j | 0 <= j < |lines[1..]| ensures !IsLengthLine(lines[1..][j]) {
        assert lines[1..][j] == lines[j + 1];
      }
      ScanLinesNoLength(lines[1..], f1);
    } else {
      assert lines[1..][i - 1] == lines[i];
      forall j | i - 1 < j < |lines[1..]| ensures !IsLengthLine(lines[1..][j]) {
        assert lines[1..][j] == lines[j + 1];
      }
      ScanLinesLastLength(lines[1..], f1, i - 1);
    }
  }

  /** A failed scan stopped at the first length line without a number, and names it. */
  lemma {:induction false} ScanLinesError(lines: seq<string>, f: BodyFraming)
    requires ScanLines(lines, f).Failure?
    ensures exists i :: 0 <= i < |lines| && IsLengthLine(lines[i]) && LengthValue(lines[i]).None?
              && ScanLines(lines, f).error == IllegalHeader(lines[i])
              && forall j :: 0 <= j < i && IsLengthLine(lines[j]) ==> LengthValue(lines[j]).Some?
    decreases |lines|
  {
    var f1 := ScanLine(lines[0], f);
    if f1.Success? {
      ScanLinesError(lines[1..], f1.value);
      var i :| 0 <= i < |lines[1..]| && IsLengthLine(lines[1..][i]) && LengthValue(lines[1..][i]).None?
               && ScanLines(lines[1..], f1.value).error == IllegalHeader(lines[1..][i])
               && forall j :: 0 <= j < i && IsLengthLine(lines[1..][j]) ==> LengthValue(lines[1..][j]).Some?;
      assert lines[i + 1] == lines[1..][i];
      forall j | 0 <= j < i + 1 && IsLengthLine(lines[j]) ensures LengthValue(lines[j]).Some? {
        if j > 0 {
          assert lines[1..][j - 1] == lines[j];
        }
      }
    } else {
      assert IsLengthLine(lines[0]) && LengthValue(lines[0]).None?;
    }
  }

  /** One line of that loop. */
  function ScanLine(line: string, f: BodyFraming): (r: Result<BodyFraming, Failure>)
    ensures r.Failure? <==> IsLengthLine(line) && LengthValue(line).None?
    ensures r.Failure? ==> r.error == IllegalHeader(line)
    ensures r.Success? ==> r.value.chunked == (f.chunked || IsChunkedLine(line))
    ensures r.Success? ==> r.value.length == if IsLengthLine(line) then LengthValue(line).value else f.length
  {
    var f1 :=
      if IsLengthLine(line) then
        match LengthValue(line)
        case None => Failure(IllegalHeader(line))
        case Some(n) => Success(f.(length := n))
      else Success(f);
    if f1.Failure? then f1
    else if IsChunkedLine(line) then Success(f1.value.(chunked := true))
    else f1
  }

  /** The framing of a head: its lines split at CRLF, from length 0 and not chunked. */
  function FramingOf(head: string): (r: Result<BodyFraming, Failure>)
    ensures r.Failure? ==> r.error.IllegalHeader?
  {
    ScanLines(Split(head, CRLF), BodyFraming(0, false))
  }

  // ---------------------------------------------------------------- bodies

  /** `readBody(in, length)`: a negative length fails on the array, a stream that ends before
      `length` bytes fails on the index once the stream is drained, otherwise the next `length` bytes. */
  function ReadBody(input: seq<byte>, pos: nat, n: int): (r: Read<seq<byte>>)
    requires pos <= |input|
    ensures r.result.Success? <==> 0 <= n && pos + n <= |input|
    ensures r.result.Success? ==> r.result.value == input[pos..pos + n] && r.next == pos + n
    ensures r.result.Failure? ==>
              (n < 0 && r == Read(Failure(NegativeArraySize), pos))
              || (n >= 0 && r == Read(Failure(IndexOutOfBounds), |input|))
  {
    if n < 0 then Read(Failure(NegativeArraySize), pos)
    else if pos + n > |input| then Read(Failure(IndexOutOfBounds), |input|)
    else Read(Success(input[pos..pos + n]), pos + n)
  }

  /** The size a size line announces: the part before the first `;`, with CRLF removed, in
      base 16. */
  function ChunkSize(line: string): (r: Result<int32, Failure>)
    ensures r.Failure? ==> r.error.NumberFormat? || r.error.IndexOutOfBounds?
  {
    var parts := Split(line, ";");
    if |parts| == 0 then Failure(IndexOutOfBounds)
    else
      match ParseInt(Replace(parts[0], CRLF, ""), 16)
      case None => Failure(NumberFormat)
      case Some(size) => Success(size)
  }

  /** The size line of one chunk: chars, signed as `readByte` gives them, are appended to `buf`
      until it ends with CRLF, and the line is then parsed. */
  function ChunkLine(input: seq<byte>, k: nat, buf: string): (r: Read<int32>)
    requires k <= |input|
    decreases |input| - k
    ensures k <= r.next <= |input|
  {
    if EndsWith(buf, CRLF) then Read(ChunkSize(buf), k)
    else if k == |input| then Read(Failure(EndOfStream), |input|)
    else ChunkLine(input, k + 1, buf + [SignedChar(input[k])])
  }

  /** One more char of a size line not yet complete. */
  lemma {:induction false} ChunkLineStep(input: seq<byte>, k: nat, buf: string)
    requires k < |input| && !EndsWith(buf, CRLF)
    ensures ChunkLine(input, k, buf) == ChunkLine(input, k + 1, buf + [SignedChar(input[k])])
  {
  }

  /** A complete size line is parsed where it ends. */
  lemma {:induction false} ChunkLineDone(input: seq<byte>, k: nat, buf: string)
    requires k <= |input| && EndsWith(buf, CRLF)
    ensures ChunkLine(input, k, buf) == Read(ChunkSize(buf), k)
  {
  }

  /** A size line the stream ends in. */
  lemma {:induction false} ChunkLineEnd(input: seq<byte>, buf: string)
    requires !EndsWith(buf, CRLF)
    ensures ChunkLine(input, |input|, buf) == Read(Failure(EndOfStream), |input|)
  {
  }

  /** `readBodyChunked`: chunk after chunk, each followed by two bytes that are skipped, until a
      chunk of size 0; `acc` holds what was read before. */
  function Chunked(input: seq<byte>, pos: nat, acc: seq<byte>): (r: Read<seq<byte>>)
    requires pos <= |input|
    decreases |input| - pos, 1
    ensures pos <= r.next <= |input|
    ensures r.result.Success? ==> |acc| <= |r.result.value| && r.result.value[..|acc|] == acc
  {
    ChunkedAfter(input, ChunkLine(input, pos, ""), acc)
  }

  /** The rest of `readBodyChunked` once a size line was read. */
  function ChunkedAfter(input: seq<byte>, line: Read<int32>, acc: seq<byte>): (r: Read<seq<byte>>)
    requires line.next <= |input|
    decreases |input| - line.next, 0
    ensures line.next <= r.next <= |input|
    ensures r.result.Success? ==> |acc| <= |r.result.value| && r.result.value[..|acc|] == acc
  {
    match line.result
    case Failure(e) => Read(Failure(e), line.next)
    case Success(size) =>
      var body := ReadBody(input, line.next, size);
      match body.result
      case Failure(e) => Read(Failure(e), body.next)
      case Success(bytes) =>
        if size == 0 then Read(Success(acc + bytes), body.next)
        else if body.next + 2 > |input| then Read(Failure(EndOfStream), |input|)
        else
          var r := Chunked(input, body.next + 2, acc + bytes);
          assert (acc + bytes)[..|acc|] == acc;
          r
  }

  /** After a chunked body the trailer is read char by char into the head, before its final
      CRLF, until the head ends with a blank line again; what it becomes is returned. */
  function Trailer(head: string, input: seq<byte>, pos: nat): (r: Read<string>)
    requires pos <= |input| && EndsWith(head, BlankLine)
    ensures pos <= r.next <= |input|
    ensures r.result.Success? ==> EndsWith(r.result.value, BlankLine) && r.next > pos
  {
    var kept := head[..|head| - 2];
    var text := HeadText(input[pos..]);
    match EndSearch(kept, text, BlankLine, 1)
    case None => Read(Failure(EndOfStream), |input|)
    case Some(t) => Read(Success(kept + text[..t]), pos + t)
  }

  /** Where the search for the blank line succeeds, the trailer has the chars read up to it. */
  lemma {:induction false} TrailerFound(head: string, input: seq<byte>, pos: nat, t: nat)
    requires pos <= |input| && EndsWith(head, BlankLine)
    requires EndSearch(head[..|head| - 2], HeadText(input[pos..]), BlankLine, 1) == Some(t)
    ensures Trailer(head, input, pos) == Read(Success(head[..|head| - 2] + HeadText(input[pos..])[..t]), pos + t)
  {
  }

  /** Where it fails, the stream has ended. */
  lemma {:induction false} TrailerMissing(head: string, input: seq<byte>, pos: nat)
    requires pos <= |input| && EndsWith(head, BlankLine)
    requires EndSearch(head[..|head| - 2], HeadText(input[pos..]), BlankLine, 1).None?
    ensures Trailer(head, input, pos) == Read(Failure(EndOfStream), |input|)
  {
  }

  /** The head after the trailer is the old head without its final CRLF, followed by the chars
      read. */
  lemma {:induction false} TrailerShape(head: string, input: seq<byte>, pos: nat)
    requires pos <= |input| && EndsWith(head, BlankLine)
    ensures var r := Trailer(head, input, pos);
            r.result.Success? ==>
              && |r.result.value| > |head| - 2
              && r.result.value[..|head| - 2] == head[..|head| - 2]
              && r.result.value[|head| - 2..] == HeadText(input[pos..r.next])
  {
    var kept := head[..|head| - 2];
    var text := HeadText(input[pos..]);
    match EndSearch(kept, text, BlankLine, 1)
    case None =>
    case Some(t) =>
      var value := kept + text[..t];
      assert value[..|head| - 2] == kept;
      assert value[|head| - 2..] == text[..t];
      assert HeadText(input[pos..pos + t]) == text[..t] by {
        assert input[pos..pos + t] == input[pos..][..t];
      }
  }

  // ---------------------------------------------------------------- one request

  /** The request text the loop hands to `new Request(...)`: the head, read as signed chars up to
      the first blank line, then the body as one char per byte; the head of a chunked request is
      the one with the trailer inserted. */
  function RequestText(input: seq<byte>, pos: nat): (r: Read<string>)
    requires pos <= |input|
    ensures pos <= r.next <= |input|
    ensures r.result.Success? || !r.result.error.EndOfStream? ==> r.next >= pos + 4
  {
    var head := Head(input, pos);
    match head.result
    case Failure(e) => Read(Failure(e), head.next)
    case Success(h) => AfterHead(h, input, head.next)
  }

  /** The head: the chars read as signed chars up to and including the first blank line, or
      the end of the stream when there is none. It is the shortest prefix of the text that ends
      with a blank line, and the stream ends only when no prefix does. */
  function Head(input: seq<byte>, pos: nat): (r: Read<string>)
    requires pos <= |input|
    ensures pos <= r.next <= |input|
    ensures r.result.Failure? ==> r.result.error == EndOfStream && r.next == |input|
    ensures r.result.Success? ==> EndsWith(r.result.value, BlankLine) && r.next == pos + |r.result.value|
    ensures r.result.Success? ==>
              && r.result.value == HeadText(input[pos..])[..|r.result.value|]
              && forall k :: 0 <= k < |r.result.value| ==> !EndsWith(HeadText(input[pos..])[..k], BlankLine)
    ensures r.result.Failure? ==>
              forall k :: 0 <= k <= |input| - pos ==> !EndsWith(HeadText(input[pos..])[..k], BlankLine)
  {
    var text := HeadText(input[pos..]);
    HeadFirst(text);
    match EndSearch("", text, BlankLine, 0)
    case None => Read(Failure(EndOfStream), |input|)
    case Some(h) =>
      assert "" + text[..h] == text[..h];
      Read(Success(text[..h]), pos + h)
  }

  /** The head when the search finds the blank line after `n` chars. */
  lemma {:induction false} HeadFound(input: seq<byte>, pos: nat, n: nat)
    requires pos <= |input| && EndSearch("", HeadText(input[pos..]), BlankLine, 0) == Some(n)
    ensures Head(input, pos) == Read(Success(HeadText(input[pos..])[..n]), pos + n)
  {
  }

  /** The head when the stream ends before a blank line. */
  lemma {:induction false} HeadMissing(input: seq<byte>, pos: nat)
    requires pos <= |input| && EndSearch("", HeadText(input[pos..]), BlankLine, 0).None?
    ensures Head(input, pos) == Read(Failure(EndOfStream), |input|)
  {
  }

  /** The search for the first blank line from an empty buffer, restated on prefixes of `text`. */
  lemma {:induction false} HeadFirst(text: string)
    ensures var r := EndSearch("", text, BlankLine, 0);
            && (r.Some? ==> forall k :: 0 <= k < r.value ==> !EndsWith(text[..k], BlankLine))
            && (r.None? ==> forall k :: 0 <= k <= |text| ==> !EndsWith(text[..k], BlankLine))
  {
    EndSearchFirst("", text, BlankLine, 0);
    forall k | 0 <= k <= |text|
      ensures EndsAt("", text, BlankLine, k) <==> EndsWith(text[..k], BlankLine)
    {
      assert "" + text[..k] == text[..k];
    }
  }

  /** What follows a head that ends with a blank line: the framing it states, then the body.
      A malformed `Content-Length` line is reported before any byte of the body is read. */
  function AfterHead(head: string, input: seq<byte>, pos: nat): (r: Read<string>)
    requires pos <= |input| && EndsWith(head, BlankLine)
    ensures pos <= r.next <= |input|
    ensures FramingOf(head).Failure? ==> r == Read(Failure(FramingOf(head).error), pos)
    ensures FramingOf(head).Failure? ==> FramingOf(head).error.IllegalHeader?
  {
    match FramingOf(head)
    case Failure(e) => Read(Failure(e), pos)
    case Success(f) => if f.chunked then ChunkedRest(head, input, pos) else FixedRest(head, input, pos, f.length)
  }

  /** A chunked body, then the trailer, which becomes part of the head. */
  function ChunkedRest(head: string, input: seq<byte>, pos: nat): (r: Read<string>)
    requires pos <= |input| && EndsWith(head, BlankLine)
    ensures pos <= r.next <= |input|
  {
    var body := Chunked(input, pos, []);
    match body.result
    case Failure(e) => Read(Failure(e), body.next)
    case Success(bytes) =>
      var trailer := Trailer(head, input, body.next);
      match trailer.result
      case Failure(e) => Read(Failure(e), trailer.next)
      case Success(newHead) => Read(Success(newHead + Latin1(bytes)), trailer.next)
  }

  /** A body of `length` bytes after the head. */
  function FixedRest(head: string, input: seq<byte>, pos: nat, length: int32): (r: Read<string>)
    requires pos <= |input|
    ensures pos <= r.next <= |input|
  {
    var body := ReadBody(input, pos, length);
    match body.result
    case Failure(e) => Read(Failure(e), body.next)
    case Success(bytes) => Read(Success(head + Latin1(bytes)), body.next)
  }

  // ---------------------------------------------------------------- properties

  /** Text in 7-bit ASCII. */
  predicate IsAscii(s: string) {
    forall i :: 0 <= i < |s| ==> s[i] as int < 128
  }

  /** ASCII text written as bytes reads back the same as a head. */
  lemma {:induction false} HeadTextOfAscii(s: string)
    requires IsAscii(s)
    ensures HeadText(Latin1Bytes(s)) == s
  {
    var t := HeadText(Latin1Bytes(s));
    forall i | 0 <= i < |s| ensures t[i] == s[i] {
      assert t[i] as int == s[i] as int;
    }
  }

  /** A slice of the input that holds `e` holds each part of `e`. */
  lemma {:induction false} SliceOf(input: seq<byte>, pos: nat, e: seq<byte>, i: nat, j: nat)
    requires pos + |e| <= |input| && input[pos..pos + |e|] == e && i <= j <= |e|
    ensures input[pos + i..pos + j] == e[i..j]
  {
    forall k | 0 <= k < j - i ensures input[pos + i..pos + j][k] == e[i..j][k] {
      assert input[pos + i + k] == input[pos..pos + |e|][i + k];
    }
  }

  /** The input after `pos` starts with the bytes of `s`, so the head text after `pos` starts with `s`. */
  lemma {:induction false} HeadTextAfter(input: seq<byte>, pos: nat, s: string)
    requires IsAscii(s) && pos + |s| <= |input| && input[pos..pos + |s|] == Latin1Bytes(s)
    ensures HeadText(input[pos..]) == s + HeadText(input[pos + |s|..])
  {
    assert input[pos..] == input[pos..pos + |s|] + input[pos + |s|..];
    HeadTextAppend(Latin1Bytes(s), input[pos + |s|..]);
    HeadTextOfAscii(s);
  }

  /** A slice that holds `a + b` holds `a`, then `b`. */
  lemma {:induction false} SliceParts(input: seq<byte>, pos: nat, a: seq<byte>, b: seq<byte>)
    requires pos + |a + b| <= |input| && input[pos..pos + |a + b|] == a + b
    ensures input[pos..pos + |a|] == a && input[pos + |a|..pos + |a| + |b|] == b
  {
    SliceOf(input, pos, a + b, 0, |a|);
    assert (a + b)[0..|a|] == a;
    SliceOf(input, pos, a + b, |a|, |a + b|);
    assert (a + b)[|a|..|a + b|] == b;
  }

  /** A size field the line reader passes whole to `parseInt`: ASCII without `;`, CR or LF. */
  predicate SizeField(size: string) {
    IsAscii(size) && Free(size, ';') && Free(size, '\r') && Free(size, '\n')
  }

  lemma {:induction false} SizeLineAscii(size: string)
    requires SizeField(size)
    ensures IsAscii(size + CRLF) && Free(size + CRLF, ';') && Free(size + "\r", '\n')
  {
    assert Free(CRLF, ';');
    FreeAppend(size, CRLF, ';');
    FreeAppend(size, "\r", '\n');
    assert forall i :: |size| <= i < |size + CRLF| ==> (size + CRLF)[i] == CRLF[i - |size|];
  }

  /** The line loop, with `buf` read so far and `rest` still to come, reads exactly the rest of a
      size field followed by CRLF. */
  lemma {:induction false} LineFrom(input: seq<byte>, k: nat, buf: string, rest: string, size: string)
    requires SizeField(size) && buf + rest == size + CRLF
    requires k + |rest| <= |input| && forall i :: 0 <= i < |rest| ==> SignedChar(input[k + i]) == rest[i]
    ensures ChunkLine(input, k, buf) == Read(ChunkSize(size + CRLF), k + |rest|)
    decreases |rest|
  {
    var line := size + CRLF;
    if rest == [] {
      assert buf == line;
      assert line[|line| - 2..] == CRLF;
    } else {
      NotYetAtCRLF(buf, rest, size);
      assert SignedChar(input[k + 0]) == rest[0];
      assert (buf + [rest[0]]) + rest[1..] == line;
      LineFrom(input, k + 1, buf + [rest[0]], rest[1..], size);
    }
  }

  /** A proper prefix of a size line does not yet end in CRLF. */
  lemma {:induction false} NotYetAtCRLF(buf: string, rest: string, size: string)
    requires SizeField(size) && buf + rest == size + CRLF && rest != []
    ensures !EndsWith(buf, CRLF)
  {
    var line := size + CRLF;
    if |buf| >= 2 {
      var b := |buf|;
      assert buf[b - 1] == line[b - 1];
      if b - 1 < |size| {
        assert line[b - 1] == size[b - 1];
      }
      assert buf[b - 2..][1] == buf[b - 1];
    }
  }

  /** A size field followed by CRLF is read as one size line. */
  lemma {:induction false} LineOf(input: seq<byte>, pos: nat, size: string)
    requires SizeField(size)
    requires pos + |size| + 2 <= |input| && input[pos..pos + |size| + 2] == Latin1Bytes(size + CRLF)
    ensures ChunkLine(input, pos, "") == Read(ChunkSize(size + CRLF), pos + |size| + 2)
  {
    var line := size + CRLF;
    SizeLineAscii(size);
    SignedCharsOf(input, pos, line);
    assert "" + line == line;
    LineFrom(input, pos, "", line, size);
  }

  /** ASCII text sent as Latin-1 bytes reads back char by char. */
  lemma {:induction false} SignedCharsOf(input: seq<byte>, pos: nat, line: string)
    requires IsAscii(line) && pos + |line| <= |input| && input[pos..pos + |line|] == Latin1Bytes(line)
    ensures forall i :: 0 <= i < |line| ==> SignedChar(input[pos + i]) == line[i]
  {
    forall i | 0 <= i < |line| ensures SignedChar(input[pos + i]) == line[i] {
      assert input[pos + i] == input[pos..pos + |line|][i] == line[i] as int % 256;
    }
  }

  /** A size line is read as the value of its size field in base 16. */
  lemma {:induction false} ChunkSizeOf(size: string, n: int32)
    requires SizeField(size) && ParseInt(size, 16) == Some(n)
    ensures ChunkSize(size + CRLF) == Success(n)
  {
    var line := size + CRLF;
    SizeLineAscii(size);
    SplitWhole(line, ";");
    assert line == size + CRLF + [];
    FindAfterFree(size, CRLF, []);
    FindInFree([], CRLF);
    assert line[..|size|] == size && line[|size| + 2..] == [];
    assert Replace([], CRLF, "") == [];
    assert Replace(line, CRLF, "") == size + "" + Replace([], CRLF, "");
    assert Replace(line, CRLF, "") == size;
  }

  /** One chunk as a client sends it: its size field and its bytes. */
  datatype Chunk = Chunk(size: string, data: seq<byte>)

  /** A chunk whose size field states the length of its non-empty data. */
  predicate WellSized(ch: Chunk) {
    SizeField(ch.size) && ch.data != [] && ParseInt(ch.size, 16) == Some(|ch.data| as int)
  }

  /** The chunk on the wire: size field, CRLF, the bytes, CRLF. */
  function ChunkBytes(ch: Chunk): seq<byte> {
    Latin1Bytes(ch.size + CRLF) + ch.data + Latin1Bytes(CRLF)
  }

  /** A chunked body: the chunks, then the last chunk `0` (its trailer not included). */
  function ChunkedBytes(chunks: seq<Chunk>): seq<byte>
    decreases |chunks|
  {
    if chunks == [] then Latin1Bytes("0" + CRLF) else ChunkBytes(chunks[0]) + ChunkedBytes(chunks[1..])
  }

  /** The data of the chunks, one after the other. */
  function Concat(chunks: seq<Chunk>): seq<byte>
    decreases |chunks|
  {
    if chunks == [] then [] else chunks[0].data + Concat(chunks[1..])
  }

  ghost predicate Sendable(chunks: seq<Chunk>) {
    forall i :: 0 <= i < |chunks| ==> WellSized(chunks[i])
  }

  /** `Integer.toString(n, 16)`, the size field a client usually writes, is well sized. */
  lemma {:induction false} HexSizeField(data: seq<byte>)
    requires 0 < |data| < 0x8000_0000
    ensures WellSized(Chunk(NatToString(|data|, 16), data))
  {
    ParseNatToString(|data|, 16);
  }

  /** A chunk of positive size is read and reading goes on two bytes after it. */
  lemma {:induction false} ChunkedStep(input: seq<byte>, acc: seq<byte>, c: seq<byte>, q: nat)
    requires 0 < |c| < 0x8000_0000 && q + |c| + 2 <= |input| && input[q..q + |c|] == c
    ensures ChunkedAfter(input, Read(Success(|c|), q), acc) == Chunked(input, q + |c| + 2, acc + c)
  {
    var body := ReadBody(input, q, |c|);
    assert body == Read(Success(c), q + |c|);
  }

  /** The chunk of size 0 ends the body. */
  lemma {:induction false} ChunkedLast(input: seq<byte>, acc: seq<byte>, q: nat)
    requires q <= |input|
    ensures ChunkedAfter(input, Read(Success(0), q), acc) == Read(Success(acc), q)
  {
    assert input[q..q] == [];
    assert acc + [] == acc;
  }

  /** `readBodyChunked` reads a size line first. */
  lemma {:induction false} ChunkedUnfold(input: seq<byte>, pos: nat, acc: seq<byte>, line: Read<int32>)
    requires pos <= |input| && ChunkLine(input, pos, "") == line
    ensures Chunked(input, pos, acc) == ChunkedAfter(input, line, acc)
  {
  }

  /** The last chunk `0` ends a chunked body. */
  lemma {:induction false} LastChunkOf(input: seq<byte>, pos: nat, acc: seq<byte>)
    requires pos + 3 <= |input| && input[pos..pos + 3] == Latin1Bytes("0" + CRLF)
    ensures Chunked(input, pos, acc) == Read(Success(acc), pos + 3)
  {
    assert SizeField("0") && ParseInt("0", 16) == Some(0);
    LineOf(input, pos, "0");
    ChunkSizeOf("0", 0);
    ChunkedUnfold(input, pos, acc, Read(Success(0), pos + 3));
    ChunkedLast(input, acc, pos + 3);
  }

  /** A chunk as the client sends it is read whole, and reading goes on right after it. */
  lemma {:induction false} OneChunk(input: seq<byte>, pos: nat, acc: seq<byte>, ch: Chunk)
    requires WellSized(ch)
    requires pos + |ChunkBytes(ch)| <= |input| && input[pos..pos + |ChunkBytes(ch)|] == ChunkBytes(ch)
    ensures Chunked(input, pos, acc) == Chunked(input, pos + |ChunkBytes(ch)|, acc + ch.data)
  {
    ChunkHeader(input, pos, ch);
    ChunkAt(input, pos, acc, ch.data, pos + |ch.size| + 2);
  }

  /** The size line of a chunk on the wire is read as its length, and its data follows. */
  lemma {:induction false} ChunkHeader(input: seq<byte>, pos: nat, ch: Chunk)
    requires WellSized(ch)
    requires pos + |ChunkBytes(ch)| <= |input| && input[pos..pos + |ChunkBytes(ch)|] == ChunkBytes(ch)
    ensures ChunkLine(input, pos, "") == Read(Success(|ch.data|), pos + |ch.size| + 2)
    ensures pos + |ch.size| + 2 + |ch.data| + 2 == pos + |ChunkBytes(ch)| <= |input|
    ensures input[pos + |ch.size| + 2..pos + |ch.size| + 2 + |ch.data|] == ch.data
  {
    ChunkParts(input, pos, ch);
    LineOf(input, pos, ch.size);
    ChunkSizeOf(ch.size, |ch.data|);
  }

  /** A size line announcing `|c|` bytes, then `c`, moves reading past `c` and two more bytes. */
  lemma {:induction false} ChunkAt(input: seq<byte>, pos: nat, acc: seq<byte>, c: seq<byte>, q: nat)
    requires pos <= |input| && ChunkLine(input, pos, "") == Read(Success(|c|), q)
    requires 0 < |c| < 0x8000_0000 && q + |c| + 2 <= |input| && input[q..q + |c|] == c
    ensures Chunked(input, pos, acc) == Chunked(input, q + |c| + 2, acc + c)
  {
    ChunkedUnfold(input, pos, acc, Read(Success(|c|), q));
    ChunkedStep(input, acc, c, q);
  }

  /** The slices of a chunk on the wire. */
  lemma {:induction false} ChunkParts(input: seq<byte>, pos: nat, ch: Chunk)
    requires pos + |ChunkBytes(ch)| <= |input| && input[pos..pos + |ChunkBytes(ch)|] == ChunkBytes(ch)
    ensures |ChunkBytes(ch)| == |ch.size| + 2 + |ch.data| + 2
    ensures input[pos..pos + |ch.size| + 2] == Latin1Bytes(ch.size + CRLF)
    ensures input[pos + |ch.size| + 2..pos + |ch.size| + 2 + |ch.data|] == ch.data
  {
    var e := ChunkBytes(ch);
    var a := Latin1Bytes(ch.size + CRLF);
    assert e == a + ch.data + Latin1Bytes(CRLF);
    SliceOf(input, pos, e, 0, |a|);
    assert e[0..|a|] == a;
    SliceOf(input, pos, e, |a|, |a| + |ch.data|);
    assert e[|a|..|a| + |ch.data|] == ch.data;
  }

  /** Round trip: `readBodyChunked` returns the concatenated chunks of a chunked body and stops
      right after its last chunk. */
  lemma {:induction false} ChunkedOf(input: seq<byte>, pos: nat, acc: seq<byte>, chunks: seq<Chunk>)
    requires Sendable(chunks)
    requires pos + |ChunkedBytes(chunks)| <= |input|
    requires input[pos..pos + |ChunkedBytes(chunks)|] == ChunkedBytes(chunks)
    ensures Chunked(input, pos, acc) == Read(Success(acc + Concat(chunks)), pos + |ChunkedBytes(chunks)|)
    decreases |chunks|
  {
    var e := ChunkedBytes(chunks);
    if chunks == [] {
      LastChunkOf(input, pos, acc);
      assert acc + Concat(chunks) == acc;
    } else {
      var c := chunks[0].data;
      var b := ChunkBytes(chunks[0]);
      var rest := ChunkedBytes(chunks[1..]);
      assert e == b + rest;
      SliceParts(input, pos, b, rest);
      OneChunk(input, pos, acc, chunks[0]);
      assert Sendable(chunks[1..]) by {
        assert forall i :: 0 <= i < |chunks| - 1 ==> chunks[1..][i] == chunks[i + 1];
      }
      ChunkedOf(input, pos + |b|, acc + c, chunks[1..]);
      ConcatCons(acc, chunks);
    }
  }

  lemma {:induction false} ConcatCons(acc: seq<byte>, chunks: seq<Chunk>)
    requires chunks != []
    ensures acc + chunks[0].data + Concat(chunks[1..]) == acc + Concat(chunks)
  {
    assert Concat(chunks) == chunks[0].data + Concat(chunks[1..]);
  }

  /** A buffer that ends with `pat` ends with its last element. */
  lemma {:induction false} EndsAtLast(prefix: string, text: string, pat: string, k: nat)
    requires k <= |text| && |pat| > 0 && EndsAt(prefix, text, pat, k)
    ensures (prefix + text[..k])[|prefix| + k - 1] == pat[|pat| - 1]
  {
    var b := prefix + text[..k];
    assert b[|b| - |pat|..][|pat| - 1] == b[|b| - 1];
  }

  /** Right after a head that ends with CRLF, a CRLF is the first blank line. */
  lemma {:induction false} BlankAfterCRLF(kept: string, y: string)
    requires EndsWith(kept, CRLF)
    ensures EndSearch(kept, CRLF + y, BlankLine, 1) == Some(2)
  {
    var text := CRLF + y;
    NotBlankAfterCR(kept, text);
    BlankAtCRLF(kept, text);
    EndSearchIs(kept, text, BlankLine, 1, 2);
  }

  lemma {:induction false} NotBlankAfterCR(kept: string, text: string)
    requires |text| >= 1 && text[0] == '\r'
    ensures !EndsAt(kept, text, BlankLine, 1)
  {
    assert text[..1] == "\r";
    var b := kept + "\r";
    if |b| >= 4 {
      assert b[|b| - 4..][3] == b[|b| - 1] == '\r';
    }
  }

  lemma {:induction false} BlankAtCRLF(kept: string, text: string)
    requires EndsWith(kept, CRLF) && |text| >= 2 && text[..2] == CRLF
    ensures EndsAt(kept, text, BlankLine, 2)
  {
    var b := kept + CRLF;
    assert b[|b| - 4..] == kept[|kept| - 2..] + CRLF;
  }

  /** After a field line without CR or LF, the first blank line is the one that ends it. */
  lemma {:induction false} BlankAfterField(kept: string, line: string, y: string)
    requires line != [] && Free(line, '\r') && Free(line, '\n')
    ensures EndSearch(kept, line + BlankLine + y, BlankLine, 1) == Some(|line| + 4)
  {
    var t := line + BlankLine;
    var text := t + y;
    assert text[..|t|] == t;
    forall k | 1 <= k < |t| ensures !EndsAt(kept, text, BlankLine, k) {
      var b := kept + text[..k];
      assert b[|b| - 1] == t[k - 1];
      if |b| >= 4 {
        assert b[|b| - 4..][3] == b[|b| - 1];
        assert b[|b| - 4..][1] == b[|b| - 3];
      }
      if k - 1 < |line| {
        assert t[k - 1] == line[k - 1];
      } else if k - 1 == |line| + 1 {
        assert b[|b| - 3] == t[k - 3] == line[|line| - 1];
      }
    }
    assert EndsAt(kept, text, BlankLine, |t|) by {
      assert (kept + text[..|t|])[|kept| + |t| - 4..] == BlankLine;
    }
    EndSearchIs(kept, text, BlankLine, 1, |t|);
  }

  /** With no trailer fields, the CRLF that ends the chunked body leaves the head as it was. */
  lemma {:induction false} NoTrailer(head: string, input: seq<byte>, pos: nat)
    requires EndsWith(head, BlankLine) && pos + 2 <= |input| && input[pos..pos + 2] == Latin1Bytes(CRLF)
    ensures Trailer(head, input, pos) == Read(Success(head), pos + 2)
  {
    var kept := head[..|head| - 2];
    assert EndsWith(kept, CRLF) by {
      assert kept[|kept| - 2..] == head[|head| - 4..][..2];
    }
    assert IsAscii(CRLF);
    HeadTextAfter(input, pos, CRLF);
    BlankAfterCRLF(kept, HeadText(input[pos + 2..]));
    assert kept + CRLF == head;
  }

  /** One trailer field `line` is inserted into the head before its final CRLF, followed by CRLF. */
  lemma {:induction false} OneTrailer(head: string, input: seq<byte>, pos: nat, line: string)
    requires EndsWith(head, BlankLine) && line != [] && IsAscii(line)
    requires Free(line, '\r') && Free(line, '\n')
    requires pos + |line| + 4 <= |input| && input[pos..pos + |line| + 4] == Latin1Bytes(line + BlankLine)
    ensures Trailer(head, input, pos) == Read(Success(head[..|head| - 2] + line + BlankLine), pos + |line| + 4)
  {
    var t := line + BlankLine;
    assert IsAscii(t) by {
      forall i | 0 <= i < |t| ensures t[i] as int < 128 {
        if i >= |line| { assert t[i] == BlankLine[i - |line|]; }
      }
    }
    HeadTextAfter(input, pos, t);
    var kept := head[..|head| - 2];
    var text := HeadText(input[pos..]);
    BlankAfterField(kept, line, HeadText(input[pos + |t|..]));
    assert text[..|t|] == t;
    assert EndSearch(kept, text, BlankLine, 1) == Some(|t|);
    assert kept + t == kept + line + BlankLine;
  }
}
