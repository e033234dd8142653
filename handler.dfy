/** The connection handler as the program runs it: a stream of bytes read one at a time or in
    blocks, string buffers grown char by char, the store written in place, and the
    `while (!shouldClose)` loop. Each method is proved to compute what the functions of `Framing`,
    `Routing` and `Exchange` say. */
module Server {
  import opened Wrappers
  import opened JavaText
  import opened JavaNumber
  import opened Bytes
  import opened Failures
  import opened HttpVersion
  import opened RequestType
  import opened MessageText
  import opened ResponseText
  import opened ResourceStore
  import opened Environment
  import opened Pages
  import opened Routing
  import opened Framing
  import opened HttpMessage
  import Exchange

  /** The socket's input stream: what the client sends over the connection and how much of it
      was consumed. */
  class Stream {
    const bytes: seq<byte>
    var pos: nat

    predicate Valid()
      reads this
    {
      pos <= |bytes|
    }

    constructor (bytes: seq<byte>)
      ensures this.bytes == bytes && pos == 0 && Valid()
    {
      this.bytes := bytes;
      pos := 0;
    }

    /** `readByte()`: the next byte, `None` for the EOFException at the end. */
    method ReadByte() returns (r: Option<byte>)
      requires Valid()
      modifies this
      ensures Valid()
      ensures old(pos) < |bytes| ==> r == Some(bytes[old(pos)]) && pos == old(pos) + 1
      ensures old(pos) == |bytes| ==> r.None? && pos == old(pos)
    {
      if pos == |bytes| {
        return None;
      }
      r := Some(bytes[pos]);
      pos := pos + 1;
    }

    /** `read(b, off, len)`: as many of the next `len` bytes as there are into `b` from `off`, and
        their number; -1 at the end of the stream. */
    method ReadInto(b: array<byte>, off: nat, len: nat) returns (count: int)
      requires Valid() && off + len <= b.Length && len > 0
      modifies this, b
      ensures Valid()
      ensures old(pos) == |bytes| ==> count == -1 && pos == old(pos) && b[..] == old(b[..])
      ensures old(pos) < |bytes| ==>
                && 0 < count <= len && pos == old(pos) + count
                && (count < len ==> pos == |bytes|)
                && b[..] == old(b[..off]) + bytes[old(pos)..pos] + old(b[off + count..])
    {
      if pos == |bytes| {
        return -1;
      }
      count := if |bytes| - pos < len then |bytes| - pos else len;
      CopyInto(b, off, bytes[pos..pos + count]);
      pos := pos + count;
    }
  }

  /** The bytes of `src` copied into `b` from `off`, one at a time; the rest of `b` untouched. */
  method CopyInto(b: array<byte>, off: nat, src: seq<byte>)
    requires off + |src| <= b.Length
    modifies b
    ensures b[..] == old(b[..off]) + src + old(b[off + |src|..])
  {
    ghost var before := b[..];
    var i := 0;
    while i < |src|
      invariant 0 <= i <= |src|
      invariant b[..] == before[..off] + src[..i] + before[off + i..]
    {
      ghost var cur := b[..];
      b[off + i] := src[i];
      CopyStep(before, cur, b[..], src, off, i);
      i := i + 1;
    }
    assert src[..i] == src;
  }

  /** A `Handler` serving one connection: the library calls, the socket's input, the files below
      `public_html`, what was written back so far and how many requests were served. */
  class Handler {
    const env: Env
    const input: Stream
    const store: Store
    var replies: seq<Exchange.Reply>
    var turns: nat

    predicate Valid()
      reads this, input
    {
      input.Valid()
    }

    constructor (env: Env, input: Stream, store: Store)
      requires input.Valid()
      ensures this.env == env && this.input == input && this.store == store
      ensures replies == [] && turns == 0 && Valid()
    {
      this.env := env;
      this.input := input;
      this.store := store;
      replies := [];
      turns := 0;
    }

    // -------------------------------------------------------------- reading one request

    /** `while (!requestBuffer.toString().endsWith("\r\n\r\n")) requestBuffer.append(...)`. */
    method ReadHead() returns (r: Result<string, Failure>)
      requires Valid()
      modifies input
      ensures Valid()
      ensures r == Head(input.bytes, old(input.pos)).result && input.pos == Head(input.bytes, old(input.pos)).next
    {
      ghost var bytes := input.bytes;
      ghost var p0 := input.pos;
      ghost var text := HeadText(bytes[p0..]);
      var buffer := "";
      while !EndsWith(buffer, BlankLine)
        invariant input.Valid() && p0 <= input.pos && input.pos - p0 == |buffer| <= |text|
        invariant buffer == text[..|buffer|]
        invariant EndSearch("", text, BlankLine, 0) == EndSearch("", text, BlankLine, |buffer|)
        decreases |input.bytes| - input.pos
      {
        assert !EndsAt("", text, BlankLine, |buffer|) by {
          assert "" + text[..|buffer|] == buffer;
        }
        var b := input.ReadByte();
        if b.None? {
          assert EndSearch("", text, BlankLine, |buffer| + 1).None?;
          HeadMissing(bytes, p0);
          return Failure(EndOfStream);
        }
        assert text[|buffer|] == SignedChar(b.value);
        assert text[..|buffer| + 1] == buffer + [SignedChar(b.value)];
        buffer := buffer + [SignedChar(b.value)];
      }
      assert EndsAt("", text, BlankLine, |buffer|) by {
        assert "" + text[..|buffer|] == buffer;
      }
      HeadFound(bytes, p0, |buffer|);
      r := Success(buffer);
    }

    /** The `for (String line : ...)` loop over the head's lines. */
    method ScanFraming(head: string) returns (r: Result<BodyFraming, Failure>)
      ensures r == FramingOf(head)
    {
      var lines := Split(head, CRLF);
      var length: int32 := 0;
      var chunked := false;
      for i := 0 to |lines|
        invariant FramingOf(head) == ScanLines(lines[i..], BodyFraming(length, chunked))
      {
        assert lines[i..][1..] == lines[i + 1..];
        var line := lines[i];
        if StartsWith(Lower(line), "content-length:") {
          var lineParts := Split(line, ":");
          if |lineParts| != 2 {
            return Failure(IllegalHeader(line));
          }
          var n := ParseInt(Trim(lineParts[1]), 10);
          if n.None? {
            return Failure(IllegalHeader(line));
          }
          length := n.value;
        }
        if StartsWith(Lower(line), "transfer-encoding:") && Contains(Lower(line), "chunked") {
          chunked := true;
        }
      }
      r := Success(BodyFraming(length, chunked));
    }

    /** `readBody(in, length)`. */
    method ReadBody(length: int32) returns (r: Result<seq<byte>, Failure>)
      requires Valid()
      modifies input
      ensures Valid()
      ensures r == Framing.ReadBody(input.bytes, old(input.pos), length).result && input.pos == Framing.ReadBody(input.bytes, old(input.pos), length).next
    {
      if length < 0 {
        return Failure(NegativeArraySize);
      }
      var bytes := new byte[length];
      var byteCount := 0;
      ghost var p0 := input.pos;
      while byteCount != length as int
        invariant input.Valid() && 0 <= byteCount <= length as int && input.pos == p0 + byteCount
        invariant bytes[..byteCount] == input.bytes[p0..input.pos]
        decreases length as int - byteCount
      {
        var n := input.ReadInto(bytes, byteCount, length as int - byteCount);
        if n < 0 {
          // `byteCount` would fall and the next `read` would be handed an offset out of range
          return Failure(IndexOutOfBounds);
        }
        assert bytes[..byteCount + n] == input.bytes[p0..input.pos] by {
          assert bytes[..byteCount + n] == bytes[..][..byteCount + n];
          assert input.bytes[p0..input.pos] == input.bytes[p0..p0 + byteCount] + input.bytes[p0 + byteCount..input.pos];
        }
        byteCount := byteCount + n;
      }
      assert bytes[..] == bytes[..byteCount];
      r := Success(bytes[..]);
    }

    /** The size line of one chunk, read char by char until it ends with CRLF, then parsed. */
    method ReadChunkSize() returns (r: Result<int32, Failure>)
      requires Valid()
      modifies input
      ensures Valid()
      ensures Read(r, input.pos) == ChunkLine(input.bytes, old(input.pos), "")
      ensures r.Success? ==> input.pos >= old(input.pos) + 2
    {
      var responseBuffer := "";
      ghost var bytes := input.bytes;
      ghost var p0 := input.pos;
      while !EndsWith(responseBuffer, CRLF)
        invariant input.Valid() && input.bytes == bytes && input.pos == p0 + |responseBuffer|
        invariant ChunkLine(bytes, p0, "") == ChunkLine(bytes, input.pos, responseBuffer)
        decreases |bytes| - input.pos
      {
        ghost var q := input.pos;
        var b := input.ReadByte();
        if b.None? {
          ChunkLineEnd(bytes, responseBuffer);
          return Failure(EndOfStream);
        }
        ChunkLineStep(bytes, q, responseBuffer);
        responseBuffer := responseBuffer + [SignedChar(b.value)];
      }
      ChunkLineDone(bytes, input.pos, responseBuffer);
      r := ChunkSize(responseBuffer);
    }

    /** `readBodyChunked(in)`: size line, chunk and the two bytes after it, until a chunk of 0. */
    method ReadBodyChunked() returns (r: Result<seq<byte>, Failure>)
      requires Valid()
      modifies input
      ensures Valid()
      ensures r == Chunked(input.bytes, old(input.pos), []).result && input.pos == Chunked(input.bytes, old(input.pos), []).next
    {
      var length: int32 := -1;
      var buffer: seq<byte> := [];
      ghost var p0 := input.pos;
      while length != 0
        invariant input.Valid()
        invariant length != 0 ==> Chunked(input.bytes, p0, []) == Chunked(input.bytes, input.pos, buffer)
        invariant length == 0 ==> Chunked(input.bytes, p0, []) == Read(Success(buffer), input.pos)
        decreases |input.bytes| - input.pos, if length != 0 then 1 else 0
      {
        ghost var q := input.pos;
        ChunkedUnfold(input.bytes, q, buffer, ChunkLine(input.bytes, q, ""));
        var size := ReadChunkSize();
        if size.Failure? {
          return Failure(size.error);
        }
        length := size.value;
        var body := ReadBody(length);
        if body.Failure? {
          return Failure(body.error);
        }
        buffer := buffer + body.value;
        if length != 0 {
          var b1 := input.ReadByte();
          var b2 := input.ReadByte();
          if b1.None? || b2.None? {
            return Failure(EndOfStream);
          }
        }
      }
      r := Success(buffer);
    }

    /** The trailer of a chunked request: char after char inserted before the head's final CRLF
        until the buffer ends with three CRLFs, then the extra CRLF deleted. */
    method ReadTrailer(head: string) returns (r: Result<string, Failure>)
      requires Valid() && EndsWith(head, BlankLine)
      modifies input
      ensures Valid()
      ensures r == Trailer(head, input.bytes, old(input.pos)).result && input.pos == Trailer(head, input.bytes, old(input.pos)).next
    {
      ghost var bytes := input.bytes;
      ghost var p0 := input.pos;
      ghost var kept := head[..|head| - 2];
      ghost var text := HeadText(bytes[p0..]);
      ghost var m := 0;
      var requestBuffer := head;
      assert head == kept + text[..0] + CRLF;
      while true
        invariant input.Valid() && input.bytes == bytes && input.pos == p0 + m && m <= |text|
        invariant requestBuffer == kept + text[..m] + CRLF
        invariant EndSearch(kept, text, BlankLine, 1) == EndSearch(kept, text, BlankLine, m + 1)
        decreases |text| - m
      {
        var b := input.ReadByte();
        if b.None? {
          assert EndSearch(kept, text, BlankLine, m + 1).None?;
          TrailerMissing(head, bytes, p0);
          return Failure(EndOfStream);
        }
        ghost var before := requestBuffer;
        requestBuffer := requestBuffer[..|requestBuffer| - 2] + [SignedChar(b.value)] + requestBuffer[|requestBuffer| - 2..];
        TrailerInsert(bytes, p0, kept, text, m, b.value, before, requestBuffer);
        if EndsWith(requestBuffer, CRLF + CRLF + CRLF) {
          requestBuffer := requestBuffer[..|requestBuffer| - 2];
          EndSearchHere(kept, text, BlankLine, m + 1);
          TrailerFound(head, bytes, p0, m + 1);
          return Success(requestBuffer);
        }
        EndSearchNext(kept, text, BlankLine, m + 1);
        m := m + 1;
      }
    }

    /** The text the loop reads for one request, before `new Request(...)`. */
    method ReadRequestText() returns (r: Result<string, Failure>)
      requires Valid()
      modifies input
      ensures Valid()
      ensures r == Framing.RequestText(input.bytes, old(input.pos)).result
      ensures input.pos == Framing.RequestText(input.bytes, old(input.pos)).next
    {
      var head := ReadHead();
      if head.Failure? {
        return head;
      }
      r := ReadAfterHead(head.value);
    }

    /** The framing lines of the head, then the body they announce. */
    method ReadAfterHead(head: string) returns (r: Result<string, Failure>)
      requires Valid() && EndsWith(head, BlankLine)
      modifies input
      ensures Valid()
      ensures r == AfterHead(head, input.bytes, old(input.pos)).result
      ensures input.pos == AfterHead(head, input.bytes, old(input.pos)).next
    {
      var framing := ScanFraming(head);
      if framing.Failure? {
        return Failure(framing.error);
      }
      if framing.value.chunked {
        r := ReadChunkedRest(head);
      } else {
        r := ReadFixedRest(head, framing.value.length);
      }
    }

    /** `readBodyChunked`, then the trailer. */
    method ReadChunkedRest(head: string) returns (r: Result<string, Failure>)
      requires Valid() && EndsWith(head, BlankLine)
      modifies input
      ensures Valid()
      ensures r == ChunkedRest(head, input.bytes, old(input.pos)).result
      ensures input.pos == ChunkedRest(head, input.bytes, old(input.pos)).next
    {
      var body := ReadBodyChunked();
      if body.Failure? {
        return Failure(body.error);
      }
      var newHead := ReadTrailer(head);
      if newHead.Failure? {
        return newHead;
      }
      r := Success(newHead.value + Latin1(body.value));
    }

    /** `readBody(in, length)` after the head. */
    method ReadFixedRest(head: string, length: int32) returns (r: Result<string, Failure>)
      requires Valid()
      modifies input
      ensures Valid()
      ensures r == FixedRest(head, input.bytes, old(input.pos), length).result
      ensures input.pos == FixedRest(head, input.bytes, old(input.pos), length).next
    {
      var body := ReadBody(length);
      if body.Failure? {
        return Failure(body.error);
      }
      r := Success(head + Latin1(body.value));
    }

    // -------------------------------------------------------------- answering one request

    /** `getResponse(request)`, writing the store in place for POST and PUT. */
    method GetResponse(req: View, now: nat) returns (r: Result<View, Failure>)
      requires req.kind.Req?
      modifies store
      ensures r == Route(env, req, old(store.State()), now).result
      ensures store.State() == Route(env, req, old(store.State()), now).files
    {
      var v := req.version;
      if v == HTTP11 && Get(req.headers, "host").None? {
        return Success(RespondWith(HTTP11, 400, "Bad Request", HostRequiredText, "text/plain"));
      }
      var path := RequestPath(env, req.kind.path);
      if path.None? {
        return Failure(IllegalRequest);
      }
      if path.value == [] && v == HTTP11 {
        return Success(Redirect(v));
      }
      var key := StoreKey(path.value);
      match req.kind.requestType
      case GET =>
        r := FetchPage(env, req, store.State(), key, false);
      case HEAD =>
        r := FetchPage(env, req, store.State(), key, true);
      case POST =>
        if IsDirectory(store.State(), key) {
          return Success(RespondWith(v, 400, "Bad Request", NotWritableText, "text/plain"));
        }
        var writingContent := req.content;
        if key in store.data {
          writingContent := CRLF + writingContent;
        }
        PostBytesCases(store.State(), key, req.content);
        store.Write(key, Latin1Bytes(writingContent), true, now);
        r := Success(Respond(v, 200, "OK"));
      case PUT =>
        if IsDirectory(store.State(), key) {
          return Success(RespondWith(v, 400, "Bad Request", NotWritableText, "text/plain"));
        }
        store.Write(key, Latin1Bytes(req.content), false, now);
        r := Success(Respond(v, 200, "OK"));
    }

    /** The inner `try` block once a request text was read: `new Request(text)`,
        `getResponse(request)`, and `shouldClose` for a served request. */
    method Serve(text: string, now: nat) returns (response: Result<View, Failure>, shouldClose: bool)
      modifies store
      ensures var a := Exchange.Serve(env, text, old(store.State()), now);
              response == a.response && shouldClose == a.close && store.State() == a.files
    {
      var request := ReadRequest(text);
      if request.Failure? {
        return Failure(request.error), false;
      }
      var req := request.value.View();
      response := GetResponse(req, now);
      shouldClose := response.Success?
        && (request.value.GetHeader("connection") == Some("close") || req.version == HTTP10);
    }

    /** The `try` block of the loop body: the request read and answered, or the exception that
        reading it threw. */
    method Answer(now: nat) returns (answer: Result<View, Failure>, shouldClose: bool)
      requires Valid()
      modifies input, store
      ensures Valid()
      ensures var read := Framing.RequestText(input.bytes, old(input.pos));
              var a := Exchange.Answered(env, read.result, old(store.State()), now);
              && input.pos == read.next && answer == a.response && shouldClose == a.close && store.State() == a.files
    {
      var text := ReadRequestText();
      if text.Failure? {
        return Failure(text.error), false;
      }
      answer, shouldClose := Serve(text.value, now);
    }

    /** One pass of `while (!shouldClose)`: read and answer a request, or build the answer of the
        catch clause, add the `Date`, and write the reply. `stop` is `shouldClose`, or the
        `break` at the end of the stream, or the exception of an undecodable image. */
    method Turn() returns (stop: bool)
      requires Valid()
      modifies this, input, store
      ensures Valid()
      ensures var t := Exchange.Step(env, input.bytes, old(input.pos), old(store.State()), old(turns));
              && input.pos == t.next && store.State() == t.files && stop == t.stop
              && replies == old(replies) + Exchange.Sent(t)
              && turns == old(turns) + 1
    {
      var now := env.clock(turns);
      var answer, shouldClose := Answer(now);
      var response := if answer.Success? then Some(answer.value) else Exchange.ErrorResponse(answer.error);
      turns := turns + 1;
      if response.None? {
        return true;
      }
      var reply := Deliver(response.value, now);
      if reply.None? {
        return true;
      }
      replies := replies + [reply.value];
      stop := shouldClose;
    }

    /** The end of the loop body: `addHeader("Date", ...)`, then for an image the decoded bytes
        and their length, otherwise the text. `None` when the image text does not decode. */
    method Deliver(w: View, now: nat) returns (r: Option<Exchange.Reply>)
      ensures r == Exchange.Deliver(env, w, now)
    {
      var response := new Message.Parsed(w);
      response.AddHeader("Date", env.httpDate(now));
      if response.HasHeader("content-type") && Contains(response.GetHeader("content-type").value, "image") {
        var bytes := env.base64Decode(response.content);
        if bytes.None? {
          return None;
        }
        response.AddHeader("content-length", IntToString(|bytes.value|));
        r := Some(Exchange.Image(response.View(), bytes.value));
      } else {
        r := Some(Exchange.Text(response.View()));
      }
    }

    /** `run()`: turns until one closes the connection. The ghost `pos`, `files` and `k` are where
        the loop stands, so that the rest of the session is `Exchange.Run` from there. */
    method Run()
      requires Valid()
      modifies this, input, store
      ensures Valid()
      ensures var s := Exchange.Run(env, input.bytes, old(input.pos), old(store.State()), old(turns));
              replies == old(replies) + s.replies && store.State() == s.files
    {
      ghost var pos, files, k := input.pos, store.State(), turns;
      ghost var session := Exchange.Run(env, input.bytes, pos, files, k);
      ghost var done: seq<Exchange.Reply> := [];
      var shouldClose := false;
      while !shouldClose
        invariant Valid() && replies == old(replies) + done
        invariant input.pos == pos && store.State() == files && turns == k
        invariant !shouldClose ==> Continues(session, done, pos, files, k)
        invariant shouldClose ==> session.replies == done && session.files == files
        decreases |input.bytes| - pos, if shouldClose then 0 else 1
      {
        shouldClose, done, pos, files, k := NextTurn(session, old(replies), done, pos, files, k);
      }
    }

    /** The session `session` has written `done` and goes on from position `pos` of the input, with
        the store at `files`, as the `k`-th turn. */
    ghost predicate Continues(session: Exchange.Session, done: seq<Exchange.Reply>, pos: nat, files: Files, k: nat)
    {
      && pos <= |input.bytes|
      && session.replies == done + Exchange.Run(env, input.bytes, pos, files, k).replies
      && session.files == Exchange.Run(env, input.bytes, pos, files, k).files
    }

    /** A pass of the loop inside a session: the session is over, or goes on from where the
        pass stopped reading. */
    method NextTurn(ghost session: Exchange.Session, ghost earlier: seq<Exchange.Reply>, ghost done: seq<Exchange.Reply>,
                    ghost pos: nat, ghost files: Files, ghost k: nat)
        returns (stop: bool, ghost done': seq<Exchange.Reply>, ghost pos': nat, ghost files': Files, ghost k': nat)
      requires Valid() && replies == earlier + done
      requires input.pos == pos && store.State() == files && turns == k
      requires Continues(session, done, pos, files, k)
      modifies this, input, store
      ensures Valid() && replies == earlier + done'
      ensures input.pos == pos' && store.State() == files' && turns == k' && pos <= pos'
      ensures !stop ==> Continues(session, done', pos', files', k') && pos' > pos
      ensures stop ==> session.replies == done' && session.files == files'
    {
      ghost var t := Exchange.Step(env, input.bytes, pos, files, k);
      Exchange.RunAfter(env, input.bytes, pos, files, k, done, session);
      stop := Turn();
      done', pos', files', k' := done + Exchange.Sent(t), t.next, t.files, k + 1;
    }
  }

  /** `insert(length() - 2, c)` on `kept + text[..m] + CRLF` when `c` is the next char of `text`. */
  lemma {:induction false} InsertBeforeCRLF(kept: string, text: string, m: nat, c: char, before: string, after: string)
    requires m < |text| && text[m] == c && before == kept + text[..m] + CRLF
    requires after == before[..|before| - 2] + [c] + before[|before| - 2..]
    ensures after == (kept + text[..m + 1]) + CRLF
    ensures after[..|after| - 2] == kept + text[..m + 1]
  {
    assert before[..|before| - 2] == kept + text[..m];
    assert text[..m + 1] == text[..m] + [c];
  }

  /** One more byte of `src` copied into the array at `off + i`. */
  lemma {:induction false} CopyStep(before: seq<byte>, cur: seq<byte>, next: seq<byte>, src: seq<byte>, off: nat, i: nat)
    requires i < |src| && off + |src| <= |before|
    requires cur == before[..off] + src[..i] + before[off + i..]
    requires next == cur[off + i := src[i]]
    ensures next == before[..off] + src[..i + 1] + before[off + i + 1..]
  {
    var want := before[..off] + src[..i + 1] + before[off + i + 1..];
    assert |next| == |want|;
    forall k | 0 <= k < |next| ensures next[k] == want[k] {
      if k < off {
      } else if k < off + i + 1 {
        assert want[k] == src[..i + 1][k - off];
      } else {
        assert want[k] == before[off + i + 1..][k - off - i - 1];
      }
    }
  }

  /** One char of the trailer inserted before the final CRLF: the buffer grows by the next char
      of the text, and the loop's test is the search's test. */
  lemma {:induction false} TrailerInsert(bytes: seq<byte>, p0: nat, kept: string, text: string, m: nat, b: byte, before: string, after: string)
    requires p0 + m < |bytes| && text == HeadText(bytes[p0..])
    requires before == kept + text[..m] + CRLF
    requires after == before[..|before| - 2] + [SignedChar(b)] + before[|before| - 2..]
    requires b == bytes[p0 + m]
    ensures m < |text|
    ensures after == (kept + text[..m + 1]) + CRLF
    ensures after[..|after| - 2] == kept + text[..m + 1]
    ensures EndsWith(after, CRLF + CRLF + CRLF) <==> EndsAt(kept, text, BlankLine, m + 1)
  {
    assert text[m] == SignedChar(b) by {
      assert bytes[p0..][m] == bytes[p0 + m];
    }
    InsertBeforeCRLF(kept, text, m, SignedChar(b), before, after);
    InsertedTest(kept + text[..m + 1]);
  }

  /** A buffer `x + CRLF` ends with three CRLFs exactly when `x` ends with a blank line. */
  lemma {:induction false} InsertedTest(x: string)
    ensures EndsWith(x + CRLF, CRLF + CRLF + CRLF) <==> EndsWith(x, BlankLine)
  {
    var s := x + CRLF;
    if |x| >= 4 {
      assert s[|s| - 6..] == x[|x| - 4..] + CRLF;
      if EndsWith(s, CRLF + CRLF + CRLF) {
        assert x[|x| - 4..] == s[|s| - 6..][..4];
      }
    }
  }
}
