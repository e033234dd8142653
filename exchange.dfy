/** One turn of the connection loop, as a value: the request cut from the stream, its answer or
    the answer of the catch clause its exception reaches, the `Date` header, the Base64 branch
    for images, and whether the loop goes on; then the whole loop over a connection's input. */
module Exchange {
  import opened Wrappers
  import opened JavaText
  import opened JavaNumber
  import opened Bytes
  import opened Failures
  import opened HttpVersion
  import opened MessageText
  import opened RequestText
  import opened ResponseText
  import opened ResourceStore
  import opened Environment
  import opened Routing
  import Framing
  import Pages
  import Extensions

  const MalformedHeadersText: string :=
    "Your HTTP request headers were malformed and could not be parsed. Error produced on line: "
  const InvalidRequestText: string := "Your request was not a valid HTTP request and could not be parsed.\r\n"
  const UnsupportedVersionText: string := "The provided HTTP version is not supported by this server.\r\n"
  const ServerErrorText: string :=
    "An internal server error occurred while processing your request. Please try again.\r\n"

  /** What the loop writes back for one request: `toString()`, or for an image the status line,
      `headerString()`, CRLF and the decoded bytes. */
  datatype Reply =
    | Text(response: View)
    | Image(response: View, bytes: seq<byte>)

  /** The answer of the catch clauses; `None` for the end of the stream, which leaves the loop. */
  function ErrorResponse(e: Failure): (r: Option<View>)
    ensures r.None? <==> e.EndOfStream?
    ensures r.Some? ==> r.value.version == HTTP11 && r.value.kind.Resp?
  {
    match e
    case IllegalHeader(line) =>
      Some(RespondWith(HTTP11, 400, "Bad Request", MalformedHeadersText + line + CRLF, "text/plain"))
    case IllegalRequest => Some(RespondWith(HTTP11, 400, "Bad Request", InvalidRequestText, "text/plain"))
    case UnsupportedVersion => Some(RespondWith(HTTP11, 400, "Bad Request", UnsupportedVersionText, "text/plain"))
    case UnsupportedCommand => Some(Respond(HTTP11, 501, "Not Implemented"))
    case EndOfStream => None
    case _ => Some(RespondWith(HTTP11, 500, "Server Error", ServerErrorText, "text/plain"))
  }

  /** Malformed requests are the client's fault (400), an unknown method is 501, and every other
      exception but the end of the stream is the server's (500). */
  lemma {:induction false} ErrorCodes(e: Failure)
    requires !e.EndOfStream?
    ensures ErrorResponse(e).value.kind.code == 400 <==> e.IllegalHeader? || e.IllegalRequest? || e.UnsupportedVersion?
    ensures ErrorResponse(e).value.kind.code == 501 <==> e.UnsupportedCommand?
    ensures ErrorResponse(e).value.kind.code == 500 <==>
              e.IllegalResponse? || e.IndexOutOfBounds? || e.NumberFormat? || e.NegativeArraySize?
    ensures e.IllegalHeader? ==> ErrorResponse(e).value.content == MalformedHeadersText + e.line + CRLF
  {
  }

  /** What the inner `try` block ends with once a request text was read: the response of
      `getResponse` or the exception, the store afterwards, and the `shouldClose` flag, which
      only a served request sets. */
  datatype Answer = Answer(response: Result<View, Failure>, files: Files, close: bool)

  /** `new Request(text)`, `getResponse(request)` and the `shouldClose` test. */
  function Serve(env: Env, text: string, files: Files, now: nat): (r: Answer)
    ensures r.response.Failure? ==> !r.response.error.EndOfStream? && !r.close
    ensures r.response.Success? ==>
              && ParseRequest(text).Success?
              && (r.close <==> Get(ParseRequest(text).value.headers, "connection") == Some("close")
                               || ParseRequest(text).value.version == HTTP10)
  {
    match ParseRequest(text)
    case Failure(e) =>
      assert Parse(text).Failure? ==> e == Parse(text).error;
      Answer(Failure(e), files, false)
    case Success(req) => ServeRequest(env, req, files, now)
  }

  /** `getResponse(request)` and the `shouldClose` test on a parsed request. */
  function ServeRequest(env: Env, req: View, files: Files, now: nat): (r: Answer)
    requires req.kind.Req?
    ensures r.response.Failure? ==> !r.response.error.EndOfStream? && !r.close
    ensures r.response.Success? ==> (r.close <==> Get(req.headers, "connection") == Some("close") || req.version == HTTP10)
  {
    var routed := Route(env, req, files, now);
    match routed.result
    case Failure(e) => Answer(Failure(e), routed.files, false)
    case Success(response) =>
      Answer(Success(response), routed.files, Get(req.headers, "connection") == Some("close") || req.version == HTTP10)
  }

  /** The response after `addHeader("Date", ...)`. */
  function Dated(response: View, date: string): View {
    response.(headers := Put(response.headers, "Date", date))
  }

  /** The test that sends a response as an image: a content type that contains `image`. */
  predicate IsImage(response: View) {
    match Get(response.headers, "content-type")
    case None => false
    case Some(t) => Contains(t, "image")
  }

  /** One turn of the loop: the reply written (`None` when the loop ends without one), the store
      afterwards, where reading stopped, and whether the loop ends. */
  datatype Turn = Turn(reply: Option<Reply>, files: Files, next: nat, stop: bool)

  /** Writing a response out: the `Date` of the clock is added; an image response is
      Base64-decoded and gets the length of the decoded bytes; `None` when that text does not
      decode (the exception escapes the loop). */
  function Deliver(env: Env, response: View, now: nat): (r: Option<Reply>)
    ensures r.Some? ==> Get(r.value.response.headers, "Date") == Some(env.httpDate(now))
    ensures r.Some? && r.value.Image? ==>
              Get(r.value.response.headers, "content-length") == Some(IntToString(|r.value.bytes|))
    ensures r.None? <==> IsImage(Dated(response, env.httpDate(now))) && env.base64Decode(response.content).None?
    ensures r.Some? ==> (r.value.Image? <==> IsImage(Dated(response, env.httpDate(now))))
    ensures r.Some? && r.value.Text? ==> r.value.response == Dated(response, env.httpDate(now))
    ensures r.Some? && r.value.Image? ==>
              && env.base64Decode(response.content) == Some(r.value.bytes)
              && r.value.response == Dated(response, env.httpDate(now)).(headers :=
                   Put(Dated(response, env.httpDate(now)).headers, "content-length", IntToString(|r.value.bytes|)))
  {
    var dated := Dated(response, env.httpDate(now));
    if IsImage(dated) then
      match env.base64Decode(dated.content)
      case None => None
      case Some(bytes) =>
        DateKept(dated.headers, "content-length", IntToString(|bytes|));
        Some(Image(dated.(headers := Put(dated.headers, "content-length", IntToString(|bytes|))), bytes))
    else Some(Text(dated))
  }

  lemma {:induction false} DateKept(h: Headers, key: string, value: string)
    requires Lower(key) != "date"
    ensures Get(Put(h, key, value), "Date") == Get(h, "Date")
  {
    assert Lower("Date") == "date";
  }

  /** The body of `while (!shouldClose)` for the `k`-th request of the connection, read from
      `pos`. The end of the stream leaves the loop; every other exception is answered and the loop
      goes on, unless the response cannot be delivered. */
  function Step(env: Env, input: seq<byte>, pos: nat, files: Files, k: nat): (t: Turn)
    requires pos <= |input|
    ensures pos <= t.next <= |input|
    ensures !t.stop ==> t.next >= pos + 4 && t.reply.Some?
  {
    var now := env.clock(k);
    var read := Framing.RequestText(input, pos);
    Finish(env, Answered(env, read.result, files, now), read.next, now)
  }

  /** The answer to the text read: the exception of the read, or the request served. */
  function Answered(env: Env, read: Result<string, Failure>, files: Files, now: nat): (a: Answer)
    ensures read.Failure? ==> a == Answer(Failure(read.error), files, false)
  {
    match read
    case Failure(e) => Answer(Failure(e), files, false)
    case Success(text) => Serve(env, text, files, now)
  }

  /** The rest of the pass once the answer is known: the response of an exception; the loop is
      left at the end of the stream and when the response cannot be delivered. */
  function Finish(env: Env, answer: Answer, next: nat, now: nat): (t: Turn)
    ensures t.files == answer.files && t.next == next
    ensures t.reply.Some? ==> Get(t.reply.value.response.headers, "Date") == Some(env.httpDate(now))
    ensures !t.stop ==> t.reply.Some? && (answer.response.Success? || !answer.response.error.EndOfStream?)
  {
    var response := if answer.response.Success? then Some(answer.response.value) else ErrorResponse(answer.response.error);
    if response.None? then Turn(None, answer.files, next, true)
    else
      var reply := Deliver(env, response.value, now);
      Turn(reply, answer.files, next, reply.None? || answer.close)
  }

  /** What a whole connection writes back and the store it leaves. */
  datatype Session = Session(replies: seq<Reply>, files: Files)

  /** What a turn writes back: its reply, if it has one. */
  function Sent(t: Turn): seq<Reply> {
    if t.reply.Some? then [t.reply.value] else []
  }

  /** `run()`: turns until one stops the loop, the `k`-th turn with the clock's `k`-th time. */
  function Run(env: Env, input: seq<byte>, pos: nat, files: Files, k: nat): (s: Session)
    requires pos <= |input|
    decreases |input| - pos
  {
    var t := Step(env, input, pos, files, k);
    if t.stop then Session(Sent(t), t.files)
    else
      var rest := Run(env, input, t.next, t.files, k + 1);
      Session(Sent(t) + rest.replies, rest.files)
  }

  /** A session that has written `done` and goes on from `pos` ends after the next turn, or goes
      on from where that turn stopped reading, with the turn's reply written too. */
  lemma {:induction false} RunAfter(env: Env, input: seq<byte>, pos: nat, files: Files, k: nat,
                                    done: seq<Reply>, session: Session)
    requires pos <= |input|
    requires session.replies == done + Run(env, input, pos, files, k).replies
    requires session.files == Run(env, input, pos, files, k).files
    ensures var t := Step(env, input, pos, files, k);
            && (t.stop ==> session.replies == done + Sent(t) && session.files == t.files)
            && (!t.stop ==>
                  && session.replies == (done + Sent(t)) + Run(env, input, t.next, t.files, k + 1).replies
                  && session.files == Run(env, input, t.next, t.files, k + 1).files)
  {
    var t := Step(env, input, pos, files, k);
    if !t.stop {
      var rest := Run(env, input, t.next, t.files, k + 1);
      assert Run(env, input, pos, files, k).replies == Sent(t) + rest.replies;
      assert done + (Sent(t) + rest.replies) == (done + Sent(t)) + rest.replies;
    }
  }

  // ---------------------------------------------------------------- properties

  /** A request that is read, parsed and answered is delivered with its `Date`, as text or, for
      an image, decoded; a response that is not an image is written as text. The loop ends
      exactly when the request asked to close the connection, was HTTP/1.0, or its image did not
      decode. */
  lemma {:induction false} ServedKeepsAlive(env: Env, input: seq<byte>, pos: nat, files: Files, k: nat, text: string, req: View)
    requires pos <= |input|
    requires Framing.RequestText(input, pos).result == Success(text)
    requires ParseRequest(text) == Success(req)
    requires Route(env, req, files, env.clock(k)).result.Success?
    ensures var t := Step(env, input, pos, files, k);
            var response := Route(env, req, files, env.clock(k)).result.value;
            && t.reply == Deliver(env, response, env.clock(k))
            && (!IsImage(Dated(response, env.httpDate(env.clock(k)))) ==> t.reply == Some(Text(Dated(response, env.httpDate(env.clock(k))))))
            && t.files == Route(env, req, files, env.clock(k)).files
            && (t.stop <==> t.reply.None? || Get(req.headers, "connection") == Some("close") || req.version == HTTP10)
  {
  }

  /** HEAD of an image: `fetchPage` keeps the length of the Base64 text, but delivery decodes
      the empty body and so overwrites it with 0. */
  lemma {:induction false} HeadImageLengthZero(env: Env, v: Version, files: Files, path: string, now: nat)
    requires IsFile(files, path) && Extensions.ParseExtension(path) in Extensions.ImageExtensions
    requires env.base64Decode("") == Some([])
    ensures var r := Deliver(env, Pages.HeadersOnly(Pages.Page(env, v, files, path)), now);
            && r.Some? && r.value.Image? && r.value.bytes == []
            && Get(r.value.response.headers, "content-length") == Some("0")
  {
    var ext := Extensions.ParseExtension(path);
    var page := Pages.Page(env, v, files, path);
    Pages.HeadersOnlyPage(env, v, files, path);
    Pages.PageHeaders(env, v, files, path);
    Extensions.ImageTypeIff(ext);
    EmptyImageDelivered(env, page.(content := ""), Extensions.ContentType(ext), now);
  }

  /** An image response with no body is delivered with no bytes and length 0, when the empty
      text decodes to nothing. */
  lemma {:induction false} EmptyImageDelivered(env: Env, response: View, contentType: string, now: nat)
    requires response.content == "" && env.base64Decode("") == Some([])
    requires Get(response.headers, "Content-Type") == Some(contentType) && Contains(contentType, "image")
    ensures var r := Deliver(env, response, now);
            && r.Some? && r.value.Image? && r.value.bytes == []
            && Get(r.value.response.headers, "content-length") == Some("0")
  {
    var dated := Dated(response, env.httpDate(now));
    assert Lower("Date") == "date" && Lower("content-type") == "content-type" && Lower("Content-Type") == "content-type";
    GetIgnoresCase(response.headers, "Content-Type");
    GetPutOther(response.headers, "Date", "content-type", env.httpDate(now));
    assert Get(dated.headers, "content-type") == Some(contentType);
    assert IsImage(dated);
    assert IntToString(0) == NatToString(0, 10) == "0";
    assert Lower("content-length") == "content-length";
  }

  /** The end of the stream while a request is read ends the loop without a reply. */
  lemma {:induction false} EndOfStreamEnds(env: Env, input: seq<byte>, pos: nat, files: Files, k: nat)
    requires pos <= |input| && Framing.RequestText(input, pos).result == Failure(EndOfStream)
    ensures Step(env, input, pos, files, k) == Turn(None, files, Framing.RequestText(input, pos).next, true)
  {
  }

  /** A request that fails anywhere but at the end of the stream is answered with the error's
      response, dated, and the connection stays open. */
  lemma {:induction false} ErrorsKeepOpen(env: Env, input: seq<byte>, pos: nat, files: Files, k: nat, e: Failure)
    requires pos <= |input| && !e.EndOfStream?
    requires var read := Framing.RequestText(input, pos);
             || read.result == Failure(e)
             || (read.result.Success? && Serve(env, read.result.value, files, env.clock(k)).response == Failure(e))
    ensures var t := Step(env, input, pos, files, k);
            && t.reply == Some(Text(Dated(ErrorResponse(e).value, env.httpDate(env.clock(k)))))
            && !t.stop
  {
    var response := ErrorResponse(e).value;
    var dated := Dated(response, env.httpDate(env.clock(k)));
    ErrorNotImage(e, env.httpDate(env.clock(k)));
  }

  /** No error response is an image. */
  lemma {:induction false} ErrorNotImage(e: Failure, date: string)
    requires !e.EndOfStream?
    ensures !IsImage(Dated(ErrorResponse(e).value, date))
  {
    var response := ErrorResponse(e).value;
    var h := Put(response.headers, "Date", date);
    assert Lower("content-type") == "content-type";
    assert Lower("Date") == "date";
    if e.UnsupportedCommand? {
      assert response.headers == map[];
      assert "content-type" !in h;
    } else {
      assert h["content-type"] == "text/plain";
      PlainIsNotImage();
    }
  }

  lemma {:induction false} PlainIsNotImage()
    ensures !Contains("text/plain", "image")
  {
    assert Free("text/plain", 'g');
    FindMissing("text/plain", "image", 3);
  }

  /** Every reply carries the `Date` of the clock at its turn, and an image reply carries the
      Base64 decode of its body and declares the length of those bytes, not of the Base64 text. */
  lemma {:induction false} RepliesDated(env: Env, input: seq<byte>, pos: nat, files: Files, k: nat)
    requires pos <= |input|
    ensures var t := Step(env, input, pos, files, k);
            && (t.reply.Some? ==> Get(t.reply.value.response.headers, "Date") == Some(env.httpDate(env.clock(k))))
            && (t.reply.Some? && t.reply.value.Image? ==>
                  && env.base64Decode(t.reply.value.response.content) == Some(t.reply.value.bytes)
                  && Get(t.reply.value.response.headers, "content-length") == Some(IntToString(|t.reply.value.bytes|)))
  {
  }

  /** A Base64 text that does not decode ends the connection without a reply. */
  lemma {:induction false} UndecodableImageEnds(env: Env, input: seq<byte>, pos: nat, files: Files, k: nat, response: View)
    requires pos <= |input|
    requires var read := Framing.RequestText(input, pos);
             read.result.Success? && Serve(env, read.result.value, files, env.clock(k)).response == Success(response)
    requires IsImage(Dated(response, env.httpDate(env.clock(k))))
    requires env.base64Decode(response.content).None?
    ensures Step(env, input, pos, files, k).reply.None? && Step(env, input, pos, files, k).stop
  {
  }

  /** Every reply of a connection carries a `Date`. */
  lemma {:induction false} SessionDated(env: Env, input: seq<byte>, pos: nat, files: Files, k: nat)
    requires pos <= |input|
    ensures forall r :: r in Run(env, input, pos, files, k).replies ==> Has(r.response.headers, "Date")
    decreases |input| - pos
  {
    var t := Step(env, input, pos, files, k);
    RepliesDated(env, input, pos, files, k);
    if !t.stop {
      SessionDated(env, input, t.next, t.files, k + 1);
    }
  }

  /** A connection writes at most one reply per four bytes of input. */
  lemma {:induction false} SessionBound(env: Env, input: seq<byte>, pos: nat, files: Files, k: nat)
    requires pos <= |input|
    ensures |Run(env, input, pos, files, k).replies| <= (|input| - pos) / 4 + 1
    decreases |input| - pos
  {
    var t := Step(env, input, pos, files, k);
    if !t.stop {
      SessionBound(env, input, t.next, t.files, k + 1);
    }
  }
}
