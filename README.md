# HttpServer core in Dafny

A model of the request handling of PMangels/HttpServer, a small HTTP/1.0 and HTTP/1.1 file
server written in Java, together with proofs about that model. The model covers five parts:

- the message classes `HTTPMessage`, `Request` and `Response`, and their enums `HTTPVersion` and `RequestType`;
- the connection handler `Handler`;
- how the handler cuts a request out of the socket's byte stream: the head up to the first blank line, then the `Content-Length` or chunked body, then the trailer;
- how it answers the request: the Host check, the redirect of the empty path, GET and HEAD with the conditional headers, and POST and PUT writing the files below `public_html`;
- the catch clauses that turn exceptions into 400, 500 and 501 responses, the `Date` header, the Base64 branch for images, and the `shouldClose` loop over one connection.

The code takes the source's own form:

- An object whose fields are updated is a `class`:
  - `HttpMessage.Message` stands for a message object;
  - `ResourceStore.Store` stands for the files;
  - `Server.Stream` stands for the socket's input;
  - `Server.Handler` stands for the connection.
- Every loop of the source is a `while` loop in a method.
- Each of these methods is proved against a function on values, in the modules:
  - `Framing`, `Routing`, `Pages`, `Extensions`, `MessageText`, `RequestText`, `ResponseText` and `Exchange`.
- Properties are stated as lemmas about those functions.
- Java's exceptions are the values of `Failures.Failure`, carried by `Result`.

Modules, one per concern:

| module | file | models |
|---|---|---|
| `Wrappers`, `Failures` | wrappers.dfy | Option/Result, the exceptions |
| `JavaText`, `JavaNumber` | java_text.dfy, java_number.dfy | the `String` and `Integer` operations the core calls |
| `Bytes` | bytes.dfy | `(char) readByte()` and bytes as text |
| `HttpVersion`, `RequestType` | http_version.dfy | the two enums |
| `MessageText` | message_text.dfy | HTTPMessage's header map, parser and serialiser as values |
| `RequestText`, `ResponseText` | request.dfy, response.dfy | the two subclasses' parsers and first lines |
| `HttpMessage` | http_message.dfy | the message class with its mutating methods |
| `ResourceStore` | resource_store.dfy | the files below `public_html` |
| `Environment` | environment.dfy | date parsing, Base64, URI, clock as supplied functions |
| `Extensions`, `Pages`, `Routing` | extensions.dfy, pages.dfy, routing.dfy | `parseExtension`, `fetchPage`, `getResponse` |
| `Framing` | framing.dfy | the byte stream cut into one request |
| `Exchange` | exchange.dfy | one pass of the loop and a whole connection |
| `Server` | handler.dfy | the `Handler` class: the loops over the stream, the store writes, `run()` |

Behaviour the model follows from the code:

- **Header continuation lines.** In the raw-message constructor, a header line without `:` is only rejected as a malformed header when no header was stored yet. Otherwise the continuation branch falls through to `lineParts[1]` and raises an index error, which the handler answers with 500 (`MessageText.HeaderFoldError`).
- **Conditional headers.** When both are present, `If-Modified-Since` supplies the date, but the mode is If-Unmodified-Since's. So the answer is never 304 (`Pages.BothConditionals`).
- **Trailing dot.** `parseExtension` of `name.` is `name`, because `split` drops trailing empty pieces (`Extensions.TrailingDot`).
- **Body read at the end of the stream.** `readBody` at the end of the stream gets `-1` from `read`, which sends a later offset out of range. The model answers this as an index error, so 500.
- **HEAD of an image.** For HEAD, `fetchPage` empties the body but keeps the `content-length` of the Base64 text. The handler then sees an image type, decodes the empty body and overwrites `content-length` with the decoded length, 0 (`Exchange.HeadImageLengthZero`, under the assumption that Base64 decodes the empty text to no bytes).

## Model

| member | source | states |
|---|---|---|
| HttpVersion.FromTokenOfVersionString | src/http_datastructures/Request.java:83-92 | the version switch maps each version string back to its constant |
| HttpVersion.VersionStringInjective | src/http_datastructures/HTTPVersion.java:7 | the two version strings differ |
| HttpVersion.FromToken | src/http_datastructures/Response.java:39-48 | a recognised token is the version's string; an unrecognised one is no version's string |
| HttpVersion.VersionStringPlain | src/http_datastructures/HTTPVersion.java:7 | a version string holds no space, CR or LF |
| RequestType.ValueOf | src/http_datastructures/Request.java:75-79 | `valueOf` succeeds exactly on the four names, with the constant of that name |
| RequestType.ValueOfTypeString | src/http_datastructures/RequestType.java:7 | the token of each method is read back as that method |
| RequestType.TypeStringInjective | src/http_datastructures/RequestType.java:7 | the four type strings differ pairwise |
| RequestType.TypeStringPlain | src/http_datastructures/RequestType.java:7 | a method token holds no space, CR or LF |
| JavaText.FindFrom | src/http_server/Handler.java:70 | `indexOf` from `i` is the first occurrence at or after `i`; none means no occurrence |
| JavaText.Find | src/http_server/Handler.java:296 | `indexOf` is the first occurrence; `None` exactly when there is none |
| JavaText.FindIs | src/http_server/Handler.java:296 | an occurrence with none before it is the index found |
| JavaText.SplitOnce | src/http_datastructures/HTTPMessage.java:118 | `split(sep, 2)` gives one piece when `sep` is absent, else the text before and after the first `sep` |
| JavaText.SplitOnceOf | src/http_datastructures/HTTPMessage.java:129 | a text split once where its first piece avoids the separator gives the two pieces |
| JavaText.DropTrailingEmpty | src/http_server/Handler.java:59 | what `split` keeps ends in a non-empty piece |
| JavaText.DroppedAreEmpty | src/http_server/Handler.java:298 | `split` keeps a prefix of the pieces and drops only empty ones |
| JavaText.SplitWhole | src/http_server/Handler.java:291 | a text free of the separator splits into itself |
| JavaText.SplitAll | src/http_server/Handler.java:291 | `split` with limit -1 always gives at least one piece |
| JavaText.SplitLast | src/http_server/Handler.java:291-292 | with a one-char separator the last piece is the text after the last separator |
| JavaText.SplitJoin | src/http_server/Handler.java:59 | splitting a join of separator-free pieces with a non-empty last one gives the pieces |
| JavaText.SplitAllJoin | src/http_server/Handler.java:59 | with limit -1, splitting a join gives every piece back |
| JavaText.SplitThree | src/http_datastructures/Request.java:71 | three separator-free pieces joined by the separator split back into the three |
| JavaText.SplitLimit3 | src/http_datastructures/Response.java:34 | `split(" ", 3)` has one to three pieces |
| JavaText.SplitLimit3Of | src/http_datastructures/Response.java:34 | only the first two pieces must avoid the separator; the third is the rest verbatim |
| JavaText.Lower | src/http_datastructures/HTTPMessage.java:48 | `toLowerCase` keeps the length and lower-cases char by char |
| JavaText.LowerIdempotent | src/http_datastructures/HTTPMessage.java:58 | lower-casing twice is lower-casing once |
| JavaText.LowerAppend | src/http_server/Handler.java:60 | lower-casing distributes over concatenation |
| JavaText.TrimStart | src/http_datastructures/HTTPMessage.java:136 | the result is no longer and does not start with a char up to the space |
| JavaText.TrimEnd | src/http_datastructures/HTTPMessage.java:136 | the result is no longer and does not end with a char up to the space |
| JavaText.TrimStartSuffix | src/http_datastructures/HTTPMessage.java:136 | the leading trim keeps a suffix and removes only chars up to the space |
| JavaText.TrimEndPrefix | src/http_datastructures/HTTPMessage.java:136 | the trailing trim keeps a prefix and removes only chars up to the space |
| JavaText.TrimBothEnds | src/http_server/Handler.java:65 | `trim()` is the trailing trim of the leading trim |
| JavaText.TrimLeadingSpace | src/http_datastructures/HTTPMessage.java:136 | a leading blank makes no difference to `trim()` |
| JavaNumber.ParseInt | src/http_server/Handler.java:65 | `parseInt` rejects the empty text, and a number without `-` is not negative |
| JavaNumber.ParseIntToString | src/http_datastructures/Response.java:49-50 | every `int` written in decimal parses back to itself |
| JavaNumber.ParseNatToString | src/http_server/Handler.java:323 | every non-negative `int` written in any radix parses back in that radix |
| JavaNumber.ParseNegative | src/http_datastructures/Response.java:50 | `-` followed by a magnitude up to 2^31 parses to the negative number |
| JavaNumber.DigitsValueOfNatToString | src/http_server/Handler.java:323 | the digits `toString` writes have the value written |
| JavaNumber.IntToString | src/http_datastructures/Response.java:94 | `String.valueOf(int)` is non-empty and is made of `-` and digits |
| JavaNumber.NatToString | src/http_datastructures/HTTPMessage.java:160 | the digits of a number are non-empty digit chars |
| Bytes.SignedChar | src/http_server/Handler.java:54 | `(char) readByte()` keeps bytes below 128 and sends the others to U+FF80..U+FFFF |
| Bytes.HeadText | src/http_server/Handler.java:53-55 | one signed char per byte, in order |
| Bytes.Latin1 | src/http_server/Handler.java:86 | one char per byte with the byte's value |
| Bytes.Latin1Bytes | src/http_server/Handler.java:117 | `writeBytes` writes the low eight bits of each char |
| Bytes.Latin1OfLatin1Bytes | src/http_server/Handler.java:174 | text that fits in bytes survives being written and read back |
| Bytes.Latin1BytesOfLatin1 | src/http_server/Handler.java:255 | bytes read as text and written again are unchanged |
| Bytes.SignedCharAscii | src/http_server/Handler.java:54 | on ASCII bytes the signed cast is one char per byte |
| Bytes.HeadTextAppend | src/http_server/Handler.java:53-55 | the head text of joined byte runs is the joined head texts |
| Bytes.Latin1BytesAppend | src/http_server/Handler.java:174 | writing joined text writes the joined bytes |
| MessageText.GetPutSame | src/http_datastructures/HTTPMessage.java:47-59 | a stored value is found under every spelling of its key |
| MessageText.GetPutOther | src/http_datastructures/HTTPMessage.java:47-63 | storing under one key leaves every other key's value and presence |
| MessageText.GetIgnoresCase | src/http_datastructures/HTTPMessage.java:57-63 | lookups with the lower-cased key answer the same |
| MessageText.Put | src/http_datastructures/HTTPMessage.java:47-55 | no contract of its own: `MessageText.GetPutSame` and `MessageText.GetPutOther` state that `addHeader` stores under the lower-cased key and changes no other key |
| MessageText.Get | src/http_datastructures/HTTPMessage.java:57-59 | no contract of its own: `MessageText.GetIgnoresCase` and `MessageText.GetPutSame` state that `getHeader` ignores the key's case |
| MessageText.Has | src/http_datastructures/HTTPMessage.java:61-63 | no contract of its own: `HttpMessage.Message.GetHeader` states that `getHeader` finds a value exactly when `hasHeader` holds |
| MessageText.WithContentHeaders | src/http_datastructures/HTTPMessage.java:158-162 | `setContent` sets the length and type headers and no other |
| MessageText.WithContent | src/http_datastructures/HTTPMessage.java:158-162 | no contract of its own: `MessageText.WithContentHeaders` and `MessageText.ContentLengthReadsBack` state it |
| MessageText.ContentLengthReadsBack | src/http_server/Handler.java:60-68 | the `content-length` that `setContent` writes parses back, trimmed, as the body's length |
| MessageText.HeaderBlockSnoc | src/http_datastructures/HTTPMessage.java:72-77 | one more map entry adds one `key: value` line |
| MessageText.HeaderFold | src/http_datastructures/HTTPMessage.java:126-139 | the header loop only adds keys, and fails only with IllegalHeader or the index error |
| MessageText.HeaderFoldAt | src/http_datastructures/HTTPMessage.java:128-138 | one pass of the loop: a line without `:` fails, naming the line only while nothing is stored; otherwise the trimmed value is stored under the lower-cased key |
| MessageText.HeaderFoldColon | src/http_datastructures/HTTPMessage.java:129-137 | a line with `:` stores its trimmed value under its lower-cased key and the loop goes on |
| MessageText.HeaderFoldError | src/http_datastructures/HTTPMessage.java:130-136 | the first line without `:` decides the error: IllegalHeader on the first line of an empty map, an index error otherwise |
| MessageText.HeaderFoldKeys | src/http_datastructures/HTTPMessage.java:128-138 | with `:` on every line, parsing succeeds and stores exactly the lines' lower-cased keys |
| MessageText.HeaderFoldLastWins | src/http_datastructures/HTTPMessage.java:136-137 | a key's value is the trimmed value of the last line with that key |
| MessageText.HeaderFoldUntouched | src/http_datastructures/HTTPMessage.java:137 | a key no line names keeps its value |
| MessageText.Parse | src/http_datastructures/HTTPMessage.java:117-140 | a parse fails only on headers; the first line is a prefix and the body a suffix of the raw text |
| MessageText.ParseAtFirstBlankLine | src/http_datastructures/HTTPMessage.java:118-124 | the body is everything after the first blank line, and the first line is the head before its first CRLF |
| MessageText.ParseWithoutBlankLine | src/http_datastructures/HTTPMessage.java:118-124 | without a blank line the body is empty and the first line ends at the first CRLF |
| MessageText.FirstLineSplit | src/http_datastructures/HTTPMessage.java:123-124 | the first piece of the head is the text before its first CRLF and holds none |
| MessageText.HeaderTexts | src/http_datastructures/HTTPMessage.java:72-77 | the i-th header line is the i-th key, `: ` and its value |
| MessageText.HeaderBlock | src/http_datastructures/HTTPMessage.java:70-79 | no contract of its own: `MessageText.HeaderBlockSnoc` and `MessageText.HeaderTexts` state the header lines |
| MessageText.SerializeAsJoin | src/http_datastructures/HTTPMessage.java:146-149 | `toString()` is the first line and header lines joined by CRLF, a blank line, the body |
| MessageText.Serialize | src/http_datastructures/HTTPMessage.java:147-149 | no contract of its own: `MessageText.SerializeAsJoin` gives its layout and `MessageText.ParseSerialize` its round trip |
| MessageText.HeaderFoldTexts | src/http_datastructures/HTTPMessage.java:128-138 | parsing the header lines of well-formed headers gives the map back, in any order |
| MessageText.HeaderTextSplits | src/http_datastructures/HTTPMessage.java:129-137 | a written header line splits at its `:` into its key and ` value`, which trims to the value |
| MessageText.BlockAsJoin | src/http_datastructures/HTTPMessage.java:148 | the first line, CRLF and the header block are a join by CRLF followed by CRLF |
| MessageText.FirstBlankLineAfterJoin | src/http_datastructures/HTTPMessage.java:118 | in a written message the first blank line is the one after the headers |
| MessageText.JoinedHead | src/http_datastructures/HTTPMessage.java:118 | a written message splits at that blank line into head and body |
| MessageText.HeadSplit | src/http_datastructures/HTTPMessage.java:123 | a CR-free first line splits off at the first CRLF |
| MessageText.ParseFirstLineOnly | src/http_datastructures/HTTPMessage.java:117-126 | a first line alone, then a blank line, gives no headers and the body after it |
| MessageText.ParseJoined | src/http_datastructures/HTTPMessage.java:117-140 | a first line and header lines, then a blank line, give that first line, the header loop's map and the body |
| MessageText.ParseSerialize | src/http_datastructures/HTTPMessage.java:117-149 | round trip: parsing `toString()`'s text gives back the first line, the headers and the body, in any iteration order |
| MessageText.HeaderTextsPlain | src/http_datastructures/HTTPMessage.java:72-77 | well-formed header lines are non-empty and hold no CR |
| RequestText.NormalizePath | src/http_datastructures/Request.java:35-38 | the path starts with `/`; a missing `/` is put in front, and a path that has one is kept |
| RequestText.ParseRequest | src/http_datastructures/Request.java:69-94 | a parsed request keeps the raw parser's first line, headers and body; its tokens are the method, the path and the version |
| RequestText.RequestErrorOrder | src/http_datastructures/Request.java:71-92 | exactly which error each rejected first line raises: token count, then method, then version |
| RequestText.RequestLineTokens | src/http_datastructures/Request.java:102 | a written request line splits back into the method, the path and the version |
| RequestText.RequestLine | src/http_datastructures/Request.java:101-104 | no contract of its own: `RequestText.RequestLineTokens`, `RequestText.RequestLinePlain` and `RequestText.ParseSerializedRequest` state it |
| RequestText.RequestLinePlain | src/http_datastructures/Request.java:102 | a request line of a path without line breaks has none |
| RequestText.TokensPlain | src/http_datastructures/Request.java:102 | method tokens and version strings hold no space or line break |
| RequestText.ParseSerializedRequest | src/http_datastructures/Request.java:69-104 | round trip: a request's `toString()` parses back to the same method, path, version, headers and body |
| RequestText.PathWithSpace | src/http_datastructures/Request.java:71-83 | a path with a space gets a fourth token, so its second half is read as the version |
| ResponseText.ParseResponse | src/http_datastructures/Response.java:31-55 | a parsed response keeps the raw parser's parts; its three parts are the version, a code that parses, and the status |
| ResponseText.ResponseErrorOrder | src/http_datastructures/Response.java:34-53 | exactly which error each rejected status line raises: missing part or bad code is IllegalResponse, an unknown version UnsupportedVersion checked first |
| ResponseText.StatusLineParts | src/http_datastructures/Response.java:94 | a written status line splits back into version, code and status, spaces in the status included |
| ResponseText.StatusLine | src/http_datastructures/Response.java:93-96 | no contract of its own: `ResponseText.StatusLineParts`, `ResponseText.StatusLinePlain` and `ResponseText.ParseSerializedResponse` state it |
| ResponseText.Respond | src/http_datastructures/Response.java:81-86 | no contract of its own: the constructor `HttpMessage.Message.Response` builds exactly this value |
| ResponseText.RespondWith | src/http_datastructures/Response.java:67-72 | no contract of its own: `HttpMessage.Message.ResponseWithContent` builds exactly this value, and `MessageText.WithContentHeaders` gives its headers |
| ResponseText.StatusLinePlain | src/http_datastructures/Response.java:94 | a status line of a status without line breaks has none |
| ResponseText.IntToStringPlain | src/http_datastructures/Response.java:94 | a decimal code holds no space or line break |
| ResponseText.ParseSerializedResponse | src/http_datastructures/Response.java:31-96 | round trip: a response's `toString()` parses back to the same version, code, status, headers and body |
| HttpMessage.Message.Plain | src/http_datastructures/HTTPMessage.java:107-109 | a new message has the version, no headers, an empty body |
| HttpMessage.Message.PlainWithContent | src/http_datastructures/HTTPMessage.java:97-100 | a new message with a body has its two derived headers |
| HttpMessage.Message.Request | src/http_datastructures/Request.java:31-39 | a request built from fields has the normalised path |
| HttpMessage.Message.RequestWithContent | src/http_datastructures/Request.java:51-59 | the same with a body and its two headers |
| HttpMessage.Message.Response | src/http_datastructures/Response.java:81-86 | a response with a code and status, no headers, no body |
| HttpMessage.Message.ResponseWithContent | src/http_datastructures/Response.java:67-72 | the same with a body and its two headers |
| HttpMessage.Message.Parsed | src/http_datastructures/Request.java:69-94 | the object built from a parsed text has exactly the parsed fields |
| HttpMessage.Message.AddHeader | src/http_datastructures/HTTPMessage.java:47-49 | the value is found under the key, every other key is unchanged, nothing else changes |
| HttpMessage.Message.GetHeader | src/http_datastructures/HTTPMessage.java:57-59 | a value is found exactly when `hasHeader` holds |
| HttpMessage.Message.HasHeader | src/http_datastructures/HTTPMessage.java:61-63 | no contract of its own: `HttpMessage.Message.GetHeader` states that a value is found exactly when it holds |
| HttpMessage.Message.SetContent | src/http_datastructures/HTTPMessage.java:158-162 | the body is set, `content-length` is its length and `content-type` the type |
| HttpMessage.Message.SetTermination | src/http_datastructures/HTTPMessage.java:22-24 | only the termination string changes |
| HttpMessage.Message.HeaderString | src/http_datastructures/HTTPMessage.java:70-79 | one line per header, in some order that lists every key exactly once |
| HttpMessage.Message.ToString | src/http_datastructures/HTTPMessage.java:146-149 | a request or response rewrites its first line from its fields; the text is that line, the headers, a blank line, the body and the termination |
| HttpMessage.ParseMessage | src/http_datastructures/HTTPMessage.java:117-140 | the constructor's steps compute `MessageText.Parse` |
| HttpMessage.ReadHeaders | src/http_datastructures/HTTPMessage.java:126-139 | the header loop computes `MessageText.HeaderFold` from an empty map |
| HttpMessage.ReadRequest | src/http_datastructures/Request.java:69-94 | `new Request(text)` succeeds exactly when `ParseRequest` does, with a fresh object of that state, and otherwise fails with its error |
| HttpMessage.ReadResponse | src/http_datastructures/Response.java:31-55 | the same for `new Response(text)` and `ParseResponse` |
| ResourceStore.Written | src/http_server/Handler.java:170-185 | after a write the path is a file with those bytes and that time; every other file and the directories stay |
| ResourceStore.Store.constructor | src/http_server/Handler.java:159-160 | the store holds the files it is given |
| ResourceStore.Store.Write | src/http_server/Handler.java:170-185 | appending keeps the old bytes in front, overwriting replaces them |
| Environment.ParseDate | src/http_server/Handler.java:220-241 | RFC 1123 when it parses, else RFC 850 when it parses, else asctime; none exactly when all three fail |
| Extensions.ContentType | src/http_server/Handler.java:249-268 | image extensions get `image/<ext>`, txt, js, html, css their text types, each with the charset; all others "undefined" |
| Extensions.ExtensionOfName | src/http_server/Handler.java:288-306 | the extension of `dir/base.ext` is `ext` lower-cased |
| Extensions.LastComponent | src/http_server/Handler.java:291-295 | the file name is the last path component |
| Extensions.ExtensionAfterDot | src/http_server/Handler.java:296-299 | a name ending in `.ext` has extension `ext` lower-cased |
| Extensions.NoDotNoExtension | src/http_server/Handler.java:303-305 | a last component without a dot has no extension |
| Extensions.TrailingDot | src/http_server/Handler.java:298-299 | a name ending in a dot has the text before the dot as its extension |
| Extensions.ImageTypeIff | src/http_server/Handler.java:108 | a content type contains `image` exactly when its extension is an image extension |
| Extensions.ParseExtension | src/http_server/Handler.java:288-306 | the extension holds no upper-case letter, and is empty unless the file name holds a dot; `Extensions.ExtensionOfName`, `Extensions.ExtensionAfterDot`, `Extensions.NoDotNoExtension` and `Extensions.TrailingDot` give it exactly |
| Pages.Page | src/http_server/Handler.java:248-271 | a 200 page: Base64 text for images, the bytes as text otherwise, the extension's type and the body's length |
| Pages.PageHeaders | src/http_server/Handler.java:271 | a page carries its body length and its extension's type |
| Pages.HeadersOnly | src/http_server/Handler.java:272-276 | HEAD keeps the status and version and empties the body |
| Pages.HeadersOnlyPage | src/http_server/Handler.java:272-276 | HEAD changes nothing of a page but its body |
| Pages.ResetContent | src/http_server/Handler.java:273-275 | clearing the body and putting the length back restores the headers |
| Pages.FetchPage | src/http_server/Handler.java:206-281 | `fetchPage` answers with a response of the request's version, or fails with IllegalHeader |
| Pages.HeadIsGetWithoutBody | src/http_server/Handler.java:206-281 | HEAD answers exactly what GET answers, with no body on a 200 |
| Pages.ConditionalOn | src/http_server/Handler.java:219-247 | the conditional part fails only with IllegalHeader and keeps the version |
| Pages.ConditionalOnServed | src/http_server/Handler.java:219-247 | the conditional part either returns the page given or an answer without body independent of it |
| Pages.MissingIsNotFound | src/http_server/Handler.java:278-280 | a missing file or a directory is 404 with the fixed text |
| Pages.UnconditionalServes | src/http_server/Handler.java:207-271 | without conditional headers an existing file is served |
| Pages.ModifiedSince | src/http_server/Handler.java:216-243 | If-Modified-Since alone: 304 exactly when the file is older in whole seconds, the page otherwise |
| Pages.UnmodifiedSince | src/http_server/Handler.java:212-245 | If-Unmodified-Since alone: 412 exactly when the file is newer, the page otherwise |
| Pages.BothConditionals | src/http_server/Handler.java:210-245 | with both headers the modified-since date is judged in unmodified-since mode; a bad date names if-unmodified-since |
| Pages.BadModifiedDate | src/http_server/Handler.java:232-237 | a date in none of the syntaxes is IllegalHeader naming the header and its value |
| Routing.RequestPath | src/http_server/Handler.java:142-151 | one leading `/` goes; a path without `http://` is otherwise kept |
| Routing.StoreKey | src/http_server/Handler.java:159-160 | the file's name has no leading `/`, is no longer than the path, and is the path when it had none |
| Routing.StoreKeySuffix | src/http_server/Handler.java:159-160 | only leading `/` are removed |
| Routing.Redirect | src/http_server/Handler.java:153-157 | 303 See Other with `Location: /index.html` and no body |
| Routing.PostBytesCases | src/http_server/Handler.java:169-175 | POST writes CRLF and the body after an existing file, the body into a new one |
| Routing.PostBytes | src/http_server/Handler.java:169-175 | POST keeps an existing file's bytes as a prefix and adds CRLF and the body's length; a new file has exactly the body's length |
| Routing.Route | src/http_server/Handler.java:137-191 | `getResponse` answers with a response or fails with IllegalRequest or IllegalHeader; GET and HEAD leave the files; a consistent store stays consistent |
| Routing.PlainNamePath | src/http_server/Handler.java:142-160 | a plain name, with or without `/`, names the file of that name |
| Routing.HostRequired | src/http_server/Handler.java:139-140 | every HTTP/1.1 request without Host is 400 and the files stay |
| Routing.EmptyPathRedirect | src/http_server/Handler.java:153-157 | `/` on 1.1 is redirected whatever the method |
| Routing.AbsoluteForm | src/http_server/Handler.java:145-151 | an `http://` path is reduced to its URI's path; a bad URI is IllegalRequest |
| Routing.ServesPage | src/http_server/Handler.java:159-187 | GET and HEAD of a plain name answer `fetchPage` of that file, HEAD without the body, and leave the files |
| Routing.PutStores | src/http_server/Handler.java:177-185 | PUT replaces the file with the body at the current time and answers 200 |
| Routing.PostAppends | src/http_server/Handler.java:165-176 | POST creates a new file with the body or appends CRLF and the body, and answers 200 |
| Routing.DirWriteRejected | src/http_server/Handler.java:166-168 | POST or PUT on a directory is 400 and the files stay |
| Routing.OtherFilesUnchanged | src/http_server/Handler.java:159-185 | a request changes no other file |
| Routing.PutThenGet | src/http_server/Handler.java:163-185 | what PUT stores a later GET serves back, for text that fits in bytes and non-image extensions |
| Framing.EndSearch | src/http_server/Handler.java:53-55 | the count found is one at which the buffer ends with the terminator |
| Framing.EndSearchFirst | src/http_server/Handler.java:53-55 | the count found is the first such one, and none is found only when the buffer never ends so |
| Framing.EndSearchIs | src/http_server/Handler.java:53-55 | a first count at which the buffer ends with the terminator is the one found |
| Framing.EndSearchAfter | src/http_server/Handler.java:53-55 | a text whose first terminator is `pat` is cut right after it |
| Framing.LengthValue | src/http_server/Handler.java:61-68 | a length is read only from a line of exactly two pieces around `:` whose trimmed second piece parses |
| Framing.ScanLine | src/http_server/Handler.java:60-72 | a length line without a number fails naming the line; otherwise the length and the chunked flag are updated from the line |
| Framing.ScanLines | src/http_server/Handler.java:59-73 | the loop over the head's lines fails only with IllegalHeader |
| Framing.ScanLinesChunked | src/http_server/Handler.java:70-72 | the body is chunked exactly when some line says so |
| Framing.ScanLinesParsed | src/http_server/Handler.java:60-68 | after a complete scan every length line held a number |
| Framing.ScanLinesNoLength | src/http_server/Handler.java:57 | without a length line the length stays at its initial value |
| Framing.ScanLinesLastLength | src/http_server/Handler.java:65 | the length is the number on the last length line |
| Framing.ScanLinesError | src/http_server/Handler.java:62-68 | a failed scan names the first length line without a number |
| Framing.FramingOf | src/http_server/Handler.java:57-73 | the framing of a head fails only with a malformed-header error; `Framing.ScanLines` and the lemmas after it give the length and the chunked flag |
| Framing.ReadBody | src/http_server/Handler.java:340-347 | the next `length` bytes when there are enough; a negative length fails on the array, a short stream on the index after draining it |
| Framing.ChunkLine | src/http_server/Handler.java:318-323 | reading a size line moves forward within the input |
| Framing.ChunkLineStep | src/http_server/Handler.java:319-321 | an incomplete size line takes the next signed char |
| Framing.ChunkLineDone | src/http_server/Handler.java:322-323 | a complete size line is parsed where it ends |
| Framing.ChunkLineEnd | src/http_server/Handler.java:320 | a size line the stream ends in is the end of the stream |
| Framing.ChunkSizeOf | src/http_server/Handler.java:322-323 | a size line is read as its field in base 16 |
| Framing.ChunkSize | src/http_server/Handler.java:321-323 | a size line fails only with an index error or a number-format error |
| Framing.LineOf | src/http_server/Handler.java:318-321 | a size field followed by CRLF is read as one size line |
| Framing.Chunked | src/http_server/Handler.java:314-331 | `readBodyChunked` moves forward and extends what was read before |
| Framing.ChunkedAfter | src/http_server/Handler.java:324-329 | the rest after a size line moves forward and extends what was read |
| Framing.ChunkedStep | src/http_server/Handler.java:324-328 | a chunk of positive size is read and two bytes after it are skipped |
| Framing.ChunkedLast | src/http_server/Handler.java:317 | a chunk of size 0 ends the body |
| Framing.LastChunkOf | src/http_server/Handler.java:317-330 | the last chunk `0` CRLF ends a chunked body |
| Framing.OneChunk | src/http_server/Handler.java:317-329 | a chunk as a client sends it is read whole and reading goes on right after it |
| Framing.ChunkHeader | src/http_server/Handler.java:318-324 | the size line of a sent chunk is read as its length, and its data follows |
| Framing.HexSizeField | src/http_server/Handler.java:323 | a size written by `Integer.toString(n, 16)` is well sized |
| Framing.ChunkedOf | src/http_server/Handler.java:314-331 | round trip: a chunked body is read back as the concatenated chunks, stopping right after the last chunk |
| Framing.Trailer | src/http_server/Handler.java:78-81 | the trailer loop ends with the head ending in a blank line, after reading at least one byte |
| Framing.TrailerShape | src/http_server/Handler.java:78-81 | the new head is the old one without its final CRLF, followed by the chars read |
| Framing.TrailerFound | src/http_server/Handler.java:78-81 | when the blank line is found, the head holds the chars up to it |
| Framing.TrailerMissing | src/http_server/Handler.java:79 | when it is not found, the stream has ended |
| Framing.BlankAfterCRLF | src/http_server/Handler.java:78-81 | right after a head, a CRLF in the stream is the first blank line |
| Framing.BlankAfterField | src/http_server/Handler.java:78-81 | after a trailer field line, the first blank line is the one that ends it |
| Framing.NoTrailer | src/http_server/Handler.java:78-81 | a chunked body ended by a bare CRLF leaves the head as it was |
| Framing.OneTrailer | src/http_server/Handler.java:78-81 | one trailer field is inserted before the head's final CRLF |
| Framing.Head | src/http_server/Handler.java:51-55 | the head is the shortest prefix of the stream, read as text, that ends with a blank line, and reading stops right after it; it fails with the end of the stream exactly when no prefix ends with a blank line |
| Framing.HeadFirst | src/http_server/Handler.java:51-55 | the first blank line found ends a prefix that no shorter prefix matches |
| Framing.RequestText | src/http_server/Handler.java:51-86 | reading a request moves forward; a request read, or failing other than at the end, took at least four bytes |
| Framing.AfterHead | src/http_server/Handler.java:57-84 | the framing and the body after a head move forward within the input; a malformed length line fails with IllegalHeader before any body byte is read |
| Framing.ChunkedRest | src/http_server/Handler.java:76-81 | a chunked body and its trailer move forward within the input |
| Framing.FixedRest | src/http_server/Handler.java:82-84 | a fixed-length body moves forward within the input |
| Framing.HeadTextOfAscii | src/http_server/Handler.java:54 | ASCII sent as bytes is read back as the same head text |
| Framing.HeadTextAfter | src/http_server/Handler.java:53-55 | the head text after a known ASCII prefix starts with that prefix |
| Exchange.ErrorResponse | src/http_server/Handler.java:92-105 | every exception but the end of the stream has a 1.1 response; the end of the stream has none |
| Exchange.ErrorCodes | src/http_server/Handler.java:92-105 | malformed requests are 400, an unknown method 501, every other exception 500; the header error quotes the line |
| Exchange.ErrorNotImage | src/http_server/Handler.java:92-108 | no error response is sent as an image |
| Exchange.PlainIsNotImage | src/http_server/Handler.java:93-104 | the `text/plain` type of the error bodies does not contain `image` |
| Exchange.Serve | src/http_server/Handler.java:87-91 | a failed request never closes the connection and is never the end of the stream; a served one closes it exactly on `Connection: close` or HTTP/1.0 |
| Exchange.ServeRequest | src/http_server/Handler.java:88-91 | a request that `getResponse` rejects never closes the connection and is never the end of the stream; an answered one closes it exactly on `Connection: close` or HTTP/1.0 |
| Exchange.Deliver | src/http_server/Handler.java:106-118 | the reply is an image exactly when the dated response has an image type; a text reply writes the dated response unchanged; an image reply carries the Base64 decode of the body and writes the dated response with `content-length` set to those bytes' length and nothing else changed; every reply carries the clock's `Date`; nothing is delivered exactly for an image whose text does not decode |
| Exchange.DateKept | src/http_server/Handler.java:107-110 | setting `content-length` keeps the `Date` |
| Exchange.Step | src/http_server/Handler.java:48-118 | a pass reads forward; one that does not stop wrote a reply and read at least four bytes |
| Exchange.Answered | src/http_server/Handler.java:50-105 | a read that failed is answered with its own exception, the store untouched |
| Exchange.Finish | src/http_server/Handler.java:106-118 | the store and the read position pass through; a reply has the `Date`; the loop goes on only with a reply for a response or a non-end exception |
| Exchange.RunAfter | src/http_server/Handler.java:48-119 | a connection is its next pass followed, unless that pass stops, by the rest of the connection |
| Exchange.ServedKeepsAlive | src/http_server/Handler.java:86-91 | a served response, image or not, is delivered dated and a non-image one as text; the loop ends exactly when nothing can be written, on `Connection: close` or on HTTP/1.0 |
| Exchange.EmptyImageDelivered | src/http_server/Handler.java:106-114 | an image response with an empty body is written with `content-length: 0` and no bytes, when Base64 decodes the empty text to no bytes |
| Exchange.HeadImageLengthZero | src/http_server/Handler.java:270-276 | a HEAD of an image keeps the length of the Base64 text in `fetchPage`, but is written with `content-length: 0` |
| Exchange.EndOfStreamEnds | src/http_server/Handler.java:100-101 | the end of the stream leaves the loop without a reply |
| Exchange.ErrorsKeepOpen | src/http_server/Handler.java:92-105 | any other exception is answered with its dated response and the loop goes on |
| Exchange.RepliesDated | src/http_server/Handler.java:106-114 | every reply carries the `Date` of its turn; an image reply carries the Base64 decode of its body and declares the length of those bytes |
| Exchange.UndecodableImageEnds | src/http_server/Handler.java:108-109 | an image whose text does not decode ends the connection without a reply |
| Exchange.SessionDated | src/http_server/Handler.java:48-119 | every reply of a connection carries a `Date` |
| Exchange.SessionBound | src/http_server/Handler.java:48-119 | a connection writes at most one reply per four bytes of input, plus one |
| Exchange.Run | src/http_server/Handler.java:43-127 | no contract of its own: `Exchange.RunAfter`, `Exchange.SessionDated` and `Exchange.SessionBound` state what a connection does |
| Server.Stream.constructor | src/http_server/Handler.java:45 | the stream starts at the first byte |
| Server.Stream.ReadByte | src/http_server/Handler.java:54 | the next byte and one step on, or nothing at the end |
| Server.Stream.ReadInto | src/http_server/Handler.java:344 | up to `len` bytes copied into the array at `off`, fewer only at the end, -1 at the end |
| Server.CopyInto | src/http_server/Handler.java:344 | the source bytes land at `off` and the rest of the array is unchanged |
| Server.Handler.constructor | src/http_server/Handler.java:35-37 | a handler starts with nothing written and no turns |
| Server.Handler.ReadHead | src/http_server/Handler.java:51-55 | the head loop computes `Framing.Head` and stops where it does |
| Server.Handler.ScanFraming | src/http_server/Handler.java:57-73 | the line loop computes `Framing.FramingOf` |
| Server.Handler.ReadBody | src/http_server/Handler.java:340-347 | the loop over `read` computes `Framing.ReadBody` and stops where it does |
| Server.Handler.ReadChunkSize | src/http_server/Handler.java:318-323 | the size line loop computes `Framing.ChunkLine` |
| Server.Handler.ReadBodyChunked | src/http_server/Handler.java:314-331 | the chunk loop computes `Framing.Chunked` and stops where it does |
| Server.Handler.ReadTrailer | src/http_server/Handler.java:78-81 | the insert loop computes `Framing.Trailer` and stops where it does |
| Server.TrailerInsert | src/http_server/Handler.java:79-80 | one insertion adds the next char before the final CRLF, and the loop's test is the search's test |
| Server.InsertBeforeCRLF | src/http_server/Handler.java:79 | `insert(length()-2, c)` puts `c` before the final CRLF |
| Server.InsertedTest | src/http_server/Handler.java:80 | ending with three CRLFs is the text before the last CRLF ending with a blank line |
| Server.Handler.ReadRequestText | src/http_server/Handler.java:51-86 | the reading part of the loop body computes `Framing.RequestText` |
| Server.Handler.ReadAfterHead | src/http_server/Handler.java:57-84 | the framing and body reading compute `Framing.AfterHead` |
| Server.Handler.ReadChunkedRest | src/http_server/Handler.java:76-81 | computes `Framing.ChunkedRest` |
| Server.Handler.ReadFixedRest | src/http_server/Handler.java:82-84 | computes `Framing.FixedRest` |
| Server.Handler.GetResponse | src/http_server/Handler.java:137-191 | the answer is `Routing.Route`'s and the store is left as `Route` says |
| Server.Handler.Serve | src/http_server/Handler.java:87-91 | parsing and answering the text compute `Exchange.Serve`: response, close flag and store |
| Server.Handler.Answer | src/http_server/Handler.java:50-105 | the `try` block computes `Exchange.Answered` on what is read, and stops reading where `RequestText` does |
| Server.Handler.Deliver | src/http_server/Handler.java:106-118 | the reply is `Exchange.Deliver`'s |
| Server.Handler.Turn | src/http_server/Handler.java:48-118 | one pass moves the stream, the store, the replies and the stop flag exactly as `Exchange.Step` says |
| Server.Handler.NextTurn | src/http_server/Handler.java:48-119 | a pass inside a connection either ends it or leaves the rest still ahead, having read at least one byte |
| Server.Handler.Run | src/http_server/Handler.java:43-127 | `run()` writes exactly the replies of `Exchange.Run` and leaves the store it says |

## Left out

- Text encoding. Bodies, files and written text are one char per byte (Latin-1). The source decodes the body as UTF-8 (line 86 of src/http_server/Handler.java) and measures `content-length` as the platform encoding's byte count. For ASCII the two agree.
- `toLowerCase` is modelled on ASCII letters only. There is no Unicode case mapping or locale.
- HashMap iteration order is unspecified in Java. `HeaderString` and `ToString` choose some order and return it as a ghost value. The lemmas hold for every order.
- Path normalisation by `File` and the operating system is reduced to removing leading `/` (`Routing.StoreKey`). `..`, symbolic links and file-system errors are not modelled.
- `createNewFile` throwing an IOException is not modelled. A write to a path below a missing directory is treated as a success.
- The charset of the file writer is modelled by `Bytes.Latin1Bytes`.
- Sockets, timeouts, `SocketException` and threads are not modelled: the input is a byte sequence and the end of the stream stands for all three. There is one exception: inside `readBody` the end of the stream is the index error and is answered with 500 (`Framing.ReadBody`), while a timeout at that point would leave the loop with no reply.
- The `printStackTrace` of the outer catch and the console output are left out.
- `socket.close()` after the loop is left out, as is the fact that an undecodable image skips it.
- Dates, Base64, the URI parser and the clock are parameters (`Environment.Env`). Their correctness is not modelled.
- What the handler writes is a sequence of `Exchange.Reply` values, not bytes on a socket. The byte layout of a reply is `HttpMessage.Message.ToString`.
- `read` of a stream can return fewer bytes than asked for before the end. The model returns all that are available (`Server.Stream.ReadInto`), which `readBody` handles the same way.
- The `default:` branch of `getResponse` (501) cannot be reached, because the four methods are the type's only values. It is not modelled.
- HttpContentType.java, IllegalHeaderException.java, TCPServer.java and src/Handler.java are not part of this model. The `getLine` of IllegalHeaderException is the `line` field of `Failures.IllegalHeader`.
- Exchange.Serve: states the error facts and the `shouldClose` rule about one request, as does Exchange.ServeRequest. The response itself is related to `getResponse` by the body and by `Exchange.ServedKeepsAlive`.
- `Integer.parseInt` also accepts non-ASCII Unicode digits (for example Arabic-Indic digits) in `Content-Length` and in chunk sizes. `JavaNumber.Digit` accepts only the ASCII digits and letters, so the model rejects such numbers with a number-format error.
- `File.lastModified()` is a `long` that can be 0 or negative, and `/ 1000` truncates toward zero. The model keeps each file's modification time as a `nat` in milliseconds (`ResourceStore.Files`), where Dafny's and Java's division agree. Negative times, and the 64-bit range, are not modelled.
- Routing.Route: its ensures do not restate every branch. Each branch is a lemma: HostRequired, EmptyPathRedirect, AbsoluteForm, ServesPage (GET and HEAD through `fetchPage`), PutStores, PostAppends and DirWriteRejected.
