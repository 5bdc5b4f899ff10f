# A verified model of nanofish's HTTP/1.1 codec

nanofish is a small HTTP/1.1 client and server for embedded targets. This
project models its message codec and the two loops that read messages from a
connection, and proves that they do what they are for: whatever one side prints
the other side reads back, however the network cuts the bytes, and the places
where that is not so are named exactly.

Run `dafny verify dfyconfig.toml` to verify everything.

## How the model is built

| file | what it models |
|---|---|
| `bytes.dfy`, `text.dfy`, `numbers.dfy` | bytes and searches; UTF-8, `trim` and `split_whitespace`; number texts |
| `protocol.dfy`, `framing.dfy` | `src/protocol.rs`; the framing predicates of `src/codec.rs` |
| `streams.dfy`, `reading.dfy`, `readers.dfy` | the connection; what the reading loops compute; the loops |
| `dechunk.dfy`, `chunklines.dfy`, `chunkedbody.dfy` | in-place chunked decoding; size lines; chunked bodies as a sender writes them |
| `headframing.dfy` | how both readers frame any printed head, in whatever case its fields are written |
| `tables.dfy`, `buffers.dfy`, `heads.dfy` | methods and status codes; bounded buffers; printed heads |
| `requests.dfy`, `requestlaws.dfy` | `build_req` and the request parser; the laws between them |
| `linefeeds.dfy`, `requestframing.dfy` | the two ways of cutting lines; exactly when framing agrees with parsing |
| `responses.dfy`, `responselaws.dfy` | the response printer and `parse_resp`; the laws between them |
| `connections.dfy`, `clientlaws.dfy` | one cycle on each side; the client on arbitrary streams |
| `exchange.dfy` | the end-to-end theorems |
| `wireforms.dfy` | the constants and the printed forms as literal text |
| `builder.dfy`, `queries.dfy` | the response builder; query strings and percent-decoding |

Code that changes things step by step is a method: the in-place decoder works on
an `array`, the readers fill one, `heapless` buffers, the builder and the query
iterators are classes. Each is proved equal to a function of its inputs
(`ClientRead`, `ServerRead`, `Decoded`, `RequestFrom`, `ParseResponse`,
`HeadOutcome`, `LastOnly`, `Pairs`, `DecodeOutcome`), and the theorems are about
those functions.

- **Text is exact.** Strings are byte strings. `ValidUtf8`, `Trim` and `Words`
  follow UTF-8 and Unicode's White_Space property, so nothing is restricted to ASCII.
- **Panics are results.** `Outcome` has a third case, `Panic`, for the slices,
  indices and sums on which the source panics. A chunk whose end exceeds `usize`
  panics in every build: the sum is checked, or it wraps and the range of
  `copy_within` is then out of order. `usize` has 64 bits.
- **A stream** is all the bytes the peer sends before it closes, with an arbitrary
  schedule of read sizes and transient errors, and a limit on what the peer accepts.
  Each `await` is one step. A handler is a function from requests to responses or failure.
- **`Pump`** is a reader with endless patience. `ClientRead` is that reader cut off
  by the retry budget; `ClientAnswer` and `ServerAnswer` do not see the schedule at all.
- A request buffer is shorter than `usize::MAX`, as every Rust object is.

## What turned out not to hold

- A response with neither a header nor a body is printed as a status line and a blank
  line. `parse_resp` panics on it, so nanofish's client panics on nanofish's own
  server. `PanicsExactly` gives the condition for all inputs.
- A chunked response counts as complete at the first `0 CRLF CRLF` anywhere in it.
  `ChunkedDelivery` proves when the whole body still arrives: exactly if that marker fits
  the buffer and does not end before the last payload byte. A head that ends in a header
  such as `Age: 0` ends in the marker; then the client may report an empty body
  (`AgeZeroHidesBody`).
- The request reader cuts lines at CRLF, the parser also at a bare LF (`LinesAgree`). With a
  bare LF they can see different lengths, in both directions: a request reaches the handler
  without the body it declares (`BareLfDisagrees`), or the parser misses the length it was
  framed by (`BlankLineHidesLength`). The text in front of the first bare LF decides:
  whatever follows, the lengths agree if and only if a length field stands on a finished
  line, or the line that the LF cuts is one whose value so far is neither blank nor a number
  (`FramingAgreesExactly`). `BodyIsWholeExactly` says in the same way when no body can be missing.
- `parse_resp` drops headers after the sixteenth, so a response can be framed by a length
  that its parsed form does not show. nanofish's own printer writes one: behind sixteen
  headers its automatic length is the seventeenth (`SeventeenthLengthIsDropped`).
- `parse_resp` takes `Content-Length: 200` for a status line, and the reader frames by it
  (`StatusLineFrames`). `ResponseFramingAgrees` gives the exact condition for all responses.
- The client panics on a chunk whose end exceeds `usize` and on a head without header
  lines, and on nothing else (`ClientPanicsExactly`).
- The comment in `chunked` says that `chunked` must be the final transfer coding. The code
  accepts it anywhere in the list; the model follows the code (`ListsChunkedExactly`,
  `ChunkedNeedNotBeLast`).
- `read_response` answers `NoResponse` without reading when `max_retries` is zero
  (`ReadResponse`).

## Model

| member | source | states |
|---|---|---|
| Bytes.Find | src/protocol.rs:57-66 | the window search finds the least offset at which the pattern occurs, or nothing exactly when it occurs nowhere |
| Bytes.FindInPrefix | src/protocol.rs:57-66 | the first occurrence is stable under appending, and is the first one of every prefix that contains it |
| Bytes.EqIgnoreCaseExactly | src/protocol.rs:75-75 | names are equal ignoring case exactly when they have one length and differ at most in the case of letters |
| Bytes.SameIsRecased | src/protocol.rs:75-75 | such names are exactly the re-casings of one another |
| Protocol.FindDoubleCrlf | src/protocol.rs:57-59 | the result is the least position of CRLF CRLF |
| Protocol.FindCrlf | src/protocol.rs:64-66 | the result is the least position of CRLF |
| Protocol.ScanIsLookup | src/protocol.rs:70-81 | scanning lines for a name is looking the name up, ignoring case, among the fields of those lines |
| Protocol.SplitJoined | src/protocol.rs:71-71 | splitting at CRLF undoes joining lines with CRLF |
| Protocol.SplitAtCrlf | src/protocol.rs:71-71 | text cut at any CRLF splits into the lines before and the lines after it |
| Protocol.HeadEnd | src/protocol.rs:57-59 | in a printed head the first double CRLF is the one that ends it, whatever body follows |
| Protocol.NoCrlfAtCut | src/request.rs:264-268 | a head cut at its first double CRLF neither ends in CRLF nor holds an empty line |
| Text.ValidUtf8Append | src/codec.rs:31-32 | appending to valid UTF-8 is valid exactly when the appended part is |
| Text.ValidUtf8Cut | src/codec.rs:31-32 | valid UTF-8 may be cut in front of any ASCII byte |
| Text.ScalarIsCharacter | src/codec.rs:31-32 | the encoding of every Unicode scalar value is one accepted character and stands for that value |
| Text.CharacterIsScalar | src/codec.rs:31-32 | every accepted character is the encoding of a scalar value: no overlong form, no surrogate |
| Text.SpaceIsWhiteSpace | src/codec.rs:50-51 | the byte patterns taken for white space are exactly the encodings of the White_Space characters |
| Text.TrimSplits | src/codec.rs:50-51 | trimming leaves a trimmed middle, with nothing but white space removed on both sides |
| Text.TrimPadded | src/codec.rs:50-51 | conversely, any trimmed text between any white space is what trimming leaves |
| Text.TrimAcrossLf | src/request.rs:239-240 | a value with text in front of a line feed keeps the line feed, or is the value in front of it |
| Text.TrimBlankPrefix | src/request.rs:239-240 | trimming removes the blank printed in front of a trimmed value and nothing else |
| Text.WordsCons | src/request.rs:218-226 | a blank-free word followed by a blank is the first word, and the rest splits on |
| Text.WordsOfSpaced | src/request.rs:216-226 | whatever white space separates and surrounds them, the words come back |
| Text.FirstWordExtends | src/request.rs:218-222 | if the text in front of a colon trims to a solid word, the first word of the line starts with it |
| Numbers.ParseDecimal | src/codec.rs:163-168 | parsing inverts decimal printing for every number in range |
| Numbers.ParsesExactly | src/codec.rs:163-168 | number parsing accepts exactly an optional plus sign and digits of the radix whose value, summed from the left, is in range |
| Numbers.PlusIsOptional | src/codec.rs:195-196 | a leading plus sign is skipped by number parsing and is no number alone |
| Numbers.DecimalNoLeadingZero | src/response.rs:390-414 | printed numbers have no leading zero, except zero itself |
| Numbers.DecimalLength | src/codec.rs:121-124 | a number is printed in at most k digits exactly when it is below 10^k |
| Buffers.BoundedBuffer.PushSlice | src/response.rs:371-375 | all of the slice is appended, or nothing, decided by the free room alone |
| Buffers.BoundedBuffer.PushAll | src/codec.rs:99-105 | a run of pushes succeeds exactly when all pieces fit together, and then appends their concatenation |
| Buffers.BoundedBuffer.WriteDecimal | src/response.rs:390-414 | panics exactly from ten billion on; otherwise appends the decimal text or the digits that fit, keeping what was there |
| Framing.FramingIsMonotone | src/codec.rs:133-160 | completeness and declared length, of responses and requests, are never taken back when bytes arrive |
| Framing.ContentLengthOfWholeHead | src/codec.rs:163-168 | the declared length is the same with and without the final double CRLF of the head |
| Framing.ListsChunkedExactly | src/codec.rs:245-252 | a list of codings declares chunked framing exactly when `chunked` is among them, in any case and place |
| Framing.ChunkedNeedNotBeLast | src/codec.rs:245-252 | `chunked, gzip` declares chunked framing |
| HeadFraming.RequestFramesByFields | src/server/io.rs:157-173 | a request of any printed head is complete exactly when the bytes its length field declares have arrived, or with its head if none is declared |
| HeadFraming.ResponseFramesByFields | src/codec.rs:133-160 | a response of any printed head is chunked, complete and of declared length exactly as its fields say |
| HeadFraming.LengthInAnyCase | src/protocol.rs:70-81 | the first field called `content-length`, in any case, gives the length exactly if its value is a number text |
| HeadFraming.ChunkedInAnyCase | src/codec.rs:237-254 | the first field called `transfer-encoding` declares chunked framing if it lists `chunked`, both in any case |
| HeadFraming.ServerReadsByFields | src/server/io.rs:137-183 | under every segmentation the request reader waits for exactly the declared bytes, and otherwise answers overflow or `Incomplete request` |
| HeadFraming.ClientReadsByFields | src/client/io.rs:267-322 | under every schedule the response reader waits for exactly the declared bytes, or for the end of the stream, and otherwise answers overflow or `Incomplete response body` |
| HeadFraming.ClientReadsChunked | src/client/io.rs:267-322 | the response reader on a chunked head waits for the first end marker, and otherwise answers overflow or `Incomplete response body` |
| HeadFraming.ServerFailsExactly | src/server/io.rs:147-150 | the request reader answers `TcpError` exactly when it meets a read error |
| HeadFraming.NothingIsRead | src/client/io.rs:304-306 | the response reader answers `NoResponse` exactly without bytes or without room |
| HeadFraming.GarbledHeadDeclaresNothing | src/codec.rs:163-168 | a head that is no text declares neither length nor coding |
| Reading.PumpStops | src/client/io.rs:282-302 | the loop stops early only when done, and is done whenever the bytes it could read allow it |
| Reading.DoneCoversLeast | src/client/io.rs:288-292 | a prefix that is done is at least as long as the least one, which is done too |
| Reading.ClientReadIsSegmentationFree | src/client/io.rs:267-322 | with budget left the outcome is the one stream and buffer length determine; a declared-length answer covers the least complete prefix and is complete |
| Reading.TwoDeliveriesAgree | src/client/io.rs:267-322 | two schedules give the same errors and successes; lengths differ only if bytes follow a complete message |
| Reading.EveryArrivalHappens | src/client/io.rs:282-293 | every length the answer allows is returned under some schedule |
| Reading.OverflowExactly | src/client/io.rs:304-321 | `BufferOverflow` exactly when the stream fills a non-empty buffer without completing the message |
| Reading.RetryBudget | src/client/io.rs:294-300 | `TcpError` exactly when the errors met reach the budget; one delay per error except the exhausting one; never with fewer scheduled faults than the budget |
| Reading.ServerReadIsSegmentationFree | src/server/io.rs:137-183 | without read errors the outcome depends on stream and buffer length alone, and success means a complete request |
| Readers.ReadResponse | src/client/io.rs:267-322 | the loop computes `ClientRead`, delays as `ClientDelays`, fills the buffer with the stream's prefix and touches nothing else; with no budget it does not read; its second completeness test never succeeds |
| Readers.ReadRequest | src/server/io.rs:137-183 | the loop, with its cached head position, computes `ServerRead` and fills the buffer with the stream's prefix |
| Readers.CachedDoneIsExact | src/server/io.rs:157-173 | with a sound cache the saturating test decides as exact arithmetic on everything read |
| Readers.ReadMore | src/client/io.rs:283-289 | one read extends the filled prefix by what the schedule delivers |
| Dechunk.DecodeInPlace | src/codec.rs:170-216 | the buffer ends as head, concatenated payloads, then its old contents, and the answer is that of pure decoding of the original bytes, on success, error and panic |
| Dechunk.CopyWithin | src/codec.rs:208-210 | the overlapping move copies the old source bytes and leaves the rest |
| Dechunk.PendingStep | src/codec.rs:183-213 | each turn of the loop keeps: decoded part plus decoding of the unread suffix is the decoding of the whole |
| ChunkLines.AnnouncesExactly | src/codec.rs:189-196 | the size parser answers n exactly for text whose part in front of the first `;`, white space aside, is a hexadecimal text of n |
| ChunkLines.RefusesExactly | src/codec.rs:189-196 | it answers the encoding error exactly for lines that are no text, and the size error exactly for text that announces no number |
| ChunkedBody.HexSpellsNumber | src/codec.rs:195-196 | upper and lower case hexadecimal texts spell their number |
| ChunkedBody.SizeLineParses | src/codec.rs:189-196 | a size line, with or without blanks and extension, announces the size it spells |
| ChunkedBody.DecodeCut | src/codec.rs:183-215 | the first t bytes of a coded body decode to the body exactly when no payload byte is missing |
| ChunkedBody.DecodeAfterChunks | src/codec.rs:183-215 | good chunks decode whatever follows them, and what follows decides how decoding ends |
| ChunkedBody.DecodingIsExplained | src/codec.rs:183-215 | every decoding splits the input into announced pieces whose payloads are the output, separated by any two bytes, and a tail that ends decoding as it does: well, with one of three errors, or with a panic |
| ChunkedBody.ExplanationDecodes | src/codec.rs:183-215 | conversely, pieces and a tail of that kind decode to those payloads and that ending |
| ChunkedBody.BadSizeIsRefused | src/codec.rs:194-196 | behind good chunks, a size text that is no hexadecimal number is the error `Invalid chunk size` |
| ChunkedBody.BadEncodingIsRefused | src/codec.rs:189-192 | behind good chunks, a size line that is no UTF-8 is the error `Invalid chunk size encoding` |
| ChunkedBody.ChunkedRoundTrip | src/codec.rs:170-216 | any chunking of a body behind a chunked head decodes to head and body |
| ChunkedBody.ChunkingDoesNotMatter | src/codec.rs:170-216 | two chunkings of one body decode alike |
| ChunkedBody.UnfinishedChunk | src/codec.rs:202-206 | a chunk longer than what arrived ends decoding with an error, or with a panic exactly when its end exceeds `usize` |
| ChunkedBody.DoneAtMarker | src/codec.rs:139-143 | a chunked message is complete from its first end marker on, and that lies behind the head |
| ChunkedBody.ChunkedDelivery | src/client/io.rs:179-186 | for every buffer, under every schedule reading then decoding delivers the whole body, if and only if a marker exists and the first fits the buffer and does not end before the last payload byte |
| ChunkedBody.ZeroAtHeadEnd | src/codec.rs:139-143 | a head ending in the marker lets the reader stop at the head with a body still to come |
| ChunkedBody.PrintedHeadIsChunked | src/codec.rs:237-254 | a printed head whose transfer codings list `chunked` is recognised |
| Tables.MethodRoundTrip | src/method.rs:44-76 | every method parses back from its text |
| Tables.StatusRoundTrip | src/status_code.rs:102-270 | the number always survives; the variant exactly unless it is `Other` of a named number |
| Tables.ReasonIsWords | src/status_code.rs:149-199 | no reason phrase holds a colon or a control character |
| Heads.HeaderLineReads | src/codec.rs:48-52 | a printed header line reads back as its header |
| Heads.FieldReads | src/protocol.rs:72-75 | a name and a value with any white space around them, with a colon between, read back as that header |
| Heads.WriteHeaders | src/response.rs:157-167 | the header loop writes all header lines exactly when they fit, and knows whether one is `Content-Length` |
| Heads.HeadSplits | src/response.rs:157-162 | a printed head splits into its first line and its header lines |
| Heads.HeadFields | src/response.rs:157-162 | the fields of a printed head are those of its first line, then the printed headers |
| Heads.PrintedContentLength | src/codec.rs:163-168 | the declared length of a printed head is that of its headers |
| Heads.PrintedChunked | src/codec.rs:237-254 | a printed head is chunked exactly when its transfer codings say so |
| Requests.ParseFrom | src/request.rs:211-256 | the parsing loop computes `RequestFrom`, refusing the seventeenth header |
| Requests.TryFrom | src/request.rs:262-275 | the buffer parser computes `ParseRequest` |
| Requests.BuildRequest | src/codec.rs:90-131 | the request head, or `BufferOverflow` exactly when it does not fit or its length needs more than eight digits |
| LineFeeds.LinesAgree | src/request.rs:212-233 | `lines()` and splitting at CRLF cut alike exactly when no line feed is bare or last |
| LineFeeds.TextLinesAcross | src/request.rs:212-233 | for the parser a bare line feed ends the line that was open |
| LineFeeds.SplitLinesAcross | src/protocol.rs:71-71 | for the reader that line goes on, and finished lines stay as they are |
| RequestFraming.RequestLineIsNoLength | src/server/io.rs:163-163 | a line that starts with a method is never taken for a `Content-Length` field |
| RequestFraming.FramingAgrees | src/server/io.rs:157-173 | the length a request is framed by is the length its parsed form declares, if its head has no bare line feed or settles the length in front of the first |
| RequestFraming.FramingAgreesExactly | src/server/io.rs:157-173 | a text in front of a bare line feed settles the length if and only if the lengths agree in every request that goes on from it |
| RequestFraming.BodyIsWhole | src/server/io.rs:105-116 | a request that is read and parsed has at least its declared body, unless a bare line feed stands behind text that leaves that open |
| RequestFraming.BodyIsWholeExactly | src/server/io.rs:105-116 | and such text leaves it open if and only if some request that goes on from it is accepted without its body |
| RequestLaws.BareLfDisagrees | src/server/io.rs:157-173 | a family of requests with one bare line feed is framed without a length and parsed with one |
| RequestLaws.BlankLineHidesLength | src/request.rs:233-236 | a family of requests is framed by a length that the parser, stopped by an empty line, does not see |
| RequestLaws.RequestRoundTrip | src/codec.rs:90-131 | a printed request followed by any body parses back to method, path, headers and body exactly when it has at most sixteen headers, and otherwise is refused |
| RequestLaws.RequestHeadParses | src/request.rs:211-256 | on any head of printable headers the first three words, however spaced, are method, path and version, or the error names what is missing; a seventeenth header is refused |
| RequestLaws.NoRequestHead | src/request.rs:262-275 | input without a whole head, with an empty one, or with one that is no text is refused, each with its own error |
| RequestLaws.PrintedRequestLength | src/codec.rs:118-127 | a printed request is framed by the length its headers declare |
| Responses.ParseResp | src/codec.rs:25-71 | the parser, with its vector of sixteen headers, computes `ParseResponse` |
| Responses.ParseBodyKeepsBytes | src/codec.rs:73-88 | however a body is classified its bytes are kept, and text bodies are valid UTF-8 |
| Responses.WriteStatusLine | src/response.rs:378-387 | the status line is appended exactly when it fits |
| Responses.WriteLengthLine | src/response.rs:171-176 | the automatic length line is written exactly when it fits, or panics from ten billion on once its name fits |
| Responses.WriteHead | src/response.rs:148-180 | the head is written exactly when it fits; an automatic length of more than ten digits panics once its name fits |
| Responses.BuildBytes | src/response.rs:122-130 | the whole response or an error, never a part |
| Responses.BuildHeadBytes | src/response.rs:140-146 | the head without automatic length, exactly when it fits |
| Responses.BuildIsExactFit | src/response.rs:122-180 | below ten billion body bytes printing succeeds exactly when the response fits |
| ResponseLaws.FirstCrlfOfHead | src/codec.rs:34-45 | the first CRLF of a head starts its double CRLF or lies at least three bytes before it |
| ResponseLaws.PanicsExactly | src/codec.rs:25-71 | `parse_resp` panics exactly on valid heads with a good status line and no header line |
| ResponseLaws.ResponseFramingAgrees | src/codec.rs:45-56 | framed and declared length agree exactly unless a dropped header declares one and none is kept; if the status line is itself a length field, exactly when the kept headers declare the same |
| ResponseLaws.SeventeenthLengthIsDropped | src/codec.rs:52-54 | a response printed behind sixteen own headers is framed by its automatic length and declares none when parsed |
| ResponseLaws.StatusLineFrames | src/codec.rs:37-43 | a family of responses with a length field as status line is accepted and framed by it |
| ResponseLaws.HeadParses | src/codec.rs:25-71 | any head of printable headers behind a good first line parses to its status and first sixteen headers, with any body |
| ResponseLaws.ResponseHeadParses | src/codec.rs:37-56 | on any head of printable headers the second word, if a number up to 65535, is the status, the first sixteen headers are kept, and otherwise the error says why |
| ResponseLaws.NoResponseHead | src/codec.rs:26-32 | input without a whole head or with one that is no text is refused, each with its own error |
| ResponseLaws.PrintedHeadParses | src/codec.rs:25-71 | a printed head with any body parses to its status, its first sixteen headers and that body, or panics without headers |
| ResponseLaws.ResponseRoundTrip | src/response.rs:122-180 | printing then parsing gives the status its number names, the first sixteen printed headers and the same body bytes, or panics without a header line |
| ResponseLaws.StatusComesBack | src/codec.rs:43-43 | the numeric status and body bytes come back, the variant exactly unless `Other` names a named number |
| ResponseLaws.BodyComesBack | src/codec.rs:73-88 | which body variants come back as they were, exactly |
| ResponseLaws.TextComesBack | src/codec.rs:225-230 | a printed text comes back as text under no type and under each of the four text types, whatever follows them, and as binary under every other |
| ResponseLaws.PrintedComplete | src/codec.rs:133-147 | a printed response is complete exactly with its last byte, or never when it has no length |
| ResponseLaws.PrintedResponseIsRead | src/client/io.rs:267-322 | a printed response is read whole under every schedule if it fits, strictly when delimited by close, and overflows otherwise |
| Connections.HandleConnection | src/server/io.rs:92-124 | the server writes nothing unless it read, parsed and printed; then the whole response as far as the peer takes it |
| Connections.Request | src/client/io.rs:145-189 | nothing is written if printing fails and nothing read if writing fails; otherwise the request is on the wire and the result is `ClientRun` |
| Connections.SendRequest | src/client/io.rs:165-177 | head and body are written as one byte string would be |
| ClientLaws.DecodingPanicsExactly | src/codec.rs:202-206 | decoding panics exactly when, behind whole chunks, a size line announces a chunk with its end beyond `usize` |
| ClientLaws.ClientPanicsExactly | src/client/io.rs:186-187 | on any received bytes the client panics exactly for such a chunk or for a head without header line |
| ClientLaws.ClientBodyIsWhole | src/client/io.rs:288-310 | on any stream an accepted response that is not chunked holds exactly the bytes behind its head, and at least as many as the head declares |
| Exchange.WireComplete | src/server/io.rs:157-173 | a printed request with a right length is complete exactly with its last byte |
| Exchange.WireIsRead | src/server/io.rs:137-183 | under every segmentation the server reads exactly the printed request |
| Exchange.HandlerSeesRequest | src/server/io.rs:105-117 | the handler is called with the request that was sent, and its response is what is printed |
| Exchange.ClientGetsResponse | src/client/io.rs:179-188 | the client gets status, first sixteen headers, body and length of a printed response, or panics if it has no header line |
| Exchange.EndToEnd | src/client/io.rs:179-188 | server run and client run composed, under every segmentation of both streams: the handler sees the request and the client gets numeric status, headers and body bytes |
| Exchange.Converse | src/client/io.rs:145-189 | from the client's call to its result: each side writes exactly what the other receives, and the client gets numeric status, headers and body bytes of the handler's response, or panics if it has no header line |
| Exchange.AnswerIsPrinted | src/server/io.rs:108-117 | a handler's response is what the server prints |
| Exchange.FailureIsReported | src/server/io.rs:108-117 | for a failed handler the client gets status 500, a plain text type, the length 21 and the text `Internal Server Error` |
| Exchange.ClientGetsChunked | src/client/io.rs:179-188 | the client on any chunked response whose first marker fits and comes late enough gets status, headers and exactly the payloads |
| Exchange.AgeZeroHidesBody | src/codec.rs:139-143 | a concrete chunked response of which the client may report an empty body as success |
| Builder.ResponseBuilder.AddHeader | src/response.rs:251-256 | the header is appended, or refused when sixteen are there |
| Builder.ResponseBuilder.Json | src/response.rs:289-295 | content type and body are set together, or neither |
| Builder.ResponseBuilder.Build | src/response.rs:338-361 | reverse, fold, reverse computes the headers no later header overrides |
| Builder.LastOnlyHasNames | src/response.rs:340-352 | exactly the input's names remain, ignoring case |
| Builder.LastOnlyIsDistinct | src/response.rs:340-352 | no two remaining names are equal ignoring case |
| Builder.LookupIsLast | src/response.rs:80-85 | looking a name up afterwards gives the value set last before |
| Builder.LastOnlyKeepsOrder | src/response.rs:353-354 | the remaining headers stand in the order of their last occurrences |
| Builder.LastOnlyIsIdempotent | src/response.rs:340-354 | de-duplicating again changes nothing |
| Builder.JsonComesBack | src/response.rs:338-361 | a text set behind any headers under `application/json` is read back as that text, under that type |
| Builder.BuildJson | src/response.rs:289-295 | the response that `json` and `build` make of a text is read back as that text, under that type |
| Queries.QueryPairs.Next | src/request.rs:34-55 | each call produces the first pair of the simple form and leaves the rest, and `remaining` shrinks |
| Queries.PairsStep | src/request.rs:36-53 | the simple form, one `split_once` at a time |
| Queries.QueryValues.Next | src/request.rs:68-72 | each call produces the first remaining value of the name |
| Queries.ValuesAround | src/request.rs:68-72 | a pair contributes its value to its own name, in its place, and nothing to other names |
| Queries.QueryFirst | src/request.rs:129-133 | the first of all values the target gives to the name |
| Queries.QueryLast | src/request.rs:137-142 | the last of all values the target gives to the name |
| Queries.CollectPairs | src/request.rs:34-55 | a whole run of the iterator produces the simple form |
| Queries.QueryRoundTrip | src/request.rs:34-55 | a printed query of assignments, flags without `=` and empty segments gives the assignments and flags back, order and duplicates included |
| Queries.TargetRoundTrip | src/request.rs:107-109 | a target printed as route, question mark and query gives every name its values |
| Queries.PercentDecode | src/request.rs:288-315 | the loop computes `DecodeOutcome` and leaves the decoded bytes that fit at the front of `out` |
| Queries.PercentRoundTrip | src/request.rs:288-315 | every spelling decodes to what it spells, or is a text error, if `out` has room, and overflows otherwise; each escape accounts for two bytes |
| Queries.BadEscapeIsRefused | src/request.rs:295-304 | behind any spelling, a percent sign without two hexadecimal digits is the incomplete or the invalid escape error, unless the room ran out before |
| Queries.InputSplits | src/request.rs:288-337 | every input is a spelling, or a spelling and such a percent sign |
| Queries.AnswerIsSpelled | src/request.rs:288-315 | an answer is always what the input spells, is text, and fits |
| WireForms.RequestOnTheWire | src/codec.rs:97-130 | a request head as literal text, in the order it is written |
| WireForms.ResponseOnTheWire | src/response.rs:122-180 | a response as literal text, in the order it is written |
| WireForms.HeaderOnTheWire | src/codec.rs:108-112 | a header as literal text |
| WireForms.MethodNames | src/method.rs:44-57 | every method is printed as its name |
| WireForms.PhraseOfNumber | src/status_code.rs:149-199 | the status a number names has the phrase of that number |
| WireForms.ChunkOnTheWire | src/codec.rs:183-213 | chunks as literal text |
| WireForms.RoomForDigits | src/response.rs:398-398 | the length limits are those of eight and of ten digits |

## Left out

- Exchange.EndToEnd, and with it `Converse`: the response carries no `Transfer-Encoding`, which the printer never
  applies to the body, and a `Content-Length` of the handler's own must be right; likewise for the request.
- `is_success`, `is_client_error` and `is_server_error`: range checks on the number.
- `query_indexed` and `header`: the same searches as those modelled, with another test.
- Embassy sockets, DNS, TLS, the smoltcp adapter, timers and timeouts: foreign calls; the abstract stream stands for them.
- `parse_endpoint`, convenience verbs and `SimpleHandler`: no property beyond their text.
- Futures and scheduling: each `await` is one step, and a handler has no state of its own.
- Builder setters other than `header` and `json`: each sets one field.
- Error texts matter only as far as they tell errors apart; `Display`, logging and `defmt` are left out.
- Body rules the code does not implement: HEAD, 1xx, 204 and 304 responses, trailers, keep-alive.
