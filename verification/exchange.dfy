/** The end-to-end theorem: what one side prints is what the other side gets. */
module Exchange {
  import opened Bytes
  import opened Numbers
  import Text
  import opened Protocol
  import opened Framing
  import opened Tables
  import opened Heads
  import opened Streams
  import opened Reading
  import opened Dechunk
  import opened Requests
  import opened RequestLaws
  import opened Responses
  import opened ResponseLaws
  import opened Connections
  import opened ChunkedBody

  function BodyBytes(body: Option<bytes>): bytes {
    if body.Some? then body.value else []
  }

  /** The request can be printed, read back, and frames its own body. */
  ghost predicate GoodRequest(host: bytes, path: bytes, headers: seq<Header>, body: Option<bytes>) {
    && PrintableRequest(host, path, headers)
    && |SentHeaders(host, headers, body)| <= MAX_HEADERS
    && |BodyBytes(body)| <= USIZE_MAX
    && match Lookup(headers, CONTENT_LENGTH)
       case None => true
       case Some(v) => ParseUsize(v) == Some(|BodyBytes(body)|)
  }

  /** The request the handler sees. */
  function SeenRequest(
    m: HttpMethod, host: bytes, path: bytes, headers: seq<Header>, body: Option<bytes>
  ): HttpRequest {
    HttpRequest(m, path, HTTP_VERSION, SentHeaders(host, headers, body), BodyBytes(body))
  }

  lemma SentLength(host: bytes, path: bytes, headers: seq<Header>, body: Option<bytes>)
    requires GoodRequest(host, path, headers, body)
    ensures match Lookup(SentHeaders(host, headers, body), CONTENT_LENGTH)
      case None => BodyBytes(body) == []
      case Some(v) => ParseUsize(v) == Some(|BodyBytes(body)|)
  {
    hide Decimal, PrintableRequest;
    var n := |BodyBytes(body)|;
    ParseDecimal(n, USIZE_MAX);
    var auto := if SendsLength(headers, body) then [Header(CONTENT_LENGTH, Decimal(n))] else [];
    var own, close := [Header(HOST, host)], [Header(CONNECTION, CLOSE)];
    assert SentHeaders(host, headers, body) == own + headers + auto + close;
    LookupAppend(own + headers + auto, close, CONTENT_LENGTH);
    LookupAppend(own + headers, auto, CONTENT_LENGTH);
    LookupAppend(own, headers, CONTENT_LENGTH);
    assert !EqIgnoreCase(HOST, CONTENT_LENGTH) && !EqIgnoreCase(CONNECTION, CONTENT_LENGTH);
  }

  lemma HeadSize(m: HttpMethod, host: bytes, path: bytes, headers: seq<Header>, body: Option<bytes>)
    ensures |RequestHead(m, host, path, headers, body)|
      == |HeadText(FirstLineOf(m, path), SentHeaders(host, headers, body))| + 4
  {
    hide HeadText, FirstLineOf, SentHeaders, Head;
    var text := HeadText(FirstLineOf(m, path), SentHeaders(host, headers, body));
  }

  /** A printed request is complete exactly with its last byte. */
  lemma WireComplete(m: HttpMethod, host: bytes, path: bytes, headers: seq<Header>, body: Option<bytes>, t: nat)
    requires GoodRequest(host, path, headers, body)
    requires t <= |Wire(m, host, path, headers, body)|
    ensures RequestComplete(Wire(m, host, path, headers, body)[..t]) <==> t == |Wire(m, host, path, headers, body)|
  {
    hide FindDoubleCrlf, ContentLength, RequestHead, SentHeaders, PrintableRequest, Lookup, HeadText, FirstLineOf;
    var received := BodyBytes(body);
    var head, wire := RequestHead(m, host, path, headers, body), Wire(m, host, path, headers, body);
    PrintedRequestLength(m, host, path, headers, body, received);
    SentLength(host, path, headers, body);
    var d := FindDoubleCrlf(wire).value;
    assert |head| == d + 4 by {
      HeadSize(m, host, path, headers, body);
    }
    FindInPrefix(wire, DOUBLE_CRLF, t);
    FindIsSearch(wire, t);
    if t >= d + 4 {
      assert wire[..t][..d] == wire[..d];
    }
  }

  /** Under every segmentation the server reads exactly the printed request. */
  lemma WireIsRead(
    m: HttpMethod, host: bytes, path: bytes, headers: seq<Header>, body: Option<bytes>,
    events: seq<ReadEvent>, limit: nat)
    requires GoodRequest(host, path, headers, body)
    requires limit >= |Wire(m, host, path, headers, body)|
    requires Pump(Server, events, Wire(m, host, path, headers, body), limit, 0).faults == 0
    ensures ServerRead(events, Wire(m, host, path, headers, body), limit) == Ok(|Wire(m, host, path, headers, body)|)
  {
    hide RequestComplete, Wire, GoodRequest, Pump, ServerRead;
    var wire := Wire(m, host, path, headers, body);
    ServerReadIsSegmentationFree(events, wire, limit);
    WireComplete(m, host, path, headers, body, |wire|);
    assert wire[..|wire|] == wire;
    var r := ServerRead(events, wire, limit);
    assert r.Ok?;
    WireComplete(m, host, path, headers, body, r.value);
  }

  /** The handler is called with the request that was sent, and its response is what the server writes. */
  lemma HandlerSeesRequest(
    handler: HttpRequest -> Option<HttpResponse>,
    m: HttpMethod, host: bytes, path: bytes, headers: seq<Header>, body: Option<bytes>,
    events: seq<ReadEvent>, requestSize: nat, responseSize: nat)
    requires GoodRequest(host, path, headers, body)
    requires requestSize >= |Wire(m, host, path, headers, body)|
    requires Pump(Server, events, Wire(m, host, path, headers, body), requestSize, 0).faults == 0
    ensures ServerRun(handler, events, Wire(m, host, path, headers, body), requestSize, responseSize)
      == BuildOutcome(Respond(handler, SeenRequest(m, host, path, headers, body)), responseSize)
  {
    hide Pump, ServerRead, ParseRequest, BuildOutcome, RequestHead, SentHeaders, PrintableRequest, Lookup, Respond;
    var wire := Wire(m, host, path, headers, body);
    WireIsRead(m, host, path, headers, body, events, requestSize);
    assert wire[..|wire|] == wire;
    RequestRoundTrip(m, host, path, headers, body, BodyBytes(body));
  }

  lemma FramedIsPrintable(response: HttpResponse)
    requires WellFramed(response)
    ensures AllPrintable(response.headers)
  {
  }

  /** What the client gets from a printed response. */
  lemma ClientGetsResponse(response: HttpResponse, events: seq<ReadEvent>, limit: nat, maxRetries: nat)
    requires WellFramed(response)
    requires |ResponseBytes(response)| < limit || (|ResponseBytes(response)| == limit && SelfDelimited(response))
    requires Pump(Client, events, ResponseBytes(response), limit, 0).faults < maxRetries
    ensures var hs := PrintedHeaders(response, true);
      ClientRun(events, ResponseBytes(response), limit, maxRetries) == if hs == [] then Panic else
        Ok((HttpResponse(StatusOf(StatusNumber(response.status)), FirstHeaders(hs),
                         ParseBody(FirstHeaders(hs), response.body.AsBytes())),
            |ResponseBytes(response)|))
  {
    hide Pump, ClientRead, ParseResponse, ResponseBytes, WellFramed, SelfDelimited, Chunked, FindDoubleCrlf,
      PrintedHeaders, ParseBody, StatusOf, StatusNumber, AllPrintable;
    var s := ResponseBytes(response);
    PrintedResponseIsRead(response, events, limit, maxRetries);
    assert s[..|s|] == s;
    PrintedFraming(response);
    FramedIsPrintable(response);
    ResponseRoundTrip(response);
    NotChunked(s);
  }

  /**
   End to end. A good request that fits the server's buffer, a well framed
   response that fits both buffers: under every segmentation of both streams
   the handler sees the request that was sent, and the client gets the numeric
   status, the body bytes and the first sixteen headers of the response that was
   returned, or panics if that response had neither a header nor a body.
   */
  lemma EndToEnd(
    handler: HttpRequest -> Option<HttpResponse>,
    m: HttpMethod, host: bytes, path: bytes, headers: seq<Header>, body: Option<bytes>,
    serverEvents: seq<ReadEvent>, requestSize: nat, responseSize: nat,
    clientEvents: seq<ReadEvent>, limit: nat, maxRetries: nat)
    requires GoodRequest(host, path, headers, body)
    requires requestSize >= |Wire(m, host, path, headers, body)|
    requires Pump(Server, serverEvents, Wire(m, host, path, headers, body), requestSize, 0).faults == 0
    requires var response := Respond(handler, SeenRequest(m, host, path, headers, body));
      && WellFramed(response) && |response.body.AsBytes()| < TEN_DIGITS
      && |ResponseBytes(response)| <= responseSize
      && (|ResponseBytes(response)| < limit || (|ResponseBytes(response)| == limit && SelfDelimited(response)))
      && Pump(Client, clientEvents, ResponseBytes(response), limit, 0).faults < maxRetries
    ensures var response := Respond(handler, SeenRequest(m, host, path, headers, body));
      var written := ServerRun(handler, serverEvents, Wire(m, host, path, headers, body), requestSize, responseSize);
      && written == Ok(ResponseBytes(response))
      && var got := ClientRun(clientEvents, written.value, limit, maxRetries);
      && (got.Panic? <==> response.headers == [] && response.body.AsBytes() == [])
      && (!got.Panic? ==>
        && got.Ok?
        && StatusNumber(got.value.0.status) == StatusNumber(response.status)
        && got.value.0.body.AsBytes() == response.body.AsBytes()
        && got.value.0.headers == FirstHeaders(PrintedHeaders(response, true)))
  {
    hide Pump, ClientRun, ServerRun, ResponseBytes, WellFramed, SelfDelimited, GoodRequest, Wire, BuildOutcome,
      ParseBody, StatusOf, StatusNumber, Respond, SeenRequest;
    var response := Respond(handler, SeenRequest(m, host, path, headers, body));
    HandlerSeesRequest(handler, m, host, path, headers, body, serverEvents, requestSize, responseSize);
    BuildIsExactFit(response, responseSize);
    ClientGetsResponse(response, clientEvents, limit, maxRetries);
    StatusRoundTrip(response.status);
    ParseBodyKeepsBytes(FirstHeaders(PrintedHeaders(response, true)), response.body.AsBytes());
  }

  /**
   The whole conversation, from the client's call to its result. The connection
   carries to each side what the other writes: the server receives the wire form
   of the request, the client what the server run prints. Then both sides write
   exactly that, the server reports success, and the client gets the response.
   */
  method Converse(
    client: Stream, server: Stream, handler: HttpRequest -> Option<HttpResponse>,
    m: HttpMethod, host: bytes, path: bytes, headers: seq<Header>, body: Option<bytes>,
    headSize: nat, buffer: array<byte>, maxRetries: nat, requestSize: nat, responseSize: nat
  ) returns (served: Outcome<()>, got: Outcome<(HttpResponse, nat)>)
    requires client.Valid() && client.room.None? && !client.flushFails
    requires server.Valid() && server.room.None? && !server.flushFails && server != client
    requires GoodRequest(host, path, headers, body) && !CannotPrint(headSize, m, host, path, headers, body)
    requires |Wire(m, host, path, headers, body)| <= requestSize < USIZE_MAX
    requires server.Unread() == Wire(m, host, path, headers, body)
    requires Pump(Server, server.events, server.Unread(), requestSize, 0).faults == 0
    requires var response := Respond(handler, SeenRequest(m, host, path, headers, body));
      && WellFramed(response) && |response.body.AsBytes()| < TEN_DIGITS
      && |ResponseBytes(response)| <= responseSize
      && (|ResponseBytes(response)| < buffer.Length
          || (|ResponseBytes(response)| == buffer.Length && SelfDelimited(response)))
      && client.Unread() == ResponseBytes(response)
    requires Pump(Client, client.events, client.Unread(), buffer.Length, 0).faults < maxRetries
    modifies client, server, buffer
    ensures client.written == old(client.written) + old(server.Unread())
    ensures served == Ok(()) && server.written == old(server.written) + old(client.Unread())
    ensures var response := Respond(handler, SeenRequest(m, host, path, headers, body));
      && (got.Panic? <==> response.headers == [] && response.body.AsBytes() == [])
      && (!got.Panic? ==>
        && got.Ok?
        && StatusNumber(got.value.0.status) == StatusNumber(response.status)
        && got.value.0.body.AsBytes() == response.body.AsBytes()
        && got.value.0.headers == FirstHeaders(PrintedHeaders(response, true)))
  {
    hide Pump, ClientRun, ServerRun, ClientDelays, ResponseBytes, WellFramed, SelfDelimited, GoodRequest, Wire,
      CannotPrint, Respond, SeenRequest, PrintedHeaders, StatusNumber, FirstHeaders;
    EndToEnd(handler, m, host, path, headers, body, server.events, requestSize, responseSize,
             client.events, buffer.Length, maxRetries);
    var delays;
    got, delays := Request(client, m, host, path, headers, body, headSize, buffer, maxRetries);
    served := HandleConnection(server, handler, requestSize, responseSize);
  }

  // ----- What a handler's result means -----

  /** A handler's response is what is printed. */
  lemma AnswerIsPrinted(
    handler: HttpRequest -> Option<HttpResponse>, response: HttpResponse,
    m: HttpMethod, host: bytes, path: bytes, headers: seq<Header>, body: Option<bytes>,
    events: seq<ReadEvent>, requestSize: nat, responseSize: nat)
    requires GoodRequest(host, path, headers, body)
    requires requestSize >= |Wire(m, host, path, headers, body)|
    requires Pump(Server, events, Wire(m, host, path, headers, body), requestSize, 0).faults == 0
    requires handler(SeenRequest(m, host, path, headers, body)) == Some(response)
    ensures ServerRun(handler, events, Wire(m, host, path, headers, body), requestSize, responseSize)
      == BuildOutcome(response, responseSize)
  {
    hide GoodRequest, Wire, Pump, ServerRun, BuildOutcome, SeenRequest;
    HandlerSeesRequest(handler, m, host, path, headers, body, events, requestSize, responseSize);
  }

  /** The headers of the response for a failed handler. */
  function FailureHeaders(): seq<Header> {
    [Header(Ascii("Content-Type"), Ascii("text/plain")), Header(Ascii("Content-Length"), [50, 49])]
  }

  /** Its body. */
  function FailureText(): bytes {
    Ascii("Internal Server Error")
  }

  /** What a client gets for a failed handler. */
  predicate ShowsFailure(got: Outcome<(HttpResponse, nat)>) {
    && got.Ok?
    && StatusNumber(got.value.0.status) == 500
    && got.value.0.headers == FailureHeaders()
    && got.value.0.body.AsBytes() == FailureText()
  }

  lemma FailureIsPrintable()
    ensures AllPrintable(INTERNAL_ERROR.headers)
  {
    hide Text.ValidUtf8, Text.Trimmed, Text.NoSpace;
    Text.WordsAreSolid(CONTENT_TYPE);
    Text.WordsAreSolid(Ascii("text/plain"));
    assert Printable(INTERNAL_ERROR.headers[0]);
  }

  lemma FailureLookups()
    ensures StatusNumber(INTERNAL_ERROR.status) == 500 && INTERNAL_ERROR.body.AsBytes() == FailureText()
    ensures Lookup(INTERNAL_ERROR.headers, CONTENT_LENGTH).None?
    ensures Lookup(INTERNAL_ERROR.headers, TRANSFER_ENCODING).None?
    ensures INTERNAL_ERROR.headers == [FailureHeaders()[0]] && |FailureText()| == 21
  {
    var h := INTERNAL_ERROR.headers[0];
    assert INTERNAL_ERROR.headers[1..] == [];
    assert !EqIgnoreCase(h.name, CONTENT_LENGTH) && !EqIgnoreCase(h.name, TRANSFER_ENCODING);
  }

  lemma TwentyOne()
    ensures Decimal(21) == [50, 49] && Decimal(500) == [53, 48, 48]
  {
    assert Decimal(2) == [50] && Decimal(5) == [53] && Decimal(50) == [53, 48];
  }

  lemma FailureHeadersPrinted()
    ensures PrintedHeaders(INTERNAL_ERROR, true) == FailureHeaders()
    ensures FirstHeaders(PrintedHeaders(INTERNAL_ERROR, true)) == FailureHeaders()
  {
    hide Lookup, Decimal, INTERNAL_ERROR, FailureText;
    FailureLookups();
    TwentyOne();
  }

  lemma FailureStatusSize()
    ensures |StatusLine(INTERNAL_ERROR.status)| == 34
  {
    TwentyOne();
    hide Decimal;
  }

  lemma JoinThree(a: bytes, b: bytes, c: bytes)
    ensures |JoinLines([a, b, c])| == |a| + |b| + |c| + 6
  {
    assert [a, b, c][1..] == [b, c] && [b, c][1..] == [c];
    JoinOne(c);
  }

  lemma FailureSize()
    ensures |ResponseBytes(INTERNAL_ERROR)| == 105
  {
    hide Lookup, Decimal, PrintedHeaders, INTERNAL_ERROR;
    FailureLookups();
    FailureHeadersPrinted();
    TwentyOne();
    FailureStatusSize();
    var hs := FailureHeaders();
    var first := StatusLine(INTERNAL_ERROR.status);
    assert [first] + HeaderLines(hs) == [first, HeaderLine(hs[0]), HeaderLine(hs[1])];
    JoinThree(first, HeaderLine(hs[0]), HeaderLine(hs[1]));
  }

  /** The response for a failed handler is well framed and takes 105 bytes. */
  lemma FailureResponse()
    ensures WellFramed(INTERNAL_ERROR) && SelfDelimited(INTERNAL_ERROR) && |ResponseBytes(INTERNAL_ERROR)| == 105
    ensures StatusNumber(INTERNAL_ERROR.status) == 500 && INTERNAL_ERROR.body.AsBytes() == FailureText()
    ensures FirstHeaders(PrintedHeaders(INTERNAL_ERROR, true)) == FailureHeaders()
    ensures |INTERNAL_ERROR.body.AsBytes()| < TEN_DIGITS && INTERNAL_ERROR.body.AsBytes() != []
  {
    hide INTERNAL_ERROR, ResponseBytes, AllPrintable, Lookup, PrintedHeaders, FailureText, FailureHeaders;
    FailureIsPrintable();
    FailureLookups();
    FailureHeadersPrinted();
    FailureSize();
  }

  /**
   A failed handler as the client sees it: status 500, a plain text content type,
   the length of the text and the text.
   */
  lemma FailureIsReported(
    handler: HttpRequest -> Option<HttpResponse>,
    m: HttpMethod, host: bytes, path: bytes, headers: seq<Header>, body: Option<bytes>,
    serverEvents: seq<ReadEvent>, requestSize: nat, responseSize: nat,
    clientEvents: seq<ReadEvent>, limit: nat, maxRetries: nat)
    requires GoodRequest(host, path, headers, body)
    requires requestSize >= |Wire(m, host, path, headers, body)|
    requires Pump(Server, serverEvents, Wire(m, host, path, headers, body), requestSize, 0).faults == 0
    requires handler(SeenRequest(m, host, path, headers, body)) == None && responseSize >= 105 && limit >= 105
    ensures var wire := Wire(m, host, path, headers, body);
      var written := ServerRun(handler, serverEvents, wire, requestSize, responseSize);
      && written.Ok? && |written.value| == 105
      && (Pump(Client, clientEvents, written.value, limit, 0).faults < maxRetries
          ==> ShowsFailure(ClientRun(clientEvents, written.value, limit, maxRetries)))
  {
    hide GoodRequest, Wire, Pump, ServerRun, ClientRun, BuildOutcome, SeenRequest, ResponseBytes, WellFramed,
      SelfDelimited, INTERNAL_ERROR, StatusNumber, PrintedHeaders, FirstHeaders, FailureText, FailureHeaders;
    FailureResponse();
    HandlerSeesRequest(handler, m, host, path, headers, body, serverEvents, requestSize, responseSize);
    BuildIsExactFit(INTERNAL_ERROR, responseSize);
    var written := ServerRun(handler, serverEvents, Wire(m, host, path, headers, body), requestSize, responseSize);
    if Pump(Client, clientEvents, written.value, limit, 0).faults < maxRetries {
      EndToEnd(handler, m, host, path, headers, body, serverEvents, requestSize, responseSize,
               clientEvents, limit, maxRetries);
    }
  }

  // ----- Chunked responses -----

  /** A chunked response as some other server sends it: printable head, chunks, last chunk. */
  ghost predicate ChunkedResponse(
    status: StatusCode, hs: seq<Header>, cs: seq<Chunk>, last: Chunk)
  {
    && AllPrintable(hs) && DataChunks(cs) && SizeLine(last, 0)
    && Lookup(hs, TRANSFER_ENCODING).Some? && ListsChunked(Lookup(hs, TRANSFER_ENCODING).value)
    && |Message(Head(StatusLine(status), hs), cs, last)| <= USIZE_MAX
  }

  lemma ChunkedResponseIsMessage(
    status: StatusCode, hs: seq<Header>, cs: seq<Chunk>, last: Chunk)
    requires ChunkedResponse(status, hs, cs, last)
    ensures IsMessage(Head(StatusLine(status), hs), cs, last) && hs != []
  {
    hide StatusLine, Fields, IsChunkedHead, ListsChunked, AllPrintable, SizeLine, DataChunks, Head, FirstLine;
    StatusLineIsGood(status);
    PrintedHeadIsChunked(StatusLine(status), hs);
  }

  /**
   The client on a chunked response: under every schedule that leaves retries it
   gets the status, the first sixteen headers and exactly the concatenated
   payloads, provided the end marker does not turn up before the last payload byte.
   */
  lemma ClientGetsChunked(
    status: StatusCode, hs: seq<Header>, cs: seq<Chunk>, last: Chunk,
    events: seq<ReadEvent>, limit: nat, maxRetries: nat)
    requires ChunkedResponse(status, hs, cs, last)
    requires var head := Head(StatusLine(status), hs); var m := Message(head, cs, last);
      && Pump(Client, events, m, limit, 0).faults < maxRetries
      && var marker := Find(m, CHUNKED_END_MARKER);
      marker.Some? && marker.value + 5 <= limit && (cs == [] || marker.value + 5 + 2 >= |head| + |Encode(cs)|)
    ensures var head := Head(StatusLine(status), hs);
      ClientRun(events, Message(head, cs, last), limit, maxRetries) == Ok((
        HttpResponse(StatusOf(StatusNumber(status)), FirstHeaders(hs), ParseBody(FirstHeaders(hs), Payload(cs))),
        |head| + |Payload(cs)|))
  {
    hide StatusLine, IsMessage, Message, Pump, ClientRead, Decoded, ParseResponse, Find, AllPrintable, StatusOf,
      StatusNumber, ParseBody, Encode, Payload, Head;
    var head := Head(StatusLine(status), hs);
    var m := Message(head, cs, last);
    ChunkedResponseIsMessage(status, hs, cs, last);
    ChunkedDelivery(head, cs, last, limit, maxRetries);
    assert Delivers(events, m, limit, maxRetries, head + Payload(cs));
    PrintedHeadParses(status, hs, Payload(cs));
  }

  /** Headers that make a chunked body invisible: the head ends in `0 CRLF CRLF`. */
  const AGE_ZERO: seq<Header> := [Header(TRANSFER_ENCODING, CHUNKED), Header(Ascii("Age"), [48])]

  lemma CodingIsPrintable()
    ensures Printable(Header(TRANSFER_ENCODING, CHUNKED))
  {
    hide Text.ValidUtf8, Text.Trimmed, Text.NoSpace;
    Text.WordsAreSolid(TRANSFER_ENCODING);
    Text.WordsAreSolid(CHUNKED);
  }

  lemma AgeIsPrintable()
    ensures Printable(Header(Ascii("Age"), [48]))
  {
    hide Text.ValidUtf8, Text.Trimmed, Text.NoSpace;
    Text.WordsAreSolid(Ascii("Age"));
    Text.WordsAreSolid([48]);
  }

  lemma AgeZeroIsPrintable()
    ensures AllPrintable(AGE_ZERO)
  {
    hide Printable;
    CodingIsPrintable();
    AgeIsPrintable();
  }

  lemma AgeZeroIsChunked()
    ensures Lookup(AGE_ZERO, TRANSFER_ENCODING) == Some(CHUNKED) && ListsChunked(CHUNKED)
  {
    hide ListsChunked;
    var c := Coding([], CHUNKED, []);
    PlainCoding(CHUNKED);
    ListsChunkedExactly([c]);
    assert CodingList([c]) == CHUNKED && EqIgnoreCase([c][0].name, CHUNKED);
  }

  /**
   A concrete response on which the proviso fails. The client may stop at the
   end of the head; it then reports success with an empty body, whatever the
   chunks hold.
   */
  lemma AgeZeroHidesBody(cs: seq<Chunk>, last: Chunk, limit: nat, maxRetries: nat)
    requires DataChunks(cs) && SizeLine(last, 0) && cs != [] && maxRetries > 0
    requires |Head(StatusLine(OK), AGE_ZERO)| <= limit
    requires |Message(Head(StatusLine(OK), AGE_ZERO), cs, last)| <= USIZE_MAX
    ensures var head := Head(StatusLine(OK), AGE_ZERO);
      ClientRun([Segment(|head|)], Message(head, cs, last), limit, maxRetries)
        == Ok((HttpResponse(OK, AGE_ZERO, EmptyBody), |head|))
    ensures Payload(cs) != []
  {
    hide StatusLine, IsMessage, Message, Pump, ClientRead, Decoded, ParseResponse, AllPrintable, Payload, Head,
      StatusOf, StatusNumber, DataChunks, SizeLine, ListsChunked, Lookup;
    var head := Head(StatusLine(OK), AGE_ZERO);
    AgeZeroIsPrintable();
    AgeZeroIsChunked();
    ChunkedResponseIsMessage(OK, AGE_ZERO, cs, last);
    PrintedZero(StatusLine(OK), AGE_ZERO);
    ZeroAtHeadEnd(head, cs, last, limit, maxRetries);
    PrintedHeadParses(OK, AGE_ZERO, []);
    assert head + [] == head;
    NamedStatusRoundTrip(OK);
    assert FirstHeaders(AGE_ZERO) == AGE_ZERO;
  }
}
