/** One request/response cycle on each side of a connection. */
module Connections {
  import opened Bytes
  import opened Numbers
  import opened Protocol
  import opened Framing
  import opened Tables
  import opened Streams
  import opened Reading
  import opened Readers
  import opened Dechunk
  import opened Requests
  import opened Responses

  // ----- The server -----

  /** The response of `text_error` for a failed handler. */
  const INTERNAL_ERROR := HttpResponse(
    InternalServerError, [Header(CONTENT_TYPE, Ascii("text/plain"))], TextBody(Ascii("Internal Server Error")))

  /** The response a handler's result stands for. */
  function Respond(handler: HttpRequest -> Option<HttpResponse>, request: HttpRequest): HttpResponse {
    match handler(request)
    case None => INTERNAL_ERROR
    case Some(response) => response
  }

  /** The bytes a server run writes: parse, handle, print. */
  function ServerRun(
    handler: HttpRequest -> Option<HttpResponse>,
    events: seq<ReadEvent>, s: bytes, requestSize: nat, responseSize: nat
  ): Outcome<bytes> {
    match ServerRead(events, s, requestSize)
    case Err(e) => Err(e)
    case Panic => Panic
    case Ok(total) =>
      match ParseRequest(s[..total])
      case Err(e) => Err(e)
      case Panic => Panic
      case Ok(request) => BuildOutcome(Respond(handler, request), responseSize)
  }

  /**
   `handle_http_connection_with_sizes`. Nothing is written unless the request
   was read and parsed and its response printed; then the whole response is,
   as far as the peer takes it.
   */
  method HandleConnection(
    stream: Stream, handler: HttpRequest -> Option<HttpResponse>, requestSize: nat, responseSize: nat
  ) returns (r: Outcome<()>)
    requires stream.Valid() && requestSize < USIZE_MAX
    modifies stream
    ensures stream.Valid()
    ensures
      match ServerRun(handler, old(stream.events), old(stream.Unread()), requestSize, responseSize)
      case Err(e) => r == Err(e) && stream.written == old(stream.written)
      case Panic => r == Panic && stream.written == old(stream.written)
      case Ok(response) =>
        && stream.written == old(stream.written) + old(stream.Accepted(response))
        && r == if old(stream.Accepted(response)) == response && !stream.flushFails then Ok(()) else Err(TcpError)
    ensures old(stream.room).None? ==>
      var run := ServerRun(handler, old(stream.events), old(stream.Unread()), requestSize, responseSize);
      stream.written == old(stream.written) + if run.Ok? then run.value else []
  {
    hide Done, Pump, ServerRead, ParseRequest, BuildOutcome;
    ghost var s := stream.Unread();
    var requestBuffer := new byte[requestSize](_ => 0);
    var read := ReadRequest(stream, requestBuffer);
    var total;
    match read {
      case Ok(n) => total := n;
      case Err(e) => return Err(e);
      case Panic => return Panic;
    }
    assert requestBuffer[..total] == s[..total];
    var parsed := TryFrom(requestBuffer[..total]);
    var request;
    match parsed {
      case Ok(q) => request := q;
      case Err(e) => return Err(e);
      case Panic => return Panic;
    }
    var built := BuildBytes(Respond(handler, request), responseSize);
    var response;
    match built {
      case Ok(bytes) => response := bytes;
      case Err(e) => return Err(e);
      case Panic => return Panic;
    }
    var ok := stream.WriteAll(response);
    if !ok {
      return Err(TcpError);
    }
    ok := stream.Flush();
    return if ok then Ok(()) else Err(TcpError);
  }

  // ----- The client -----

  /** What the client makes of the bytes it received. */
  function Interpret(data: bytes): Outcome<(HttpResponse, nat)> {
    var decoding := Decoded(data);
    match DecodedLength(decoding)
    case Err(e) => Err(e)
    case Panic => Panic
    case Ok(n) =>
      match ParseResponse(decoding.output)
      case Err(e) => Err(e)
      case Panic => Panic
      case Ok(response) => Ok((response, n))
  }

  /** The client's result on a stream that delivers `s`: read, decode, parse. */
  function ClientRun(events: seq<ReadEvent>, s: bytes, limit: nat, maxRetries: nat): Outcome<(HttpResponse, nat)> {
    match ClientRead(events, s, limit, maxRetries)
    case Err(e) => Err(e)
    case Panic => Panic
    case Ok(total) => Interpret(s[..total])
  }

  /** What a request puts on the wire: its head, then its body. */
  function Wire(m: HttpMethod, host: bytes, path: bytes, headers: seq<Header>, body: Option<bytes>): bytes {
    RequestHead(m, host, path, headers, body) + if body.Some? then body.value else []
  }

  /** The request head cannot be printed into `capacity` bytes. */
  predicate CannotPrint(
    capacity: nat, m: HttpMethod, host: bytes, path: bytes, headers: seq<Header>, body: Option<bytes>)
  {
    |RequestHead(m, host, path, headers, body)| > capacity || LengthTooLong(headers, body)
  }

  /** Write the head, then the body if there is one, then flush. */
  method SendRequest(stream: Stream, head: bytes, body: Option<bytes>) returns (ok: bool)
    modifies stream`written, stream`room
    ensures var wire := head + if body.Some? then body.value else [];
      && stream.written == old(stream.written) + old(stream.Accepted(wire))
      && (ok <==> old(stream.Accepted(wire)) == wire && !stream.flushFails)
  {
    ok := stream.WriteAll(head);
    if !ok {
      return;
    }
    if body.Some? {
      ok := stream.WriteAll(body.value);
      if !ok {
        return;
      }
    }
    ok := stream.Flush();
  }

  /**
   `request_with_retry_delay`: print, write, flush, read, decode, parse. If the
   request cannot be printed nothing happens; if it cannot be written nothing is read.
   */
  method Request(
    stream: Stream, m: HttpMethod, host: bytes, path: bytes, headers: seq<Header>, body: Option<bytes>,
    requestSize: nat, buffer: array<byte>, maxRetries: nat
  ) returns (r: Outcome<(HttpResponse, nat)>, delays: nat)
    requires stream.Valid()
    modifies stream, buffer
    ensures stream.Valid()
    ensures var wire := Wire(m, host, path, headers, body);
      if CannotPrint(requestSize, m, host, path, headers, body) then
        && r == Err(BufferOverflow) && delays == 0
        && stream.written == old(stream.written) && stream.position == old(stream.position)
        && buffer[..] == old(buffer[..])
      else if old(stream.Accepted(wire)) != wire || stream.flushFails then
        && r == Err(TcpError) && delays == 0
        && stream.written == old(stream.written) + old(stream.Accepted(wire)) && stream.position == old(stream.position)
        && buffer[..] == old(buffer[..])
      else
        && r == ClientRun(old(stream.events), old(stream.Unread()), buffer.Length, maxRetries)
        && delays == ClientDelays(old(stream.events), old(stream.Unread()), buffer.Length, maxRetries)
        && stream.written == old(stream.written) + wire
  {
    hide RequestHead, LengthTooLong, ClientRead, ClientDelays, Decoded, ParseResponse, Pump;
    ghost var wire := Wire(m, host, path, headers, body);
    delays := 0;
    var built := BuildRequest(requestSize, m, host, path, headers, body);
    var head;
    match built {
      case Ok(bytes) => head := bytes;
      case Err(e) => return Err(e), delays;
    }
    var sent := SendRequest(stream, head, body);
    if !sent {
      return Err(TcpError), delays;
    }
    ghost var s := stream.Unread();
    var read;
    read, delays := ReadResponse(stream, buffer, maxRetries);
    var total;
    match read {
      case Ok(n) => total := n;
      case Err(e) => return Err(e), delays;
      case Panic => return Panic, delays;
    }
    assert buffer[..total] == s[..total];
    var decoded := DecodeInPlace(buffer, total);
    ghost var decoding := Decoded(s[..total]);
    match decoded {
      case Ok(n) => total := n;
      case Err(e) => return Err(e), delays;
      case Panic => return Panic, delays;
    }
    assert buffer[..total] == decoding.output;
    var parsed := ParseResp(buffer[..total]);
    match parsed {
      case Ok(response) => return Ok((response, total)), delays;
      case Err(e) => return Err(e), delays;
      case Panic => return Panic, delays;
    }
  }
}
