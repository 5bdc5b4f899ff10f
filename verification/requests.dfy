/** Requests: `build_req` of `src/codec.rs` against the parser of `src/request.rs`. */
module Requests {
  import opened Bytes
  import opened Text
  import opened Numbers
  import opened Protocol
  import opened Framing
  import opened Tables
  import opened Buffers
  import opened Heads

  datatype HttpRequest = HttpRequest(
    method_: HttpMethod,
    path: bytes,
    version: bytes,
    headers: seq<Header>,
    body: bytes
  ) {
    /** `HttpRequest::content_length`. */
    function DeclaredLength(): Option<nat> {
      LengthField(headers)
    }
  }

  // ----- Parsing -----

  function WithoutCr(line: bytes): bytes {
    if line != [] && line[|line| - 1] == CR then line[..|line| - 1] else line
  }

  /** `str::lines`, collected. */
  function TextLines(s: bytes): seq<bytes>
    decreases |s|
  {
    if s == [] then [] else
    match IndexOf(s, LF)
    case None => [s]
    case Some(p) => [WithoutCr(s[..p])] + TextLines(s[p + 1..])
  }

  /** The lines in front of the first empty one. */
  function UntilBlank(lines: seq<bytes>): seq<bytes> {
    if lines == [] || lines[0] == [] then [] else [lines[0]] + UntilBlank(lines[1..])
  }

  /** The request line: method, path and version. */
  function RequestLine(lines: seq<bytes>): Outcome<(HttpMethod, bytes, bytes)> {
    if lines == [] then Err(InvalidResponse("Missing request line")) else
    var parts := Words(lines[0]);
    if |parts| < 1 then Err(InvalidResponse("Missing method"))
    else if |parts| < 2 then Err(InvalidResponse("Missing path"))
    else if |parts| < 3 then Err(InvalidResponse("Missing version"))
    else match MethodOf(parts[0])
      case None => Err(InvalidResponse("Unknown HTTP method"))
      case Some(m) => Ok((m, parts[1], parts[2]))
  }

  const TOO_MANY_HEADERS := InvalidResponse("Too many headers")

  /** What `HttpRequest::parse_from` answers. */
  function RequestFrom(head: bytes, body: bytes): Outcome<HttpRequest> {
    var lines := TextLines(head);
    match RequestLine(lines)
    case Err(e) => Err(e)
    case Panic => Panic
    case Ok((m, path, version)) =>
      var headers := Fields(UntilBlank(lines[1..]));
      if |headers| > MAX_HEADERS then Err(TOO_MANY_HEADERS)
      else Ok(HttpRequest(m, path, version, headers, body))
  }

  lemma NoLineNoRequest(lines: seq<bytes>)
    requires RequestLine(lines).Ok?
    ensures lines != []
  {
  }

  /** `HttpRequest::parse_from`: headers are pushed one by one into a vector of sixteen. */
  method ParseFrom(head: bytes, body: bytes) returns (r: Outcome<HttpRequest>)
    ensures r == RequestFrom(head, body)
  {
    hide Field, RequestLine, TextLines;
    var lines := TextLines(head);
    var line;
    match RequestLine(lines) {
      case Ok(l) => line := l;
      case Err(e) => return Err(e);
      case Panic => return Panic;
    }
    NoLineNoRequest(lines);
    var headers: seq<Header> := [];
    ghost var all := Fields(UntilBlank(lines[1..]));
    var i := 1;
    while i < |lines|
      invariant 1 <= i <= |lines| && |headers| <= MAX_HEADERS
      invariant all == headers + Fields(UntilBlank(lines[i..]))
    {
      assert lines[i..][0] == lines[i] && lines[i..][1..] == lines[i + 1..];
      if lines[i] == [] {
        break;
      }
      assert UntilBlank(lines[i..])[1..] == UntilBlank(lines[i + 1..]);
      match Field(lines[i]) {
        case None =>
        case Some(h) =>
          if |headers| == MAX_HEADERS {
            return Err(TOO_MANY_HEADERS);
          }
          headers := headers + [h];
      }
      i := i + 1;
    }
    assert all == headers;
    return Ok(HttpRequest(line.0, line.1, line.2, headers, body));
  }

  /** `HttpRequest::try_from(&[u8])`. */
  function ParseRequest(data: bytes): Outcome<HttpRequest> {
    match FindDoubleCrlf(data)
    case None => Err(InvalidResponse("Incomplete request headers"))
    case Some(d) =>
      if !ValidUtf8(data[..d]) then Err(InvalidResponse("Invalid UTF-8 in request"))
      else RequestFrom(data[..d], data[d + 4..])
  }

  method TryFrom(data: bytes) returns (r: Outcome<HttpRequest>)
    ensures r == ParseRequest(data)
  {
    hide RequestFrom, ValidUtf8;
    match FindDoubleCrlf(data) {
      case None => return Err(InvalidResponse("Incomplete request headers"));
      case Some(d) =>
        if !ValidUtf8(data[..d]) {
          return Err(InvalidResponse("Invalid UTF-8 in request"));
        }
        r := ParseFrom(data[..d], data[d + 4..]);
    }
  }

  // ----- Printing -----

  const HOST: bytes := Ascii("Host")
  const CONNECTION: bytes := Ascii("Connection")
  const CLOSE: bytes := Ascii("close")

  function FirstLineOf(m: HttpMethod, path: bytes): bytes {
    MethodText(m) + [SPACE] + path + [SPACE] + HTTP_VERSION
  }

  /** The caller's headers leave room for an automatic `Content-Length`. */
  predicate SendsLength(headers: seq<Header>, body: Option<bytes>) {
    body.Some? && Lookup(headers, CONTENT_LENGTH).None?
  }

  /** All headers of a printed request, in order. */
  function SentHeaders(host: bytes, headers: seq<Header>, body: Option<bytes>): seq<Header> {
    [Header(HOST, host)] + headers
    + (if SendsLength(headers, body) then [Header(CONTENT_LENGTH, Decimal(|body.value|))] else [])
    + [Header(CONNECTION, CLOSE)]
  }

  /** The head of a request. */
  function RequestHead(m: HttpMethod, host: bytes, path: bytes, headers: seq<Header>, body: Option<bytes>): bytes {
    Head(FirstLineOf(m, path), SentHeaders(host, headers, body))
  }

  /** The body length does not fit the eight digits the printer has room for. */
  predicate LengthTooLong(headers: seq<Header>, body: Option<bytes>) {
    SendsLength(headers, body) && |body.value| >= 100_000_000
  }

  lemma FirstPieces(m: HttpMethod, path: bytes)
    ensures Concat([MethodText(m), [SPACE], path, [SPACE], HTTP_VERSION, CRLF]) == FirstLineOf(m, path) + CRLF
  {
    hide MethodText;
    var p := [MethodText(m), [SPACE], path, [SPACE], HTTP_VERSION, CRLF];
    ConcatAppend([MethodText(m), [SPACE], path], [[SPACE], HTTP_VERSION, CRLF]);
    assert p == [MethodText(m), [SPACE], path] + [[SPACE], HTTP_VERSION, CRLF];
    ConcatThree(MethodText(m), [SPACE], path);
    ConcatThree([SPACE], HTTP_VERSION, CRLF);
  }

  lemma JoinTwo(a: bytes, b: bytes)
    ensures JoinLines([a, b]) == a + CRLF + (b + CRLF)
  {
    assert [a, b][1..] == [b];
    JoinOne(b);
  }

  /** The head as the concatenation of everything `build_req` pushes. */
  lemma RequestPieces(m: HttpMethod, host: bytes, path: bytes, headers: seq<Header>, body: Option<bytes>)
    ensures RequestHead(m, host, path, headers, body) ==
      Concat([MethodText(m), [SPACE], path, [SPACE], HTTP_VERSION, CRLF] + LinePieces(Header(HOST, host)))
      + JoinLines(HeaderLines(headers))
      + (if SendsLength(headers, body) then Concat(LinePieces(Header(CONTENT_LENGTH, Decimal(|body.value|)))) else [])
      + Concat(LinePieces(Header(CONNECTION, CLOSE)) + [CRLF])
  {
    hide Lookup, Decimal, MethodText, LinePieces, HeaderLine;
    var first := [MethodText(m), [SPACE], path, [SPACE], HTTP_VERSION, CRLF];
    var host', close := Header(HOST, host), Header(CONNECTION, CLOSE);
    var auto := if SendsLength(headers, body) then [Header(CONTENT_LENGTH, Decimal(|body.value|))] else [];
    FirstPieces(m, path);
    ConcatAppend(first, LinePieces(host'));
    ConcatAppend(LinePieces(close), [CRLF]);
    assert Concat([CRLF]) == CRLF;
    PiecesOfLine(host');
    PiecesOfLine(close);
    var sent := SentHeaders(host, headers, body);
    var l := FirstLineOf(m, path);
    assert [l] + HeaderLines(sent)
      == [l, HeaderLine(host')] + HeaderLines(headers) + HeaderLines(auto) + [HeaderLine(close)];
    JoinAppend([l, HeaderLine(host')] + HeaderLines(headers) + HeaderLines(auto), [HeaderLine(close)]);
    JoinAppend([l, HeaderLine(host')] + HeaderLines(headers), HeaderLines(auto));
    JoinAppend([l, HeaderLine(host')], HeaderLines(headers));
    JoinTwo(l, HeaderLine(host'));
    JoinOne(HeaderLine(close));
    if SendsLength(headers, body) {
      PiecesOfLine(auto[0]);
      assert HeaderLines(auto) == [HeaderLine(auto[0])];
      JoinOne(HeaderLine(auto[0]));
    }
  }

  /** `build_req`: the head, or `BufferOverflow` when it or its length field does not fit. */
  method BuildRequest(
    capacity: nat, m: HttpMethod, host: bytes, path: bytes, headers: seq<Header>, body: Option<bytes>
  ) returns (r: Outcome<bytes>)
    ensures var head := RequestHead(m, host, path, headers, body);
      r == if |head| > capacity || LengthTooLong(headers, body) then Err(BufferOverflow) else Ok(head)
  {
    hide Lookup, EqIgnoreCase, Decimal, MethodText, RequestHead, Concat, JoinLines, HeaderLines;
    ghost var head := RequestHead(m, host, path, headers, body);
    ghost var first := [MethodText(m), [SPACE], path, [SPACE], HTTP_VERSION, CRLF];
    RequestPieces(m, host, path, headers, body);
    var req := new BoundedBuffer(capacity);
    var ok := req.PushAll([MethodText(m), [SPACE], path, [SPACE], HTTP_VERSION, CRLF] + LinePieces(Header(HOST, host)));
    if !ok {
      return Err(BufferOverflow);
    }
    var hasLength;
    ok, hasLength := WriteHeaders(req, headers);
    if !ok {
      return Err(BufferOverflow);
    }
    ghost var fields := req.contents;
    ghost var auto := if SendsLength(headers, body)
      then Concat(LinePieces(Header(CONTENT_LENGTH, Decimal(|body.value|)))) else [];
    ghost var last := Concat(LinePieces(Header(CONNECTION, CLOSE)) + [CRLF]);
    assert head == fields + auto + last;
    if !hasLength && body.Some? {
      PowersOfTen();
      DecimalLength(|body.value|, 8);
      var length := Decimal(|body.value|);
      if |length| > 8 {
        return Err(BufferOverflow);
      }
      ok := req.PushAll(LinePieces(Header(CONTENT_LENGTH, length)));
      if !ok {
        return Err(BufferOverflow);
      }
    }
    assert req.contents == fields + auto;
    ok := req.PushAll(LinePieces(Header(CONNECTION, CLOSE)) + [CRLF]);
    if !ok {
      return Err(BufferOverflow);
    }
    return Ok(req.contents);
  }
}
