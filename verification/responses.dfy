/** Responses: the printer of `src/response.rs` and `parse_resp` of `src/codec.rs`. */
module Responses {
  import opened Bytes
  import opened Text
  import opened Numbers
  import opened Protocol
  import opened Framing
  import opened Tables
  import opened Buffers
  import opened Heads

  /** `Text` bodies are valid UTF-8; `Binary` ones are any bytes. */
  datatype ResponseBody = TextBody(text: bytes) | BinaryBody(data: bytes) | EmptyBody {
    function AsBytes(): bytes {
      match this
      case TextBody(text) => text
      case BinaryBody(data) => data
      case EmptyBody => []
    }
  }

  datatype HttpResponse = HttpResponse(status: StatusCode, headers: seq<Header>, body: ResponseBody) {
    /** `HttpResponse::content_length`. */
    function DeclaredLength(): Option<nat> {
      LengthField(headers)
    }
  }

  // ----- Parsing -----

  const BAD_FORMAT := InvalidResponse("Invalid HTTP response format")
  const BAD_HEAD_ENCODING := InvalidResponse("Invalid HTTP response encoding")
  const BAD_STATUS_LINE := InvalidResponse("Invalid HTTP status line")

  /** `is_text`. */
  predicate IsText(contentType: bytes) {
    || Ascii("text/") <= contentType
    || Ascii("application/json") <= contentType
    || Ascii("application/xml") <= contentType
    || Ascii("application/x-www-form-urlencoded") <= contentType
  }

  function TextOrBinary(data: bytes): ResponseBody {
    if ValidUtf8(data) then TextBody(data) else BinaryBody(data)
  }

  /** `parse_body`. */
  function ParseBody(headers: seq<Header>, data: bytes): ResponseBody {
    if data == [] then EmptyBody else
    match Lookup(headers, CONTENT_TYPE)
    case None => TextOrBinary(data)
    case Some(t) => if IsText(t) then TextOrBinary(data) else BinaryBody(data)
  }

  /** However a body is classified, its bytes are kept. */
  lemma ParseBodyKeepsBytes(headers: seq<Header>, data: bytes)
    ensures ParseBody(headers, data).AsBytes() == data
    ensures ParseBody(headers, data).TextBody? ==> ValidUtf8(data)
  {
    hide ValidUtf8, IsText, Lookup;
  }

  /** The status a status line announces: its second word, as a number. */
  function StatusFrom(line: bytes): Outcome<StatusCode> {
    var words := Words(line);
    if |words| < 2 then Err(BAD_STATUS_LINE) else
    match ParseUnsigned(words[1], 10, 65535)
    case None => Err(InvalidStatusCode)
    case Some(n) => Ok(StatusOf(n as u16))
  }

  function FirstHeaders(hs: seq<Header>): (r: seq<Header>)
    ensures |r| <= MAX_HEADERS && r <= hs
  {
    hs[..Min(|hs|, MAX_HEADERS)]
  }

  /**
   What `parse_resp` answers. The slice between the first CRLF, at `s`, and the
   double CRLF, at `d`, is out of order when the head has no header line.
   */
  function ParseResponse(data: bytes): Outcome<HttpResponse> {
    match FindDoubleCrlf(data)
    case None => Err(BAD_FORMAT)
    case Some(d) =>
      var head := data[..d + 4];
      if !ValidUtf8(head) then Err(BAD_HEAD_ENCODING) else
      match FindCrlf(head)
      case None => Err(BAD_FORMAT)
      case Some(s) =>
        match StatusFrom(head[..s])
        case Err(e) => Err(e)
        case Panic => Panic
        case Ok(status) =>
          if s + 2 > d then Panic else
          var headers := FirstHeaders(Fields(SplitLines(head[s + 2..d])));
          Ok(HttpResponse(status, headers, ParseBody(headers, data[d + 4..])))
  }

  method PushFields(lines: seq<bytes>) returns (headers: seq<Header>)
    ensures headers == FirstHeaders(Fields(lines))
  {
    hide Field;
    headers := [];
    var i := 0;
    while i < |lines|
      invariant 0 <= i <= |lines| && |headers| <= MAX_HEADERS
      invariant Fields(lines) == headers + Fields(lines[i..])
    {
      assert lines[i..][0] == lines[i] && lines[i..][1..] == lines[i + 1..];
      match Field(lines[i]) {
        case None =>
        case Some(h) =>
          if |headers| == MAX_HEADERS {
            break;
          }
          headers := headers + [h];
      }
      i := i + 1;
    }
  }

  /** `parse_resp`: headers are pushed into a vector of sixteen; the seventeenth ends the loop. */
  method ParseResp(data: bytes) returns (r: Outcome<HttpResponse>)
    ensures r == ParseResponse(data)
  {
    hide ValidUtf8, StatusFrom, FindDoubleCrlf, FindCrlf, SplitLines, ParseBody, Field;
    var headersEnd;
    match FindDoubleCrlf(data) {
      case None => return Err(BAD_FORMAT);
      case Some(d) => headersEnd := d + 4;
    }
    var head := data[..headersEnd];
    if !ValidUtf8(head) {
      return Err(BAD_HEAD_ENCODING);
    }
    var statusLineEnd;
    match FindCrlf(head) {
      case None => return Err(BAD_FORMAT);
      case Some(s) => statusLineEnd := s;
    }
    var status;
    match StatusFrom(head[..statusLineEnd]) {
      case Ok(code) => status := code;
      case Err(e) => return Err(e);
      case Panic => return Panic;
    }
    if statusLineEnd + 2 > headersEnd - 4 {
      return Panic;
    }
    var headers := PushFields(SplitLines(head[statusLineEnd + 2..headersEnd - 4]));
    var body := if headersEnd < |data| then data[headersEnd..] else [];
    assert body == data[headersEnd..];
    return Ok(HttpResponse(status, headers, ParseBody(headers, body)));
  }

  // ----- Printing -----

  /** The status line, without its CRLF. */
  function StatusLine(s: StatusCode): bytes {
    HTTP_VERSION + [SPACE] + Decimal(StatusNumber(s) as nat) + [SPACE] + StatusText(s)
  }

  /** The printer adds a `Content-Length` of its own. */
  predicate AddsLength(r: HttpResponse) {
    Lookup(r.headers, CONTENT_LENGTH).None? && r.body.AsBytes() != []
  }

  /** All headers of a printed response, in order. */
  function PrintedHeaders(r: HttpResponse, autoLength: bool): seq<Header> {
    r.headers
    + if autoLength && AddsLength(r) then [Header(CONTENT_LENGTH, Decimal(|r.body.AsBytes()|))] else []
  }

  function ResponseHead(r: HttpResponse, autoLength: bool): bytes {
    Head(StatusLine(r.status), PrintedHeaders(r, autoLength))
  }

  /** The whole response on the wire. */
  function ResponseBytes(r: HttpResponse): bytes {
    ResponseHead(r, true) + r.body.AsBytes()
  }

  /** What is printed in front of the digits of the automatic length. */
  function BeforeLength(r: HttpResponse): bytes {
    JoinLines([StatusLine(r.status)] + HeaderLines(r.headers)) + CONTENT_LENGTH + HEADER_SEPARATOR
  }

  /** How printing a head of `size` bytes into the free `room` of a buffer ends. */
  function HeadOutcome(r: HttpResponse, autoLength: bool, room: nat): Outcome<()> {
    if autoLength && AddsLength(r) && |r.body.AsBytes()| >= TEN_DIGITS then
      if |BeforeLength(r)| <= room then Panic else Err(BufferOverflow)
    else if |ResponseHead(r, autoLength)| <= room then Ok(())
    else Err(BufferOverflow)
  }

  /** `write_status_line`. */
  method WriteStatusLine(out: BoundedBuffer, status: StatusCode) returns (ok: bool)
    requires out.Valid()
    modifies out`contents
    ensures out.Valid()
    ensures ok <==> |old(out.contents)| + |StatusLine(status)| + 2 <= out.capacity
    ensures ok ==> out.contents == old(out.contents) + (StatusLine(status) + CRLF)
  {
    hide Decimal, StatusText, StatusNumber, Concat;
    ghost var digits := Decimal(StatusNumber(status) as nat);
    ConcatTwo(HTTP_VERSION, [SPACE]);
    ok := out.PushAll([HTTP_VERSION, [SPACE]]);
    if !ok {
      return;
    }
    var written := out.WriteDecimal(StatusNumber(status) as nat);
    if !written.Ok? {
      return false;
    }
    assert digits[..|digits|] == digits;
    ConcatThree([SPACE], StatusText(status), CRLF);
    ok := out.PushAll([[SPACE], StatusText(status), CRLF]);
  }

  /** The automatic `Content-Length` line. */
  method WriteLengthLine(out: BoundedBuffer, length: nat) returns (result: Outcome<()>)
    requires out.Valid()
    modifies out`contents
    ensures out.Valid()
    ensures var room := out.capacity - |old(out.contents)|;
      result ==
        if length >= TEN_DIGITS then if |CONTENT_LENGTH| + 2 <= room then Panic else Err(BufferOverflow)
        else if |CONTENT_LENGTH| + 2 + |Decimal(length)| + 2 <= room then Ok(()) else Err(BufferOverflow)
    ensures result.Ok?
      ==> out.contents == old(out.contents) + CONTENT_LENGTH + HEADER_SEPARATOR + Decimal(length) + CRLF
  {
    hide Decimal, Concat, CONTENT_LENGTH;
    ConcatTwo(CONTENT_LENGTH, HEADER_SEPARATOR);
    var ok := out.PushAll([CONTENT_LENGTH, HEADER_SEPARATOR]);
    if !ok {
      return Err(BufferOverflow);
    }
    result := out.WriteDecimal(length);
    if !result.Ok? {
      return;
    }
    assert Decimal(length)[..|Decimal(length)|] == Decimal(length);
    ok := out.PushSlice(CRLF);
    return if ok then Ok(()) else Err(BufferOverflow);
  }

  lemma HeadOutcomes(r: HttpResponse, autoLength: bool, room: nat)
    ensures HeadOutcome(r, autoLength, room) ==
      if autoLength && AddsLength(r) && |r.body.AsBytes()| >= TEN_DIGITS then
        if |JoinLines([StatusLine(r.status)] + HeaderLines(r.headers))| + |CONTENT_LENGTH| + 2 <= room
        then Panic else Err(BufferOverflow)
      else if |ResponseHead(r, autoLength)| <= room then Ok(())
      else Err(BufferOverflow)
  {
  }

  /** The head as the concatenation of what is pushed. */
  lemma HeadParts(r: HttpResponse, autoLength: bool)
    ensures var joined := JoinLines([StatusLine(r.status)] + HeaderLines(r.headers));
      ResponseHead(r, autoLength) ==
      if autoLength && AddsLength(r)
      then joined + CONTENT_LENGTH + HEADER_SEPARATOR + Decimal(|r.body.AsBytes()|) + CRLF + CRLF
      else joined + CRLF
  {
    hide Decimal, StatusLine, JoinLines, Lookup, CONTENT_LENGTH;
    var lines := [StatusLine(r.status)] + HeaderLines(r.headers);
    if autoLength && AddsLength(r) {
      var h := Header(CONTENT_LENGTH, Decimal(|r.body.AsBytes()|));
      assert [StatusLine(r.status)] + HeaderLines(PrintedHeaders(r, autoLength)) == lines + [HeaderLine(h)];
      JoinPush(lines, HeaderLine(h));
    } else {
      assert PrintedHeaders(r, autoLength) == r.headers;
    }
  }

  lemma HeadLinesJoined(r: HttpResponse)
    ensures JoinLines([StatusLine(r.status)] + HeaderLines(r.headers))
      == StatusLine(r.status) + CRLF + JoinLines(HeaderLines(r.headers))
  {
    hide StatusLine, HeaderLines;
    JoinOne(StatusLine(r.status));
    JoinAppend([StatusLine(r.status)], HeaderLines(r.headers));
  }

  /** The status line and the header lines, into an empty buffer. */
  method WriteLines(out: BoundedBuffer, r: HttpResponse) returns (ok: bool, hasLength: bool)
    requires out.Valid() && out.contents == []
    modifies out`contents
    ensures out.Valid()
    ensures var lines := JoinLines([StatusLine(r.status)] + HeaderLines(r.headers));
      && (ok <==> |lines| <= out.capacity)
      && (ok ==> out.contents == lines && (hasLength <==> Lookup(r.headers, CONTENT_LENGTH).Some?))
  {
    hide StatusLine, JoinLines, HeaderLines, Lookup, CONTENT_LENGTH;
    HeadLinesJoined(r);
    hasLength := false;
    ok := WriteStatusLine(out, r.status);
    if ok {
      ok, hasLength := WriteHeaders(out, r.headers);
    }
  }

  /** `write_head_bytes`, into an empty buffer. */
  method WriteHead(out: BoundedBuffer, r: HttpResponse, autoLength: bool) returns (result: Outcome<()>)
    requires out.Valid() && out.contents == []
    modifies out`contents
    ensures out.Valid()
    ensures result == HeadOutcome(r, autoLength, out.capacity)
    ensures result.Ok? ==> out.contents == ResponseHead(r, autoLength)
  {
    hide Decimal, StatusLine, JoinLines, HeaderLines, Lookup, CONTENT_LENGTH, ResponseHead, HeadOutcome;
    HeadOutcomes(r, autoLength, out.capacity);
    HeadParts(r, autoLength);
    var ok, hasLength := WriteLines(out, r);
    if !ok {
      return Err(BufferOverflow);
    }
    var length := |r.body.AsBytes()|;
    if autoLength && !hasLength && length > 0 {
      result := WriteLengthLine(out, length);
      if !result.Ok? {
        return;
      }
    }
    ok := out.PushSlice(CRLF);
    return if ok then Ok(()) else Err(BufferOverflow);
  }

  function BuildOutcome(r: HttpResponse, capacity: nat): Outcome<bytes> {
    match HeadOutcome(r, true, capacity)
    case Err(e) => Err(e)
    case Panic => Panic
    case Ok(_) => if |ResponseBytes(r)| <= capacity then Ok(ResponseBytes(r)) else Err(BufferOverflow)
  }

  /**
   `build_bytes`: the whole response or nothing. Below ten billion body bytes
   it succeeds exactly when the response fits.
   */
  method BuildBytes(r: HttpResponse, capacity: nat) returns (result: Outcome<bytes>)
    ensures result == BuildOutcome(r, capacity)
  {
    hide ResponseHead, HeadOutcome;
    var out := new BoundedBuffer(capacity);
    var head := WriteHead(out, r, true);
    match head {
      case Ok(_) =>
      case Err(e) => return Err(e);
      case Panic => return Panic;
    }
    var ok := out.PushSlice(r.body.AsBytes());
    return if ok then Ok(out.contents) else Err(BufferOverflow);
  }

  /** `build_head_bytes`: the head alone, for streaming. */
  method BuildHeadBytes(r: HttpResponse, capacity: nat) returns (result: Outcome<bytes>)
    ensures result ==
      if |ResponseHead(r, false)| <= capacity then Ok(ResponseHead(r, false)) else Err(BufferOverflow)
  {
    hide ResponseHead;
    var out := new BoundedBuffer(capacity);
    var head := WriteHead(out, r, false);
    match head {
      case Ok(_) => return Ok(out.contents);
      case Err(e) => return Err(e);
    }
  }

  /** Exact fit: with a length of at most ten digits, success means fitting and nothing else. */
  lemma BuildIsExactFit(r: HttpResponse, capacity: nat)
    requires |r.body.AsBytes()| < TEN_DIGITS
    ensures BuildOutcome(r, capacity)
      == if |ResponseBytes(r)| <= capacity then Ok(ResponseBytes(r)) else Err(BufferOverflow)
  {
    hide ResponseHead;
  }
}
