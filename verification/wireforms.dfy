/** What the constants of the source are on the wire, spelled out as literal text. */
module WireForms {
  import opened Bytes
  import opened Numbers
  import opened Protocol
  import opened Tables
  import opened Buffers
  import opened Heads
  import opened Dechunk
  import opened ChunkedBody
  import opened Requests
  import opened Responses
  import opened Queries

  /** The bytes of an ASCII text, control characters included. */
  function Octets(s: string): bytes
    requires forall i :: 0 <= i < |s| ==> s[i] as int < 128
  {
    seq(|s|, i requires 0 <= i < |s| && s[i] as int < 128 => s[i] as int as byte)
  }

  lemma AsciiIsOctets(s: string)
    requires forall i :: 0 <= i < |s| ==> WordChar(s[i])
    ensures Ascii(s) == Octets(s)
  {
  }

  lemma Punctuation()
    ensures CRLF == Octets("\r\n") && DOUBLE_CRLF == Octets("\r\n\r\n") && HEADER_SEPARATOR == Octets(": ")
    ensures [SPACE] == Octets(" ") && [SEMICOLON] == Octets(";") && [COMMA] == Octets(",")
    ensures [AMPERSAND] == Octets("&") && [EQUALS] == Octets("=") && [QUESTION_MARK] == Octets("?")
    ensures [PLUS] == Octets("+") && [PERCENT] == Octets("%") && [COLON] == Octets(":")
    ensures CHUNKED_END_MARKER == Octets("0\r\n\r\n")
  {
  }

  /** The names both printers use. */
  lemma PrintedNames()
    ensures HTTP_VERSION == Octets("HTTP/1.1") && HOST == Octets("Host")
    ensures CONNECTION == Octets("Connection") && CLOSE == Octets("close")
    ensures CONTENT_LENGTH == Octets("Content-Length") && CONTENT_TYPE == Octets("Content-Type")
    ensures TRANSFER_ENCODING == Octets("Transfer-Encoding") && CHUNKED == Octets("chunked")
  {
    hide Ascii, Octets;
    AsciiIsOctets("HTTP/1.1");
    AsciiIsOctets("Host");
    AsciiIsOctets("Connection");
    AsciiIsOctets("close");
    AsciiIsOctets("Content-Length");
    AsciiIsOctets("Content-Type");
    AsciiIsOctets("Transfer-Encoding");
    AsciiIsOctets("chunked");
  }

  /** Every method is printed as its name. */
  lemma MethodNames()
    ensures MethodText(GET) == Octets("GET") && MethodText(POST) == Octets("POST") && MethodText(PUT) == Octets("PUT")
    ensures MethodText(DELETE) == Octets("DELETE") && MethodText(PATCH) == Octets("PATCH")
    ensures MethodText(CONNECT) == Octets("CONNECT") && MethodText(OPTIONS) == Octets("OPTIONS")
    ensures MethodText(TRACE) == Octets("TRACE") && MethodText(HEAD) == Octets("HEAD")
  {
    hide Ascii, Octets;
    AsciiIsOctets("GET");
    AsciiIsOctets("POST");
    AsciiIsOctets("PUT");
    AsciiIsOctets("DELETE");
    AsciiIsOctets("PATCH");
    AsciiIsOctets("CONNECT");
    AsciiIsOctets("OPTIONS");
    AsciiIsOctets("TRACE");
    AsciiIsOctets("HEAD");
  }

  lemma ConcatFour(a: bytes, b: bytes, c: bytes, d: bytes)
    ensures Concat([a, b, c, d]) == a + b + c + d
  {
    ConcatThree(b, c, d);
    assert [a, b, c, d][1..] == [b, c, d];
  }

  lemma ConcatOne(a: bytes)
    ensures Concat([a]) == a
  {
  }

  /** A request head, in the order it is written. */
  lemma RequestOnTheWire(m: HttpMethod, host: bytes, path: bytes, headers: seq<Header>, body: Option<bytes>)
    ensures RequestHead(m, host, path, headers, body) ==
      MethodText(m) + Octets(" ") + path + Octets(" ") + Octets("HTTP/1.1") + Octets("\r\n")
      + (Octets("Host") + Octets(": ") + host + Octets("\r\n"))
      + JoinLines(HeaderLines(headers))
      + (if body.Some? && Lookup(headers, Octets("Content-Length")).None?
         then Octets("Content-Length") + Octets(": ") + Decimal(|body.value|) + Octets("\r\n") else [])
      + (Octets("Connection") + Octets(": ") + Octets("close") + Octets("\r\n") + Octets("\r\n"))
  {
    hide Octets, Ascii, MethodText, Decimal, Lookup, JoinLines, HeaderLines, RequestHead, HTTP_VERSION, HOST,
      CONNECTION, CLOSE, CONTENT_LENGTH, Concat;
    Punctuation();
    PrintedNames();
    RequestPieces(m, host, path, headers, body);
    var first := [MethodText(m), [SPACE], path, [SPACE], HTTP_VERSION, CRLF];
    var own, close := LinePieces(Header(HOST, host)), LinePieces(Header(CONNECTION, CLOSE));
    ConcatAppend(first, own);
    FirstPieces(m, path);
    ConcatFour(HOST, HEADER_SEPARATOR, host, CRLF);
    ConcatAppend(close, [CRLF]);
    ConcatFour(CONNECTION, HEADER_SEPARATOR, CLOSE, CRLF);
    ConcatOne(CRLF);
    if body.Some? {
      ConcatFour(CONTENT_LENGTH, HEADER_SEPARATOR, Decimal(|body.value|), CRLF);
    }
  }

  /** A header, as both printers write it. */
  lemma HeaderOnTheWire(h: Header)
    ensures JoinLines(HeaderLines([h])) == h.name + Octets(": ") + h.value + Octets("\r\n")
  {
    hide Octets;
    Punctuation();
    assert HeaderLines([h]) == [HeaderLine(h)];
    JoinOne(HeaderLine(h));
  }

  /** A whole response, in the order it is written. */
  lemma ResponseOnTheWire(r: HttpResponse)
    ensures ResponseBytes(r) ==
      Octets("HTTP/1.1") + Octets(" ") + Decimal(StatusNumber(r.status) as nat) + Octets(" ") + StatusText(r.status)
      + Octets("\r\n")
      + JoinLines(HeaderLines(r.headers))
      + (if r.body.AsBytes() != [] && Lookup(r.headers, Octets("Content-Length")).None?
         then Octets("Content-Length") + Octets(": ") + Decimal(|r.body.AsBytes()|) + Octets("\r\n") else [])
      + Octets("\r\n") + r.body.AsBytes()
    ensures ResponseHead(r, false) ==
      Octets("HTTP/1.1") + Octets(" ") + Decimal(StatusNumber(r.status) as nat) + Octets(" ") + StatusText(r.status)
      + Octets("\r\n")
      + JoinLines(HeaderLines(r.headers)) + Octets("\r\n")
  {
    hide Octets, Ascii, StatusText, StatusNumber, Decimal, Lookup, JoinLines, HeaderLines, ResponseHead, HTTP_VERSION,
      CONTENT_LENGTH;
    Punctuation();
    PrintedNames();
    HeadParts(r, true);
    HeadParts(r, false);
    HeadLinesJoined(r);
  }

  /** The reason phrases, by number. */
  function Phrase(n: u16): string {
    if n == 100 then "Continue"
    else if n == 101 then "Switching Protocols"
    else if n == 200 then "OK"
    else if n == 201 then "Created"
    else if n == 202 then "Accepted"
    else if n == 203 then "Non-Authoritative Information"
    else if n == 204 then "No Content"
    else if n == 205 then "Reset Content"
    else if n == 206 then "Partial Content"
    else if n == 300 then "Multiple Choices"
    else if n == 301 then "Moved Permanently"
    else if n == 302 then "Found"
    else if n == 303 then "See Other"
    else if n == 304 then "Not Modified"
    else if n == 305 then "Use Proxy"
    else if n == 307 then "Temporary Redirect"
    else if n == 400 then "Bad Request"
    else if n == 401 then "Unauthorized"
    else if n == 402 then "Payment Required"
    else if n == 403 then "Forbidden"
    else if n == 404 then "Not Found"
    else if n == 405 then "Method Not Allowed"
    else if n == 406 then "Not Acceptable"
    else if n == 407 then "Proxy Authentication Required"
    else if n == 408 then "Request Timeout"
    else if n == 409 then "Conflict"
    else if n == 410 then "Gone"
    else if n == 411 then "Length Required"
    else if n == 412 then "Precondition Failed"
    else if n == 413 then "Request Entity Too Large"
    else if n == 414 then "Request-URI Too Long"
    else if n == 415 then "Unsupported Media Type"
    else if n == 416 then "Requested Range Not Satisfiable"
    else if n == 417 then "Expectation Failed"
    else if n == 500 then "Internal Server Error"
    else if n == 501 then "Not Implemented"
    else if n == 502 then "Bad Gateway"
    else if n == 503 then "Service Unavailable"
    else if n == 504 then "Gateway Timeout"
    else if n == 505 then "HTTP Version Not Supported"
    else "Other"
  }

  /** The status a number names is printed with the phrase of that number. */
  lemma PhraseOfNumber(n: u16)
    ensures Reason(StatusOf(n)) == Phrase(n)
  {
  }

  /** A chunk and the last chunk. */
  lemma ChunkOnTheWire(payload: bytes)
    requires |payload| == 5
    ensures Encode([Chunk([], Octets("5"), [], Octets(";a=b"), payload)])
        + EncodeLast(Chunk([], Octets("0"), [], [], CRLF))
      == Octets("5;a=b\r\n") + payload + Octets("\r\n0\r\n\r\n")
  {
  }

  /** The printers have room for lengths of eight and of ten digits. */
  lemma RoomForDigits(headers: seq<Header>, body: Option<bytes>, num: nat)
    ensures SendsLength(headers, body) ==> (LengthTooLong(headers, body) <==> |Decimal(|body.value|)| > 8)
    ensures num >= TEN_DIGITS <==> |Decimal(num)| > 10
  {
    hide Decimal, Lookup;
    PowersOfTen();
    DecimalLength(num, 10);
    if body.Some? {
      DecimalLength(|body.value|, 8);
    }
  }
}
