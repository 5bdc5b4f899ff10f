/** Requests: printing and parsing undo each other. */
module RequestLaws {
  import opened Bytes
  import opened Text
  import opened Numbers
  import opened Protocol
  import opened Framing
  import opened Tables
  import opened Heads
  import opened Requests
  import opened LineFeeds
  import opened RequestFraming

  // ----- The round trip -----

  ghost predicate PrintableField(h: Header) {
    Printable(h) && NoLf(h.name) && NoLf(h.value)
  }

  /** What a caller may ask `build_req` to print so that it reads back. */
  ghost predicate PrintableRequest(host: bytes, path: bytes, headers: seq<Header>) {
    && path != [] && NoSpace(path) && ValidUtf8(path)
    && ValidUtf8(host) && Trimmed(host) && NoLf(host)
    && forall i :: 0 <= i < |headers| ==> PrintableField(headers[i])
  }

  lemma WordsArePrintable(name: bytes, value: bytes)
    requires forall i :: 0 <= i < |name| ==> WordByte(name[i]) && name[i] != SPACE
    requires ValidUtf8(value) && Trimmed(value) && NoLf(value)
    ensures PrintableField(Header(name, value))
  {
    WordsAreSolid(name);
  }

  predicate SolidText(s: bytes) {
    forall i :: 0 <= i < |s| ==> WordByte(s[i]) && s[i] != SPACE
  }

  lemma HostIsSolid()
    ensures SolidText(HOST)
  {
  }

  lemma ConnectionIsSolid()
    ensures SolidText(CONNECTION)
  {
  }

  lemma CloseIsSolid()
    ensures SolidText(CLOSE)
  {
  }

  lemma OwnHeadersPrintable(host: bytes)
    requires ValidUtf8(host) && Trimmed(host) && NoLf(host)
    ensures PrintableField(Header(HOST, host)) && PrintableField(Header(CONNECTION, CLOSE))
  {
    hide ValidUtf8, Trimmed, PrintableField, HOST, CONNECTION, CLOSE;
    HostIsSolid();
    ConnectionIsSolid();
    CloseIsSolid();
    WordsArePrintable(HOST, host);
    WordsAreSolid(CLOSE);
    assert NoLf(CLOSE);
    WordsArePrintable(CONNECTION, CLOSE);
  }

  lemma LengthHeaderPrintable(n: nat)
    ensures PrintableField(Header(CONTENT_LENGTH, Decimal(n)))
  {
    hide Decimal, Printable;
    LengthIsPrintable(n);
  }

  lemma FieldIsPrintable(h: Header)
    ensures PrintableField(h) ==> Printable(h)
  {
    hide ValidUtf8, Trimmed;
  }

  lemma SentHeadersPrintable(host: bytes, path: bytes, headers: seq<Header>, body: Option<bytes>)
    requires PrintableRequest(host, path, headers)
    ensures forall h :: h in SentHeaders(host, headers, body) ==> PrintableField(h) && Printable(h)
  {
    hide PrintableField, Printable, Decimal, Lookup, HOST, CONNECTION, CLOSE, CONTENT_LENGTH;
    OwnHeadersPrintable(host);
    if body.Some? {
      LengthHeaderPrintable(|body.value|);
    }
    forall h | h in SentHeaders(host, headers, body) ensures PrintableField(h) && Printable(h) {
      FieldIsPrintable(h);
    }
  }

  lemma FirstLineIsGood(m: HttpMethod, path: bytes)
    requires path != [] && NoSpace(path) && ValidUtf8(path)
    ensures FirstLine(FirstLineOf(m, path)) && NoLf(FirstLineOf(m, path))
    ensures Words(FirstLineOf(m, path)) == [MethodText(m), path, HTTP_VERSION]
  {
    hide ValidUtf8, Words;
    var line := FirstLineOf(m, path);
    var name := MethodText(m);
    WordsAreSolid(name);
    WordsAreSolid(HTTP_VERSION);
    assert line == name + [SPACE] + (path + [SPACE] + HTTP_VERSION);
    WordsCons(name, path + [SPACE] + HTTP_VERSION);
    WordsCons(path, HTTP_VERSION);
    WordsSingle(HTTP_VERSION);
    AsciiIsUtf8([SPACE]);
    ValidUtf8Append(name, [SPACE]);
    ValidUtf8Append(name + [SPACE], path);
    ValidUtf8Append(name + [SPACE] + path, [SPACE]);
    ValidUtf8Append(name + [SPACE] + path + [SPACE], HTTP_VERSION);
    assert NoLf(path) by {
      forall i | 0 <= i < |path| ensures path[i] != LF {
        assert SpaceAt(path, i) == 0;
      }
    }
    assert NoLf(line);
    assert NoCrlf(line);
  }

  lemma {:induction false} JoinedHasNoBareLf(lines: seq<bytes>)
    requires forall i :: 0 <= i < |lines| ==> NoLf(lines[i])
    ensures NoBareLf(JoinLines(lines))
  {
    if lines != [] {
      var line, more := lines[0], JoinLines(lines[1..]);
      JoinedHasNoBareLf(lines[1..]);
      var s := line + CRLF + more;
      assert forall i :: 0 <= i < |line| ==> s[i] == line[i] && line[i] != LF;
      forall i | 0 <= i < |s| && s[i] == LF ensures i > 0 && s[i - 1] == CR {
        if i >= |line| + 2 {
          assert more[i - |line| - 2] == LF;
        }
      }
    }
  }

  /** The head text of a printed request has no bare line feed. */
  lemma SentHeadHasNoBareLf(first: bytes, hs: seq<Header>)
    requires NoLf(first) && forall h :: h in hs ==> PrintableField(h)
    ensures NoBareLf(HeadText(first, hs))
  {
    hide ValidUtf8, Trimmed, JoinLines;
    var lines := [first] + HeaderLines(hs);
    forall i | 0 <= i < |lines| ensures NoLf(lines[i]) {
      if i > 0 {
        assert hs[i - 1] in hs;
      }
    }
    JoinedHasNoBareLf(lines);
    var text := HeadText(first, hs);
    forall i | 0 <= i < |text| && text[i] == LF ensures i > 0 && text[i - 1] == CR {
      assert JoinLines(lines)[i] == LF;
    }
  }

  lemma UnfoldPrintable(host: bytes, path: bytes, headers: seq<Header>)
    requires PrintableRequest(host, path, headers)
    ensures path != [] && NoSpace(path) && ValidUtf8(path)
  {
  }

  lemma NonEmptyText(text: bytes, first: bytes, hs: seq<Header>)
    requires SplitLines(text) == [first] + HeaderLines(hs) && FirstLine(first)
    ensures text != []
  {
    assert SplitLines([]) == [[]];
    assert ([first] + HeaderLines(hs))[0] == first;
  }

  ghost predicate PrintableFields(hs: seq<Header>) {
    forall h :: h in hs ==> PrintableField(h) && Printable(h)
  }

  /** A printed head reads back as its first line and its headers. */
  lemma PrintedHeadReads(first: bytes, hs: seq<Header>, body: bytes)
    requires FirstLine(first) && NoLf(first) && PrintableFields(hs)
    ensures ParseRequest(Head(first, hs) + body) ==
      match RequestLine([first])
      case Err(e) => Err(e)
      case Panic => Panic
      case Ok((m, path, version)) =>
        if |hs| > MAX_HEADERS then Err(TOO_MANY_HEADERS) else Ok(HttpRequest(m, path, version, hs, body))
  {
    hide ValidUtf8, FindDoubleCrlf, RequestLine, SplitLines, PrintableField, Printable, FirstLine, NoBareLf, NoLf,
      HeadText, JoinLines, HeaderLines, Fields, UntilBlank, TextLines;
    HeadIsFound(first, hs, body);
    HeadSplits(first, hs);
    SentHeadHasNoBareLf(first, hs);
    var text, data := HeadText(first, hs), Head(first, hs) + body;
    var d := |text|;
    assert data[..d] == text && data[d + 4..] == body;
    NonEmptyText(text, first, hs);
    HeadLines(data, d);
    assert ([first] + HeaderLines(hs))[1..] == HeaderLines(hs);
    HeaderLinesRead(hs);
    FirstLineDecides(TextLines(text), first);
  }

  /**
   The request parser on any head of printable headers: the first three words
   of the first line, however spaced, are method, path and version, and otherwise
   the error says what is missing.
   */
  lemma RequestHeadParses(gaps: seq<bytes>, ws: seq<bytes>, hs: seq<Header>, body: bytes)
    requires WellSpaced(gaps, ws) && FirstLine(Spaced(gaps, ws)) && NoLf(Spaced(gaps, ws)) && PrintableFields(hs)
    ensures var r := ParseRequest(Head(Spaced(gaps, ws), hs) + body);
      && (|ws| == 0 ==> r == Err(InvalidResponse("Missing method")))
      && (|ws| == 1 ==> r == Err(InvalidResponse("Missing path")))
      && (|ws| == 2 ==> r == Err(InvalidResponse("Missing version")))
      && (|ws| >= 3 && (forall m: HttpMethod :: ws[0] != MethodText(m))
          ==> r == Err(InvalidResponse("Unknown HTTP method")))
      && (forall m: HttpMethod :: |ws| >= 3 && ws[0] == MethodText(m) ==>
            r == if |hs| > 16 then Err(InvalidResponse("Too many headers"))
                 else Ok(HttpRequest(m, ws[1], ws[2], hs, body)))
  {
    hide Words, Spaced, FirstLine, NoLf, PrintableField, Printable, MethodText, MethodOf, ParseRequest, Head;
    WordsOfSpaced(gaps, ws);
    PrintedHeadReads(Spaced(gaps, ws), hs, body);
    if |ws| >= 3 {
      forall m: HttpMethod ensures MethodOf(MethodText(m)) == Some(m) {
        MethodRoundTrip(m);
      }
    }
  }

  /** Input without a whole head, with an empty head, or with one that is no text, is refused. */
  lemma NoRequestHead(data: bytes)
    ensures FindDoubleCrlf(data).None? ==> ParseRequest(data) == Err(InvalidResponse("Incomplete request headers"))
    ensures FindDoubleCrlf(data) == Some(0) ==> ParseRequest(data) == Err(InvalidResponse("Missing request line"))
    ensures FindDoubleCrlf(data).Some? && !ValidUtf8(data[..FindDoubleCrlf(data).value])
      ==> ParseRequest(data) == Err(InvalidResponse("Invalid UTF-8 in request"))
  {
    hide FindDoubleCrlf;
    if FindDoubleCrlf(data) == Some(0) {
      assert data[..0] == [];
    }
  }

  lemma PrintedLine(m: HttpMethod, path: bytes)
    requires Words(FirstLineOf(m, path)) == [MethodText(m), path, HTTP_VERSION]
    ensures RequestLine([FirstLineOf(m, path)]) == Ok((m, path, HTTP_VERSION))
  {
    hide Words, MethodText, MethodOf, FirstLineOf;
    MethodRoundTrip(m);
  }

  /**
   The request round trip: what `build_req` prints, followed by any body,
   parses back to the same method, path, body and headers exactly when the
   headers number at most sixteen.
   */
  lemma RequestRoundTrip(
    m: HttpMethod, host: bytes, path: bytes, headers: seq<Header>, body: Option<bytes>, received: bytes)
    requires PrintableRequest(host, path, headers)
    ensures var sent := SentHeaders(host, headers, body);
      ParseRequest(RequestHead(m, host, path, headers, body) + received)
      == if |sent| <= MAX_HEADERS then Ok(HttpRequest(m, path, HTTP_VERSION, sent, received)) else Err(TOO_MANY_HEADERS)
  {
    hide ValidUtf8, RequestLine, PrintableField, Printable, FirstLine, NoLf, FirstLineOf, SentHeaders, MethodText,
      MethodOf, PrintableRequest, ParseRequest, Words;
    var first, sent := FirstLineOf(m, path), SentHeaders(host, headers, body);
    UnfoldPrintable(host, path, headers);
    SentHeadersPrintable(host, path, headers, body);
    FirstLineIsGood(m, path);
    PrintedHeadReads(first, sent, received);
    PrintedLine(m, path);
  }

  /** The reader frames a printed request by the length its headers declare. */
  lemma PrintedRequestLength(
    m: HttpMethod, host: bytes, path: bytes, headers: seq<Header>, body: Option<bytes>, received: bytes)
    requires PrintableRequest(host, path, headers)
    ensures var sent, data := SentHeaders(host, headers, body), RequestHead(m, host, path, headers, body) + received;
      && FindDoubleCrlf(data) == Some(|HeadText(FirstLineOf(m, path), sent)|)
      && ContentLength(data[..FindDoubleCrlf(data).value]) == LengthField(sent)
  {
    hide ValidUtf8, FindDoubleCrlf, Words, SplitLines, PrintableField, Printable, FirstLine, NoLf, FirstLineOf,
      Lookup, Fields, SentHeaders, HeadText, MethodText, MethodOf, JoinLines, HeaderLines,
      PrintableRequest, ContentLength;
    var first, sent := FirstLineOf(m, path), SentHeaders(host, headers, body);
    UnfoldPrintable(host, path, headers);
    SentHeadersPrintable(host, path, headers, body);
    FirstLineIsGood(m, path);
    MethodRoundTrip(m);
    RequestLineIsNoLength(first);
    HeadIsFound(first, sent, received);
    PrintedContentLength(first, sent);
    var data := RequestHead(m, host, path, headers, body) + received;
    assert data[..|HeadText(first, sent)|] == HeadText(first, sent);
  }

  // ----- Heads with a bare line feed -----

  lemma FirstLineIsOpen(m: HttpMethod, path: bytes)
    requires path != [] && NoSpace(path) && ValidUtf8(path)
    ensures var first := FirstLineOf(m, path);
      && SplitLines(first) == [first] && InFrontOfBareLf(first) && GoodFront(first) && ValidUtf8(first) && first != []
      && ValueIn(first, CONTENT_LENGTH) == None
  {
    hide ValidUtf8, Words, MethodText, MethodOf;
    var first := FirstLineOf(m, path);
    FirstLineIsGood(m, path);
    MethodRoundTrip(m);
    RequestLineIsNoLength(first);
    OneLineLookup(first, CONTENT_LENGTH);
    assert first[|first| - 1] == HTTP_VERSION[7];
  }

  /** A request whose only bare line feed ends its request line. */
  lemma CutFirstLine(m: HttpMethod, path: bytes, rest: bytes)
    requires path != [] && NoSpace(path) && ValidUtf8(path)
    requires ValidUtf8(rest) && FindDoubleCrlf(rest + DOUBLE_CRLF) == Some(|rest|)
    requires |Fields(UntilBlank(TextLines(rest)))| <= MAX_HEADERS
    ensures var head := FirstLineOf(m, path) + [LF] + rest; var data := head + DOUBLE_CRLF;
      && FindDoubleCrlf(data) == Some(|head|) && data[..|head|] == head && ValidUtf8(head)
      && ParseRequest(data) == Ok(HttpRequest(m, path, HTTP_VERSION, Fields(UntilBlank(TextLines(rest))), []))
  {
    hide ValidUtf8, Words, MethodText, MethodOf, FirstLineOf, SplitLines, TextLines, Fields, UntilBlank, FindDoubleCrlf,
      FirstLine, NoLf;
    var first := FirstLineOf(m, path);
    var head := first + [LF] + rest;
    FirstLineIsOpen(m, path);
    FirstLineIsGood(m, path);
    MethodRoundTrip(m);
    ParsedAcross(first, rest);
    NoFields();
    assert [first][1..] == [] && [] + Fields(UntilBlank(TextLines(rest))) == Fields(UntilBlank(TextLines(rest)));
    AsciiIsUtf8([LF]);
    ValidUtf8Append(first, [LF]);
    ValidUtf8Append(first + [LF], rest);
    assert forall j: nat :: !DoubleCrlfAt(first, j) by {
      OpenLineIsEnd(first);
    }
    ContinuedHead(first, rest);
    var data := head + DOUBLE_CRLF;
    assert data[..|head|] == head && data[|head| + 4..] == [];
  }

  lemma LengthLineIsField(n: nat)
    ensures Fields([LengthLine(n)]) == [Header(CONTENT_LENGTH, Decimal(n))]
  {
    hide Decimal, Printable, CONTENT_LENGTH;
    LengthIsPrintable(n);
    HeaderLineReads(Header(CONTENT_LENGTH, Decimal(n)));
    assert [LengthLine(n)][1..] == [];
  }

  /** For the reader the request line goes on across the line feed, and holds no length. */
  lemma BareLfIsFramed(m: HttpMethod, path: bytes, line: bytes)
    requires path != [] && NoSpace(path) && ValidUtf8(path) && SplitLines(line) == [line]
    ensures ContentLength(FirstLineOf(m, path) + [LF] + line) == None
  {
    hide ValidUtf8, Words, MethodText, MethodOf, SplitLines;
    var first := FirstLineOf(m, path);
    var head := first + [LF] + line;
    var name, rest := MethodText(m), path + [SPACE] + HTTP_VERSION + [LF] + line;
    WordsAreSolid(name);
    assert head == name + [SPACE] + rest;
    WordsCons(name, rest);
    MethodRoundTrip(m);
    RequestLineIsNoLength(head);
    FirstLineIsOpen(m, path);
    SplitLinesAcross(first, line);
    assert SplitLines(head) == [head];
    ScanIsLookup([head], CONTENT_LENGTH);
  }

  /**
   Behind a bare line feed the parser may see a length the reader does not see:
   the request is complete with its head, and the body it declares is not there.
   */
  lemma BareLfDisagrees(m: HttpMethod, path: bytes, n: nat)
    requires path != [] && NoSpace(path) && ValidUtf8(path) && n <= USIZE_MAX
    ensures var head := FirstLineOf(m, path) + [LF] + LengthLine(n); var data := head + DOUBLE_CRLF;
      && RequestComplete(data)
      && FindDoubleCrlf(data) == Some(|head|) && ContentLength(head) == None
      && ParseRequest(data)
        == Ok(HttpRequest(m, path, HTTP_VERSION, [Header(CONTENT_LENGTH, Decimal(n))], []))
      && ParseRequest(data).value.DeclaredLength() == Some(n)
  {
    hide ValidUtf8, Words, MethodText, MethodOf, FirstLineOf, SplitLines, TextLines, UntilBlank, FindDoubleCrlf,
      Decimal, CONTENT_LENGTH, LengthLine, NoLf, NoCrlf, ParseRequest;
    var first, line, h := FirstLineOf(m, path), LengthLine(n), Header(CONTENT_LENGTH, Decimal(n));
    var head := first + [LF] + line;
    LengthLineReads(n);
    LengthLineIsField(n);
    PlainContinuation(line);
    HeadEndsBehind(line);
    CutFirstLine(m, path, line);
    BareLfIsFramed(m, path, line);
    assert Lookup([h], CONTENT_LENGTH) == Some(h.value);
  }

  /** Conversely, a bare line feed may end the head early for the parser, which then misses the length. */
  lemma BlankLineHidesLength(m: HttpMethod, path: bytes, n: nat)
    requires path != [] && NoSpace(path) && ValidUtf8(path) && n <= USIZE_MAX
    ensures var head := FirstLineOf(m, path) + [LF] + (CRLF + LengthLine(n)); var data := head + DOUBLE_CRLF;
      && FindDoubleCrlf(data) == Some(|head|) && ContentLength(head) == Some(n)
      && ParseRequest(data) == Ok(HttpRequest(m, path, HTTP_VERSION, [], []))
  {
    hide ValidUtf8, Words, MethodText, MethodOf, FirstLineOf, SplitLines, TextLines, UntilBlank, FindDoubleCrlf,
      Decimal, CONTENT_LENGTH, LengthLine, NoLf, NoCrlf, ParseRequest, Fields, Lookup, ValueIn;
    var first, rest := FirstLineOf(m, path), CRLF + LengthLine(n);
    HiddenContinuation(n);
    LengthLineReads(n);
    NoFields();
    CutFirstLine(m, path, rest);
    FirstLineIsOpen(m, path);
    FramedAcross(first, rest);
    FrontLookup(first);
    OneLineLookup(LengthLine(n), CONTENT_LENGTH);
    NoFieldStaysNone(first, [], CONTENT_LENGTH);
  }
}
