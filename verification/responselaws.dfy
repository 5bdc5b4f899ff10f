/** Responses: slice safety, the round trip, and how printed responses are framed. */
module ResponseLaws {
  import opened Bytes
  import opened Text
  import opened Numbers
  import opened Protocol
  import opened Framing
  import opened Tables
  import opened Heads
  import opened Responses
  import opened Streams
  import opened Reading

  // ----- Slice safety -----

  /** In any head the first CRLF starts the double CRLF or ends a line well before it. */
  lemma FirstCrlfOfHead(data: bytes, d: nat)
    requires FindDoubleCrlf(data) == Some(d)
    ensures var s := FindCrlf(data[..d + 4]); s.Some? && (s.value == d || s.value + 3 <= d)
  {
    hide Find;
    var head := data[..d + 4];
    assert CrlfAt(head, d);
    var s := FindCrlf(head).value;
    assert CrlfAt(data, s) && DoubleCrlfAt(data, d);
    assert s + 2 == d ==> DoubleCrlfAt(data, s);
  }

  lemma StatusNeverPanics(line: bytes)
    ensures !StatusFrom(line).Panic?
  {
  }

  /**
   Slice safety of `parse_resp`: it panics exactly on a valid head whose status
   parses and which has no header line, and answers every other input.
   */
  lemma PanicsExactly(data: bytes)
    ensures ParseResponse(data).Panic? <==>
      match FindDoubleCrlf(data)
      case None => false
      case Some(d) => ValidUtf8(data[..d + 4]) && StatusFrom(data[..d]).Ok? && FindCrlf(data[..d + 4]) == Some(d)
  {
    hide ValidUtf8, FindDoubleCrlf, FindCrlf, StatusFrom, SplitLines, ParseBody, Fields;
    match FindDoubleCrlf(data) {
      case None =>
      case Some(d) =>
        FirstCrlfOfHead(data, d);
        StatusNeverPanics(data[..d + 4][..FindCrlf(data[..d + 4]).value]);
        assert data[..d + 4][..d] == data[..d];
    }
  }

  // ----- Framing agrees with parsing on the client -----

  /** The value the status line itself gives to `Content-Length`, should it be such a field. */
  function LengthInStatus(data: bytes, d: nat): Option<bytes>
    requires FindDoubleCrlf(data) == Some(d)
  {
    FirstCrlfOfHead(data, d);
    Lookup(Fields([data[..FindCrlf(data[..d + 4]).value]]), CONTENT_LENGTH)
  }

  /** The fields behind the status line of a head that ends at `d`. */
  function FieldsBehindStatus(data: bytes, d: nat): seq<Header>
    requires FindDoubleCrlf(data) == Some(d)
  {
    FirstCrlfOfHead(data, d);
    var s := FindCrlf(data[..d + 4]).value;
    if s == d then [] else Fields(SplitLines(data[s + 2..d]))
  }

  /** A head that parsed is text, with or without its final double CRLF. */
  lemma HeadIsText(data: bytes, d: nat)
    requires FindDoubleCrlf(data) == Some(d) && ParseResponse(data).Ok?
    ensures ValidUtf8(data[..d]) && ValidUtf8(data[..d + 4])
  {
    hide FindDoubleCrlf, ValidUtf8;
    assert data[..d + 4] == data[..d] + data[d..d + 4];
    assert data[d] == 13;
    ValidUtf8Cut(data[..d], data[d..d + 4]);
  }

  lemma CrlfInHead(data: bytes, d: nat)
    requires d + 4 <= |data| && FindCrlf(data[..d + 4]).Some? && FindCrlf(data[..d + 4]).value + 2 <= d
    ensures FindCrlf(data[..d]) == FindCrlf(data[..d + 4])
  {
    FindInPrefix(data[..d + 4], CRLF, d);
    assert data[..d + 4][..d] == data[..d];
  }

  /** The value a head gives to a name: that of its first line, or else that of the lines behind it. */
  lemma LookupByFirstLine(head: bytes, p: nat, name: bytes)
    requires FindCrlf(head) == Some(p)
    ensures var first := Lookup(Fields([head[..p]]), name);
      FindHeaderValue(head, name) == if first.Some? then first else Lookup(Fields(SplitLines(head[p + 2..])), name)
  {
    hide FindCrlf, Lookup, Fields, SplitLines, ScanLines;
    var line, more := head[..p], SplitLines(head[p + 2..]);
    SplitOnce(head);
    FieldsAppend([line], more);
    ScanIsLookup(SplitLines(head), name);
    LookupAppend(Fields([line]), Fields(more), name);
  }

  /** What the reader frames by: the status line, if it is itself a length field, else the fields behind it. */
  lemma FramedByFields(data: bytes, d: nat)
    requires FindDoubleCrlf(data) == Some(d) && ValidUtf8(data[..d])
    requires FindCrlf(data[..d + 4]).Some? && FindCrlf(data[..d + 4]).value + 3 <= d
    ensures ContentLength(data[..d + 4]) ==
      match LengthInStatus(data, d)
      case None => LengthField(FieldsBehindStatus(data, d))
      case Some(v) => ParseUsize(v)
  {
    hide ValidUtf8, FindDoubleCrlf, FindCrlf, Lookup, Fields, ParseUsize, SplitLines, FindHeaderValue;
    ContentLengthOfWholeHead(data, d);
    CrlfInHead(data, d);
    var head, s := data[..d], FindCrlf(data[..d + 4]).value;
    assert head[..s] == data[..s] && head[s + 2..] == data[s + 2..d];
    LookupByFirstLine(head, s, CONTENT_LENGTH);
  }

  /**
   The length the reader framed by and the length the parsed response declares.
   They agree exactly unless a number is declared where the parser does not
   look: in a dropped header with no length field among the kept ones, or in
   the status line.
   */
  lemma ResponseFramingAgrees(data: bytes, d: nat)
    requires FindDoubleCrlf(data) == Some(d) && ParseResponse(data).Ok?
    ensures var fields, r := FieldsBehindStatus(data, d), ParseResponse(data).value;
      var kept, dropped := FirstHeaders(fields), fields[|FirstHeaders(fields)|..];
      && r.headers == kept
      && (r.DeclaredLength() == ContentLength(data[..d + 4]) <==>
          match LengthInStatus(data, d)
          case None => Lookup(kept, CONTENT_LENGTH).Some? || LengthField(dropped).None?
          case Some(v) => LengthField(kept) == ParseUsize(v))
  {
    hide ValidUtf8, FindDoubleCrlf, FindCrlf, StatusFrom, ParseBody, Lookup, Fields, ContentLength;
    FirstCrlfOfHead(data, d);
    PanicsExactly(data);
    var s := FindCrlf(data[..d + 4]).value;
    assert s + 3 <= d by {
      assert data[..d + 4][..d] == data[..d];
    }
    assert data[..d + 4][s + 2..d] == data[s + 2..d];
    HeadIsText(data, d);
    FramedByFields(data, d);
    var fields := FieldsBehindStatus(data, d);
    var kept := FirstHeaders(fields);
    assert fields == kept + fields[|kept|..];
    LookupAppend(kept, fields[|kept|..], CONTENT_LENGTH);
  }

  // ----- The round trip -----

  lemma StatusLineIsGood(s: StatusCode)
    ensures FirstLine(StatusLine(s)) && Fields([StatusLine(s)]) == []
    ensures StatusFrom(StatusLine(s)) == Ok(StatusOf(StatusNumber(s)))
  {
    hide ValidUtf8, Words, Decimal, StatusText, StatusNumber, StatusOf;
    var n := StatusNumber(s) as nat;
    var line := StatusLine(s);
    DecimalIsText(n);
    assert forall i :: 0 <= i < |line| ==> WordByte(line[i]);
    WordsAreSolid(HTTP_VERSION);
    AsciiIsUtf8(line);
    assert Field(line) == None;
    assert [line][1..] == [];
    assert line == HTTP_VERSION + [SPACE] + (Decimal(n) + [SPACE] + StatusText(s));
    WordsCons(HTTP_VERSION, Decimal(n) + [SPACE] + StatusText(s));
    WordsCons(Decimal(n), StatusText(s));
    ParseDecimal(n, 65535);
  }

  lemma UnfoldFirstLine(first: bytes)
    requires FirstLine(first)
    ensures first != [] && NoCrlf(first)
  {
  }

  /** Where the first line of a printed head ends, and what lies behind it. */
  lemma FirstLineEnds(first: bytes, hs: seq<Header>)
    requires FirstLine(first) && AllPrintable(hs)
    ensures var text := HeadText(first, hs);
      && |first| + 4 <= |Head(first, hs)| && Head(first, hs)[..|first|] == first
      && FindCrlf(Head(first, hs)) == Some(|first|)
      && if hs == [] then text == first
         else |first| + 2 <= |text| && SplitLines(text[|first| + 2..]) == HeaderLines(hs)
  {
    hide ValidUtf8, HeaderLines, AllPrintable, FirstLine, FindCrlf;
    UnfoldFirstLine(first);
    var text := HeadText(first, hs);
    var lines := [first] + HeaderLines(hs);
    var more := JoinLines(lines[1..]) + CRLF;
    assert Head(first, hs) == first + CRLF + more;
    LineEnd(first, more);
    HeadSplits(first, hs);
    if hs == [] {
      assert lines == [first] && lines[1..] == [] && JoinLines(lines[1..]) == [];
      assert text + DOUBLE_CRLF == first + DOUBLE_CRLF;
      assert text == (text + DOUBLE_CRLF)[..|first|];
    } else {
      match FindCrlf(text) {
        case None =>
          assert false;
        case Some(p) =>
          assert SplitLines(text)[0] == text[..p] && SplitLines(text)[1..] == SplitLines(text[p + 2..]);
          assert lines[0] == first && lines[1..] == HeaderLines(hs);
      }
    }
  }

  /** What a printed head parses to, followed by any body: its first line decides, and without header line it panics. */
  lemma HeadParses(first: bytes, hs: seq<Header>, body: bytes)
    requires FirstLine(first) && AllPrintable(hs)
    ensures ParseResponse(Head(first, hs) + body) ==
      match StatusFrom(first)
      case Err(e) => Err(e)
      case Panic => Panic
      case Ok(status) =>
        if hs == [] then Panic
        else Ok(HttpResponse(status, FirstHeaders(hs), ParseBody(FirstHeaders(hs), body)))
  {
    hide ValidUtf8, FindDoubleCrlf, StatusFrom, SplitLines, ParseBody, Fields, AllPrintable, HeaderLines,
      FirstLine, HeadText;
    var text := HeadText(first, hs);
    var data := Head(first, hs) + body;
    HeadIsFound(first, hs, body);
    var d := |text|;
    var head := data[..d + 4];
    assert head == Head(first, hs) && data[d + 4..] == body;
    FirstLineEnds(first, hs);
    assert head[..|first|] == first;
    if hs != [] {
      assert head[|first| + 2..d] == text[|first| + 2..];
      HeaderLinesRead(hs);
    }
  }

  /** What a status line announces, for every way of spacing its words. */
  lemma StatusOfWords(gaps: seq<bytes>, ws: seq<bytes>)
    requires WellSpaced(gaps, ws)
    ensures |ws| < 2 ==> StatusFrom(Spaced(gaps, ws)) == Err(InvalidResponse("Invalid HTTP status line"))
    ensures |ws| >= 2 && (forall n: nat :: !NumberText(ws[1], 10, n, 65535))
      ==> StatusFrom(Spaced(gaps, ws)) == Err(InvalidStatusCode)
    ensures forall n: nat :: |ws| >= 2 && NumberText(ws[1], 10, n, 65535) ==>
              n <= 65535 && StatusFrom(Spaced(gaps, ws)) == Ok(StatusOf(n as u16))
  {
    hide Words, Spaced, WellSpaced, NumberText, ParseUnsigned, StatusOf;
    WordsOfSpaced(gaps, ws);
    if |ws| >= 2 {
      forall n: nat ensures ParseUnsigned(ws[1], 10, 65535) == Some(n) <==> NumberText(ws[1], 10, n, 65535) {
        ParsesExactly(ws[1], 10, n, 65535);
      }
    }
  }

  /**
   The response parser on any head of printable headers: the second word of
   the first line, if it is a number text, is the status, and otherwise the error
   says what is missing.
   */
  lemma ResponseHeadParses(gaps: seq<bytes>, ws: seq<bytes>, hs: seq<Header>, body: bytes)
    requires WellSpaced(gaps, ws) && FirstLine(Spaced(gaps, ws)) && AllPrintable(hs)
    ensures var r := ParseResponse(Head(Spaced(gaps, ws), hs) + body);
      && (|ws| < 2 ==> r == Err(InvalidResponse("Invalid HTTP status line")))
      && (|ws| >= 2 && (forall n: nat :: !NumberText(ws[1], 10, n, 65535)) ==> r == Err(InvalidStatusCode))
      && (forall n: nat :: |ws| >= 2 && NumberText(ws[1], 10, n, 65535) ==>
            && n <= 65535
            && r == if hs == [] then Panic else
                 var kept := hs[..Min(|hs|, 16)];
                 Ok(HttpResponse(StatusOf(n as u16), kept, ParseBody(kept, body))))
  {
    hide Spaced, NumberText, FirstLine, AllPrintable, ParseResponse, ParseBody, StatusOf, StatusFrom, Head;
    StatusOfWords(gaps, ws);
    HeadParses(Spaced(gaps, ws), hs, body);
  }

  /** Input without a whole head, or whose head is no text, is refused. */
  lemma NoResponseHead(data: bytes)
    ensures FindDoubleCrlf(data).None? ==> ParseResponse(data) == Err(InvalidResponse("Invalid HTTP response format"))
    ensures FindDoubleCrlf(data).Some? && !ValidUtf8(data[..FindDoubleCrlf(data).value])
      ==> ParseResponse(data) == Err(InvalidResponse("Invalid HTTP response encoding"))
  {
    hide FindDoubleCrlf, ValidUtf8;
    if FindDoubleCrlf(data).Some? {
      var d := FindDoubleCrlf(data).value;
      assert data[..d + 4] == data[..d] + DOUBLE_CRLF;
      if ValidUtf8(data[..d + 4]) {
        ValidUtf8Cut(data[..d], DOUBLE_CRLF);
      }
    }
  }

  /** The same for a printed status line. */
  lemma PrintedHeadParses(status: StatusCode, hs: seq<Header>, body: bytes)
    requires AllPrintable(hs)
    ensures ParseResponse(Head(StatusLine(status), hs) + body) == if hs == [] then Panic else
      Ok(HttpResponse(StatusOf(StatusNumber(status)), FirstHeaders(hs), ParseBody(FirstHeaders(hs), body)))
  {
    hide StatusFrom, AllPrintable, FirstLine, StatusLine, StatusOf, StatusNumber, Head, ParseResponse, ParseBody;
    StatusLineIsGood(status);
    HeadParses(StatusLine(status), hs, body);
  }

  lemma AutoLengthPrintable(r: HttpResponse)
    requires AllPrintable(r.headers)
    ensures AllPrintable(PrintedHeaders(r, true))
  {
    hide Printable;
    LengthIsPrintable(|r.body.AsBytes()|);
  }

  /**
   The response round trip: a printed response with printable headers parses
   back to the status its number names, the first sixteen of the printed
   headers and the same body bytes; a response printed without any header line
   makes the parser panic.
   */
  lemma ResponseRoundTrip(r: HttpResponse)
    requires AllPrintable(r.headers)
    ensures var hs := PrintedHeaders(r, true);
      ParseResponse(ResponseBytes(r)) == if hs == [] then Panic else
        Ok(HttpResponse(StatusOf(StatusNumber(r.status)), FirstHeaders(hs),
                        ParseBody(FirstHeaders(hs), r.body.AsBytes())))
  {
    hide ParseResponse, AllPrintable, StatusLine, StatusOf, StatusNumber, ParseBody, Head;
    AutoLengthPrintable(r);
    PrintedHeadParses(r.status, PrintedHeaders(r, true), r.body.AsBytes());
  }

  /** The same status comes back unless `Other` was used for a named number. */
  lemma StatusComesBack(r: HttpResponse)
    requires AllPrintable(r.headers) && PrintedHeaders(r, true) != []
    ensures ParseResponse(ResponseBytes(r)).Ok?
    ensures StatusNumber(ParseResponse(ResponseBytes(r)).value.status) == StatusNumber(r.status)
    ensures ParseResponse(ResponseBytes(r)).value.status == r.status
      <==> (r.status.Other? ==> StatusOf(r.status.code).Other?)
    ensures ParseResponse(ResponseBytes(r)).value.body.AsBytes() == r.body.AsBytes()
  {
    hide ParseResponse, AllPrintable, PrintedHeaders, StatusNumber, StatusOf;
    ResponseRoundTrip(r);
    StatusRoundTrip(r.status);
    ParseBodyKeepsBytes(FirstHeaders(PrintedHeaders(r, true)), r.body.AsBytes());
  }

  /** What the types start with whose bodies are read as text. */
  const TEXT_TYPES: seq<bytes> := [
    Ascii("text/"), Ascii("application/json"), Ascii("application/xml"), Ascii("application/x-www-form-urlencoded")]

  predicate StartsAsText(contentType: bytes) {
    exists i :: 0 <= i < |TEXT_TYPES| && TEXT_TYPES[i] <= contentType
  }

  lemma IsTextExactly(contentType: bytes)
    ensures IsText(contentType) <==> StartsAsText(contentType)
  {
    hide Ascii;
    if IsText(contentType) {
      assert
        || TEXT_TYPES[0] <= contentType || TEXT_TYPES[1] <= contentType
        || TEXT_TYPES[2] <= contentType || TEXT_TYPES[3] <= contentType;
    }
  }

  /** The content type lets a body be text. */
  predicate MayBeText(hs: seq<Header>) {
    match Lookup(hs, CONTENT_TYPE)
    case None => true
    case Some(t) => StartsAsText(t)
  }

  /**
   Which bodies come back as the variant they were: non-empty text under no or a
   text content type, and non-empty binary that is no text or not under such a type.
   */
  lemma BodyComesBack(r: HttpResponse)
    requires AllPrintable(r.headers) && PrintedHeaders(r, true) != []
    requires r.body.TextBody? ==> ValidUtf8(r.body.text)
    ensures var hs := FirstHeaders(PrintedHeaders(r, true));
      ParseResponse(ResponseBytes(r)).Ok? &&
      (ParseResponse(ResponseBytes(r)).value.body == r.body <==>
        match r.body
        case EmptyBody => true
        case TextBody(text) => text != [] && MayBeText(hs)
        case BinaryBody(data) => data != [] && !(ValidUtf8(data) && MayBeText(hs)))
  {
    hide ParseResponse, AllPrintable, PrintedHeaders, ValidUtf8, IsText, StartsAsText, Lookup, StatusNumber, StatusOf,
      ResponseBytes;
    ResponseRoundTrip(r);
    var t := Lookup(FirstHeaders(PrintedHeaders(r, true)), CONTENT_TYPE);
    if t.Some? {
      IsTextExactly(t.value);
    }
  }

  /** The content type among the headers that are kept when the response is read back. */
  function KeptType(r: HttpResponse): Option<bytes> {
    Lookup(FirstHeaders(PrintedHeaders(r, true)), CONTENT_TYPE)
  }

  /** The printed response parses, with that body. */
  predicate ComesBackWith(r: HttpResponse, body: ResponseBody) {
    ParseResponse(ResponseBytes(r)).Ok? && ParseResponse(ResponseBytes(r)).value.body == body
  }

  lemma NotEmptyHeaders(r: HttpResponse)
    requires r.body.AsBytes() != []
    ensures PrintedHeaders(r, true) != []
  {
    if r.headers == [] {
      assert Lookup(r.headers, CONTENT_LENGTH).None?;
    }
  }

  /**
   A printed text comes back as text under no content type and under every
   type that starts with one of the four; under any other it comes back as the
   same bytes, binary.
   */
  lemma TextComesBack(r: HttpResponse)
    requires AllPrintable(r.headers) && r.body.TextBody? && r.body.text != [] && ValidUtf8(r.body.text)
    ensures ComesBackWith(r,
      if KeptType(r).None? || StartsAsText(KeptType(r).value) then r.body else BinaryBody(r.body.text))
  {
    hide ParseResponse, AllPrintable, ValidUtf8, IsText, StartsAsText, Lookup, StatusNumber, StatusOf, ResponseBytes,
      FirstHeaders;
    ResponseRoundTrip(r);
    NotEmptyHeaders(r);
    if KeptType(r).Some? {
      IsTextExactly(KeptType(r).value);
    }
  }

  // ----- How a printed response is framed -----

  /** The printed headers frame the body: not chunked, and a length, if any, that is right. */
  ghost predicate WellFramed(r: HttpResponse) {
    && AllPrintable(r.headers)
    && Lookup(r.headers, TRANSFER_ENCODING).None?
    && |r.body.AsBytes()| <= USIZE_MAX
    && (Lookup(r.headers, CONTENT_LENGTH).Some?
        ==> ParseUsize(Lookup(r.headers, CONTENT_LENGTH).value) == Some(|r.body.AsBytes()|))
  }

  /** Only an empty body may go out without a length. */
  predicate SelfDelimited(r: HttpResponse) {
    Lookup(r.headers, CONTENT_LENGTH).Some? || r.body.AsBytes() != []
  }

  lemma PrintedLookups(r: HttpResponse)
    requires WellFramed(r)
    ensures var hs := PrintedHeaders(r, true);
      && Lookup(hs, TRANSFER_ENCODING).None?
      && (match Lookup(hs, CONTENT_LENGTH)
          case None => !SelfDelimited(r)
          case Some(v) => SelfDelimited(r) && ParseUsize(v) == Some(|r.body.AsBytes()|))
  {
    hide Decimal, AllPrintable;
    var n := |r.body.AsBytes()|;
    ParseDecimal(n, USIZE_MAX);
    var auto := if AddsLength(r) then [Header(CONTENT_LENGTH, Decimal(n))] else [];
    assert PrintedHeaders(r, true) == r.headers + auto;
    LookupAppend(r.headers, auto, TRANSFER_ENCODING);
    LookupAppend(r.headers, auto, CONTENT_LENGTH);
    assert !EqIgnoreCase(CONTENT_LENGTH, TRANSFER_ENCODING);
  }

  lemma PrintedFraming(r: HttpResponse)
    requires WellFramed(r)
    ensures var head := ResponseHead(r, true); var s := ResponseBytes(r);
      && |head| >= 4 && FindDoubleCrlf(s) == Some(|head| - 4) && s[..|head|] == head
      && !Chunked(s)
      && ContentLength(head) == if SelfDelimited(r) then Some(|r.body.AsBytes()|) else None
  {
    hide ValidUtf8, FindDoubleCrlf, Fields, SplitLines, FirstLine, StatusLine, HeadText, ListsChunked, AllPrintable,
      Decimal;
    var first, hs := StatusLine(r.status), PrintedHeaders(r, true);
    var s, head, text := ResponseBytes(r), ResponseHead(r, true), HeadText(first, hs);
    StatusLineIsGood(r.status);
    AutoLengthPrintable(r);
    HeadIsFound(first, hs, r.body.AsBytes());
    assert s[..|head|] == head;
    HeadFields(first, hs);
    assert [] + hs == hs;
    PrintedChunked(first, hs);
    PrintedContentLength(first, hs);
    ContentLengthOfWholeHead(s, |text|);
    assert s[..|text|] == text;
    PrintedLookups(r);
  }

  lemma NoLengthNoBody(r: HttpResponse)
    ensures !SelfDelimited(r) ==> r.body.AsBytes() == []
  {
  }

  /** A printed response is complete exactly with its last byte, or never. */
  lemma PrintedComplete(r: HttpResponse, t: nat)
    requires WellFramed(r) && t <= |ResponseBytes(r)|
    ensures Complete(ResponseBytes(r)[..t]) <==> SelfDelimited(r) && t == |ResponseBytes(r)|
    ensures !SelfDelimited(r) ==> !DeclaresLength(ResponseBytes(r)[..t])
  {
    hide FindDoubleCrlf, ChunkedHead, ContentLength, ResponseHead, WellFramed, SelfDelimited;
    PrintedFraming(r);
    var s, head := ResponseBytes(r), ResponseHead(r, true);
    FindInPrefix(s, DOUBLE_CRLF, t);
    FindIsSearch(s, t);
    if t >= |head| {
      assert s[..t][..|head|] == head;
      assert |s| == |head| + |r.body.AsBytes()|;
      assert !SelfDelimited(r) ==> r.body.AsBytes() == [] by {
        NoLengthNoBody(r);
      }
    }
  }

  lemma NotEmpty(r: HttpResponse)
    requires WellFramed(r)
    ensures |ResponseBytes(r)| >= 4
  {
    hide WellFramed, ResponseHead;
    PrintedFraming(r);
  }

  /**
   Reading a printed response delivers all of it under every schedule: the
   buffer must hold it, with a byte to spare when connection close delimits it.
   */
  lemma PrintedResponseIsRead(r: HttpResponse, events: seq<ReadEvent>, limit: nat, maxRetries: nat)
    requires WellFramed(r)
    requires Pump(Client, events, ResponseBytes(r), limit, 0).faults < maxRetries
    ensures var s := ResponseBytes(r);
      |s| < limit || (|s| == limit && SelfDelimited(r)) ==> ClientRead(events, s, limit, maxRetries) == Ok(|s|)
    ensures |ResponseBytes(r)| == limit && !SelfDelimited(r)
      ==> ClientRead(events, ResponseBytes(r), limit, maxRetries) == Err(BufferOverflow)
    ensures |ResponseBytes(r)| > limit > 0
      ==> ClientRead(events, ResponseBytes(r), limit, maxRetries) == Err(BufferOverflow)
  {
    hide Complete, DeclaresLength, ResponseBytes, WellFramed, SelfDelimited, Pump, ClientRead;
    var s := ResponseBytes(r);
    ClientReadIsSegmentationFree(events, s, limit, maxRetries);
    var most := Min(|s|, limit);
    PrintedComplete(r, most);
    PrintedComplete(r, |s|);
    assert s[..|s|] == s;
    NotEmpty(r);
    if Complete(s[..most]) {
      var k := LeastDone(Client, s, 0);
      DoneCoversLeast(Client, s, most);
      PrintedComplete(r, k);
    }
  }

  // ----- Where the two lengths differ -----

  lemma OwnName(h: Header)
    ensures Lookup([h], h.name) == Some(h.value)
  {
  }

  /** A length behind all other headers is kept if it is among the first sixteen. */
  lemma KeptLength(hs: seq<Header>, h: Header)
    requires Lookup(hs, h.name).None?
    ensures Lookup(FirstHeaders(hs + [h]), h.name) == if |hs| >= MAX_HEADERS then None else Some(h.value)
  {
    hide Lookup;
    if |hs| >= MAX_HEADERS {
      var kept := hs[..MAX_HEADERS];
      assert FirstHeaders(hs + [h]) == kept && hs == kept + hs[MAX_HEADERS..];
      LookupAppend(kept, hs[MAX_HEADERS..], h.name);
    } else {
      assert FirstHeaders(hs + [h]) == hs + [h];
      OwnName(h);
      LookupAppend(hs, [h], h.name);
    }
  }

  /**
   nanofish against nanofish: behind sixteen headers of the handler's own the
   client frames by the automatic length, and its parsed response declares none.
   */
  lemma SeventeenthLengthIsDropped(r: HttpResponse)
    requires WellFramed(r) && Lookup(r.headers, CONTENT_LENGTH).None? && r.body.AsBytes() != []
    ensures var got := ParseResponse(ResponseBytes(r));
      && got.Ok? && ContentLength(ResponseHead(r, true)) == Some(|r.body.AsBytes()|)
      && got.value.DeclaredLength() == if |r.headers| >= MAX_HEADERS then None else Some(|r.body.AsBytes()|)
  {
    hide ResponseBytes, ResponseHead, ContentLength, Lookup, ParseBody, StatusOf, StatusNumber, ParseUnsigned,
      Decimal, AllPrintable, FirstHeaders, ParseResponse;
    PrintedFraming(r);
    ResponseRoundTrip(r);
    var n := |r.body.AsBytes()|;
    ParseDecimal(n, USIZE_MAX);
    KeptLength(r.headers, Header(CONTENT_LENGTH, Decimal(n)));
  }

  /** A status line that is a length field: its second word is the status and the length. */
  function LengthAsStatus(n: u16): bytes {
    HeaderLine(Header(CONTENT_LENGTH, Decimal(n as nat)))
  }

  lemma NameIsWord(name: bytes)
    requires name == CONTENT_LENGTH + [COLON]
    ensures NoSpace(name)
  {
    forall i | 0 <= i < |name| ensures SpaceAt(name, i) == 0 {
      assert i < 14 ==> name[i] == CONTENT_LENGTH[i];
    }
  }

  lemma StatusOfLengthLine(n: u16)
    ensures StatusFrom(LengthAsStatus(n)) == Ok(StatusOf(n))
  {
    hide Words, Decimal, StatusOf, ValidUtf8;
    var line, digits := LengthAsStatus(n), Decimal(n as nat);
    var name := CONTENT_LENGTH + [COLON];
    DecimalIsText(n as nat);
    assert line == name + [SPACE] + digits;
    NameIsWord(name);
    WordsCons(name, digits);
    WordsSingle(digits);
    ParseDecimal(n as nat, 65535);
  }

  lemma LineIsFirst(line: bytes)
    requires line != [] && NoCrlf(line) && ValidUtf8(line)
    ensures FirstLine(line)
  {
  }

  lemma OneField(line: bytes, h: Header)
    requires Field(line) == Some(h)
    ensures Fields([line]) == [h]
  {
    assert [line][1..] == [];
  }

  lemma FramedByFirst(first: bytes, h: Header, hs: seq<Header>)
    requires FirstLine(first) && AllPrintable(hs) && Fields([first]) == [h] && h.name == CONTENT_LENGTH
    ensures ContentLength(Head(first, hs)) == ParseUsize(h.value)
  {
    hide ValidUtf8, Fields, SplitLines, ParseUsize, FirstLine, AllPrintable, Head, HeadText, CONTENT_LENGTH, Lookup;
    var text := HeadText(first, hs);
    HeadIsFound(first, hs, []);
    HeadFields(first, hs);
    ValueInWholeHead(text, CONTENT_LENGTH);
    ScanIsLookup(SplitLines(text), CONTENT_LENGTH);
    OwnName(h);
    LookupAppend([h], hs, CONTENT_LENGTH);
  }

  /**
   `parse_resp` takes the line `Content-Length: 200` for a status line; the
   reader frames by it, and the parsed response declares what its headers say.
   */
  lemma StatusLineFrames(n: u16, hs: seq<Header>, body: bytes)
    requires AllPrintable(hs) && hs != []
    ensures var head := Head(LengthAsStatus(n), hs);
      && ParseResponse(head + body)
        == Ok(HttpResponse(StatusOf(n), FirstHeaders(hs), ParseBody(FirstHeaders(hs), body)))
      && ContentLength(head) == Some(n as nat)
  {
    hide ParseResponse, ContentLength, StatusOf, ParseBody, Head, HeadText, AllPrintable, FirstLine, StatusFrom, Fields,
      Lookup, Printable, HeaderLine, Decimal, CONTENT_LENGTH, FindDoubleCrlf, SplitLines, ParseUnsigned, ValidUtf8;
    var first, h := LengthAsStatus(n), Header(CONTENT_LENGTH, Decimal(n as nat));
    LengthIsPrintable(n as nat);
    HeaderLineReads(h);
    HeaderLineIsLine(h);
    StatusOfLengthLine(n);
    assert FirstLine(first) by {
      LineIsFirst(first);
    }
    HeadParses(first, hs, body);
    OneField(first, h);
    FramedByFirst(first, h, hs);
    ParseDecimal(n as nat, USIZE_MAX);
  }
}
