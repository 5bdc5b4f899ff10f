/** Printed message heads: a first line and header lines, and how they read back. */
module Heads {
  import opened Bytes
  import opened Text
  import opened Protocol
  import opened Framing
  import opened Numbers
  import opened Buffers

  /** One header, as both printers print it. */
  function HeaderLine(h: Header): bytes {
    h.name + HEADER_SEPARATOR + h.value
  }

  /** The pieces both printers push for one header. */
  function LinePieces(h: Header): seq<bytes> {
    [h.name, HEADER_SEPARATOR, h.value, CRLF]
  }

  lemma PiecesOfLine(h: Header)
    ensures Concat(LinePieces(h)) == HeaderLine(h) + CRLF
  {
    ConcatThree(HEADER_SEPARATOR, h.value, CRLF);
    assert LinePieces(h)[1..] == [HEADER_SEPARATOR, h.value, CRLF];
  }

  function HeaderLines(hs: seq<Header>): (r: seq<bytes>)
    ensures |r| == |hs|
  {
    seq(|hs|, i requires 0 <= i < |hs| => HeaderLine(hs[i]))
  }

  lemma NothingJoined(headers: seq<Header>)
    ensures JoinLines(HeaderLines(headers[..0])) == []
  {
  }

  lemma LookupNone(headers: seq<Header>, name: bytes)
    ensures Lookup(headers, name).None? <==> !exists j :: 0 <= j < |headers| && EqIgnoreCase(headers[j].name, name)
  {
  }

  /** One more header printed; and what is printed is never longer than all headers. */
  lemma JoinNext(headers: seq<Header>, i: nat)
    requires i < |headers|
    ensures JoinLines(HeaderLines(headers[..i + 1]))
      == JoinLines(HeaderLines(headers[..i])) + Concat(LinePieces(headers[i]))
    ensures |JoinLines(HeaderLines(headers[..i + 1]))| <= |JoinLines(HeaderLines(headers))|
  {
    PiecesOfLine(headers[i]);
    var done, more := HeaderLines(headers[..i + 1]), HeaderLines(headers[i + 1..]);
    assert HeaderLines(headers) == done + more;
    JoinAppend(done, more);
    assert done == HeaderLines(headers[..i]) + [HeaderLine(headers[i])];
    JoinAppend(HeaderLines(headers[..i]), [HeaderLine(headers[i])]);
    assert JoinLines([HeaderLine(headers[i])]) == HeaderLine(headers[i]) + CRLF;
  }

  /** The header loop of both printers, which also notes whether a `Content-Length` is among them. */
  method WriteHeaders(out: BoundedBuffer, headers: seq<Header>) returns (ok: bool, hasLength: bool)
    requires out.Valid()
    modifies out`contents
    ensures out.Valid()
    ensures ok <==> |old(out.contents)| + |JoinLines(HeaderLines(headers))| <= out.capacity
    ensures ok ==> out.contents == old(out.contents) + JoinLines(HeaderLines(headers))
    ensures ok ==> (hasLength <==> Lookup(headers, CONTENT_LENGTH).Some?)
  {
    hide Lookup, EqIgnoreCase, Concat, JoinLines, HeaderLines;
    ghost var start := out.contents;
    hasLength := false;
    var i := 0;
    NothingJoined(headers);
    while i < |headers|
      invariant 0 <= i <= |headers| && out.Valid()
      invariant out.contents == start + JoinLines(HeaderLines(headers[..i]))
      invariant hasLength <==> exists j :: 0 <= j < i && EqIgnoreCase(headers[j].name, CONTENT_LENGTH)
    {
      JoinNext(headers, i);
      ok := out.PushAll(LinePieces(headers[i]));
      if !ok {
        return;
      }
      if EqIgnoreCase(headers[i].name, CONTENT_LENGTH) {
        hasLength := true;
      }
      i := i + 1;
    }
    assert headers[..i] == headers;
    LookupNone(headers, CONTENT_LENGTH);
    ok := true;
  }

  /** A head: first line, header lines, blank line. */
  function Head(first: bytes, hs: seq<Header>): bytes {
    JoinLines([first] + HeaderLines(hs)) + CRLF
  }

  /** A header whose printed form reads back: trimmed text, the name without colon, neither with CRLF. */
  ghost predicate Printable(h: Header) {
    && ValidUtf8(h.name) && ValidUtf8(h.value)
    && Trimmed(h.name) && Trimmed(h.value)
    && IndexOf(h.name, COLON).None? && NoCrlf(h.name) && NoCrlf(h.value)
  }

  ghost predicate AllPrintable(hs: seq<Header>) {
    forall i :: 0 <= i < |hs| ==> Printable(hs[i])
  }

  ghost predicate FirstLine(first: bytes) {
    first != [] && NoCrlf(first) && ValidUtf8(first)
  }

  /** The automatic `Content-Length` is such a header. */
  lemma LengthIsPrintable(n: nat)
    ensures Printable(Header(CONTENT_LENGTH, Decimal(n)))
  {
    hide ValidUtf8, Trimmed, Decimal;
    DecimalIsText(n);
    WordsAreSolid(CONTENT_LENGTH);
  }

  /** A printed header line reads back as the header. */
  lemma HeaderLineReads(h: Header)
    requires Printable(h)
    ensures Field(HeaderLine(h)) == Some(h)
  {
    hide Trim, Trimmed, ValidUtf8;
    var line, k := HeaderLine(h), |h.name|;
    assert line[..k] == h.name && line[k] == COLON;
    assert forall i :: 0 <= i < k ==> line[i] == h.name[i];
    assert IndexOf(line, COLON) == Some(k);
    assert line[k + 1..] == [SPACE] + h.value;
    TrimBlankPrefix(h.value);
    TrimBlankPrefix(h.name);
  }

  /** So does every line with a colon, whatever white space stands around name and value. */
  lemma FieldReads(a: bytes, name: bytes, b: bytes, c: bytes, value: bytes, d: bytes)
    requires AllBlank(a) && AllBlank(b) && AllBlank(c) && AllBlank(d)
    requires Trimmed(name) && Trimmed(value) && IndexOf(name, COLON).None?
    ensures Field(a + name + b + [COLON] + (c + value + d)) == Some(Header(name, value))
  {
    hide Trim, Trimmed;
    var front, line := a + name + b, a + name + b + [COLON] + (c + value + d);
    NoLetterInBlank(a, 0);
    NoLetterInBlank(b, 0);
    var k := |front|;
    assert line[k] == COLON && line[..k] == front && line[k + 1..] == c + value + d;
    forall i | 0 <= i < k ensures line[i] != COLON {
      var j := i - |a|;
      assert line[i] == if j < 0 then a[i] else if j < |name| then name[j] else b[j - |name|];
    }
    assert IndexOf(line, COLON) == Some(k);
    TrimOfPadded(a, name, b);
    TrimOfPadded(c, value, d);
  }

  lemma HeaderLineIsLine(h: Header)
    requires Printable(h)
    ensures HeaderLine(h) != [] && NoCrlf(HeaderLine(h)) && ValidUtf8(HeaderLine(h))
  {
    hide Trimmed, ValidUtf8;
    var line, k := HeaderLine(h), |h.name|;
    forall i: nat ensures !CrlfAt(line, i) {
      assert CrlfAt(line, i) && i < k ==> CrlfAt(h.name, i);
      assert CrlfAt(line, i) && i >= k ==> i >= k + 2 && CrlfAt(h.value, i - k - 2);
    }
    AsciiIsUtf8(HEADER_SEPARATOR);
    ValidUtf8Append(h.name, HEADER_SEPARATOR);
    ValidUtf8Append(h.name + HEADER_SEPARATOR, h.value);
  }

  lemma {:induction false} HeaderLinesRead(hs: seq<Header>)
    requires AllPrintable(hs)
    ensures Fields(HeaderLines(hs)) == hs
  {
    hide Printable, Field, HeaderLine;
    if hs != [] {
      HeaderLineReads(hs[0]);
      HeaderLinesRead(hs[1..]);
      assert HeaderLines(hs)[1..] == HeaderLines(hs[1..]);
    }
  }

  lemma LinesArePlain(first: bytes, hs: seq<Header>)
    requires FirstLine(first) && AllPrintable(hs)
    ensures PlainLines([first] + HeaderLines(hs))
    ensures forall i :: 0 <= i < |[first] + HeaderLines(hs)| ==> ValidUtf8(([first] + HeaderLines(hs))[i])
  {
    hide Printable, NoCrlf, ValidUtf8, HeaderLine;
    forall h | h in hs ensures HeaderLine(h) != [] && NoCrlf(HeaderLine(h)) && ValidUtf8(HeaderLine(h)) {
      HeaderLineIsLine(h);
    }
  }

  lemma {:induction false} JoinIsUtf8(lines: seq<bytes>)
    requires forall i :: 0 <= i < |lines| ==> ValidUtf8(lines[i])
    ensures ValidUtf8(JoinLines(lines))
  {
    hide ValidUtf8;
    if lines == [] {
      AsciiIsUtf8([]);
    } else {
      JoinIsUtf8(lines[1..]);
      AsciiIsUtf8(CRLF);
      ValidUtf8Append(lines[0], CRLF);
      ValidUtf8Append(lines[0] + CRLF, JoinLines(lines[1..]));
    }
  }

  lemma {:induction false} JoinEndsInCrlf(lines: seq<bytes>)
    requires lines != []
    ensures var j := JoinLines(lines); |j| >= 2 && j == j[..|j| - 2] + CRLF
  {
    if |lines| > 1 {
      JoinEndsInCrlf(lines[1..]);
    } else {
      assert JoinLines(lines[1..]) == [];
    }
  }

  /** The text of a printed head, without its final double CRLF. */
  function HeadText(first: bytes, hs: seq<Header>): (r: bytes)
    ensures Head(first, hs) == r + DOUBLE_CRLF
    ensures JoinLines([first] + HeaderLines(hs)) == r + CRLF
  {
    var joined := JoinLines([first] + HeaderLines(hs));
    JoinEndsInCrlf([first] + HeaderLines(hs));
    joined[..|joined| - 2]
  }

  /** A printed head ends at its first double CRLF, and is text. */
  lemma HeadIsFound(first: bytes, hs: seq<Header>, body: bytes)
    requires FirstLine(first) && AllPrintable(hs)
    ensures FindDoubleCrlf(Head(first, hs) + body) == Some(|HeadText(first, hs)|)
    ensures ValidUtf8(HeadText(first, hs)) && ValidUtf8(Head(first, hs))
  {
    hide FindDoubleCrlf, ValidUtf8, FirstLine, HeaderLines;
    var lines := [first] + HeaderLines(hs);
    LinesArePlain(first, hs);
    HeadEnd(lines, body);
    JoinIsUtf8(lines);
    ValidUtf8Cut(HeadText(first, hs), CRLF);
    AsciiIsUtf8(CRLF);
    ValidUtf8Append(JoinLines(lines), CRLF);
  }

  /** Splitting a printed head at CRLF gives back its lines. */
  lemma HeadSplits(first: bytes, hs: seq<Header>)
    requires FirstLine(first) && AllPrintable(hs)
    ensures SplitLines(HeadText(first, hs)) == [first] + HeaderLines(hs)
  {
    hide FindCrlf, ValidUtf8, HeaderLines, FirstLine;
    var lines, text := [first] + HeaderLines(hs), HeadText(first, hs);
    LinesArePlain(first, hs);
    SplitJoined(lines, []);
    assert SplitLines([]) == [[]];
    assert JoinLines(lines) + [] == text + CRLF + [];
    SplitAtCrlf(text, []);
    assert SplitLines(text) + [[]] == lines + [[]];
    assert SplitLines(text) == (SplitLines(text) + [[]])[..|lines|];
  }

  /** The fields of a printed head are the printed headers, if the first line holds none. */
  lemma HeadFields(first: bytes, hs: seq<Header>)
    requires FirstLine(first) && AllPrintable(hs)
    ensures Fields(SplitLines(HeadText(first, hs))) == Fields([first]) + hs
  {
    HeadSplits(first, hs);
    FieldsAppend([first], HeaderLines(hs));
    HeaderLinesRead(hs);
  }

  /** The declared length of a head with fields `Fields([first]) + hs`. */
  lemma PrintedContentLength(first: bytes, hs: seq<Header>)
    requires FirstLine(first) && AllPrintable(hs)
    requires Lookup(Fields([first]), CONTENT_LENGTH).None?
    ensures ContentLength(HeadText(first, hs)) == LengthField(hs)
  {
    hide ValidUtf8, FirstLine, AllPrintable, Fields, SplitLines;
    HeadIsFound(first, hs, []);
    HeadFields(first, hs);
    ScanIsLookup(SplitLines(HeadText(first, hs)), CONTENT_LENGTH);
    LookupAppend(Fields([first]), hs, CONTENT_LENGTH);
  }

  /** A printed head declares chunked framing exactly when its `Transfer-Encoding` does. */
  lemma PrintedChunked(first: bytes, hs: seq<Header>)
    requires FirstLine(first) && AllPrintable(hs)
    requires Lookup(Fields([first]), TRANSFER_ENCODING).None?
    ensures ChunkedHead(Head(first, hs)) <==>
      match Lookup(hs, TRANSFER_ENCODING)
      case None => false
      case Some(v) => ListsChunked(v)
  {
    hide ValidUtf8, FirstLine, AllPrintable, Fields, SplitLines, ListsChunked;
    var text := HeadText(first, hs);
    HeadIsFound(first, hs, []);
    HeadFields(first, hs);
    FieldsOfWholeHead(text);
    ScanIsLookup(SplitLines(Head(first, hs)), TRANSFER_ENCODING);
    LookupAppend(Fields([first]), hs, TRANSFER_ENCODING);
  }
}
