/**
 Request framing against request parsing: exactly when the reader and the parser
 see the same `Content-Length`, and when a request can lack its body.
 */
module RequestFraming {
  import opened Bytes
  import opened Text
  import opened Numbers
  import opened Protocol
  import opened Framing
  import opened Tables
  import opened Heads
  import opened Requests
  import opened LineFeeds

  // ----- What the reader and the parser see -----

  lemma CrlfInDrop(s: bytes, k: nat, i: nat)
    requires k <= |s|
    ensures CrlfAt(s[k..], i) <==> CrlfAt(s, k + i)
  {
  }

  lemma {:induction false} NoLineIsBlank(s: bytes)
    requires NoBlankLine(s)
    ensures forall i :: 1 <= i < |SplitLines(s)| ==> SplitLines(s)[i] != []
    decreases |s|
  {
    match FindCrlf(s) {
      case None =>
      case Some(p) =>
        var more := s[p + 2..];
        forall i: nat | CrlfAt(more, i) ensures i + 2 < |more| && !CrlfAt(more, i + 2) {
          CrlfInDrop(s, p + 2, i);
          CrlfInDrop(s, p + 2, i + 2);
        }
        NoLineIsBlank(more);
        CrlfInDrop(s, p + 2, 0);
        assert SplitLines(more)[0] != [];
    }
  }

  lemma {:induction false} UntilBlankAppend(lines: seq<bytes>, more: seq<bytes>)
    requires forall i :: 0 <= i < |lines| ==> lines[i] != []
    ensures UntilBlank(lines + more) == lines + UntilBlank(more)
  {
    if lines == [] {
      assert lines + more == more;
    } else {
      UntilBlankAppend(lines[1..], more);
      assert (lines + more)[1..] == lines[1..] + more;
    }
  }

  lemma UntilBlankIsAll(lines: seq<bytes>)
    requires forall i :: 0 <= i < |lines| ==> lines[i] != []
    ensures UntilBlank(lines) == lines
  {
    UntilBlankAppend(lines, []);
    assert lines + [] == lines;
  }

  lemma LengthNameIsSolid(name: bytes)
    requires EqIgnoreCase(name, CONTENT_LENGTH)
    ensures |name| == 14 && forall i :: 0 <= i < |name| ==> WordByte(name[i]) && name[i] != SPACE && name[i] != 120
  {
  }

  /** The value one line gives to `name`. */
  function ValueIn(line: bytes, name: bytes): (r: Option<bytes>)
    ensures r == Lookup(Fields([line]), name)
  {
    assert [line][1..] == [];
    match Field(line)
    case None => None
    case Some(h) => if EqIgnoreCase(h.name, name) then Some(h.value) else None
  }

  /** A request line is never taken for a `Content-Length` field. */
  lemma RequestLineIsNoLength(line: bytes)
    requires Words(line) != [] && MethodOf(Words(line)[0]).Some?
    ensures Lookup(Fields([line]), CONTENT_LENGTH).None?
  {
    hide Words, MethodOf, Trim, EqIgnoreCase, Fields, Lookup;
    if ValueIn(line, CONTENT_LENGTH).Some? {
      var p := IndexOf(line, COLON).value;
      assert line == line[..p] + line[p..];
      LengthNameIsSolid(Trim(line[..p]));
      FirstWordExtends(line[..p], line[p..]);
      assert false;
    }
  }

  /** The first line of `p` is a good request line, and no line behind it is empty before the open one. */
  ghost predicate GoodFront(p: bytes) {
    && RequestLine([SplitLines(p)[0]]).Ok?
    && forall i :: 1 <= i < |FinishedLines(p)| ==> FinishedLines(p)[i] != []
  }

  lemma GoodLine(line: bytes)
    requires RequestLine([line]).Ok?
    ensures Words(line) != [] && MethodOf(Words(line)[0]).Some? && line != []
  {
  }

  lemma OneLineLookup(line: bytes, name: bytes)
    ensures ValueIn(line, name) == Lookup(Fields([line]), name)
  {
  }

  /** The value the lines of `p`, the open one included, give to `Content-Length`. */
  lemma FrontLookup(p: bytes)
    requires GoodFront(p)
    ensures Lookup(Fields(SplitLines(p)[1..]), CONTENT_LENGTH) ==
      var finished := Lookup(Fields(FinishedLines(p)), CONTENT_LENGTH);
      if finished.Some? then finished else ValueIn(OpenLine(p), CONTENT_LENGTH)
  {
    hide SplitLines, Fields, Lookup, Words, MethodOf, ValueIn;
    var lines := SplitLines(p);
    GoodLine(lines[0]);
    RequestLineIsNoLength(lines[0]);
    assert lines == [lines[0]] + lines[1..];
    FieldsAppend([lines[0]], lines[1..]);
    LookupAppend(Fields([lines[0]]), Fields(lines[1..]), CONTENT_LENGTH);
    FieldsAppend(FinishedLines(p), [OpenLine(p)]);
    LookupAppend(Fields(FinishedLines(p)), Fields([OpenLine(p)]), CONTENT_LENGTH);
    FrontLines(p);
    OneLineLookup(OpenLine(p), CONTENT_LENGTH);
  }

  lemma NoFieldInBlank()
    ensures Fields([[]]) == []
  {
    var blank: seq<bytes> := [[]];
    assert Field([]) == None && blank[1..] == [];
  }

  /** Across a bare line feed, the headers of the parser: those of `p`, then those up to the first empty line. */
  lemma ParsedAcross(p: bytes, rest: bytes)
    requires InFrontOfBareLf(p) && GoodFront(p)
    ensures var lines := TextLines(p + [LF] + rest);
      && lines != [] && RequestLine(lines) == RequestLine([SplitLines(p)[0]])
      && Fields(UntilBlank(lines[1..]))
        == Fields(SplitLines(p)[1..]) + if OpenLine(p) == [] then [] else Fields(UntilBlank(TextLines(rest)))
  {
    hide NoBareLf, SplitLines, TextLines, Field, Words;
    var before, more := SplitLines(p), TextLines(rest);
    TextLinesAcross(p, rest);
    FrontLines(p);
    GoodLine(before[0]);
    assert (before + more)[1..] == before[1..] + more;
    if OpenLine(p) == [] {
      var finished := FinishedLines(p)[1..];
      assert before[1..] == finished + [[]];
      UntilBlankAppend(finished, [[]] + more);
      assert before[1..] + more == finished + ([[]] + more);
      FieldsAppend(finished, [[]]);
      NoFieldInBlank();
      assert finished + [] == finished;
    } else {
      UntilBlankAppend(before[1..], more);
      FieldsAppend(before[1..], UntilBlank(more));
    }
  }

  /** Across a bare line feed, the length field of the reader. */
  lemma FramedAcross(p: bytes, rest: bytes)
    requires InFrontOfBareLf(p)
    ensures FindHeaderValue(p + [LF] + rest, CONTENT_LENGTH) ==
      var finished := Lookup(Fields(FinishedLines(p)), CONTENT_LENGTH);
      var open := OpenLine(p) + [LF] + SplitLines(rest)[0];
      if finished.Some? then finished
      else if ValueIn(open, CONTENT_LENGTH).Some? then ValueIn(open, CONTENT_LENGTH)
      else Lookup(Fields(SplitLines(rest)[1..]), CONTENT_LENGTH)
  {
    hide SplitLines, Fields, Lookup, ValueIn, NoBareLf;
    var open, more := OpenLine(p) + [LF] + SplitLines(rest)[0], SplitLines(rest)[1..];
    SplitLinesAcross(p, rest);
    ScanIsLookup(SplitLines(p + [LF] + rest), CONTENT_LENGTH);
    FieldsAppend(FinishedLines(p), [open] + more);
    FieldsAppend([open], more);
    LookupAppend(Fields(FinishedLines(p)), Fields([open] + more), CONTENT_LENGTH);
    LookupAppend(Fields([open]), Fields(more), CONTENT_LENGTH);
    OneLineLookup(open, CONTENT_LENGTH);
  }

  lemma ColonAcross(l: bytes, z: bytes)
    ensures var s := l + [LF] + z;
      match IndexOf(l, COLON)
      case Some(k) => IndexOf(s, COLON) == Some(k) && s[..k] == l[..k] && s[k + 1..] == l[k + 1..] + [LF] + z
      case None => IndexOf(z, COLON).None? ==> IndexOf(s, COLON).None?
  {
    var s := l + [LF] + z;
    assert forall i :: 0 <= i < |l| ==> s[i] == l[i];
    if IndexOf(l, COLON).Some? {
      assert s[IndexOf(l, COLON).value] == COLON;
    } else if IndexOf(z, COLON).None? {
      assert forall i :: |l| < i < |s| ==> s[i] == z[i - |l| - 1];
    }
  }

  /** A line with a colon keeps its name when it goes on; its value is trimmed across the line feed. */
  lemma OpenField(l: bytes, z: bytes, name: bytes)
    requires ValueIn(l, name).Some?
    ensures IndexOf(l, COLON).Some?
    ensures var raw := l[IndexOf(l, COLON).value + 1..];
      ValueIn(l, name) == Some(Trim(raw)) && ValueIn(l + [LF] + z, name) == Some(Trim(raw + [LF] + z))
  {
    hide Fields, Lookup, Trim, EqIgnoreCase, IndexOf;
    ColonAcross(l, z);
  }

  /** A line that is no field of some name does not become one when it goes on, if a colon fixed its name. */
  lemma NoFieldStaysNone(l: bytes, z: bytes, name: bytes)
    requires ValueIn(l, name).None? && (IndexOf(l, COLON).Some? || IndexOf(z, COLON).None?)
    ensures ValueIn(l + [LF] + z, name).None?
  {
    hide Fields, Lookup, Trim, EqIgnoreCase, IndexOf;
    ColonAcross(l, z);
  }

  // ----- When they agree -----

  /** The head of a request, without its final double CRLF. */
  function HeadOf(data: bytes): bytes
    requires FindDoubleCrlf(data).Some?
  {
    data[..FindDoubleCrlf(data).value]
  }

  /** The length the reader framed the request by is the length the parsed request declares. */
  predicate LengthsAgree(data: bytes)
    requires ParseRequest(data).Ok?
  {
    ContentLength(HeadOf(data)) == ParseRequest(data).value.DeclaredLength()
  }

  /** The parsed request has the body it declares. */
  predicate HasWholeBody(data: bytes)
    requires ParseRequest(data).Ok?
  {
    var request := ParseRequest(data).value;
    request.DeclaredLength().Some? ==> |request.body| >= request.DeclaredLength().value
  }

  /** `data` is a request that parses, and its first bare line feed stands behind `p`. */
  ghost predicate Cuts(p: bytes, data: bytes) {
    ParseRequest(data).Ok? && InFrontOfBareLf(p) && p + [LF] <= HeadOf(data)
  }

  /**
   What decides about the length in front of a bare line feed: a length field on
   a finished line, or an open length field whose value so far is neither blank
   nor a number.
   */
  predicate LengthSettled(p: bytes) {
    || Lookup(Fields(FinishedLines(p)), CONTENT_LENGTH).Some?
    || match ValueIn(OpenLine(p), CONTENT_LENGTH)
       case None => false
       case Some(v) => v != [] && ParseUsize(v).None?
  }

  /**
   What decides that no body can be missing: a length field on a finished line,
   an open one that declares no byte, or no way left to add one.
   */
  predicate BodySettled(p: bytes) {
    || Lookup(Fields(FinishedLines(p)), CONTENT_LENGTH).Some?
    || match ValueIn(OpenLine(p), CONTENT_LENGTH)
       case None => OpenLine(p) == [] || |Fields(SplitLines(p)[1..])| >= MAX_HEADERS
       case Some(v) => ParseUsize(v).None? || ParseUsize(v) == Some(0)
  }

  lemma FirstLineDecides(lines: seq<bytes>, first: bytes)
    requires lines != [] && lines[0] == first
    ensures RequestLine(lines) == RequestLine([first])
  {
    hide Words, MethodOf;
  }

  /** What a request cut by a bare line feed looks like to both sides. */
  lemma CutRequest(p: bytes, data: bytes) returns (rest: bytes)
    requires Cuts(p, data)
    ensures HeadOf(data) == p + [LF] + rest && ValidUtf8(p) && GoodFront(p)
    ensures ContentLength(HeadOf(data)) ==
      match FindHeaderValue(p + [LF] + rest, CONTENT_LENGTH)
      case None => None
      case Some(v) => ParseUsize(v)
    ensures ParseRequest(data).value.headers
      == Fields(SplitLines(p)[1..]) + if OpenLine(p) == [] then [] else Fields(UntilBlank(TextLines(rest)))
    ensures |ParseRequest(data).value.headers| <= MAX_HEADERS
  {
    hide ValidUtf8, FindDoubleCrlf, NoBareLf, SplitLines, TextLines, Fields, Words, MethodOf, UntilBlank, NoBlankLine,
      FindHeaderValue;
    var head := HeadOf(data);
    rest := head[|p| + 1..];
    assert head == p + [LF] + rest == p + ([LF] + rest);
    ValidUtf8Cut(p, [LF] + rest);
    NoCrlfAtCut(data, |head|);
    NoLineIsBlank(head);
    SplitLinesAcross(p, rest);
    TextLinesAcross(p, rest);
    FrontLines(p);
    var finished := FinishedLines(p);
    forall i | 1 <= i < |finished| ensures finished[i] != [] {
      assert SplitLines(head)[i] == finished[i];
    }
    FirstLineDecides(TextLines(head), SplitLines(p)[0]);
    ParsedAcross(p, rest);
  }

  /** A value that is neither blank nor a number is no number across a line feed either. */
  lemma NoNumberAcrossLf(raw: bytes, z: bytes)
    requires Trim(raw) != [] && ParseUsize(Trim(raw)).None?
    ensures ParseUsize(Trim(raw + [LF] + z)).None?
  {
    hide Trim, ParseUsize;
    TrimAcrossLf(raw, z);
    var w := Trim(raw + [LF] + z);
    if ParseUsize(w).Some? {
      NumberIsDigits(w);
    }
  }

  /** A settled length is the same for both sides. */
  lemma SettledAgrees(p: bytes, data: bytes)
    requires Cuts(p, data) && LengthSettled(p)
    ensures LengthsAgree(data)
  {
    hide ValidUtf8, FindDoubleCrlf, NoBareLf, SplitLines, TextLines, Fields, UntilBlank, ParseRequest, Lookup,
      ContentLength, FindHeaderValue, ParseUsize, ValueIn, GoodFront, InFrontOfBareLf, OpenLine, FinishedLines;
    var rest := CutRequest(p, data);
    var open, z := OpenLine(p), SplitLines(rest)[0];
    FramedAcross(p, rest);
    FrontLookup(p);
    LookupAppend(Fields(SplitLines(p)[1..]), if open == [] then [] else Fields(UntilBlank(TextLines(rest))),
                 CONTENT_LENGTH);
    if Lookup(Fields(FinishedLines(p)), CONTENT_LENGTH).None? {
      OpenField(open, z, CONTENT_LENGTH);
      NoNumberAcrossLf(open[IndexOf(open, COLON).value + 1..], z);
    }
  }

  // ----- When they do not -----

  /** A request head cut by a bare line feed, continued with `rest`. */
  function Continued(p: bytes, rest: bytes): bytes {
    p + [LF] + rest + DOUBLE_CRLF
  }

  lemma NoHeadEndInCut(p: bytes, data: bytes)
    requires FindDoubleCrlf(data).Some? && p <= HeadOf(data)
    ensures forall j: nat :: !DoubleCrlfAt(p, j)
  {
    forall j: nat ensures !DoubleCrlfAt(p, j) {
      assert DoubleCrlfAt(p, j) ==> DoubleCrlfAt(data, j);
    }
  }

  /** A bare line feed is no part of a double CRLF. */
  lemma NoHeadEndInFront(p: bytes, tail: bytes)
    requires InFrontOfBareLf(p) && forall j: nat :: !DoubleCrlfAt(p, j)
    ensures forall j: nat :: j <= |p| ==> !DoubleCrlfAt(p + [LF] + tail, j)
  {
    var s := p + [LF] + tail;
    assert s[|p|] == LF && forall i :: 0 <= i < |p| ==> s[i] == p[i];
    forall j: nat | j <= |p| ensures !DoubleCrlfAt(s, j) {
      assert j + 4 <= |p| && DoubleCrlfAt(s, j) ==> DoubleCrlfAt(p, j);
    }
  }

  lemma ContinuedHead(p: bytes, rest: bytes)
    requires InFrontOfBareLf(p) && forall j: nat :: !DoubleCrlfAt(p, j)
    requires FindDoubleCrlf(rest + DOUBLE_CRLF) == Some(|rest|)
    ensures FindDoubleCrlf(Continued(p, rest)) == Some(|p| + 1 + |rest|)
  {
    hide InFrontOfBareLf, FindDoubleCrlf, DoubleCrlfAt;
    var front, tail := p + [LF], rest + DOUBLE_CRLF;
    assert Continued(p, rest) == front + tail;
    NoHeadEndInFront(p, tail);
    ShiftedSearch(front, tail);
  }

  /** The parser accepts any continuation that does not bring too many headers. */
  lemma StillParses(p: bytes, rest0: bytes, rest: bytes, body: bytes)
    requires InFrontOfBareLf(p) && GoodFront(p) && RequestFrom(p + [LF] + rest0, body).Ok?
    requires OpenLine(p) == []
      || |Fields(SplitLines(p)[1..])| + |Fields(UntilBlank(TextLines(rest)))| <= MAX_HEADERS
    ensures RequestFrom(p + [LF] + rest, []).Ok? && RequestFrom(p + [LF] + rest, []).value.body == []
  {
    hide SplitLines, TextLines, Fields, Words, MethodOf, UntilBlank, GoodFront, InFrontOfBareLf, OpenLine,
      FinishedLines;
    ParsedAcross(p, rest0);
    ParsedAcross(p, rest);
  }

  lemma ParsedFromHead(data: bytes)
    requires ParseRequest(data).Ok?
    ensures FindDoubleCrlf(data).Some?
    ensures RequestFrom(HeadOf(data), data[FindDoubleCrlf(data).value + 4..]).Ok?
  {
    hide FindDoubleCrlf, ValidUtf8, RequestFrom;
  }

  lemma HeadParsesAlone(head: bytes)
    requires FindDoubleCrlf(head + DOUBLE_CRLF) == Some(|head|) && ValidUtf8(head)
    ensures HeadOf(head + DOUBLE_CRLF) == head && ParseRequest(head + DOUBLE_CRLF) == RequestFrom(head, [])
  {
    hide FindDoubleCrlf, ValidUtf8, RequestFrom;
    var data := head + DOUBLE_CRLF;
    assert data[..|head|] == head && data[|head| + 4..] == [];
  }

  /** Any continuation without double CRLF or too many headers parses, with an empty body. */
  lemma ContinuationParses(p: bytes, data: bytes, rest: bytes)
    requires Cuts(p, data) && ValidUtf8(rest) && FindDoubleCrlf(rest + DOUBLE_CRLF) == Some(|rest|)
    requires OpenLine(p) == []
      || |Fields(SplitLines(p)[1..])| + |Fields(UntilBlank(TextLines(rest)))| <= MAX_HEADERS
    ensures var other := Continued(p, rest);
      && Cuts(p, other) && HeadOf(other) == p + [LF] + rest
      && ParseRequest(other).value.body == [] && FindDoubleCrlf(other) == Some(|other| - 4)
  {
    hide ValidUtf8, FindDoubleCrlf, SplitLines, TextLines, Fields, UntilBlank, GoodFront, InFrontOfBareLf, OpenLine,
      FinishedLines, ParseRequest, RequestFrom, HeadOf;
    var rest0 := CutRequest(p, data);
    var other, head := Continued(p, rest), p + [LF] + rest;
    ParsedFromHead(data);
    NoHeadEndInCut(p, data);
    ContinuedHead(p, rest);
    AsciiIsUtf8([LF]);
    ValidUtf8Append(p, [LF]);
    ValidUtf8Append(p + [LF], rest);
    HeadParsesAlone(head);
    StillParses(p, rest0, rest, data[FindDoubleCrlf(data).value + 4..]);
  }

  /** A header line that declares `n` bytes. */
  function LengthLine(n: nat): bytes {
    HeaderLine(Header(CONTENT_LENGTH, Decimal(n)))
  }

  lemma LengthLineHasNoLf(n: nat)
    ensures NoLf(LengthLine(n))
  {
    hide Decimal;
  }

  lemma LengthLineReads(n: nat)
    requires n <= USIZE_MAX
    ensures ValueIn(LengthLine(n), CONTENT_LENGTH) == Some(Decimal(n)) && ParseUsize(Decimal(n)) == Some(n)
    ensures |Fields([LengthLine(n)])| == 1
    ensures NoLf(LengthLine(n)) && NoCrlf(LengthLine(n)) && ValidUtf8(LengthLine(n)) && LengthLine(n) != []
  {
    hide ValidUtf8, Decimal, Printable, CONTENT_LENGTH;
    var h := Header(CONTENT_LENGTH, Decimal(n));
    LengthIsPrintable(n);
    HeaderLineReads(h);
    HeaderLineIsLine(h);
    ParseDecimal(n, USIZE_MAX);
    assert [LengthLine(n)][1..] == [];
    LengthLineHasNoLf(n);
  }

  /** A line without line feed, as a continuation. */
  lemma PlainContinuation(z: bytes)
    requires NoLf(z) && z != []
    ensures SplitLines(z) == [z] && TextLines(z) == [z] && UntilBlank(TextLines(z)) == [z]
  {
    hide SplitLines, TextLines;
    NoLfNoBareLf(z);
    UntilBlankIsAll([z]);
  }

  lemma HeadEndsBehind(z: bytes)
    requires NoCrlf(z)
    ensures FindDoubleCrlf(z + DOUBLE_CRLF) == Some(|z|)
  {
    hide FindDoubleCrlf;
    FirstLineEndsHead(z, []);
    assert z + CRLF + (CRLF + []) == z + DOUBLE_CRLF;
  }

  lemma HeadEndsBehindSecond(z: bytes)
    requires NoCrlf(z) && z != [] && z[0] != CR
    ensures FindDoubleCrlf(CRLF + z + DOUBLE_CRLF) == Some(2 + |z|)
  {
    hide FindDoubleCrlf;
    HeadEndsBehind(z);
    FirstLineGoesOn([], z + DOUBLE_CRLF);
    assert [] + CRLF + (z + DOUBLE_CRLF) == CRLF + z + DOUBLE_CRLF;
  }

  lemma FirstOfLengthLine(n: nat)
    ensures LengthLine(n) != [] && LengthLine(n)[0] != CR
  {
  }

  /** A length field behind an empty line: the reader finds it, the parser has stopped. */
  lemma HiddenContinuation(n: nat)
    requires n <= USIZE_MAX
    ensures var rest := CRLF + LengthLine(n);
      && SplitLines(rest) == [[], LengthLine(n)] && UntilBlank(TextLines(rest)) == []
      && ValidUtf8(rest) && FindDoubleCrlf(rest + DOUBLE_CRLF) == Some(|rest|)
  {
    hide FindDoubleCrlf, ValidUtf8, LengthLine, SplitLines, TextLines, NoCrlf, NoLf;
    var line := LengthLine(n);
    var rest := CRLF + line;
    LengthLineReads(n);
    PlainContinuation(line);
    AsciiIsUtf8(CRLF);
    ValidUtf8Append(CRLF, line);
    assert rest[1] == LF && rest[0] == CR;
    FirstLineAgrees(rest, 1);
    assert rest[..0] == [] && rest[2..] == line;
    FirstOfLengthLine(n);
    HeadEndsBehindSecond(line);
  }

  /** A length field behind a bare line feed of its own: the parser finds it, the reader does not. */
  lemma ShownContinuation(n: nat)
    requires n <= USIZE_MAX
    ensures var rest := [120, LF] + LengthLine(n);
      && SplitLines(rest) == [rest] && UntilBlank(TextLines(rest)) == [[120], LengthLine(n)]
      && ValidUtf8(rest) && FindDoubleCrlf(rest + DOUBLE_CRLF) == Some(|rest|)
  {
    hide FindDoubleCrlf, ValidUtf8, LengthLine, SplitLines, TextLines;
    var line := LengthLine(n);
    var rest := [120, LF] + line;
    LengthLineReads(n);
    PlainContinuation(line);
    PlainContinuation([120]);
    AsciiIsUtf8([120, LF]);
    ValidUtf8Append([120, LF], line);
    assert rest == [120] + [LF] + line;
    TextLinesAcross([120], line);
    assert SplitLines([120]) + [line] == [[120], line];
    UntilBlankIsAll([[120], line]);
    FindCrlfBehind([120], line);
    SplitOnce(rest);
    HeadEndsBehind(rest);
  }

  /** A continuation on which reader and parser see different lengths, unless the length is settled. */
  function Misframed(p: bytes): bytes {
    match ValueIn(OpenLine(p), CONTENT_LENGTH)
    case None => CRLF + LengthLine(0)
    case Some(v) => if v == [] then Decimal(0) else [120]
  }

  lemma NoFields()
    ensures Fields([]) == [] && forall name :: Lookup([], name).None?
  {
  }

  lemma ZeroIsDigit()
    ensures Decimal(0) == [48]
  {
  }

  /** A digit or a letter as a continuation holds no field. */
  lemma WordContinuation(z: bytes)
    requires |z| == 1 && 48 <= z[0] <= 120 && z[0] != COLON
    ensures ValidUtf8(z) && SplitLines(z) == [z] && Fields(UntilBlank(TextLines(z))) == []
    ensures FindDoubleCrlf(z + DOUBLE_CRLF) == Some(|z|)
  {
    hide SplitLines, TextLines, FindDoubleCrlf, UntilBlank;
    AsciiIsUtf8(z);
    PlainContinuation(z);
    HeadEndsBehind(z);
    assert [z][1..] == [] && Field(z) == None;
  }

  lemma BlankThenLf(raw: bytes)
    requires AllBlank(raw)
    ensures AllBlank(raw + [LF]) && AllBlank([])
  {
    BlankEndSkips(raw, [LF], 0);
  }

  lemma BlankThenDigits(raw: bytes, n: nat)
    requires Trim(raw) == [] && n <= USIZE_MAX
    ensures ParseUsize(Trim(raw + [LF] + Decimal(n))) == Some(n)
  {
    hide Trim, Decimal;
    var a, b := TrimSplits(raw);
    DecimalIsText(n);
    BlankThenLf(raw);
    TrimPadded(raw + [LF], Decimal(n), []);
    assert raw + [LF] + Decimal(n) + [] == raw + [LF] + Decimal(n);
    ParseDecimal(n, USIZE_MAX);
  }

  lemma EmptyIsNoNumber()
    ensures ParseUsize([]) == None
  {
  }

  /** A visible byte at the end is never trimmed off. */
  lemma LastLetterStays(s: bytes)
    requires s != [] && s[|s| - 1] == 120
    ensures Trim(s) != [] && Trim(s)[|Trim(s)| - 1] == 120
  {
    hide Trim;
    var a, b := TrimSplits(s);
    NoLetterInBlank(a, 0);
    NoLetterInBlank(b, 0);
  }

  lemma LetterSpoilsNumber(raw: bytes)
    requires Trim(raw) != []
    ensures ParseUsize(Trim(raw + [LF] + [120])).None?
  {
    hide Trim, ParseUsize;
    var s := raw + [LF] + [120];
    TrimAcrossLf(raw, [120]);
    LastLetterStays(s);
    var w := Trim(s);
    if ParseUsize(w).Some? {
      NumberIsDigits(w);
    }
  }

  /** An open length field: a digit fills a blank value, a letter spoils a number. */
  lemma CutValue(open: bytes, z: bytes)
    requires ValueIn(open, CONTENT_LENGTH).Some?
    requires var v := ValueIn(open, CONTENT_LENGTH).value;
      (v == [] && z == Decimal(0)) || (ParseUsize(v).Some? && z == [120])
    ensures var v, w := ValueIn(open, CONTENT_LENGTH).value, ValueIn(open + [LF] + z, CONTENT_LENGTH);
      w.Some? && ParseUsize(w.value) == (if v == [] then Some(0) else None)
    ensures ValueIn(open, CONTENT_LENGTH).value == [] ==> ParseUsize([]) == None
  {
    hide ParseUsize, Trim, Decimal, ValueIn;
    OpenField(open, z, CONTENT_LENGTH);
    var raw := open[IndexOf(open, COLON).value + 1..];
    if Trim(raw) == [] {
      BlankThenDigits(raw, 0);
      EmptyIsNoNumber();
    } else {
      LetterSpoilsNumber(raw);
    }
  }

  lemma SameRest(p: bytes, x: bytes, y: bytes)
    requires p + [LF] + x == p + [LF] + y
    ensures x == y
  {
    assert (p + [LF] + x)[|p| + 1..] == x && (p + [LF] + y)[|p| + 1..] == y;
  }

  lemma MisframedDisagrees(p: bytes, data: bytes)
    requires Cuts(p, data) && !LengthSettled(p)
    ensures var other := Continued(p, Misframed(p)); Cuts(p, other) && !LengthsAgree(other)
  {
    hide ValidUtf8, FindDoubleCrlf, NoBareLf, SplitLines, TextLines, Fields, UntilBlank, ParseRequest, Lookup, Decimal,
      ContentLength, FindHeaderValue, ValueIn, GoodFront, InFrontOfBareLf, OpenLine, FinishedLines, LengthLine;
    var open, z := OpenLine(p), Misframed(p);
    var rest0 := CutRequest(p, data);
    if ValueIn(open, CONTENT_LENGTH).None? {
      HiddenContinuation(0);
      LengthLineReads(0);
      NoFieldStaysNone(open, [], CONTENT_LENGTH);
      OneLineLookup(LengthLine(0), CONTENT_LENGTH);
      NoFields();
    } else {
      ZeroIsDigit();
      WordContinuation(z);
      CutValue(open, z);
    }
    ContinuationParses(p, data, z);
    var rest := CutRequest(p, Continued(p, z));
    SameRest(p, rest, z);
    FramedAcross(p, z);
    FrontLookup(p);
    LookupAppend(Fields(SplitLines(p)[1..]), if open == [] then [] else Fields(UntilBlank(TextLines(z))),
                 CONTENT_LENGTH);
  }

  /** A continuation that lets a request pass without its body, unless that is settled. */
  function Bodyless(p: bytes): bytes {
    if ValueIn(OpenLine(p), CONTENT_LENGTH).None? then [120, LF] + LengthLine(1) else [120]
  }

  lemma ShownFields(n: nat)
    requires n <= USIZE_MAX
    ensures |Fields([[120], LengthLine(n)])| == 1
    ensures var v := Lookup(Fields([[120], LengthLine(n)]), CONTENT_LENGTH); v.Some? && ParseUsize(v.value) == Some(n)
  {
    hide LengthLine, Decimal;
    LengthLineReads(n);
    OneLineLookup(LengthLine(n), CONTENT_LENGTH);
    assert [[120], LengthLine(n)] == [[120]] + [LengthLine(n)];
    assert Field([120]) == None && [[120]][1..] == [];
    FieldsAppend([[120]], [LengthLine(n)]);
  }

  lemma SpoiledColon(open: bytes, n: nat)
    requires IndexOf(open, COLON).None?
    ensures var s, front := open + [LF] + ([120, LF] + LengthLine(n)), open + [LF] + [120] + [LF] + CONTENT_LENGTH;
      IndexOf(s, COLON) == Some(|front|) && s[..|front|] == front
  {
    hide Decimal;
    var s, front := open + [LF] + ([120, LF] + LengthLine(n)), open + [LF] + [120] + [LF] + CONTENT_LENGTH;
    var after := [SPACE] + Decimal(n);
    assert s == front + ([COLON] + after);
    assert s[|front|] == COLON;
    forall i | 0 <= i < |front| ensures s[i] != COLON {
      assert s[i] == front[i];
      if i < |open| {
        assert front[i] == open[i];
      } else if i >= |open| + 3 {
        assert front[i] == CONTENT_LENGTH[i - |open| - 3];
      }
    }
  }

  /** Behind a letter of its own line, `Content-Length` is no name for the reader. */
  lemma NameSpoiled(open: bytes, n: nat)
    requires ValueIn(open, CONTENT_LENGTH).None?
    ensures ValueIn(open + [LF] + ([120, LF] + LengthLine(n)), CONTENT_LENGTH).None?
  {
    hide Fields, Lookup, Trim, Decimal, LengthLine;
    var z := [120, LF] + LengthLine(n);
    if IndexOf(open, COLON).Some? {
      NoFieldStaysNone(open, z, CONTENT_LENGTH);
    } else {
      var front := open + [LF] + [120];
      SpoiledColon(open, n);
      LastLetterStays(front);
      TrimAcrossLf(front, CONTENT_LENGTH);
      var name := Trim(front + [LF] + CONTENT_LENGTH);
      if EqIgnoreCase(name, CONTENT_LENGTH) {
        LengthNameIsSolid(name);
        assert false;
      }
    }
  }

  lemma BodylessPasses(p: bytes, data: bytes)
    requires Cuts(p, data) && !BodySettled(p)
    ensures var other := Continued(p, Bodyless(p)); Cuts(p, other) && RequestComplete(other) && !HasWholeBody(other)
  {
    hide ValidUtf8, FindDoubleCrlf, NoBareLf, SplitLines, TextLines, Fields, UntilBlank, ParseRequest, Lookup, Decimal,
      ContentLength, FindHeaderValue, ValueIn, GoodFront, InFrontOfBareLf, OpenLine, FinishedLines, LengthLine;
    var open, z := OpenLine(p), Bodyless(p);
    var rest0 := CutRequest(p, data);
    if ValueIn(open, CONTENT_LENGTH).None? {
      ShownContinuation(1);
      ShownFields(1);
      NameSpoiled(open, 1);
    } else {
      WordContinuation(z);
      CutValue(open, z);
    }
    NoFields();
    assert SplitLines(z)[1..] == [];
    ContinuationParses(p, data, z);
    var rest := CutRequest(p, Continued(p, z));
    SameRest(p, rest, z);
    FramedAcross(p, z);
    FrontLookup(p);
    LookupAppend(Fields(SplitLines(p)[1..]), if open == [] then [] else Fields(UntilBlank(TextLines(z))),
                 CONTENT_LENGTH);
  }

  /** A request framed by the length it declares has its whole body. */
  lemma AgreedIsWhole(data: bytes)
    requires ParseRequest(data).Ok? && RequestComplete(data) && LengthsAgree(data)
    ensures HasWholeBody(data)
  {
    hide ValidUtf8, FindDoubleCrlf, ContentLength, Lookup, TextLines;
  }

  /** With a settled body no byte of it is missing. */
  lemma SettledIsWhole(p: bytes, data: bytes)
    requires Cuts(p, data) && BodySettled(p) && RequestComplete(data)
    ensures HasWholeBody(data)
  {
    hide ValidUtf8, FindDoubleCrlf, NoBareLf, SplitLines, TextLines, Fields, UntilBlank, Lookup, RequestFrom,
      ContentLength, FindHeaderValue, ParseUsize, ValueIn, GoodFront, InFrontOfBareLf, OpenLine, FinishedLines;
    if Lookup(Fields(FinishedLines(p)), CONTENT_LENGTH).Some? {
      SettledAgrees(p, data);
      AgreedIsWhole(data);
    } else {
      var rest := CutRequest(p, data);
      FrontLookup(p);
      var more := if OpenLine(p) == [] then [] else Fields(UntilBlank(TextLines(rest)));
      LookupAppend(Fields(SplitLines(p)[1..]), more, CONTENT_LENGTH);
      NoFields();
      assert |Fields(SplitLines(p)[1..])| >= MAX_HEADERS ==> more == [];
    }
  }

  // ----- The exact conditions -----

  /**
   Framing agrees with parsing for every continuation of a head cut by a bare
   line feed if and only if the text in front of it settles the length.
   */
  lemma FramingAgreesExactly(p: bytes, data: bytes)
    requires Cuts(p, data)
    ensures LengthSettled(p) <==> forall other :: Cuts(p, other) ==> LengthsAgree(other)
  {
    hide LengthSettled, LengthsAgree, ParseRequest, InFrontOfBareLf;
    if LengthSettled(p) {
      forall other | Cuts(p, other) ensures LengthsAgree(other) {
        SettledAgrees(p, other);
      }
    } else {
      MisframedDisagrees(p, data);
    }
  }

  /**
   Every continuation that the reader takes for complete has its whole declared
   body if and only if the text in front of the bare line feed settles that.
   */
  lemma BodyIsWholeExactly(p: bytes, data: bytes)
    requires Cuts(p, data)
    ensures BodySettled(p) <==> forall other :: Cuts(p, other) && RequestComplete(other) ==> HasWholeBody(other)
  {
    hide BodySettled, HasWholeBody, ParseRequest, RequestComplete, InFrontOfBareLf;
    if BodySettled(p) {
      forall other | Cuts(p, other) && RequestComplete(other) ensures HasWholeBody(other) {
        SettledIsWhole(p, other);
      }
    } else {
      BodylessPasses(p, data);
    }
  }

  /** Where the first bare line feed of `s` stands. */
  function FirstBareLf(s: bytes): (r: Option<nat>)
    ensures r.None? <==> NoBareLf(s)
    ensures r.Some? ==> r.value < |s| && s[r.value] == LF && InFrontOfBareLf(s[..r.value])
  {
    if s == [] then None else
    var n := |s| - 1;
    match FirstBareLf(s[..n])
    case Some(k) => Some(k)
    case None => if s[n] == LF && (n == 0 || s[n - 1] != CR) then Some(n) else None
  }

  /** The length is settled: no bare line feed, or a good text in front of the first. */
  predicate HeadSettled(head: bytes) {
    match FirstBareLf(head)
    case None => true
    case Some(k) => LengthSettled(head[..k])
  }

  /** A request head cut at its double CRLF has the same lines under both ways of cutting. */
  lemma HeadLines(data: bytes, d: nat)
    requires FindDoubleCrlf(data) == Some(d) && NoBareLf(data[..d]) && d > 0
    ensures TextLines(data[..d]) == SplitLines(data[..d])
    ensures UntilBlank(TextLines(data[..d])[1..]) == SplitLines(data[..d])[1..]
  {
    hide FindDoubleCrlf, SplitLines, TextLines;
    var head := data[..d];
    NoCrlfAtCut(data, d);
    assert head[d - 1] == LF ==> CrlfAt(head, d - 2);
    LinesAgree(head);
    NoLineIsBlank(head);
    UntilBlankIsAll(SplitLines(head)[1..]);
  }

  lemma EmptyHeadFails(body: bytes)
    ensures RequestFrom([], body).Err?
  {
  }

  /** The head of a request that parses is not empty. */
  lemma HeadIsNotEmpty(data: bytes)
    requires ParseRequest(data).Ok?
    ensures HeadOf(data) != []
  {
    hide FindDoubleCrlf, ValidUtf8, RequestFrom;
    EmptyHeadFails(data[FindDoubleCrlf(data).value + 4..]);
  }

  /**
   Framing agrees with parsing on the server: the length the reader framed the
   request by is the length the parsed request declares.
   */
  lemma FramingAgrees(data: bytes)
    requires ParseRequest(data).Ok? && HeadSettled(HeadOf(data))
    ensures LengthsAgree(data)
  {
    hide ValidUtf8, FindDoubleCrlf, Words, SplitLines, Fields, Lookup, TextLines, UntilBlank, MethodOf, LengthSettled,
      NoBareLf, InFrontOfBareLf;
    var head := HeadOf(data);
    match FirstBareLf(head) {
      case Some(k) =>
        assert head[..k] + [LF] == head[..k + 1];
        SettledAgrees(head[..k], data);
      case None =>
        HeadIsNotEmpty(data);
        HeadLines(data, |head|);
        var lines := SplitLines(head);
        assert lines == [lines[0]] + lines[1..];
        RequestLineIsNoLength(lines[0]);
        FieldsAppend([lines[0]], lines[1..]);
        ScanIsLookup(lines, CONTENT_LENGTH);
        LookupAppend(Fields([lines[0]]), Fields(lines[1..]), CONTENT_LENGTH);
    }
  }

  /** Hence a request that passed the reader and the parser has its whole declared body. */
  lemma BodyIsWhole(data: bytes)
    requires RequestComplete(data) && ParseRequest(data).Ok?
    requires match FirstBareLf(HeadOf(data)) case None => true case Some(k) => BodySettled(HeadOf(data)[..k])
    ensures HasWholeBody(data)
  {
    hide RequestComplete, ValidUtf8, FindDoubleCrlf, RequestFrom, LengthsAgree, HasWholeBody, NoBareLf,
      InFrontOfBareLf, BodySettled;
    match FirstBareLf(HeadOf(data)) {
      case Some(k) =>
        assert HeadOf(data)[..k] + [LF] == HeadOf(data)[..k + 1];
        SettledIsWhole(HeadOf(data)[..k], data);
      case None =>
        FramingAgrees(data);
        AgreedIsWhole(data);
    }
  }
}
