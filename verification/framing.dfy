/** The framing rules of `src/codec.rs` and `src/server/io.rs`: when a message has arrived. */
module Framing {
  import opened Bytes
  import opened Text
  import opened Numbers
  import opened Protocol

  /** `content_length`: the declared body length of a head. */
  function ContentLength(head: bytes): Option<nat> {
    if !ValidUtf8(head) then None else
    match FindHeaderValue(head, CONTENT_LENGTH)
    case None => None
    case Some(v) => ParseUsize(v)
  }

  /** The length a list of headers declares: the first `Content-Length`, if it is a number. */
  function LengthField(hs: seq<Header>): Option<nat> {
    match Lookup(hs, CONTENT_LENGTH)
    case None => None
    case Some(v) => ParseUsize(v)
  }

  /** Some coding of a `Transfer-Encoding` value is `chunked`. */
  predicate ListsChunked(value: bytes) {
    var codings := Split(value, COMMA);
    exists i :: 0 <= i < |codings| && EqIgnoreCase(Trim(codings[i]), CHUNKED)
  }

  predicate ChunkedHead(head: bytes) {
    ValidUtf8(head) &&
    match FindHeaderValue(head, TRANSFER_ENCODING)
    case None => false
    case Some(v) => ListsChunked(v)
  }

  predicate Chunked(data: bytes) {
    match FindDoubleCrlf(data)
    case None => false
    case Some(d) => ChunkedHead(data[..d + 4])
  }

  /** `complete`: a response with a declared length has fully arrived. */
  predicate Complete(data: bytes) {
    match FindDoubleCrlf(data)
    case None => false
    case Some(d) =>
      if Chunked(data) then Find(data, CHUNKED_END_MARKER).Some?
      else
        match ContentLength(data[..d + 4])
        case None => false
        case Some(n) => |data| - (d + 4) >= n
  }

  predicate DeclaresLength(data: bytes) {
    match FindDoubleCrlf(data)
    case None => false
    case Some(d) => Chunked(data) || ContentLength(data[..d + 4]).Some?
  }

  /** The test of the request reader: head complete, and any declared body with it. */
  predicate RequestComplete(data: bytes) {
    match FindDoubleCrlf(data)
    case None => false
    case Some(d) =>
      match ContentLength(data[..d])
      case None => true
      case Some(n) => |data| >= d + 4 + n
  }

  /** A head found in a prefix is the head of the whole. */
  lemma HeadInPrefix(p: bytes, q: bytes)
    requires FindDoubleCrlf(p).Some?
    ensures FindDoubleCrlf(p + q) == FindDoubleCrlf(p)
    ensures var d := FindDoubleCrlf(p).value;
      d + 4 <= |p| && (p + q)[..d + 4] == p[..d + 4] && (p + q)[..d] == p[..d]
  {
    assert (p + q)[..|p|] == p;
    FindInPrefix(p + q, DOUBLE_CRLF, |p|);
  }

  /** Framing decisions are never taken back when more bytes arrive. */
  lemma FramingIsMonotone(p: bytes, q: bytes)
    ensures FindDoubleCrlf(p).Some? ==> Chunked(p + q) == Chunked(p)
    ensures Complete(p) ==> Complete(p + q)
    ensures DeclaresLength(p) ==> DeclaresLength(p + q)
    ensures RequestComplete(p) ==> RequestComplete(p + q)
  {
    hide FindDoubleCrlf, ContentLength, ChunkedHead;
    if FindDoubleCrlf(p).Some? {
      HeadInPrefix(p, q);
      assert (p + q)[..|p|] == p;
      FindInPrefix(p + q, CHUNKED_END_MARKER, |p|);
    }
  }

  lemma ValueInWholeHead(head: bytes, name: bytes)
    ensures FindHeaderValue(head + DOUBLE_CRLF, name) == FindHeaderValue(head, name)
  {
    hide SplitLines, Fields, ScanLines, Lookup;
    FieldsOfWholeHead(head);
    ScanIsLookup(SplitLines(head + DOUBLE_CRLF), name);
    ScanIsLookup(SplitLines(head), name);
  }

  /**
   The request reader measures the head without its final double CRLF, the
   response reader with it: both see the same declared length.
   */
  lemma ContentLengthOfWholeHead(data: bytes, d: nat)
    requires FindDoubleCrlf(data) == Some(d)
    ensures ContentLength(data[..d + 4]) == ContentLength(data[..d])
  {
    hide ValidUtf8, FindDoubleCrlf, FindHeaderValue, ParseUsize;
    var head := data[..d];
    assert data[..d + 4] == head + DOUBLE_CRLF;
    if ValidUtf8(head + DOUBLE_CRLF) {
      ValidUtf8Cut(head, DOUBLE_CRLF);
    }
    if ValidUtf8(head) {
      AsciiIsUtf8(DOUBLE_CRLF);
      ValidUtf8Append(head, DOUBLE_CRLF);
    }
    ValueInWholeHead(head, CONTENT_LENGTH);
  }

  // ----- Lists of transfer codings -----

  /** A coding in a `Transfer-Encoding` value, with the white space around it. */
  datatype Coding = Coding(before: bytes, name: bytes, after: bytes) {
    function Text(): bytes {
      before + name + after
    }
  }

  ghost predicate GoodCoding(c: Coding) {
    AllBlank(c.before) && AllBlank(c.after) && Trimmed(c.name) && IndexOf(c.name, COMMA).None?
  }

  /** Codings separated by commas. */
  function CodingList(cs: seq<Coding>): bytes
    requires cs != []
  {
    if |cs| == 1 then cs[0].Text() else cs[0].Text() + [COMMA] + CodingList(cs[1..])
  }

  lemma SplitFirst(c: bytes, rest: bytes)
    requires IndexOf(c, COMMA).None?
    ensures Split(c + [COMMA] + rest, COMMA) == [c] + Split(rest, COMMA)
    ensures Split(c, COMMA) == [c]
  {
    var s := c + [COMMA] + rest;
    IndexOfBehind(c, COMMA, rest);
    assert s[..|c|] == c && s[|c| + 1..] == rest;
  }

  lemma CodingReads(c: Coding)
    requires GoodCoding(c)
    ensures Trim(c.Text()) == c.name && IndexOf(c.Text(), COMMA).None?
  {
    hide Trim, Trimmed;
    TrimOfPadded(c.before, c.name, c.after);
    NoLetterInBlank(c.before, 0);
    NoLetterInBlank(c.after, 0);
    var s := c.Text();
    forall i | 0 <= i < |s| ensures s[i] != COMMA {
      var j := i - |c.before|;
      assert s[i] == if j < 0 then c.before[i] else if j < |c.name| then c.name[j] else c.after[j - |c.name|];
    }
  }

  /** Splitting a coding list and trimming gives back the codings. */
  lemma {:induction false} CodingsReadBack(cs: seq<Coding>)
    requires cs != [] && forall i :: 0 <= i < |cs| ==> GoodCoding(cs[i])
    ensures var parts := Split(CodingList(cs), COMMA);
      |parts| == |cs| && forall i :: 0 <= i < |parts| ==> Trim(parts[i]) == cs[i].name
  {
    hide Split, Trim, IndexOf, GoodCoding;
    CodingReads(cs[0]);
    if |cs| == 1 {
      SplitFirst(cs[0].Text(), []);
    } else {
      CodingsReadBack(cs[1..]);
      SplitFirst(cs[0].Text(), CodingList(cs[1..]));
    }
  }

  /** A coding list declares the chunked framing exactly when `chunked`, in any case and place, is listed. */
  lemma ListsChunkedExactly(cs: seq<Coding>)
    requires cs != [] && forall i :: 0 <= i < |cs| ==> GoodCoding(cs[i])
    ensures ListsChunked(CodingList(cs)) <==> exists i :: 0 <= i < |cs| && EqIgnoreCase(cs[i].name, Ascii("chunked"))
  {
    hide Split, Trim, EqIgnoreCase, CodingList, GoodCoding;
    CodingsReadBack(cs);
    var parts := Split(CodingList(cs), COMMA);
    forall i | 0 <= i < |parts| ensures EqIgnoreCase(Trim(parts[i]), CHUNKED) <==> EqIgnoreCase(cs[i].name, CHUNKED) {
      assert Trim(parts[i]) == cs[i].name;
    }
    if i :| 0 <= i < |parts| && EqIgnoreCase(Trim(parts[i]), CHUNKED) {
      assert EqIgnoreCase(cs[i].name, CHUNKED);
    }
    if i :| 0 <= i < |cs| && EqIgnoreCase(cs[i].name, CHUNKED) {
      assert EqIgnoreCase(Trim(parts[i]), CHUNKED);
    }
  }

  lemma SameNameIsEqual(name: bytes)
    ensures EqIgnoreCase(name, name)
  {
  }

  lemma PlainCoding(name: bytes)
    requires forall i :: 0 <= i < |name| ==> WordByte(name[i]) && name[i] >= 48
    ensures GoodCoding(Coding([], name, [])) && GoodCoding(Coding([SPACE], name, []))
  {
    hide SpaceBefore, ValidUtf8, NoSpace;
    WordsAreSolid(name);
  }

  /** `chunked, gzip` counts as chunked, although `chunked` is not the final coding. */
  lemma ChunkedNeedNotBeLast()
    ensures ListsChunked(Ascii("chunked") + [COMMA] + ([SPACE] + Ascii("gzip")))
  {
    hide ListsChunked, GoodCoding, EqIgnoreCase, Ascii;
    var chunked, gzip := Coding([], Ascii("chunked"), []), Coding([SPACE], Ascii("gzip"), []);
    PlainCoding(Ascii("chunked"));
    PlainCoding(Ascii("gzip"));
    ListsChunkedExactly([chunked, gzip]);
    SameNameIsEqual(Ascii("chunked"));
    assert [chunked, gzip][1..] == [gzip] && [chunked, gzip][0] == chunked;
    assert chunked.Text() == Ascii("chunked") && gzip.Text() == [SPACE] + Ascii("gzip");
  }
}
