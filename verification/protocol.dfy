/** `src/protocol.rs` and the header type: finding the head, its lines and its fields. */
module Protocol {
  import opened Bytes
  import opened Text

  const DOUBLE_CRLF: bytes := [13, 10, 13, 10]
  const CHUNKED_END_MARKER: bytes := [48, 13, 10, 13, 10]
  const HEADER_SEPARATOR: bytes := [58, 32]
  const MAX_HEADERS: nat := 16
  const CONTENT_LENGTH: bytes := Ascii("Content-Length")
  const CONTENT_TYPE: bytes := Ascii("Content-Type")
  const TRANSFER_ENCODING: bytes := Ascii("Transfer-Encoding")
  const CHUNKED: bytes := Ascii("chunked")
  const HTTP_VERSION: bytes := Ascii("HTTP/1.1")

  datatype Header = Header(name: bytes, value: bytes)

  predicate CrlfAt(s: bytes, i: nat) {
    i + 1 < |s| && s[i] == 13 && s[i + 1] == 10
  }

  predicate DoubleCrlfAt(s: bytes, i: nat) {
    CrlfAt(s, i) && CrlfAt(s, i + 2)
  }

  lemma CrlfOccurs(s: bytes)
    ensures forall j: nat :: CrlfAt(s, j) <==> OccursAt(s, CRLF, j)
    ensures forall j: nat :: DoubleCrlfAt(s, j) <==> OccursAt(s, DOUBLE_CRLF, j)
  {
    forall j: nat | j + 2 <= |s| ensures CrlfAt(s, j) <==> OccursAt(s, CRLF, j) {
      var w := s[j..j + 2];
      assert w[0] == s[j] && w[1] == s[j + 1];
      assert w == [w[0], w[1]];
    }
    forall j: nat | j + 4 <= |s| ensures DoubleCrlfAt(s, j) <==> OccursAt(s, DOUBLE_CRLF, j) {
      var w := s[j..j + 4];
      assert w[0] == s[j] && w[1] == s[j + 1] && w[2] == s[j + 2] && w[3] == s[j + 3];
      assert w == [w[0], w[1], w[2], w[3]];
    }
  }

  function FindCrlf(s: bytes): (r: Option<nat>)
    ensures r.Some? ==> CrlfAt(s, r.value)
    ensures forall j: nat :: (r.Some? ==> j < r.value) ==> !CrlfAt(s, j)
  {
    CrlfOccurs(s);
    Find(s, CRLF)
  }

  function FindDoubleCrlf(s: bytes): (r: Option<nat>)
    ensures r.Some? ==> DoubleCrlfAt(s, r.value)
    ensures forall j: nat :: (r.Some? ==> j < r.value) ==> !DoubleCrlfAt(s, j)
  {
    CrlfOccurs(s);
    Find(s, DOUBLE_CRLF)
  }

  lemma FindIsSearch(s: bytes, t: nat)
    requires t <= |s|
    ensures FindDoubleCrlf(s) == Find(s, DOUBLE_CRLF) && FindDoubleCrlf(s[..t]) == Find(s[..t], DOUBLE_CRLF)
    ensures Find(s[..t], DOUBLE_CRLF).Some? ==> Find(s[..t], DOUBLE_CRLF).value + 4 <= t
  {
  }

  /** `str::split("\r\n")`, collected. */
  function SplitLines(s: bytes): (r: seq<bytes>)
    ensures r != []
    decreases |s|
  {
    match FindCrlf(s)
    case None => [s]
    case Some(p) => [s[..p]] + SplitLines(s[p + 2..])
  }

  /** The definition of splitting, unfolded once. */
  lemma SplitOnce(s: bytes)
    ensures SplitLines(s) ==
      match FindCrlf(s)
      case None => [s]
      case Some(p) => [s[..p]] + SplitLines(s[p + 2..])
  {
  }

  lemma FindCrlfInFront(p: bytes, t: bytes)
    requires FindCrlf(p).Some?
    ensures FindCrlf(p + t) == FindCrlf(p)
  {
    assert (p + t)[..|p|] == p;
    FindInPrefix(p + t, CRLF, |p|);
  }

  /** The field a line holds, if it has a colon. */
  function Field(line: bytes): Option<Header> {
    match IndexOf(line, COLON)
    case None => None
    case Some(p) => Some(Header(Trim(line[..p]), Trim(line[p + 1..])))
  }

  /** All fields of a list of lines, in order. */
  function Fields(lines: seq<bytes>): seq<Header> {
    if lines == [] then [] else
    match Field(lines[0])
    case None => Fields(lines[1..])
    case Some(h) => [h] + Fields(lines[1..])
  }

  /** The value of the first header called `name`, ignoring case. */
  function Lookup(headers: seq<Header>, name: bytes): (r: Option<bytes>)
    ensures r.None? <==> forall i :: 0 <= i < |headers| ==> !EqIgnoreCase(headers[i].name, name)
  {
    if headers == [] then None
    else if EqIgnoreCase(headers[0].name, name) then Some(headers[0].value)
    else Lookup(headers[1..], name)
  }

  /** The line scan of `find_header_value`, after splitting. */
  function ScanLines(lines: seq<bytes>, name: bytes): Option<bytes> {
    if lines == [] then None else
    match Field(lines[0])
    case None => ScanLines(lines[1..], name)
    case Some(h) => if EqIgnoreCase(h.name, name) then Some(h.value) else ScanLines(lines[1..], name)
  }

  function FindHeaderValue(text: bytes, name: bytes): Option<bytes> {
    ScanLines(SplitLines(text), name)
  }

  /** Scanning lines for a name is looking the name up among the fields of those lines. */
  lemma {:induction false} ScanIsLookup(lines: seq<bytes>, name: bytes)
    ensures ScanLines(lines, name) == Lookup(Fields(lines), name)
  {
    if lines != [] {
      ScanIsLookup(lines[1..], name);
    }
  }

  lemma {:induction false} FieldsAppend(a: seq<bytes>, b: seq<bytes>)
    ensures Fields(a + b) == Fields(a) + Fields(b)
  {
    hide Field;
    if a == [] {
      assert a + b == b;
    } else {
      FieldsAppend(a[1..], b);
      assert (a + b)[1..] == a[1..] + b;
    }
  }

  lemma {:induction false} LookupAppend(a: seq<Header>, b: seq<Header>, name: bytes)
    ensures Lookup(a + b, name) == if Lookup(a, name).Some? then Lookup(a, name) else Lookup(b, name)
  {
    if a == [] {
      assert a + b == b;
    } else {
      assert (a + b)[1..] == a[1..] + b;
      LookupAppend(a[1..], b, name);
    }
  }

  // ----- How lines sit in a head -----

  ghost predicate NoCrlf(s: bytes) {
    forall i: nat :: !CrlfAt(s, i)
  }

  /** `line` followed by CRLF: the CRLF found first is the one that ends the line. */
  lemma LineEnd(line: bytes, rest: bytes)
    requires NoCrlf(line)
    ensures FindCrlf(line + CRLF + rest) == Some(|line|)
  {
    var s := line + CRLF + rest;
    forall j: nat | j < |line| ensures !CrlfAt(s, j) {
      if j + 1 < |line| {
        assert !CrlfAt(line, j);
      }
    }
    assert CrlfAt(s, |line|);
  }

  lemma SplitLine(line: bytes, rest: bytes)
    requires NoCrlf(line)
    ensures SplitLines(line + CRLF + rest) == [line] + SplitLines(rest)
  {
    LineEnd(line, rest);
    var s := line + CRLF + rest;
    assert s[..|line|] == line && s[|line| + 2..] == rest;
  }

  /** Cutting at a CRLF splits the text into the lines before and the lines after it. */
  lemma {:induction false} SplitAtCrlf(s: bytes, t: bytes)
    ensures SplitLines(s + CRLF + t) == SplitLines(s) + SplitLines(t)
    decreases |s|
  {
    hide Find;
    match FindCrlf(s) {
      case None =>
        SplitLine(s, t);
      case Some(p) =>
        var line, more := s[..p], s[p + 2..];
        assert NoCrlf(line) by {
          assert forall j: nat :: CrlfAt(line, j) ==> CrlfAt(s, j);
        }
        assert s == line + CRLF + more && s + CRLF + t == line + CRLF + (more + CRLF + t);
        SplitLine(line, more + CRLF + t);
        SplitAtCrlf(more, t);
    }
  }

  /** The empty lines that end a head hold no field. */
  lemma FieldsOfWholeHead(head: bytes)
    ensures Fields(SplitLines(head + DOUBLE_CRLF)) == Fields(SplitLines(head))
  {
    hide FindCrlf;
    assert head + DOUBLE_CRLF == head + CRLF + (CRLF + []);
    SplitAtCrlf(head, CRLF + []);
    SplitAtCrlf([], []);
    assert [] + CRLF + [] == CRLF + [];
    assert SplitLines([]) == [[]];
    var blank: seq<bytes> := [[], []];
    assert SplitLines(CRLF + []) == blank;
    FieldsAppend(SplitLines(head), blank);
    assert Fields(blank) == [] by {
      assert Field([]) == None && blank[1..] == [[]] && blank[1..][1..] == [];
    }
  }

  /** Lines, each ended by CRLF. */
  function JoinLines(lines: seq<bytes>): bytes {
    if lines == [] then [] else lines[0] + CRLF + JoinLines(lines[1..])
  }

  /** The definition of joining, unfolded once. */
  lemma JoinOnce(lines: seq<bytes>)
    ensures JoinLines(lines) == if lines == [] then [] else lines[0] + CRLF + JoinLines(lines[1..])
  {
  }

  lemma JoinOne(line: bytes)
    ensures JoinLines([line]) == line + CRLF
  {
    assert [line][1..] == [];
  }

  lemma {:induction false} JoinAppend(a: seq<bytes>, b: seq<bytes>)
    ensures JoinLines(a + b) == JoinLines(a) + JoinLines(b)
  {
    if a == [] {
      assert a + b == b;
    } else {
      assert (a + b)[1..] == a[1..] + b;
      JoinAppend(a[1..], b);
    }
  }

  /** One more line joined. */
  lemma JoinPush(lines: seq<bytes>, line: bytes)
    ensures JoinLines(lines + [line]) == JoinLines(lines) + line + CRLF
  {
    JoinAppend(lines, [line]);
    JoinOne(line);
  }

  ghost predicate PlainLines(lines: seq<bytes>) {
    forall i :: 0 <= i < |lines| ==> NoCrlf(lines[i]) && lines[i] != []
  }

  /** Splitting undoes joining. */
  lemma {:induction false} SplitJoined(lines: seq<bytes>, rest: bytes)
    requires PlainLines(lines)
    ensures SplitLines(JoinLines(lines) + rest) == lines + SplitLines(rest)
  {
    hide SplitLines, FindCrlf, CrlfAt;
    if lines == [] {
      assert JoinLines(lines) + rest == rest;
    } else {
      var line, more := lines[0], lines[1..];
      SplitJoined(more, rest);
      assert JoinLines(lines) + rest == line + CRLF + (JoinLines(more) + rest);
      SplitLine(line, JoinLines(more) + rest);
      assert [line] + (more + SplitLines(rest)) == lines + SplitLines(rest);
    }
  }

  lemma FirstLineEndsHead(line: bytes, rest: bytes)
    requires NoCrlf(line)
    ensures FindDoubleCrlf(line + CRLF + (CRLF + rest)) == Some(|line|)
  {
    var s := line + CRLF + (CRLF + rest);
    LineEnd(line, CRLF + rest);
    assert s[|line|] == 13 && s[|line| + 1] == 10 && s[|line| + 2] == 13 && s[|line| + 3] == 10;
    assert DoubleCrlfAt(s, |line|);
    forall j: nat | j < |line| ensures !DoubleCrlfAt(s, j) {
      assert !CrlfAt(s, j);
    }
  }

  /** With no double CRLF starting inside `front`, the search goes on in what follows. */
  lemma ShiftedSearch(front: bytes, tail: bytes)
    requires forall j: nat :: j < |front| ==> !DoubleCrlfAt(front + tail, j)
    requires FindDoubleCrlf(tail).Some?
    ensures FindDoubleCrlf(front + tail) == Some(|front| + FindDoubleCrlf(tail).value)
  {
    var s, n := front + tail, |front|;
    forall j: nat | n <= j ensures DoubleCrlfAt(s, j) <==> DoubleCrlfAt(tail, j - n) {
      assert forall k: nat :: n <= k < |s| ==> s[k] == tail[k - n];
    }
    var p := FindDoubleCrlf(tail).value;
    assert DoubleCrlfAt(s, n + p);
    forall j: nat | j < n + p ensures !DoubleCrlfAt(s, j) {
      if n <= j {
        assert !DoubleCrlfAt(tail, j - n);
      }
    }
  }

  lemma FirstLineGoesOn(line: bytes, tail: bytes)
    requires NoCrlf(line) && !CrlfAt(tail, 0) && FindDoubleCrlf(tail).Some?
    ensures FindDoubleCrlf(line + CRLF + tail) == Some(|line| + 2 + FindDoubleCrlf(tail).value)
  {
    var s := line + CRLF + tail;
    LineEnd(line, tail);
    forall j: nat | j < |line| + 2 ensures !DoubleCrlfAt(s, j) {
      if j < |line| {
        assert !CrlfAt(s, j);
      } else if j == |line| && CrlfAt(s, j + 2) {
        assert false;
      }
    }
    ShiftedSearch(line + CRLF, tail);
  }

  /** The first double CRLF of a printed head is its end. */
  lemma {:induction false} HeadEnd(lines: seq<bytes>, rest: bytes)
    requires PlainLines(lines) && lines != []
    ensures |JoinLines(lines)| >= 2
    ensures FindDoubleCrlf(JoinLines(lines) + CRLF + rest) == Some(|JoinLines(lines)| - 2)
  {
    hide FindDoubleCrlf, FindCrlf, CrlfAt, NoCrlf, JoinLines;
    var line, more := lines[0], lines[1..];
    var tail := JoinLines(more) + CRLF + rest;
    JoinOnce(lines);
    JoinOnce(more);
    assert JoinLines(lines) + CRLF + rest == line + CRLF + tail;
    if more == [] {
      assert tail == CRLF + rest;
      FirstLineEndsHead(line, rest);
    } else {
      HeadEnd(more, rest);
      assert tail == more[0] + CRLF + (JoinLines(more[1..]) + CRLF + rest);
      LineEnd(more[0], JoinLines(more[1..]) + CRLF + rest);
      assert !CrlfAt(tail, 0);
      FirstLineGoesOn(line, tail);
    }
  }

  /** CRLF never ends the text and is never directly followed by another CRLF. */
  ghost predicate NoBlankLine(s: bytes) {
    forall i: nat :: CrlfAt(s, i) ==> i + 2 < |s| && !CrlfAt(s, i + 2)
  }

  /** A head cut off at its first double CRLF neither ends in CRLF nor holds an empty line. */
  lemma NoCrlfAtCut(s: bytes, d: nat)
    requires FindDoubleCrlf(s) == Some(d)
    ensures NoBlankLine(s[..d])
  {
    forall i: nat | CrlfAt(s[..d], i) ensures i + 2 < d && !CrlfAt(s[..d], i + 2) {
      assert CrlfAt(s, i) && !DoubleCrlfAt(s, i) && DoubleCrlfAt(s, d);
    }
  }
}
