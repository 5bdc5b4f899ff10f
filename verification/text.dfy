/**
 UTF-8 as the source sees it: validity (`core::str::from_utf8`), Unicode
 white space, `trim` and `split_whitespace`, all at the level of bytes.
 */
module Text {
  import opened Bytes

  predicate Continuation(b: byte) {
    0x80 <= b <= 0xBF
  }

  /** Length of the well-formed character at the front of `s`; 0 when there is none. */
  function CharLength(s: bytes): (n: nat)
    ensures n <= |s|
    ensures s != [] && s[0] < 0x80 ==> n == 1
  {
    if s == [] then 0
    else if s[0] < 0x80 then 1
    else if |s| < 2 || !Continuation(s[1]) then 0
    else if 0xC2 <= s[0] <= 0xDF then 2
    else if |s| < 3 || !Continuation(s[2]) then 0
    else if (s[0] == 0xE0 && 0xA0 <= s[1]) || 0xE1 <= s[0] <= 0xEC
         || (s[0] == 0xED && s[1] <= 0x9F) || 0xEE <= s[0] <= 0xEF then 3
    else if |s| < 4 || !Continuation(s[3]) then 0
    else if (s[0] == 0xF0 && 0x90 <= s[1]) || 0xF1 <= s[0] <= 0xF3
         || (s[0] == 0xF4 && s[1] <= 0x8F) then 4
    else 0
  }

  /** `core::str::from_utf8(s).is_ok()`. */
  predicate ValidUtf8(s: bytes)
    decreases |s|
  {
    s == [] || (CharLength(s) > 0 && ValidUtf8(s[CharLength(s)..]))
  }

  /** Appending to a valid string: the whole is valid exactly when the tail is. */
  lemma {:induction false} ValidUtf8Append(a: bytes, b: bytes)
    requires ValidUtf8(a)
    ensures ValidUtf8(a + b) <==> ValidUtf8(b)
    decreases |a|
  {
    if a == [] {
      assert a + b == b;
    } else {
      var n := CharLength(a);
      assert CharLength(a + b) == n;
      assert (a + b)[n..] == a[n..] + b;
      ValidUtf8Append(a[n..], b);
    }
  }

  /** A valid string may be cut in front of an ASCII byte. */
  lemma {:induction false} ValidUtf8Cut(a: bytes, b: bytes)
    requires ValidUtf8(a + b)
    requires b == [] || b[0] < 0x80
    ensures ValidUtf8(a) && ValidUtf8(b)
    decreases |a|
  {
    if a == [] {
      assert a + b == b;
    } else {
      var s := a + b;
      var n := CharLength(s);
      if n > |a| {
        assert false;
      }
      assert CharLength(a) == n;
      assert s[n..] == a[n..] + b;
      ValidUtf8Cut(a[n..], b);
    }
  }

  lemma {:induction false} AsciiIsUtf8(s: bytes)
    requires forall i :: 0 <= i < |s| ==> s[i] < 0x80
    ensures ValidUtf8(s)
    decreases |s|
  {
    if s != [] {
      AsciiIsUtf8(s[1..]);
    }
  }

  // ----- What the table means: Unicode scalar values -----

  predicate Scalar(c: nat) {
    c < 0xD800 || 0xE000 <= c < 0x11_0000
  }

  /** A continuation byte carries six bits. */
  function Six(v: nat): byte
    requires v < 0x40
  {
    (0x80 + v) as byte
  }

  /** The UTF-8 encoding of a scalar value, six bits at a time. */
  function EncodeScalar(c: nat): (r: bytes)
    requires Scalar(c)
    ensures 1 <= |r| <= 4
  {
    var c1, c2, c3 := c / 0x40, c / 0x40 / 0x40, c / 0x40 / 0x40 / 0x40;
    if c < 0x80 then [c as byte]
    else if c < 0x800 then [(0xC0 + c1) as byte, Six(c % 0x40)]
    else if c < 0x1_0000 then [(0xE0 + c2) as byte, Six(c1 % 0x40), Six(c % 0x40)]
    else [(0xF0 + c3) as byte, Six(c2 % 0x40), Six(c1 % 0x40), Six(c % 0x40)]
  }

  /** The value a well-formed character stands for. */
  function DecodeScalar(s: bytes): nat
    requires CharLength(s) > 0
  {
    var n := CharLength(s);
    if n == 1 then s[0] as nat
    else if n == 2 then (s[0] as nat - 0xC0) * 0x40 + (s[1] as nat - 0x80)
    else if n == 3 then ((s[0] as nat - 0xE0) * 0x40 + (s[1] as nat - 0x80)) * 0x40 + (s[2] as nat - 0x80)
    else (((s[0] as nat - 0xF0) * 0x40 + (s[1] as nat - 0x80)) * 0x40 + (s[2] as nat - 0x80)) * 0x40
         + (s[3] as nat - 0x80)
  }

  /** The encoding of every scalar value is one well-formed character that stands for it, whatever follows. */
  lemma ScalarIsCharacter(c: nat, rest: bytes)
    requires Scalar(c)
    ensures CharLength(EncodeScalar(c) + rest) == |EncodeScalar(c)|
    ensures DecodeScalar(EncodeScalar(c) + rest) == c
  {
    var s := EncodeScalar(c) + rest;
    var c1 := c / 0x40;
    var c2 := c1 / 0x40;
    var c3 := c2 / 0x40;
    assert c == c1 * 0x40 + c % 0x40 && c1 == c2 * 0x40 + c1 % 0x40 && c2 == c3 * 0x40 + c2 % 0x40;
    assert s[0] == EncodeScalar(c)[0];
    if c >= 0x80 {
      assert s[1] == EncodeScalar(c)[1];
    }
    if c >= 0x800 {
      assert s[2] == EncodeScalar(c)[2];
    }
    if c >= 0x1_0000 {
      assert s[3] == EncodeScalar(c)[3];
    }
  }

  lemma SixBits(c: nat, high: int, low: nat)
    requires low < 0x40 && c == high * 0x40 + low
    ensures c / 0x40 == high && c % 0x40 == low
  {
  }

  lemma ThreeBytes(s: bytes)
    requires CharLength(s) == 3
    ensures Scalar(DecodeScalar(s)) && EncodeScalar(DecodeScalar(s)) == s[..3]
  {
    var a, b := s[0] as nat - 0xE0, s[1] as nat - 0x80;
    SixBits(a * 0x40 + b, a, b);
    SixBits(DecodeScalar(s), a * 0x40 + b, s[2] as nat - 0x80);
    assert 0x800 <= DecodeScalar(s) < 0x1_0000;
  }

  lemma FourBytes(s: bytes)
    requires CharLength(s) == 4
    ensures Scalar(DecodeScalar(s)) && EncodeScalar(DecodeScalar(s)) == s[..4]
  {
    var a, b, d := s[0] as nat - 0xF0, s[1] as nat - 0x80, s[2] as nat - 0x80;
    SixBits(a * 0x40 + b, a, b);
    SixBits((a * 0x40 + b) * 0x40 + d, a * 0x40 + b, d);
    SixBits(DecodeScalar(s), (a * 0x40 + b) * 0x40 + d, s[3] as nat - 0x80);
    assert 0x1_0000 <= DecodeScalar(s) < 0x11_0000;
  }

  /** And every well-formed character is the encoding of the scalar value it stands for. */
  lemma CharacterIsScalar(s: bytes)
    requires CharLength(s) > 0
    ensures Scalar(DecodeScalar(s)) && EncodeScalar(DecodeScalar(s)) == s[..CharLength(s)]
  {
    var n := CharLength(s);
    if n == 2 {
      SixBits(DecodeScalar(s), s[0] as nat - 0xC0, s[1] as nat - 0x80);
    } else if n == 3 {
      ThreeBytes(s);
    } else if n == 4 {
      FourBytes(s);
    }
  }

  // ----- White space -----

  predicate AsciiSpace(b: byte) {
    9 <= b <= 13 || b == 32
  }

  /** The three-byte encodings of Unicode's White_Space characters. */
  predicate WideSpace(a: byte, b: byte, c: byte) {
    || (a == 0xE1 && b == 0x9A && c == 0x80)
    || (a == 0xE2 && b == 0x80 && (0x80 <= c <= 0x8A || c == 0xA8 || c == 0xA9 || c == 0xAF))
    || (a == 0xE2 && b == 0x81 && c == 0x9F)
    || (a == 0xE3 && b == 0x80 && c == 0x80)
  }

  /** Length of the white-space character at offset `i`; 0 when there is none. */
  function SpaceAt(s: bytes, i: nat): (n: nat)
    requires i <= |s|
    ensures i + n <= |s|
  {
    if i < |s| && AsciiSpace(s[i]) then 1
    else if i + 1 < |s| && s[i] == 0xC2 && (s[i + 1] == 0x85 || s[i + 1] == 0xA0) then 2
    else if i + 2 < |s| && WideSpace(s[i], s[i + 1], s[i + 2]) then 3
    else 0
  }

  /** The scalar values with the Unicode property White_Space. */
  predicate WhiteSpace(c: nat) {
    || 9 <= c <= 13 || c == 0x20 || c == 0x85 || c == 0xA0 || c == 0x1680 || 0x2000 <= c <= 0x200A
    || c == 0x2028 || c == 0x2029 || c == 0x202F || c == 0x205F || c == 0x3000
  }

  /** The byte patterns are exactly the encodings of those values. */
  lemma SpaceIsWhiteSpace(c: nat, rest: bytes)
    requires Scalar(c)
    ensures SpaceAt(EncodeScalar(c) + rest, 0) == if WhiteSpace(c) then |EncodeScalar(c)| else 0
  {
    var e, s := EncodeScalar(c), EncodeScalar(c) + rest;
    assert s[0] == e[0];
    if c >= 0x80 {
      assert s[1] == e[1];
    }
    if c >= 0x800 {
      assert s[2] == e[2];
    }
  }

  /** Length of the white-space character that ends at offset `n`; 0 when there is none. */
  function SpaceBefore(s: bytes, n: nat): (k: nat)
    requires n <= |s|
    ensures k <= n
  {
    if n >= 1 && SpaceAt(s, n - 1) == 1 then 1
    else if n >= 2 && SpaceAt(s, n - 2) == 2 then 2
    else if n >= 3 && SpaceAt(s, n - 3) == 3 then 3
    else 0
  }

  /** Offset of the first character at or after `i` that is not white space. */
  function BlankEnd(s: bytes, i: nat): (r: nat)
    requires i <= |s|
    ensures i <= r <= |s|
    decreases |s| - i
  {
    var n := SpaceAt(s, i);
    if n == 0 then i else BlankEnd(s, i + n)
  }

  /** End of the last character in `s[..n]` that is not white space. */
  function ContentEnd(s: bytes, n: nat): (r: nat)
    requires n <= |s|
    ensures r <= n
  {
    var k := SpaceBefore(s, n);
    if k == 0 then n else ContentEnd(s, n - k)
  }

  function TrimStart(s: bytes): bytes {
    s[BlankEnd(s, 0)..]
  }

  function TrimEnd(s: bytes): bytes {
    s[..ContentEnd(s, |s|)]
  }

  /** `str::trim`. */
  function Trim(s: bytes): bytes {
    TrimEnd(TrimStart(s))
  }

  /** `s` neither starts nor ends with white space. */
  predicate Trimmed(s: bytes) {
    SpaceAt(s, 0) == 0 && SpaceBefore(s, |s|) == 0
  }

  /** No white-space character anywhere in `s`. */
  predicate NoSpace(s: bytes) {
    forall i :: 0 <= i < |s| ==> SpaceAt(s, i) == 0
  }

  lemma {:induction false} BlankEndStops(s: bytes, i: nat)
    requires i <= |s|
    ensures SpaceAt(s, BlankEnd(s, i)) == 0
    decreases |s| - i
  {
    if SpaceAt(s, i) != 0 {
      BlankEndStops(s, i + SpaceAt(s, i));
    }
  }

  /** Skipping blanks commutes with cutting a prefix off. */
  lemma {:induction false} BlankEndShift(s: bytes, k: nat, i: nat)
    requires k <= i <= |s|
    ensures BlankEnd(s, i) == k + BlankEnd(s[k..], i - k)
    decreases |s| - i
  {
    assert SpaceAt(s, i) == SpaceAt(s[k..], i - k);
    if SpaceAt(s, i) != 0 {
      BlankEndShift(s, k, i + SpaceAt(s, i));
    }
  }

  /** `Trim` undoes the blank printed in front of a trimmed value. */
  lemma TrimBlankPrefix(v: bytes)
    requires Trimmed(v)
    ensures Trim([SPACE] + v) == v && Trim(v) == v
  {
    var s := [SPACE] + v;
    assert SpaceAt(s, 0) == 1 && s[1..] == v;
    BlankEndShift(s, 1, 1);
    assert BlankEnd(v, 0) == 0;
    assert TrimStart(s) == TrimStart(v) == v;
  }

  lemma WordsAreSolid(s: bytes)
    requires forall i :: 0 <= i < |s| ==> WordByte(s[i]) && s[i] != SPACE
    ensures NoSpace(s) && Trimmed(s) && ValidUtf8(s)
  {
    AsciiIsUtf8(s);
  }

  /** White space inside `a` is not changed by what follows, if that starts with an ASCII byte. */
  lemma SpaceAtPrefix(a: bytes, b: bytes, i: nat)
    requires i < |a|
    requires b == [] || b[0] < 0x80
    ensures SpaceAt(a + b, i) == SpaceAt(a, i)
  {
  }

  /** Skipping blanks stays inside `a` when `a` is not all blank and `b` starts with ASCII. */
  lemma {:induction false} BlankEndPrefix(a: bytes, b: bytes, i: nat)
    requires i <= |a| && BlankEnd(a, i) < |a|
    requires b == [] || b[0] < 0x80
    ensures BlankEnd(a + b, i) == BlankEnd(a, i)
    decreases |a| - i
  {
    SpaceAtPrefix(a, b, i);
    if SpaceAt(a, i) != 0 {
      BlankEndPrefix(a, b, i + SpaceAt(a, i));
    }
  }

  // ----- What trimming does -----

  /** White-space characters and nothing else. */
  predicate AllBlank(s: bytes) {
    BlankEnd(s, 0) == |s|
  }

  /** The blanks skipped from `i` on are blanks by themselves. */
  lemma {:induction false} BlankPrefix(s: bytes, i: nat)
    requires i <= |s|
    ensures var end := BlankEnd(s, i); BlankEnd(s[..end], i) == end
    decreases |s| - i
  {
    var n := SpaceAt(s, i);
    if n != 0 {
      BlankPrefix(s, i + n);
      assert SpaceAt(s[..BlankEnd(s, i)], i) == n;
    }
  }

  /** The end of the content depends only on what lies in front of it. */
  lemma SpaceBeforeCut(s: bytes, n: nat)
    requires n <= |s|
    ensures SpaceBefore(s[..n], n) == SpaceBefore(s, n)
  {
  }

  lemma {:induction false} ContentEndStops(s: bytes, n: nat)
    requires n <= |s|
    ensures SpaceBefore(s, ContentEnd(s, n)) == 0
  {
    if SpaceBefore(s, n) != 0 {
      ContentEndStops(s, n - SpaceBefore(s, n));
    }
  }

  /** What is trimmed off at the end is blank. */
  lemma {:induction false} BlanksBehind(s: bytes, n: nat)
    requires n <= |s| && BlankEnd(s, n) == |s|
    ensures BlankEnd(s, ContentEnd(s, n)) == |s|
  {
    var k := SpaceBefore(s, n);
    if k != 0 {
      BlanksBehind(s, n - k);
    }
  }

  lemma NoneLeft(t: bytes)
    ensures BlankEnd(t, |t|) == |t|
  {
  }

  lemma StartsSolid(s: bytes, start: nat, end: nat)
    requires start <= |s| && SpaceAt(s, start) == 0 && end <= |s| - start
    ensures SpaceAt(s[start..][..end], 0) == 0
    ensures end == 0 && BlankEnd(s[start..], 0) == |s| - start ==> start == |s|
  {
    assert SpaceAt(s[start..], 0) == SpaceAt(s, start);
  }

  /** Trimming removes blanks on both sides, and all of them. */
  lemma TrimSplits(s: bytes) returns (a: bytes, b: bytes)
    ensures s == a + Trim(s) + b && AllBlank(a) && AllBlank(b) && Trimmed(Trim(s))
    ensures Trim(s) == [] ==> AllBlank(s)
  {
    hide SpaceAt, SpaceBefore, BlankEnd, ContentEnd;
    var start := BlankEnd(s, 0);
    var t := s[start..];
    var end := ContentEnd(t, |t|);
    a, b := s[..start], t[end..];
    BlankPrefix(s, 0);
    BlankEndStops(s, 0);
    NoneLeft(t);
    BlanksBehind(t, |t|);
    BlankEndShift(t, end, end);
    ContentEndStops(t, |t|);
    SpaceBeforeCut(t, end);
    StartsSolid(s, start, end);
  }

  /** Blanks stay blanks whatever follows. */
  lemma {:induction false} BlankEndSkips(a: bytes, t: bytes, i: nat)
    requires i <= |a| && BlankEnd(a, i) == |a|
    ensures BlankEnd(a + t, i) == |a| + BlankEnd(t, 0)
    decreases |a| - i
  {
    if i == |a| {
      BlankEndShift(a + t, i, i);
      assert (a + t)[i..] == t;
    } else {
      assert SpaceAt(a + t, i) == SpaceAt(a, i);
      BlankEndSkips(a, t, i + SpaceAt(a, i));
    }
  }

  /** Blanks between `m` and `n` are trimmed off. */
  lemma {:induction false} BlanksTrimmed(s: bytes, m: nat, n: nat)
    requires m <= n <= |s| && BlankEnd(s[..n], m) == n
    ensures ContentEnd(s, n) == ContentEnd(s, m)
    decreases n - m
  {
    if m < n {
      var k := SpaceAt(s[..n], m);
      assert SpaceBefore(s, m + k) == k;
      BlanksTrimmed(s, m + k, n);
    }
  }

  lemma BlankComesFirst(b: bytes)
    requires AllBlank(b)
    ensures b == [] || SpaceAt(b, 0) > 0
  {
  }

  lemma SolidInFront(v: bytes, b: bytes)
    requires v != [] && SpaceAt(v, 0) == 0 && (b == [] || SpaceAt(b, 0) > 0 || b[0] < 0x80)
    ensures BlankEnd(v + b, 0) == 0
  {
  }

  lemma NothingTrimmed(t: bytes, n: nat)
    requires n <= |t| && SpaceBefore(t, n) == 0
    ensures ContentEnd(t, n) == n
  {
  }

  /** Conversely, trimming gives back what stands between any blanks. */
  lemma TrimPadded(a: bytes, v: bytes, b: bytes)
    requires AllBlank(a) && AllBlank(b) && Trimmed(v) && v != []
    ensures Trim(a + v + b) == v
  {
    hide BlankEnd, ContentEnd;
    var t := v + b;
    assert a + v + b == a + t;
    BlankEndSkips(a, t, 0);
    BlankComesFirst(b);
    SolidInFront(v, b);
    assert (a + t)[|a|..] == t && t[|v|..] == b && t[..|t|] == t && t[..|v|] == v;
    BlankEndShift(t, |v|, |v|);
    BlanksTrimmed(t, |v|, |t|);
    SpaceBeforeCut(t, |v|);
    NothingTrimmed(t, |v|);
  }

  /** Trimming at the end never removes a visible ASCII byte. */
  lemma {:induction false} ContentEndKeeps(s: bytes, n: nat, m: nat)
    requires 0 < m <= n <= |s| && 33 <= s[m - 1] < 0x80
    ensures ContentEnd(s, n) >= m
    decreases n
  {
    var k := SpaceBefore(s, n);
    if k > 0 {
      assert n - k >= m;
      ContentEndKeeps(s, n - k, m);
    }
  }

  /** Blank text holds no visible ASCII byte. */
  lemma {:induction false} NoLetterInBlank(s: bytes, i: nat)
    requires i <= |s| && BlankEnd(s, i) == |s|
    ensures forall k :: i <= k < |s| ==> !(33 <= s[k] < 0x80)
    decreases |s| - i
  {
    if i < |s| {
      NoLetterInBlank(s, i + SpaceAt(s, i));
    }
  }

  lemma BothBlank(x: bytes, y: bytes)
    requires AllBlank(x) && AllBlank(y)
    ensures Trim(x + y) == []
  {
    BlankEndSkips(x, y, 0);
  }

  lemma NothingIsBlank()
    ensures AllBlank([]) && Trim([]) == [] && Trimmed([])
  {
  }

  lemma TrimOfBlank(s: bytes)
    requires AllBlank(s)
    ensures Trim(s) == []
  {
  }

  /** Text between blanks, also when there is no text. */
  lemma TrimOfPadded(before: bytes, text: bytes, after: bytes)
    requires AllBlank(before) && AllBlank(after) && Trimmed(text)
    ensures Trim(before + text + after) == text
  {
    hide Trim, AllBlank, Trimmed;
    if text == [] {
      assert before + text + after == before + after;
      BothBlank(before, after);
    } else {
      TrimPadded(before, text, after);
    }
  }

  /** The blanks in front end inside `a` when `a` holds something else. */
  lemma FrontBlanksEnd(a: bytes, b: bytes, x: bytes, t: bytes)
    requires Trim(a) != [] && a + b == x + t && AllBlank(x)
    requires b == [] || b[0] < 0x80
    ensures |x| <= |a|
  {
    BlankEndSkips(x, t, 0);
    if BlankEnd(a, 0) < |a| {
      BlankEndPrefix(a, b, 0);
    }
  }

  lemma BlankBeforeLf(y: bytes, z: bytes)
    requires AllBlank(y + ([LF] + z))
    ensures AllBlank(y)
  {
    if BlankEnd(y, 0) < |y| {
      BlankEndPrefix(y, [LF] + z, 0);
    }
  }

  /**
   Trimming across a line feed: if what stands in front of it is not blank,
   either the line feed stays inside, or everything behind it was blank.
   */
  lemma TrimAcrossLf(a: bytes, z: bytes)
    requires Trim(a) != []
    ensures var w := Trim(a + [LF] + z); LF in w || w == Trim(a)
  {
    hide SpaceAt, SpaceBefore, ContentEnd, Trim;
    var s := a + [LF] + z;
    var x, y := TrimSplits(s);
    var w := Trim(s);
    assert |x| <= |a| < |x| + |w| ==> w[|a| - |x|] == s[|a|] == LF;
    if LF !in w {
      assert s == a + ([LF] + z) == x + (w + y);
      FrontBlanksEnd(a, [LF] + z, x, w + y);
      var n := |x + w|;
      assert n <= |a|;
      var y1 := a[n..];
      assert y == s[n..] == y1 + ([LF] + z);
      assert x + w == s[..n] == a[..n];
      BlankBeforeLf(y1, z);
      assert a == x + w + y1;
      if w == [] {
        assert a == x + y1;
        BothBlank(x, y1);
        assert false;
      }
      TrimPadded(x, w, y1);
    }
  }

  // ----- split_whitespace -----

  /** Offset of the first white space at or after `i`, or the end of `s`. */
  function WordEnd(s: bytes, i: nat): (n: nat)
    requires i <= |s|
    ensures i <= n <= |s|
    ensures forall j :: i <= j < n ==> SpaceAt(s, j) == 0
    ensures n < |s| ==> SpaceAt(s, n) > 0
    decreases |s| - i
  {
    if i == |s| || SpaceAt(s, i) > 0 then i else WordEnd(s, i + 1)
  }

  function WordsFrom(s: bytes, i: nat): seq<bytes>
    requires i <= |s|
    decreases |s| - i
  {
    var start := BlankEnd(s, i);
    if start == |s| then [] else
    var end := WordEnd(s, start);
    BlankEndStops(s, i);
    [s[start..end]] + WordsFrom(s, end)
  }

  /** `s.split_whitespace()`, collected. */
  function Words(s: bytes): seq<bytes> {
    WordsFrom(s, 0)
  }

  lemma {:induction false} WordEndShift(s: bytes, k: nat, i: nat)
    requires k <= i <= |s|
    ensures WordEnd(s, i) == k + WordEnd(s[k..], i - k)
    decreases |s| - i
  {
    assert SpaceAt(s, i) == SpaceAt(s[k..], i - k);
    if i < |s| && SpaceAt(s, i) == 0 {
      WordEndShift(s, k, i + 1);
    }
  }

  lemma SliceOfDrop(s: bytes, k: nat, i: nat, j: nat)
    requires k <= i <= j <= |s|
    ensures s[i..j] == s[k..][i - k..j - k]
  {
  }

  lemma {:induction false} WordsFromShift(s: bytes, k: nat, i: nat)
    requires k <= i <= |s|
    ensures WordsFrom(s, i) == WordsFrom(s[k..], i - k)
    decreases |s| - i
  {
    hide SpaceAt, BlankEnd, WordEnd;
    BlankEndShift(s, k, i);
    var start := BlankEnd(s, i);
    if start < |s| {
      BlankEndStops(s, i);
      WordEndShift(s, k, start);
      var end := WordEnd(s, start);
      SliceOfDrop(s, k, start, end);
      WordsFromShift(s, k, end);
    }
  }

  /** Words with white space between and around them. */
  function Spaced(gaps: seq<bytes>, ws: seq<bytes>): bytes
    requires |gaps| == |ws| + 1
  {
    if ws == [] then gaps[0] else gaps[0] + ws[0] + Spaced(gaps[1..], ws[1..])
  }

  /** The gaps are white space, and none between two words is empty; the words hold none and are not empty. */
  predicate WellSpaced(gaps: seq<bytes>, ws: seq<bytes>) {
    && |gaps| == |ws| + 1
    && (forall i :: 0 <= i < |gaps| ==> AllBlank(gaps[i]))
    && (forall i :: 0 < i < |ws| ==> gaps[i] != [])
    && (forall i :: 0 <= i < |ws| ==> ws[i] != [] && NoSpace(ws[i]))
  }

  /** A blank behind a solid word does not make white space of its last bytes. */
  lemma SolidStays(w: bytes, t: bytes, i: nat)
    requires NoSpace(w) && i < |w| && (t == [] || SpaceAt(t, 0) > 0)
    ensures SpaceAt(w + t, i) == 0
  {
    assert SpaceAt(w, i) == 0;
  }

  lemma {:induction false} WordEndsAtBlank(w: bytes, t: bytes, i: nat)
    requires NoSpace(w) && i <= |w| && (t == [] || SpaceAt(t, 0) > 0)
    ensures WordEnd(w + t, i) == |w|
    decreases |w| - i
  {
    if i < |w| {
      SolidStays(w, t, i);
      WordEndsAtBlank(w, t, i + 1);
    } else {
      assert (w + t)[i..] == t;
      assert t != [] ==> SpaceAt(w + t, i) == SpaceAt(t, 0);
    }
  }

  lemma NoBlankInFront(s: bytes)
    requires SpaceAt(s, 0) == 0
    ensures BlankEnd(s, 0) == 0
  {
  }

  /** One word behind a gap. */
  lemma FirstWordOf(gap: bytes, w: bytes, t: bytes)
    requires AllBlank(gap) && w != [] && NoSpace(w) && (t == [] || SpaceAt(t, 0) > 0)
    ensures Words(gap + w + t) == [w] + Words(t)
  {
    hide SpaceAt, BlankEnd, WordEnd, NoSpace;
    var s, n := gap + w + t, |gap|;
    assert s == gap + (w + t);
    BlankEndSkips(gap, w + t, 0);
    SolidStays(w, t, 0);
    NoBlankInFront(w + t);
    WordEndsAtBlank(w, t, 0);
    assert s[n..] == w + t && (w + t)[|w|..] == t && (w + t)[0..|w|] == w;
    WordEndShift(s, n, n);
    SliceOfDrop(s, n, n, n + |w|);
    assert s[n + |w|..] == t;
    WordsFromShift(s, n + |w|, n + |w|);
  }

  lemma GapComesFirst(gap: bytes, t: bytes)
    requires AllBlank(gap) && gap != []
    ensures SpaceAt(gap + t, 0) > 0
  {
  }

  lemma NoWordInBlank(gap: bytes)
    requires AllBlank(gap)
    ensures Words(gap) == []
  {
  }

  /** Splitting at white space gives back the words, whatever white space separates them. */
  lemma {:induction false} WordsOfSpaced(gaps: seq<bytes>, ws: seq<bytes>)
    requires WellSpaced(gaps, ws)
    ensures Words(Spaced(gaps, ws)) == ws
    decreases |ws|
  {
    hide SpaceAt, Words, NoSpace, AllBlank;
    if ws == [] {
      NoWordInBlank(gaps[0]);
    } else {
      var t := Spaced(gaps[1..], ws[1..]);
      WordsOfSpaced(gaps[1..], ws[1..]);
      if |ws| > 1 {
        var behind := ws[1] + Spaced(gaps[2..], ws[2..]);
        assert gaps[1..][1..] == gaps[2..] && ws[1..][1..] == ws[2..];
        assert t == gaps[1] + behind;
        GapComesFirst(gaps[1], behind);
      } else if gaps[1] != [] {
        assert t == gaps[1] && gaps[1] + [] == gaps[1];
        GapComesFirst(gaps[1], []);
      }
      FirstWordOf(gaps[0], ws[0], t);
    }
  }

  /** A blank-free word followed by a blank is the first word. */
  lemma WordsCons(w: bytes, rest: bytes)
    requires w != [] && NoSpace(w)
    ensures Words(w + [SPACE] + rest) == [w] + Words(rest)
  {
    var s, n := w + [SPACE] + rest, |w|;
    assert s == w + ([SPACE] + rest);
    forall i | 0 <= i < n ensures SpaceAt(s, i) == 0 {
      SpaceAtPrefix(w, [SPACE] + rest, i);
    }
    assert SpaceAt(s, n) == 1;
    assert BlankEnd(s, 0) == 0 && WordEnd(s, 0) == n;
    assert s[0..n] == w && s[n + 1..] == rest;
    assert BlankEnd(s, n) == BlankEnd(s, n + 1);
    assert WordsFrom(s, n) == WordsFrom(s, n + 1);
    WordsFromShift(s, n + 1, n + 1);
  }

  lemma WordsSingle(w: bytes)
    requires w != [] && NoSpace(w)
    ensures Words(w) == [w]
  {
    assert BlankEnd(w, 0) == 0 && WordEnd(w, 0) == |w|;
    assert w[0..|w|] == w && WordsFrom(w, |w|) == [];
    assert Words(w) == [w] + WordsFrom(w, |w|);
  }

  /**
   When the text in front of an ASCII separator trims to a solid ASCII word,
   the first word of the whole line starts with that word.
   */
  lemma FirstWordExtends(a: bytes, b: bytes)
    requires b != [] && b[0] < 0x80
    requires Trim(a) != [] && forall i :: 0 <= i < |Trim(a)| ==> WordByte(Trim(a)[i]) && Trim(a)[i] != SPACE
    ensures Words(a + b) != [] && Trim(a) <= Words(a + b)[0]
  {
    var s, start, name := a + b, BlankEnd(a, 0), Trim(a);
    assert name <= a[start..];
    BlankEndPrefix(a, b, 0);
    forall i | start <= i < start + |name| ensures SpaceAt(s, i) == 0 {
      assert s[i] == name[i - start];
    }
    var end := WordEnd(s, start);
    assert end >= start + |name|;
    assert Words(s)[0] == s[start..end];
  }
}
