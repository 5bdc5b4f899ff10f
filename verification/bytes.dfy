/** Byte strings, results, and the sub-string searches everything else rests on. */
module Bytes {

  newtype byte = b: int | 0 <= b < 256

  type bytes = seq<byte>

  /** Largest value of the source's `usize`, on a 64-bit target. */
  const USIZE_MAX: nat := 0xFFFF_FFFF_FFFF_FFFF

  datatype Option<+T> = None | Some(value: T)

  /** The error variants of `src/error.rs` that the modelled code returns. */
  datatype Error =
    | TcpError
    | NoResponse
    | InvalidResponse(message: string)
    | InvalidStatusCode
    | BufferOverflow

  /** A `Result` that also records the runs on which the source panics. */
  datatype Outcome<+T> = Ok(value: T) | Err(error: Error) | Panic

  const CR: byte := 13
  const LF: byte := 10
  const SPACE: byte := 32
  const PERCENT: byte := 37
  const AMPERSAND: byte := 38
  const PLUS: byte := 43
  const COMMA: byte := 44
  const COLON: byte := 58
  const SEMICOLON: byte := 59
  const EQUALS: byte := 61
  const CRLF: bytes := [13, 10]

  /** Characters the source's textual constants are made of: no control character, no colon. */
  predicate WordChar(c: char) {
    32 <= c as int <= 122 && c != ':'
  }

  predicate WordByte(b: byte) {
    32 <= b <= 122 && b != COLON
  }

  /** The bytes of a textual constant of the source. */
  function Ascii(s: string): (r: bytes)
    requires forall i :: 0 <= i < |s| ==> WordChar(s[i])
    ensures |r| == |s|
    ensures forall i :: 0 <= i < |r| ==> WordByte(r[i])
    ensures forall i :: 0 <= i < |r| ==> r[i] as int == s[i] as int
  {
    seq(|s|, i requires 0 <= i < |s| && WordChar(s[i]) => s[i] as int as byte)
  }

  function Min(a: nat, b: nat): nat {
    if a <= b then a else b
  }

  function Lower(b: byte): byte {
    if 65 <= b <= 90 then b + 32 else b
  }

  /** `eq_ignore_ascii_case`. */
  predicate EqIgnoreCase(a: bytes, b: bytes) {
    |a| == |b| && forall i :: 0 <= i < |a| ==> Lower(a[i]) == Lower(b[i])
  }

  /** One byte twice, or one letter in upper and in lower case. */
  predicate SameLetter(a: byte, b: byte) {
    a == b || (65 <= a <= 90 && b as int == a as int + 32) || (65 <= b <= 90 && a as int == b as int + 32)
  }

  /** Ignoring case means: of one length, and at every position one letter in any case or one byte. */
  lemma EqIgnoreCaseExactly(a: bytes, b: bytes)
    ensures EqIgnoreCase(a, b) <==> |a| == |b| && forall i :: 0 <= i < |a| ==> SameLetter(a[i], b[i])
  {
    assert forall x: byte, y: byte :: Lower(x) == Lower(y) <==> SameLetter(x, y);
  }

  function InCase(b: byte, upper: bool): byte {
    if 65 <= b <= 90 && !upper then (b as int + 32) as byte
    else if 97 <= b <= 122 && upper then (b as int - 32) as byte
    else b
  }

  /** `name` with each of its letters in the case the list says. */
  function Recase(name: bytes, upper: seq<bool>): (r: bytes)
    requires |upper| == |name|
    ensures |r| == |name|
  {
    seq(|name|, i requires 0 <= i < |name| => InCase(name[i], upper[i]))
  }

  /** Re-casing a name gives all names equal to it ignoring case. */
  lemma RecaseIsSame(name: bytes, upper: seq<bool>)
    requires |upper| == |name|
    ensures EqIgnoreCase(Recase(name, upper), name) && EqIgnoreCase(name, Recase(name, upper))
  {
  }

  lemma SameIsRecased(name: bytes, other: bytes) returns (upper: seq<bool>)
    requires EqIgnoreCase(name, other)
    ensures |upper| == |name| && Recase(name, upper) == other
  {
    upper := seq(|name|, i requires 0 <= i < |name| => 65 <= other[i] <= 90);
    var r := Recase(name, upper);
    forall i | 0 <= i < |name| ensures r[i] == other[i] {
      assert Lower(name[i]) == Lower(other[i]);
    }
  }

  // ----- Searching -----

  /** `pattern` occurs in `s` at offset `i`. */
  predicate OccursAt(s: bytes, pattern: bytes, i: nat) {
    i + |pattern| <= |s| && s[i..i + |pattern|] == pattern
  }

  /** `s.windows(n).position(|w| w == pattern)`, scanning from offset `i`. */
  function FindFrom(s: bytes, pattern: bytes, i: nat): (r: Option<nat>)
    requires i <= |s| && pattern != []
    ensures r.Some? ==> i <= r.value && OccursAt(s, pattern, r.value)
    ensures forall j :: i <= j && (r.Some? ==> j < r.value) ==> !OccursAt(s, pattern, j)
    decreases |s| - i
  {
    if i == |s| then None
    else if OccursAt(s, pattern, i) then Some(i)
    else FindFrom(s, pattern, i + 1)
  }

  function Find(s: bytes, pattern: bytes): (r: Option<nat>)
    requires pattern != []
    ensures r.Some? ==> OccursAt(s, pattern, r.value)
    ensures forall j: nat :: (r.Some? ==> j < r.value) ==> !OccursAt(s, pattern, j)
  {
    FindFrom(s, pattern, 0)
  }

  /** `str::find` of an ASCII character. */
  function IndexOf(s: bytes, b: byte): (r: Option<nat>)
    ensures r.Some? ==> r.value < |s| && s[r.value] == b
    ensures forall j :: 0 <= j < |s| && (r.Some? ==> j < r.value) ==> s[j] != b
  {
    if s == [] then None
    else if s[0] == b then Some(0)
    else match IndexOf(s[1..], b)
      case None => None
      case Some(i) => Some(i + 1)
  }

  /** Behind text without it, the byte is found where it stands. */
  lemma IndexOfBehind(a: bytes, b: byte, c: bytes)
    requires IndexOf(a, b).None?
    ensures IndexOf(a + [b] + c, b) == Some(|a|)
  {
    var s := a + [b] + c;
    assert s[|a|] == b && forall i :: 0 <= i < |a| ==> s[i] == a[i];
  }

  /** `str::split` at an ASCII character. */
  function Split(s: bytes, b: byte): (r: seq<bytes>)
    ensures r != []
    decreases |s|
  {
    match IndexOf(s, b)
    case None => [s]
    case Some(i) => [s[..i]] + Split(s[i + 1..], b)
  }

  /** An occurrence inside a prefix is an occurrence in the whole, and conversely. */
  lemma OccursInPrefix(s: bytes, pattern: bytes, n: nat, i: nat)
    requires n <= |s|
    ensures OccursAt(s[..n], pattern, i) <==> OccursAt(s, pattern, i) && i + |pattern| <= n
  {
    if i + |pattern| <= n {
      assert s[..n][i..i + |pattern|] == s[i..i + |pattern|];
    }
  }

  /** The first occurrence is stable under appending. */
  lemma FindInPrefix(s: bytes, pattern: bytes, n: nat)
    requires n <= |s| && pattern != []
    ensures Find(s[..n], pattern).Some? ==> Find(s, pattern) == Find(s[..n], pattern)
    ensures Find(s, pattern).Some? && Find(s, pattern).value + |pattern| <= n
      ==> Find(s[..n], pattern) == Find(s, pattern)
  {
    forall i: nat ensures OccursAt(s[..n], pattern, i) <==> OccursAt(s, pattern, i) && i + |pattern| <= n {
      OccursInPrefix(s, pattern, n, i);
    }
  }
}
