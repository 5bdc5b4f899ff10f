/** Integer texts: what `str::parse` and `from_str_radix` accept, and decimal formatting. */
module Numbers {
  import opened Bytes
  import opened Text

  const TEN_DIGITS: nat := 10_000_000_000

  /** `hex_value` of `src/request.rs`, also the digits `from_str_radix` knows. */
  function HexValue(b: byte): (r: Option<nat>)
    ensures r.Some? ==> r.value < 16
  {
    if 48 <= b <= 57 then Some(b as nat - 48)
    else if 97 <= b <= 102 then Some(b as nat - 97 + 10)
    else if 65 <= b <= 70 then Some(b as nat - 65 + 10)
    else None
  }

  function Digit(b: byte, radix: nat): (r: Option<nat>)
    ensures r.Some? ==> r.value < radix
  {
    match HexValue(b)
    case None => None
    case Some(v) => if v < radix then Some(v) else None
  }

  /** The number a digit string spells; `None` if some character is no digit. */
  function Value(digits: bytes, radix: nat): Option<nat> {
    if digits == [] then Some(0) else
    var n := |digits| - 1;
    match (Value(digits[..n], radix), Digit(digits[n], radix))
    case (Some(high), Some(low)) => Some(high * radix + low)
    case _ => None
  }

  // ----- What a number text is -----

  /** The digits of radix 10 or 16. */
  predicate IsDigit(b: byte, radix: nat) {
    48 <= b <= 57 || (radix == 16 && (65 <= b <= 70 || 97 <= b <= 102))
  }

  predicate AllDigits(text: bytes, radix: nat) {
    forall i :: 0 <= i < |text| ==> IsDigit(text[i], radix)
  }

  function Weight(b: byte): int {
    if b <= 57 then b as int - 48 else if b <= 70 then b as int - 55 else b as int - 87
  }

  /** The value of a digit string, from the left. */
  function Horner(digits: bytes, radix: nat, high: int): int {
    if digits == [] then high else Horner(digits[1..], radix, high * radix + Weight(digits[0]))
  }

  lemma {:induction false} HornerPush(digits: bytes, b: byte, radix: nat, high: int)
    ensures Horner(digits + [b], radix, high) == Horner(digits, radix, high) * radix + Weight(b)
    decreases |digits|
  {
    var all := digits + [b];
    if digits == [] {
      assert all[1..] == [] && all[0] == b;
    } else {
      assert all[1..] == digits[1..] + [b];
      HornerPush(digits[1..], b, radix, high * radix + Weight(digits[0]));
    }
  }

  lemma DigitWeighs(b: byte, radix: nat)
    requires radix == 10 || radix == 16
    ensures IsDigit(b, radix) <==> Digit(b, radix).Some?
    ensures IsDigit(b, radix) ==> Digit(b, radix) == Some(Weight(b) as nat)
  {
  }

  lemma {:induction false} ValueIsHorner(digits: bytes, radix: nat)
    requires radix == 10 || radix == 16
    ensures Value(digits, radix).Some? <==> AllDigits(digits, radix)
    ensures Value(digits, radix).Some? ==> Value(digits, radix).value == Horner(digits, radix, 0)
  {
    hide Digit, IsDigit, Weight;
    if digits != [] {
      var front, b := digits[..|digits| - 1], digits[|digits| - 1];
      assert digits == front + [b];
      ValueIsHorner(front, radix);
      DigitWeighs(b, radix);
      HornerPush(front, b, radix, 0);
    }
  }

  /** `from_str_radix`: optional `+`, at least one digit, value in range. */
  function ParseUnsigned(text: bytes, radix: nat, max: nat): (r: Option<nat>)
    ensures r.Some? ==> r.value <= max
  {
    var digits := if text != [] && text[0] == PLUS then text[1..] else text;
    if digits == [] then None else
    match Value(digits, radix)
    case None => None
    case Some(v) => if v <= max then Some(v) else None
  }

  /** A text of the number `n`, not above `max`: an optional plus sign, then digits. */
  predicate NumberText(text: bytes, radix: nat, n: nat, max: nat) {
    var digits := if text != [] && text[0] == PLUS then text[1..] else text;
    digits != [] && AllDigits(digits, radix) && Horner(digits, radix, 0) == n && n <= max
  }

  /** Parsing accepts exactly the number texts. */
  lemma ParsesExactly(text: bytes, radix: nat, n: nat, max: nat)
    requires radix == 10 || radix == 16
    ensures ParseUnsigned(text, radix, max) == Some(n) <==> NumberText(text, radix, n, max)
  {
    hide Value, Horner, AllDigits;
    ValueIsHorner(if text != [] && text[0] == PLUS then text[1..] else text, radix);
  }

  /** A leading plus sign is skipped, but is no number by itself. */
  lemma PlusIsOptional(text: bytes, radix: nat, max: nat)
    ensures text != [] && text[0] != PLUS
      ==> ParseUnsigned([PLUS] + text, radix, max) == ParseUnsigned(text, radix, max)
    ensures ParseUnsigned([PLUS], radix, max) == None && ParseUnsigned([], radix, max) == None
  {
    hide Value;
    assert ([PLUS] + text)[1..] == text;
  }

  function ParseUsize(text: bytes): Option<nat> {
    ParseUnsigned(text, 10, USIZE_MAX)
  }

  /** A number is spelled with digits behind an optional plus sign. */
  lemma NumberIsDigits(text: bytes)
    requires ParseUsize(text).Some?
    ensures text != [] && forall i :: 0 <= i < |text| ==> IsDigit(text[i], 10) || text[i] == PLUS
  {
    hide Horner, Value;
    ParsesExactly(text, 10, ParseUsize(text).value, USIZE_MAX);
    var digits := if text[0] == PLUS then text[1..] else text;
    assert text == text[..|text| - |digits|] + digits;
  }

  predicate DecimalDigit(b: byte) {
    48 <= b <= 57
  }

  /** The decimal text of `n`, as `{}` formats it. */
  function Decimal(n: nat): (r: bytes)
    ensures r != [] && forall i :: 0 <= i < |r| ==> DecimalDigit(r[i])
  {
    if n < 10 then [(48 + n) as byte] else Decimal(n / 10) + [(48 + n % 10) as byte]
  }

  lemma {:induction false} DecimalValue(n: nat)
    ensures Value(Decimal(n), 10) == Some(n)
  {
    var d := Decimal(n);
    if n < 10 {
      assert d[..0] == [];
    } else {
      DecimalValue(n / 10);
      assert d[..|d| - 1] == Decimal(n / 10);
    }
  }

  /** Parsing inverts decimal printing. */
  lemma ParseDecimal(n: nat, max: nat)
    requires n <= max
    ensures ParseUnsigned(Decimal(n), 10, max) == Some(n)
  {
    DecimalValue(n);
  }

  /** Every text other than the shortest one starts with a zero: no leading zeros are printed. */
  lemma {:induction false} DecimalNoLeadingZero(n: nat)
    ensures Decimal(n)[0] == 48 <==> n == 0
  {
    if n >= 10 {
      DecimalNoLeadingZero(n / 10);
    }
  }

  function Power10(k: nat): (p: nat)
    ensures p >= 1
  {
    if k == 0 then 1 else 10 * Power10(k - 1)
  }

  lemma {:induction false} Power10Monotone(j: nat, k: nat)
    requires j <= k
    ensures Power10(j) <= Power10(k)
    decreases k - j
  {
    if j < k {
      Power10Monotone(j + 1, k);
    }
  }

  /** A text of `k` digits or fewer is printed exactly for the numbers below `10^k`. */
  lemma {:induction false} DecimalLength(n: nat, k: nat)
    requires k > 0
    ensures |Decimal(n)| <= k <==> n < Power10(k)
  {
    if n < 10 {
      assert Power10(1) == 10;
      Power10Monotone(1, k);
    } else if k > 1 {
      DecimalLength(n / 10, k - 1);
    } else {
      assert Power10(1) == 10;
    }
  }

  lemma PowersOfTen()
    ensures Power10(8) == 100_000_000 && Power10(10) == TEN_DIGITS
  {
    assert Power10(4) == 10_000;
    assert Power10(8) == 100_000_000;
    assert Power10(10) == TEN_DIGITS;
  }

  lemma DecimalIsText(n: nat)
    ensures NoSpace(Decimal(n)) && Trimmed(Decimal(n)) && ValidUtf8(Decimal(n))
    ensures forall i :: 0 <= i < |Decimal(n)| ==> WordByte(Decimal(n)[i])
  {
    WordsAreSolid(Decimal(n));
  }
}
