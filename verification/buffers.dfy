/** The bounded vectors and strings of `heapless`, and the decimal printer that fills them. */
module Buffers {
  import opened Bytes
  import opened Numbers

  function Concat(pieces: seq<bytes>): bytes {
    if pieces == [] then [] else pieces[0] + Concat(pieces[1..])
  }

  lemma {:induction false} ConcatAppend(a: seq<bytes>, b: seq<bytes>)
    ensures Concat(a + b) == Concat(a) + Concat(b)
  {
    if a == [] {
      assert a + b == b;
    } else {
      assert (a + b)[1..] == a[1..] + b;
      ConcatAppend(a[1..], b);
    }
  }

  /** One piece more in front of the rest. */
  lemma ConcatFrom(front: bytes, pieces: seq<bytes>, i: nat)
    requires i < |pieces|
    ensures front + Concat(pieces[i..]) == front + pieces[i] + Concat(pieces[i + 1..])
    ensures |front + Concat(pieces[i..])| >= |front| + |pieces[i]|
  {
    assert pieces[i..][1..] == pieces[i + 1..];
  }

  lemma ConcatTwo(a: bytes, b: bytes)
    ensures Concat([a, b]) == a + b
  {
    assert [a, b][1..] == [b] && Concat([b]) == b;
  }

  lemma ConcatThree(a: bytes, b: bytes, c: bytes)
    ensures Concat([a, b, c]) == a + b + c
  {
    ConcatTwo(b, c);
    assert [a, b, c][1..] == [b, c];
  }

  /** `heapless::Vec<u8, N>` or `heapless::String<N>`. */
  class BoundedBuffer {
    const capacity: nat
    var contents: bytes

    constructor (capacity: nat)
      ensures Valid() && this.capacity == capacity && contents == []
    {
      this.capacity, this.contents := capacity, [];
    }

    ghost predicate Valid()
      reads this
    {
      |contents| <= capacity
    }

    method Push(b: byte) returns (ok: bool)
      requires Valid()
      modifies this`contents
      ensures Valid() && (ok <==> |old(contents)| < capacity)
      ensures contents == if ok then old(contents) + [b] else old(contents)
    {
      ok := |contents| < capacity;
      if ok {
        contents := contents + [b];
      }
    }

    /** `extend_from_slice` and `push_str`: all of `data`, or nothing. */
    method PushSlice(data: bytes) returns (ok: bool)
      requires Valid()
      modifies this`contents
      ensures Valid() && (ok <==> |old(contents)| + |data| <= capacity)
      ensures contents == if ok then old(contents) + data else old(contents)
    {
      ok := |contents| + |data| <= capacity;
      if ok {
        contents := contents + data;
      }
    }

    /** A run of `PushSlice` calls, each followed by `?`. */
    method PushAll(pieces: seq<bytes>) returns (ok: bool)
      requires Valid()
      modifies this`contents
      ensures Valid() && (ok <==> |old(contents)| + |Concat(pieces)| <= capacity)
      ensures ok ==> contents == old(contents) + Concat(pieces)
    {
      var i := 0;
      while i < |pieces|
        invariant Valid() && 0 <= i <= |pieces|
        invariant contents + Concat(pieces[i..]) == old(contents) + Concat(pieces)
      {
        ConcatFrom(contents, pieces, i);
        ok := PushSlice(pieces[i]);
        if !ok {
          return false;
        }
        i := i + 1;
      }
      assert contents == old(contents) + Concat(pieces);
      return true;
    }

    /**
     `write_decimal_to_buffer`: digits are collected backwards in a scratch
     array of ten, then pushed one by one. An eleventh digit is an index out of
     range; a full buffer keeps the digits that did fit.
     */
    method WriteDecimal(num: nat) returns (r: Outcome<()>)
      requires Valid()
      modifies this`contents
      ensures Valid()
      ensures r.Panic? <==> num >= TEN_DIGITS
      ensures r.Panic? ==> contents == old(contents)
      ensures !r.Panic? ==> contents == old(contents) + Decimal(num)[..Min(|Decimal(num)|, capacity - |old(contents)|)]
      ensures !r.Panic? ==>
        r == if |old(contents)| + |Decimal(num)| <= capacity then Ok(()) else Err(BufferOverflow)
    {
      if num == 0 {
        var ok := Push(48);
        return if ok then Ok(()) else Err(BufferOverflow);
      }
      ghost var d := Decimal(num);
      var digits := new byte[10](_ => 0);
      var i := 0;
      var n := num;
      PowersOfTen();
      DecimalLength(num, 10);
      while n > 0
        invariant 0 <= i <= 10 && i <= |d|
        invariant if n == 0 then i == |d| else i < |d| && Decimal(n) == d[..|d| - i]
        invariant contents == old(contents)
        invariant forall k :: 0 <= k < i ==> digits[k] == d[|d| - 1 - k]
      {
        if i == 10 {
          return Panic;
        }
        digits[i] := (n % 10) as byte + 48;
        n := n / 10;
        i := i + 1;
      }
      var j := i;
      assert i == |d|;
      while j > 0
        invariant 0 <= j <= i && i == |d| <= 10 && Valid()
        invariant forall k :: 0 <= k < i ==> digits[k] == d[|d| - 1 - k]
        invariant i - j <= capacity - |old(contents)|
        invariant contents == old(contents) + d[..i - j]
      {
        j := j - 1;
        var ok := Push(digits[j]);
        if !ok {
          return Err(BufferOverflow);
        }
        assert digits[j] == d[i - 1 - j];
        assert d[..i - j] == d[..i - j - 1] + [d[i - j - 1]];
      }
      assert d[..i] == d;
      return Ok(());
    }
  }
}
