/** `HttpResponseBuilder` of `src/response.rs`: the last header set under a name wins. */
module Builder {
  import opened Bytes
  import opened Protocol
  import opened Tables
  import opened Text
  import opened Heads
  import opened Responses
  import opened ResponseLaws

  predicate HasName(hs: seq<Header>, name: bytes) {
    exists i :: 0 <= i < |hs| && EqIgnoreCase(hs[i].name, name)
  }

  /** The headers that no later header of the same name overrides. */
  function LastOnly(hs: seq<Header>): seq<Header> {
    if hs == [] then [] else
    var more := LastOnly(hs[1..]);
    if HasName(hs[1..], hs[0].name) then more else [hs[0]] + more
  }

  function Reverse(hs: seq<Header>): (r: seq<Header>)
    ensures |r| == |hs|
  {
    seq(|hs|, i requires 0 <= i < |hs| => hs[|hs| - 1 - i])
  }

  lemma HasNameCons(hs: seq<Header>, name: bytes)
    requires hs != []
    ensures HasName(hs, name) <==> EqIgnoreCase(hs[0].name, name) || HasName(hs[1..], name)
  {
    hide EqIgnoreCase;
    if HasName(hs[1..], name) {
      var i :| 0 <= i < |hs[1..]| && EqIgnoreCase(hs[1..][i].name, name);
      assert hs[i + 1] == hs[1..][i];
    }
    if HasName(hs, name) && !EqIgnoreCase(hs[0].name, name) {
      var i :| 0 <= i < |hs| && EqIgnoreCase(hs[i].name, name);
      assert hs[1..][i - 1] == hs[i];
    }
  }

  /** Names equal ignoring case are found alike. */
  lemma HasNameOfSame(hs: seq<Header>, a: bytes, b: bytes)
    requires EqIgnoreCase(a, b) && HasName(hs, a)
    ensures HasName(hs, b)
  {
  }

  /** Exactly the input's names remain. */
  lemma {:induction false} LastOnlyHasNames(hs: seq<Header>, name: bytes)
    ensures HasName(LastOnly(hs), name) <==> HasName(hs, name)
  {
    hide EqIgnoreCase, HasName;
    if hs != [] {
      LastOnlyHasNames(hs[1..], name);
      HasNameCons(hs, name);
      var more := LastOnly(hs[1..]);
      if HasName(hs[1..], hs[0].name) {
        if EqIgnoreCase(hs[0].name, name) {
          HasNameOfSame(hs[1..], hs[0].name, name);
        }
      } else {
        HasNameCons([hs[0]] + more, name);
        assert ([hs[0]] + more)[1..] == more;
      }
    }
  }

  lemma ReverseHasNames(hs: seq<Header>, name: bytes)
    ensures HasName(Reverse(hs), name) <==> HasName(hs, name)
  {
    hide EqIgnoreCase;
    var r := Reverse(hs);
    forall i | 0 <= i < |hs| ensures r[|hs| - 1 - i] == hs[i] {
    }
  }

  class ResponseBuilder {
    var status: StatusCode
    var headers: seq<Header>
    var body: Option<ResponseBody>

    constructor (status: StatusCode)
      ensures Valid() && this.status == status && headers == [] && body == None
    {
      this.status, this.headers, this.body := status, [], None;
    }

    ghost predicate Valid()
      reads this
    {
      |headers| <= MAX_HEADERS
    }

    /** `header` and `content_type`: the seventeenth header is refused. */
    method AddHeader(h: Header) returns (ok: bool)
      requires Valid()
      modifies this`headers
      ensures Valid() && (ok <==> |old(headers)| < MAX_HEADERS)
      ensures headers == if ok then old(headers) + [h] else old(headers)
    {
      ok := |headers| < MAX_HEADERS;
      if ok {
        headers := headers + [h];
      }
    }

    /** `json`: a content type, then the body. */
    method Json(text: bytes) returns (ok: bool)
      requires Valid()
      modifies this`headers, this`body
      ensures Valid() && (ok <==> |old(headers)| < MAX_HEADERS)
      ensures ok ==> headers == old(headers) + [Header(CONTENT_TYPE, Ascii("application/json"))]
      ensures ok ==> body == Some(TextBody(text))
      ensures !ok ==> headers == old(headers) && body == old(body)
    {
      ok := AddHeader(Header(CONTENT_TYPE, Ascii("application/json")));
      if ok {
        body := Some(TextBody(text));
      }
    }

    /** `build`: walk the headers backwards, keep a name the first time it is met, reverse. */
    method Build() returns (r: HttpResponse)
      requires Valid()
      ensures r == HttpResponse(status, LastOnly(headers), match body case None => EmptyBody case Some(b) => b)
    {
      hide EqIgnoreCase;
      var kept: seq<Header> := [];
      var i := |headers|;
      while i > 0
        invariant 0 <= i <= |headers|
        invariant Reverse(kept) == LastOnly(headers[i..])
        invariant |kept| <= |headers| - i
      {
        i := i - 1;
        var h := headers[i];
        assert headers[i..][1..] == headers[i + 1..];
        LastOnlyHasNames(headers[i + 1..], h.name);
        ReverseHasNames(kept, h.name);
        if !HasName(kept, h.name) {
          if |kept| < MAX_HEADERS {
            kept := kept + [h];
          }
          assert Reverse(kept) == [h] + Reverse(kept[..|kept| - 1]);
          assert kept[..|kept| - 1] + [h] == kept;
        }
      }
      assert headers[0..] == headers;
      r := HttpResponse(status, Reverse(kept), match body case None => EmptyBody case Some(b) => b);
    }
  }

  // ----- What de-duplication does -----

  lemma EqIsSymmetric(a: bytes, b: bytes)
    ensures EqIgnoreCase(a, b) <==> EqIgnoreCase(b, a)
  {
  }

  /** No two remaining names are equal ignoring case. */
  lemma {:induction false} LastOnlyIsDistinct(hs: seq<Header>)
    ensures forall i, j :: 0 <= i < j < |LastOnly(hs)| ==> !EqIgnoreCase(LastOnly(hs)[i].name, LastOnly(hs)[j].name)
  {
    hide EqIgnoreCase;
    if hs != [] {
      var more, all := LastOnly(hs[1..]), LastOnly(hs);
      LastOnlyIsDistinct(hs[1..]);
      LastOnlyHasNames(hs[1..], hs[0].name);
      forall i, j | 0 <= i < j < |all| ensures !EqIgnoreCase(all[i].name, all[j].name) {
        if all != more && i == 0 {
          assert all[j] == more[j - 1];
          EqIsSymmetric(all[i].name, all[j].name);
        }
      }
    }
  }

  /** The value of the last header called `name`. */
  function LastValue(hs: seq<Header>, name: bytes): Option<bytes> {
    if hs == [] then None else
    var n := |hs| - 1;
    if EqIgnoreCase(hs[n].name, name) then Some(hs[n].value) else LastValue(hs[..n], name)
  }

  /** Read from the front, the last value is that of the tail if the tail has the name at all. */
  lemma {:induction false} LastValueCons(h: Header, hs: seq<Header>, name: bytes)
    ensures LastValue([h] + hs, name) ==
      if HasName(hs, name) then LastValue(hs, name) else if EqIgnoreCase(h.name, name) then Some(h.value) else None
  {
    hide EqIgnoreCase;
    var all := [h] + hs;
    if hs == [] {
      assert all[..0] == [];
    } else {
      var n := |hs| - 1;
      assert all[..n + 1] == [h] + hs[..n];
      LastValueCons(h, hs[..n], name);
      if !EqIgnoreCase(hs[n].name, name) {
        assert HasName(hs, name) <==> HasName(hs[..n], name) by {
          assert forall i :: 0 <= i < n ==> hs[..n][i] == hs[i];
        }
      }
    }
  }

  lemma NoLastValue(name: bytes)
    ensures LastValue([], name) == None
  {
  }

  lemma LookupFindsNames(hs: seq<Header>, name: bytes)
    ensures Lookup(hs, name).Some? <==> HasName(hs, name)
  {
  }

  /** Looking a name up among the remaining headers gives the value set last. */
  lemma {:induction false} LookupIsLast(hs: seq<Header>, name: bytes)
    ensures Lookup(LastOnly(hs), name) == LastValue(hs, name)
  {
    hide EqIgnoreCase, HasName, LastValue;
    if hs == [] {
      NoLastValue(name);
    } else {
      var h, more := hs[0], hs[1..];
      LookupIsLast(more, name);
      assert hs == [h] + more;
      LastValueCons(h, more, name);
      LastOnlyHasNames(more, name);
      LookupFindsNames(LastOnly(more), name);
      if HasName(more, h.name) {
        if EqIgnoreCase(h.name, name) {
          HasNameOfSame(more, h.name, name);
        }
      } else {
        assert ([h] + LastOnly(more))[1..] == LastOnly(more);
        if EqIgnoreCase(h.name, name) && HasName(more, name) {
          EqIsSymmetric(h.name, name);
          HasNameOfSame(more, name, h.name);
        }
      }
    }
  }

  /** De-duplicating again changes nothing. */
  lemma {:induction false} LastOnlyIsIdempotent(hs: seq<Header>)
    ensures LastOnly(LastOnly(hs)) == LastOnly(hs)
  {
    hide EqIgnoreCase, HasName;
    if hs != [] {
      LastOnlyIsIdempotent(hs[1..]);
      LastOnlyHasNames(hs[1..], hs[0].name);
      assert ([hs[0]] + LastOnly(hs[1..]))[1..] == LastOnly(hs[1..]);
    }
  }

  /** Where the remaining headers stood, from offset `i` of the input on. */
  function Kept(hs: seq<Header>, i: nat): seq<nat>
    requires i <= |hs|
    decreases |hs| - i
  {
    if i == |hs| then []
    else if HasName(hs[i + 1..], hs[i].name) then Kept(hs, i + 1)
    else [i] + Kept(hs, i + 1)
  }

  /** Increasing positions from `i` on. */
  predicate Increasing(kept: seq<nat>, i: nat) {
    && (forall k :: 0 <= k < |kept| ==> i <= kept[k])
    && (forall k, l :: 0 <= k < l < |kept| ==> kept[k] < kept[l])
  }

  /** `r` are the headers at those positions. */
  predicate StoodAt(hs: seq<Header>, kept: seq<nat>, r: seq<Header>) {
    |kept| == |r| && forall k :: 0 <= k < |kept| ==> kept[k] < |hs| && r[k] == hs[kept[k]]
  }

  lemma {:induction false} KeptIsIncreasing(hs: seq<Header>, i: nat)
    requires i <= |hs|
    ensures Increasing(Kept(hs, i), i)
    decreases |hs| - i
  {
    hide HasName;
    if i < |hs| {
      KeptIsIncreasing(hs, i + 1);
    }
  }

  lemma {:induction false} KeptStoodThere(hs: seq<Header>, i: nat)
    requires i <= |hs|
    ensures StoodAt(hs, Kept(hs, i), LastOnly(hs[i..]))
    decreases |hs| - i
  {
    hide HasName;
    if i < |hs| {
      KeptStoodThere(hs, i + 1);
      assert hs[i..][1..] == hs[i + 1..];
    }
  }

  lemma {:induction false} KeptAreLast(hs: seq<Header>, i: nat, p: nat)
    requires i <= p < |hs|
    ensures p in Kept(hs, i) <==> !HasName(hs[p + 1..], hs[p].name)
    decreases |hs| - i
  {
    hide HasName;
    KeptIsIncreasing(hs, i + 1);
    if p > i {
      KeptAreLast(hs, i + 1, p);
    }
  }

  /**
   The remaining headers are a subsequence of the input, in the order of their
   last occurrences: increasing positions, exactly those without a successor of the same name.
   */
  lemma LastOnlyKeepsOrder(hs: seq<Header>)
    ensures Increasing(Kept(hs, 0), 0) && StoodAt(hs, Kept(hs, 0), LastOnly(hs))
    ensures forall p :: 0 <= p < |hs| ==> (p in Kept(hs, 0) <==> !HasName(hs[p + 1..], hs[p].name))
  {
    hide Kept, Increasing, StoodAt, HasName, LastOnly;
    KeptIsIncreasing(hs, 0);
    KeptStoodThere(hs, 0);
    assert hs[0..] == hs;
    forall p | 0 <= p < |hs| ensures p in Kept(hs, 0) <==> !HasName(hs[p + 1..], hs[p].name) {
      KeptAreLast(hs, 0, p);
    }
  }

  // ----- A JSON response -----

  lemma KeptArePrintable(hs: seq<Header>)
    requires AllPrintable(hs)
    ensures AllPrintable(LastOnly(hs)) && |LastOnly(hs)| <= |hs|
  {
    hide Printable, HasName;
    if hs != [] {
      KeptArePrintable(hs[1..]);
    }
  }

  lemma TypeIsPrintable()
    ensures Printable(Header(CONTENT_TYPE, Ascii("application/json")))
  {
    hide ValidUtf8, Trimmed, NoSpace;
    WordsAreSolid(CONTENT_TYPE);
    WordsAreSolid(Ascii("application/json"));
  }

  lemma LastOneWins(hs: seq<Header>, h: Header)
    ensures LastValue(hs + [h], h.name) == Some(h.value)
  {
  }

  /** The parsed response has the text as its body, under the type `application/json`. */
  predicate ShowsJson(got: Outcome<HttpResponse>, text: bytes) {
    && got.Ok? && got.value.body == TextBody(text)
    && Lookup(got.value.headers, Ascii("Content-Type")) == Some(Ascii("application/json"))
  }

  lemma JsonIsText()
    ensures StartsAsText(Ascii("application/json"))
  {
    hide Ascii;
    assert TEXT_TYPES[1] <= Ascii("application/json");
  }

  /** What `json` and `build` make of a text is read back as that text, under the type `application/json`. */
  lemma JsonComesBack(status: StatusCode, hs: seq<Header>, text: bytes)
    requires AllPrintable(hs) && |hs| < 16 && text != [] && ValidUtf8(text)
    ensures var headers := LastOnly(hs + [Header(Ascii("Content-Type"), Ascii("application/json"))]);
      ShowsJson(ParseResponse(ResponseBytes(HttpResponse(status, headers, TextBody(text)))), text)
  {
    hide ParseResponse, ResponseBytes, ValidUtf8, LastOnly, Printable, Lookup, StatusOf, StatusNumber, LastValue, Ascii,
      ParseBody, StartsAsText;
    var h := Header(Ascii("Content-Type"), Ascii("application/json"));
    var headers := LastOnly(hs + [h]);
    var r := HttpResponse(status, headers, TextBody(text));
    TypeIsPrintable();
    KeptArePrintable(hs + [h]);
    LookupIsLast(hs + [h], h.name);
    LastOneWins(hs, h);
    var printed := PrintedHeaders(r, true);
    assert FirstHeaders(printed) == headers + FirstHeaders(printed)[|headers|..];
    LookupAppend(headers, FirstHeaders(printed)[|headers|..], h.name);
    TextComesBack(r);
    ResponseRoundTrip(r);
    JsonIsText();
  }

  lemma NoHeaders()
    ensures AllPrintable([])
  {
  }

  /** A JSON response from its builder to its reader. */
  method BuildJson(status: StatusCode, text: bytes) returns (r: HttpResponse)
    requires text != [] && ValidUtf8(text)
    ensures r.status == status && r.body == TextBody(text)
    ensures ShowsJson(ParseResponse(ResponseBytes(r)), text)
  {
    hide ParseResponse, ResponseBytes, ValidUtf8, LastOnly, AllPrintable, Ascii, ShowsJson;
    NoHeaders();
    JsonComesBack(status, [], text);
    var builder := new ResponseBuilder(status);
    var ok := builder.Json(text);
    r := builder.Build();
  }
}
