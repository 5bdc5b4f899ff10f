/** Query strings of `src/request.rs`: the pair iterator, its clients, and percent-decoding. */
module Queries {
  import opened Bytes
  import opened Text
  import opened Numbers

  datatype QueryPair = QueryPair(name: bytes, value: bytes)

  /** One segment, split at its first `=`. */
  function PairOf(segment: bytes): QueryPair {
    match IndexOf(segment, EQUALS)
    case None => QueryPair(segment, [])
    case Some(p) => QueryPair(segment[..p], segment[p + 1..])
  }

  /** The pairs of a list of segments, empty segments dropped. */
  function PairsOf(segments: seq<bytes>): seq<QueryPair> {
    if segments == [] then []
    else if segments[0] == [] then PairsOf(segments[1..])
    else [PairOf(segments[0])] + PairsOf(segments[1..])
  }

  /** The simple form of iterating a query: split at `&`, drop empty segments, split each pair. */
  function Pairs(query: bytes): seq<QueryPair> {
    PairsOf(Split(query, AMPERSAND))
  }

  lemma PairsCons(segment: bytes, more: seq<bytes>)
    ensures PairsOf([segment] + more) == (if segment == [] then [] else [PairOf(segment)]) + PairsOf(more)
    ensures PairsOf([]) == []
  {
    hide PairOf;
    assert ([segment] + more)[1..] == more;
  }

  /** One step of `split_once('&')`. */
  lemma PairsStep(query: bytes)
    ensures Pairs(query) ==
      match IndexOf(query, AMPERSAND)
      case None => if query == [] then [] else [PairOf(query)]
      case Some(p) => (if p == 0 then [] else [PairOf(query[..p])]) + Pairs(query[p + 1..])
  {
    hide PairOf, IndexOf, PairsOf;
    match IndexOf(query, AMPERSAND) {
      case None =>
        PairsCons(query, []);
        assert [query] + [] == [query];
      case Some(p) =>
        PairsCons(query[..p], Split(query[p + 1..], AMPERSAND));
        assert query[..p] == [] <==> p == 0;
    }
  }

  class QueryPairs {
    var remaining: bytes

    constructor (query: bytes)
      ensures remaining == query
    {
      remaining := query;
    }

    /** `next`: the first pair not yet produced, skipping empty segments. */
    method Next() returns (r: Option<QueryPair>)
      modifies this
      ensures match r
        case None => Pairs(old(remaining)) == [] && remaining == []
        case Some(pair) => Pairs(old(remaining)) == [pair] + Pairs(remaining) && |remaining| < |old(remaining)|
    {
      hide Pairs, IndexOf;
      while true
        invariant Pairs(remaining) == Pairs(old(remaining)) && |remaining| <= |old(remaining)|
        decreases |remaining|
      {
        PairsStep(remaining);
        PairsStep([]);
        var segment;
        match IndexOf(remaining, AMPERSAND) {
          case None => segment, remaining := remaining, [];
          case Some(p) => segment, remaining := remaining[..p], remaining[p + 1..];
        }
        if segment == [] {
          if remaining == [] {
            return None;
          }
          continue;
        }
        return Some(PairOf(segment));
      }
    }
  }

  /** A whole run of the iterator produces the simple form. */
  method CollectPairs(query: bytes) returns (r: seq<QueryPair>)
    ensures r == Pairs(query)
  {
    hide Pairs;
    r := [];
    var pairs := new QueryPairs(query);
    while true
      invariant Pairs(query) == r + Pairs(pairs.remaining)
      decreases |pairs.remaining|
    {
      var pair := pairs.Next();
      if pair.None? {
        PairsStep([]);
        return;
      }
      r := r + [pair.value];
    }
  }

  /** All values given to `name`, in order. */
  function ValuesOf(pairs: seq<QueryPair>, name: bytes): seq<bytes> {
    if pairs == [] then []
    else (if pairs[0].name == name then [pairs[0].value] else []) + ValuesOf(pairs[1..], name)
  }

  lemma ValuesStep(pair: QueryPair, more: seq<QueryPair>, name: bytes)
    ensures ValuesOf([pair] + more, name) == (if pair.name == name then [pair.value] else []) + ValuesOf(more, name)
  {
    assert ([pair] + more)[1..] == more;
  }

  lemma NoValues(name: bytes)
    ensures ValuesOf([], name) == []
  {
  }

  /** A pair contributes its value to its own name, in its place, and nothing to other names. */
  lemma {:induction false} ValuesAround(before: seq<QueryPair>, pair: QueryPair, after: seq<QueryPair>, name: bytes)
    ensures ValuesOf(before + [pair] + after, name) ==
      ValuesOf(before, name) + (if pair.name == name then [pair.value] else []) + ValuesOf(after, name)
    ensures ValuesOf([], name) == []
  {
    hide ValuesOf;
    NoValues(name);
    if before == [] {
      assert before + [pair] + after == [pair] + after;
      ValuesStep(pair, after, name);
    } else {
      var more := before[1..] + [pair] + after;
      ValuesAround(before[1..], pair, after, name);
      assert before + [pair] + after == [before[0]] + more && before == [before[0]] + before[1..];
      ValuesStep(before[0], more, name);
      ValuesStep(before[0], before[1..], name);
    }
  }

  class QueryValues {
    const pairs: QueryPairs
    const name: bytes

    constructor (pairs: QueryPairs, name: bytes)
      ensures this.pairs == pairs && this.name == name
    {
      this.pairs, this.name := pairs, name;
    }

    /** `next`: the first value of the name not yet produced. */
    method Next() returns (r: Option<bytes>)
      modifies pairs
      ensures var before, after := ValuesOf(Pairs(old(pairs.remaining)), name), ValuesOf(Pairs(pairs.remaining), name);
        match r
        case None => before == [] && pairs.remaining == []
        case Some(v) => before == [v] + after && |pairs.remaining| < |old(pairs.remaining)|
    {
      hide Pairs;
      ghost var all := ValuesOf(Pairs(pairs.remaining), name);
      while true
        invariant ValuesOf(Pairs(pairs.remaining), name) == all
        invariant |pairs.remaining| <= |old(pairs.remaining)|
        decreases |pairs.remaining|
      {
        var pair := pairs.Next();
        if pair.None? {
          return None;
        }
        ValuesStep(pair.value, Pairs(pairs.remaining), name);
        if pair.value.name == name {
          return Some(pair.value.value);
        }
        assert [] + ValuesOf(Pairs(pairs.remaining), name) == ValuesOf(Pairs(pairs.remaining), name);
      }
    }
  }

  // ----- From the request target -----

  const QUESTION_MARK: byte := 63

  /** `query_string`: what follows the first `?` of a target, if there is one. */
  function QueryString(target: bytes): Option<bytes> {
    match IndexOf(target, QUESTION_MARK)
    case None => None
    case Some(p) => Some(target[p + 1..])
  }

  /** The values a target gives to a name. */
  function TargetValues(target: bytes, name: bytes): seq<bytes> {
    match QueryString(target)
    case None => []
    case Some(query) => ValuesOf(Pairs(query), name)
  }

  lemma NoPairs(name: bytes)
    ensures ValuesOf(Pairs([]), name) == []
  {
    PairsStep([]);
  }

  /** `query_first`: the first of all values of the name. */
  method QueryFirst(target: bytes, name: bytes) returns (r: Option<bytes>)
    ensures var all := TargetValues(target, name);
      r == if all == [] then None else Some(all[0])
  {
    hide Pairs, ValuesOf, QueryString;
    NoPairs(name);
    var query := QueryString(target);
    var pairs := new QueryPairs(if query.Some? then query.value else []);
    var values := new QueryValues(pairs, name);
    r := values.Next();
  }

  /** `query_last`: the last of all values of the name. */
  method QueryLast(target: bytes, name: bytes) returns (r: Option<bytes>)
    ensures var all := TargetValues(target, name);
      r == if all == [] then None else Some(all[|all| - 1])
  {
    hide Pairs, ValuesOf, QueryString;
    NoPairs(name);
    var query := QueryString(target);
    var pairs := new QueryPairs(if query.Some? then query.value else []);
    var values := new QueryValues(pairs, name);
    r := None;
    ghost var all := TargetValues(target, name);
    while true
      invariant var left := ValuesOf(Pairs(pairs.remaining), name);
        && |left| <= |all| && all[|all| - |left|..] == left
        && r == if |left| == |all| then None else Some(all[|all| - |left| - 1])
      decreases |pairs.remaining|
    {
      var v := values.Next();
      if v.None? {
        return;
      }
      r := v;
    }
  }

  // ----- Printing queries -----

  /** What may stand between two ampersands: a name with a value, a name alone, or nothing. */
  datatype Segment = Assign(name: bytes, value: bytes) | Flag(name: bytes) | Gap

  function PrintSegment(g: Segment): bytes {
    match g
    case Assign(name, value) => name + [EQUALS] + value
    case Flag(name) => name
    case Gap => []
  }

  predicate PrintableSegment(g: Segment) {
    match g
    case Assign(name, value) =>
      IndexOf(name, EQUALS).None? && IndexOf(name, AMPERSAND).None? && IndexOf(value, AMPERSAND).None?
    case Flag(name) => name != [] && IndexOf(name, EQUALS).None? && IndexOf(name, AMPERSAND).None?
    case Gap => true
  }

  /** The pairs of a list of segments: a name alone has the empty value, and gaps count for nothing. */
  function Meant(gs: seq<Segment>): seq<QueryPair> {
    if gs == [] then [] else
    match gs[0]
    case Assign(name, value) => [QueryPair(name, value)] + Meant(gs[1..])
    case Flag(name) => [QueryPair(name, [])] + Meant(gs[1..])
    case Gap => Meant(gs[1..])
  }

  function PrintQuery(gs: seq<Segment>): bytes {
    if gs == [] then []
    else if |gs| == 1 then PrintSegment(gs[0])
    else PrintSegment(gs[0]) + [AMPERSAND] + PrintQuery(gs[1..])
  }

  lemma NoAmpersandInside(name: bytes, value: bytes)
    requires IndexOf(name, AMPERSAND).None? && IndexOf(value, AMPERSAND).None?
    ensures IndexOf(name + [EQUALS] + value, AMPERSAND).None?
  {
    var s, k := name + [EQUALS] + value, |name|;
    forall i | 0 <= i < |s| ensures s[i] != AMPERSAND {
      assert s[i] == if i < k then name[i] else if i == k then EQUALS else value[i - k - 1];
    }
  }

  lemma AssignReads(name: bytes, value: bytes)
    requires IndexOf(name, EQUALS).None? && IndexOf(name, AMPERSAND).None? && IndexOf(value, AMPERSAND).None?
    ensures var s := name + [EQUALS] + value;
      s != [] && PairOf(s) == QueryPair(name, value) && IndexOf(s, AMPERSAND) == None
  {
    hide IndexOf;
    var s, k := name + [EQUALS] + value, |name|;
    IndexOfBehind(name, EQUALS, value);
    assert s[..k] == name && s[k + 1..] == value;
    NoAmpersandInside(name, value);
  }

  lemma SegmentReads(g: Segment)
    requires PrintableSegment(g)
    ensures var s := PrintSegment(g);
      IndexOf(s, AMPERSAND) == None && if s == [] then g.Gap? else [PairOf(s)] == Meant([g])
  {
    assert [g][1..] == [];
    match g {
      case Assign(name, value) => AssignReads(name, value);
      case _ =>
    }
  }

  lemma MeantCons(g: Segment, gs: seq<Segment>)
    ensures Meant([g] + gs) == Meant([g]) + Meant(gs)
  {
    assert ([g] + gs)[1..] == gs && [g][1..] == [];
  }

  lemma NothingMeant()
    ensures Meant([]) == [] && Meant([Gap]) == []
  {
    assert [Gap][1..] == [];
  }

  /** Iterating over a printed query gives back its pairs, duplicates and order included. */
  lemma {:induction false} QueryRoundTrip(gs: seq<Segment>)
    requires forall i :: 0 <= i < |gs| ==> PrintableSegment(gs[i])
    ensures Pairs(PrintQuery(gs)) == Meant(gs)
  {
    hide Pairs, PairOf, PrintSegment, PrintableSegment, Meant;
    if gs == [] {
      PairsStep([]);
      NothingMeant();
    } else {
      var g, line := gs[0], PrintSegment(gs[0]);
      SegmentReads(g);
      MeantCons(g, gs[1..]);
      NothingMeant();
      assert gs == [g] + gs[1..];
      if |gs| == 1 {
        PairsStep(line);
        assert gs[1..] == [];
      } else {
        var s := line + [AMPERSAND] + PrintQuery(gs[1..]);
        IndexOfBehind(line, AMPERSAND, PrintQuery(gs[1..]));
        assert s[..|line|] == line && s[|line| + 1..] == PrintQuery(gs[1..]);
        PairsStep(s);
        QueryRoundTrip(gs[1..]);
      }
    }
  }

  /** A target printed as route, `?` and query gives every name its values. */
  lemma TargetRoundTrip(route: bytes, gs: seq<Segment>, name: bytes)
    requires IndexOf(route, QUESTION_MARK).None?
    requires forall i :: 0 <= i < |gs| ==> PrintableSegment(gs[i])
    ensures TargetValues(route, name) == []
    ensures TargetValues(route + [QUESTION_MARK] + PrintQuery(gs), name) == ValuesOf(Meant(gs), name)
  {
    hide Pairs, PrintSegment, PrintQuery, Meant;
    var s := route + [QUESTION_MARK] + PrintQuery(gs);
    IndexOfBehind(route, QUESTION_MARK, PrintQuery(gs));
    assert s[|route| + 1..] == PrintQuery(gs);
    QueryRoundTrip(gs);
  }

  // ----- Percent-decoding -----

  const INCOMPLETE_ESCAPE := InvalidResponse("Incomplete percent escape")
  const INVALID_ESCAPE := InvalidResponse("Invalid percent escape")
  const INVALID_TEXT := InvalidResponse("Invalid UTF-8 in percent-decoded value")

  /** The bytes decoded in front of the first malformed escape, and that escape's error. */
  datatype Scan = Scan(output: bytes, malformed: Option<Error>)

  /** One decoded unit at offset `i` of the input: its byte and its length, or what is wrong with it. */
  datatype Unit = Unit(decoded: byte, length: nat) | Malformed(error: Error)

  function UnitAt(input: bytes, i: nat): (r: Unit)
    requires i < |input|
    ensures r.Unit? ==> 1 <= r.length <= 3 && i + r.length <= |input|
  {
    if input[i] == PLUS then Unit(SPACE, 1)
    else if input[i] == PERCENT then
      if i + 2 >= |input| then Malformed(INCOMPLETE_ESCAPE) else
      match (HexValue(input[i + 1]), HexValue(input[i + 2]))
      case (Some(high), Some(low)) => Unit((high * 16 + low) as byte, 3)
      case _ => Malformed(INVALID_ESCAPE)
    else Unit(input[i], 1)
  }

  function ScanFrom(input: bytes, i: nat): Scan
    requires i <= |input|
    decreases |input| - i
  {
    if i == |input| then Scan([], None) else
    match UnitAt(input, i)
    case Malformed(e) => Scan([], Some(e))
    case Unit(b, n) =>
      var more := ScanFrom(input, i + n);
      Scan([b] + more.output, more.malformed)
  }

  /** What `percent_decode` answers, given room for `room` bytes. */
  function DecodeOutcome(input: bytes, room: nat): Outcome<bytes> {
    var scan := ScanFrom(input, 0);
    if |scan.output| > room then Err(BufferOverflow)
    else match scan.malformed
      case Some(e) => Err(e)
      case None => if ValidUtf8(scan.output) then Ok(scan.output) else Err(INVALID_TEXT)
  }

  /** `percent_decode`: decode into `out` from the front; bytes that fit stay written even on failure. */
  method PercentDecode(input: bytes, out: array<byte>) returns (r: Outcome<bytes>)
    modifies out
    ensures r == DecodeOutcome(input, out.Length)
    ensures var written := Min(|ScanFrom(input, 0).output|, out.Length);
      && out[..written] == ScanFrom(input, 0).output[..written]
      && forall i :: written <= i < out.Length ==> out[i] == old(out[i])
  {
    hide ValidUtf8, UnitAt;
    var written := 0;
    var i := 0;
    ghost var all := ScanFrom(input, 0);
    while i < |input|
      invariant 0 <= i <= |input| && 0 <= written <= out.Length && written <= |all.output|
      invariant out[..written] == all.output[..written]
      invariant forall k :: written <= k < out.Length ==> out[k] == old(out[k])
      invariant var rest := ScanFrom(input, i);
        all.malformed == rest.malformed && all.output[written..] == rest.output
    {
      match UnitAt(input, i) {
        case Malformed(e) =>
          assert all.output[..written] == all.output;
          return Err(e);
        case Unit(b, n) =>
          assert all.output[written..][0] == b && all.output[written..][1..] == all.output[written + 1..];
          if written >= out.Length {
            return Err(BufferOverflow);
          }
          out[written] := b;
          assert out[..written + 1] == out[..written] + [b];
          written := written + 1;
          i := i + n;
      }
    }
    assert all.output[..written] == all.output;
    return if ValidUtf8(out[..written]) then Ok(out[..written]) else Err(INVALID_TEXT);
  }

  /** The ways to write one byte: itself, `+` for a blank, or an escape with two hexadecimal digits. */
  datatype Token = Literal(b: byte) | Blank | Escape(high: byte, low: byte)

  predicate GoodToken(t: Token) {
    match t
    case Literal(b) => b != PLUS && b != PERCENT
    case Blank => true
    case Escape(high, low) => IsDigit(high, 16) && IsDigit(low, 16)
  }

  function Meaning(t: Token): byte
    requires GoodToken(t)
  {
    match t
    case Literal(b) => b
    case Blank => SPACE
    case Escape(high, low) => (Weight(high) * 16 + Weight(low)) as byte
  }

  function Spelling(t: Token): bytes {
    match t
    case Literal(b) => [b]
    case Blank => [PLUS]
    case Escape(high, low) => [PERCENT, high, low]
  }

  function Spell(ts: seq<Token>): bytes {
    if ts == [] then [] else Spelling(ts[0]) + Spell(ts[1..])
  }

  function Meanings(ts: seq<Token>): (r: bytes)
    requires forall i :: 0 <= i < |ts| ==> GoodToken(ts[i])
    ensures |r| == |ts|
  {
    seq(|ts|, i requires 0 <= i < |ts| => Meaning(ts[i]))
  }

  /** Scanning does not look back. */
  lemma {:induction false} ScanShift(input: bytes, k: nat, i: nat)
    requires k <= i <= |input|
    ensures ScanFrom(input, i) == ScanFrom(input[k..], i - k)
    decreases |input| - i
  {
    if i < |input| {
      assert UnitAt(input, i) == UnitAt(input[k..], i - k);
      hide UnitAt;
      match UnitAt(input, i) {
        case Malformed(_) =>
        case Unit(b, n) => ScanShift(input, k, i + n);
      }
    }
  }

  lemma TokenIsUnit(t: Token, rest: bytes)
    requires GoodToken(t)
    ensures UnitAt(Spelling(t) + rest, 0) == Unit(Meaning(t), |Spelling(t)|)
  {
    var s := Spelling(t) + rest;
    assert forall i :: 0 <= i < |Spelling(t)| ==> s[i] == Spelling(t)[i];
    if t.Escape? {
      DigitWeighs(t.high, 16);
      DigitWeighs(t.low, 16);
    }
  }

  /** The definition of scanning, unfolded once. */
  lemma ScanOnce(input: bytes)
    requires input != []
    ensures var u := UnitAt(input, 0);
      ScanFrom(input, 0) ==
        if u.Malformed? then Scan([], Some(u.error))
        else Scan([u.decoded] + ScanFrom(input, u.length).output, ScanFrom(input, u.length).malformed)
  {
  }

  lemma SpellingIsLong(t: Token)
    ensures Spelling(t) != []
  {
  }

  /** Good tokens in front decode to their meanings, and the rest decides how scanning ends. */
  lemma {:induction false} ScanAfter(ts: seq<Token>, rest: bytes)
    requires forall i :: 0 <= i < |ts| ==> GoodToken(ts[i])
    ensures var scan := ScanFrom(rest, 0);
      ScanFrom(Spell(ts) + rest, 0) == Scan(Meanings(ts) + scan.output, scan.malformed)
  {
    hide UnitAt, Meaning, Spelling, GoodToken, ScanFrom;
    if ts == [] {
      assert Spell(ts) + rest == rest && Meanings(ts) + ScanFrom(rest, 0).output == ScanFrom(rest, 0).output;
    } else {
      var t, more := ts[0], Spell(ts[1..]) + rest;
      var s := Spelling(t) + more;
      assert Spell(ts) + rest == s && s[|Spelling(t)|..] == more;
      ScanAfter(ts[1..], rest);
      TokenIsUnit(t, more);
      SpellingIsLong(t);
      ScanOnce(s);
      ScanShift(s, |Spelling(t)|, |Spelling(t)|);
      assert Meanings(ts) == [Meaning(t)] + Meanings(ts[1..]);
    }
  }

  /** How many escapes a spelling uses. */
  function Escapes(ts: seq<Token>): nat {
    if ts == [] then 0 else (if ts[0].Escape? then 1 else 0) + Escapes(ts[1..])
  }

  lemma {:induction false} SpellingLength(ts: seq<Token>)
    ensures |ts| + 2 * Escapes(ts) == |Spell(ts)|
  {
    if ts != [] {
      SpellingLength(ts[1..]);
    }
  }

  /**
   `percent_decode` inverts every spelling: with room for what it spells it
   answers that, if it is text, and otherwise an error; each escape accounts for
   two input bytes more than it yields.
   */
  lemma PercentRoundTrip(ts: seq<Token>, room: nat)
    requires forall i :: 0 <= i < |ts| ==> GoodToken(ts[i])
    ensures DecodeOutcome(Spell(ts), room) ==
      if |Meanings(ts)| > room then Err(BufferOverflow)
      else if ValidUtf8(Meanings(ts)) then Ok(Meanings(ts))
      else Err(InvalidResponse("Invalid UTF-8 in percent-decoded value"))
    ensures |Meanings(ts)| + 2 * Escapes(ts) == |Spell(ts)|
  {
    hide ValidUtf8;
    ScanAfter(ts, []);
    assert Spell(ts) + [] == Spell(ts) && Meanings(ts) + [] == Meanings(ts);
    SpellingLength(ts);
  }

  /** Behind good tokens, a percent sign without two hexadecimal digits is the error the source names. */
  lemma BadEscapeIsRefused(ts: seq<Token>, rest: bytes, room: nat)
    requires forall i :: 0 <= i < |ts| ==> GoodToken(ts[i])
    requires |rest| < 2 || !IsDigit(rest[0], 16) || !IsDigit(rest[1], 16)
    ensures DecodeOutcome(Spell(ts) + ([PERCENT] + rest), room) ==
      if |Meanings(ts)| > room then Err(BufferOverflow)
      else if |rest| < 2 then Err(InvalidResponse("Incomplete percent escape"))
      else Err(InvalidResponse("Invalid percent escape"))
  {
    hide ValidUtf8;
    ScanAfter(ts, [PERCENT] + rest);
    assert Meanings(ts) + [] == Meanings(ts);
    if |rest| >= 2 {
      DigitWeighs(rest[0], 16);
      DigitWeighs(rest[1], 16);
      assert ([PERCENT] + rest)[1] == rest[0] && ([PERCENT] + rest)[2] == rest[1];
    }
  }

  lemma SpellCons(t: Token, ts: seq<Token>)
    ensures Spell([t] + ts) == Spelling(t) + Spell(ts)
  {
    assert ([t] + ts)[1..] == ts;
  }

  /** The token an input has at offset `i`. */
  function TokenAt(input: bytes, i: nat): Token
    requires i < |input|
  {
    if input[i] == PLUS then Blank
    else if input[i] == PERCENT && i + 2 < |input| then Escape(input[i + 1], input[i + 2])
    else Literal(input[i])
  }

  lemma TokenReads(input: bytes, i: nat)
    requires i < |input| && UnitAt(input, i).Unit?
    ensures var t, u := TokenAt(input, i), UnitAt(input, i);
      GoodToken(t) && Spelling(t) == input[i..i + u.length] && Meaning(t) == u.decoded
  {
    if input[i] == PERCENT {
      DigitWeighs(input[i + 1], 16);
      DigitWeighs(input[i + 2], 16);
    }
  }

  lemma UnitIsMalformed(input: bytes, i: nat)
    requires i < |input| && UnitAt(input, i).Malformed?
    ensures input[i] == PERCENT && (|input| - i < 3 || !IsDigit(input[i + 1], 16) || !IsDigit(input[i + 2], 16))
  {
    if |input| - i >= 3 {
      DigitWeighs(input[i + 1], 16);
      DigitWeighs(input[i + 2], 16);
    }
  }

  /** Every input is good tokens, then nothing or a percent sign without two hexadecimal digits. */
  lemma {:induction false} InputSplits(input: bytes, i: nat) returns (ts: seq<Token>, rest: Option<bytes>)
    requires i <= |input|
    ensures forall k :: 0 <= k < |ts| ==> GoodToken(ts[k])
    ensures match rest
      case None => input[i..] == Spell(ts)
      case Some(r) => input[i..] == Spell(ts) + ([PERCENT] + r)
                      && (|r| < 2 || !IsDigit(r[0], 16) || !IsDigit(r[1], 16))
    decreases |input| - i
  {
    hide UnitAt, TokenAt, GoodToken, Spelling, IsDigit;
    if i == |input| {
      ts, rest := [], None;
    } else if UnitAt(input, i).Malformed? {
      UnitIsMalformed(input, i);
      ts, rest := [], Some(input[i + 1..]);
      assert input[i..] == Spell([]) + ([PERCENT] + input[i + 1..]);
    } else {
      var t, n := TokenAt(input, i), UnitAt(input, i).length;
      TokenReads(input, i);
      var more;
      more, rest := InputSplits(input, i + n);
      ts := [t] + more;
      SpellCons(t, more);
      assert input[i..] == input[i..i + n] + input[i + n..];
      var tail := if rest.Some? then [PERCENT] + rest.value else [];
      assert Spelling(t) + (Spell(more) + tail) == Spell(ts) + tail;
    }
  }

  /** So an answer is always what the input spells, and text. */
  lemma AnswerIsSpelled(input: bytes, room: nat) returns (ts: seq<Token>)
    requires DecodeOutcome(input, room).Ok?
    ensures forall k :: 0 <= k < |ts| ==> GoodToken(ts[k])
    ensures input == Spell(ts) && DecodeOutcome(input, room).value == Meanings(ts)
    ensures ValidUtf8(Meanings(ts)) && |Meanings(ts)| <= room
  {
    hide ValidUtf8, GoodToken, Spell, IsDigit, ScanFrom;
    var rest;
    ts, rest := InputSplits(input, 0);
    assert input[0..] == input;
    match rest {
      case None => PercentRoundTrip(ts, room);
      case Some(r) => BadEscapeIsRefused(ts, r, room);
    }
  }
}
