/** The two reading loops themselves, proved to compute what `Reading` says. */
module Readers {
  import opened Bytes
  import opened Protocol
  import opened Framing
  import opened Streams
  import opened Reading

  /** `stream.read(&mut buffer[total..])`, for a buffer that holds the first `total` bytes of `s`. */
  method ReadMore(stream: Stream, buffer: array<byte>, total: nat, ghost s: bytes) returns (step: ReadStep)
    requires stream.Valid() && total < buffer.Length
    requires total <= |s| && stream.Unread() == s[total..] && buffer[..total] == s[..total]
    modifies stream`position, stream`events, buffer
    ensures stream.Valid() && stream.events == Later(old(stream.events))
    ensures step == NextStep(old(stream.events), |s| - total, buffer.Length - total)
    ensures var n := if step.Delivered? then total + step.count else total;
      && stream.position == old(stream.position) + n - total && stream.Unread() == s[n..]
      && buffer[..n] == s[..n] && forall i :: n <= i < buffer.Length ==> buffer[i] == old(buffer[i])
  {
    step := stream.Read(buffer, total);
    if step.Delivered? {
      var n := step.count;
      assert buffer[..total + n] == buffer[..total] + buffer[total..total + n];
      assert s[..total + n] == s[..total] + s[total..][..n];
      forall i | total + n <= i < buffer.Length ensures buffer[i] == old(buffer[i]) {
        assert buffer[i] == buffer[total + n..][i - total - n];
      }
    }
  }

  /** `read_response` of `src/client/io.rs`. */
  method ReadResponse(stream: Stream, buffer: array<byte>, maxRetries: nat) returns (r: Outcome<nat>, delays: nat)
    requires stream.Valid()
    modifies stream`position, stream`events, buffer
    ensures stream.Valid()
    ensures r == ClientRead(old(stream.events), old(stream.Unread()), buffer.Length, maxRetries)
    ensures delays == ClientDelays(old(stream.events), old(stream.Unread()), buffer.Length, maxRetries)
    ensures maxRetries == 0 ==> stream.position == old(stream.position) && stream.events == old(stream.events)
    ensures var n := stream.position - old(stream.position);
      && 0 <= n <= |old(stream.Unread())| && n <= buffer.Length
      && buffer[..n] == old(stream.Unread())[..n]
      && (forall i :: n <= i < buffer.Length ==> buffer[i] == old(buffer[i]))
      && (r.Ok? ==> r.value == n)
  {
    hide Complete, DeclaresLength, Pump, NextStep;
    ghost var s, limit := stream.Unread(), buffer.Length;
    ghost var whole := Pump(Client, stream.events, s, limit, 0);
    EmptyIsNotDone(Client);
    assert s[..0] == [];
    var total := 0;
    var retries := maxRetries;
    var sawEof := false;
    delays := 0;
    while total < buffer.Length && retries > 0
      invariant stream.Valid()
      invariant 0 <= total <= |s| && total <= limit && 0 <= retries <= maxRetries
      invariant stream.position == old(stream.position) + total && stream.Unread() == s[total..]
      invariant buffer[..total] == s[..total]
      invariant forall i :: total <= i < limit ==> buffer[i] == old(buffer[i])
      invariant !Complete(s[..total])
      invariant delays == maxRetries - retries && (if maxRetries > 0 then retries > 0 else total == 0)
      invariant var left := Pump(Client, stream.events, s, limit, total);
        whole == Run(left.total, left.faults + delays)
      invariant !sawEof && (maxRetries == 0 ==> stream.events == old(stream.events))
      decreases limit - total + retries
    {
      ghost var t := total;
      PumpStep(Client, stream.events, s, limit, total);
      var got := ReadMore(stream, buffer, total, s);
      match got {
        case Delivered(n) =>
          if n == 0 {
            sawEof := true;
            break;
          }
          total := total + n;
          if Complete(buffer[..total]) {
            assert total != 0 by { assert n > 0; }
            return Ok(total), delays;
          }
        case Faulted =>
          retries := retries - 1;
          if retries == 0 {
            return Err(TcpError), delays;
          }
          delays := delays + 1;
      }
    }
    if total == limit {
      PumpFull(Client, stream.events, s, limit);
    }
    if total == 0 {
      return Err(NoResponse), delays;
    }
    if Complete(buffer[..total]) {
      assert false;  // the loop has left with Ok as soon as this became true
    }
    if sawEof {
      if DeclaresLength(buffer[..total]) {
        return Err(INCOMPLETE_RESPONSE), delays;
      }
      return Ok(total), delays;
    }
    return Err(BufferOverflow), delays;
  }

  function SaturatingAdd(a: nat, b: nat): nat {
    Min(a + b, USIZE_MAX)
  }

  /** The test in the loop of `read_request`: it trusts its cached head and adds with saturation. */
  predicate CachedDone(data: bytes, headerEnd: Option<nat>)
    requires headerEnd.Some? ==> headerEnd.value <= |data|
  {
    match headerEnd
    case None => false
    case Some(d) =>
      match ContentLength(data[..d])
      case Some(length) => |data| >= SaturatingAdd(d + 4, length)
      case None => true
  }

  /** With a sound cache the saturating test decides as exact arithmetic does. */
  lemma CachedDoneIsExact(data: bytes, headerEnd: Option<nat>)
    requires headerEnd == FindDoubleCrlf(data) && |data| < USIZE_MAX
    ensures CachedDone(data, headerEnd) <==> RequestComplete(data)
  {
    hide FindDoubleCrlf, ContentLength;
  }

  /** A head that was found stays where it is when more bytes arrive. */
  lemma CacheStaysSound(s: bytes, t: nat, total: nat)
    requires t <= total <= |s| && FindDoubleCrlf(s[..t]).Some?
    ensures FindDoubleCrlf(s[..total]) == FindDoubleCrlf(s[..t])
  {
    HeadInPrefix(s[..t], s[t..total]);
    assert s[..t] + s[t..total] == s[..total];
  }

  /** `read_request` of `src/server/io.rs`, with its cached head position. */
  method ReadRequest(stream: Stream, buffer: array<byte>) returns (r: Outcome<nat>)
    requires stream.Valid() && buffer.Length < USIZE_MAX
    modifies stream`position, stream`events, buffer
    ensures stream.Valid()
    ensures r == ServerRead(old(stream.events), old(stream.Unread()), buffer.Length)
    ensures var n := stream.position - old(stream.position);
      && 0 <= n <= |old(stream.Unread())| && n <= buffer.Length
      && buffer[..n] == old(stream.Unread())[..n]
      && (forall i :: n <= i < buffer.Length ==> buffer[i] == old(buffer[i]))
      && (r.Ok? ==> r.value == n)
  {
    hide FindDoubleCrlf, ContentLength, Pump, NextStep, RequestComplete, Later;
    ghost var s, limit := stream.Unread(), buffer.Length;
    ghost var whole := Pump(Server, stream.events, s, limit, 0);
    var total := 0;
    var headerEnd: Option<nat> := None;
    var sawEof := false;
    var requestComplete := false;
    EmptyIsNotDone(Server);
    assert s[..0] == [];
    while total < buffer.Length
      invariant stream.Valid()
      invariant 0 <= total <= |s| && total <= limit
      invariant stream.position == old(stream.position) + total && stream.Unread() == s[total..]
      invariant buffer[..total] == s[..total]
      invariant forall i :: total <= i < limit ==> buffer[i] == old(buffer[i])
      invariant headerEnd == FindDoubleCrlf(s[..total])
      invariant !RequestComplete(s[..total])
      invariant whole == Pump(Server, stream.events, s, limit, total)
      invariant !sawEof && !requestComplete
    {
      ghost var t := total;
      PumpStep(Server, stream.events, s, limit, total);
      var got := ReadMore(stream, buffer, total, s);
      if got.Faulted? {
        return Err(TcpError);
      }
      var n := got.count;
      if n == 0 {
        sawEof := true;
        break;
      }
      total := total + n;

      if headerEnd.None? {
        headerEnd := FindDoubleCrlf(buffer[..total]);
      } else {
        CacheStaysSound(s, t, total);
      }
      CachedDoneIsExact(s[..total], headerEnd);
      if CachedDone(buffer[..total], headerEnd) {
        requestComplete := true;
        break;
      }
    }
    if total == limit && !requestComplete {
      PumpFull(Server, stream.events, s, limit);
    }
    if requestComplete {
      return Ok(total);
    }
    if sawEof {
      return Err(INCOMPLETE_REQUEST);
    }
    return Err(BufferOverflow);
  }
}
