/**
 What the two reading loops compute, as functions of the stream and its
 schedule, and why the schedule hardly matters.
 */
module Reading {
  import opened Bytes
  import opened Framing
  import opened Streams

  /** Which loop: the response reader (`client/io.rs`) or the request reader (`server/io.rs`). */
  datatype Side = Client | Server

  /** The loop's test for having read enough. */
  predicate Done(side: Side, data: bytes) {
    match side
    case Client => Complete(data)
    case Server => RequestComplete(data)
  }

  lemma DoneIsMonotone(side: Side, s: bytes, m: nat, n: nat)
    requires m <= n <= |s| && Done(side, s[..m])
    ensures Done(side, s[..n])
  {
    hide Complete, RequestComplete;
    FramingIsMonotone(s[..m], s[m..n]);
    assert s[..m] + s[m..n] == s[..n];
  }

  lemma EmptyIsNotDone(side: Side)
    ensures !Done(side, [])
  {
  }

  /** Where an endlessly patient reader stops, and how many errors it sits through. */
  datatype Run = Run(total: nat, faults: nat)

  /**
   Read `s` into a buffer of `limit` bytes, of which `t` are filled, until the
   message is done, the buffer is full or the stream ends.
   */
  function Pump(side: Side, events: seq<ReadEvent>, s: bytes, limit: nat, t: nat): (r: Run)
    requires t <= |s| && t <= limit
    ensures t <= r.total <= Min(|s|, limit)
    decreases |events| + limit - t
  {
    if t == limit then Run(t, 0) else
    match NextStep(events, |s| - t, limit - t)
    case Faulted =>
      var r := Pump(side, Later(events), s, limit, t);
      Run(r.total, r.faults + 1)
    case Delivered(n) =>
      if n == 0 || Done(side, s[..t + n]) then Run(t + n, 0)
      else Pump(side, Later(events), s, limit, t + n)
  }

  /** One turn of the loop. */
  lemma PumpStep(side: Side, events: seq<ReadEvent>, s: bytes, limit: nat, t: nat)
    requires t <= |s| && t < limit
    ensures var run := Pump(side, events, s, limit, t);
      match NextStep(events, |s| - t, limit - t)
      case Faulted =>
        var later := Pump(side, Later(events), s, limit, t);
        run == Run(later.total, later.faults + 1)
      case Delivered(n) =>
        run == if n == 0 || Done(side, s[..t + n]) then Run(t + n, 0) else Pump(side, Later(events), s, limit, t + n)
  {
  }

  lemma PumpFull(side: Side, events: seq<ReadEvent>, s: bytes, limit: nat)
    requires limit <= |s|
    ensures Pump(side, events, s, limit, limit) == Run(limit, 0)
  {
  }

  /** The reader stops early only when it is done, and is done whenever it could be. */
  lemma {:induction false} PumpStops(side: Side, events: seq<ReadEvent>, s: bytes, limit: nat, t: nat)
    requires t <= |s| && t <= limit && !Done(side, s[..t])
    ensures var r := Pump(side, events, s, limit, t); var most := Min(|s|, limit);
      && (Done(side, s[..r.total]) <==> Done(side, s[..most]))
      && (!Done(side, s[..most]) ==> r.total == most)
    decreases |events| + limit - t
  {
    hide Done;
    if t < limit {
      var most := Min(|s|, limit);
      match NextStep(events, |s| - t, limit - t) {
        case Faulted =>
          PumpStops(side, Later(events), s, limit, t);
        case Delivered(n) =>
          if n > 0 {
            if Done(side, s[..t + n]) {
              DoneIsMonotone(side, s, t + n, most);
            } else {
              PumpStops(side, Later(events), s, limit, t + n);
            }
          }
      }
    }
  }

  /** Length of the least prefix of `s`, at or after `m`, that is done; `|s|` if none is. */
  function LeastDone(side: Side, s: bytes, m: nat): (k: nat)
    requires m <= |s|
    ensures m <= k <= |s|
    ensures Done(side, s) ==> Done(side, s[..k])
    ensures forall j :: m <= j < k ==> !Done(side, s[..j])
    decreases |s| - m
  {
    assert s[..|s|] == s;
    if m == |s| || Done(side, s[..m]) then m else LeastDone(side, s, m + 1)
  }

  /** A done prefix is at least as long as the least one. */
  lemma DoneCoversLeast(side: Side, s: bytes, t: nat)
    requires t <= |s| && Done(side, s[..t])
    ensures LeastDone(side, s, 0) <= t
    ensures Done(side, s[..LeastDone(side, s, 0)])
  {
    hide Done;
    DoneIsMonotone(side, s, t, |s|);
    assert s[..|s|] == s;
  }

  // ----- The response reader -----

  const INCOMPLETE_RESPONSE := InvalidResponse("Incomplete response body")

  /** The decision `read_response` takes after its loop stopped at `total`. */
  function ClientVerdict(s: bytes, limit: nat, total: nat): Outcome<nat>
    requires total <= |s| && total <= limit
  {
    if total == 0 then Err(NoResponse)
    else if Complete(s[..total]) then Ok(total)
    else if total == limit then Err(BufferOverflow)
    else if DeclaresLength(s[..total]) then Err(INCOMPLETE_RESPONSE)
    else Ok(total)
  }

  /** `read_response` on a fresh buffer: the patient reader, unless its errors use up the budget. */
  function ClientRead(events: seq<ReadEvent>, s: bytes, limit: nat, maxRetries: nat): (r: Outcome<nat>)
    ensures r.Ok? ==> r.value <= Min(|s|, limit)
  {
    var run := Pump(Client, events, s, limit, 0);
    if maxRetries == 0 then Err(NoResponse)
    else if run.faults >= maxRetries then Err(TcpError)
    else ClientVerdict(s, limit, run.total)
  }

  /** How often `retry_delay` is awaited: after every error but the one that exhausts the budget. */
  function ClientDelays(events: seq<ReadEvent>, s: bytes, limit: nat, maxRetries: nat): nat {
    var faults := Pump(Client, events, s, limit, 0).faults;
    if maxRetries == 0 then 0 else if faults >= maxRetries then maxRetries - 1 else faults
  }

  /** The answer a stream deserves, whatever its segmentation. */
  datatype Answer =
    | Arrived(least: nat, most: nat)  // a done message; any prefix from `least` to `most` may be returned
    | Closed(length: nat)             // delimited by connection close
    | Failed(error: Error)

  function ClientAnswer(s: bytes, limit: nat): Answer {
    var most := Min(|s|, limit);
    if most == 0 then Failed(NoResponse)
    else if Complete(s[..most]) then Arrived(LeastDone(Client, s[..most], 0), most)
    else if |s| >= limit then Failed(BufferOverflow)
    else if DeclaresLength(s) then Failed(INCOMPLETE_RESPONSE)
    else Closed(|s|)
  }

  ghost predicate Answers(r: Outcome<nat>, answer: Answer) {
    match answer
    case Arrived(least, most) => r.Ok? && least <= r.value <= most
    case Closed(length) => r == Ok(length)
    case Failed(error) => r == Err(error)
  }

  /**
   Segmentation independence of the response reader: with budget left, the
   outcome is the one stream and buffer length determine.
   */
  lemma ClientReadIsSegmentationFree(events: seq<ReadEvent>, s: bytes, limit: nat, maxRetries: nat)
    requires Pump(Client, events, s, limit, 0).faults < maxRetries
    ensures Answers(ClientRead(events, s, limit, maxRetries), ClientAnswer(s, limit))
    ensures ClientRead(events, s, limit, maxRetries).Ok? && ClientAnswer(s, limit).Arrived?
      ==> Complete(s[..ClientRead(events, s, limit, maxRetries).value])
  {
    hide Complete, DeclaresLength;
    EmptyIsNotDone(Client);
    assert s[..0] == [];
    PumpStops(Client, events, s, limit, 0);
    var total, most := Pump(Client, events, s, limit, 0).total, Min(|s|, limit);
    assert s[..|s|] == s;
    if Complete(s[..most]) {
      assert s[..most][..total] == s[..total];
      DoneCoversLeast(Client, s[..most], total);
      if total == 0 {
        assert false;
      }
    }
  }

  /** Hence two deliveries of one stream agree, byte for byte if the message is all there is. */
  lemma TwoDeliveriesAgree(e1: seq<ReadEvent>, e2: seq<ReadEvent>, s: bytes, limit: nat, max1: nat, max2: nat)
    requires Pump(Client, e1, s, limit, 0).faults < max1
    requires Pump(Client, e2, s, limit, 0).faults < max2
    ensures var r1, r2 := ClientRead(e1, s, limit, max1), ClientRead(e2, s, limit, max2);
      && (r1.Ok? <==> r2.Ok?)
      && (r1.Err? ==> r1 == r2)
      && (r1 != r2 ==> ClientAnswer(s, limit).Arrived?
                       && LeastDone(Client, s[..Min(|s|, limit)], 0) < Min(|s|, limit))
  {
    hide Complete, DeclaresLength, Pump, ClientRead;
    ClientReadIsSegmentationFree(e1, s, limit, max1);
    ClientReadIsSegmentationFree(e2, s, limit, max2);
  }

  /** Every length the answer allows is really returned, when the network cuts the stream there. */
  lemma EveryArrivalHappens(s: bytes, limit: nat, t: nat, maxRetries: nat)
    requires ClientAnswer(s, limit).Arrived? && maxRetries > 0
    requires ClientAnswer(s, limit).least <= t <= ClientAnswer(s, limit).most
    ensures ClientRead([Segment(t)], s, limit, maxRetries) == Ok(t)
  {
    hide Complete, DeclaresLength;
    var most := Min(|s|, limit);
    var k := ClientAnswer(s, limit).least;
    EmptyIsNotDone(Client);
    assert s[..most][..most] == s[..most] && s[..most][..k] == s[..k] && s[..0] == [];
    DoneCoversLeast(Client, s[..most], most);
    DoneIsMonotone(Client, s, k, t);
    assert NextStep([Segment(t)], |s|, limit) == Delivered(t);
    assert Pump(Client, [Segment(t)], s, limit, 0) == Run(t, 0);
  }

  /** How many reads of a schedule fail. */
  function CountFaults(events: seq<ReadEvent>): nat {
    if events == [] then 0 else (if events[0].Fault? then 1 else 0) + CountFaults(events[1..])
  }

  /** A reader meets at most the faults that are scheduled. */
  lemma {:induction false} FaultsAreScheduled(side: Side, events: seq<ReadEvent>, s: bytes, limit: nat, t: nat)
    requires t <= |s| && t <= limit
    ensures Pump(side, events, s, limit, t).faults <= CountFaults(events)
    decreases |events| + limit - t
  {
    hide Done;
    if t < limit {
      match NextStep(events, |s| - t, limit - t) {
        case Faulted =>
          FaultsAreScheduled(side, Later(events), s, limit, t);
        case Delivered(n) =>
          if n > 0 && !Done(side, s[..t + n]) {
            FaultsAreScheduled(side, Later(events), s, limit, t + n);
          }
      }
    }
  }

  /**
   The retry budget: `TcpError` is answered exactly when the errors met use the
   budget up, every other error is followed by one delay, and a schedule with
   fewer faults than the budget never fails.
   */
  lemma RetryBudget(events: seq<ReadEvent>, s: bytes, limit: nat, maxRetries: nat)
    requires maxRetries > 0
    ensures var faults, r := Pump(Client, events, s, limit, 0).faults, ClientRead(events, s, limit, maxRetries);
      && (r == Err(TcpError) <==> faults >= maxRetries)
      && ClientDelays(events, s, limit, maxRetries) + (if r == Err(TcpError) then 1 else 0) == Min(faults, maxRetries)
    ensures CountFaults(events) < maxRetries ==> ClientRead(events, s, limit, maxRetries) != Err(TcpError)
  {
    hide Complete, DeclaresLength, Pump;
    FaultsAreScheduled(Client, events, s, limit, 0);
  }

  /** `BufferOverflow` means exactly: the buffer was filled and the message was not done. */
  lemma OverflowExactly(events: seq<ReadEvent>, s: bytes, limit: nat, maxRetries: nat)
    requires Pump(Client, events, s, limit, 0).faults < maxRetries
    ensures ClientRead(events, s, limit, maxRetries) == Err(BufferOverflow)
      <==> |s| >= limit > 0 && !Complete(s[..limit])
  {
    hide Complete, DeclaresLength;
    ClientReadIsSegmentationFree(events, s, limit, maxRetries);
  }

  // ----- The request reader -----

  const INCOMPLETE_REQUEST := InvalidResponse("Incomplete request")

  /** The decision `read_request` takes after its loop stopped at `total` without an error. */
  function ServerVerdict(s: bytes, limit: nat, total: nat): Outcome<nat>
    requires total <= |s| && total <= limit
  {
    if RequestComplete(s[..total]) then Ok(total)
    else if total == limit then Err(BufferOverflow)
    else Err(INCOMPLETE_REQUEST)
  }

  /** `read_request` on a fresh buffer: it gives up at the first error. */
  function ServerRead(events: seq<ReadEvent>, s: bytes, limit: nat): (r: Outcome<nat>)
    ensures r.Ok? ==> r.value <= Min(|s|, limit)
  {
    var run := Pump(Server, events, s, limit, 0);
    if run.faults > 0 then Err(TcpError) else ServerVerdict(s, limit, run.total)
  }

  function ServerAnswer(s: bytes, limit: nat): Answer {
    var most := Min(|s|, limit);
    if RequestComplete(s[..most]) then Arrived(LeastDone(Server, s[..most], 0), most)
    else if |s| >= limit then Failed(BufferOverflow)
    else Failed(INCOMPLETE_REQUEST)
  }

  /** Segmentation independence of the request reader, on a stream without errors. */
  lemma ServerReadIsSegmentationFree(events: seq<ReadEvent>, s: bytes, limit: nat)
    requires Pump(Server, events, s, limit, 0).faults == 0
    ensures Answers(ServerRead(events, s, limit), ServerAnswer(s, limit))
    ensures ServerRead(events, s, limit).Ok?
      ==> RequestComplete(s[..ServerRead(events, s, limit).value])
  {
    hide RequestComplete;
    EmptyIsNotDone(Server);
    assert s[..0] == [];
    PumpStops(Server, events, s, limit, 0);
    var total, most := Pump(Server, events, s, limit, 0).total, Min(|s|, limit);
    if RequestComplete(s[..most]) {
      assert s[..most][..total] == s[..total];
      DoneCoversLeast(Server, s[..most], total);
    }
  }
}
