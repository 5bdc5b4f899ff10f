/** The connection: bytes in, bytes out, cut and delayed in any way the network likes. */
module Streams {
  import opened Bytes

  /** What one `read` call meets: a transient error, or a segment of some size. */
  datatype ReadEvent = Fault | Segment(size: nat)

  datatype ReadStep = Faulted | Delivered(count: nat)

  /**
   The answer to one `read` into `room` bytes with `unread` bytes still to
   come. A read delivers at least one byte until the peer's last byte has been
   delivered; from then on it reports end of stream by delivering none.
   Events beyond the end of the schedule deliver all that fits.
   */
  function NextStep(events: seq<ReadEvent>, unread: nat, room: nat): (r: ReadStep)
    requires room > 0
    ensures r.Delivered? ==> r.count <= unread && r.count <= room
    ensures r.Delivered? ==> (r.count == 0 <==> unread == 0)
    ensures r.Faulted? ==> events != []
  {
    if events == [] then Delivered(Min(unread, room))
    else match events[0]
      case Fault => Faulted
      case Segment(size) => Delivered(Min(if size == 0 then 1 else size, Min(unread, room)))
  }

  function Later(events: seq<ReadEvent>): seq<ReadEvent> {
    if events == [] then [] else events[1..]
  }

  /** A connected transport, as `embedded_io_async::{Read, Write}` presents it. */
  class Stream {
    /** Everything the peer sends before it closes its side. */
    const incoming: bytes
    var position: nat
    var events: seq<ReadEvent>
    /** Everything written so far, and how much more the peer takes before writes fail. */
    var written: bytes
    var room: Option<nat>
    const flushFails: bool

    constructor (incoming: bytes, events: seq<ReadEvent>, room: Option<nat>, flushFails: bool)
      ensures Valid() && Unread() == incoming && this.events == events
      ensures written == [] && this.room == room && this.flushFails == flushFails
    {
      this.incoming, this.position, this.events := incoming, 0, events;
      this.written, this.room, this.flushFails := [], room, flushFails;
    }

    ghost predicate Valid()
      reads this
    {
      position <= |incoming|
    }

    ghost function Unread(): bytes
      requires Valid()
      reads this
    {
      incoming[position..]
    }

    method Read(buffer: array<byte>, from: nat) returns (step: ReadStep)
      requires Valid() && from < buffer.Length
      modifies this`position, this`events, buffer
      ensures Valid() && events == Later(old(events))
      ensures step == NextStep(old(events), |old(Unread())|, buffer.Length - from)
      ensures match step
        case Faulted => position == old(position) && buffer[..] == old(buffer[..])
        case Delivered(n) =>
          && position == old(position) + n
          && buffer[..from] == old(buffer[..from])
          && buffer[from..from + n] == old(Unread())[..n]
          && buffer[from + n..] == old(buffer[from + n..])
    {
      step := NextStep(events, |incoming| - position, buffer.Length - from);
      events := Later(events);
      match step {
        case Faulted =>
        case Delivered(n) =>
          forall i | 0 <= i < n {
            buffer[from + i] := incoming[position + i];
          }
          position := position + n;
      }
    }

    /** The bytes that reach the peer when `data` is written. */
    ghost function Accepted(data: bytes): bytes
      reads this
    {
      match room
      case None => data
      case Some(n) => if |data| <= n then data else data[..n]
    }

    method WriteAll(data: bytes) returns (ok: bool)
      modifies this`written, this`room
      ensures written == old(written) + old(Accepted(data))
      ensures ok <==> old(Accepted(data)) == data
      ensures old(room).None? ==> ok && room.None?
      ensures old(room).Some? && ok ==> room == Some(old(room).value - |data|)
    {
      match room {
        case None =>
          written := written + data;
          ok := true;
        case Some(n) =>
          if |data| <= n {
            written := written + data;
            room := Some(n - |data|);
            ok := true;
          } else {
            written := written + data[..n];
            room := Some(0);
            ok := false;
          }
      }
    }

    method Flush() returns (ok: bool)
      ensures ok <==> !flushFails
    {
      ok := !flushFails;
    }
  }
}
