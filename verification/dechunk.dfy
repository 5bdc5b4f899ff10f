/**
 `dechunk` of `src/codec.rs`: the chunked transfer coding (section 7.1 of
 RFC 9112) undone inside the buffer that still holds the coded bytes.
 */
module Dechunk {
  import opened Bytes
  import opened Text
  import opened Numbers
  import opened Protocol
  import opened Framing

  const BAD_ENCODING := InvalidResponse("Invalid chunk size encoding")
  const BAD_SIZE := InvalidResponse("Invalid chunk size")
  const INCOMPLETE_BODY := InvalidResponse("Incomplete chunked body")

  datatype LineSize = SizeOf(count: nat) | BadLine(error: Error)

  /** The size a chunk line announces, extensions ignored. */
  function ChunkSize(line: bytes): LineSize {
    if !ValidUtf8(line) then BadLine(BAD_ENCODING) else
    match ParseUnsigned(Trim(Split(Trim(line), SEMICOLON)[0]), 16, USIZE_MAX)
    case None => BadLine(BAD_SIZE)
    case Some(n) => SizeOf(n)
  }

  /** What is at the front of the coded bytes. */
  datatype Front =
    | Stop                                     // a last chunk, or no complete chunk line
    | Whole(data: nat, size: nat)              // `size` payload bytes, starting at offset `data`
    | Broken(error: Error)
    | Overflows                                // the sum of start and size exceeds `usize`

  /** Look at the coded bytes `rest`, which start at offset `at` of the buffer. */
  function ReadFront(rest: bytes, at: nat): (r: Front)
    ensures r.Whole? ==> r.size > 0 && r.data + r.size <= |rest| && r.data >= 2
  {
    match FindCrlf(rest)
    case None => Stop
    case Some(p) =>
      match ChunkSize(rest[..p])
      case BadLine(e) => Broken(e)
      case SizeOf(size) =>
        if size == 0 then Stop
        else if at + p + 2 + size > USIZE_MAX then Overflows
        else if p + 2 + size > |rest| then Broken(INCOMPLETE_BODY)
        else Whole(p + 2, size)
  }

  /** The payload bytes of a coded body up to where decoding ends, and how it ends. */
  datatype Decoding = Decoding(output: bytes, status: Outcome<()>)

  /** Pure chunked decoding of `rest`, which starts at offset `at` of the buffer. */
  function DecodeChunks(rest: bytes, at: nat): (r: Decoding)
    ensures |r.output| <= |rest|
    decreases |rest|
  {
    match ReadFront(rest, at)
    case Stop => Decoding([], Ok(()))
    case Broken(e) => Decoding([], Err(e))
    case Overflows => Decoding([], Panic)
    case Whole(data, size) =>
      var next := Min(data + size + 2, |rest|);
      var more := DecodeChunks(rest[next..], at + data + size + 2);
      Decoding(rest[data..data + size] + more.output, more.status)
  }

  /** The whole decoding step on the received bytes: what the buffer starts with afterwards, and the answer. */
  function Decoded(data: bytes): Decoding {
    match FindDoubleCrlf(data)
    case None => Decoding(data, Ok(()))
    case Some(d) =>
      if !Chunked(data) then Decoding(data, Ok(())) else
      var body := DecodeChunks(data[d + 4..], d + 4);
      Decoding(data[..d + 4] + body.output, body.status)
  }

  function DecodedLength(decoding: Decoding): Outcome<nat> {
    match decoding.status
    case Ok(_) => Ok(|decoding.output|)
    case Err(e) => Err(e)
    case Panic => Panic
  }

  /** Decoding `data` from `at` on, where the buffer holds `data`; nothing is left beyond its end. */
  function DecodeAt(data: bytes, at: nat): Decoding {
    DecodeChunks(data[Min(at, |data|)..], at)
  }

  /** What is decoded so far is `front`, and decoding goes on at offset `at`. */
  ghost predicate Pending(data: bytes, front: bytes, at: nat) {
    var rest := DecodeAt(data, at);
    Decoded(data) == Decoding(front + rest.output, rest.status)
  }

  lemma NotChunked(data: bytes)
    requires !Chunked(data)
    ensures Decoded(data) == Decoding(data, Ok(()))
  {
  }

  lemma DecodedByParts(data: bytes)
    requires Chunked(data)
    ensures FindDoubleCrlf(data).Some?
    ensures var h := FindDoubleCrlf(data).value + 4;
      h <= |data| && Pending(data, data[..h], h)
  {
    hide DecodeChunks;
  }

  /** Nothing behind the write position has changed. */
  lemma Unmoved(front: bytes, original: bytes, total: nat, start: nat, end: nat)
    requires |front| <= start <= end <= total <= |original|
    ensures (front + original[|front|..])[start..end] == original[..total][start..end]
    ensures end == total ==> original[..total][start..end] == original[..total][start..]
  {
  }

  /** The definition of decoding, unfolded once. */
  lemma DecodeNext(rest: bytes, at: nat)
    ensures DecodeChunks(rest, at) ==
      match ReadFront(rest, at)
      case Stop => Decoding([], Ok(()))
      case Broken(e) => Decoding([], Err(e))
      case Overflows => Decoding([], Panic)
      case Whole(data, size) =>
        var more := DecodeChunks(rest[Min(data + size + 2, |rest|)..], at + data + size + 2);
        Decoding(rest[data..data + size] + more.output, more.status)
  {
  }

  /** One turn of the decoding loop. */
  lemma PendingStep(data: bytes, front: bytes, at: nat)
    requires Pending(data, front, at) && at < |data|
    ensures
      match ReadFront(data[at..], at)
      case Stop => Decoded(data) == Decoding(front, Ok(()))
      case Broken(e) => Decoded(data) == Decoding(front, Err(e))
      case Overflows => Decoded(data) == Decoding(front, Panic)
      case Whole(offset, size) =>
        var start := at + offset;
        Pending(data, front + data[start..start + size], start + size + 2)
  {
    hide ReadFront, Decoded, DecodeChunks;
    var rest := data[at..];
    DecodeNext(rest, at);
    assert front + [] == front;
    match ReadFront(rest, at) {
      case Whole(offset, size) =>
        var start, next := at + offset, Min(offset + size + 2, |rest|);
        var payload, more := data[start..start + size], DecodeAt(data, start + size + 2);
        assert rest[next..] == data[Min(start + size + 2, |data|)..];
        assert rest[offset..offset + size] == payload;
        assert front + (payload + more.output) == front + payload + more.output;
      case _ =>
    }
  }

  /** `copy_within`: the source range may overlap its destination. */
  method CopyWithin(a: array<byte>, start: nat, end: nat, to: nat)
    requires start <= end <= a.Length && to <= start
    modifies a
    ensures a[..] == old(a[..])[..to] + old(a[..])[start..end] + old(a[..])[to + end - start..]
  {
    forall i | 0 <= i < end - start {
      a[to + i] := a[start + i];
    }
  }

  /** Sliding bytes that have not been overwritten yet extends the part already decoded. */
  lemma Slide(front: bytes, original: bytes, total: nat, start: nat, end: nat)
    requires |front| <= start <= end <= total <= |original|
    ensures var b, n := front + original[|front|..], |front| + end - start;
      && n <= |original|
      && b[..|front|] + b[start..end] + b[n..] == front + original[..total][start..end] + original[n..]
  {
    Unmoved(front, original, total, start, end);
  }

  lemma PendingEnd(data: bytes, front: bytes, at: nat)
    requires Pending(data, front, at) && at >= |data|
    ensures Decoded(data) == Decoding(front, Ok(()))
  {
    hide Decoded;
    assert DecodeAt(data, at).output == [] && front + [] == front;
  }

  /**
   In-place decoding computes what pure decoding of the original bytes
   computes, on success and on failure. The buffer then holds the unchanged
   head, the concatenated payloads, and behind them its old contents.
   */
  method DecodeInPlace(buffer: array<byte>, totalRead: nat) returns (r: Outcome<nat>)
    requires totalRead <= buffer.Length
    modifies buffer
    ensures r == DecodedLength(Decoded(old(buffer[..totalRead])))
    ensures var output := Decoded(old(buffer[..totalRead])).output;
      |output| <= totalRead && buffer[..] == output + old(buffer[..])[|output|..]
  {
    hide Chunked, FindDoubleCrlf, ReadFront, Decoded, Pending;
    ghost var original := buffer[..];
    ghost var data := original[..totalRead];
    assert buffer[..totalRead] == data;
    if !Chunked(buffer[..totalRead]) {
      NotChunked(data);
      return Ok(totalRead);
    }
    DecodedByParts(data);
    var headersEnd := FindDoubleCrlf(buffer[..totalRead]).value + 4;

    var readPos := headersEnd;
    var writePos := headersEnd;
    ghost var front := data[..headersEnd];
    while readPos < totalRead
      invariant headersEnd <= writePos <= readPos <= totalRead + 2 && writePos <= totalRead
      invariant |front| == writePos && buffer[..] == front + original[writePos..]
      invariant Pending(data, front, readPos)
      decreases totalRead + 2 - readPos
    {
      Unmoved(front, original, totalRead, readPos, totalRead);
      assert buffer[readPos..totalRead] == buffer[..][readPos..totalRead] == data[readPos..];
      PendingStep(data, front, readPos);
      match ReadFront(buffer[readPos..totalRead], readPos) {
        case Stop => break;
        case Broken(error) => return Err(error);
        case Overflows => return Panic;
        case Whole(offset, size) =>
          var start, end := readPos + offset, readPos + offset + size;
          if writePos != start {
            CopyWithin(buffer, start, end, writePos);
            Slide(front, original, totalRead, start, end);
          }
          front := front + data[start..end];
          writePos := writePos + size;
          readPos := end + 2;
      }
    }
    if readPos >= totalRead {
      PendingEnd(data, front, readPos);
    }
    return Ok(writePos);
  }
}
