/** What holds of the client on any stream whatever: when it panics, and what an accepted body contains. */
module ClientLaws {
  import opened Bytes
  import opened Text
  import opened Protocol
  import opened Framing
  import opened Dechunk
  import opened ChunkLines
  import opened Streams
  import opened Reading
  import opened Responses
  import opened ResponseLaws
  import opened Connections
  import opened ChunkedBody

  // ----- Decoding panics -----

  /** Behind whole pieces stands a size line that announces a chunk with its end beyond `usize`. */
  ghost predicate Overruns(rest: bytes, at: nat, ps: seq<Piece>, line: bytes, size: nat, more: bytes) {
    && WholePieces(ps) && rest == Pieces(ps) + (line + CRLF + more)
    && NoCrlf(line) && Announces(line, size) && size > 0
    && at + |Pieces(ps)| + |line| + 2 + size > USIZE_MAX
  }

  /** Some announced chunk would end beyond `usize`. */
  ghost predicate Overrun(rest: bytes, at: nat) {
    exists ps, line, size, more :: Overruns(rest, at, ps, line, size, more)
  }

  lemma FrontOverruns(line: bytes, size: nat, more: bytes, at: nat)
    requires NoCrlf(line) && Announces(line, size) && size > 0
    ensures ReadFront(line + CRLF + more, at).Overflows? <==> at + |line| + 2 + size > USIZE_MAX
  {
    hide ChunkSize, Announces;
    LineEnd(line, more);
    AnnouncesExactly(line, size);
    assert (line + CRLF + more)[..|line|] == line;
  }

  lemma {:induction false} OverrunPanics(
    rest: bytes, at: nat, ps: seq<Piece>, line: bytes, size: nat, more: bytes)
    requires Overruns(rest, at, ps, line, size, more)
    ensures DecodeChunks(rest, at).status.Panic?
    decreases |ps|
  {
    hide ReadFront, Announces, NoCrlf, DecodeChunks;
    DecodeNext(rest, at);
    var tail := line + CRLF + more;
    if ps == [] {
      assert rest == tail;
      FrontOverruns(line, size, more, at);
    } else {
      var p, behind := ps[0], Pieces(ps[1..]) + tail;
      var n := |p.line| + 2 + |p.payload| + 2;
      assert rest == p.line + CRLF + (p.payload + p.separator + behind);
      assert rest[n..] == behind;
      PieceInFront(p, behind, at);
      if !ReadFront(rest, at).Overflows? {
        OverrunPanics(behind, at + n, ps[1..], line, size, more);
      }
    }
  }

  lemma OverflowingFront(tail: bytes, at: nat) returns (line: bytes, size: nat, more: bytes)
    requires EndsAs(tail, at, Panic)
    ensures tail == line + CRLF + more && NoCrlf(line) && Announces(line, size) && size > 0
    ensures at + |line| + 2 + size > USIZE_MAX
  {
    hide Announces, ValidUtf8;
    var p := FindCrlf(tail).value;
    line, more := tail[..p], tail[p + 2..];
    size :| Announces(line, size) && AmountEnds(size, |tail| - p - 2, at + p + 2, Panic);
    assert forall i: nat :: CrlfAt(line, i) ==> CrlfAt(tail, i);
  }

  lemma NothingEndsWell(at: nat)
    ensures !EndsAs([], at, Panic)
  {
  }

  lemma OverrunShown(rest: bytes, at: nat, ps: seq<Piece>, line: bytes, size: nat, more: bytes)
    requires rest == Pieces(ps) + (line + CRLF + more)
    requires forall i :: 0 <= i < |ps| ==> GoodPiece(ps[i])
    requires forall i :: 0 <= i < |ps| ==> |ps[i].separator| >= 2
    requires NoCrlf(line) && Announces(line, size) && size > 0
    requires at + |Pieces(ps)| + |line| + 2 + size > USIZE_MAX
    ensures Overruns(rest, at, ps, line, size, more)
  {
  }

  /** Decoding panics exactly when some announced chunk would end beyond `usize`. */
  lemma DecodingPanicsExactly(rest: bytes, at: nat)
    ensures DecodeChunks(rest, at).status.Panic? <==> Overrun(rest, at)
  {
    hide DecodeChunks, EndsAs, Pieces, GoodPiece, Overruns;
    if DecodeChunks(rest, at).status.Panic? {
      var ps, tail := DecodingIsExplained(rest, at);
      NothingEndsWell(at + |Pieces(ps)|);
      var line, size, more := OverflowingFront(tail, at + |Pieces(ps)|);
      OverrunShown(rest, at, ps, line, size, more);
    }
    if ps, line, size, more :| Overruns(rest, at, ps, line, size, more) {
      OverrunPanics(rest, at, ps, line, size, more);
    }
  }

  // ----- The client panics -----

  /** The received head is text with a good status line and no header line. */
  predicate BareStatusLine(data: bytes, d: nat)
    requires d + 4 <= |data|
  {
    ValidUtf8(data[..d + 4]) && StatusFrom(data[..d]).Ok? && FindCrlf(data[..d + 4]) == Some(d)
  }

  /** The first double CRLF and the head in front of it do not depend on what follows. */
  lemma HeadIsKept(data: bytes, d: nat, output: bytes)
    requires FindDoubleCrlf(data) == Some(d) && data[..d + 4] <= output
    ensures FindDoubleCrlf(output) == Some(d) && output[..d + 4] == data[..d + 4] && output[..d] == data[..d]
  {
    var head := data[..d + 4];
    FindInPrefix(data, DOUBLE_CRLF, d + 4);
    FindIsSearch(data, d + 4);
    HeadInPrefix(head, output[d + 4..]);
    assert output == head + output[d + 4..];
    assert data[..d] == head[..d] && output[..d] == head[..d];
  }

  /**
   The client panics exactly on two kinds of received bytes: a chunked body
   with a chunk that would end beyond `usize`, and a head without header line
   whose body, if chunked, decodes.
   */
  lemma ClientPanicsExactly(data: bytes)
    ensures Interpret(data).Panic? <==>
      match FindDoubleCrlf(data)
      case None => false
      case Some(d) =>
        || (Chunked(data) && Overrun(data[d + 4..], d + 4))
        || (BareStatusLine(data, d) && (Chunked(data) ==> DecodeChunks(data[d + 4..], d + 4).status.Ok?))
  {
    hide ValidUtf8, FindDoubleCrlf, FindCrlf, StatusFrom, ParseResponse, ChunkedHead, DecodeChunks, Overrun;
    match FindDoubleCrlf(data) {
      case None => PanicsExactly(data);
      case Some(d) =>
        DecodingPanicsExactly(data[d + 4..], d + 4);
        var output := Decoded(data).output;
        PanicsExactly(output);
        assert Chunked(data) ==> output == data[..d + 4] + DecodeChunks(data[d + 4..], d + 4).output;
        assert data == data[..d + 4] + data[d + 4..];
        HeadIsKept(data, d, output);
    }
  }

  // ----- What an accepted response contains -----

  /**
   On any stream: a response the client accepts, with a head that is not
   chunked, carries exactly the bytes received behind the head, and at least as
   many as the head declares.
   */
  lemma ClientBodyIsWhole(events: seq<ReadEvent>, s: bytes, limit: nat, maxRetries: nat)
    requires ClientRun(events, s, limit, maxRetries).Ok?
    ensures var total := ClientRead(events, s, limit, maxRetries).value;
      var data, got := s[..total], ClientRun(events, s, limit, maxRetries).value;
      && FindDoubleCrlf(data).Some?
      && var d := FindDoubleCrlf(data).value;
      !Chunked(data) ==>
        && got.1 == total && got.0.body.AsBytes() == data[d + 4..]
        && (ContentLength(data[..d + 4]).Some? ==> |got.0.body.AsBytes()| >= ContentLength(data[..d + 4]).value)
  {
    hide ValidUtf8, FindDoubleCrlf, FindCrlf, StatusFrom, ChunkedHead, DecodeChunks, ContentLength, ParseBody, Fields,
      SplitLines, Pump;
    var total := ClientRead(events, s, limit, maxRetries).value;
    var data := s[..total];
    assert FindDoubleCrlf(data).Some?;
    var d := FindDoubleCrlf(data).value;
    if !Chunked(data) {
      NotChunked(data);
      ParseBodyKeepsBytes(ParseResponse(data).value.headers, data[d + 4..]);
    }
  }
}
