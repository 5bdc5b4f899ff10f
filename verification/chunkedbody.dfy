/**
 Chunked bodies as a sender writes them, and what reading and decoding them
 delivers: the whole body, exactly when the end marker does not turn up early.
 */
module ChunkedBody {
  import opened Bytes
  import opened Text
  import opened Numbers
  import opened Protocol
  import opened Framing
  import opened Heads
  import opened Dechunk
  import opened ChunkLines
  import opened Streams
  import opened Reading

  /** The hexadecimal text of `n`, in upper or lower case. */
  function Hex(n: nat, upper: bool): (r: bytes)
    ensures r != []
  {
    var d := n % 16;
    var digit := (if d < 10 then 48 + d else if upper then 55 + d else 87 + d) as byte;
    if n < 16 then [digit] else Hex(n / 16, upper) + [digit]
  }

  lemma {:induction false} HexValueIsNumber(n: nat, upper: bool)
    ensures Value(Hex(n, upper), 16) == Some(n) && Hex(n, upper)[0] != PLUS
  {
    var h := Hex(n, upper);
    assert Digit(h[|h| - 1], 16) == Some(n % 16);
    if n < 16 {
      assert h[..0] == [];
    } else {
      HexValueIsNumber(n / 16, upper);
      assert h[..|h| - 1] == Hex(n / 16, upper);
    }
  }

  /** The hexadecimal text of a number is a text of that number. */
  lemma HexSpellsNumber(n: nat, upper: bool)
    requires n <= USIZE_MAX
    ensures NumberText(Hex(n, upper), 16, n, USIZE_MAX)
  {
    hide Hex, NumberText, Value;
    HexValueIsNumber(n, upper);
    ParsesExactly(Hex(n, upper), 16, n, USIZE_MAX);
  }

  /** One chunk: its size as spelled, blanks around it, its extension (with the `;`) and its payload. */
  datatype Chunk = Chunk(before: bytes, size: bytes, after: bytes, extension: bytes, payload: bytes) {
    function Line(): bytes {
      before + size + after + extension
    }
  }

  ghost predicate SizeLine(c: Chunk, n: nat) {
    && NumberText(c.size, 16, n, USIZE_MAX)
    && AllBlank(c.before) && AllBlank(c.after)
    && (c.extension == [] || c.extension[0] == SEMICOLON)
    && ValidUtf8(c.Line()) && NoCrlf(c.Line())
  }

  ghost predicate DataChunk(c: Chunk) {
    c.payload != [] && SizeLine(c, |c.payload|)
  }

  ghost predicate DataChunks(cs: seq<Chunk>) {
    forall i :: 0 <= i < |cs| ==> DataChunk(cs[i])
  }

  function EncodeChunk(c: Chunk): bytes {
    c.Line() + CRLF + c.payload + CRLF
  }

  function Encode(cs: seq<Chunk>): bytes {
    if cs == [] then [] else EncodeChunk(cs[0]) + Encode(cs[1..])
  }

  /** The last chunk: size zero; its payload field holds trailers and the final CRLF. */
  function EncodeLast(last: Chunk): bytes {
    last.Line() + CRLF + last.payload
  }

  function Payload(cs: seq<Chunk>): bytes {
    if cs == [] then [] else cs[0].payload + Payload(cs[1..])
  }

  // ----- One chunk line -----

  lemma NumberIsSolid(text: bytes, n: nat)
    requires NumberText(text, 16, n, USIZE_MAX)
    ensures Trimmed(text) && IndexOf(text, SEMICOLON).None?
  {
    hide Horner;
    var digits := if text[0] == PLUS then text[1..] else text;
    assert forall i :: 0 <= i < |text| ==> WordByte(text[i]) && text[i] != SPACE && text[i] != SEMICOLON by {
      assert text == text[..|text| - |digits|] + digits;
    }
    WordsAreSolid(text);
  }

  lemma NumberIsBounded(text: bytes, n: nat)
    requires NumberText(text, 16, n, USIZE_MAX)
    ensures n <= USIZE_MAX
  {
  }

  /** A size line announces the size it spells, whatever its case, extension and blanks. */
  lemma SizeLineAnnounces(c: Chunk, n: nat)
    requires SizeLine(c, n)
    ensures Announces(c.Line(), n) && n <= USIZE_MAX
  {
    hide NumberText, ValidUtf8, AllBlank, NoCrlf;
    NumberIsSolid(c.size, n);
    assert SizeParts(c.Line(), c.before, c.size, c.after, c.extension);
    assert n <= USIZE_MAX by {
      NumberIsBounded(c.size, n);
    }
  }

  /** And so the decoder reads it. */
  lemma SizeLineParses(c: Chunk, n: nat)
    requires SizeLine(c, n)
    ensures ChunkSize(c.Line()) == SizeOf(n) && NoCrlf(c.Line())
  {
    hide NumberText, ChunkSize, Announces;
    SizeLineAnnounces(c, n);
    AnnouncesExactly(c.Line(), n);
  }

  lemma UnfoldDataChunk(c: Chunk)
    requires DataChunk(c)
    ensures SizeLine(c, |c.payload|) && c.payload != []
  {
  }

  lemma FrontOfLine(line: bytes, rest: bytes, t: nat)
    requires NoCrlf(line) && t <= |line + CRLF + rest|
    ensures var s := (line + CRLF + rest)[..t];
      if t < |line| + 2 then FindCrlf(s) == None
      else FindCrlf(s) == Some(|line|) && s[..|line|] == line
  {
    var s := (line + CRLF + rest)[..t];
    LineEnd(line, rest);
    if t < |line| + 2 {
      forall j: nat ensures !CrlfAt(s, j) {
        if CrlfAt(s, j) {
          assert CrlfAt(line + CRLF + rest, j);
        }
      }
    } else {
      assert s == line + CRLF + rest[..t - |line| - 2];
      LineEnd(line, rest[..t - |line| - 2]);
    }
  }

  /** What the decoder sees at the front of a coded chunk, when `t` bytes of it have arrived. */
  lemma FrontOfChunk(c: Chunk, rest: bytes, t: nat, at: nat)
    requires DataChunk(c)
    requires t <= |EncodeChunk(c) + rest| && at + t <= USIZE_MAX
    ensures var n, k := |c.payload|, |c.Line()| + 2;
      ReadFront((EncodeChunk(c) + rest)[..t], at) ==
        if t < k then Stop
        else if t >= k + n then Whole(k, n)
        else if at + k + n > USIZE_MAX then Overflows
        else Broken(INCOMPLETE_BODY)
    ensures |EncodeChunk(c)| == |c.Line()| + |c.payload| + 4
  {
    hide ChunkSize, DataChunk;
    assert DataChunk(c) ==> SizeLine(c, |c.payload|) && c.payload != [] by {
      UnfoldDataChunk(c);
    }
    SizeLineParses(c, |c.payload|);
    FrontOfLine(c.Line(), c.payload + CRLF + rest, t);
    assert EncodeChunk(c) + rest == c.Line() + CRLF + (c.payload + CRLF + rest);
  }

  // ----- Decoding what was encoded, cut anywhere -----

  lemma LastStops(last: Chunk, t: nat, at: nat)
    requires SizeLine(last, 0) && t <= |EncodeLast(last)|
    ensures DecodeChunks(EncodeLast(last)[..t], at) == Decoding([], Ok(()))
  {
    hide ChunkSize, SizeLine;
    SizeLineParses(last, 0);
    FrontOfLine(last.Line(), last.payload, t);
  }

  lemma ChunkPayloadAt(c: Chunk, more: bytes, t: nat)
    requires |c.Line()| + 2 + |c.payload| <= t <= |EncodeChunk(c) + more|
    ensures (EncodeChunk(c) + more)[..t][|c.Line()| + 2..|c.Line()| + 2 + |c.payload|] == c.payload
  {
  }

  /** Decoding a chunk of which `t` bytes arrived: no output, or its payload and what decoding the rest gives. */
  lemma FirstChunkCut(c: Chunk, more: bytes, t: nat, at: nat)
    requires DataChunk(c) && t <= |EncodeChunk(c) + more| && at + t <= USIZE_MAX
    ensures c.payload != [] && |EncodeChunk(c)| > 2
    ensures var size := |EncodeChunk(c)|; var r := DecodeChunks((EncodeChunk(c) + more)[..t], at);
      if t + 2 < size then r.output == []
      else
        var d := DecodeChunks(more[..if t >= size then t - size else 0], at + size);
        r == Decoding(c.payload + d.output, d.status)
  {
    hide ReadFront, SizeLine, DataChunk, DecodeChunks;
    UnfoldDataChunk(c);
    FrontOfChunk(c, more, t, at);
    var s, size := (EncodeChunk(c) + more)[..t], |EncodeChunk(c)|;
    DecodeNext(s, at);
    if t + 2 >= size {
      ChunkPayloadAt(c, more, t);
      if t >= size {
        assert s[size..] == more[..t - size];
      } else {
        assert s[t..] == more[..0];
      }
    }
  }

  lemma PayloadOfMore(cs: seq<Chunk>)
    requires DataChunks(cs)
    ensures Payload(cs) == [] <==> cs == []
    ensures cs != [] ==> |Encode(cs)| > 2
  {
    if cs != [] {
      UnfoldDataChunk(cs[0]);
    }
  }

  lemma DecodeNothing(at: nat)
    ensures DecodeChunks([], at) == Decoding([], Ok(()))
  {
  }

  lemma SamePrefix(a: bytes, b: bytes, c: bytes)
    ensures a + b == a + c <==> b == c
  {
    if a + b == a + c {
      assert b == (a + b)[|a|..] == (a + c)[|a|..] == c;
    }
  }

  /**
   Decoding the first `t` bytes of a coded body yields the body exactly when
   no payload byte is missing.
   */
  lemma {:induction false} DecodeCut(cs: seq<Chunk>, last: Chunk, t: nat, at: nat)
    requires DataChunks(cs) && SizeLine(last, 0)
    requires t <= |Encode(cs) + EncodeLast(last)| && at + t <= USIZE_MAX
    ensures DecodeChunks((Encode(cs) + EncodeLast(last))[..t], at) == Decoding(Payload(cs), Ok(()))
      <==> cs == [] || t + 2 >= |Encode(cs)|
  {
    hide DecodeChunks, SizeLine, DataChunk, EncodeLast, EncodeChunk;
    var coded := Encode(cs) + EncodeLast(last);
    if cs == [] {
      assert coded == EncodeLast(last);
      LastStops(last, t, at);
    } else {
      var c, more := cs[0], Encode(cs[1..]) + EncodeLast(last);
      var size := |EncodeChunk(c)|;
      assert coded == EncodeChunk(c) + more;
      FirstChunkCut(c, more, t, at);
      PayloadOfMore(cs[1..]);
      if t + 2 >= size {
        var n := if t >= size then t - size else 0;
        var d := DecodeChunks(more[..n], at + size);
        if t >= size {
          DecodeCut(cs[1..], last, n, at + size);
        } else {
          DecodeNothing(at + size);
        }
        SamePrefix(c.payload, d.output, Payload(cs[1..]));
      }
    }
  }

  lemma FirstChunkDecodes(c: Chunk, more: bytes, at: nat)
    requires DataChunk(c) && at + |EncodeChunk(c) + more| <= USIZE_MAX
    ensures var d := DecodeChunks(more, at + |EncodeChunk(c)|);
      DecodeChunks(EncodeChunk(c) + more, at) == Decoding(c.payload + d.output, d.status)
  {
    hide ReadFront, SizeLine, DataChunk;
    var s := EncodeChunk(c) + more;
    assert s[..|s|] == s;
    FrontOfChunk(c, more, |s|, at);
    ChunkPayloadAt(c, more, |s|);
    assert s[|EncodeChunk(c)|..] == more;
  }

  /** Whatever follows well-formed chunks, those chunks decode, and the rest decides how decoding ends. */
  lemma {:induction false} DecodeAfterChunks(cs: seq<Chunk>, tail: bytes, at: nat)
    requires DataChunks(cs) && at + |Encode(cs) + tail| <= USIZE_MAX
    ensures var d := DecodeChunks(tail, at + |Encode(cs)|);
      DecodeChunks(Encode(cs) + tail, at) == Decoding(Payload(cs) + d.output, d.status)
  {
    hide DecodeChunks, SizeLine, DataChunk, EncodeChunk;
    var d := DecodeChunks(tail, at + |Encode(cs)|);
    if cs == [] {
      assert Encode(cs) + tail == tail && Payload(cs) + d.output == d.output;
    } else {
      var c, more := cs[0], Encode(cs[1..]) + tail;
      assert Encode(cs) + tail == EncodeChunk(c) + more;
      FirstChunkDecodes(c, more, at);
      DecodeAfterChunks(cs[1..], tail, at + |EncodeChunk(c)|);
      assert c.payload + (Payload(cs[1..]) + d.output) == Payload(cs) + d.output;
    }
  }

  /** One chunk as the decoder accepts it: two bytes of any kind may separate it from the next. */
  datatype Piece = Piece(line: bytes, payload: bytes, separator: bytes)

  function Pieces(ps: seq<Piece>): bytes {
    if ps == [] then [] else ps[0].line + CRLF + ps[0].payload + ps[0].separator + Pieces(ps[1..])
  }

  function PiecePayload(ps: seq<Piece>): bytes {
    if ps == [] then [] else ps[0].payload + PiecePayload(ps[1..])
  }

  ghost predicate GoodPiece(p: Piece) {
    NoCrlf(p.line) && Announces(p.line, |p.payload|) && p.payload != [] && |p.separator| <= 2
  }

  function Ending(front: Front): Outcome<()> {
    match front
    case Stop => Ok(())
    case Whole(_, _) => Ok(())
    case Broken(e) => Err(e)
    case Overflows => Panic
  }

  lemma FrontLine(rest: bytes, at: nat)
    requires ReadFront(rest, at).Whole?
    ensures var f := ReadFront(rest, at);
      && NoCrlf(rest[..f.data - 2]) && ChunkSize(rest[..f.data - 2]) == SizeOf(f.size)
      && rest[f.data - 2..f.data] == CRLF
  {
    hide ChunkSize;
    var p := ReadFront(rest, at).data - 2;
    assert forall i: nat :: CrlfAt(rest[..p], i) ==> CrlfAt(rest, i);
    assert CrlfAt(rest, p);
  }

  /** The piece at the front, and what decoding makes of it. */
  lemma FrontPiece(rest: bytes, at: nat)
    requires ReadFront(rest, at).Whole?
    ensures var f := ReadFront(rest, at); var next := Min(f.data + f.size + 2, |rest|);
      var p := Piece(rest[..f.data - 2], rest[f.data..f.data + f.size], rest[f.data + f.size..next]);
      var d := DecodeChunks(rest[next..], at + f.data + f.size + 2);
      && GoodPiece(p) && rest[f.data - 2..f.data] == CRLF && |rest[next..]| < |rest|
      && DecodeChunks(rest, at) == Decoding(p.payload + d.output, d.status)
  {
    hide ReadFront, ChunkSize, NoCrlf, Announces;
    FrontLine(rest, at);
    var f := ReadFront(rest, at);
    AnnouncesExactly(rest[..f.data - 2], f.size);
  }

  lemma PieceSplits(p: Piece, more: seq<Piece>, tail: bytes, rest: bytes, data: nat, size: nat)
    requires 2 <= data && 0 < size && data + size <= |rest| && rest[data - 2..data] == CRLF
    requires p.line == rest[..data - 2] && p.payload == rest[data..data + size]
    requires var next := Min(data + size + 2, |rest|);
      p.separator == rest[data + size..next] && rest[next..] == Pieces(more) + tail
    ensures rest == Pieces([p] + more) + tail && PiecePayload([p] + more) == p.payload + PiecePayload(more)
    ensures |Pieces([p] + more)| == data + size + |p.separator| + |Pieces(more)|
    ensures |p.separator| < 2 ==> more == [] && tail == []
  {
    assert ([p] + more)[1..] == more;
    var next := Min(data + size + 2, |rest|);
    assert rest == p.line + CRLF + p.payload + p.separator + rest[next..];
    if |p.separator| < 2 {
      assert |Pieces(more) + tail| == 0;
    }
  }

  lemma EmptyFront(at: nat)
    ensures ReadFront([], at) == Stop
  {
  }

  lemma NothingDecoded(rest: bytes, at: nat)
    requires !ReadFront(rest, at).Whole?
    ensures Pieces([]) + rest == rest && DecodeChunks(rest, at + |Pieces([])|) == DecodeChunks(rest, at)
    ensures DecodeChunks(rest, at) == Decoding(PiecePayload([]), Ending(ReadFront(rest, at + |Pieces([])|)))
  {
    hide ReadFront;
  }

  /** Decoding splits its input into whole pieces and a tail whose front ends it. */
  lemma {:induction false} DecodingSplits(rest: bytes, at: nat) returns (ps: seq<Piece>, tail: bytes)
    ensures rest == Pieces(ps) + tail
    ensures DecodeChunks(rest, at) == Decoding(PiecePayload(ps), Ending(ReadFront(tail, at + |Pieces(ps)|)))
    ensures !ReadFront(tail, at + |Pieces(ps)|).Whole?
    ensures forall i :: 0 <= i < |ps| ==> GoodPiece(ps[i])
    ensures forall i :: 0 <= i < |ps| && |ps[i].separator| < 2 ==> i == |ps| - 1 && tail == []
    decreases |rest|
  {
    hide ReadFront, Pieces, PiecePayload, GoodPiece, DecodeChunks;
    match ReadFront(rest, at) {
      case Whole(data, size) =>
        var next := Min(data + size + 2, |rest|);
        var p := Piece(rest[..data - 2], rest[data..data + size], rest[data + size..next]);
        FrontPiece(rest, at);
        var more;
        more, tail := DecodingSplits(rest[next..], at + data + size + 2);
        ps := [p] + more;
        PieceSplits(p, more, tail, rest, data, size);
        if |p.separator| < 2 {
          EmptyFront(at + |Pieces(ps)|);
          EmptyFront(at + data + size + 2 + |Pieces(more)|);
        }
      case _ =>
        ps, tail := [], rest;
        NothingDecoded(rest, at);
    }
  }

  /** How decoding ends at a chunk of `n` bytes from `start` on, if it ends there, with `left` bytes received. */
  predicate AmountEnds(n: nat, left: nat, start: nat, status: Outcome<()>) {
    if n == 0 then status == Ok(())
    else if start + n > USIZE_MAX then status == Panic
    else n > left && status == Err(InvalidResponse("Incomplete chunked body"))
  }

  /** How decoding ends at a size line with `left` bytes behind it, the first of them at offset `start`. */
  ghost predicate LineEnds(line: bytes, left: nat, start: nat, status: Outcome<()>) {
    if !ValidUtf8(line) then status == Err(InvalidResponse("Invalid chunk size encoding"))
    else if forall n: nat :: !Announces(line, n) then status == Err(InvalidResponse("Invalid chunk size"))
    else exists n: nat :: Announces(line, n) && AmountEnds(n, left, start, status)
  }

  /** How decoding ends at `tail`, which starts at offset `at` of the buffer: without a whole size line, well. */
  ghost predicate EndsAs(tail: bytes, at: nat, status: Outcome<()>) {
    match FindCrlf(tail)
    case None => status == Ok(())
    case Some(p) => LineEnds(tail[..p], |tail| - p - 2, at + p + 2, status)
  }

  lemma OnlyTwoErrors(line: bytes)
    ensures match ChunkSize(line)
      case SizeOf(_) => true
      case BadLine(e) =>
        e == InvalidResponse("Invalid chunk size encoding") || e == InvalidResponse("Invalid chunk size")
  {
    hide ParseUnsigned, ValidUtf8, Trim, Split;
  }

  /** Decoding ends there, and so, exactly if it does not find a whole chunk in front. */
  lemma EndsExactly(tail: bytes, at: nat, status: Outcome<()>)
    ensures EndsAs(tail, at, status) <==> !ReadFront(tail, at).Whole? && status == Ending(ReadFront(tail, at))
  {
    hide ChunkSize, Announces, ValidUtf8, FindCrlf;
    match FindCrlf(tail) {
      case None =>
      case Some(p) =>
        var line := tail[..p];
        RefusesExactly(line);
        forall n: nat ensures ChunkSize(line) == SizeOf(n) <==> Announces(line, n) {
          AnnouncesExactly(line, n);
        }
        OnlyTwoErrors(line);
    }
  }

  /**
   Conversely, every decoding is explained by the input: it splits into pieces
   whose payloads are the output, and a tail with no whole chunk in front that
   ends decoding as it does. A separator is short only at the very end.
   */
  lemma DecodingIsExplained(rest: bytes, at: nat) returns (ps: seq<Piece>, tail: bytes)
    ensures rest == Pieces(ps) + tail
    ensures DecodeChunks(rest, at).output == PiecePayload(ps)
    ensures EndsAs(tail, at + |Pieces(ps)|, DecodeChunks(rest, at).status)
    ensures forall i :: 0 <= i < |ps| ==> GoodPiece(ps[i])
    ensures forall i :: 0 <= i < |ps| && |ps[i].separator| < 2 ==> i == |ps| - 1 && tail == []
  {
    hide ReadFront, Pieces, PiecePayload, GoodPiece, DecodeChunks, EndsAs, Ending;
    ps, tail := DecodingSplits(rest, at);
    EndsExactly(tail, at + |Pieces(ps)|, DecodeChunks(rest, at).status);
  }

  /** Whole pieces, each followed by two bytes. */
  ghost predicate WholePieces(ps: seq<Piece>) {
    forall i :: 0 <= i < |ps| ==> GoodPiece(ps[i]) && |ps[i].separator| == 2
  }

  lemma PieceInFront(p: Piece, behind: bytes, at: nat)
    requires GoodPiece(p) && |p.separator| == 2
    ensures ReadFront(p.line + CRLF + (p.payload + p.separator + behind), at) ==
      if at + |p.line| + 2 + |p.payload| > USIZE_MAX then Overflows else Whole(|p.line| + 2, |p.payload|)
  {
    hide ChunkSize, Announces;
    var rest := p.line + CRLF + (p.payload + p.separator + behind);
    LineEnd(p.line, p.payload + p.separator + behind);
    AnnouncesExactly(p.line, |p.payload|);
    assert rest[..|p.line|] == p.line;
  }

  lemma EndingOfFront(tail: bytes, at: nat)
    requires !ReadFront(tail, at).Whole?
    ensures DecodeChunks(tail, at) == Decoding([], Ending(ReadFront(tail, at)))
  {
    hide ReadFront;
  }

  /** And every such explanation is right: whole pieces decode to their payloads, and the tail ends decoding. */
  lemma {:induction false} ExplanationDecodes(ps: seq<Piece>, tail: bytes, at: nat, status: Outcome<()>)
    requires WholePieces(ps) && at + |Pieces(ps)| <= USIZE_MAX && EndsAs(tail, at + |Pieces(ps)|, status)
    ensures DecodeChunks(Pieces(ps) + tail, at) == Decoding(PiecePayload(ps), status)
    decreases |ps|
  {
    hide ReadFront, NoCrlf, Announces, EndsAs, DecodeChunks, Ending;
    var rest := Pieces(ps) + tail;
    DecodeNext(rest, at);
    if ps == [] {
      assert rest == tail;
      EndsExactly(tail, at, status);
      EndingOfFront(tail, at);
    } else {
      var p, behind := ps[0], Pieces(ps[1..]) + tail;
      var n := |p.line| + 2 + |p.payload| + 2;
      assert rest == p.line + CRLF + (p.payload + p.separator + behind);
      assert rest[n..] == behind && rest[|p.line| + 2..|p.line| + 2 + |p.payload|] == p.payload;
      PieceInFront(p, behind, at);
      ExplanationDecodes(ps[1..], tail, at + n, status);
    }
  }

  // ----- With a head in front -----

  /** A complete head that declares the chunked coding. */
  predicate IsChunkedHead(head: bytes) {
    FindDoubleCrlf(head).Some? && FindDoubleCrlf(head).value + 4 == |head| && ChunkedHead(head)
  }

  lemma HeadStaysChunked(head: bytes, body: bytes)
    requires IsChunkedHead(head)
    ensures Chunked(head + body) && FindDoubleCrlf(head + body) == Some(|head| - 4)
    ensures Decoded(head + body)
      == Decoding(head + DecodeChunks(body, |head|).output, DecodeChunks(body, |head|).status)
  {
    hide FindDoubleCrlf, ChunkedHead, DecodeChunks;
    HeadInPrefix(head, body);
    assert (head + body)[..|head|] == head && (head + body)[|head|..] == body;
    assert head[..|head|] == head;
  }

  /** A message: head, coded chunks, last chunk. */
  function Message(head: bytes, cs: seq<Chunk>, last: Chunk): bytes {
    head + (Encode(cs) + EncodeLast(last))
  }

  ghost predicate IsMessage(head: bytes, cs: seq<Chunk>, last: Chunk) {
    && IsChunkedHead(head) && DataChunks(cs) && SizeLine(last, 0)
    && |Message(head, cs, last)| <= USIZE_MAX
  }

  /** Decoding a prefix of a message that covers the head. */
  lemma DecodedCut(head: bytes, cs: seq<Chunk>, last: Chunk, t: nat)
    requires IsMessage(head, cs, last)
    requires |head| <= t <= |Message(head, cs, last)|
    ensures Decoded(Message(head, cs, last)[..t]) == Decoding(head + Payload(cs), Ok(()))
      <==> cs == [] || t + 2 >= |head| + |Encode(cs)|
  {
    hide Decoded, DecodeChunks, IsChunkedHead, SizeLine, EncodeLast;
    var body := Encode(cs) + EncodeLast(last);
    var n := t - |head|;
    assert Message(head, cs, last)[..t] == head + body[..n];
    HeadStaysChunked(head, body[..n]);
    DecodeCut(cs, last, n, |head|);
    SamePrefix(head, DecodeChunks(body[..n], |head|).output, Payload(cs));
  }

  /** The chunked round trip: any chunking of a body decodes to head and body. */
  lemma ChunkedRoundTrip(head: bytes, cs: seq<Chunk>, last: Chunk)
    requires IsMessage(head, cs, last)
    ensures Decoded(Message(head, cs, last)) == Decoding(head + Payload(cs), Ok(()))
  {
    hide Decoded, IsChunkedHead, SizeLine, EncodeLast;
    var m := Message(head, cs, last);
    DecodedCut(head, cs, last, |m|);
    assert m[..|m|] == m;
  }

  lemma DecodedAfterChunks(head: bytes, cs: seq<Chunk>, tail: bytes)
    requires IsChunkedHead(head) && DataChunks(cs) && |head + (Encode(cs) + tail)| <= USIZE_MAX
    ensures var d := DecodeChunks(tail, |head| + |Encode(cs)|);
      Decoded(head + (Encode(cs) + tail)) == Decoding(head + (Payload(cs) + d.output), d.status)
  {
    hide Decoded, IsChunkedHead, DataChunks, DecodeChunks, Encode, Payload, Chunked, FindDoubleCrlf;
    HeadStaysChunked(head, Encode(cs) + tail);
    DecodeAfterChunks(cs, tail, |head|);
  }

  /** Behind good chunks, a size line that ends decoding decides the answer. */
  lemma DecodedEndsAs(head: bytes, cs: seq<Chunk>, line: bytes, rest: bytes, status: Outcome<()>)
    requires IsChunkedHead(head) && DataChunks(cs) && NoCrlf(line)
    requires LineEnds(line, |rest|, |head| + |Encode(cs)| + |line| + 2, status)
    requires |head + (Encode(cs) + (line + CRLF + rest))| <= USIZE_MAX
    ensures Decoded(head + (Encode(cs) + (line + CRLF + rest))) == Decoding(head + Payload(cs), status)
  {
    hide Decoded, IsChunkedHead, NoCrlf, DataChunks, LineEnds, DecodeChunks, Encode, Payload, ReadFront, Ending;
    var tail, at := line + CRLF + rest, |head| + |Encode(cs)|;
    DecodedAfterChunks(head, cs, tail);
    LineEnd(line, rest);
    assert tail[..|line|] == line;
    EndsExactly(tail, at, status);
    EndingOfFront(tail, at);
    assert head + (Payload(cs) + []) == head + Payload(cs);
  }

  /** A size text that is no hexadecimal number is an error, whatever blanks, extension and bytes surround it. */
  lemma BadSizeIsRefused(head: bytes, cs: seq<Chunk>,
                         before: bytes, text: bytes, after: bytes, extension: bytes, rest: bytes)
    requires IsChunkedHead(head) && DataChunks(cs)
    requires forall n: nat :: !NumberText(text, 16, n, USIZE_MAX)
    requires var line := before + text + after + extension;
      && SizeParts(line, before, text, after, extension) && ValidUtf8(line) && NoCrlf(line)
      && |head + (Encode(cs) + (line + CRLF + rest))| <= USIZE_MAX
    ensures var line := before + text + after + extension;
      Decoded(head + (Encode(cs) + (line + CRLF + rest)))
      == Decoding(head + Payload(cs), Err(InvalidResponse("Invalid chunk size")))
  {
    hide Decoded, IsChunkedHead, DataChunks, NoCrlf, ValidUtf8, SizeParts, NumberText, ParseUnsigned, ChunkSize,
      Announces, Encode, Payload;
    var line := before + text + after + extension;
    PartsParse(line, before, text, after, extension);
    if ParseUnsigned(text, 16, USIZE_MAX).Some? {
      ParsesExactly(text, 16, ParseUnsigned(text, 16, USIZE_MAX).value, USIZE_MAX);
    }
    RefusesExactly(line);
    DecodedEndsAs(head, cs, line, rest, Err(InvalidResponse("Invalid chunk size")));
  }

  /** A size line that is no UTF-8 is an encoding error. */
  lemma BadEncodingIsRefused(head: bytes, cs: seq<Chunk>, line: bytes, rest: bytes)
    requires IsChunkedHead(head) && DataChunks(cs) && NoCrlf(line) && !ValidUtf8(line)
    requires |head + (Encode(cs) + (line + CRLF + rest))| <= USIZE_MAX
    ensures Decoded(head + (Encode(cs) + (line + CRLF + rest)))
      == Decoding(head + Payload(cs), Err(InvalidResponse("Invalid chunk size encoding")))
  {
    hide Decoded, IsChunkedHead, DataChunks, NoCrlf, ValidUtf8, Encode, Payload;
    DecodedEndsAs(head, cs, line, rest, Err(InvalidResponse("Invalid chunk size encoding")));
  }

  lemma SizeLineIsText(c: Chunk, n: nat)
    requires SizeLine(c, n)
    ensures ValidUtf8(c.Line()) && NoCrlf(c.Line())
  {
  }

  /**
   A chunk that announces more than arrived ends decoding behind the good
   chunks before it: with an error, or, when its end lies beyond `usize`, with a panic.
   */
  lemma UnfinishedChunk(head: bytes, cs: seq<Chunk>, c: Chunk, n: nat, rest: bytes)
    requires IsChunkedHead(head) && DataChunks(cs) && SizeLine(c, n) && n > |rest|
    requires |head + (Encode(cs) + (c.Line() + CRLF + rest))| <= USIZE_MAX
    ensures Decoded(head + (Encode(cs) + (c.Line() + CRLF + rest))) ==
      Decoding(head + Payload(cs),
        if |head| + |Encode(cs)| + |c.Line()| + 2 + n > USIZE_MAX then Panic
        else Err(InvalidResponse("Incomplete chunked body")))
  {
    hide Decoded, IsChunkedHead, DataChunks, SizeLine, ValidUtf8, NoCrlf, Announces, Encode, Payload;
    SizeLineAnnounces(c, n);
    SizeLineIsText(c, n);
    var start := |head| + |Encode(cs)| + |c.Line()| + 2;
    var status := if start + n > USIZE_MAX then Panic else Err(InvalidResponse("Incomplete chunked body"));
    assert AmountEnds(n, |rest|, start, status);
    DecodedEndsAs(head, cs, c.Line(), rest, status);
  }

  /** Two chunkings of one body decode alike. */
  lemma ChunkingDoesNotMatter(head: bytes, cs1: seq<Chunk>, last1: Chunk, cs2: seq<Chunk>, last2: Chunk)
    requires IsMessage(head, cs1, last1) && IsMessage(head, cs2, last2) && Payload(cs1) == Payload(cs2)
    ensures Decoded(Message(head, cs1, last1)) == Decoded(Message(head, cs2, last2))
  {
    ChunkedRoundTrip(head, cs1, last1);
    ChunkedRoundTrip(head, cs2, last2);
  }

  // ----- Through the reader -----

  /** A chunked message is done from the first end marker on, and that lies behind the head. */
  lemma DoneAtMarker(head: bytes, body: bytes, t: nat)
    requires IsChunkedHead(head) && t <= |head + body|
    ensures var m := Find(head + body, CHUNKED_END_MARKER);
      && (Complete((head + body)[..t]) <==> m.Some? && m.value + 5 <= t)
      && (m.Some? ==> |head| <= m.value + 5)
  {
    hide ChunkedHead;
    var s := head + body;
    HeadStaysChunked(head, body);
    var m := Find(s, CHUNKED_END_MARKER);
    FindInPrefix(s, CHUNKED_END_MARKER, t);
    FindInPrefix(s, DOUBLE_CRLF, t);
    if m.Some? {
      var w := s[m.value..m.value + 5];
      assert w == CHUNKED_END_MARKER;
      assert s[m.value + 1] == w[1] && s[m.value + 2] == w[2] && s[m.value + 3] == w[3] && s[m.value + 4] == w[4];
      assert DoubleCrlfAt(s, m.value + 1);
    }
    if |head| <= t {
      assert s[..t] == head + body[..t - |head|];
      HeadStaysChunked(head, body[..t - |head|]);
    } else if FindDoubleCrlf(s[..t]).Some? {
      assert false;
    }
  }

  /** Reading a message under some schedule, then decoding, delivers exactly head and body. */
  ghost predicate Delivers(events: seq<ReadEvent>, m: bytes, limit: nat, maxRetries: nat, whole: bytes) {
    var r := ClientRead(events, m, limit, maxRetries);
    r.Ok? && r.value <= |m| && Decoded(m[..r.value]) == Decoding(whole, Ok(()))
  }

  lemma {:induction false} NoFaults(m: bytes, limit: nat, t: nat)
    requires t <= |m| && t <= limit
    ensures Pump(Client, [], m, limit, t).faults == 0
    decreases limit - t
  {
    hide Done;
    if t < limit && t < |m| {
      NoFaults(m, limit, Min(|m|, limit));
    }
  }

  /** Without an end marker in the buffer the message never completes, and the reader answers with an error. */
  lemma NeverComplete(head: bytes, cs: seq<Chunk>, last: Chunk, limit: nat)
    requires IsMessage(head, cs, last)
    requires var marker := Find(Message(head, cs, last), CHUNKED_END_MARKER); marker.Some? ==> marker.value + 5 > limit
    ensures ClientAnswer(Message(head, cs, last), limit).Failed?
  {
    hide Find, Complete, IsChunkedHead, Chunked, FindDoubleCrlf;
    var body := Encode(cs) + EncodeLast(last);
    var m := head + body;
    assert m[..|m|] == m;
    DoneAtMarker(head, body, Min(|m|, limit));
    HeadStaysChunked(head, body);
  }

  lemma SingleCut(m: bytes, limit: nat, k: nat)
    requires 0 < k <= |m| && k <= limit && Complete(m[..k])
    ensures Pump(Client, [Segment(k)], m, limit, 0).faults == 0
  {
    hide Complete;
  }

  /** The reader's answer to a chunked message whose first end marker fits. */
  lemma MessageAnswer(head: bytes, cs: seq<Chunk>, last: Chunk, limit: nat)
    requires IsMessage(head, cs, last)
    requires var marker := Find(Message(head, cs, last), CHUNKED_END_MARKER); marker.Some? && marker.value + 5 <= limit
    ensures var m := Message(head, cs, last); var k := Find(m, CHUNKED_END_MARKER).value + 5;
      && ClientAnswer(m, limit) == Arrived(k, Min(|m|, limit))
      && |head| <= k <= |m| && Complete(m[..k]) && k > 0
  {
    hide Find, Complete, IsChunkedHead, Encode, EncodeLast, LeastDone, DataChunks, SizeLine;
    var body := Encode(cs) + EncodeLast(last);
    var m := head + body;
    var k, most := Find(m, CHUNKED_END_MARKER).value + 5, Min(|m|, limit);
    DoneAtMarker(head, body, most);
    DoneAtMarker(head, body, k);
    assert m[..most][..k] == m[..k];
    DoneCoversLeast(Client, m[..most], k);
    var least := LeastDone(Client, m[..most], 0);
    assert m[..most][..least] == m[..least];
    DoneAtMarker(head, body, least);
  }

  /**
   Delivery of chunked messages: under every schedule that leaves retries,
   reading and decoding deliver the whole body, if and only if the message has
   a `0 CRLF CRLF` whose first occurrence, head included, fits the buffer and
   does not end before the last payload byte.
   */
  lemma ChunkedDelivery(head: bytes, cs: seq<Chunk>, last: Chunk, limit: nat, maxRetries: nat)
    requires IsMessage(head, cs, last) && maxRetries > 0
    ensures var m := Message(head, cs, last); var marker := Find(m, CHUNKED_END_MARKER);
      (forall events: seq<ReadEvent> :: Pump(Client, events, m, limit, 0).faults < maxRetries
        ==> Delivers(events, m, limit, maxRetries, head + Payload(cs)))
      <==> marker.Some? && marker.value + 5 <= limit && (cs == [] || marker.value + 5 + 2 >= |head| + |Encode(cs)|)
  {
    hide IsMessage, Pump, Decoded, Complete, Find, Message, ClientRead;
    var m := Message(head, cs, last);
    var marker := Find(m, CHUNKED_END_MARKER);
    if marker.None? || marker.value + 5 > limit {
      NeverComplete(head, cs, last, limit);
      NoFaults(m, limit, 0);
      ClientReadIsSegmentationFree([], m, limit, maxRetries);
      assert !Delivers([], m, limit, maxRetries, head + Payload(cs));
    } else {
      var k := marker.value + 5;
      MessageAnswer(head, cs, last, limit);
      if cs == [] || k + 2 >= |head| + |Encode(cs)| {
        forall events: seq<ReadEvent> | Pump(Client, events, m, limit, 0).faults < maxRetries
          ensures Delivers(events, m, limit, maxRetries, head + Payload(cs))
        {
          ClientReadIsSegmentationFree(events, m, limit, maxRetries);
          DecodedCut(head, cs, last, ClientRead(events, m, limit, maxRetries).value);
        }
      } else {
        EveryArrivalHappens(m, limit, k, maxRetries);
        SingleCut(m, limit, k);
        DecodedCut(head, cs, last, k);
        assert !Delivers([Segment(k)], m, limit, maxRetries, head + Payload(cs));
      }
    }
  }

  /**
   So a head whose last field ends in `0` hides every chunked body behind it:
   the message counts as complete when the head has arrived.
   */
  lemma ZeroAtHeadEnd(head: bytes, cs: seq<Chunk>, last: Chunk, limit: nat, maxRetries: nat)
    requires IsMessage(head, cs, last) && cs != [] && maxRetries > 0
    requires limit >= |head|
    requires |head| >= 5 && head[|head| - 5..] == CHUNKED_END_MARKER
    ensures ClientRead([Segment(|head|)], Message(head, cs, last), limit, maxRetries) == Ok(|head|)
    ensures Decoded(Message(head, cs, last)[..|head|]) == Decoding(head, Ok(()))
    ensures Payload(cs) != []
  {
    hide Complete, Pump, Decoded, IsChunkedHead;
    var m := Message(head, cs, last);
    assert OccursAt(m, CHUNKED_END_MARKER, |head| - 5);
    MessageAnswer(head, cs, last, limit);
    EveryArrivalHappens(m, limit, |head|, maxRetries);
    assert m[..|head|] == head + [];
    HeadStaysChunked(head, []);
    DecodeNothing(|head|);
    assert head + [] == head;
    PayloadOfMore(cs);
  }

  /** Printed heads that list `chunked` are such heads. */
  lemma PrintedHeadIsChunked(first: bytes, hs: seq<Header>)
    requires FirstLine(first) && AllPrintable(hs)
    requires Lookup(Fields([first]), TRANSFER_ENCODING).None?
    requires Lookup(hs, TRANSFER_ENCODING).Some? && ListsChunked(Lookup(hs, TRANSFER_ENCODING).value)
    ensures IsChunkedHead(Head(first, hs))
  {
    hide ChunkedHead, FindDoubleCrlf, FirstLine, AllPrintable, Fields, ListsChunked, HeadText;
    HeadIsFound(first, hs, []);
    assert Head(first, hs) + [] == Head(first, hs);
    PrintedChunked(first, hs);
  }

  /** And one whose last value ends in `0` ends in an end marker. */
  lemma PrintedZero(first: bytes, hs: seq<Header>)
    requires hs != [] && var v := hs[|hs| - 1].value; v != [] && v[|v| - 1] == 48
    ensures var head := Head(first, hs); |head| >= 5 && head[|head| - 5..] == CHUNKED_END_MARKER
  {
    hide JoinLines;
    var lines := [first] + HeaderLines(hs);
    var n := |hs| - 1;
    var line := HeaderLine(hs[n]);
    assert lines == lines[..|lines| - 1] + [line];
    JoinPush(lines[..|lines| - 1], line);
    var head := Head(first, hs);
    assert head == JoinLines(lines[..|lines| - 1]) + line[..|line| - 1] + CHUNKED_END_MARKER by {
      assert line == line[..|line| - 1] + [48];
    }
  }
}
