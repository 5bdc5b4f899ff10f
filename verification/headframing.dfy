/** How both readers frame a head and what follows it: by the first length field, in whatever case it is written. */
module HeadFraming {
  import opened Bytes
  import opened Text
  import opened Numbers
  import opened Protocol
  import opened Framing
  import opened Heads
  import opened Streams
  import opened Reading
  import opened ChunkedBody

  /** The header list declares the chunked framing. */
  predicate DeclaresChunked(hs: seq<Header>) {
    match Lookup(hs, TRANSFER_ENCODING)
    case None => false
    case Some(v) => ListsChunked(v)
  }

  /** Where the head is, in the first `t` bytes. */
  lemma HeadArrives(first: bytes, hs: seq<Header>, body: bytes, t: nat)
    requires FirstLine(first) && AllPrintable(hs) && t <= |Head(first, hs) + body|
    ensures var head := Head(first, hs); var s := head + body; var d := |HeadText(first, hs)|;
      && |head| == d + 4
      && FindDoubleCrlf(s[..t]) == (if t >= |head| then Some(d) else None)
      && (t >= |head| ==> s[..t][..d + 4] == head && s[..t][..d] == HeadText(first, hs))
  {
    hide FindDoubleCrlf, FirstLine, AllPrintable;
    var head, text := Head(first, hs), HeadText(first, hs);
    var s := head + body;
    HeadIsFound(first, hs, body);
    FindInPrefix(s, DOUBLE_CRLF, t);
    FindIsSearch(s, t);
    if t >= |head| {
      assert s[..t][..|head|] == head;
      assert s[..t][..|text|] == text;
    }
  }

  /** The request reader frames a printed head and its body by the length printed. */
  lemma RequestFramesByFields(first: bytes, hs: seq<Header>, body: bytes, t: nat)
    requires FirstLine(first) && Lookup(Fields([first]), CONTENT_LENGTH).None? && AllPrintable(hs)
    requires t <= |Head(first, hs) + body|
    ensures RequestComplete((Head(first, hs) + body)[..t])
      <==> t >= |Head(first, hs)| + match LengthField(hs) case None => 0 case Some(n) => n
  {
    hide FindDoubleCrlf, FirstLine, AllPrintable, ContentLength, Head, HeadText, LengthField, Fields, Lookup;
    HeadArrives(first, hs, body, t);
    PrintedContentLength(first, hs);
  }

  /** The response reader frames them by the codings and the length printed. */
  lemma ResponseFramesByFields(first: bytes, hs: seq<Header>, body: bytes, t: nat)
    requires FirstLine(first) && AllPrintable(hs) && t <= |Head(first, hs) + body|
    requires Lookup(Fields([first]), CONTENT_LENGTH).None? && Lookup(Fields([first]), TRANSFER_ENCODING).None?
    ensures var got, size := (Head(first, hs) + body)[..t], |Head(first, hs)|;
      && (Chunked(got) <==> t >= size && DeclaresChunked(hs))
      && (!DeclaresChunked(hs) ==>
          && (Complete(got) <==> LengthField(hs).Some? && t >= size + LengthField(hs).value)
          && (DeclaresLength(got) <==> LengthField(hs).Some? && t >= size))
  {
    hide FindDoubleCrlf, FirstLine, AllPrintable, ContentLength, ChunkedHead, Head, HeadText, LengthField, Fields,
      Lookup, ListsChunked;
    HeadArrives(first, hs, body, t);
    PrintedContentLength(first, hs);
    PrintedChunked(first, hs);
    var got := (Head(first, hs) + body)[..t];
    if t >= |Head(first, hs)| {
      ContentLengthOfWholeHead(got, |HeadText(first, hs)|);
    }
  }

  // ----- Fields in any case -----

  lemma SingleLookup(h: Header, name: bytes)
    requires EqIgnoreCase(h.name, name)
    ensures Lookup([h], name) == Some(h.value)
  {
  }

  /** A name is found in whatever case it is written, if no earlier header has it. */
  lemma FoundInAnyCase(pre: seq<Header>, name: bytes, upper: seq<bool>, value: bytes, post: seq<Header>)
    requires |upper| == |name| && Lookup(pre, name).None?
    ensures Lookup(pre + [Header(Recase(name, upper), value)] + post, name) == Some(value)
  {
    hide EqIgnoreCase, Recase, Lookup;
    var h := Header(Recase(name, upper), value);
    RecaseIsSame(name, upper);
    SingleLookup(h, name);
    LookupAppend(pre + [h], post, name);
    LookupAppend(pre, [h], name);
  }

  /** A name the framing knows, as literal text. */
  lemma NamesInAnyCase()
    ensures EqIgnoreCase(CONTENT_LENGTH, Ascii("content-length"))
    ensures EqIgnoreCase(TRANSFER_ENCODING, Ascii("transfer-encoding"))
  {
  }

  lemma SameForBoth(name: bytes, a: bytes, b: bytes)
    requires EqIgnoreCase(a, b)
    ensures EqIgnoreCase(name, a) <==> EqIgnoreCase(name, b)
  {
  }

  lemma {:induction false} LookupOfSame(hs: seq<Header>, a: bytes, b: bytes)
    requires EqIgnoreCase(a, b)
    ensures Lookup(hs, a) == Lookup(hs, b)
  {
    if hs != [] {
      SameForBoth(hs[0].name, a, b);
      LookupOfSame(hs[1..], a, b);
    }
  }

  /** The first field called `content-length`, in any case, gives the length if its value is a number text. */
  lemma LengthInAnyCase(pre: seq<Header>, upper: seq<bool>, value: bytes, post: seq<Header>)
    requires |upper| == |Ascii("content-length")| && Lookup(pre, Ascii("content-length")).None?
    ensures var hs := pre + [Header(Recase(Ascii("content-length"), upper), value)] + post;
      && (forall n: nat :: LengthField(hs) == Some(n) <==> NumberText(value, 10, n, USIZE_MAX))
  {
    hide EqIgnoreCase, Recase, Lookup, NumberText, ParseUnsigned, CONTENT_LENGTH, Ascii;
    var hs := pre + [Header(Recase(Ascii("content-length"), upper), value)] + post;
    FoundInAnyCase(pre, Ascii("content-length"), upper, value, post);
    NamesInAnyCase();
    LookupOfSame(hs, CONTENT_LENGTH, Ascii("content-length"));
    forall n: nat ensures LengthField(hs) == Some(n) <==> NumberText(value, 10, n, USIZE_MAX) {
      ParsesExactly(value, 10, n, USIZE_MAX);
    }
  }

  /** The first field called `transfer-encoding` declares chunked framing if it lists `chunked`, both in any case. */
  lemma ChunkedInAnyCase(pre: seq<Header>, upper: seq<bool>, cs: seq<Coding>, i: nat, upper': seq<bool>,
                         post: seq<Header>)
    requires |upper| == |Ascii("transfer-encoding")| && Lookup(pre, Ascii("transfer-encoding")).None?
    requires cs != [] && forall k :: 0 <= k < |cs| ==> GoodCoding(cs[k])
    requires i < |cs| && |upper'| == |Ascii("chunked")| && cs[i].name == Recase(Ascii("chunked"), upper')
    ensures DeclaresChunked(pre + [Header(Recase(Ascii("transfer-encoding"), upper), CodingList(cs))] + post)
  {
    hide EqIgnoreCase, Recase, Lookup, ListsChunked, CodingList, GoodCoding, TRANSFER_ENCODING, Ascii;
    var hs := pre + [Header(Recase(Ascii("transfer-encoding"), upper), CodingList(cs))] + post;
    FoundInAnyCase(pre, Ascii("transfer-encoding"), upper, CodingList(cs), post);
    NamesInAnyCase();
    LookupOfSame(hs, TRANSFER_ENCODING, Ascii("transfer-encoding"));
    RecaseIsSame(Ascii("chunked"), upper');
    ListsChunkedExactly(cs);
  }

  // ----- What the readers answer -----

  /** The request reader fails with `TcpError` exactly when it meets a read error. */
  lemma ServerFailsExactly(events: seq<ReadEvent>, s: bytes, limit: nat)
    ensures ServerRead(events, s, limit) == Err(TcpError) <==> Pump(Server, events, s, limit, 0).faults > 0
  {
    hide RequestComplete, Pump;
  }

  /** The request reader on any printed head: with a declared length it waits for that many bytes, else for none. */
  lemma ServerReadsByFields(first: bytes, hs: seq<Header>, body: bytes, events: seq<ReadEvent>, limit: nat)
    requires FirstLine(first) && Lookup(Fields([first]), CONTENT_LENGTH).None? && AllPrintable(hs)
    requires Pump(Server, events, Head(first, hs) + body, limit, 0).faults == 0
    ensures var s := Head(first, hs) + body; var r := ServerRead(events, s, limit);
      var whole := |Head(first, hs)| + match LengthField(hs) case None => 0 case Some(n) => n;
      if whole <= |s| && whole <= limit then r.Ok? && whole <= r.value <= Min(|s|, limit)
      else r == Err(if |s| >= limit then BufferOverflow else InvalidResponse("Incomplete request"))
  {
    hide FirstLine, AllPrintable, Head, LengthField, Fields, Lookup, RequestComplete, Pump, ServerRead;
    var s := Head(first, hs) + body;
    ServerReadIsSegmentationFree(events, s, limit);
    RequestFramesByFields(first, hs, body, Min(|s|, limit));
    var r := ServerRead(events, s, limit);
    if r.Ok? {
      RequestFramesByFields(first, hs, body, r.value);
    }
  }

  /** The response reader on any printed head that is not chunked. */
  lemma ClientReadsByFields(first: bytes, hs: seq<Header>, body: bytes,
                            events: seq<ReadEvent>, limit: nat, maxRetries: nat)
    requires FirstLine(first) && AllPrintable(hs) && !DeclaresChunked(hs) && limit > 0
    requires Lookup(Fields([first]), CONTENT_LENGTH).None? && Lookup(Fields([first]), TRANSFER_ENCODING).None?
    requires Pump(Client, events, Head(first, hs) + body, limit, 0).faults < maxRetries
    ensures var s := Head(first, hs) + body; var r := ClientRead(events, s, limit, maxRetries);
      match LengthField(hs)
      case None => r == if |s| < limit then Ok(|s|) else Err(BufferOverflow)
      case Some(n) =>
        var whole := |Head(first, hs)| + n;
        if whole <= |s| && whole <= limit then r.Ok? && whole <= r.value <= Min(|s|, limit)
        else r == Err(if |s| >= limit then BufferOverflow else InvalidResponse("Incomplete response body"))
  {
    hide FirstLine, AllPrintable, Head, LengthField, Fields, Lookup, Complete, DeclaresLength, Pump, ClientRead,
      DeclaresChunked, Chunked;
    var s := Head(first, hs) + body;
    HeadArrives(first, hs, body, |s|);
    ClientReadIsSegmentationFree(events, s, limit, maxRetries);
    var most := Min(|s|, limit);
    assert s[..|s|] == s;
    ResponseFramesByFields(first, hs, body, most);
    ResponseFramesByFields(first, hs, body, |s|);
    var r := ClientRead(events, s, limit, maxRetries);
    if r.Ok? {
      ResponseFramesByFields(first, hs, body, r.value);
    }
  }

  /** The response reader on any chunked head: it waits for the first end marker. */
  lemma ClientReadsChunked(head: bytes, body: bytes, events: seq<ReadEvent>, limit: nat, maxRetries: nat)
    requires IsChunkedHead(head) && limit > 0
    requires Pump(Client, events, head + body, limit, 0).faults < maxRetries
    ensures var s := head + body; var r := ClientRead(events, s, limit, maxRetries);
      var marker := Find(s, CHUNKED_END_MARKER);
      if marker.Some? && marker.value + 5 <= limit then r.Ok? && marker.value + 5 <= r.value <= Min(|s|, limit)
      else r == Err(if |s| >= limit then BufferOverflow else InvalidResponse("Incomplete response body"))
  {
    hide Complete, Chunked, Pump, ClientRead, IsChunkedHead, Find, FindDoubleCrlf, ContentLength;
    var s := head + body;
    ClientReadIsSegmentationFree(events, s, limit, maxRetries);
    DoneAtMarker(head, body, Min(|s|, limit));
    HeadStaysChunked(head, body);
    assert s[..|s|] == s;
    var r := ClientRead(events, s, limit, maxRetries);
    if r.Ok? {
      DoneAtMarker(head, body, r.value);
    }
  }

  /** Without bytes or without room there is no response, and none without a retry budget. */
  lemma NothingIsRead(events: seq<ReadEvent>, s: bytes, limit: nat, maxRetries: nat)
    ensures Pump(Client, events, s, limit, 0).faults < maxRetries
      ==> (ClientRead(events, s, limit, maxRetries) == Err(NoResponse) <==> s == [] || limit == 0)
    ensures ClientRead(events, s, limit, 0) == Err(NoResponse)
  {
    hide Complete, DeclaresLength, Pump;
    if Pump(Client, events, s, limit, 0).faults < maxRetries {
      hide ClientRead;
      ClientReadIsSegmentationFree(events, s, limit, maxRetries);
    }
  }

  /** A head that is no text declares nothing: a request is complete with it, a response ends with the stream. */
  lemma GarbledHeadDeclaresNothing(data: bytes, d: nat)
    requires FindDoubleCrlf(data) == Some(d) && !ValidUtf8(data[..d])
    ensures RequestComplete(data) && !Chunked(data) && !Complete(data) && !DeclaresLength(data)
  {
    hide FindDoubleCrlf, ValidUtf8, FindHeaderValue;
    assert data[..d + 4] == data[..d] + DOUBLE_CRLF;
    if ValidUtf8(data[..d + 4]) {
      ValidUtf8Cut(data[..d], DOUBLE_CRLF);
    }
  }

  /** Without the end of a head nothing is complete, and the stream may end as it likes. */
  lemma NoHeadNothingComplete(data: bytes)
    requires FindDoubleCrlf(data).None?
    ensures !RequestComplete(data) && !Complete(data) && !DeclaresLength(data)
  {
  }
}
