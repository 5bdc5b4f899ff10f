/** The size line of a chunk (section 7.1 of RFC 9112): what it announces, for every line. */
module ChunkLines {
  import opened Bytes
  import opened Text
  import opened Numbers
  import opened Protocol
  import opened Dechunk

  /** A line: its size text, blanks around it, and an extension that starts with `;`, or nothing. */
  ghost predicate SizeParts(line: bytes, before: bytes, text: bytes, after: bytes, extension: bytes) {
    && line == before + text + after + extension
    && AllBlank(before) && AllBlank(after)
    && Trimmed(text) && IndexOf(text, SEMICOLON).None?
    && (extension == [] || extension[0] == SEMICOLON)
  }

  /** Every line has such parts. */
  lemma LineHasParts(line: bytes) returns (before: bytes, text: bytes, after: bytes, extension: bytes)
    ensures SizeParts(line, before, text, after, extension)
  {
    hide Trim, AllBlank, Trimmed;
    var k := match IndexOf(line, SEMICOLON) case None => |line| case Some(p) => p;
    var front := line[..k];
    extension := line[k..];
    text := Trim(front);
    before, after := TrimSplits(front);
    assert line == front + extension;
    forall i | 0 <= i < |text| ensures text[i] != SEMICOLON {
      assert front[|before| + i] == text[i];
    }
  }

  lemma StartsVisibly(s: bytes)
    requires s != [] && s[0] == SEMICOLON
    ensures BlankEnd(s, 0) == 0
  {
  }

  lemma StartIsSolid(text: bytes, after: bytes, extension: bytes)
    requires AllBlank(after) && Trimmed(text) && extension != [] && extension[0] == SEMICOLON
    ensures BlankEnd(if text == [] then extension else text + after + extension, 0) == 0
  {
    hide SpaceAt, BlankEnd, SpaceBefore;
    if text == [] {
      StartsVisibly(extension);
    } else {
      assert text + after + extension == text + (after + extension);
      if after == [] {
        assert after + extension == extension;
      } else {
        GapComesFirst(after, extension);
      }
      SolidInFront(text, after + extension);
    }
  }

  /** In front of a `;`, trimming the line leaves the size text and the blank behind it. */
  lemma TrimInFront(before: bytes, text: bytes, after: bytes, extension: bytes)
    requires AllBlank(before) && AllBlank(after) && Trimmed(text) && extension != [] && extension[0] == SEMICOLON
    ensures var w := Trim(before + text + after + extension); var x := if text == [] then [] else text + after;
      x + [SEMICOLON] <= w
  {
    hide SpaceAt, SpaceBefore, ContentEnd, BlankEnd;
    var s := before + text + after + extension;
    var front := if text == [] then before + after else before;
    var t := if text == [] then extension else text + after + extension;
    assert s == front + t;
    if text == [] {
      BlankEndSkips(before, after, 0);
    }
    BlankEndSkips(front, t, 0);
    StartIsSolid(text, after, extension);
    assert s[|front|..] == t;
    var m := |t| - |extension| + 1;
    assert t[m - 1] == SEMICOLON;
    ContentEndKeeps(t, |t|, m);
    assert t[..m] == (if text == [] then [] else text + after) + [SEMICOLON];
    assert t[..ContentEnd(t, |t|)][..m] == t[..m];
  }

  lemma NoVisible(s: bytes)
    requires AllBlank(s)
    ensures forall i :: 0 <= i < |s| ==> s[i] != SEMICOLON
  {
    NoLetterInBlank(s, 0);
  }

  /** What the decoder's size parser makes of the parts. */
  lemma PartsParse(line: bytes, before: bytes, text: bytes, after: bytes, extension: bytes)
    requires SizeParts(line, before, text, after, extension) && ValidUtf8(line)
    ensures ChunkSize(line) ==
      match ParseUnsigned(text, 16, USIZE_MAX)
      case None => BadLine(BAD_SIZE)
      case Some(n) => SizeOf(n)
  {
    hide ValidUtf8, Trim, Trimmed, AllBlank, ParseUnsigned;
    NothingIsBlank();
    NoVisible(after);
    if extension == [] {
      assert line == before + text + after;
      TrimOfPadded(before, text, after);
      TrimOfPadded([], text, []);
      assert [] + text + [] == text;
    } else {
      TrimInFront(before, text, after, extension);
      var w, x := Trim(line), if text == [] then [] else text + after;
      assert IndexOf(w, SEMICOLON) == Some(|x|) by {
        assert w[|x|] == SEMICOLON && w[..|x|] == x;
        assert forall i :: 0 <= i < |x| ==> w[i] == x[i] && x[i] != SEMICOLON;
      }
      assert Split(w, SEMICOLON)[0] == x;
      TrimOfPadded([], text, if text == [] then [] else after);
      assert [] + text + (if text == [] then [] else after) == x;
    }
  }

  /** `line` announces a chunk of `n` bytes: text, whose size part is a hexadecimal number. */
  ghost predicate Announces(line: bytes, n: nat) {
    ValidUtf8(line) &&
    exists before, text, after, extension ::
      SizeParts(line, before, text, after, extension) && NumberText(text, 16, n, USIZE_MAX)
  }

  lemma NotText(line: bytes)
    requires !ValidUtf8(line)
    ensures ChunkSize(line) == BadLine(InvalidResponse("Invalid chunk size encoding"))
  {
  }

  /** The size parser accepts exactly the lines that announce a number. */
  lemma AnnouncesExactly(line: bytes, n: nat)
    ensures ChunkSize(line) == SizeOf(n) <==> Announces(line, n)
  {
    hide ValidUtf8, ChunkSize, SizeParts, ParseUnsigned, NumberText;
    if ValidUtf8(line) {
      var before, text, after, extension := LineHasParts(line);
      PartsParse(line, before, text, after, extension);
      ParsesExactly(text, 16, n, USIZE_MAX);
      if Announces(line, n) {
        var a, t, b, e :| SizeParts(line, a, t, b, e) && NumberText(t, 16, n, USIZE_MAX);
        PartsParse(line, a, t, b, e);
        ParsesExactly(t, 16, n, USIZE_MAX);
      }
    } else {
      NotText(line);
    }
  }

  lemma MessagesDiffer()
    ensures "Invalid chunk size" != "Invalid chunk size encoding"
  {
    assert |"Invalid chunk size"| != |"Invalid chunk size encoding"|;
  }

  /** And refuses the others: as an encoding error when they are no text, as a bad size otherwise. */
  lemma RefusesExactly(line: bytes)
    ensures ChunkSize(line) == BadLine(InvalidResponse("Invalid chunk size encoding")) <==> !ValidUtf8(line)
    ensures ChunkSize(line) == BadLine(InvalidResponse("Invalid chunk size"))
      <==> ValidUtf8(line) && forall n: nat :: !Announces(line, n)
  {
    hide ValidUtf8, ParseUnsigned, ChunkSize, Announces;
    if ValidUtf8(line) {
      var before, text, after, extension := LineHasParts(line);
      PartsParse(line, before, text, after, extension);
      MessagesDiffer();
      forall n: nat ensures ChunkSize(line) == SizeOf(n) <==> Announces(line, n) {
        AnnouncesExactly(line, n);
      }
    } else {
      NotText(line);
      MessagesDiffer();
    }
  }
}
