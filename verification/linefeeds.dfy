/**
 The two ways of cutting a head into lines: the reader cuts at CRLF, the parser
 also at a bare line feed.
 */
module LineFeeds {
  import opened Bytes
  import opened Protocol
  import opened Requests

  predicate NoLf(s: bytes) {
    forall i :: 0 <= i < |s| ==> s[i] != LF
  }

  /** Every line feed follows a carriage return. */
  predicate NoBareLf(s: bytes) {
    forall i :: 0 <= i < |s| && s[i] == LF ==> i > 0 && s[i - 1] == CR
  }

  lemma FirstCrlf(s: bytes, q: nat)
    requires CrlfAt(s, q) && forall j :: 0 <= j <= q ==> s[j] != LF
    ensures FindCrlf(s) == Some(q)
  {
    var r := FindCrlf(s);
    assert r.Some? && r.value <= q;
  }

  /** Behind a line that ends in CRLF, the line feeds that are bare are those of the rest. */
  lemma BareLfBehind(s: bytes, p: nat)
    requires 0 < p < |s| && s[p] == LF && s[p - 1] == CR && forall j :: 0 <= j < p ==> s[j] != LF
    ensures NoBareLf(s) <==> NoBareLf(s[p + 1..])
  {
    var more := s[p + 1..];
    assert forall i :: 0 <= i < |more| ==> more[i] == s[p + 1 + i];
    if NoBareLf(s) {
      forall i | 0 <= i < |more| && more[i] == LF ensures i > 0 && more[i - 1] == CR {
        assert s[p + 1 + i] == LF;
      }
    }
    if NoBareLf(more) {
      forall i | 0 <= i < |s| && s[i] == LF ensures i > 0 && s[i - 1] == CR {
        if i > p {
          assert more[i - p - 1] == LF;
        }
      }
    }
  }

  /** A bare line feed ends a line of `lines()` before any CRLF does. */
  lemma BareLfCutsFirst(s: bytes, p: nat)
    requires p < |s| && s[p] == LF && (p == 0 || s[p - 1] != CR) && forall j :: 0 <= j < p ==> s[j] != LF
    ensures TextLines(s) != SplitLines(s)
  {
    hide FindCrlf;
    assert IndexOf(s, LF) == Some(p);
    assert |TextLines(s)[0]| <= p < |SplitLines(s)[0]| by {
      match FindCrlf(s) {
        case None =>
        case Some(q) => assert s[q + 1] == LF && s[q] == CR;
      }
    }
  }

  lemma NoLfNoBareLf(s: bytes)
    requires IndexOf(s, LF).None?
    ensures NoBareLf(s) && SplitLines(s) == [s] && TextLines(s) == (if s == [] then [] else [s])
    ensures s != [] ==> s[|s| - 1] != LF
  {
  }

  /** A first line that ends in CRLF is cut off by both. */
  lemma FirstLineAgrees(s: bytes, p: nat)
    requires IndexOf(s, LF) == Some(p) && p > 0 && s[p - 1] == CR
    ensures TextLines(s) == [s[..p - 1]] + TextLines(s[p + 1..])
    ensures SplitLines(s) == [s[..p - 1]] + SplitLines(s[p + 1..])
  {
    hide FindCrlf;
    assert CrlfAt(s, p - 1);
    FirstCrlf(s, p - 1);
    assert s[..p][p - 1] == CR && s[..p][..p - 1] == s[..p - 1];
  }

  lemma SameTail(a: bytes, x: seq<bytes>, y: seq<bytes>)
    ensures [a] + x == [a] + y <==> x == y
  {
    assert ([a] + x)[1..] == x && ([a] + y)[1..] == y;
  }

  lemma BareLfIsBare(s: bytes, p: nat)
    requires p < |s| && s[p] == LF && (p == 0 || s[p - 1] != CR)
    ensures !NoBareLf(s)
  {
  }

  /** `lines()` and `split("\r\n")` cut alike exactly when no line feed is bare or last. */
  lemma {:induction false} LinesAgree(s: bytes)
    ensures TextLines(s) == SplitLines(s) <==> s != [] && s[|s| - 1] != LF && NoBareLf(s)
    decreases |s|
  {
    hide FindCrlf, IndexOf, NoBareLf, TextLines, SplitLines;
    match IndexOf(s, LF) {
      case None =>
        NoLfNoBareLf(s);
      case Some(p) =>
        if p > 0 && s[p - 1] == CR {
          var more := s[p + 1..];
          FirstLineAgrees(s, p);
          BareLfBehind(s, p);
          LinesAgree(more);
          SameTail(s[..p - 1], TextLines(more), SplitLines(more));
          assert more != [] ==> more[|more| - 1] == s[|s| - 1];
        } else {
          BareLfCutsFirst(s, p);
          assert !NoBareLf(s) by {
            BareLfIsBare(s, p);
          }
        }
    }
  }

  // ----- A head cut by a bare line feed -----

  /** What stands in front of the first bare line feed of some text. */
  predicate InFrontOfBareLf(p: bytes) {
    NoBareLf(p) && (p == [] || p[|p| - 1] != CR)
  }

  /** The lines that CRLF has completed in `p`. */
  function FinishedLines(p: bytes): seq<bytes> {
    SplitLines(p)[..|SplitLines(p)| - 1]
  }

  /** The line that is still open at the end of `p`. */
  function OpenLine(p: bytes): bytes {
    SplitLines(p)[|SplitLines(p)| - 1]
  }

  lemma FrontLines(p: bytes)
    ensures SplitLines(p) == FinishedLines(p) + [OpenLine(p)]
  {
  }

  lemma FirstTextLine(p: bytes, rest: bytes)
    requires IndexOf(p, LF).None? && (p == [] || p[|p| - 1] != CR)
    ensures TextLines(p + [LF] + rest) == [p] + TextLines(rest)
  {
    var s := p + [LF] + rest;
    assert s[|p|] == LF && forall i :: 0 <= i < |p| ==> s[i] == p[i];
    assert IndexOf(s, LF) == Some(|p|);
    assert s[..|p|] == p && s[|p| + 1..] == rest;
  }

  lemma CrBeforeLf(p: bytes, k: nat)
    requires NoBareLf(p) && k < |p| && p[k] == LF
    ensures k > 0 && p[k - 1] == CR
  {
  }

  lemma FirstLfInFront(p: bytes, t: bytes, k: nat)
    requires IndexOf(p, LF) == Some(k)
    ensures IndexOf(p + t, LF) == Some(k) && forall i :: 0 <= i <= k ==> (p + t)[i] == p[i]
  {
    assert (p + t)[k] == LF && forall i :: 0 <= i < k ==> (p + t)[i] == p[i];
  }

  /** The parser completes the open line at the bare line feed. */
  lemma {:induction false} TextLinesAcross(p: bytes, rest: bytes)
    requires InFrontOfBareLf(p)
    ensures TextLines(p + [LF] + rest) == SplitLines(p) + TextLines(rest)
    decreases |p|
  {
    hide FindCrlf, IndexOf, NoBareLf, TextLines, SplitLines;
    var s := p + [LF] + rest;
    match IndexOf(p, LF) {
      case None =>
        NoLfNoBareLf(p);
        FirstTextLine(p, rest);
      case Some(k) =>
        CrBeforeLf(p, k);
        var more := p[k + 1..];
        FirstLfInFront(p, [LF] + rest, k);
        assert s == p + ([LF] + rest);
        assert s[..k - 1] == p[..k - 1] && s[k + 1..] == more + [LF] + rest;
        FirstLineAgrees(s, k);
        FirstLineAgrees(p, k);
        BareLfBehind(p, k);
        assert more != [] ==> more[|more| - 1] == p[|p| - 1];
        TextLinesAcross(more, rest);
    }
  }

  /** The open line is the end of the text, and holds no CRLF. */
  lemma {:induction false} OpenLineIsEnd(p: bytes)
    ensures |OpenLine(p)| <= |p| && p[|p| - |OpenLine(p)|..] == OpenLine(p) && NoCrlf(OpenLine(p))
    decreases |p|
  {
    match FindCrlf(p) {
      case None =>
      case Some(k) =>
        OpenLineIsEnd(p[k + 2..]);
        assert OpenLine(p) == OpenLine(p[k + 2..]);
    }
  }

  /** Finished lines stay; the open one goes on. */
  lemma {:induction false} SplitAcross(p: bytes, t: bytes)
    ensures SplitLines(p + t) == FinishedLines(p) + SplitLines(OpenLine(p) + t)
    decreases |p|
  {
    hide FindCrlf, SplitLines;
    SplitOnce(p);
    match FindCrlf(p) {
      case None =>
        assert FinishedLines(p) == [] && OpenLine(p) == p;
      case Some(k) =>
        var more := p[k + 2..];
        FindCrlfInFront(p, t);
        SplitOnce(p + t);
        assert (p + t)[..k] == p[..k] && (p + t)[k + 2..] == more + t;
        SplitAcross(more, t);
        assert FinishedLines(p) == [p[..k]] + FinishedLines(more) && OpenLine(p) == OpenLine(more);
    }
  }

  lemma FindCrlfBehind(l: bytes, t: bytes)
    requires NoCrlf(l) && (l == [] || l[|l| - 1] != CR)
    ensures FindCrlf(l + [LF] + t) == match FindCrlf(t) case None => None case Some(k) => Some(|l| + 1 + k)
  {
    var s, n := l + [LF] + t, |l| + 1;
    assert s[n..] == t;
    forall i: nat | CrlfAt(s, i) ensures n <= i && CrlfAt(t, i - n) {
      assert i + 1 < |l| ==> CrlfAt(l, i);
    }
    if FindCrlf(t).Some? {
      assert CrlfAt(s, n + FindCrlf(t).value);
    }
  }

  /** A bare line feed does not end a line for the reader. */
  lemma OpenLineGoesOn(l: bytes, t: bytes)
    requires NoCrlf(l) && (l == [] || l[|l| - 1] != CR)
    ensures SplitLines(l + [LF] + t) == [l + [LF] + SplitLines(t)[0]] + SplitLines(t)[1..]
  {
    hide FindCrlf, SplitLines;
    var s, n := l + [LF] + t, |l| + 1;
    FindCrlfBehind(l, t);
    SplitOnce(s);
    SplitOnce(t);
    if FindCrlf(t).Some? {
      var k := FindCrlf(t).value;
      assert s[..n + k] == l + [LF] + t[..k] && s[n + k + 2..] == t[k + 2..];
    }
  }

  /** The lines of the reader across the bare line feed. */
  lemma SplitLinesAcross(p: bytes, rest: bytes)
    requires InFrontOfBareLf(p)
    ensures SplitLines(p + [LF] + rest)
      == FinishedLines(p) + ([OpenLine(p) + [LF] + SplitLines(rest)[0]] + SplitLines(rest)[1..])
  {
    hide FindCrlf, NoBareLf, NoCrlf, SplitLines;
    OpenLineIsEnd(p);
    assert OpenLine(p) != [] ==> OpenLine(p)[|OpenLine(p)| - 1] == p[|p| - 1];
    assert p + [LF] + rest == p + ([LF] + rest);
    SplitAcross(p, [LF] + rest);
    assert OpenLine(p) + ([LF] + rest) == OpenLine(p) + [LF] + rest;
    OpenLineGoesOn(OpenLine(p), rest);
  }
}
