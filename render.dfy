/**
  The terminal renderer `format_response`: every line of the reply becomes one output
  line. A "### " heading is shown bold green; elsewhere each "**" marker is replaced by
  an ANSI escape, alternately bold-on and reset, starting with bold-on.

  The reference behaviour is stated with `SplitMarkers`, which cuts a line at its
  "**" markers (leftmost first, never overlapping), and `Interleave`, which puts a
  separator between consecutive segments: the line itself is its segments joined by
  "**", and its rendering is the same segments joined by the alternating escapes.
 */
module Render {
  import opened RustStr

  const HEADING_PREFIX: string := "### "
  const HEADING_ON: string := "\U{1b}[1;32m"
  const BOLD_ON: string := "\U{1b}[1m"
  const RESET: string := "\U{1b}[0m"
  const MARKER: string := "**"

  /** A "**" match starts at position `q` of `s`. */
  predicate IsMarkerAt(s: string, q: int) {
    0 <= q && q + 1 < |s| && s[q] == '*' && s[q + 1] == '*'
  }

  /**
    `s[from..].match_indices("**")`, as positions of `s`: the leftmost match first,
    and each later search resumes after the end of the previous match.
   */
  function MatchIndicesFrom(s: string, from: nat): (r: seq<nat>)
    requires from <= |s|
    ensures forall k :: 0 <= k < |r| ==> from <= r[k] && IsMarkerAt(s, r[k])
    ensures forall k :: 0 < k < |r| ==> r[k - 1] + 2 <= r[k]
    decreases |s| - from
  {
    if from + 2 > |s| then []
    else if IsMarkerAt(s, from) then [from] + MatchIndicesFrom(s, from + 2)
    else MatchIndicesFrom(s, from + 1)
  }

  /** Every "**" that `match_indices` does not report overlaps the end of one it does. */
  lemma {:induction false} MatchIndicesComplete(s: string, from: nat, q: nat)
    requires from <= q <= |s|
    requires IsMarkerAt(s, q)
    ensures q in MatchIndicesFrom(s, from) || q - 1 in MatchIndicesFrom(s, from)
    decreases |s| - from
  {
    if q > from {
      if IsMarkerAt(s, from) {
        if q > from + 1 {
          MatchIndicesComplete(s, from + 2, q);
        }
      } else {
        MatchIndicesComplete(s, from + 1, q);
      }
    }
  }

  lemma {:induction false} NoMatchInMarkerFree(s: string, from: nat)
    requires from <= |s|
    requires forall q :: from <= q < |s| ==> !IsMarkerAt(s, q)
    ensures MatchIndicesFrom(s, from) == []
    decreases |s| - from
  {
    if from + 2 <= |s| {
      assert !IsMarkerAt(s, from);
      NoMatchInMarkerFree(s, from + 1);
    }
  }

  /** `s.match_indices("**")` */
  function MatchIndices(s: string): (r: seq<nat>)
    ensures forall k :: 0 <= k < |r| ==> IsMarkerAt(s, r[k])
    ensures forall k :: 0 < k < |r| ==> r[k - 1] + 2 <= r[k]
  {
    MatchIndicesFrom(s, 0)
  }

  /** The text between the "**" markers of `s`: one more segment than there are markers. */
  function SplitMarkers(s: string): (segs: seq<string>)
    ensures |segs| >= 1
    ensures |segs[0]| <= |s| && segs[0] == s[..|segs[0]|]
    decreases |s|
  {
    if |s| < 2 then [s]
    else if IsMarkerAt(s, 0) then [""] + SplitMarkers(s[2..])
    else
      var r := SplitMarkers(s[1..]);
      assert [s[0]] + r[0] == s[..1 + |r[0]|];
      [[s[0]] + r[0]] + r[1..]
  }

  /** `segs[0] + seps[0] + segs[1] + seps[1] + ... + segs[|seps|]` */
  function Interleave(segs: seq<string>, seps: seq<string>): string
    requires |segs| == |seps| + 1
  {
    if seps == [] then segs[0] else segs[0] + seps[0] + Interleave(segs[1..], seps[1..])
  }

  function Concat(segs: seq<string>): string {
    if segs == [] then [] else segs[0] + Concat(segs[1..])
  }

  /** `n` copies of the marker. */
  function Markers(n: nat): (ms: seq<string>)
    ensures |ms| == n
  {
    if n == 0 then [] else [MARKER] + Markers(n - 1)
  }

  /** The escape that replaces a marker: reset inside bold text, bold-on outside it. */
  function Escape(isBold: bool): (e: string)
    ensures e == BOLD_ON <==> !isBold
    ensures e == RESET <==> isBold
    ensures |e| == 4 && e[0] == '\U{1b}'
  {
    if isBold then RESET else BOLD_ON
  }

  /** The escapes for the next `n` markers, starting in the given bold state. */
  function Escapes(isBold: bool, n: nat): (es: seq<string>)
    ensures |es| == n
    decreases n
  {
    if n == 0 then [] else [Escape(isBold)] + Escapes(!isBold, n - 1)
  }

  /** The output for one line that `lines()` yields, newline included. */
  function RenderLine(line: string): (out: string)
    ensures |out| > |line| && out[|out| - 1] == '\n'
  {
    if StartsWith(line, HEADING_PREFIX) then
      HEADING_ON + line + RESET + "\n"
    else
      var segs := SplitMarkers(line);
      var k := |segs| - 1;
      SplitRoundTrip(line);
      InterleaveLength(segs, Markers(k));
      InterleaveLength(segs, Escapes(false, k));
      MarkersShape(k);
      EscapesShape(false, k);
      Interleave(segs, Escapes(false, k)) + "\n"
  }

  function RenderLines(ls: seq<string>): (out: string)
    ensures ls == [] <==> out == []
    ensures ls != [] ==> out[|out| - 1] == '\n'
  {
    if ls == [] then [] else RenderLines(ls[..|ls| - 1]) + RenderLine(ls[|ls| - 1])
  }

  /** What `format_response(response)` returns. */
  function Render(response: string): (out: string)
    ensures out == [] <==> response == []
    ensures response != [] ==> out[|out| - 1] == '\n'
  {
    RenderLines(Lines(response))
  }

  // ---------------------------------------------------------------------------------
  // The scanning loop against the reference split

  /** With no match left from `from`, the rest of the line is a single segment. */
  lemma {:induction false} SplitNoMatch(s: string, from: nat)
    requires from <= |s|
    requires MatchIndicesFrom(s, from) == []
    ensures SplitMarkers(s[from..]) == [s[from..]]
    decreases |s| - from
  {
    var t := s[from..];
    if from + 2 <= |s| {
      assert !IsMarkerAt(s, from);
      assert !IsMarkerAt(t, 0);
      assert t[1..] == s[from + 1..];
      SplitNoMatch(s, from + 1);
      assert [s[from]] + s[from + 1..] == t;
    }
  }

  /**
    The first match found from `from` ends the first segment of `s[from..]`, and the
    matches after it are the ones found from its end.
   */
  lemma SplitMatchHere(s: string, from: nat)
    requires from <= |s| && IsMarkerAt(s, from)
    ensures MatchIndicesFrom(s, from) == [from] + MatchIndicesFrom(s, from + 2)
    ensures SplitMarkers(s[from..]) == [s[from..from]] + SplitMarkers(s[from + 2..])
  {
    var t := s[from..];
    assert IsMarkerAt(t, 0);
    assert t[2..] == s[from + 2..];
    assert s[from..from] == [];
  }

  lemma SplitNoMatchHere(s: string, from: nat)
    requires from + 2 <= |s| && !IsMarkerAt(s, from)
    ensures MatchIndicesFrom(s, from) == MatchIndicesFrom(s, from + 1)
    ensures var r := SplitMarkers(s[from + 1..]);
      SplitMarkers(s[from..]) == [[s[from]] + r[0]] + r[1..]
  {
    var t := s[from..];
    assert !IsMarkerAt(t, 0);
    assert t[1..] == s[from + 1..];
  }

  lemma {:induction false} SplitFirstMatch(s: string, from: nat)
    requires from <= |s|
    requires MatchIndicesFrom(s, from) != []
    ensures var i := MatchIndicesFrom(s, from)[0];
      && i + 2 <= |s|
      && MatchIndicesFrom(s, from)[1..] == MatchIndicesFrom(s, i + 2)
      && SplitMarkers(s[from..]) == [s[from..i]] + SplitMarkers(s[i + 2..])
    decreases |s| - from
  {
    if IsMarkerAt(s, from) {
      SplitMatchHere(s, from);
    } else {
      SplitNoMatchHere(s, from);
      SplitFirstMatch(s, from + 1);
      var i := MatchIndicesFrom(s, from + 1)[0];
      var r := SplitMarkers(s[from + 1..]);
      assert r[0] == s[from + 1..i] && r[1..] == SplitMarkers(s[i + 2..]);
      assert [s[from]] + r[0] == s[from..i];
      assert MatchIndicesFrom(s, from)[0] == i;
      assert SplitMarkers(s[from..]) == [s[from..i]] + SplitMarkers(s[i + 2..]);
    }
  }


  /** `SplitMarkers` cuts exactly where `match_indices` reports a match. */
  lemma {:induction false} SplitCount(s: string, from: nat)
    requires from <= |s|
    ensures |SplitMarkers(s[from..])| == |MatchIndicesFrom(s, from)| + 1
    decreases |s| - from
  {
    if MatchIndicesFrom(s, from) == [] {
      SplitNoMatch(s, from);
    } else {
      SplitFirstMatch(s, from);
      SplitCount(s, MatchIndicesFrom(s, from)[0] + 2);
    }
  }

  lemma Regroup(a: string, b: string, c: string, d: string)
    ensures a + b + c + d == a + (b + c + d)
  {
  }

  lemma InterleaveCons(seg: string, rest: seq<string>, sep: string, seps: seq<string>)
    requires |rest| == |seps| + 1
    ensures Interleave([seg] + rest, [sep] + seps) == seg + sep + Interleave(rest, seps)
  {
    assert ([seg] + rest)[1..] == rest;
    assert ([sep] + seps)[1..] == seps;
  }

  /** Emitting the text up to the next match and that match's escape. */
  lemma InterleaveStep(s: string, from: nat, isBold: bool, n: nat)
    requires from <= |s|
    requires MatchIndicesFrom(s, from) != []
    requires |SplitMarkers(s[from..])| == n + 1
    ensures var i := MatchIndicesFrom(s, from)[0];
      && i + 2 <= |s|
      && MatchIndicesFrom(s, from)[1..] == MatchIndicesFrom(s, i + 2)
      && |SplitMarkers(s[i + 2..])| == n
      && Interleave(SplitMarkers(s[from..]), Escapes(isBold, n))
         == s[from..i] + Escape(isBold) + Interleave(SplitMarkers(s[i + 2..]), Escapes(!isBold, n - 1))
  {
    SplitFirstMatch(s, from);
    var i := MatchIndicesFrom(s, from)[0];
    InterleaveCons(s[from..i], SplitMarkers(s[i + 2..]), Escape(isBold), Escapes(!isBold, n - 1));
  }

  /**
    Lines 69-85 of `format_response`: the text of a non-heading line with every
    match of "**" replaced, left to right, by bold-on and reset in turn.
   */
  method ReplaceBold(line: string) returns (result: string)
    ensures var segs := SplitMarkers(line);
      result == Interleave(segs, Escapes(false, |segs| - 1))
  {
    var matches := MatchIndices(line);
    ghost var k := |matches|;
    SplitCount(line, 0);
    assert line[0..] == line;
    ghost var goal := Interleave(SplitMarkers(line), Escapes(false, k));
    result := [];
    var isBold := false;
    var lastPos: nat := 0;
    for t := 0 to |matches|
      invariant lastPos <= |line|
      invariant matches[t..] == MatchIndicesFrom(line, lastPos)
      invariant |SplitMarkers(line[lastPos..])| == k - t + 1
      invariant result + Interleave(SplitMarkers(line[lastPos..]), Escapes(isBold, k - t)) == goal
    {
      var i := matches[t];
      assert matches[t..][0] == i;
      InterleaveStep(line, lastPos, isBold, k - t);
      ghost var before := result;
      ghost var after := Interleave(SplitMarkers(line[i + 2..]), Escapes(!isBold, k - (t + 1)));
      Regroup(before, line[lastPos..i], Escape(isBold), after);
      if isBold {
        result := result + line[lastPos..i];
        result := result + RESET;
      } else {
        result := result + line[lastPos..i];
        result := result + BOLD_ON;
      }
      assert matches[t + 1..] == matches[t..][1..];
      isBold := !isBold;
      lastPos := i + 2;
    }
    SplitNoMatch(line, lastPos);
    result := result + line[lastPos..];
  }

  lemma RenderLinesSnoc(ls: seq<string>, n: nat)
    requires n < |ls|
    ensures RenderLines(ls[..n + 1]) == RenderLines(ls[..n]) + RenderLine(ls[n])
  {
    assert ls[..n + 1][..n] == ls[..n];
  }

  /** A line that is not a heading renders as its bold replacement and "\n". */
  lemma PlainLine(line: string)
    requires !StartsWith(line, HEADING_PREFIX)
    ensures var segs := SplitMarkers(line);
      RenderLine(line) == Interleave(segs, Escapes(false, |segs| - 1)) + "\n"
  {
  }

  /** `format_response`: renders every line of `response` in turn. */
  method FormatResponse(response: string) returns (formatted: string)
    ensures formatted == Render(response)
  {
    formatted := [];
    var lines := Lines(response);
    for n := 0 to |lines|
      invariant formatted == RenderLines(lines[..n])
    {
      var line := lines[n];
      RenderLinesSnoc(lines, n);
      if StartsWith(line, HEADING_PREFIX) {
        HeadingWrapped(line);
        formatted := formatted + (HEADING_ON + line + RESET + "\n");
      } else {
        var result := ReplaceBold(line);
        PlainLine(line);
        AppendAssoc(formatted, result, "\n");
        formatted := formatted + result;
        formatted := formatted + "\n";
      }
    }
    assert lines[..|lines|] == lines;
  }

  // ---------------------------------------------------------------------------------
  // What the rendering of a line means

  /** No "**" occurs anywhere in `s`. */
  predicate MarkerFree(s: string) {
    forall q :: 0 <= q < |s| ==> !IsMarkerAt(s, q)
  }

  /** `s` with every match of "**" (left to right, not overlapping) deleted. */
  function StripMarkers(s: string): string
    decreases |s|
  {
    if |s| < 2 then s
    else if IsMarkerAt(s, 0) then StripMarkers(s[2..])
    else [s[0]] + StripMarkers(s[1..])
  }

  lemma InterleaveHead(c: string, segs: seq<string>, seps: seq<string>)
    requires |segs| == |seps| + 1
    ensures Interleave([c + segs[0]] + segs[1..], seps) == c + Interleave(segs, seps)
  {
    var segs' := [c + segs[0]] + segs[1..];
    assert segs'[1..] == segs[1..];
  }

  /** Joining the segments with "**" gives back the line. */
  lemma {:induction false} SplitRoundTrip(s: string)
    ensures var segs := SplitMarkers(s);
      Interleave(segs, Markers(|segs| - 1)) == s
    decreases |s|
  {
    if |s| >= 2 {
      if IsMarkerAt(s, 0) {
        var r := SplitMarkers(s[2..]);
        SplitRoundTrip(s[2..]);
        InterleaveCons("", r, MARKER, Markers(|r| - 1));
        assert s == MARKER + s[2..];
      } else {
        var r := SplitMarkers(s[1..]);
        SplitRoundTrip(s[1..]);
        InterleaveHead([s[0]], r, Markers(|r| - 1));
        assert s == [s[0]] + s[1..];
      }
    }
  }

  /** No segment contains "**". */
  lemma {:induction false} SegmentsMarkerFree(s: string)
    ensures forall j :: 0 <= j < |SplitMarkers(s)| ==> MarkerFree(SplitMarkers(s)[j])
    decreases |s|
  {
    if |s| >= 2 {
      if IsMarkerAt(s, 0) {
        SegmentsMarkerFree(s[2..]);
        var r := SplitMarkers(s[2..]);
        var segs := [""] + r;
        assert SplitMarkers(s) == segs;
        assert forall j :: 1 <= j < |segs| ==> segs[j] == r[j - 1];
      } else {
        SegmentsMarkerFree(s[1..]);
        var r := SplitMarkers(s[1..]);
        var head := [s[0]] + r[0];
        var segs := [head] + r[1..];
        assert SplitMarkers(s) == segs;
        assert MarkerFree(r[0]);
        forall q | 0 <= q < |head| ensures !IsMarkerAt(head, q) {
          if q == 0 && |head| >= 2 {
            assert head[1] == r[0][0] == s[1];
          } else if q > 0 {
            assert !IsMarkerAt(r[0], q - 1);
          }
        }
        assert forall j :: 1 <= j < |segs| ==> segs[j] == r[j];
      }
    }
  }

  /** The first cut is a match of "**" right after the first segment. */
  lemma {:induction false} FirstCutIsMarker(s: string)
    ensures var segs := SplitMarkers(s);
      |segs| > 1 ==> IsMarkerAt(s, |segs[0]|)
    decreases |s|
  {
    if |s| >= 2 && !IsMarkerAt(s, 0) {
      FirstCutIsMarker(s[1..]);
      var r := SplitMarkers(s[1..]);
      if |r| > 1 {
        assert IsMarkerAt(s[1..], |r[0]|);
      }
    }
  }

  /** A segment that ends at a cut does not end in '*': the cut was the leftmost match. */
  lemma {:induction false} SegmentsBeforeCutsNoStar(s: string)
    ensures forall j :: 0 <= j < |SplitMarkers(s)| - 1 ==>
              SplitMarkers(s)[j] == [] || SplitMarkers(s)[j][|SplitMarkers(s)[j]| - 1] != '*'
    decreases |s|
  {
    if |s| >= 2 {
      if IsMarkerAt(s, 0) {
        SegmentsBeforeCutsNoStar(s[2..]);
        var r := SplitMarkers(s[2..]);
        var segs := [""] + r;
        assert SplitMarkers(s) == segs;
        assert forall j :: 1 <= j < |segs| ==> segs[j] == r[j - 1];
      } else {
        SegmentsBeforeCutsNoStar(s[1..]);
        FirstCutIsMarker(s[1..]);
        var r := SplitMarkers(s[1..]);
        var segs := [[s[0]] + r[0]] + r[1..];
        assert SplitMarkers(s) == segs;
        assert forall j :: 1 <= j < |segs| ==> segs[j] == r[j];
        if |segs| > 1 && r[0] == [] {
          assert IsMarkerAt(s[1..], 0);
        }
      }
    }
  }

  /**
    No segment contains "**", and no segment before a cut ends in '*': together with
    the round trip this says the cuts are the leftmost non-overlapping matches.
   */
  lemma SplitLeftmost(s: string)
    ensures var segs := SplitMarkers(s);
      && (forall j :: 0 <= j < |segs| ==> MarkerFree(segs[j]))
      && (forall j :: 0 <= j < |segs| - 1 ==> segs[j] == [] || segs[j][|segs[j]| - 1] != '*')
      && (|segs| > 1 ==> IsMarkerAt(s, |segs[0]|))
  {
    SegmentsMarkerFree(s);
    SegmentsBeforeCutsNoStar(s);
    FirstCutIsMarker(s);
  }

  /** Without the markers, the segments are the line with its matches deleted. */
  lemma {:induction false} SplitConcat(s: string)
    ensures Concat(SplitMarkers(s)) == StripMarkers(s)
    decreases |s|
  {
    if |s| >= 2 {
      if IsMarkerAt(s, 0) {
        SplitConcat(s[2..]);
        var r := SplitMarkers(s[2..]);
        assert ([""] + r)[1..] == r;
      } else {
        SplitConcat(s[1..]);
        var r := SplitMarkers(s[1..]);
        var segs := [[s[0]] + r[0]] + r[1..];
        assert segs[1..] == r[1..];
        assert Concat(r) == r[0] + Concat(r[1..]);
      }
    }
  }

  /** The escapes alternate, bold-on first. */
  lemma {:induction false} EscapesAlternate(isBold: bool, n: nat, j: nat)
    requires j < n
    ensures Escapes(isBold, n)[j] == Escape(isBold != (j % 2 == 1))
    decreases j
  {
    if j > 0 {
      EscapesAlternate(!isBold, n - 1, j - 1);
    }
  }

  lemma {:induction false} EscapesPrefix(isBold: bool, n: nat, m: nat)
    requires m <= n
    ensures Escapes(isBold, n)[..m] == Escapes(isBold, m)
    decreases m
  {
    if m > 0 {
      EscapesPrefix(!isBold, n - 1, m - 1);
      assert Escapes(isBold, n)[..m] == [Escape(isBold)] + Escapes(!isBold, n - 1)[..m - 1];
    }
  }

  /** The escape for match number `k` (from 1) is bold-on when `k` is odd. */
  lemma KthEscape(k: nat)
    requires k > 0
    ensures Escapes(false, k)[k - 1] == if k % 2 == 1 then BOLD_ON else RESET
  {
    EscapesAlternate(false, k, k - 1);
  }

  lemma {:induction false} InterleaveSnoc(segs: seq<string>, seps: seq<string>)
    requires |segs| == |seps| + 1 && |seps| > 0
    ensures var n := |seps|;
      Interleave(segs, seps) == Interleave(segs[..n], seps[..n - 1]) + seps[n - 1] + segs[n]
    decreases |seps|
  {
    var n := |seps|;
    if n > 1 {
      InterleaveSnoc(segs[1..], seps[1..]);
      assert segs[1..][..n - 1] == segs[..n][1..];
      assert seps[1..][..n - 2] == seps[..n - 1][1..];
    } else {
      assert seps[..0] == [];
    }
  }

  /**
    A line that is not a heading is rendered by putting, in place of its k-th match
    of "**", bold-on for even k and reset for odd k: the segments between the
    matches keep their order and content.
   */
  lemma MarkersBecomeEscapes(line: string)
    requires !StartsWith(line, HEADING_PREFIX)
    ensures var segs := SplitMarkers(line);
      && |segs| == |MatchIndices(line)| + 1
      && line == Interleave(segs, Markers(|segs| - 1))
      && RenderLine(line) == Interleave(segs, Escapes(false, |segs| - 1)) + "\n"
      && (forall j :: 0 <= j < |segs| - 1 ==>
            Escapes(false, |segs| - 1)[j] == if j % 2 == 0 then BOLD_ON else RESET)
      && Concat(segs) == StripMarkers(line)
  {
    var segs := SplitMarkers(line);
    SplitCount(line, 0);
    assert line[0..] == line;
    SplitRoundTrip(line);
    SplitConcat(line);
    forall j | 0 <= j < |segs| - 1
      ensures Escapes(false, |segs| - 1)[j] == if j % 2 == 0 then BOLD_ON else RESET
    {
      EscapesAlternate(false, |segs| - 1, j);
    }
  }

  /**
    The last escape of a line with k > 0 matches is bold-on when k is odd, so the
    text after the last match stays bold up to the newline, and reset when k is even.
   */
  lemma LastEscape(line: string)
    requires !StartsWith(line, HEADING_PREFIX)
    requires |SplitMarkers(line)| > 1
    ensures var segs := SplitMarkers(line);
      var k := |segs| - 1;
      RenderLine(line)
      == Interleave(segs[..k], Escapes(false, k - 1))
         + (if k % 2 == 1 then BOLD_ON else RESET) + segs[k] + "\n"
  {
    var segs := SplitMarkers(line);
    var k := |segs| - 1;
    var es := Escapes(false, k);
    KthEscape(k);
    EscapesPrefix(false, k, k - 1);
    InterleaveSnoc(segs, es);
  }

  lemma {:induction false} InterleaveLength(segs: seq<string>, seps: seq<string>)
    requires |segs| == |seps| + 1
    ensures |Interleave(segs, seps)| == |Concat(segs)| + |Concat(seps)|
    decreases |seps|
  {
    if seps != [] {
      InterleaveLength(segs[1..], seps[1..]);
    }
  }

  lemma {:induction false} InterleaveNewlines(segs: seq<string>, seps: seq<string>)
    requires |segs| == |seps| + 1
    ensures NewlineCount(Interleave(segs, seps)) == NewlineCount(Concat(segs)) + NewlineCount(Concat(seps))
    decreases |seps|
  {
    if seps != [] {
      InterleaveNewlines(segs[1..], seps[1..]);
      NewlineCountAppend(segs[0], seps[0]);
      NewlineCountAppend(segs[0] + seps[0], Interleave(segs[1..], seps[1..]));
      NewlineCountAppend(segs[0], Concat(segs[1..]));
      NewlineCountAppend(seps[0], Concat(seps[1..]));
    } else {
      assert Concat(segs) == segs[0] + [];
      assert segs[0] + [] == segs[0];
    }
  }

  lemma {:induction false} MarkersShape(n: nat)
    ensures |Concat(Markers(n))| == 2 * n
    ensures NewlineCount(Concat(Markers(n))) == 0
  {
    if n > 0 {
      MarkersShape(n - 1);
      NewlineCountAppend(MARKER, Concat(Markers(n - 1)));
      NewlineFree(MARKER);
    }
  }

  lemma {:induction false} EscapesShape(isBold: bool, n: nat)
    ensures |Concat(Escapes(isBold, n))| == 4 * n
    ensures NewlineCount(Concat(Escapes(isBold, n))) == 0
    decreases n
  {
    if n > 0 {
      EscapesShape(!isBold, n - 1);
      NewlineCountAppend(Escape(isBold), Concat(Escapes(!isBold, n - 1)));
      NewlineFree(Escape(isBold));
    }
  }

  /** Each match of "**" grows the line by two characters: a 2-character marker becomes a 4-character escape. */
  lemma RenderedLength(line: string)
    requires !StartsWith(line, HEADING_PREFIX)
    ensures |RenderLine(line)| == |line| + 2 * |MatchIndices(line)| + 1
  {
    var segs := SplitMarkers(line);
    var k := |segs| - 1;
    MarkersBecomeEscapes(line);
    InterleaveLength(segs, Markers(k));
    InterleaveLength(segs, Escapes(false, k));
    MarkersShape(k);
    EscapesShape(false, k);
  }

  /** A line that is not a heading comes out unchanged, plus "\n", exactly when it has no "**". */
  lemma VerbatimIffNoMarker(line: string)
    requires !StartsWith(line, HEADING_PREFIX)
    ensures RenderLine(line) == line + "\n" <==> MarkerFree(line)
  {
    RenderedLength(line);
    if MarkerFree(line) {
      NoMatchInMarkerFree(line, 0);
      SplitNoMatch(line, 0);
      assert line[0..] == line;
    } else {
      var q :| 0 <= q < |line| && IsMarkerAt(line, q);
      MatchIndicesComplete(line, 0, q);
    }
  }

  /** A heading line is wrapped whole, "**" included. */
  lemma HeadingWrapped(line: string)
    requires StartsWith(line, HEADING_PREFIX)
    ensures RenderLine(line) == HEADING_ON + line + RESET + "\n"
    ensures forall q :: IsMarkerAt(line, q) ==> IsMarkerAt(RenderLine(line), q + |HEADING_ON|)
  {
    var out := RenderLine(line);
    forall q | IsMarkerAt(line, q) ensures IsMarkerAt(out, q + |HEADING_ON|) {
      assert out[q + |HEADING_ON|] == line[q];
      assert out[q + 1 + |HEADING_ON|] == line[q + 1];
    }
  }

  /** Each line that `lines()` yields gives exactly one "\n" of output. */
  lemma RenderLineNewline(line: string)
    requires '\n' !in line
    ensures NewlineCount(RenderLine(line)) == 1
  {
    NewlineFree(line);
    NewlineFree("\n"[..0]);
    assert NewlineCount("\n") == 1;
    if StartsWith(line, HEADING_PREFIX) {
      NewlineFree(HEADING_ON);
      NewlineFree(RESET);
      NewlineCountAppend(HEADING_ON, line);
      NewlineCountAppend(HEADING_ON + line, RESET);
      NewlineCountAppend(HEADING_ON + line + RESET, "\n");
    } else {
      var segs := SplitMarkers(line);
      var k := |segs| - 1;
      MarkersBecomeEscapes(line);
      InterleaveNewlines(segs, Markers(k));
      InterleaveNewlines(segs, Escapes(false, k));
      MarkersShape(k);
      EscapesShape(false, k);
      NewlineCountAppend(Interleave(segs, Escapes(false, k)), "\n");
    }
  }

  lemma {:induction false} RenderLinesNewlines(ls: seq<string>)
    requires forall k :: 0 <= k < |ls| ==> '\n' !in ls[k]
    ensures NewlineCount(RenderLines(ls)) == |ls|
    decreases |ls|
  {
    if ls != [] {
      RenderLinesNewlines(ls[..|ls| - 1]);
      RenderLineNewline(ls[|ls| - 1]);
      NewlineCountAppend(RenderLines(ls[..|ls| - 1]), RenderLine(ls[|ls| - 1]));
    }
  }

  /**
    The output holds one "\n" per line that `lines()` yields, hence one per "\n" of
    the input plus one for an unterminated last line; empty input gives empty output.
   */
  lemma RenderNewlines(response: string)
    ensures NewlineCount(Render(response)) == |Lines(response)|
    ensures NewlineCount(Render(response))
            == NewlineCount(response) + (if response != [] && response[|response| - 1] != '\n' then 1 else 0)
    ensures Render(response) == [] <==> response == []
  {
    RenderLinesNewlines(Lines(response));
    LinesCount(response);
  }

  /** A response of one line without a line ending renders as that line. */
  lemma RenderSingleLine(line: string)
    requires line != [] && '\n' !in line
    ensures Render(line) == RenderLine(line)
  {
    assert FindNewline(line) == |line|;
    assert Lines(line) == [line];
    assert [line][..0] == [];
    assert RenderLines([line]) == RenderLines([]) + RenderLine(line);
  }

  /** "### Title" shows as "\x1b[1;32m### Title\x1b[0m\n". */
  lemma HeadingExample(title: string)
    requires '\n' !in title
    ensures Render(HEADING_PREFIX + title) == HEADING_ON + HEADING_PREFIX + title + RESET + "\n"
  {
    var line := HEADING_PREFIX + title;
    assert '\n' !in HEADING_PREFIX;
    assert '\n' !in line;
    RenderSingleLine(line);
    assert line[..|HEADING_PREFIX|] == HEADING_PREFIX;
  }

  /** "****" holds two matches and "***" one: its second and third '*' overlap the first match. */
  lemma MatchExamples()
    ensures MatchIndices("****") == [0, 2]
    ensures IsMarkerAt("***", 1) && MatchIndices("***") == [0]
    ensures SplitMarkers("***") == ["", "*"]
  {
    assert IsMarkerAt("****", 0) && IsMarkerAt("****", 2);
    assert "***"[2..] == "*";
  }

  lemma BoldExampleTail()
    ensures SplitMarkers("b** c") == ["b", " c"]
  {
    assert " c"[1..] == "c" && [' '] + "c" == " c";
    assert SplitMarkers(" c") == [" c"];
    assert "** c"[2..] == " c" && IsMarkerAt("** c", 0);
    assert SplitMarkers("** c") == ["", " c"];
    assert "b** c"[1..] == "** c" && ['b'] + "" == "b" && !IsMarkerAt("b** c", 0);
  }

  /** The segments of "a **b** c": "a ", then the bold "b", then " c". */
  lemma BoldExampleSplit()
    ensures SplitMarkers("a **b** c") == ["a ", "b", " c"]
  {
    var line := "a **b** c";
    BoldExampleTail();
    assert "**b** c"[2..] == "b** c" && IsMarkerAt("**b** c", 0);
    assert SplitMarkers("**b** c") == ["", "b", " c"];
    assert " **b** c"[1..] == "**b** c" && [' '] + "" == " " && !IsMarkerAt(" **b** c", 0);
    assert SplitMarkers(" **b** c") == [" ", "b", " c"];
    assert line[1..] == " **b** c" && ['a'] + " " == "a " && !IsMarkerAt(line, 0);
  }

  lemma InterleaveThree(a: string, b: string, c: string, x: string, y: string)
    ensures Interleave([a, b, c], [x, y]) == a + x + b + y + c
  {
    assert [a, b, c][1..] == [b, c] && [x, y][1..] == [y];
    assert [b, c][1..] == [c] && [y][1..] == [];
    assert Interleave([b, c], [y]) == b + y + c;
    assert a + x + (b + y + c) == a + x + b + y + c;
  }

  lemma BoldExampleParts()
    ensures !StartsWith("a **b** c", HEADING_PREFIX)
    ensures Escapes(false, 2) == [BOLD_ON, RESET]
  {
    assert "a **b** c"[0] != HEADING_PREFIX[0];
  }

  /** "a **b** c" shows "b" in bold and resets before " c". */
  lemma BoldExample()
    ensures RenderLine("a **b** c") == "a " + BOLD_ON + "b" + RESET + " c" + "\n"
  {
    BoldExampleParts();
    BoldExampleSplit();
    InterleaveThree("a ", "b", " c", BOLD_ON, RESET);
  }
}
