/**
  The few operations on Rust string slices (`str`) that the chat client relies on:
  `starts_with`, `trim` and `lines` are stated here as functions
  over `seq<char>`, following the behaviour documented for the Rust standard library.
  Indices are character positions: every pattern involved is ASCII, so byte offsets
  and character positions pick out the same slices.
 */
module RustStr {

  /** `s.starts_with(prefix)` */
  predicate StartsWith(s: string, prefix: string)
    ensures StartsWith(s, prefix) <==> |prefix| <= |s| && s == prefix + s[|prefix|..]
  {
    |prefix| <= |s| && s[..|prefix|] == prefix
  }

  /** `char::is_whitespace`: the Unicode White_Space property, which `str::trim` uses. */
  predicate IsWhitespace(c: char) {
    || ('\t' <= c <= '\r')
    || c == ' '
    || c == '\U{0085}'
    || c == '\U{00A0}'
    || c == '\U{1680}'
    || ('\U{2000}' <= c <= '\U{200A}')
    || c == '\U{2028}'
    || c == '\U{2029}'
    || c == '\U{202F}'
    || c == '\U{205F}'
    || c == '\U{3000}'
  }

  predicate AllWhitespace(s: string) {
    forall i :: 0 <= i < |s| ==> IsWhitespace(s[i])
  }

  /** `s.trim_start()`: drops the longest all-whitespace prefix. */
  function TrimStart(s: string): (r: string)
    ensures |r| <= |s| && r == s[|s| - |r|..]
    ensures AllWhitespace(s[..|s| - |r|])
    ensures r == [] || !IsWhitespace(r[0])
  {
    if s != [] && IsWhitespace(s[0]) then
      var r := TrimStart(s[1..]);
      assert s[..|s| - |r|] == [s[0]] + s[1..][..|s[1..]| - |r|];
      r
    else
      s
  }

  /** `s.trim_end()`: drops the longest all-whitespace suffix. */
  function TrimEnd(s: string): (r: string)
    ensures |r| <= |s| && r == s[..|r|]
    ensures AllWhitespace(s[|r|..])
    ensures r == [] || !IsWhitespace(r[|r| - 1])
  {
    if s != [] && IsWhitespace(s[|s| - 1]) then
      var r := TrimEnd(s[..|s| - 1]);
      assert s[|r|..] == s[..|s| - 1][|r|..] + [s[|s| - 1]];
      r
    else
      s
  }

  /** `s.trim()`: a piece of `s` that neither starts nor ends with whitespace. */
  function Trim(s: string): (r: string)
    ensures |r| <= |s|
    ensures r == [] <==> AllWhitespace(s)
    ensures r == [] || (!IsWhitespace(r[0]) && !IsWhitespace(r[|r| - 1]))
  {
    TrimEnd(TrimStart(s))
  }

  /** Position of the first '\n' in `s`, or `|s|` when there is none. */
  function FindNewline(s: string): (i: nat)
    ensures i <= |s|
    ensures i < |s| ==> s[i] == '\n'
    ensures forall j :: 0 <= j < i ==> s[j] != '\n'
  {
    if s == [] || s[0] == '\n' then 0 else 1 + FindNewline(s[1..])
  }

  /** Drops one trailing '\r' (the CR of a CRLF line ending). */
  function StripCr(line: string): (r: string)
    ensures r == line || (line == r + "\r")
    ensures line == r + "\r" <==> (line != [] && line[|line| - 1] == '\r')
  {
    if line != [] && line[|line| - 1] == '\r' then line[..|line| - 1] else line
  }

  /**
    `s.lines()`: the pieces of `s` between line endings. A line ending is "\n" or
    "\r\n"; the last line ending is optional, so a trailing newline does not yield a
    final empty line, and the empty string has no lines at all. A '\r' that is not
    followed by '\n' stays part of its line.
   */
  function Lines(s: string): (ls: seq<string>)
    ensures forall k :: 0 <= k < |ls| ==> '\n' !in ls[k]
    ensures ls == [] <==> s == []
    decreases |s|
  {
    if s == [] then []
    else
      var i := FindNewline(s);
      if i == |s| then [s]
      else
        assert forall c :: c in s[..i] ==> c != '\n';
        [StripCr(s[..i])] + Lines(s[i + 1..])
  }

  /** Every line back with a "\n" after it: what `lines()` reads, up to CRLF. */
  function Unlines(ls: seq<string>): string {
    if ls == [] then [] else ls[0] + "\n" + Unlines(ls[1..])
  }

  /** Number of '\n' characters in `s`. */
  function NewlineCount(s: string): nat {
    if s == [] then 0 else (if s[0] == '\n' then 1 else 0) + NewlineCount(s[1..])
  }

  lemma {:induction false} NewlineFree(s: string)
    requires '\n' !in s
    ensures NewlineCount(s) == 0
  {
    if s != [] {
      assert s[0] != '\n';
      NewlineFree(s[1..]);
    }
  }

  lemma {:induction false} NewlineCountAppend(a: string, b: string)
    ensures NewlineCount(a + b) == NewlineCount(a) + NewlineCount(b)
  {
    if a != [] {
      assert (a + b)[1..] == a[1..] + b;
      NewlineCountAppend(a[1..], b);
    } else {
      assert a + b == b;
    }
  }

  /** One step of `lines()`: the text before the first '\n' (less a '\r' just before it). */
  lemma LinesStep(s: string, i: nat)
    requires i == FindNewline(s) < |s|
    ensures Lines(s) == [StripCr(s[..i])] + Lines(s[i + 1..])
  {
  }

  /** A "\r\n" ending is removed whole: the line before it keeps no '\r'. */
  lemma LinesCrlf(a: string, b: string)
    requires '\n' !in a
    ensures Lines(a + "\r\n" + b) == [a] + Lines(b)
  {
    var s := a + "\r\n" + b;
    var i := |a| + 1;
    assert s[..|a|] == a && s[|a|] == '\r' && s[i] == '\n';
    assert forall j :: 0 <= j < i ==> s[j] != '\n';
    assert FindNewline(s) == i;
    assert s[..i] == a + "\r" && s[i + 1..] == b;
    LinesStep(s, i);
  }

  /** The first '\n' of `s` is one of its newlines; the rest are after it. */
  lemma {:induction false} NewlineCountFirst(s: string)
    requires FindNewline(s) < |s|
    ensures NewlineCount(s) == 1 + NewlineCount(s[FindNewline(s) + 1..])
  {
    if s[0] != '\n' {
      NewlineCountFirst(s[1..]);
      assert s[1..][FindNewline(s[1..]) + 1..] == s[FindNewline(s) + 1..];
    }
  }

  /** One line per '\n', plus one for a final line that has no line ending. */
  lemma {:induction false} LinesCount(s: string)
    ensures |Lines(s)| == NewlineCount(s) + (if s != [] && s[|s| - 1] != '\n' then 1 else 0)
    decreases |s|
  {
    if s != [] {
      var i := FindNewline(s);
      if i == |s| {
        NewlineFree(s);
      } else {
        var rest := s[i + 1..];
        LinesStep(s, i);
        assert |Lines(s)| == 1 + |Lines(rest)|;
        LinesCount(rest);
        NewlineCountFirst(s);
        if rest != [] {
          assert rest[|rest| - 1] == s[|s| - 1];
        }
      }
    }
  }

  /** No "\r\n" line ending occurs in `s`. */
  predicate NoCrlf(s: string) {
    forall i :: 0 < i < |s| && s[i] == '\n' ==> s[i - 1] != '\r'
  }

  lemma NoCrlfSuffix(s: string, j: nat)
    requires NoCrlf(s) && j <= |s|
    ensures NoCrlf(s[j..])
  {
    var t := s[j..];
    forall i | 0 < i < |t| && t[i] == '\n' ensures t[i - 1] != '\r' {
      assert t[i] == s[j + i] && t[i - 1] == s[j + i - 1];
    }
  }

  lemma SplitAround(s: string, i: nat)
    requires i < |s|
    ensures s == s[..i] + [s[i]] + s[i + 1..]
  {
  }

  lemma AppendAssoc(a: string, b: string, c: string)
    ensures a + (b + c) == a + b + c
  {
  }

  /** The first line ending of `s` splits off its first line. */
  lemma UnlinesStep(s: string)
    requires NoCrlf(s)
    requires FindNewline(s) < |s|
    ensures var i := FindNewline(s);
      Unlines(Lines(s)) == s[..i] + "\n" + Unlines(Lines(s[i + 1..]))
  {
    var i := FindNewline(s);
    LinesStep(s, i);
    assert StripCr(s[..i]) == s[..i];
    var ls := Lines(s);
    assert ls[0] == s[..i] && ls[1..] == Lines(s[i + 1..]);
  }

  /** Without CRLF endings, `lines()` loses nothing but the optional final newline. */
  lemma {:induction false} LinesRoundTrip(s: string)
    requires NoCrlf(s)
    ensures Unlines(Lines(s)) == if s == [] || s[|s| - 1] == '\n' then s else s + "\n"
    decreases |s|
  {
    if s != [] {
      var i := FindNewline(s);
      if i < |s| {
        var rest := s[i + 1..];
        NoCrlfSuffix(s, i + 1);
        LinesRoundTrip(rest);
        UnlinesStep(s);
        var line := s[..i];
        SplitAround(s, i);
        if rest == [] {
          assert s[|s| - 1] == '\n';
        } else {
          assert s[|s| - 1] == rest[|rest| - 1];
          if rest[|rest| - 1] != '\n' {
            AppendAssoc(line + "\n", rest, "\n");
          }
        }
      }
    }
  }
}
