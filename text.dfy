/**
  The few Python `str` operations the consistency checker relies on,
  written over `seq<char>`: prefix and suffix tests, `find`, `split` with
  a limit, `strip`/`lstrip`/`rstrip`, `splitlines` and `upper`.
*/
module Text {
  import opened Wrappers

  predicate StartsWith(s: string, prefix: string) {
    |prefix| <= |s| && s[..|prefix|] == prefix
  }

  predicate EndsWith(s: string, suffix: string) {
    |suffix| <= |s| && s[|s| - |suffix|..] == suffix
  }

  /** `pat` occurs in `s` starting at index `i`. */
  predicate OccursAt(s: string, pat: string, i: nat) {
    i + |pat| <= |s| && s[i..i + |pat|] == pat
  }

  /** Python's `pat in s`. */
  predicate Contains(s: string, pat: string) {
    exists i :: 0 <= i <= |s| && OccursAt(s, pat, i)
  }

  /** An occurrence inside a prefix of `s` is an occurrence in `s`. */
  lemma OccursInPrefix(s: string, pat: string, n: nat, i: nat)
    requires n <= |s| && OccursAt(s[..n], pat, i)
    ensures OccursAt(s, pat, i) && i + |pat| <= n
  {
    assert s[..n][i..i + |pat|] == s[i..i + |pat|];
  }

  /** An occurrence inside a suffix of `s` is an occurrence in `s`, shifted. */
  lemma OccursInSuffix(s: string, pat: string, n: nat, i: nat)
    requires n <= |s| && OccursAt(s[n..], pat, i)
    ensures OccursAt(s, pat, n + i)
  {
    assert s[n..][i..i + |pat|] == s[n + i..n + i + |pat|];
  }

  /**
    Python's `s.find(pat, start)`, with `None` for -1: the first index at
    or after `start` where `pat` occurs.
  */
  function Find(s: string, pat: string, start: nat): (r: Option<nat>)
    ensures r.Some? ==> start <= r.value && OccursAt(s, pat, r.value)
    ensures r.Some? ==> forall i: nat :: start <= i < r.value ==> !OccursAt(s, pat, i)
    ensures r.None? ==> forall i: nat :: start <= i ==> !OccursAt(s, pat, i)
    decreases |s| - start
  {
    if |s| < start + |pat| then None
    else if OccursAt(s, pat, start) then Some(start)
    else Find(s, pat, start + 1)
  }

  /** Python's `sep.join(parts)`. */
  function Join(parts: seq<string>, sep: string): string {
    if |parts| == 0 then []
    else if |parts| == 1 then parts[0]
    else parts[0] + sep + Join(parts[1..], sep)
  }

  /**
    Python's `s.split(sep, maxsplit)` for a non-empty separator: cut at the
    first `maxsplit` occurrences of `sep`, scanning left to right.
  */
  function Split(s: string, sep: string, maxsplit: nat): (parts: seq<string>)
    requires sep != []
    ensures 1 <= |parts| <= maxsplit + 1
    ensures Join(parts, sep) == s
    ensures forall j :: 0 <= j < |parts| - 1 ==> !Contains(parts[j] + sep[..|sep| - 1], sep)
    ensures |parts| <= maxsplit ==> !Contains(parts[|parts| - 1], sep)
    decreases maxsplit
  {
    if maxsplit == 0 then [s]
    else
      match Find(s, sep, 0)
      case None => [s]
      case Some(i) =>
        var head, tail := s[..i], s[i + |sep|..];
        var rest := Split(tail, sep, maxsplit - 1);
        assert s == head + sep + tail by {
          assert s == s[..i] + s[i..i + |sep|] + s[i + |sep|..];
        }
        var reach := head + sep[..|sep| - 1];
        assert !Contains(reach, sep) by {
          forall k: nat ensures !OccursAt(reach, sep, k) {
            CutIsFirst(s, sep, i, k);
          }
        }
        [head] + rest
  }

  /** A text that does not hold the separator is not cut. */
  lemma SplitWithoutSeparator(s: string, sep: string, maxsplit: nat)
    requires sep != [] && !Contains(s, sep)
    ensures Split(s, sep, maxsplit) == [s]
  {
    if 0 < maxsplit {
      match Find(s, sep, 0)
      case None =>
      case Some(i) => assert OccursAt(s, sep, i);
    }
  }

  /** With its first occurrence at `k`, a split with one cut gives the text before and after it. */
  lemma SplitOnceAt(s: string, sep: string, k: nat)
    requires sep != [] && OccursAt(s, sep, k)
    requires forall i: nat :: i < k ==> !OccursAt(s, sep, i)
    ensures Split(s, sep, 1) == [s[..k], s[k + |sep|..]]
  {
    match Find(s, sep, 0)
    case None =>
      assert false;
    case Some(m) =>
      assert m == k;
  }

  /** The first part of a split with at least one cut allowed never holds the separator. */
  lemma SplitFirstPart(s: string, sep: string, maxsplit: nat)
    requires sep != [] && 1 <= maxsplit
    ensures !Contains(Split(s, sep, maxsplit)[0], sep)
  {
    var parts := Split(s, sep, maxsplit);
    if 1 < |parts| {
      var p := parts[0];
      var reach := p + sep[..|sep| - 1];
      forall k: nat | OccursAt(p, sep, k) ensures OccursAt(reach, sep, k) {
        assert reach[k..k + |sep|] == p[k..k + |sep|];
      }
    }
  }

  /**
    When `i` is the first occurrence of `sep` in `s`, no occurrence ends
    before the whole marker at `i` has been read: the cut is the leftmost one.
  */
  lemma CutIsFirst(s: string, sep: string, i: nat, k: nat)
    requires sep != [] && OccursAt(s, sep, i)
    requires forall j: nat :: j < i ==> !OccursAt(s, sep, j)
    ensures !OccursAt(s[..i] + sep[..|sep| - 1], sep, k)
  {
    var t := s[..i] + sep[..|sep| - 1];
    assert t == s[..i + |sep| - 1] by {
      assert s[i..i + |sep|] == sep;
      forall m | 0 <= m < |t| ensures t[m] == s[m] {
        if m >= i { assert t[m] == sep[m - i] == s[i..i + |sep|][m - i]; }
      }
    }
    if OccursAt(t, sep, k) {
      OccursInPrefix(s, sep, i + |sep| - 1, k);
    }
  }

  /** The characters Python's `str.isspace()` accepts (and regular expressions match with `\s`). */
  const Whitespace: set<char> := {
    '\t', '\n', '\U{0b}', '\U{0c}', '\r', '\U{1c}', '\U{1d}', '\U{1e}', '\U{1f}', ' ',
    '\U{85}', '\U{a0}', '\U{1680}',
    '\U{2000}', '\U{2001}', '\U{2002}', '\U{2003}', '\U{2004}', '\U{2005}',
    '\U{2006}', '\U{2007}', '\U{2008}', '\U{2009}', '\U{200a}',
    '\U{2028}', '\U{2029}', '\U{202f}', '\U{205f}', '\U{3000}'
  }

  /** Python's `s.lstrip(chars)`: drop the longest prefix made of characters in `chars`. */
  function LStrip(s: string, chars: set<char>): (r: string)
    ensures |r| <= |s| && r == s[|s| - |r|..]
    ensures forall i :: 0 <= i < |s| - |r| ==> s[i] in chars
    ensures r != [] ==> r[0] !in chars
  {
    if s != [] && s[0] in chars then LStrip(s[1..], chars) else s
  }

  /** Python's `s.rstrip(chars)`: drop the longest suffix made of characters in `chars`. */
  function RStrip(s: string, chars: set<char>): (r: string)
    ensures |r| <= |s| && r == s[..|r|]
    ensures forall i :: |r| <= i < |s| ==> s[i] in chars
    ensures r != [] ==> r[|r| - 1] !in chars
  {
    if s != [] && s[|s| - 1] in chars then RStrip(s[..|s| - 1], chars) else s
  }

  /** Python's `s.strip(chars)`: both ends at once. */
  function StripChars(s: string, chars: set<char>): (r: string)
    ensures r == [] || (r[0] !in chars && r[|r| - 1] !in chars)
    ensures r == [] <==> forall i :: 0 <= i < |s| ==> s[i] in chars
    ensures forall c :: c !in chars ==> (c in r <==> c in s)
  {
    var left := LStrip(s, chars);
    var r := RStrip(left, chars);
    StripEmptyIff(s, chars);
    StripSameOthers(s, chars);
    assert r != [] ==> r[0] == left[0];
    r
  }

  /** Stripping keeps exactly the characters outside `chars`. */
  lemma StripSameOthers(s: string, chars: set<char>)
    ensures forall c :: c !in chars ==> (c in RStrip(LStrip(s, chars), chars) <==> c in s)
  {
    forall c | c !in chars ensures c in RStrip(LStrip(s, chars), chars) <==> c in s {
      if c in s { StripKeepsOthers(s, chars, c); }
      if c in RStrip(LStrip(s, chars), chars) { StripAddsNothing(s, chars, c); }
    }
  }

  /** Stripping from both ends leaves nothing exactly when every character is stripped. */
  lemma StripEmptyIff(s: string, chars: set<char>)
    ensures RStrip(LStrip(s, chars), chars) == [] <==> forall i :: 0 <= i < |s| ==> s[i] in chars
  {
    var left := LStrip(s, chars);
    if RStrip(left, chars) == [] {
      assert |left| == 0;
    } else {
      assert left[0] == s[|s| - |left|];
    }
  }

  /** Every character outside `chars` that occurs in `s` survives stripping. */
  lemma StripKeepsOthers(s: string, chars: set<char>, c: char)
    requires c !in chars && c in s
    ensures c in RStrip(LStrip(s, chars), chars)
  {
    var left := LStrip(s, chars);
    var r := RStrip(left, chars);
    var lo := |s| - |left|;
    var k :| 0 <= k < |s| && s[k] == c;
    assert lo <= k;
    assert left[k - lo] == c;
    assert k - lo < |r|;
    assert r[k - lo] == c;
  }

  /** Stripping adds no character. */
  lemma StripAddsNothing(s: string, chars: set<char>, c: char)
    requires c in RStrip(LStrip(s, chars), chars)
    ensures c in s
  {
    var left := LStrip(s, chars);
    var r := RStrip(left, chars);
    var k :| 0 <= k < |r| && r[k] == c;
    var lo := |s| - |left|;
    assert r == left[..|r|];
    assert left == s[lo..];
    assert left[k] == c;
    assert s[lo + k] == c;
  }

  /** `lstrip` removes a prefix made of stripped characters up to the first character it keeps. */
  lemma {:induction false} LStripPrefix(p: string, t: string, chars: set<char>)
    requires forall i :: 0 <= i < |p| ==> p[i] in chars
    requires t != [] && t[0] !in chars
    ensures LStrip(p + t, chars) == t
    decreases |p|
  {
    if p == [] {
      assert p + t == t;
    } else {
      assert (p + t)[1..] == p[1..] + t;
      LStripPrefix(p[1..], t, chars);
    }
  }

  /**
    When `s` ends with a kept character and holds one at index `n`,
    stripping it only cuts a prefix, and no further than `n`.
  */
  lemma StripCutsPrefixOnly(s: string, chars: set<char>, n: nat)
    requires n < |s| && s[n] !in chars && s[|s| - 1] !in chars
    ensures var r := StripChars(s, chars); |s| - |r| <= n && r == s[|s| - |r|..]
  {
    var left := LStrip(s, chars);
    assert |s| - |left| <= n;
    assert left[|left| - 1] == s[|s| - 1];
  }

  /** Stripping `p + t`, where `t` starts and ends with kept characters, only cuts a prefix of `p`. */
  lemma StripKeepsFromFirstKept(p: string, t: string, chars: set<char>)
    requires t != [] && t[0] !in chars && t[|t| - 1] !in chars
    ensures var r := StripChars(p + t, chars);
      |p| + |t| - |r| <= |p| && r == p[|p| + |t| - |r|..] + t
  {
    var s := p + t;
    assert s[|p|] == t[0] && s[|s| - 1] == t[|t| - 1];
    StripCutsPrefixOnly(s, chars, |p|);
    var r := StripChars(s, chars);
    var m := |s| - |r|;
    assert m <= |p| && r == s[m..];
    DropAppend(p, t, m);
  }

  lemma ConcatAssoc(a: string, b: string, c: string)
    ensures a + b + c == a + (b + c)
  {
  }

  lemma DropAppend(p: string, t: string, m: nat)
    requires m <= |p|
    ensures (p + t)[m..] == p[m..] + t
  {
  }

  /** Stripping never lengthens a text and never brings in a character. */
  lemma StripCharsShrinks(s: string, chars: set<char>)
    ensures |StripChars(s, chars)| <= |s|
    ensures forall c :: c in StripChars(s, chars) ==> c in s
  {
    forall c | c in StripChars(s, chars) ensures c in s {
      StripAddsNothing(s, chars, c);
    }
  }

  /**
    `r` is the slice of `s` starting at `a`, and every character of `s`
    before or after that slice is in `chars`.
  */
  predicate StrippedSlice(s: string, r: string, a: nat, chars: set<char>) {
    && a + |r| <= |s| && r == s[a..a + |r|]
    && (forall i :: 0 <= i < a ==> s[i] in chars)
    && (forall i :: a + |r| <= i < |s| ==> s[i] in chars)
  }

  /**
    Stripping removes a prefix and a suffix made of stripped characters and
    keeps the slice between them.
  */
  lemma StripCharsIsSlice(s: string, chars: set<char>)
    ensures exists a: nat :: StrippedSlice(s, StripChars(s, chars), a, chars)
  {
    var left := LStrip(s, chars);
    var r := RStrip(left, chars);
    var a := |s| - |left|;
    assert r == left[..|r|];
    assert left == s[a..];
    assert r == s[a..a + |r|];
    forall i | a + |r| <= i < |s| ensures s[i] in chars {
      assert s[i] == left[i - a];
    }
    assert StrippedSlice(s, r, a, chars);
    assert StripChars(s, chars) == r;
  }

  /** Python's `s.strip()`: drop leading and trailing whitespace. */
  function Strip(s: string): (r: string)
    ensures |r| <= |s|
    ensures forall c :: c in r ==> c in s
  {
    StripCharsShrinks(s, Whitespace);
    StripChars(s, Whitespace)
  }

  /** `strip()` keeps the slice between a whitespace prefix and a whitespace suffix. */
  lemma StripIsSlice(s: string)
    ensures exists a: nat :: StrippedSlice(s, Strip(s), a, Whitespace)
  {
    var ws := Whitespace;
    assert Strip(s) == StripChars(s, ws);
    StripCharsIsSlice(s, ws);
  }

  /** The characters at which Python's `str.splitlines()` ends a line (`\r\n` counts once). */
  const LineBreaks: set<char> := {
    '\n', '\r', '\U{0b}', '\U{0c}', '\U{1c}', '\U{1d}', '\U{1e}', '\U{85}', '\U{2028}', '\U{2029}'
  }

  /** The index of the first line break at or after `start`, or `|s|` when there is none. */
  function LineEnd(s: string, start: nat): (k: nat)
    requires start <= |s|
    ensures start <= k <= |s|
    ensures forall i :: start <= i < k ==> s[i] !in LineBreaks
    ensures k < |s| ==> s[k] in LineBreaks
    decreases |s| - start
  {
    if start == |s| || s[start] in LineBreaks then start else LineEnd(s, start + 1)
  }

  /**
    Python's `s.splitlines()`: the text between line breaks, with no
    trailing empty line when `s` ends with a break.
  */
  function SplitLines(s: string): (lines: seq<string>)
    ensures forall j, i :: 0 <= j < |lines| && 0 <= i < |lines[j]| ==> lines[j][i] !in LineBreaks
    ensures s == [] <==> lines == []
    decreases |s|
  {
    if s == [] then []
    else
      var k := LineEnd(s, 0);
      if k == |s| then [s]
      else
        var next := if s[k] == '\r' && k + 1 < |s| && s[k + 1] == '\n' then k + 2 else k + 1;
        [s[..k]] + SplitLines(s[next..])
  }

  /** The only line break in `s`, if any, is `\n`. */
  predicate OnlyNewlineBreaks(s: string) {
    forall i :: 0 <= i < |s| && s[i] in LineBreaks ==> s[i] == '\n'
  }

  /** Where a line of such a text ends, it ends at a `\n`, and the remaining text is of the same kind. */
  lemma SplitLinesAtNewline(s: string)
    requires OnlyNewlineBreaks(s) && s != [] && LineEnd(s, 0) < |s|
    ensures var k := LineEnd(s, 0);
      && s[k] == '\n'
      && SplitLines(s) == [s[..k]] + SplitLines(s[k + 1..])
      && OnlyNewlineBreaks(s[k + 1..])
  {
    var k := LineEnd(s, 0);
    assert s[k] in LineBreaks;
    var rest := s[k + 1..];
    forall i | 0 <= i < |rest| && rest[i] in LineBreaks ensures rest[i] == '\n' {
      assert rest[i] == s[k + 1 + i];
    }
  }

  /** Joining a list of at least two parts puts the separator after the first. */
  lemma JoinCons(head: string, parts: seq<string>, sep: string)
    requires parts != []
    ensures Join([head] + parts, sep) == head + sep + Join(parts, sep)
  {
    assert ([head] + parts)[1..] == parts;
  }

  /**
    For a text whose only line breaks are `\n`, joining the lines with `\n`
    gives the text back, less the one final `\n` if it ends with one.
  */
  lemma {:induction false} SplitLinesJoin(s: string)
    requires OnlyNewlineBreaks(s)
    ensures Join(SplitLines(s), "\n") == if s != [] && s[|s| - 1] == '\n' then s[..|s| - 1] else s
    decreases |s|
  {
    if s != [] && LineEnd(s, 0) < |s| {
      var k := LineEnd(s, 0);
      SplitLinesAtNewline(s);
      if k + 1 < |s| {
        SplitLinesJoin(s[k + 1..]);
        JoinLineThenRest(s, k, SplitLines(s[k + 1..]));
      } else {
        assert SplitLines(s) == [s[..k]];
      }
    } else if s != [] {
      assert SplitLines(s) == [s] && s[|s| - 1] !in LineBreaks;
    }
  }

  /** The inductive step of `SplitLinesJoin`: one more line in front of a non-empty rest. */
  lemma JoinLineThenRest(s: string, k: nat, lines: seq<string>)
    requires k + 1 < |s| && s[k] == '\n' && lines != []
    requires var rest := s[k + 1..];
      Join(lines, "\n") == if rest[|rest| - 1] == '\n' then rest[..|rest| - 1] else rest
    ensures Join([s[..k]] + lines, "\n") == if s[|s| - 1] == '\n' then s[..|s| - 1] else s
  {
    JoinCons(s[..k], lines, "\n");
    var rest := s[k + 1..];
    assert s == s[..k] + "\n" + rest;
    assert s[..|s| - 1] == s[..k] + "\n" + rest[..|rest| - 1];
  }

  /** Python's `c.upper()` on ASCII letters; every other character is left as it is. */
  function UpperChar(c: char): char {
    if 'a' <= c <= 'z' then (c as int - 32) as char else c
  }

  /** Python's `s.upper()`, character by character (see `UpperChar`). */
  function Upper(s: string): (r: string)
    ensures |r| == |s|
    ensures forall i :: 0 <= i < |r| ==> !('a' <= r[i] <= 'z')
    ensures forall i :: 0 <= i < |r| ==> r[i] == s[i] || ('a' <= s[i] <= 'z' && r[i] as int == s[i] as int - 32)
  {
    seq(|s|, i requires 0 <= i < |s| => UpperChar(s[i]))
  }

  /** Upper-casing twice is upper-casing once. */
  lemma UpperIdempotent(s: string)
    ensures Upper(Upper(s)) == Upper(s)
  {
    var u := Upper(s);
    forall i | 0 <= i < |u| ensures Upper(u)[i] == u[i] {
      assert !('a' <= u[i] <= 'z');
    }
  }
}
