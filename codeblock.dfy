/**
  The search for the first fenced block, i.e. what Python's `re.search`
  does with the pattern  ```(?:[a-zA-Z0-9_-]*)\s*([\s\S]*?)```  (an opening
  fence, an optional tag, blanks, then the shortest text up to a closing
  fence), written as an explicit scan over the characters.
*/
module CodeBlock {
  import opened Wrappers
  import opened Text

  const Fence := "```"

  /** `[a-zA-Z0-9_-]`: a character of the optional tag after the opening fence. */
  predicate IsTagChar(c: char) {
    ('a' <= c <= 'z') || ('A' <= c <= 'Z') || ('0' <= c <= '9') || c == '_' || c == '-'
  }

  /**
    One way the pattern can match `s`: the opening fence at `start`, the
    tag over `[start + 3, tagEnd)`, blanks over `[tagEnd, innerStart)`, the
    captured group over `[innerStart, innerEnd)` and the closing fence at
    `innerEnd`.
  */
  datatype Match = Match(start: nat, tagEnd: nat, innerStart: nat, innerEnd: nat)

  ghost predicate IsMatch(s: string, m: Match) {
    && OccursAt(s, Fence, m.start)
    && m.start + 3 <= m.tagEnd <= m.innerStart <= m.innerEnd
    && OccursAt(s, Fence, m.innerEnd)
    && (forall k :: m.start + 3 <= k < m.tagEnd ==> IsTagChar(s[k]))
    && (forall k :: m.tagEnd <= k < m.innerStart ==> s[k] in Whitespace)
  }

  /**
    The order in which the regular-expression engine tries matches: the
    leftmost start first, then the longest tag (greedy `*`), then the most
    blanks (greedy `\s*`), then the shortest group (lazy `*?`).
  */
  ghost predicate Precedes(m: Match, n: Match) {
    || m.start < n.start
    || (m.start == n.start && m.tagEnd > n.tagEnd)
    || (m.start == n.start && m.tagEnd == n.tagEnd && m.innerStart > n.innerStart)
    || (m.start == n.start && m.tagEnd == n.tagEnd && m.innerStart == n.innerStart && m.innerEnd < n.innerEnd)
  }

  /** `m` is the match the engine reports among those starting at or after `from`. */
  ghost predicate FirstMatchFrom(s: string, from: nat, m: Match) {
    IsMatch(s, m) && from <= m.start &&
    forall n :: IsMatch(s, n) && from <= n.start && n != m ==> Precedes(m, n)
  }

  /** The end of the run of tag characters that begins at `i`. */
  function TagEnd(s: string, i: nat): (j: nat)
    requires i <= |s|
    ensures i <= j <= |s|
    ensures forall k :: i <= k < j ==> IsTagChar(s[k])
    ensures j < |s| ==> !IsTagChar(s[j])
    decreases |s| - i
  {
    if i == |s| || !IsTagChar(s[i]) then i else TagEnd(s, i + 1)
  }

  /** The end of the run of blanks that begins at `i`. */
  function SpaceEnd(s: string, i: nat): (j: nat)
    requires i <= |s|
    ensures i <= j <= |s|
    ensures forall k :: i <= k < j ==> s[k] in Whitespace
    ensures j < |s| ==> s[j] !in Whitespace
    decreases |s| - i
  {
    if i == |s| || s[i] !in Whitespace then i else SpaceEnd(s, i + 1)
  }

  /** The match the engine settles on for an opening fence at `p`, if any. */
  function MatchAt(s: string, p: nat): (r: Option<Match>)
    requires OccursAt(s, Fence, p)
    ensures r.Some? ==> r.value.start == p && p + 3 <= r.value.innerStart <= r.value.innerEnd
    ensures r.Some? ==> OccursAt(s, Fence, r.value.innerEnd)
  {
    var t := TagEnd(s, p + 3);
    var w := SpaceEnd(s, t);
    match Find(s, Fence, w)
    case None => None
    case Some(e) => Some(Match(p, t, w, e))
  }

  /** The scan of `re.search`: try each start position from `p` on. */
  function SearchFrom(s: string, p: nat): (r: Option<Match>)
    ensures r.Some? ==> p <= r.value.start && r.value.start + 3 <= r.value.innerStart <= r.value.innerEnd
    ensures r.Some? ==> OccursAt(s, Fence, r.value.start) && OccursAt(s, Fence, r.value.innerEnd)
    decreases |s| - p
  {
    if |s| < p + 3 then None
    else if OccursAt(s, Fence, p) && MatchAt(s, p).Some? then MatchAt(s, p)
    else SearchFrom(s, p + 1)
  }

  /** `extract_first_code_block(content)`: the text captured by the first match, or `None`. */
  function ExtractFirstCodeBlock(content: string): (r: Option<string>)
    ensures r.Some? ==> exists p, i, j :: p + 3 <= i <= j && OccursAt(content, Fence, p) && OccursAt(content, Fence, j) && r.value == content[i..j]
  {
    match SearchFrom(content, 0)
    case None => None
    case Some(m) =>
      var block := content[m.innerStart..m.innerEnd];
      assert m.start + 3 <= m.innerStart <= m.innerEnd && OccursAt(content, Fence, m.start) && OccursAt(content, Fence, m.innerEnd);
      Some(block)
  }

  /** A fence starts with a backtick, which is neither a tag character nor a blank. */
  lemma FenceStartsWithBacktick(s: string, k: nat)
    requires OccursAt(s, Fence, k)
    ensures k < |s| && s[k] == '`' && !IsTagChar(s[k]) && s[k] !in Whitespace
  {
    assert s[k..k + 3][0] == s[k];
  }

  /**
    At a given opening fence, the engine's choice is right: when `MatchAt`
    finds nothing no match starts there (backtracking to a shorter tag or
    fewer blanks cannot help, since neither crosses a backtick), and when it
    finds one, that one precedes every other match starting there.
  */
  lemma MatchAtIsFirst(s: string, p: nat)
    requires OccursAt(s, Fence, p)
    ensures MatchAt(s, p).None? ==> forall n :: IsMatch(s, n) && n.start == p ==> false
    ensures MatchAt(s, p).Some? ==>
      && MatchAt(s, p).value.start == p
      && IsMatch(s, MatchAt(s, p).value)
      && forall n :: IsMatch(s, n) && n.start == p && n != MatchAt(s, p).value ==> Precedes(MatchAt(s, p).value, n)
  {
    var t := TagEnd(s, p + 3);
    var w := SpaceEnd(s, t);
    forall n | IsMatch(s, n) && n.start == p
      ensures n.tagEnd <= t
      ensures n.tagEnd == t ==> n.innerStart <= w
      ensures w <= n.innerEnd
    {
      FenceStartsWithBacktick(s, n.innerEnd);
    }
  }

  /**
    The scan from `p` finds the engine's first match among those starting
    at or after `p`, and finds nothing exactly when there is none.
  */
  lemma {:induction false} SearchFromIsFirst(s: string, p: nat)
    ensures SearchFrom(s, p).None? ==> forall n :: IsMatch(s, n) && p <= n.start ==> false
    ensures SearchFrom(s, p).Some? ==> FirstMatchFrom(s, p, SearchFrom(s, p).value)
    decreases |s| - p
  {
    if |s| < p + 3 {
      forall n | IsMatch(s, n) && p <= n.start ensures false { }
    } else {
      if OccursAt(s, Fence, p) {
        MatchAtIsFirst(s, p);
      }
      if !(OccursAt(s, Fence, p) && MatchAt(s, p).Some?) {
        SearchFromIsFirst(s, p + 1);
      }
    }
  }

  /** There is an opening fence and, at least three places later, a closing one. */
  predicate HasFencePair(s: string) {
    exists i, j :: 0 <= i && i + 3 <= j <= |s| && OccursAt(s, Fence, i) && OccursAt(s, Fence, j)
  }

  /**
    `extract_first_code_block` returns the group of the first match in the
    engine's order, and `None` exactly when the pattern cannot match at all.
  */
  lemma FirstCodeBlockIsFirstMatch(content: string)
    ensures ExtractFirstCodeBlock(content).None? <==> forall n :: !IsMatch(content, n)
    ensures ExtractFirstCodeBlock(content).Some? ==>
      exists m :: FirstMatchFrom(content, 0, m) &&
        ExtractFirstCodeBlock(content).value == content[m.innerStart..m.innerEnd]
  {
    SearchFromIsFirst(content, 0);
    match SearchFrom(content, 0)
    case None =>
    case Some(m) =>
      assert FirstMatchFrom(content, 0, m);
  }

  /** `None` comes back exactly when no opening fence is followed by a closing one. */
  lemma NoneIffNoFencePair(content: string)
    ensures ExtractFirstCodeBlock(content).None? <==> !HasFencePair(content)
  {
    FirstCodeBlockIsFirstMatch(content);
    if HasFencePair(content) {
      var i, j :| 0 <= i && i + 3 <= j <= |content| && OccursAt(content, Fence, i) && OccursAt(content, Fence, j);
      assert IsMatch(content, Match(i, i + 3, i + 3, j));
    }
  }

  /** The group of the engine's first match holds no fence: the lazy group stops at the first one. */
  lemma GroupHasNoFence(content: string, m: Match)
    requires FirstMatchFrom(content, 0, m)
    ensures !Contains(content[m.innerStart..m.innerEnd], Fence)
  {
    var g := content[m.innerStart..m.innerEnd];
    forall k: nat | OccursAt(g, Fence, k) ensures false {
      OccursInSuffix(content[..m.innerEnd], Fence, m.innerStart, k);
      OccursInPrefix(content, Fence, m.innerEnd, m.innerStart + k);
      assert IsMatch(content, Match(m.start, m.tagEnd, m.innerStart, m.innerStart + k));
    }
  }

  /** The group of the engine's first match does not start with a blank: `\s*` took them all. */
  lemma GroupStartsWithNonBlank(content: string, m: Match)
    requires FirstMatchFrom(content, 0, m)
    ensures m.innerStart < m.innerEnd ==> content[m.innerStart] !in Whitespace
  {
    if m.innerStart < m.innerEnd && content[m.innerStart] in Whitespace {
      assert IsMatch(content, Match(m.start, m.tagEnd, m.innerStart + 1, m.innerEnd));
    }
  }

  /**
    The returned text never holds a fence and never starts with a blank.
  */
  lemma BlockHasNoFence(content: string)
    requires ExtractFirstCodeBlock(content).Some?
    ensures !Contains(ExtractFirstCodeBlock(content).value, Fence)
    ensures var g := ExtractFirstCodeBlock(content).value; g == [] || g[0] !in Whitespace
  {
    SearchFromIsFirst(content, 0);
    var m := SearchFrom(content, 0).value;
    GroupHasNoFence(content, m);
    GroupStartsWithNonBlank(content, m);
  }
}
