/**
  Reading the expected top-level directories out of the tree diagram in the
  first fenced block of the structure document.
*/
module TreeListing {
  import opened Wrappers
  import opened Text
  import CodeBlock

  /** The placeholder the diagram uses for the project root. */
  const RootPlaceholder := "PROJECT_NAME"

  /** The tree-drawing characters stripped from the front of an entry. */
  const TreeMarkers: set<char> := {'|', '-', ' '}

  /** A name the parser may report: non-empty, a single path segment, not the root placeholder. */
  predicate IsDirName(name: string) {
    name != [] && '/' !in name && Upper(name) != RootPlaceholder
  }

  predicate NoDuplicates(s: seq<string>) {
    forall i, j :: 0 <= i < j < |s| ==> s[i] != s[j]
  }

  lemma SlashFree(s: string)
    requires !Contains(s, "/")
    ensures '/' !in s
  {
    if '/' in s {
      var k :| 0 <= k < |s| && s[k] == '/';
      assert OccursAt(s, "/", k);
    }
  }

  /**
    The name one line of the diagram contributes, if any: the line,
    stripped, must end with `/`; the trailing slashes, then leading tree
    markers and whitespace, are removed, and the first path segment is kept
    unless it is empty or the root placeholder in any letter case.
  */
  function LineName(rawLine: string): (r: Option<string>)
    ensures r.Some? ==> EndsWith(Strip(rawLine), "/") && IsDirName(r.value)
  {
    var line := Strip(rawLine);
    if line == [] || !EndsWith(line, "/") then None
    else
      var item := Strip(LStrip(RStrip(line, {'/'}), TreeMarkers));
      var name := Split(item, "/", 1)[0];
      if name == [] || Upper(name) == RootPlaceholder then None
      else
        SplitFirstPart(item, "/", 1);
        SlashFree(name);
        Some(name)
  }

  /** Stripping a text made of markers, an item and `/` only removes leading markers, whatever the stripped set. */
  lemma StripMarkedItem(markers: string, item: string, chars: set<char>)
    requires item != [] && item[0] !in chars && '/' !in chars
    ensures var r := StripChars(markers + item + "/", chars);
      |markers| + |item| + 1 - |r| <= |markers| && r == markers[|markers| + |item| + 1 - |r|..] + item + "/"
  {
    var t := item + "/";
    ConcatAssoc(markers, item, "/");
    assert t[0] == item[0] && t[|t| - 1] == '/';
    StripKeepsFromFirstKept(markers, t, chars);
    var m := |markers| + |t| - |StripChars(markers + t, chars)|;
    ConcatAssoc(markers[m..], item, "/");
  }

  /** Stripping a line made of tree markers, an item and a final `/` only removes leading markers. */
  lemma StripEntryLineEnds(markers: string, item: string)
    requires item != [] && item[0] !in Whitespace
    ensures var r := Strip(markers + item + "/");
      |markers| + |item| + 1 - |r| <= |markers| && r == markers[|markers| + |item| + 1 - |r|..] + item + "/"
  {
    assert '/' !in Whitespace;
    StripMarkedItem(markers, item, Whitespace);
  }

  /** `rstrip("/")` removes the one final slash of a text that otherwise does not end with one. */
  lemma RStripFinalSlash(t: string)
    requires t != [] && t[|t| - 1] != '/'
    ensures RStrip(t + "/", {'/'}) == t
  {
    assert (t + "/")[..|t|] == t;
  }

  /**
    A line made of tree markers, an item and a final `/`: stripping it and
    removing the slash and the markers leaves the item itself.
  */
  lemma StripEntryLine(markers: string, item: string)
    requires forall i :: 0 <= i < |markers| ==> markers[i] in TreeMarkers
    requires item != [] && item[0] !in TreeMarkers && item[0] !in Whitespace
    requires item[|item| - 1] != '/'
    ensures var line := Strip(markers + item + "/");
      line != [] && EndsWith(line, "/") && LStrip(RStrip(line, {'/'}), TreeMarkers) == item
  {
    StripEntryLineEnds(markers, item);
    PeelEntry(markers, item, Strip(markers + item + "/"), TreeMarkers);
  }

  /** Some trailing markers, an item and `/`: dropping the slash and the markers leaves the item. */
  lemma PeelEntry(markers: string, item: string, r: string, marks: set<char>)
    requires forall i :: 0 <= i < |markers| ==> markers[i] in marks
    requires item != [] && item[0] !in marks && item[|item| - 1] != '/'
    requires |item| + 1 <= |r| <= |markers| + |item| + 1
    requires r == markers[|markers| + |item| + 1 - |r|..] + item + "/"
    ensures r != [] && EndsWith(r, "/") && LStrip(RStrip(r, {'/'}), marks) == item
  {
    var off := |markers| + |item| + 1 - |r|;
    var rest := markers[off..];
    forall i | 0 <= i < |rest| ensures rest[i] in marks {
      assert rest[i] == markers[off + i];
    }
    var t := rest + item;
    assert t[|t| - 1] == item[|item| - 1];
    assert r == t + "/";
    assert r[|r| - 1..] == "/";
    RStripFinalSlash(t);
    LStripPrefix(rest, item, marks);
  }

  /** The name a tree line contributes is the first path segment of its item, unless that is the root placeholder. */
  lemma LineNameOfItem(markers: string, item: string)
    requires forall i :: 0 <= i < |markers| ==> markers[i] in TreeMarkers
    requires item != [] && item[0] !in TreeMarkers && item[0] !in Whitespace
    requires item[|item| - 1] !in Whitespace && item[|item| - 1] != '/'
    ensures var name := Split(item, "/", 1)[0];
      LineName(markers + item + "/") == if name == [] || Upper(name) == RootPlaceholder then None else Some(name)
  {
    StripEntryLine(markers, item);
    StripCutsPrefixOnly(item, Whitespace, 0);
  }

  /**
    An entry line `markers + name + "/"` contributes `name` itself, unless
    `name` is the root placeholder in some letter case.
  */
  lemma LineNameOfEntry(markers: string, name: string)
    requires forall i :: 0 <= i < |markers| ==> markers[i] in TreeMarkers
    requires name != [] && '/' !in name
    requires name[0] !in TreeMarkers && name[0] !in Whitespace && name[|name| - 1] !in Whitespace
    ensures LineName(markers + name + "/") == if Upper(name) == RootPlaceholder then None else Some(name)
  {
    assert !Contains(name, "/") by {
      forall i: nat ensures !OccursAt(name, "/", i) {
        if i < |name| {
          assert name[i..i + 1][0] == name[i] != '/';
        }
      }
    }
    SplitWithoutSeparator(name, "/", 1);
    LineNameOfItem(markers, name);
  }

  /** A nested entry `markers + name + "/" + sub + "/"` contributes only its top-level ancestor `name`. */
  lemma LineNameOfNestedEntry(markers: string, name: string, sub: string)
    requires forall i :: 0 <= i < |markers| ==> markers[i] in TreeMarkers
    requires IsDirName(name)
    requires name[0] !in TreeMarkers && name[0] !in Whitespace
    requires sub != [] && sub[|sub| - 1] !in Whitespace && sub[|sub| - 1] != '/'
    ensures LineName(markers + name + "/" + sub + "/") == Some(name)
  {
    var item := name + "/" + sub;
    assert OccursAt(item, "/", |name|);
    forall i: nat | i < |name| ensures !OccursAt(item, "/", i) {
      assert item[i] == name[i];
    }
    assert Find(item, "/", 0) == Some(|name|);
    assert Split(item, "/", 1)[0] == item[..|name|] == name;
    assert markers + name + "/" + sub + "/" == markers + item + "/";
    LineNameOfItem(markers, item);
  }

  /** The values `f` gives the items, in item order, with the `None`s dropped. */
  function FilterMap(f: string -> Option<string>, items: seq<string>): seq<string>
    decreases |items|
  {
    if items == [] then []
    else
      var init := FilterMap(f, items[..|items| - 1]);
      match f(items[|items| - 1])
      case None => init
      case Some(n) => init + [n]
  }

  /** Extending the items by one extends the result by that item's value, if any. */
  lemma FilterMapSnoc(f: string -> Option<string>, items: seq<string>, i: nat)
    requires i < |items|
    ensures FilterMap(f, items[..i + 1]) ==
      match f(items[i]) case None => FilterMap(f, items[..i]) case Some(n) => FilterMap(f, items[..i]) + [n]
  {
    assert items[..i + 1][..i] == items[..i];
  }

  /** A value is in the result exactly when `f` gives it to some item. */
  lemma {:induction false} FilterMapMembers(f: string -> Option<string>, items: seq<string>, x: string)
    ensures x in FilterMap(f, items) <==> exists k :: 0 <= k < |items| && f(items[k]) == Some(x)
    decreases |items|
  {
    if items != [] {
      var n := |items| - 1;
      var init := items[..n];
      FilterMapMembers(f, init, x);
      FilterMapSnoc(f, items, n);
      assert items[..n + 1] == items;
      if x in FilterMap(f, items) && x in FilterMap(f, init) {
        var k :| 0 <= k < n && f(init[k]) == Some(x);
        assert items[k] == init[k];
      }
      if exists k :: 0 <= k < |items| && f(items[k]) == Some(x) {
        var k :| 0 <= k < |items| && f(items[k]) == Some(x);
        if k < n {
          assert init[k] == items[k];
        }
      }
    }
  }

  /** The names the lines of a diagram contribute, in line order, repeats included. */
  function Names(lines: seq<string>): (names: seq<string>)
    ensures forall i :: 0 <= i < |names| ==> IsDirName(names[i])
  {
    var names := FilterMap(LineName, lines);
    forall i | 0 <= i < |names| ensures IsDirName(names[i]) {
      FilterMapMembers(LineName, lines, names[i]);
    }
    names
  }

  /** The distinct elements of `s`, each kept at its first occurrence. */
  function Dedup(s: seq<string>): (r: seq<string>)
    ensures forall x :: x in r <==> x in s
    ensures NoDuplicates(r)
    decreases |s|
  {
    if s == [] then []
    else
      var init := Dedup(s[..|s| - 1]);
      var x := s[|s| - 1];
      assert forall y :: y in s <==> y in s[..|s| - 1] || y == x;
      if x in init then init else init + [x]
  }

  /** Appending one element to `s` appends it to `Dedup(s)` unless it was already there. */
  lemma DedupSnoc(s: seq<string>, x: string)
    ensures Dedup(s + [x]) == if x in Dedup(s) then Dedup(s) else Dedup(s) + [x]
  {
    assert (s + [x])[..|s|] == s;
  }

  lemma DedupKeepsDirNames(names: seq<string>)
    requires forall i :: 0 <= i < |names| ==> IsDirName(names[i])
    ensures forall i :: 0 <= i < |Dedup(names)| ==> IsDirName(Dedup(names)[i])
  {
    forall i | 0 <= i < |Dedup(names)| ensures IsDirName(Dedup(names)[i]) {
      var x := Dedup(names)[i];
      assert x in names;
      var k :| 0 <= k < |names| && names[k] == x;
    }
  }

  /** The position of the first occurrence of `x` in `s`. */
  function IndexOf(s: seq<string>, x: string): (k: nat)
    requires x in s
    ensures k < |s| && s[k] == x && x !in s[..k]
  {
    if s[0] == x then 0
    else
      var k := IndexOf(s[1..], x);
      assert s[..k + 1] == [s[0]] + s[1..][..k];
      1 + k
  }

  /** The first occurrence of `x` in a prefix that holds it is its first occurrence in `s`. */
  lemma IndexOfInPrefix(s: seq<string>, n: nat, x: string)
    requires n <= |s| && x in s[..n]
    ensures x in s && IndexOf(s, x) == IndexOf(s[..n], x)
  {
    var a, b := IndexOf(s, x), IndexOf(s[..n], x);
    assert s[b] == x;
  }

  /** `Dedup` lists the distinct elements in the order of their first occurrences. */
  lemma {:induction false} DedupKeepsFirstOccurrenceOrder(s: seq<string>)
    ensures forall i, j :: 0 <= i < j < |Dedup(s)| ==> IndexOf(s, Dedup(s)[i]) < IndexOf(s, Dedup(s)[j])
    decreases |s|
  {
    if s != [] {
      var n := |s| - 1;
      var init := Dedup(s[..n]);
      DedupKeepsFirstOccurrenceOrder(s[..n]);
      forall y | y in init ensures IndexOf(s, y) == IndexOf(s[..n], y) < n {
        IndexOfInPrefix(s, n, y);
      }
      var x := s[n];
      if x !in init {
        assert x !in s[..n];
        assert IndexOf(s, x) == n;
      }
    }
  }

  /**
    The directories the structure document declares: `[]` when it has no
    fenced block. What the parser returns has no repeats, and every entry is
    a non-empty single path segment other than the root placeholder.
  */
  function ExpectedDirs(content: string): (r: seq<string>)
    ensures NoDuplicates(r)
    ensures forall i :: 0 <= i < |r| ==> IsDirName(r[i])
  {
    match CodeBlock.ExtractFirstCodeBlock(content)
    case None => []
    case Some(block) =>
      DedupKeepsDirNames(Names(SplitLines(block)));
      Dedup(Names(SplitLines(block)))
  }

  /** Without a fenced block (no opening fence followed by a closing one) nothing is expected. */
  lemma NoFencedBlockNoDirs(content: string)
    requires !CodeBlock.HasFencePair(content)
    ensures ExpectedDirs(content) == []
  {
    CodeBlock.NoneIffNoFencePair(content);
  }

  /**
    Inside a fenced block, a name is expected exactly when some line of the
    block contributes it; the expected names follow the order in which they
    are first contributed.
  */
  lemma ExpectedDirsFromBlock(content: string, block: string)
    requires CodeBlock.ExtractFirstCodeBlock(content) == Some(block)
    ensures forall x :: x in ExpectedDirs(content) <==> x in Names(SplitLines(block))
    ensures var names, r := Names(SplitLines(block)), ExpectedDirs(content);
      forall i, j :: 0 <= i < j < |r| ==> IndexOf(names, r[i]) < IndexOf(names, r[j])
  {
    DedupKeepsFirstOccurrenceOrder(Names(SplitLines(block)));
  }

  /** The root line of a diagram contributes nothing. */
  lemma RootLineDropped(line: string)
    requires line == "PROJECT_NAME/"
    ensures LineName(line) == None
  {
    var name := line[..|line| - 1];
    assert name == RootPlaceholder;
    assert Upper(name) == RootPlaceholder;
    assert line == "" + name + "/";
    LineNameOfEntry("", name);
  }

  /** An indented entry contributes its name. */
  lemma IndentedLine(line: string, name: string)
    requires || (line == "  .agents/" && name == ".agents")
             || (line == "  backend/" && name == "backend")
             || (line == "  frontend/" && name == "frontend")
    ensures LineName(line) == Some(name)
  {
    assert line == "  " + name + "/";
    assert name[0] in {'.', 'b', 'f'};
    assert |name| != |RootPlaceholder|;
    LineNameOfEntry("  ", name);
  }

  /** An indented nested entry contributes its top-level ancestor. */
  lemma IndentedNestedLine(line: string, name: string)
    requires line == "  backend/app/" && name == "backend"
    ensures LineName(line) == Some(name)
  {
    assert |name| != |RootPlaceholder|;
    var sub := line[10..13];
    assert sub == "app";
    assert line == "  " + name + "/" + sub + "/";
    LineNameOfNestedEntry("  ", name, sub);
  }

  /** `FilterMap` over five items of which the first gives nothing and the third and fourth give the same value. */
  lemma FilterMapOfFive(f: string -> Option<string>, items: seq<string>, a: string, b: string, c: string)
    requires |items| == 5
    requires f(items[0]) == None && f(items[1]) == Some(a) && f(items[2]) == Some(b)
    requires f(items[3]) == Some(b) && f(items[4]) == Some(c)
    ensures FilterMap(f, items) == [a, b, b, c]
  {
    FilterMapSnoc(f, items, 0);
    assert FilterMap(f, items[..1]) == [] by { assert items[..0] == []; }
    FilterMapSnoc(f, items, 1);
    FilterMapSnoc(f, items, 2);
    FilterMapSnoc(f, items, 3);
    FilterMapSnoc(f, items, 4);
    assert items[..5] == items;
  }

  /**
    The diagram of the parser's own documentation, with a nested entry
    `backend/app/` added.
  */
  const DocumentedDiagram := ["PROJECT_NAME/", "  .agents/", "  backend/", "  backend/app/", "  frontend/"]

  /** The first line of the documented diagram is its root and contributes nothing. */
  lemma DiagramRootLine(lines: seq<string>)
    requires lines == DocumentedDiagram
    ensures LineName(lines[0]) == None
  {
    RootLineDropped(lines[0]);
  }

  /** The second line of the documented diagram contributes `.agents`. */
  lemma DiagramAgentsLine(lines: seq<string>)
    requires lines == DocumentedDiagram
    ensures LineName(lines[1]) == Some(".agents")
  {
    IndentedLine(lines[1], ".agents");
  }

  /** The third line of the documented diagram contributes `backend`. */
  lemma DiagramBackendLine(lines: seq<string>)
    requires lines == DocumentedDiagram
    ensures LineName(lines[2]) == Some("backend")
  {
    IndentedLine(lines[2], "backend");
  }

  /** The fourth line, `backend/app/`, contributes `backend` once more. */
  lemma DiagramNestedLine(lines: seq<string>)
    requires lines == DocumentedDiagram
    ensures LineName(lines[3]) == Some("backend")
  {
    IndentedNestedLine(lines[3], "backend");
  }

  /** The last line of the documented diagram contributes `frontend`. */
  lemma DiagramFrontendLine(lines: seq<string>)
    requires lines == DocumentedDiagram
    ensures LineName(lines[4]) == Some("frontend")
  {
    IndentedLine(lines[4], "frontend");
  }

  /** The names the lines of the documented diagram contribute, repeats included. */
  lemma DiagramNames(lines: seq<string>)
    requires lines == DocumentedDiagram
    ensures Names(lines) == [".agents", "backend", "backend", "frontend"]
  {
    DiagramRootLine(lines);
    DiagramAgentsLine(lines);
    DiagramBackendLine(lines);
    DiagramNestedLine(lines);
    DiagramFrontendLine(lines);
    FilterMapOfFive(LineName, lines, ".agents", "backend", "frontend");
  }

  /** A repeat of the second name is dropped, and the rest keep their order. */
  lemma DedupRepeatedSecond(a: string, b: string, c: string)
    requires a != b && b != c && a != c
    ensures Dedup([a, b, b, c]) == [a, b, c]
  {
    var s := [a, b, b, c];
    DedupOfTwo(a, b);
    assert s[..2] == [a, b];
    DedupGrows(s, 2, [a, b]);
    DedupGrows(s, 3, [a, b]);
    assert s[..4] == s;
  }

  /** One more element either repeats a kept one or is kept at the end. */
  lemma DedupGrows(s: seq<string>, k: nat, kept: seq<string>)
    requires k < |s| && Dedup(s[..k]) == kept
    ensures Dedup(s[..k + 1]) == if s[k] in kept then kept else kept + [s[k]]
  {
    assert s[..k + 1] == s[..k] + [s[k]];
    DedupSnoc(s[..k], s[k]);
  }

  /** Two distinct names are both kept, in order. */
  lemma DedupOfTwo(a: string, b: string)
    requires a != b
    ensures Dedup([a, b]) == [a, b]
  {
    DedupSnoc([], a);
    assert [] + [a] == [a];
    DedupSnoc([a], b);
    assert [a] + [b] == [a, b];
  }

  /**
    On the documented diagram the parser drops the root line, counts the
    nested `backend/app/` as `backend` once more, and reports the names in
    diagram order.
  */
  lemma DiagramExample(lines: seq<string>)
    requires lines == DocumentedDiagram
    ensures Dedup(Names(lines)) == [".agents", "backend", "frontend"]
  {
    DiagramNames(lines);
    DedupRepeatedSecond(".agents", "backend", "frontend");
  }

  /** A name is among those the lines contribute exactly when some line contributes it. */
  lemma NamesFromLines(lines: seq<string>, x: string)
    ensures x in Names(lines) <==> exists k :: 0 <= k < |lines| && LineName(lines[k]) == Some(x)
  {
    FilterMapMembers(LineName, lines, x);
  }

  /** `parse_expected_top_level_dirs_from_folders_mdc(content)`. */
  method ParseExpectedTopLevelDirs(content: string) returns (expected: seq<string>)
    ensures expected == ExpectedDirs(content)
    ensures NoDuplicates(expected)
    ensures forall i :: 0 <= i < |expected| ==> IsDirName(expected[i])
  {
    var block := CodeBlock.ExtractFirstCodeBlock(content);
    if block.None? {
      return [];
    }
    expected := [];
    var lines := SplitLines(block.value);
    for i := 0 to |lines|
      invariant expected == Dedup(Names(lines[..i]))
    {
      FilterMapSnoc(LineName, lines, i);
      var line := Strip(lines[i]);
      if line == [] {
        assert LineName(lines[i]) == None;
        continue;
      }
      if EndsWith(line, "/") {
        var item := RStrip(line, {'/'});
        item := Strip(LStrip(item, TreeMarkers));
        var parts := Split(item, "/", 1);
        var name := parts[0];
        if name == [] || Upper(name) == RootPlaceholder {
          assert LineName(lines[i]) == None;
          continue;
        }
        assert LineName(lines[i]) == Some(name);
        DedupSnoc(Names(lines[..i]), name);
        if name !in expected {
          expected := expected + [name];
        }
      } else {
        assert LineName(lines[i]) == None;
      }
    }
    assert lines[..|lines|] == lines;
  }
}
