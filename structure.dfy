/**
  The structure check: reads the structure document `.agents/folders.mdc`,
  derives the expected top-level directories from its tree diagram and
  compares them with the directories actually present at the project root.
*/
module Structure {
  import opened Wrappers
  import opened Messages
  import opened FrontMatter
  import TreeListing

  /** The governance directory; it hosts the structure document and is never reported as extra. */
  const AgentsDir := ".agents"

  /** Tool and version-control directories that may always be present. */
  const AllowedExtra: set<string> := {".git", ".idea", ".vscode", "__pycache__"}

  const CannotRead := "Cannot read .agents/folders.mdc"
  const InvalidYaml := "YAML front matter in .agents/folders.mdc is invalid"
  const NoFrontMatter := "No YAML front matter found in .agents/folders.mdc"
  const CannotInfer := "Could not infer expected top-level dirs from folders.mdc (empty or malformed code block)."

  function MissingDirText(d: string): string {
    "Expected top-level directory '" + d + "' from folders.mdc is missing on disk."
  }

  function UnexpectedDirText(d: string): string {
    "Top-level directory '" + d + "' exists on disk but is not listed in folders.mdc. " + "Confirm this is intentional."
  }

  /** The two lists a check fills; it returns the errors followed by the warnings. */
  datatype Report = Report(errors: seq<string>, warnings: seq<string>) {
    function Messages(): seq<string> {
      errors + warnings
    }
  }

  // ---------------------------------------------------------------------------
  // Sorting the directory listing (Python's `sorted` on strings)
  // ---------------------------------------------------------------------------

  /** Python's `a <= b` on strings: code-point order, a proper prefix first. */
  predicate LexLe(a: string, b: string) {
    a == [] || (b != [] && (a[0] < b[0] || (a[0] == b[0] && LexLe(a[1..], b[1..]))))
  }

  /** Any two strings are comparable. */
  lemma {:induction false} LexLeTotal(a: string, b: string)
    ensures LexLe(a, b) || LexLe(b, a)
  {
    if a != [] && b != [] && a[0] == b[0] {
      LexLeTotal(a[1..], b[1..]);
    }
  }

  /** Each name is at most the next one. */
  predicate Sorted(s: seq<string>) {
    forall i :: 0 <= i < |s| - 1 ==> LexLe(s[i], s[i + 1])
  }

  /** `x` placed in front of the first element it does not exceed. */
  function Insert(x: string, s: seq<string>): (r: seq<string>)
    requires Sorted(s)
    ensures Sorted(r) && multiset(r) == multiset(s) + multiset{x}
    ensures r != [] && (r[0] == x || (s != [] && r[0] == s[0]))
  {
    if s == [] then [x]
    else if LexLe(x, s[0]) then [x] + s
    else
      LexLeTotal(x, s[0]);
      var rest := Insert(x, s[1..]);
      assert s == [s[0]] + s[1..];
      [s[0]] + rest
  }

  /** `sorted(names)`: the same names, in ascending order. */
  function Sort(s: seq<string>): (r: seq<string>)
    ensures Sorted(r) && multiset(r) == multiset(s)
  {
    if s == [] then []
    else
      assert s == [s[0]] + s[1..];
      Insert(s[0], Sort(s[1..]))
  }

  // ---------------------------------------------------------------------------
  // The comparison
  // ---------------------------------------------------------------------------

  /** A directory on disk that deserves a warning. */
  predicate IsUnexpected(d: string, expected: seq<string>) {
    d !in AllowedExtra && d !in expected && d != AgentsDir
  }

  /** One error per expected name (in expected order) that is not on disk. */
  function MissingDirs(expected: seq<string>, disk: seq<string>): (r: seq<string>)
    ensures forall i :: 0 <= i < |r| ==> IsError(r[i])
    ensures |r| <= |expected|
  {
    if expected == [] then []
    else
      var d := expected[|expected| - 1];
      MissingDirs(expected[..|expected| - 1], disk) + if d !in disk then [Error(MissingDirText(d))] else []
  }

  /** One warning per directory on disk (in listing order) that is unexpected. */
  function UnexpectedDirs(expected: seq<string>, disk: seq<string>): (r: seq<string>)
    ensures forall i :: 0 <= i < |r| ==> IsWarning(r[i])
    ensures |r| <= |disk|
  {
    if disk == [] then []
    else
      var d := disk[|disk| - 1];
      UnexpectedDirs(expected, disk[..|disk| - 1]) + if IsUnexpected(d, expected) then [Warn(UnexpectedDirText(d))] else []
  }

  lemma MissingDirsSnoc(expected: seq<string>, disk: seq<string>, i: nat)
    requires i < |expected|
    ensures MissingDirs(expected[..i + 1], disk) ==
      MissingDirs(expected[..i], disk) + if expected[i] !in disk then [Error(MissingDirText(expected[i]))] else []
  {
    assert expected[..i + 1][..i] == expected[..i];
  }

  lemma UnexpectedDirsSnoc(expected: seq<string>, disk: seq<string>, i: nat)
    requires i < |disk|
    ensures UnexpectedDirs(expected, disk[..i + 1]) ==
      UnexpectedDirs(expected, disk[..i]) + if IsUnexpected(disk[i], expected) then [Warn(UnexpectedDirText(disk[i]))] else []
  {
    assert disk[..i + 1][..i] == disk[..i];
  }

  /**
    The comparison of the expected names with the sorted listing: with no
    expected names, a single warning and no comparison at all.
  */
  function Reconcile(expected: seq<string>, disk: seq<string>): (r: Report)
    ensures forall i :: 0 <= i < |r.errors| ==> IsError(r.errors[i])
    ensures forall i :: 0 <= i < |r.warnings| ==> IsWarning(r.warnings[i])
    ensures |r.errors| <= |expected| && (expected != [] ==> |r.warnings| <= |disk|)
  {
    if expected == [] then Report([], [Warn(CannotInfer)])
    else Report(MissingDirs(expected, disk), UnexpectedDirs(expected, disk))
  }

  /**
    The findings for a readable structure document: `fm` is its front
    matter, `expected` the directories its diagram declares and `disk` the
    sorted listing of the root.
  */
  function Findings(fm: Header, expected: seq<string>, disk: seq<string>): (r: Report)
    ensures forall i :: 0 <= i < |r.errors| ==> IsError(r.errors[i])
    ensures forall i :: 0 <= i < |r.warnings| ==> IsWarning(r.warnings[i])
  {
    var fmErrors := if YamlErrorKey in fm then [Error(InvalidYaml)] else [];
    var fmWarnings := if YamlErrorKey !in fm && fm == map[] then [Warn(NoFrontMatter)] else [];
    var r := Reconcile(expected, disk);
    Report(fmErrors + r.errors, fmWarnings + r.warnings)
  }

  /** `check_folders_mdc_structure()`, given the document (if readable) and the root's directories. */
  function FoldersMdcReport(content: Option<string>, yaml: YamlSupport, listing: seq<string>): (r: Report)
    ensures forall i :: 0 <= i < |r.errors| ==> IsError(r.errors[i])
    ensures forall i :: 0 <= i < |r.warnings| ==> IsWarning(r.warnings[i])
  {
    match content
    case None => Report([Error(CannotRead)], [])
    case Some(text) =>
      var doc := ExtractFrontMatter(text, yaml);
      Findings(doc.frontMatter, TreeListing.ExpectedDirs(doc.body), Sort(listing))
  }

  /** The two loops of the comparison: missing expected names, then unexpected names on disk. */
  method CompareWithDisk(expected: seq<string>, disk: seq<string>) returns (errors: seq<string>, warnings: seq<string>)
    ensures errors == MissingDirs(expected, disk)
    ensures warnings == UnexpectedDirs(expected, disk)
  {
    errors := [];
    for i := 0 to |expected|
      invariant errors == MissingDirs(expected[..i], disk)
    {
      MissingDirsSnoc(expected, disk, i);
      if expected[i] !in disk {
        errors := errors + [Error(MissingDirText(expected[i]))];
      }
    }
    assert expected[..|expected|] == expected;
    warnings := [];
    for i := 0 to |disk|
      invariant warnings == UnexpectedDirs(expected, disk[..i])
    {
      UnexpectedDirsSnoc(expected, disk, i);
      var d := disk[i];
      if d in AllowedExtra {
        continue;
      }
      if d !in expected && d != AgentsDir {
        warnings := warnings + [Warn(UnexpectedDirText(d))];
      }
    }
    assert disk[..|disk|] == disk;
  }

  /** `check_folders_mdc_structure()`: the errors and warnings lists filled in the source's order. */
  method CheckFoldersMdcStructure(content: Option<string>, yaml: YamlSupport, listing: seq<string>)
    returns (messages: seq<string>)
    ensures messages == FoldersMdcReport(content, yaml, listing).Messages()
  {
    if content.None? {
      return [Error(CannotRead)];
    }
    var doc := ExtractFrontMatter(content.value, yaml);
    var errors, warnings := CheckDocument(doc, listing);
    return errors + warnings;
  }

  /** The checks on a readable structure document, once its front matter is extracted. */
  method CheckDocument(doc: Extracted, listing: seq<string>) returns (errors: seq<string>, warnings: seq<string>)
    ensures Report(errors, warnings) == Findings(doc.frontMatter, TreeListing.ExpectedDirs(doc.body), Sort(listing))
  {
    errors := [];
    warnings := [];
    if YamlErrorKey in doc.frontMatter {
      errors := errors + [Error(InvalidYaml)];
    } else if doc.frontMatter == map[] {
      warnings := warnings + [Warn(NoFrontMatter)];
    }
    ghost var fmErrors, fmWarnings := errors, warnings;
    assert fmErrors == if YamlErrorKey in doc.frontMatter then [Error(InvalidYaml)] else [];
    assert fmWarnings == if YamlErrorKey !in doc.frontMatter && doc.frontMatter == map[] then [Warn(NoFrontMatter)] else [];
    var expected := TreeListing.ParseExpectedTopLevelDirs(doc.body);
    if expected == [] {
      warnings := warnings + [Warn(CannotInfer)];
      return;
    }
    var missing, unexpected := CompareWithDisk(expected, Sort(listing));
    errors := errors + missing;
    warnings := warnings + unexpected;
  }

  // ---------------------------------------------------------------------------
  // What the check reports
  // ---------------------------------------------------------------------------

  /** The character right after the tag of an error or a warning is the first one of its text. */
  lemma TextAfterTag(x: string)
    requires x != []
    ensures Error(x)[8] == x[0] && Warn(x)[8] == x[0]
  {
    assert Error(x)[8..][0] == Error(x)[8];
    assert Warn(x)[8..][0] == Warn(x)[8];
  }

  /** Where a missing-directory text names its directory. */
  lemma MissingDirTextNames(d: string)
    ensures var m := MissingDirText(d); |m| == 30 + |d| + 38 && m[30..30 + |d|] == d
  {
    var m := MissingDirText(d);
    var head, tail := "Expected top-level directory '", "' from folders.mdc is missing on disk.";
    assert m == head + d + tail;
    assert (head + d + tail)[|head|..|head| + |d|] == d;
  }

  /** Where an unexpected-directory text names its directory. */
  lemma UnexpectedDirTextNames(d: string)
    ensures var m := UnexpectedDirText(d); |m| == 21 + |d| + 79 && m[21..21 + |d|] == d
  {
    var m := UnexpectedDirText(d);
    var head := "Top-level directory '";
    var tail := "' exists on disk but is not listed in folders.mdc. " + "Confirm this is intentional.";
    assert m == head + d + tail;
    assert (head + d + tail)[|head|..|head| + |d|] == d;
  }

  /** Two findings about directories are the same message only when they name the same directory. */
  lemma DirTextsInjective(a: string, b: string)
    ensures Error(MissingDirText(a)) == Error(MissingDirText(b)) ==> a == b
    ensures Warn(UnexpectedDirText(a)) == Warn(UnexpectedDirText(b)) ==> a == b
  {
    MissingDirTextNames(a);
    MissingDirTextNames(b);
    UnexpectedDirTextNames(a);
    UnexpectedDirTextNames(b);
  }

  /** The fixed texts are never taken for a finding about a directory. */
  lemma FixedTextsDiffer(d: string)
    ensures Error(MissingDirText(d)) != Error(InvalidYaml)
    ensures Warn(UnexpectedDirText(d)) != Warn(NoFrontMatter)
    ensures Warn(UnexpectedDirText(d)) != Warn(CannotInfer)
  {
    TextAfterTag(MissingDirText(d));
    TextAfterTag(UnexpectedDirText(d));
    TextAfterTag(InvalidYaml);
    TextAfterTag(NoFrontMatter);
    TextAfterTag(CannotInfer);
  }

  /** An expected name is reported missing exactly when it is not on disk. */
  lemma {:induction false} MissingDirsMembers(expected: seq<string>, disk: seq<string>, d: string)
    ensures Error(MissingDirText(d)) in MissingDirs(expected, disk) <==> d in expected && d !in disk
    decreases |expected|
  {
    if expected != [] {
      var n := |expected| - 1;
      MissingDirsMembers(expected[..n], disk, d);
      MissingDirsLast(expected, disk, d);
      assert expected == expected[..n] + [expected[n]];
    }
  }

  /** The last expected name adds the error about `d` exactly when it is `d` and `d` is not on disk. */
  lemma MissingDirsLast(expected: seq<string>, disk: seq<string>, d: string)
    requires expected != []
    ensures var n := |expected| - 1; var e := Error(MissingDirText(d));
      e in MissingDirs(expected, disk) <==> e in MissingDirs(expected[..n], disk) || (expected[n] !in disk && d == expected[n])
  {
    var n := |expected| - 1;
    var e := Error(MissingDirText(d));
    var init := MissingDirs(expected[..n], disk);
    var last := if expected[n] !in disk then [Error(MissingDirText(expected[n]))] else [];
    assert MissingDirs(expected, disk) == init + last;
    DirTextsInjective(d, expected[n]);
  }

  /** A directory on disk is reported exactly when it is unexpected. */
  lemma {:induction false} UnexpectedDirsMembers(expected: seq<string>, disk: seq<string>, d: string)
    ensures Warn(UnexpectedDirText(d)) in UnexpectedDirs(expected, disk) <==> d in disk && IsUnexpected(d, expected)
    decreases |disk|
  {
    if disk != [] {
      var n := |disk| - 1;
      UnexpectedDirsMembers(expected, disk[..n], d);
      DirTextsInjective(d, disk[n]);
      assert disk == disk[..n] + [disk[n]];
    }
  }

  /** Each missing-directory error is the finding about some expected name. */
  lemma {:induction false} MissingDirsShape(expected: seq<string>, disk: seq<string>, i: nat)
    requires i < |MissingDirs(expected, disk)|
    ensures exists d :: d in expected && MissingDirs(expected, disk)[i] == Error(MissingDirText(d))
    decreases |expected|
  {
    var n := |expected| - 1;
    var init := MissingDirs(expected[..n], disk);
    if i < |init| {
      MissingDirsShape(expected[..n], disk, i);
      var d :| d in expected[..n] && init[i] == Error(MissingDirText(d));
      assert MissingDirs(expected, disk)[i] == init[i];
    } else {
      assert MissingDirs(expected, disk)[i] == Error(MissingDirText(expected[n]));
    }
  }

  /** Each unexpected-directory warning is the finding about some listed name. */
  lemma {:induction false} UnexpectedDirsShape(expected: seq<string>, disk: seq<string>, i: nat)
    requires i < |UnexpectedDirs(expected, disk)|
    ensures exists d :: d in disk && UnexpectedDirs(expected, disk)[i] == Warn(UnexpectedDirText(d))
    decreases |disk|
  {
    var n := |disk| - 1;
    var init := UnexpectedDirs(expected, disk[..n]);
    if i < |init| {
      UnexpectedDirsShape(expected, disk[..n], i);
      var d :| d in disk[..n] && init[i] == Warn(UnexpectedDirText(d));
      assert UnexpectedDirs(expected, disk)[i] == init[i];
    } else {
      assert UnexpectedDirs(expected, disk)[i] == Warn(UnexpectedDirText(disk[n]));
    }
  }

  /** One error per missing name: with distinct expected names, the errors are distinct. */
  lemma {:induction false} MissingDirsOncePerName(expected: seq<string>, disk: seq<string>)
    requires TreeListing.NoDuplicates(expected)
    ensures TreeListing.NoDuplicates(MissingDirs(expected, disk))
    decreases |expected|
  {
    if expected != [] {
      var n := |expected| - 1;
      var init := expected[..n];
      MissingDirsOncePerName(init, disk);
      var x := expected[n];
      var before := MissingDirs(init, disk);
      if x !in disk {
        assert x !in init;
        MissingDirsMembers(init, disk, x);
        NoDuplicatesSnoc(before, Error(MissingDirText(x)));
      } else {
        assert MissingDirs(expected, disk) == before + [];
      }
    }
  }

  /** One warning per unexpected name: with a listing free of repeats, the warnings are distinct. */
  lemma {:induction false} UnexpectedDirsOncePerName(expected: seq<string>, disk: seq<string>)
    requires TreeListing.NoDuplicates(disk)
    ensures TreeListing.NoDuplicates(UnexpectedDirs(expected, disk))
    decreases |disk|
  {
    if disk != [] {
      var n := |disk| - 1;
      var init := disk[..n];
      UnexpectedDirsOncePerName(expected, init);
      var x := disk[n];
      var before := UnexpectedDirs(expected, init);
      if IsUnexpected(x, expected) {
        assert x !in init;
        UnexpectedDirsMembers(expected, init, x);
        NoDuplicatesSnoc(before, Warn(UnexpectedDirText(x)));
      } else {
        assert UnexpectedDirs(expected, disk) == before + [];
      }
    }
  }

  /** Sorting neither adds nor drops a name. */
  lemma SortMembers(listing: seq<string>, d: string)
    ensures d in Sort(listing) <==> d in listing
  {
    assert d in Sort(listing) <==> d in multiset(Sort(listing));
    assert d in listing <==> d in multiset(listing);
  }

  /** A sequence without repeats holds each value at most once. */
  lemma {:induction false} CountAtMostOne(s: seq<string>, x: string)
    requires TreeListing.NoDuplicates(s)
    ensures multiset(s)[x] <= 1
    decreases |s|
  {
    if s != [] {
      var n := |s| - 1;
      CountAtMostOne(s[..n], x);
      assert s == s[..n] + [s[n]];
      if s[n] == x {
        assert x !in s[..n];
      }
    }
  }

  /** A value found at two positions is held at least twice. */
  lemma CountAtLeastTwo(s: seq<string>, i: nat, j: nat)
    requires i < j < |s| && s[i] == s[j]
    ensures multiset(s)[s[i]] >= 2
  {
    assert s == s[..j] + s[j..];
    assert s[i] in s[..j] && s[j] in s[j..];
    assert multiset(s) == multiset(s[..j]) + multiset(s[j..]);
  }

  /** Sorting a listing free of repeats gives one free of repeats. */
  lemma SortKeepsNoDuplicates(listing: seq<string>)
    requires TreeListing.NoDuplicates(listing)
    ensures TreeListing.NoDuplicates(Sort(listing))
  {
    var r := Sort(listing);
    forall i, j | 0 <= i < j < |r| ensures r[i] != r[j] {
      if r[i] == r[j] {
        CountAtLeastTwo(r, i, j);
        CountAtMostOne(listing, r[i]);
      }
    }
  }

  /**
    Every finding is an error or a warning, and all errors come before all
    warnings.
  */
  lemma ErrorsBeforeWarnings(fm: Header, expected: seq<string>, disk: seq<string>)
    ensures var m := Findings(fm, expected, disk).Messages();
      && (forall i :: 0 <= i < |m| ==> IsError(m[i]) || IsWarning(m[i]))
      && (forall i, j :: 0 <= i < j < |m| && IsWarning(m[i]) ==> !IsError(m[j]))
  {
    var r := Findings(fm, expected, disk);
    assert forall i :: 0 <= i < |r.errors| ==> IsError(r.errors[i]);
    assert forall i :: 0 <= i < |r.warnings| ==> IsWarning(r.warnings[i]);
    var m := r.Messages();
    forall i | 0 <= i < |m| ensures (IsError(m[i]) <==> i < |r.errors|) && (IsWarning(m[i]) <==> i >= |r.errors|) {
      TagsExclusive(m[i]);
      if i >= |r.errors| {
        assert m[i] == r.warnings[i - |r.errors|];
      } else {
        assert m[i] == r.errors[i];
      }
    }
  }

  /** An unreadable structure document gives the one error and nothing else. */
  lemma UnreadableDocument(yaml: YamlSupport, listing: seq<string>)
    ensures var m := FoldersMdcReport(None, yaml, listing).Messages();
      m == [Error(CannotRead)] && IsError(m[0])
  {
  }

  /** The front-matter findings never occur among the directory findings. */
  lemma FixedTextsNotDirFindings(expected: seq<string>, disk: seq<string>)
    ensures Error(InvalidYaml) !in MissingDirs(expected, disk)
    ensures Warn(NoFrontMatter) !in UnexpectedDirs(expected, disk)
  {
    forall i | 0 <= i < |MissingDirs(expected, disk)| ensures MissingDirs(expected, disk)[i] != Error(InvalidYaml) {
      MissingDirsShape(expected, disk, i);
      var d :| d in expected && MissingDirs(expected, disk)[i] == Error(MissingDirText(d));
      FixedTextsDiffer(d);
    }
    forall i | 0 <= i < |UnexpectedDirs(expected, disk)| ensures UnexpectedDirs(expected, disk)[i] != Warn(NoFrontMatter) {
      UnexpectedDirsShape(expected, disk, i);
      var d :| d in disk && UnexpectedDirs(expected, disk)[i] == Warn(UnexpectedDirText(d));
      FixedTextsDiffer(d);
    }
  }

  /**
    Front-matter findings: an error exactly when the YAML loader rejected
    the header, a warning exactly when there is no usable header at all.
  */
  lemma FrontMatterFindings(fm: Header, expected: seq<string>, disk: seq<string>)
    ensures var m := Findings(fm, expected, disk).Messages();
      && (Error(InvalidYaml) in m <==> YamlErrorKey in fm)
      && (Warn(NoFrontMatter) in m <==> fm == map[])
  {
    var r := Findings(fm, expected, disk);
    FixedTextsNotDirFindings(expected, disk);
    TextAfterTag(CannotInfer);
    TextAfterTag(NoFrontMatter);
    assert Error(InvalidYaml) in r.Messages() <==> Error(InvalidYaml) in r.errors;
    assert Warn(NoFrontMatter) in r.Messages() <==> Warn(NoFrontMatter) in r.warnings;
  }

  /**
    Without a YAML library the structure document's header is kept raw: it
    is neither reported as missing nor as invalid.
  */
  lemma WithoutYamlNoHeaderFinding(block: string, expected: seq<string>, disk: seq<string>)
    ensures var m := Findings(HeaderFor(block, NoYaml), expected, disk).Messages();
      Warn(NoFrontMatter) !in m && Error(InvalidYaml) !in m
  {
    var fm := HeaderFor(block, NoYaml);
    assert fm == map[RawYamlKey := Str(block)];
    assert RawYamlKey in fm;
    assert YamlErrorKey != RawYamlKey;
    FrontMatterFindings(fm, expected, disk);
  }

  /**
    The comparison when some directories are declared: an error for exactly
    the declared names absent from disk, a warning for exactly the names on
    disk that are neither declared nor allowed; a name both declared and
    present is never mentioned.
  */
  lemma DirectoryFindings(fm: Header, expected: seq<string>, disk: seq<string>, d: string)
    requires expected != []
    ensures var m := Findings(fm, expected, disk).Messages();
      && (Error(MissingDirText(d)) in m <==> d in expected && d !in disk)
      && (Warn(UnexpectedDirText(d)) in m <==> d in disk && IsUnexpected(d, expected))
      && (d in expected && d in disk ==> Error(MissingDirText(d)) !in m && Warn(UnexpectedDirText(d)) !in m)
  {
    var r := Findings(fm, expected, disk);
    MissingDirsMembers(expected, disk, d);
    UnexpectedDirsMembers(expected, disk, d);
    FixedTextsDiffer(d);
    FindingsByTag(r, Error(MissingDirText(d)), Warn(UnexpectedDirText(d)));
  }

  /** An error is among a report's messages exactly when it is among its errors, and a warning likewise. */
  lemma FindingsByTag(r: Report, e: string, w: string)
    requires forall i :: 0 <= i < |r.errors| ==> IsError(r.errors[i])
    requires forall i :: 0 <= i < |r.warnings| ==> IsWarning(r.warnings[i])
    requires IsError(e) && IsWarning(w)
    ensures e in r.Messages() <==> e in r.errors
    ensures w in r.Messages() <==> w in r.warnings
  {
    TagsExclusive(e);
    TagsExclusive(w);
  }

  /**
    When no directory is declared, the listing of the root is never
    consulted: the comparison contributes exactly the one "could not infer"
    warning, after the front-matter finding if any, and no finding mentions
    a directory.
  */
  lemma NothingExpectedNothingCompared(fm: Header, disk: seq<string>)
    ensures Findings(fm, [], disk) == Findings(fm, [], [])
    ensures Reconcile([], disk).Messages() == [Warn(CannotInfer)]
    ensures var r := Findings(fm, [], disk);
      && r.errors == (if YamlErrorKey in fm then [Error(InvalidYaml)] else [])
      && r.warnings == (if YamlErrorKey !in fm && fm == map[] then [Warn(NoFrontMatter)] else []) + [Warn(CannotInfer)]
    ensures var m := Findings(fm, [], disk).Messages();
      forall d :: Error(MissingDirText(d)) !in m && Warn(UnexpectedDirText(d)) !in m
  {
    var m := Findings(fm, [], disk).Messages();
    forall d ensures Error(MissingDirText(d)) !in m && Warn(UnexpectedDirText(d)) !in m {
      FixedTextsDiffer(d);
    }
  }

  /** With distinct expected and listed names, each finding is reported once. */
  lemma FindingsOncePerName(fm: Header, expected: seq<string>, disk: seq<string>)
    requires TreeListing.NoDuplicates(expected) && TreeListing.NoDuplicates(disk)
    ensures var r := Findings(fm, expected, disk);
      TreeListing.NoDuplicates(r.errors) && TreeListing.NoDuplicates(r.warnings)
  {
    ErrorsOncePerName(fm, expected, disk);
    WarningsOncePerName(fm, expected, disk);
  }

  lemma ErrorsOncePerName(fm: Header, expected: seq<string>, disk: seq<string>)
    requires TreeListing.NoDuplicates(expected)
    ensures TreeListing.NoDuplicates(Findings(fm, expected, disk).errors)
  {
    var fmErrors := if YamlErrorKey in fm then [Error(InvalidYaml)] else [];
    var errors := Findings(fm, expected, disk).errors;
    if expected == [] {
      assert errors == fmErrors + [];
    } else {
      assert errors == fmErrors + MissingDirs(expected, disk);
      MissingDirsOncePerName(expected, disk);
      FixedTextsNotDirFindings(expected, disk);
      if YamlErrorKey in fm {
        NoDuplicatesCons(Error(InvalidYaml), MissingDirs(expected, disk));
      } else {
        assert errors == MissingDirs(expected, disk);
      }
    }
  }

  lemma WarningsOncePerName(fm: Header, expected: seq<string>, disk: seq<string>)
    requires TreeListing.NoDuplicates(disk)
    ensures TreeListing.NoDuplicates(Findings(fm, expected, disk).warnings)
  {
    var fmWarnings := if YamlErrorKey !in fm && fm == map[] then [Warn(NoFrontMatter)] else [];
    var warnings := Findings(fm, expected, disk).warnings;
    if expected == [] {
      assert warnings == fmWarnings + [Warn(CannotInfer)];
      TextAfterTag(NoFrontMatter);
      TextAfterTag(CannotInfer);
      assert Warn(NoFrontMatter) != Warn(CannotInfer);
    } else {
      assert warnings == fmWarnings + UnexpectedDirs(expected, disk);
      UnexpectedDirsOncePerName(expected, disk);
      FixedTextsNotDirFindings(expected, disk);
      if fmWarnings != [] {
        NoDuplicatesCons(Warn(NoFrontMatter), UnexpectedDirs(expected, disk));
      } else {
        assert warnings == UnexpectedDirs(expected, disk);
      }
    }
  }

  lemma NoDuplicatesSnoc(s: seq<string>, x: string)
    requires TreeListing.NoDuplicates(s) && x !in s
    ensures TreeListing.NoDuplicates(s + [x])
  {
    var t := s + [x];
    forall i, j | 0 <= i < j < |t| ensures t[i] != t[j] {
      assert t[i] == s[i];
    }
  }

  lemma NoDuplicatesCons(x: string, s: seq<string>)
    requires x !in s && TreeListing.NoDuplicates(s)
    ensures TreeListing.NoDuplicates([x] + s)
  {
    var t := [x] + s;
    forall i, j | 0 <= i < j < |t| ensures t[i] != t[j] {
      assert t[j] == s[j - 1];
      if i > 0 {
        assert t[i] == s[i - 1];
      }
    }
  }

  /**
    The whole check on a readable document: the directory findings compare
    the names the diagram declares with the names listed at the root, and
    each is reported once.
  */
  lemma StructureCheckFindings(text: string, yaml: YamlSupport, listing: seq<string>, d: string)
    requires TreeListing.NoDuplicates(listing)
    ensures var doc := ExtractFrontMatter(text, yaml);
      var expected := TreeListing.ExpectedDirs(doc.body);
      var r := FoldersMdcReport(Some(text), yaml, listing);
      && (expected != [] ==> (Error(MissingDirText(d)) in r.Messages() <==> d in expected && d !in listing))
      && (expected != [] ==> (Warn(UnexpectedDirText(d)) in r.Messages() <==> d in listing && IsUnexpected(d, expected)))
      && TreeListing.NoDuplicates(r.errors) && TreeListing.NoDuplicates(r.warnings)
  {
    var doc := ExtractFrontMatter(text, yaml);
    var expected := TreeListing.ExpectedDirs(doc.body);
    SortMembers(listing, d);
    SortKeepsNoDuplicates(listing);
    if expected != [] {
      DirectoryFindings(doc.frontMatter, expected, Sort(listing), d);
    }
    FindingsOncePerName(doc.frontMatter, expected, Sort(listing));
  }

  /** The example of a declared `backend` and `frontend` against `backend` and `docs` on disk. */
  lemma ReconcileExample()
    ensures Reconcile(["backend", "frontend"], ["backend", "docs"]) ==
      Report([Error(MissingDirText("frontend"))], [Warn(UnexpectedDirText("docs"))])
  {
    var expected, disk := ["backend", "frontend"], ["backend", "docs"];
    assert expected[..1] == ["backend"] && disk[..1] == ["backend"];
    assert ["backend"][..0] == [];
    assert "backend" in disk && "frontend" !in disk;
    assert MissingDirs(["backend"], disk) == [];
    assert MissingDirs(expected, disk) == [Error(MissingDirText("frontend"))];
    assert "docs" !in expected && "docs" !in AllowedExtra && "docs" != AgentsDir;
    assert "backend" in expected;
    assert UnexpectedDirs(expected, ["backend"]) == [];
    assert UnexpectedDirs(expected, disk) == [Warn(UnexpectedDirText("docs"))];
  }
}
