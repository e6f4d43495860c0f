/**
  The delegation check: each module document under `.agents/` must carry
  front matter that names its module and hands the folder structure over to
  `folders.mdc` instead of redefining it.
*/
module Delegation {
  import opened Wrappers
  import opened Messages
  import opened FrontMatter

  /** The value of `structure` by which a module document delegates to `folders.mdc`. */
  const StructureMarker := "refer-to-folders.mdc"

  /** The module documents, in the order they are visited, each with the module it must declare. */
  const ExpectedModules: seq<(string, string)> :=
    [("backend.mdc", "backend"), ("frontend.mdc", "frontend"), ("integration.mdc", "integration")]

  /** `fm.get(key)`. */
  function Lookup(fm: Header, key: string): Option<Value> {
    if key in fm then Some(fm[key]) else None
  }

  /** How a looked-up value prints inside an f-string; an absent key prints as `None`. */
  function Shown(v: Option<Value>): string {
    match v
    case None => "None"
    case Some(Str(s)) => s
    case Some(Other(shown)) => shown
  }

  /** `value != expected` for a string `expected`: only the same string is equal to it. */
  predicate Differs(v: Option<Value>, expected: string) {
    v != Some(Str(expected))
  }

  function MissingFileText(filename: string): string {
    "Missing MDC file: .agents/" + filename
  }

  function NoFrontMatterText(filename: string): string {
    ".agents/" + filename + " is missing YAML front matter."
  }

  function ModuleMismatchText(filename: string, expectedModule: string, found: string): string {
    ".agents/" + filename + ": front matter 'module' should be '" + expectedModule + "', found '" + found + "'."
  }

  function StructureMismatchText(filename: string, found: string): string {
    ".agents/" + filename + ": front matter 'structure' should be 'refer-to-folders.mdc' "
    + "to delegate structure to folders.mdc (found '" + found + "')."
  }

  /** The findings for a module document whose front matter `fm` is not empty. */
  function HeaderMessages(filename: string, expectedModule: string, fm: Header): (r: seq<string>)
    ensures forall i :: 0 <= i < |r| ==> IsError(r[i])
  {
    var moduleValue := Lookup(fm, "module");
    var structure := Lookup(fm, "structure");
    (if Differs(moduleValue, expectedModule) then [Error(ModuleMismatchText(filename, expectedModule, Shown(moduleValue)))] else [])
    + (if Differs(structure, StructureMarker) then [Error(StructureMismatchText(filename, Shown(structure)))] else [])
  }

  /** The findings for a module document that exists, given its front matter `fm`. */
  function DocumentMessages(filename: string, expectedModule: string, fm: Header): (r: seq<string>)
    ensures forall i :: 0 <= i < |r| ==> IsError(r[i])
  {
    if fm == map[] then [Error(NoFrontMatterText(filename))]
    else HeaderMessages(filename, expectedModule, fm)
  }

  /** The findings for one module document, given its content if it exists. */
  function FileMessages(filename: string, expectedModule: string, content: Option<string>, yaml: YamlSupport): (r: seq<string>)
    ensures forall i :: 0 <= i < |r| ==> IsError(r[i])
  {
    match content
    case None => [Error(MissingFileText(filename))]
    case Some(text) => DocumentMessages(filename, expectedModule, ExtractFrontMatter(text, yaml).frontMatter)
  }

  /** The content of a document under `.agents/`, if it exists. */
  function Load(docs: map<string, string>, filename: string): Option<string> {
    if filename in docs then Some(docs[filename]) else None
  }

  /** The findings for the given documents, one document after the other. */
  function AllFileMessages(modules: seq<(string, string)>, docs: map<string, string>, yaml: YamlSupport): (r: seq<string>)
    ensures forall i :: 0 <= i < |r| ==> IsError(r[i])
  {
    if modules == [] then []
    else
      var (filename, expectedModule) := modules[|modules| - 1];
      AllFileMessages(modules[..|modules| - 1], docs, yaml) + FileMessages(filename, expectedModule, Load(docs, filename), yaml)
  }

  /** `check_module_mdc_structure_reference()`, given the documents present under `.agents/`. */
  function ModuleReferenceMessages(docs: map<string, string>, yaml: YamlSupport): (r: seq<string>)
    ensures forall i :: 0 <= i < |r| ==> IsError(r[i])
  {
    AllFileMessages(ExpectedModules, docs, yaml)
  }

  lemma AllFileMessagesSnoc(modules: seq<(string, string)>, docs: map<string, string>, yaml: YamlSupport, i: nat)
    requires i < |modules|
    ensures AllFileMessages(modules[..i + 1], docs, yaml) ==
      AllFileMessages(modules[..i], docs, yaml) + FileMessages(modules[i].0, modules[i].1, Load(docs, modules[i].0), yaml)
  {
    assert modules[..i + 1][..i] == modules[..i];
  }

  /** The checks on the front matter of one document that exists. */
  method CheckFrontMatter(filename: string, expectedModule: string, fm: Header) returns (errors: seq<string>)
    ensures errors == DocumentMessages(filename, expectedModule, fm)
  {
    errors := [];
    if fm == map[] {
      errors := errors + [Error(NoFrontMatterText(filename))];
      return;
    }
    var moduleValue := Lookup(fm, "module");
    if moduleValue != Some(Str(expectedModule)) {
      errors := errors + [Error(ModuleMismatchText(filename, expectedModule, Shown(moduleValue)))];
    }
    var structure := Lookup(fm, "structure");
    if structure != Some(Str(StructureMarker)) {
      errors := errors + [Error(StructureMismatchText(filename, Shown(structure)))];
    }
  }

  /** `check_module_mdc_structure_reference()`: every document is checked, whatever the earlier ones gave. */
  method CheckModuleMdcStructureReference(docs: map<string, string>, yaml: YamlSupport) returns (messages: seq<string>)
    ensures messages == ModuleReferenceMessages(docs, yaml)
  {
    var errors: seq<string> := [];
    for i := 0 to |ExpectedModules|
      invariant errors == AllFileMessages(ExpectedModules[..i], docs, yaml)
    {
      AllFileMessagesSnoc(ExpectedModules, docs, yaml, i);
      var (filename, expectedModule) := ExpectedModules[i];
      if filename !in docs {
        errors := errors + [Error(MissingFileText(filename))];
        continue;
      }
      var doc := ExtractFrontMatter(docs[filename], yaml);
      var fileErrors := CheckFrontMatter(filename, expectedModule, doc.frontMatter);
      errors := errors + fileErrors;
    }
    assert ExpectedModules[..|ExpectedModules|] == ExpectedModules;
    return errors;
  }

  // ---------------------------------------------------------------------------
  // What the check reports
  // ---------------------------------------------------------------------------

  /** The findings for two documents are those of the first, then the second. */
  lemma AllFileMessagesOfTwo(modules: seq<(string, string)>, docs: map<string, string>, yaml: YamlSupport)
    requires |modules| == 2
    ensures AllFileMessages(modules, docs, yaml) ==
      FileMessages(modules[0].0, modules[0].1, Load(docs, modules[0].0), yaml)
      + FileMessages(modules[1].0, modules[1].1, Load(docs, modules[1].0), yaml)
  {
    var f0 := FileMessages(modules[0].0, modules[0].1, Load(docs, modules[0].0), yaml);
    assert AllFileMessages(modules[..1], docs, yaml) == f0 by {
      AllFileMessagesSnoc(modules, docs, yaml, 0);
      assert modules[..0] == [];
    }
    AllFileMessagesSnoc(modules, docs, yaml, 1);
    assert modules[..2] == modules;
  }

  /** The findings for three documents are those of the first, then the second, then the third. */
  lemma AllFileMessagesOfThree(modules: seq<(string, string)>, docs: map<string, string>, yaml: YamlSupport)
    requires |modules| == 3
    ensures AllFileMessages(modules, docs, yaml) ==
      FileMessages(modules[0].0, modules[0].1, Load(docs, modules[0].0), yaml)
      + FileMessages(modules[1].0, modules[1].1, Load(docs, modules[1].0), yaml)
      + FileMessages(modules[2].0, modules[2].1, Load(docs, modules[2].0), yaml)
  {
    var init := modules[..2];
    assert init[0] == modules[0] && init[1] == modules[1];
    AllFileMessagesOfTwo(init, docs, yaml);
    AllFileMessagesSnoc(modules, docs, yaml, 2);
    assert modules[..3] == modules;
  }

  /** The three documents are checked independently and their findings concatenated in order. */
  lemma EveryDocumentChecked(docs: map<string, string>, yaml: YamlSupport)
    ensures ModuleReferenceMessages(docs, yaml) ==
      FileMessages("backend.mdc", "backend", Load(docs, "backend.mdc"), yaml)
      + FileMessages("frontend.mdc", "frontend", Load(docs, "frontend.mdc"), yaml)
      + FileMessages("integration.mdc", "integration", Load(docs, "integration.mdc"), yaml)
  {
    var m := ExpectedModules;
    assert m[0] == ("backend.mdc", "backend") && m[1] == ("frontend.mdc", "frontend")
      && m[2] == ("integration.mdc", "integration");
    AllFileMessagesOfThree(m, docs, yaml);
  }

  /** The character where a `module` finding names its field. */
  lemma ModuleTextField(filename: string, expectedModule: string, a: string)
    ensures var s := ModuleMismatchText(filename, expectedModule, a);
      |s| > 8 + |filename| + 16 && s[8 + |filename| + 16] == 'm'
  {
    var s := ModuleMismatchText(filename, expectedModule, a);
    assert s == ".agents/" + filename + ": front matter '" + ("module' should be '" + expectedModule + "', found '" + a + "'.");
  }

  /** The character where a `structure` finding names its field. */
  lemma StructureTextField(filename: string, b: string)
    ensures var t := StructureMismatchText(filename, b);
      |t| > 8 + |filename| + 16 && t[8 + |filename| + 16] == 's'
  {
    var t := StructureMismatchText(filename, b);
    var field := ": front matter 'structure' should be 'refer-to-folders.mdc' ";
    assert t == (".agents/" + filename) + (field + ("to delegate structure to folders.mdc (found '" + b + "')."));
    assert t[8 + |filename| + 16] == field[16];
  }

  /** Where the two field findings differ: the field name after the common opening. */
  lemma FieldTextsDiffer(filename: string, expectedModule: string, a: string, b: string)
    ensures ModuleMismatchText(filename, expectedModule, a) != StructureMismatchText(filename, b)
  {
    ModuleTextField(filename, expectedModule, a);
    StructureTextField(filename, b);
  }

  /**
    A document with non-empty front matter gets an error about `module`
    exactly when it does not declare the expected module, and one about
    `structure` exactly when it does not delegate to `folders.mdc`; nothing else.
  */
  lemma HeaderFindings(filename: string, expectedModule: string, fm: Header)
    ensures var m := HeaderMessages(filename, expectedModule, fm);
      var moduleValue, structure := Lookup(fm, "module"), Lookup(fm, "structure");
      && (Error(ModuleMismatchText(filename, expectedModule, Shown(moduleValue))) in m <==> Differs(moduleValue, expectedModule))
      && (Error(StructureMismatchText(filename, Shown(structure))) in m <==> Differs(structure, StructureMarker))
      && |m| == (if Differs(moduleValue, expectedModule) then 1 else 0) + (if Differs(structure, StructureMarker) then 1 else 0)
  {
    var moduleValue, structure := Lookup(fm, "module"), Lookup(fm, "structure");
    var a, b := ModuleMismatchText(filename, expectedModule, Shown(moduleValue)), StructureMismatchText(filename, Shown(structure));
    FieldTextsDiffer(filename, expectedModule, Shown(moduleValue), Shown(structure));
    assert Error(a)[8..] == a && Error(b)[8..] == b;
  }

  /**
    A missing document and a document with empty front matter each get
    exactly one error, and neither field is checked.
  */
  lemma MissingOrEmptyOneError(filename: string, expectedModule: string, yaml: YamlSupport)
    ensures FileMessages(filename, expectedModule, None, yaml) == [Error(MissingFileText(filename))]
    ensures DocumentMessages(filename, expectedModule, map[]) == [Error(NoFrontMatterText(filename))]
  {
  }

  /**
    A document that exists but has no header (no opening `---`, or no
    closing one) gets exactly one error: the missing front matter.
  */
  lemma NoHeaderOneError(filename: string, expectedModule: string, text: string, yaml: YamlSupport)
    requires !HasHeader(text)
    ensures FileMessages(filename, expectedModule, Some(text), yaml) == [Error(NoFrontMatterText(filename))]
  {
    NoHeaderKeepsContent(text, yaml);
  }

  /**
    A readable header always counts as front matter here, even when the YAML
    loader failed or is missing: the document is then checked field by field.
  */
  lemma SentinelHeaderChecked(filename: string, expectedModule: string, text: string, yaml: YamlSupport)
    requires var fm := ExtractFrontMatter(text, yaml).frontMatter; RawYamlKey in fm || YamlErrorKey in fm
    ensures FileMessages(filename, expectedModule, Some(text), yaml) ==
      HeaderMessages(filename, expectedModule, ExtractFrontMatter(text, yaml).frontMatter)
  {
    var fm := ExtractFrontMatter(text, yaml).frontMatter;
    assert fm != map[] by {
      if RawYamlKey in fm {
        assert RawYamlKey in fm.Keys;
      } else {
        assert YamlErrorKey in fm.Keys;
      }
    }
  }

  /**
    Without a YAML library a module document's header is kept raw, so it has
    neither a `module` nor a `structure` key: both field checks fail, each
    reporting `None`.
  */
  lemma WithoutYamlBothFieldsFail(filename: string, expectedModule: string, block: string)
    ensures DocumentMessages(filename, expectedModule, HeaderFor(block, NoYaml)) ==
      [Error(ModuleMismatchText(filename, expectedModule, "None")), Error(StructureMismatchText(filename, "None"))]
  {
    var fm := HeaderFor(block, NoYaml);
    assert fm == map[RawYamlKey := Str(block)];
    assert RawYamlKey in fm;
    assert "module" !in fm && "structure" !in fm;
  }

  /** A delegating header naming the expected module passes without any finding. */
  lemma ConformingHeaderPasses(filename: string, expectedModule: string, fm: Header)
    requires Lookup(fm, "module") == Some(Str(expectedModule))
    requires Lookup(fm, "structure") == Some(Str(StructureMarker))
    ensures HeaderMessages(filename, expectedModule, fm) == []
  {
  }

  /** Missing-file findings name the file: two of them are equal only for the same file. */
  lemma MissingFileTextInjective(f: string, g: string)
    ensures Error(MissingFileText(f)) == Error(MissingFileText(g)) ==> f == g
  {
    if Error(MissingFileText(f)) == Error(MissingFileText(g)) {
      var m := MissingFileText(f);
      assert m == MissingFileText(g);
      assert f == m[26..];
    }
  }

  /** Every finding about an existing document starts, after its tag, with `.agents/`. */
  lemma ReadableFileFindingsShape(filename: string, expectedModule: string, fm: Header)
    ensures forall m :: m in DocumentMessages(filename, expectedModule, fm) ==> |m| > 8 && m[8] == '.'
  {
    var moduleValue, structure := Lookup(fm, "module"), Lookup(fm, "structure");
    AgentsFinding(NoFrontMatterText(filename));
    AgentsFinding(ModuleMismatchText(filename, expectedModule, Shown(moduleValue)));
    AgentsFinding(StructureMismatchText(filename, Shown(structure)));
  }

  /** A finding whose text starts with `.` has `.` right after its tag. */
  lemma AgentsFinding(t: string)
    requires t != [] && t[0] == '.'
    ensures |Error(t)| > 8 && Error(t)[8] == '.'
  {
    assert Error(t)[8..][0] == Error(t)[8];
  }

  /** The missing-file finding starts, after its tag, with `M`. */
  lemma MissingFileFindingShape(filename: string)
    ensures |Error(MissingFileText(filename))| > 8 && Error(MissingFileText(filename))[8] == 'M'
  {
    assert Error(MissingFileText(filename))[8..][0] == Error(MissingFileText(filename))[8];
  }

  /** The findings of a document name a missing file only when the document itself is missing. */
  lemma MissingFileOnlyForItself(filename: string, expectedModule: string, content: Option<string>, yaml: YamlSupport, f: string)
    ensures Error(MissingFileText(f)) in FileMessages(filename, expectedModule, content, yaml) <==>
      content.None? && f == filename
  {
    MissingFileFindingShape(f);
    MissingFileTextInjective(f, filename);
    if content.Some? {
      ReadableFileFindingsShape(filename, expectedModule, ExtractFrontMatter(content.value, yaml).frontMatter);
    }
  }

  /**
    The whole check reports a module document as missing exactly when it
    is absent, whatever the other documents hold.
  */
  lemma MissingDocumentReported(docs: map<string, string>, yaml: YamlSupport, i: nat)
    requires i < |ExpectedModules|
    ensures var f := ExpectedModules[i].0;
      Error(MissingFileText(f)) in ModuleReferenceMessages(docs, yaml) <==> f !in docs
  {
    var f := ExpectedModules[i].0;
    EveryDocumentChecked(docs, yaml);
    MissingFileOnlyForItself("backend.mdc", "backend", Load(docs, "backend.mdc"), yaml, f);
    MissingFileOnlyForItself("frontend.mdc", "frontend", Load(docs, "frontend.mdc"), yaml, f);
    MissingFileOnlyForItself("integration.mdc", "integration", Load(docs, "integration.mdc"), yaml, f);
  }
}
