/**
  The runner: all four checks are run one after the other, never stopping
  early; their messages are sorted into errors and warnings by tag, and the
  run fails exactly when there is an error.
*/
module Runner {
  import opened Wrappers
  import opened Text
  import opened Messages
  import opened FrontMatter
  import Structure
  import Delegation
  import TreeListing

  /** The name of the structure document under `.agents/`. */
  const FoldersDocName := "folders.mdc"

  /**
    What the runner sees of a repository: the findings of the two checks
    that only test for files (`requiredFindings`, `playbookFindings`), the
    documents present under `.agents/` by file name, and the directories
    at the root in the order the file system lists them.
  */
  datatype Repository = Repository(
    requiredFindings: seq<string>,
    agentsDocs: map<string, string>,
    rootDirs: seq<string>,
    playbookFindings: seq<string>)

  /** The messages of the four checks, in the order they run. */
  function AllMessages(repo: Repository, yaml: YamlSupport): (r: seq<string>)
    ensures repo.requiredFindings <= r
    ensures |repo.playbookFindings| <= |r| && r[|r| - |repo.playbookFindings|..] == repo.playbookFindings
    ensures forall m :: m in Delegation.ModuleReferenceMessages(repo.agentsDocs, yaml) ==> m in r
  {
    repo.requiredFindings
    + Structure.FoldersMdcReport(Delegation.Load(repo.agentsDocs, FoldersDocName), yaml, repo.rootDirs).Messages()
    + Delegation.ModuleReferenceMessages(repo.agentsDocs, yaml)
    + repo.playbookFindings
  }

  /** `[m for m in messages if m.startswith(tag)]`. */
  function Tagged(messages: seq<string>, tag: string): (r: seq<string>)
    ensures forall i :: 0 <= i < |r| ==> StartsWith(r[i], tag)
    ensures |r| <= |messages|
  {
    if messages == [] then []
    else
      var m := messages[|messages| - 1];
      Tagged(messages[..|messages| - 1], tag) + if StartsWith(m, tag) then [m] else []
  }

  /** `main()`'s result: 1 when some message is an error, 0 otherwise. */
  function ExitStatus(messages: seq<string>): (status: int)
    ensures status == 0 || status == 1
  {
    if Tagged(messages, ErrorTag) != [] then 1 else 0
  }

  lemma TaggedSnoc(messages: seq<string>, tag: string, i: nat)
    requires i < |messages|
    ensures Tagged(messages[..i + 1], tag) ==
      Tagged(messages[..i], tag) + if StartsWith(messages[i], tag) then [messages[i]] else []
  {
    assert messages[..i + 1][..i] == messages[..i];
  }

  /** `[m for m in messages if m.startswith(tag)]`, element by element. */
  method SelectTagged(messages: seq<string>, tag: string) returns (selected: seq<string>)
    ensures selected == Tagged(messages, tag)
  {
    selected := [];
    for i := 0 to |messages|
      invariant selected == Tagged(messages[..i], tag)
    {
      TaggedSnoc(messages, tag, i);
      if StartsWith(messages[i], tag) {
        selected := selected + [messages[i]];
      }
    }
    assert messages[..|messages|] == messages;
  }

  /** `main()`: runs the checks, sorts the messages by tag and decides the exit status. */
  method RunChecks(repo: Repository, yaml: YamlSupport) returns (status: int, errors: seq<string>, warnings: seq<string>)
    ensures errors == Tagged(AllMessages(repo, yaml), ErrorTag)
    ensures warnings == Tagged(AllMessages(repo, yaml), WarnTag)
    ensures status == ExitStatus(AllMessages(repo, yaml))
  {
    var all: seq<string> := [];
    all := all + repo.requiredFindings;
    assert all == repo.requiredFindings;
    var folders := Structure.CheckFoldersMdcStructure(Delegation.Load(repo.agentsDocs, FoldersDocName), yaml, repo.rootDirs);
    all := all + folders;
    var modules := Delegation.CheckModuleMdcStructureReference(repo.agentsDocs, yaml);
    all := all + modules;
    all := all + repo.playbookFindings;
    assert all == repo.requiredFindings + folders + modules + repo.playbookFindings;

    errors := SelectTagged(all, ErrorTag);
    warnings := SelectTagged(all, WarnTag);
    if errors != [] {
      return 1, errors, warnings;
    }
    return 0, errors, warnings;
  }

  // ---------------------------------------------------------------------------
  // What the run reports
  // ---------------------------------------------------------------------------

  /** A message is kept exactly when it was produced and carries the tag. */
  lemma {:induction false} TaggedMembers(messages: seq<string>, tag: string, m: string)
    ensures m in Tagged(messages, tag) <==> m in messages && StartsWith(m, tag)
    decreases |messages|
  {
    if messages != [] {
      var n := |messages| - 1;
      TaggedMembers(messages[..n], tag, m);
      assert messages == messages[..n] + [messages[n]];
    }
  }

  /** Selecting by tag keeps the order: it distributes over the concatenation of the checks' messages. */
  lemma {:induction false} TaggedAppend(a: seq<string>, b: seq<string>, tag: string)
    ensures Tagged(a + b, tag) == Tagged(a, tag) + Tagged(b, tag)
    decreases |b|
  {
    if b != [] {
      var n := |b| - 1;
      TaggedAppend(a, b[..n], tag);
      assert (a + b)[..|a + b| - 1] == a + b[..n];
      assert (a + b)[|a + b| - 1] == b[n];
    } else {
      assert a + b == a;
    }
  }

  /** The run fails exactly when some message starts with `[ERROR]`; its status is 0 or 1. */
  lemma FailsIffSomeError(messages: seq<string>)
    ensures ExitStatus(messages) == 1 <==> exists m :: m in messages && IsError(m)
    ensures ExitStatus(messages) == 0 || ExitStatus(messages) == 1
  {
    if exists m :: m in messages && IsError(m) {
      var m :| m in messages && IsError(m);
      TaggedMembers(messages, ErrorTag, m);
    }
    var errors := Tagged(messages, ErrorTag);
    if errors != [] {
      TaggedMembers(messages, ErrorTag, errors[0]);
    }
  }

  /** Warnings and banners alone never fail the run. */
  lemma WarningsDoNotFail(messages: seq<string>)
    requires forall i :: 0 <= i < |messages| ==> IsWarning(messages[i]) || IsInfo(messages[i])
    ensures ExitStatus(messages) == 0
  {
    FailsIffSomeError(messages);
    forall m | m in messages ensures !IsError(m) {
      TagsExclusive(m);
    }
  }

  /**
    The errors of messages laid end to end are the errors of each part, in
    order; a part made only of errors is kept whole and a report keeps its
    errors and drops its warnings.
  */
  lemma ErrorsOfParts(required: seq<string>, folders: Structure.Report, modules: seq<string>, playbook: seq<string>)
    requires forall i :: 0 <= i < |folders.errors| ==> IsError(folders.errors[i])
    requires forall i :: 0 <= i < |folders.warnings| ==> IsWarning(folders.warnings[i])
    requires forall i :: 0 <= i < |modules| ==> IsError(modules[i])
    ensures Tagged(required + folders.Messages() + modules + playbook, ErrorTag) ==
      Tagged(required, ErrorTag) + folders.errors + modules + Tagged(playbook, ErrorTag)
  {
    var reported := folders.Messages();
    calc {
      Tagged(required + reported + modules + playbook, ErrorTag);
    == { TaggedAppend(required + reported + modules, playbook, ErrorTag); }
      Tagged(required + reported + modules, ErrorTag) + Tagged(playbook, ErrorTag);
    == { TaggedAppend(required + reported, modules, ErrorTag); AllTagged(modules, ErrorTag); }
      Tagged(required + reported, ErrorTag) + modules + Tagged(playbook, ErrorTag);
    == { TaggedAppend(required, reported, ErrorTag); }
      Tagged(required, ErrorTag) + Tagged(reported, ErrorTag) + modules + Tagged(playbook, ErrorTag);
    == { TaggedAppend(folders.errors, folders.warnings, ErrorTag); AllTagged(folders.errors, ErrorTag); NoneTagged(folders.warnings); }
      Tagged(required, ErrorTag) + folders.errors + modules + Tagged(playbook, ErrorTag);
    }
  }

  /**
    Every check runs whatever the others found: the errors of the run are
    the errors of each check, in the order the checks run.
  */
  lemma ErrorsOfEachCheck(repo: Repository, yaml: YamlSupport)
    ensures Tagged(AllMessages(repo, yaml), ErrorTag) ==
      Tagged(repo.requiredFindings, ErrorTag)
      + Structure.FoldersMdcReport(Delegation.Load(repo.agentsDocs, FoldersDocName), yaml, repo.rootDirs).errors
      + Delegation.ModuleReferenceMessages(repo.agentsDocs, yaml)
      + Tagged(repo.playbookFindings, ErrorTag)
  {
    var folders := Structure.FoldersMdcReport(Delegation.Load(repo.agentsDocs, FoldersDocName), yaml, repo.rootDirs);
    var modules := Delegation.ModuleReferenceMessages(repo.agentsDocs, yaml);
    assert AllMessages(repo, yaml) == repo.requiredFindings + folders.Messages() + modules + repo.playbookFindings;
    ErrorsOfParts(repo.requiredFindings, folders, modules, repo.playbookFindings);
  }

  lemma WarningsOfParts(required: seq<string>, folders: Structure.Report, modules: seq<string>, playbook: seq<string>)
    requires forall i :: 0 <= i < |folders.errors| ==> IsError(folders.errors[i])
    requires forall i :: 0 <= i < |folders.warnings| ==> IsWarning(folders.warnings[i])
    requires forall i :: 0 <= i < |modules| ==> IsError(modules[i])
    ensures Tagged(required + folders.Messages() + modules + playbook, WarnTag) ==
      Tagged(required, WarnTag) + folders.warnings + Tagged(playbook, WarnTag)
  {
    var reported := folders.Messages();
    calc {
      Tagged(required + reported + modules + playbook, WarnTag);
    == { TaggedAppend(required + reported + modules, playbook, WarnTag); }
      Tagged(required + reported + modules, WarnTag) + Tagged(playbook, WarnTag);
    == { TaggedAppend(required + reported, modules, WarnTag); }
      Tagged(required + reported, WarnTag) + Tagged(modules, WarnTag) + Tagged(playbook, WarnTag);
    == { NoWarningTagged(modules); assert Tagged(required + reported, WarnTag) + [] == Tagged(required + reported, WarnTag); }
      Tagged(required + reported, WarnTag) + Tagged(playbook, WarnTag);
    == { TaggedAppend(required, reported, WarnTag); }
      Tagged(required, WarnTag) + Tagged(reported, WarnTag) + Tagged(playbook, WarnTag);
    == { TaggedAppend(folders.errors, folders.warnings, WarnTag); NoWarningTagged(folders.errors); AllTagged(folders.warnings, WarnTag);
         assert Tagged(reported, WarnTag) == [] + folders.warnings == folders.warnings; }
      Tagged(required, WarnTag) + folders.warnings + Tagged(playbook, WarnTag);
    }
  }

  /**
    The warnings of the run are the warnings of each check, in the order the
    checks run; the delegation check contributes none.
  */
  lemma WarningsOfEachCheck(repo: Repository, yaml: YamlSupport)
    ensures Tagged(AllMessages(repo, yaml), WarnTag) ==
      Tagged(repo.requiredFindings, WarnTag)
      + Structure.FoldersMdcReport(Delegation.Load(repo.agentsDocs, FoldersDocName), yaml, repo.rootDirs).warnings
      + Tagged(repo.playbookFindings, WarnTag)
  {
    var folders := Structure.FoldersMdcReport(Delegation.Load(repo.agentsDocs, FoldersDocName), yaml, repo.rootDirs);
    var modules := Delegation.ModuleReferenceMessages(repo.agentsDocs, yaml);
    assert AllMessages(repo, yaml) == repo.requiredFindings + folders.Messages() + modules + repo.playbookFindings;
    WarningsOfParts(repo.requiredFindings, folders, modules, repo.playbookFindings);
  }

  /** Selecting by tag keeps a sequence whose every message has the tag. */
  lemma {:induction false} AllTagged(messages: seq<string>, tag: string)
    requires forall i :: 0 <= i < |messages| ==> StartsWith(messages[i], tag)
    ensures Tagged(messages, tag) == messages
    decreases |messages|
  {
    if messages != [] {
      AllTagged(messages[..|messages| - 1], tag);
    }
  }

  /** Selecting errors drops every warning. */
  lemma {:induction false} NoneTagged(messages: seq<string>)
    requires forall i :: 0 <= i < |messages| ==> IsWarning(messages[i])
    ensures Tagged(messages, ErrorTag) == []
    decreases |messages|
  {
    if messages != [] {
      var n := |messages| - 1;
      NoneTagged(messages[..n]);
      TagsExclusive(messages[n]);
    }
  }

  /** Selecting warnings drops every error. */
  lemma {:induction false} NoWarningTagged(messages: seq<string>)
    requires forall i :: 0 <= i < |messages| ==> IsError(messages[i])
    ensures Tagged(messages, WarnTag) == []
    decreases |messages|
  {
    if messages != [] {
      var n := |messages| - 1;
      NoWarningTagged(messages[..n]);
      TagsExclusive(messages[n]);
    }
  }

  /** A missing module document fails the run. */
  lemma MissingModuleDocumentFails(repo: Repository, yaml: YamlSupport, i: nat)
    requires i < |Delegation.ExpectedModules|
    requires Delegation.ExpectedModules[i].0 !in repo.agentsDocs
    ensures ExitStatus(AllMessages(repo, yaml)) == 1
  {
    var f := Delegation.ExpectedModules[i].0;
    Delegation.MissingDocumentReported(repo.agentsDocs, yaml, i);
    var m := Error(Delegation.MissingFileText(f));
    assert m in AllMessages(repo, yaml);
    FailsIffSomeError(AllMessages(repo, yaml));
  }

  /** A module document without a header fails the run. */
  lemma HeaderlessModuleDocumentFails(repo: Repository, yaml: YamlSupport, i: nat)
    requires i < |Delegation.ExpectedModules|
    requires Delegation.ExpectedModules[i].0 in repo.agentsDocs
    requires !HasHeader(repo.agentsDocs[Delegation.ExpectedModules[i].0])
    ensures var f := Delegation.ExpectedModules[i].0;
      Error(Delegation.NoFrontMatterText(f)) in AllMessages(repo, yaml) && ExitStatus(AllMessages(repo, yaml)) == 1
  {
    var (f, e) := Delegation.ExpectedModules[i];
    var modules := Delegation.ModuleReferenceMessages(repo.agentsDocs, yaml);
    assert Error(Delegation.NoFrontMatterText(f)) in modules by {
      Delegation.NoHeaderOneError(f, e, repo.agentsDocs[f], yaml);
      Delegation.EveryDocumentChecked(repo.agentsDocs, yaml);
    }
    var folders := Structure.FoldersMdcReport(Delegation.Load(repo.agentsDocs, FoldersDocName), yaml, repo.rootDirs);
    assert AllMessages(repo, yaml) == repo.requiredFindings + folders.Messages() + modules + repo.playbookFindings;
    FailsIffSomeError(AllMessages(repo, yaml));
  }

  /**
    The two kinds of document treat a missing header differently: the
    structure document gets a warning and no error about its front matter,
    while a module document gets an error, which fails the run.
  */
  lemma HeaderlessDocuments(repo: Repository, yaml: YamlSupport, i: nat)
    requires i < |Delegation.ExpectedModules|
    requires FoldersDocName in repo.agentsDocs && !HasHeader(repo.agentsDocs[FoldersDocName])
    requires Delegation.ExpectedModules[i].0 in repo.agentsDocs
    requires !HasHeader(repo.agentsDocs[Delegation.ExpectedModules[i].0])
    ensures var folders := Structure.FoldersMdcReport(Some(repo.agentsDocs[FoldersDocName]), yaml, repo.rootDirs);
      Warn(Structure.NoFrontMatter) in folders.Messages() && Error(Structure.InvalidYaml) !in folders.Messages()
    ensures var f := Delegation.ExpectedModules[i].0;
      Error(Delegation.NoFrontMatterText(f)) in AllMessages(repo, yaml) && ExitStatus(AllMessages(repo, yaml)) == 1
  {
    var text := repo.agentsDocs[FoldersDocName];
    NoHeaderKeepsContent(text, yaml);
    var doc := ExtractFrontMatter(text, yaml);
    Structure.FrontMatterFindings(doc.frontMatter, TreeListing.ExpectedDirs(doc.body), Structure.Sort(repo.rootDirs));
    HeaderlessModuleDocumentFails(repo, yaml, i);
  }
}
