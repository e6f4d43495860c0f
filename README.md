# Repository consistency check, modelled in Dafny

`scripts/check_consistency.py` runs before a build. It checks that the
governance documents of the repository agree with its layout. It reads:

- the structure document `.agents/folders.mdc`, whose front matter is YAML
  between two `---` markers and whose first fenced block draws the expected
  directory tree;
- the three module documents `.agents/backend.mdc`, `.agents/frontend.mdc`
  and `.agents/integration.mdc`.

It then reports:

- which declared top-level directories are missing on disk;
- which directories on disk are not declared;
- which module documents fail to declare their module or fail to hand the
  folder structure over to `folders.mdc`.

Every finding is a text tagged `[ERROR]` or `[WARN]`. The run fails exactly
when some finding is an error.

This project models that logic and proves the properties its code promises.
It has nine files:

| file | module | what it models |
|---|---|---|
| `wrappers.dfy` | `Wrappers` | `Option` |
| `text.dfy` | `Text` | the Python string operations the script uses, with their Python semantics (see below) |
| `messages.dfy` | `Messages` | `error`, `warn`, `info` and the tag tests |
| `frontmatter.dfy` | `FrontMatter` | `extract_front_matter`, with the YAML loader as a parameter |
| `codeblock.dfy` | `CodeBlock` | `extract_first_code_block`, as an explicit scan (see below) |
| `treelisting.dfy` | `TreeListing` | `parse_expected_top_level_dirs_from_folders_mdc` |
| `structure.dfy` | `Structure` | `check_folders_mdc_structure`, including `sorted` |
| `delegation.dfy` | `Delegation` | `check_module_mdc_structure_reference` |
| `runner.dfy` | `Runner` | `main`: the four checks in order, the selection by tag, the exit status |

The Python string operations in `Text` are:

- `str.split` with `maxsplit`;
- `strip`, `lstrip` and `rstrip`, over the full `str.isspace()` set or an explicit set of characters;
- `splitlines`, over Python's line boundaries, with `\r\n` counted as one break;
- `upper`.

The fence pattern `` ```(?:[a-zA-Z0-9_-]*)\s*([\s\S]*?)``` `` is modelled as an explicit scan. The scan is proved to return exactly the match that the leftmost, greedy-then-lazy regular-expression search reports. This is stated with a declarative match predicate and the engine's priority order.

Each stateful step of the source is a method proved equal to a specification function:

- the deduplicating loop of the tree parser;
- the two comparison loops of the structure check;
- the per-document loop of the delegation check;
- the list comprehensions of `main`.

The properties are then proved about those functions.

When the YAML library is missing, the script does not fall back to a warning. It keeps the header as `{"_raw_yaml": ...}`, which has neither a `module` nor a `structure` key. So every module document with a header gets both field errors, and the run fails (`Delegation.WithoutYamlBothFieldsFail`). The structure document gets no finding about its header at all (`Structure.WithoutYamlNoHeaderFinding`). The model follows the code here.

## Model

| member | source | states |
|---|---|---|
| Messages.Error | scripts/check_consistency.py:36-37 | the text is `[ERROR]`, exactly one space, then the message unchanged; it counts as an error and never as a warning |
| Messages.Warn | scripts/check_consistency.py:40-41 | the text is `[WARN]`, exactly two spaces, then the message unchanged; it counts as a warning and never as an error |
| Messages.Info | scripts/check_consistency.py:44-45 | the text is `[INFO]`, exactly two spaces, then the message unchanged; it is neither an error nor a warning |
| Messages.TagsExclusive | scripts/check_consistency.py:308-309 | no message counts both as an error and as a warning or banner |
| Text.Find | scripts/check_consistency.py:63 | the first occurrence of a marker at or after a position, or none at all |
| Text.Split | scripts/check_consistency.py:63 | `split(sep, maxsplit)`: at most `maxsplit + 1` parts; joining them with the separator gives back the input; every cut is at the leftmost remaining occurrence, since no occurrence starts inside a part before the last, not even one overlapping the cut; the last part holds no separator when fewer than `maxsplit` cuts were made |
| Text.SplitOnceAt | scripts/check_consistency.py:63 | with a first occurrence of the separator at `k`, `split(sep, 1)` gives exactly the text before `k` and the text after that occurrence |
| Text.LStrip | scripts/check_consistency.py:69 | `lstrip(chars)`: removes exactly the longest prefix made of `chars` |
| Text.RStrip | scripts/check_consistency.py:125 | `rstrip(chars)`: removes exactly the longest suffix made of `chars` |
| Text.StripChars | scripts/check_consistency.py:116 | the general form behind `strip()` (used at lines 68, 116 and 127), over a given set of characters: both ends of the result are free of the set; the result is empty exactly when every character is in the set; a character outside the set is in the result exactly when it is in the input |
| Text.StripCharsIsSlice | scripts/check_consistency.py:116 | the result of `strip(chars)` is a slice of the input, and every character before or after that slice is in `chars` |
| Text.StripCharsShrinks | scripts/check_consistency.py:116 | stripping never lengthens a text and never introduces a character it did not hold |
| Text.Strip | scripts/check_consistency.py:68 | `strip()`: the result is no longer than the input and holds only characters of the input |
| Text.StripIsSlice | scripts/check_consistency.py:68 | the result of `strip()` is a slice of the input, and every character before or after that slice is whitespace |
| Text.SplitLines | scripts/check_consistency.py:115 | `splitlines()`: no line holds a line break; there are no lines exactly when the text is empty |
| Text.SplitLinesJoin | scripts/check_consistency.py:115 | for a text whose only line breaks are `\n`, joining the lines with `\n` gives the text back, less one final `\n` |
| Text.Upper | scripts/check_consistency.py:131 | `upper()`: same length; no ASCII lower-case letter is left; each character is unchanged or is an ASCII lower-case letter moved to its upper case |
| Text.UpperIdempotent | scripts/check_consistency.py:131 | upper-casing twice is upper-casing once |
| FrontMatter.NoHeaderKeepsContent | scripts/check_consistency.py:60-66 | with no opening `---` or no closing one, the front matter is `{}` and the body is the content unchanged |
| FrontMatter.HeaderClosedAt | scripts/check_consistency.py:63-69 | with a header closed at `j`, the body is the text after that marker without leading newlines: it never starts with `\n` and is shorter than the content; the header is the stripped text between the markers |
| FrontMatter.HeaderOutcomes | scripts/check_consistency.py:71-82 | no YAML library gives exactly `{"_raw_yaml": header}`; a loader failure gives exactly `{"_yaml_error": header}`; a non-map or empty result gives `{}`; a map is kept |
| FrontMatter.HeaderFor | scripts/check_consistency.py:71-82 | the front matter is `{}` if and only if the YAML library is present and loads something that is not a mapping, or an empty mapping |
| FrontMatter.ExtractFrontMatter | scripts/check_consistency.py:54-82 | when the body is the whole content, the front matter is `{}`; otherwise the content opens with `---` and the body is a suffix of it, shorter by at least the two markers |
| FrontMatter.HeaderAndBody | scripts/check_consistency.py:63-69 | with the content split into three parts around two markers, the body is a suffix of the content, shorter by at least the two markers |
| FrontMatter.BodyUnchangedIffNoHeader | scripts/check_consistency.py:60-69 | the body equals the content if and only if there is no header |
| FrontMatter.ComposedDocument | scripts/check_consistency.py:63-69 | `---`, then a header `h`, then `---`, then `rest`: the loader reads `h` stripped and the body is `rest` without leading newlines, provided `h` holds no `---` and does not end with `-` |
| CodeBlock.TagEnd | scripts/check_consistency.py:90 | the greedy tag `[a-zA-Z0-9_-]*`: the longest run of tag characters |
| CodeBlock.SpaceEnd | scripts/check_consistency.py:90 | the greedy `\s*`: the longest run of blanks |
| CodeBlock.MatchAt | scripts/check_consistency.py:90 | a match found at an opening fence starts there; its group starts at least three places later and ends at a closing fence |
| CodeBlock.SearchFrom | scripts/check_consistency.py:91 | a match found from a position starts at or after it, at an opening fence; its group starts at least three places later and ends at a closing fence |
| CodeBlock.MatchAtIsFirst | scripts/check_consistency.py:90-91 | at an opening fence, the scan finds the engine's preferred match, and finds none only when no match starts there |
| CodeBlock.SearchFromIsFirst | scripts/check_consistency.py:91 | the scan from a position returns the first match in the engine's order among those starting there or later, and nothing exactly when there is none |
| CodeBlock.FirstCodeBlockIsFirstMatch | scripts/check_consistency.py:90-94 | `None` if and only if the pattern matches nowhere; otherwise the group of the engine's first match |
| CodeBlock.NoneIffNoFencePair | scripts/check_consistency.py:92-93 | `None` if and only if no opening fence is followed, at least three places later, by a closing one |
| CodeBlock.GroupHasNoFence | scripts/check_consistency.py:90 | the lazy group of the first match holds no three backticks |
| CodeBlock.GroupStartsWithNonBlank | scripts/check_consistency.py:90 | the group of the first match does not start with a blank, because `\s*` took them all |
| CodeBlock.BlockHasNoFence | scripts/check_consistency.py:90-94 | the returned text never holds three backticks and never starts with a blank |
| CodeBlock.ExtractFirstCodeBlock | scripts/check_consistency.py:85-94 | a returned block is the text between an opening fence and a later closing fence, starting at least three places after the opening |
| TreeListing.LineName | scripts/check_consistency.py:116-132 | a line contributes a name only when, stripped, it ends with `/`; the name is non-empty, holds no `/` and is not `PROJECT_NAME` in any letter case |
| TreeListing.StripEntryLine | scripts/check_consistency.py:116-127 | a line made of tree markers, an item and `/` is non-empty once stripped, ends with `/`, and gives back exactly the item once the slash and the markers are removed |
| TreeListing.LineNameOfItem | scripts/check_consistency.py:116-132 | for a line made of tree markers, an item and `/`: the name is the item's first segment, or none when that segment is empty or `PROJECT_NAME` in any letter case |
| TreeListing.LineNameOfEntry | scripts/check_consistency.py:116-132 | for a line made of tree markers, a name without `/` and a final `/`: the line gives exactly that name, unless it upper-cases to `PROJECT_NAME` |
| TreeListing.LineNameOfNestedEntry | scripts/check_consistency.py:116-132 | for a nested entry `name/sub/` behind tree markers, the line gives the top-level name |
| TreeListing.RootLineDropped | scripts/check_consistency.py:131-132 | the root line `PROJECT_NAME/` gives no name |
| TreeListing.IndentedLine | scripts/check_consistency.py:116-132 | the indented lines `.agents/`, `backend/` and `frontend/` give those names |
| TreeListing.Names | scripts/check_consistency.py:115-132 | every name the lines contribute is a valid directory name |
| TreeListing.NamesFromLines | scripts/check_consistency.py:115-132 | a name is contributed if and only if some line of the block contributes it |
| TreeListing.Dedup | scripts/check_consistency.py:133-134 | the same names with no repeats |
| TreeListing.DedupKeepsFirstOccurrenceOrder | scripts/check_consistency.py:133-134 | the kept names appear in the order of their first occurrence |
| TreeListing.DedupRepeatedSecond | scripts/check_consistency.py:133-134 | a repeated name is kept once, at its first place |
| TreeListing.ExpectedDirs | scripts/check_consistency.py:110-135 | the parsed names have no duplicates, and every entry is non-empty, free of `/` and not the root placeholder |
| TreeListing.NoFencedBlockNoDirs | scripts/check_consistency.py:110-112 | with no fenced block, nothing is expected |
| TreeListing.ExpectedDirsFromBlock | scripts/check_consistency.py:110-135 | a name is expected if and only if some line of the block contributes it, in the order of the first such line |
| TreeListing.DiagramExample | scripts/check_consistency.py:100-108 | the documented diagram, with a nested `backend/app/` line, gives `.agents`, `backend` and `frontend`, in that order |
| TreeListing.ParseExpectedTopLevelDirs | scripts/check_consistency.py:97-135 | the loop returns `ExpectedDirs` of the document, so it has no duplicates and only valid names |
| Structure.LexLeTotal | scripts/check_consistency.py:184-186 | any two names are comparable in Python's string order |
| Structure.Sort | scripts/check_consistency.py:184-186 | `sorted`: ascending order, and the same names with the same multiplicities |
| Structure.SortMembers | scripts/check_consistency.py:184-186 | sorting neither adds nor drops a directory |
| Structure.SortKeepsNoDuplicates | scripts/check_consistency.py:184-186 | a listing without repeats stays without repeats |
| Structure.MissingDirs | scripts/check_consistency.py:192-195 | every finding about an expected name is an error, and there are no more of them than expected names |
| Structure.UnexpectedDirs | scripts/check_consistency.py:197-204 | every finding about a directory on disk is a warning, and there are no more of them than listed directories |
| Structure.Reconcile | scripts/check_consistency.py:179-204 | errors are tagged `[ERROR]` and warnings `[WARN]`; there are no more errors than expected names, and, when something is expected, no more warnings than listed directories |
| Structure.Findings | scripts/check_consistency.py:172-206 | every error is tagged `[ERROR]` and every warning `[WARN]` |
| Structure.FoldersMdcReport | scripts/check_consistency.py:162-206 | every error is tagged `[ERROR]` and every warning `[WARN]` |
| Structure.CompareWithDisk | scripts/check_consistency.py:192-204 | the two comparison loops return exactly `MissingDirs` and `UnexpectedDirs` |
| Structure.CheckDocument | scripts/check_consistency.py:172-206 | the front-matter branch and the comparison return `Findings` of the front matter, the parsed names and the sorted listing |
| Structure.CheckFoldersMdcStructure | scripts/check_consistency.py:162-206 | the whole check returns the messages of `FoldersMdcReport`: its errors, then its warnings |
| Structure.DirTextsInjective | scripts/check_consistency.py:194-203 | two missing-directory errors, or two unexpected-directory warnings, are equal only when they name the same directory |
| Structure.FixedTextsDiffer | scripts/check_consistency.py:174-180 | the fixed front-matter and "could not infer" texts are never a directory finding |
| Structure.MissingDirsMembers | scripts/check_consistency.py:192-195 | an error names `d` if and only if `d` is expected and not on disk |
| Structure.UnexpectedDirsMembers | scripts/check_consistency.py:197-204 | a warning names `d` if and only if `d` is on disk, not expected, not allowed and not `.agents` |
| Structure.MissingDirsOncePerName | scripts/check_consistency.py:192-195 | distinct expected names give distinct errors, so there is one error per missing name |
| Structure.UnexpectedDirsOncePerName | scripts/check_consistency.py:197-204 | distinct listed names give distinct warnings, so there is one warning per unexpected name |
| Structure.ErrorsBeforeWarnings | scripts/check_consistency.py:206 | every finding is an error or a warning, and no error follows a warning |
| Structure.UnreadableDocument | scripts/check_consistency.py:168-170 | an unreadable structure document gives exactly the one error |
| Structure.FrontMatterFindings | scripts/check_consistency.py:173-176 | the "invalid" error appears if and only if the front matter holds the `_yaml_error` key (the loader failed, or the loaded mapping itself holds that key); the "no front matter" warning appears if and only if the front matter is empty |
| Structure.WithoutYamlNoHeaderFinding | scripts/check_consistency.py:173-176 | without a YAML library (the raw header kept at lines 71-73), a structure document with a header gets neither the "no front matter" warning nor the "invalid" error |
| Structure.DirectoryFindings | scripts/check_consistency.py:192-204 | with some names expected: an error exactly for the expected names absent from disk, a warning exactly for the unexpected names on disk, and nothing for a name in both |
| Structure.NothingExpectedNothingCompared | scripts/check_consistency.py:179-181 | with nothing expected the listing on disk is never consulted: the reconciliation is exactly the one "could not infer" warning; the errors are exactly the "invalid YAML" error when the front matter holds the `_yaml_error` key (the loader failed, or the loaded mapping itself holds that key); the warnings are the "no front matter" warning when the front matter is empty, then "could not infer"; no directory is named |
| Structure.FindingsOncePerName | scripts/check_consistency.py:192-204 | with distinct expected and listed names, no error and no warning is repeated |
| Structure.ErrorsOncePerName | scripts/check_consistency.py:192-195 | with distinct expected names, no error is repeated |
| Structure.WarningsOncePerName | scripts/check_consistency.py:174-204 | with distinct listed names, no warning is repeated |
| Structure.StructureCheckFindings | scripts/check_consistency.py:172-206 | for a readable document, the findings compare the parsed names with the root listing, and each finding appears once |
| Structure.ReconcileExample | scripts/check_consistency.py:192-204 | expecting `backend` and `frontend` with `backend` and `docs` on disk gives one error for `frontend` and one warning for `docs` |
| Delegation.HeaderMessages | scripts/check_consistency.py:237-248 | every field finding is an error; the fields are read with `Lookup` (`fm.get`), printed with `Shown` (an absent key prints as `None`) and compared with `Differs` (`!=`) |
| Delegation.DocumentMessages | scripts/check_consistency.py:232-248 | every finding about a readable document is an error |
| Delegation.FileMessages | scripts/check_consistency.py:226-248 | every finding about a module document is an error |
| Delegation.AllFileMessages | scripts/check_consistency.py:225-248 | every finding of the check is an error |
| Delegation.ModuleReferenceMessages | scripts/check_consistency.py:209-250 | every finding of the delegation check is an error |
| Delegation.CheckFrontMatter | scripts/check_consistency.py:232-248 | the front-matter checks of one document return exactly `DocumentMessages` of that document |
| Delegation.CheckModuleMdcStructureReference | scripts/check_consistency.py:209-250 | the loop visits every document, whatever the earlier ones gave, and returns exactly `ModuleReferenceMessages` |
| Delegation.EveryDocumentChecked | scripts/check_consistency.py:219-225 | the findings are those of `backend.mdc`, then of `frontend.mdc`, then of `integration.mdc`; each depends only on its own document |
| Delegation.FieldTextsDiffer | scripts/check_consistency.py:238-247 | a `module` finding is never a `structure` finding |
| Delegation.HeaderFindings | scripts/check_consistency.py:237-248 | with non-empty front matter: a `module` error if and only if `module` is not the expected string; a `structure` error if and only if `structure` is not `refer-to-folders.mdc`; nothing else |
| Delegation.MissingOrEmptyOneError | scripts/check_consistency.py:228-235 | a missing document, and a document with empty front matter, each get exactly one error and no field check |
| Delegation.NoHeaderOneError | scripts/check_consistency.py:232-235 | a document with no header gets exactly the one "missing YAML front matter" error |
| Delegation.SentinelHeaderChecked | scripts/check_consistency.py:232-248 | a header the loader rejected or could not read is still checked field by field |
| Delegation.WithoutYamlBothFieldsFail | scripts/check_consistency.py:237-248 | without a YAML library (the raw header kept at lines 71-73), a module document with a header gets exactly two errors, for `module` and for `structure`, both reporting `None` |
| Delegation.ConformingHeaderPasses | scripts/check_consistency.py:237-248 | a header naming the expected module and delegating to `folders.mdc` gives no finding |
| Delegation.MissingFileTextInjective | scripts/check_consistency.py:229 | two missing-file findings are equal only for the same file |
| Delegation.MissingFileOnlyForItself | scripts/check_consistency.py:226-231 | a document's findings report a missing file if and only if that document itself is missing |
| Delegation.MissingDocumentReported | scripts/check_consistency.py:225-231 | the whole check reports a module document as missing if and only if it is absent |
| Runner.Tagged | scripts/check_consistency.py:308-309 | every selected message carries the tag |
| Runner.SelectTagged | scripts/check_consistency.py:308-309 | the comprehension's loop returns exactly `Tagged` of the messages |
| Runner.RunChecks | scripts/check_consistency.py:300-326 | the errors and the warnings are `Tagged` of `AllMessages`, and the status is `ExitStatus` of them |
| Runner.AllMessages | scripts/check_consistency.py:300-306 | the required-file findings come first and the playbook findings last; every finding of the delegation check is among the messages |
| Runner.ExitStatus | scripts/check_consistency.py:317-326 | the status is 0 or 1 |
| Runner.TaggedMembers | scripts/check_consistency.py:308 | a message is selected if and only if it was produced and carries the tag |
| Runner.TaggedAppend | scripts/check_consistency.py:301-308 | selection keeps the order of the checks: it distributes over concatenation |
| Runner.FailsIffSomeError | scripts/check_consistency.py:317-326 | the status is 1 if and only if some message starts with `[ERROR]`, and 0 otherwise |
| Runner.WarningsDoNotFail | scripts/check_consistency.py:311-326 | warnings and banners alone give status 0 |
| Runner.ErrorsOfParts | scripts/check_consistency.py:301-308 | the errors of the run are each part's errors, in order |
| Runner.ErrorsOfEachCheck | scripts/check_consistency.py:301-308 | every check contributes its errors whatever the others found: the structure check its errors, the delegation check all its findings |
| Runner.WarningsOfParts | scripts/check_consistency.py:301-309 | the warnings of the run are the required-file warnings, then the structure check's warnings, then the playbook warnings; the delegation check, all errors, adds none |
| Runner.WarningsOfEachCheck | scripts/check_consistency.py:301-309 | the warnings `main` selects are those of the required-file findings, every warning of the structure check, and those of the playbook findings, in that order |
| Runner.MissingModuleDocumentFails | scripts/check_consistency.py:317-323 | a missing module document fails the run |
| Runner.HeaderlessDocuments | scripts/check_consistency.py:173-235 | a missing header gives the structure document the "no front matter" warning and no "invalid" error (lines 175-176), but gives a module document an error that fails the run (lines 233-235) |
| Runner.HeaderlessModuleDocumentFails | scripts/check_consistency.py:232-235 | a module document without a header is reported as missing its front matter, and the run fails |

## Left out

- File-system access is not modelled: `load_text`, `Path.exists`, `ROOT` and `ROOT.iterdir()` with `is_dir()`. Document contents, the documents present under `.agents/`, and the names of the root's directories are parameters.
- `check_required_files` and `check_playbook_presence` only test whether hard-coded paths exist. Their findings are parameters of `Runner.Repository`, and the runner treats them like the other findings.
- The internals of `yaml.safe_load` are not modelled. The loader is a parameter that returns a mapping, a value that is not a mapping (or is empty), or a failure. `NoYaml` stands for the failed `import yaml`.
- Header keys are modelled by their printed form. A non-string value is kept only as its printed form, which is what the f-strings show. A YAML mapping with non-string keys is therefore not modelled apart from those forms.
- Printing in `main` is left out: the banners, the listing of warnings and errors, and the closing sentence. Only the returned status and the two selected lists are modelled.
- Text.Upper: it upper-cases ASCII letters only. It is used only to compare a name with `PROJECT_NAME`, and for that comparison it agrees with Python's full `upper`. A non-ASCII character whose full upper case is all ASCII is one of `ı` (to `I`), `ſ` (to `S`), `ß` (to `SS`), `ﬀ` (to `FF`), `ﬁ` (to `FI`), `ﬂ` (to `FL`), `ﬃ` (to `FFI`), `ﬄ` (to `FFL`), `ﬅ` and `ﬆ` (to `ST`). Each of these upper cases holds `I`, `S` or `F`, and none of those letters occurs in `PROJECT_NAME`. Every other non-ASCII character keeps a non-ASCII character in its upper case, and so does the model.
- Text.SplitLines: it treats `\r\n` as one break and every other Python line boundary as a break, as `str.splitlines` does. Surrogate code points are not considered.
- `re.MULTILINE` in the fence pattern is not modelled because it changes nothing: the pattern has no `^` and no `$`.
