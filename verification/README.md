# openstack/requirements in Dafny

A model of the tools that keep OpenStack projects' requirements files in
line with the global requirements list, with proofs about that model.

- **Requirement-line codec.** One line of a requirements file splits into
  package, specifiers, environment markers and comment. Files become parsed
  lines, and lines are grouped by lower-cased package name. Records are
  written back as text under a three-line header.
- **Synchroniser.** It rewrites a project's requirements from the global
  list. It drops header lines, keeps comments and unparsable lines, and
  processes each package once. A known package is replaced by its global
  entries, paired position by position and keeping the project's extras.
  Every difference is recorded as a change. An unknown package is passed
  through under soft-update and is an error otherwise. The older copy of
  the synchroniser is modelled beside it.
- **Validators:**
  - the check of a proposed change against the branch baseline, the
    blacklist and the global list (exact match except extras, per-extra
    line counts, duplicate detection);
  - the constraints checks (coverage against the blacklist, `===` format,
    specifier compatibility);
  - the existence check against the upper constraints;
  - the zuul layout check.
- **setup.cfg.** The `[extras]` grammar and the merge that rewrites only the
  named extras.
- **Constraint tooling:**
  - freeze parsing and the combination of several Pythons' freezes with
    generated markers;
  - the constraint edit;
  - the lower-constraints merge by highest version;
  - lower-bound alignment;
  - capping and pinning;
  - the section-aware sorter of the global list;
  - version increment and decrement with borrow.

Each source file is one module.

| module | source |
|---|---|
| `Requirement` | openstack_requirements/requirement.py |
| `UpdateCmd` | openstack_requirements/cmds/update.py |
| `LegacyUpdate` | openstack_requirements/update.py |
| `Check` | openstack_requirements/check.py |
| `Playbook` | playbooks/files/project-requirements-change.py |
| `Constraints` | openstack_requirements/constraints.py |
| `Project` | openstack_requirements/project.py |
| `Generate` | openstack_requirements/cmds/generate.py |
| `EditConstraint` | openstack_requirements/cmds/edit_constraint.py |
| `LowerConstraints` | openstack_requirements/cmds/build_lower_constraints.py |
| `CheckExists` | openstack_requirements/cmds/check_exists.py |
| `ProjectConfig` | openstack_requirements/project_config.py |
| `Overlap` | versions_overlap_parent.py |
| `Cap` | tools/cap.py |
| `Lint` | tools/lint.py |
| `FixLower` | tools/fix-lower-constraints.py |

Helper modules:

- `Wrappers`: `Option`, and `Result`, whose `Failure` stands for a
  propagating exception.
- `Text`: the parts of Python's `str` the tools use.
- `Sorting`: Python's string order and its stable `sorted`.
- `Listing`: generators over dictionary pairs.
- `Names`: `canonical_name`.
- `Foreign`: the third-party parsing and version calls, as the fields of a
  `Lib` value.

Modelling choices:

- A Python dictionary is a `Store`: its keys in insertion order plus a map,
  so that outputs which depend on dictionary order follow it.
- Loops in the source are methods with loop invariants. Each method is
  proved equal to a specification function, and the properties are lemmas
  about those functions.
- The `RequirementsList` classes of check.py and versions_overlap_parent.py
  are Dafny classes whose methods update their fields.

One record type serves every tool: package, location, specifiers, markers,
comment and a set of extras. requirement.py's own record has four fields.
Its consumers also use `location` and `extras`; the line parser leaves both
empty.

`canonical_name` and `to_line` are used by the tools, but neither is part
of requirement.py as modelled here. Both are stated:

- `canonical_name` is `pkg_resources.safe_name` followed by lower-casing.
- `to_line` is the per-record rendering of `to_content`, with `;` before
  the markers and no prefix.

## Model

| member | source | states |
|---|---|---|
| Requirement.HashPos | openstack_requirements/requirement.py:54-57 | the comment starts at the first `#` of the line, or at its end when there is none |
| Requirement.MarkerPos | openstack_requirements/requirement.py:61-65 | the marker separator is the later of the first `;` and the first `:` before the comment, or the comment start when neither occurs |
| Requirement.ParseLineFields | openstack_requirements/requirement.py:42-80 | a parsed line has no location and no extras, and its comment is everything from the first `#` on |
| Requirement.CommentIsSuffix | openstack_requirements/requirement.py:54-70 | when the line holds a `#`, the comment is the suffix from the first one and starts with `#` |
| Requirement.NoHashNoComment | openstack_requirements/requirement.py:67-70 | a line without `#` parses with an empty comment |
| Requirement.CommentLine | openstack_requirements/requirement.py:73-80 | an empty or comment-only line parses to a record with empty package, specifiers and markers that keeps the whole line as its comment |
| Requirement.UrlLineFails | openstack_requirements/requirement.py:58-60 | a line with `://` before its comment is refused (the early parse raises) when the parser refuses URLs |
| Requirement.PassThroughUrlFails | openstack_requirements/requirement.py:58-60 | a tarballs.openstack.org URL line cannot be parsed, which is why the reader passes such lines through |
| Requirement.ClassifyLineOutcome | openstack_requirements/requirement.py:104-117 | each read line keeps its original text; it is unparsed exactly when its stripped form is a pass-through line, and otherwise succeeds exactly when the stripped line parses, carrying that parse |
| Requirement.ClassifyAllLines | openstack_requirements/requirement.py:111-117 | reading lines succeeds exactly when every line succeeds, and then yields one result per line, in order |
| Requirement.ToReqs | openstack_requirements/requirement.py:111-117 | the loop yields the classification of each line of the content, split keeping line ends |
| Requirement.KeyOrderGroups | openstack_requirements/requirement.py:96-101 | the dictionary's keys are exactly the lower-cased names that have a parsed line, each once |
| Requirement.GroupMembers | openstack_requirements/requirement.py:96-101 | an entry is under a key exactly when some parsed line with that lower-cased name produced it |
| Requirement.ToDict | openstack_requirements/requirement.py:96-101 | the loop builds the dictionary that groups the lines by lower-cased name, in first-seen key order with entries in line order, skipping unparsed lines |
| Requirement.Parse | openstack_requirements/requirement.py:38-39 | parsing content succeeds exactly when every line reads, and then yields the grouped dictionary of its lines |
| Requirement.RenderLine | openstack_requirements/requirement.py:88-92 | every written line is non-empty and ends with a line break |
| Requirement.ToContent | openstack_requirements/requirement.py:83-93 | the loop writes the header (when asked) followed by one rendered line per record, joined |
| Requirement.ContentLinesRead | openstack_requirements/requirement.py:83-93 | written content splits back into exactly the lines written: three header lines when asked, plus one per record |
| Requirement.HeaderSingleLines | openstack_requirements/requirement.py:24-30 | each of the three header lines holds no line break before its final newline |
| Requirement.CommentFreePartChars | openstack_requirements/requirement.py:88-92 | the written text before the comment holds no `#` or `:`, and holds a `;` only as the marker separator |
| Requirement.ToLineShape | openstack_requirements/requirement.py:88-92 | with `;` and no prefix, a record is written as package, specifiers, `;` and markers, then the padded comment |
| Requirement.ParseToLine | openstack_requirements/requirement.py:42-92 | round trip: a record whose fields are writable parses back from its written line to the same record |
| Requirement.ParseWritten | openstack_requirements/requirement.py:42-80 | the parser recovers every field of a writable record from its comment-free part followed by its comment |
| UpdateCmd.ChangeRepr | openstack_requirements/cmds/update.py:71-72 | a change prints as its old line padded or cut to exactly 30 characters, then ` ->   `, then the new line |
| UpdateCmd.CheckSetupPy | openstack_requirements/cmds/update.py:75-88 | setup.py is synced exactly when the project has a setup.py mentioning pbr and is not pbr itself, and then the actions are the verbose note and the file |
| UpdateCmd.ZipWithGlobal | openstack_requirements/cmds/update.py:131-158 | the `zip_longest` loop over project and global entries yields the changes and output records of every pair, in order |
| UpdateCmd.Report | openstack_requirements/cmds/update.py:180-187 | the loop writes the report of the changes |
| UpdateCmd.Summary | openstack_requirements/cmds/update.py:180-187 | the report is empty exactly when there are no changes, and otherwise is two header lines plus one line per change, all on standard output |
| UpdateCmd.SyncRequirementsFile | openstack_requirements/cmds/update.py:91-188 | the loop over the project's lines yields the actions and the output records of the line-by-line walk, then the report |
| UpdateCmd.ZipReqsGlobal | openstack_requirements/cmds/update.py:144-158 | a known package is written as the global entries, one per global entry, each keeping the extras of the project entry paired with it |
| UpdateCmd.ZipInSync | openstack_requirements/cmds/update.py:138-155 | a known package yields no change exactly when its project entries equal the global ones, extras aside, in number and order |
| UpdateCmd.ZipSurplus | openstack_requirements/cmds/update.py:132-137 | global entries beyond the project's count are reported as added and project entries beyond the global count as removed |
| UpdateCmd.KeysMember | openstack_requirements/cmds/update.py:113-116 | a name is processed exactly when some earlier line with a package has that lower-cased name |
| UpdateCmd.LaterOccurrence | openstack_requirements/cmds/update.py:113-116 | a later line of an already processed package produces nothing |
| UpdateCmd.LineOutKept | openstack_requirements/cmds/update.py:100-126 | header lines are dropped, unparsable lines become a comment record of the right-stripped text, comment-only lines, exempt packages and (under softupdate) unknown packages are kept as they are |
| UpdateCmd.KnownPackageOutput | openstack_requirements/cmds/update.py:128-158 | the first line of a known, non-exempt package outputs the global entries with the project's extras and raises no error |
| UpdateCmd.LineActions | openstack_requirements/cmds/update.py:159-179 | a line raises an error exactly when it is the first line of an unknown, non-exempt package and softupdate is off, and the error names that package |
| UpdateCmd.WalkErrors | openstack_requirements/cmds/update.py:159-179 | the walk's actions are exactly the errors for the unknown packages, and none under softupdate |
| UpdateCmd.UnknownDropped | openstack_requirements/cmds/update.py:165-179 | without softupdate an unknown package is dropped from the output and one error is raised for it |
| UpdateCmd.LineChanges | openstack_requirements/cmds/update.py:131-158 | a line records no change exactly when it is not a known package's first line or that package is in sync |
| UpdateCmd.WalkNoChanges | openstack_requirements/cmds/update.py:131-158 | the walk records no change exactly when every line is in sync |
| UpdateCmd.SyncedReportsNothing | openstack_requirements/cmds/update.py:180-187 | when every line is in sync, the only actions are errors: no report is printed |
| LegacyUpdate.CheckSetupPy | openstack_requirements/update.py:173-186 | setup.py is synced exactly when the project has a setup.py mentioning pbr and is not pbr itself, and then the actions are the verbose note and the file |
| LegacyUpdate.ZipWithGlobal | openstack_requirements/update.py:223-234 | the `izip_longest` loop yields the changes and the output records of every pair, in order |
| LegacyUpdate.SyncRequirementsFile | openstack_requirements/update.py:189-263 | the loop over the project's lines yields the actions and the output records of the line-by-line walk, then the report |
| LegacyUpdate.ZipReqsGlobal | openstack_requirements/update.py:233-234 | a known package is written exactly as its global entries |
| LegacyUpdate.ZipSame | openstack_requirements/update.py:224-232 | a known package yields no change exactly when its project entries equal the global ones in number and order |
| LegacyUpdate.ZipRecorded | openstack_requirements/update.py:224-232 | a differing pair is recorded with the stripped old and new lines; surplus global entries are added and surplus project entries removed |
| LegacyUpdate.LineOutKept | openstack_requirements/update.py:198-218 | header lines are dropped, unparsable lines are kept verbatim as a comment record, comment-only lines, `hacking` and (under softupdate) unknown packages are kept as they are |
| LegacyUpdate.KnownPackageOutput | openstack_requirements/update.py:220-234 | the first line of a known package outputs exactly the global records and raises no error |
| LegacyUpdate.LineActions | openstack_requirements/update.py:235-254 | a line raises an error exactly when it is the first line of an unknown package and softupdate is off |
| LegacyUpdate.WalkErrors | openstack_requirements/update.py:235-254 | the walk's actions are exactly the errors for the unknown packages, and none under softupdate |
| LegacyUpdate.LineChanges | openstack_requirements/update.py:220-234 | a line records no change exactly when it is not a known package's first line or that package's entries equal the global ones |
| LegacyUpdate.WalkNoChanges | openstack_requirements/update.py:220-234 | the walk records no change exactly when every line is unchanged |
| Check.DistinctCount | openstack_requirements/check.py:45-46 | a list has fewer distinct values than elements exactly when some value repeats |
| Check.GlobalReqsKeys | openstack_requirements/check.py:89-101 | the global dictionary has a key exactly for each lower-cased name of a parsed line |
| Check.GlobalReqsRecords | openstack_requirements/check.py:89-101 | a record is in a key's set exactly when a parsed line under that name produced it |
| Check.GetGlobalReqs | openstack_requirements/check.py:89-101 | reading global requirements fails exactly when the content does not parse, and otherwise yields each name's set of records |
| Check.StoreRecords | openstack_requirements/check.py:98-100 | the loop keeps every key and turns each key's entries into the set of their records |
| Check.MergeKeys | openstack_requirements/check.py:30-33 | a name is in the merged `reqs` exactly when some file defines it |
| Check.MergeLastWins | openstack_requirements/check.py:30-33 | the merged value of a name is the one from the last file that defines it |
| Check.Duplicated | openstack_requirements/check.py:44-46 | the strict duplicate test holds exactly when two records are equal once their comments are blanked |
| Check.RequirementsList.constructor | openstack_requirements/check.py:24-28 | a new list has its name and project, no files, no records, and has not failed |
| Check.RequirementsList.ExtractReqs | openstack_requirements/check.py:35-51 | extraction fails exactly when the content does not parse; otherwise it yields the named sets and marks the list failed when strict and a package repeats a record |
| Check.RequirementsList.ExtractGroup | openstack_requirements/check.py:42-50 | one package's set is the set of its records, and the list is marked failed when strict and the records repeat |
| Check.RequirementsList.ExtractParsed | openstack_requirements/check.py:38-51 | every named key of the parse gets its set of records, the unnamed key is skipped, and the failed flag records any strict duplicate |
| Check.RequirementsList.ProcessItem | openstack_requirements/check.py:63-68 | processing one file stores its extraction under its name (a new name is appended to the file order) and leaves everything alone when it does not parse |
| Check.RequirementsList.Process | openstack_requirements/check.py:53-72 | processing succeeds exactly when every requirements file and extra parses, and then each one's extraction is stored under its name, later ones winning |
| Check.FilesAfterOrder | openstack_requirements/check.py:63-72 | the file order keeps the earlier files first, stays free of repeats and holds exactly the earlier and the processed names |
| Check.AssignAllKeys | openstack_requirements/check.py:63-72 | after processing, a file has records exactly when it had them or was processed |
| Check.AssignAllUntouched | openstack_requirements/check.py:63-72 | a file not processed keeps its records |
| Check.AssignAllLastWins | openstack_requirements/check.py:63-72 | a processed file holds the extraction of its last occurrence |
| Check.IsRequirementInGlobalReqs | openstack_requirements/check.py:75-86 | the search succeeds exactly when some global record equals the requirement in every field but extras |
| Check.AddExtras | openstack_requirements/check.py:128-133 | counting one record adds one to each of its extras, or to the empty extra when it has none, and leaves other counts alone |
| Check.CountOff | openstack_requirements/check.py:140-148 | the count test fails exactly when some extra's count differs from the number of global records |
| Check.TalliesMismatch | openstack_requirements/check.py:128-148 | the counts built over a package's records disagree with the global line count exactly when some extra appears on a different number of records |
| Check.CheckName | openstack_requirements/check.py:110-148 | a package fails exactly when it changed from the branch, is not blacklisted, and is missing from the global list or differs from it with a record not found there or a count mismatch |
| Check.CheckFile | openstack_requirements/check.py:110-148 | a file fails exactly when one of its packages fails |
| Check.Validate | openstack_requirements/check.py:104-149 | validation fails exactly when some package of some file of the head fails against the branch, the blacklist and the global list |
| Check.PlainCounts | openstack_requirements/check.py:128-148 | for records without extras the count test fails exactly when the number of records differs from the number of global records |
| Playbook.HeadStrict | playbooks/files/project-requirements-change.py:182 | the change is checked strictly exactly when the target branch does not start with `stable/` |
| Playbook.BranchItems | playbooks/files/project-requirements-change.py:185-195 | a local run has no baseline files; otherwise the baseline is the branch's requirements files followed by its extras |
| Playbook.Blacklist | playbooks/files/project-requirements-change.py:166-167 | the blacklist holds exactly the lower-cased names of the parsed blacklist file |
| Playbook.ReadBlacklist | playbooks/files/project-requirements-change.py:166-167 | reading the blacklist fails exactly when the file does not parse, and otherwise yields its names |
| Playbook.ProjectRequirementsChange | playbooks/files/project-requirements-change.py:149-248 | the run completes exactly when the global list, the blacklist and every file of the change and of the baseline parse, and then reports incompatibility exactly when some package violates the rules or a strictly checked file repeats a record |
| Constraints.Constrained | openstack_requirements/constraints.py:43 | the constrained names are exactly the non-blank names of the constraints |
| Constraints.Unconstrained | openstack_requirements/constraints.py:39-44 | a name is unconstrained exactly when it is global, not blacklisted, not one of the exempt names and not constrained |
| Constraints.Dupes | openstack_requirements/constraints.py:51 | a name is a dupe exactly when it is non-blank and both constrained and blacklisted |
| Constraints.UncoveredAll | openstack_requirements/constraints.py:45-47 | one uncovered-name message per name, in the given order |
| Constraints.DenylistedAll | openstack_requirements/constraints.py:52-54 | one message per name listed in both files, in the given order |
| Constraints.IterationOrder | openstack_requirements/constraints.py:52 | iterating a set visits each of its members exactly once, in some order |
| Constraints.YieldUncovered | openstack_requirements/constraints.py:45-47 | the loop yields the uncovered-name messages of the names |
| Constraints.YieldDenylisted | openstack_requirements/constraints.py:52-54 | the loop yields the both-lists messages of the names |
| Constraints.CheckBlacklistCoverage | openstack_requirements/constraints.py:32-54 | the report is one message per unconstrained name in sorted order, then one message per name in both lists, in some order |
| Constraints.FormatGroup | openstack_requirements/constraints.py:60-63 | the inner loop yields a message for each entry of the package whose specifier does not start with `===` |
| Constraints.CheckFormat | openstack_requirements/constraints.py:57-63 | the loops yield the format messages of every entry, in dictionary order |
| Constraints.FormatMessages | openstack_requirements/constraints.py:57-63 | a message is reported exactly when some constraint's specifier lacks `===`, and it names the package and the original line |
| Constraints.Satisfied | openstack_requirements/constraints.py:89-101 | a pinned version is accepted exactly when its package is not global or some global specifier set contains it with pre-releases allowed; otherwise the failure lists every specifier it was compared against |
| Constraints.CompatibleGroup | openstack_requirements/constraints.py:104-107 | the inner loop yields, in entry order, a failure for each of the package's constraints whose pinned version no global specifier set of its package contains, pre-releases allowed |
| Constraints.CheckCompatible | openstack_requirements/constraints.py:66-108 | the loops yield, in dictionary order, the failure of every constraint whose package is global and whose pinned version no global specifier set contains, pre-releases allowed |
| Constraints.CompatibleFailures | openstack_requirements/constraints.py:89-107 | a failure is reported exactly when a constraint's package is global and none of its specifier sets contains the version after `===`, pre-releases allowed |
| Constraints.CompatibleAbsent | openstack_requirements/constraints.py:89-91 | constraints on packages missing from the global list never fail |
| Project.LineLenSpec | openstack_requirements/project.py:38 | the `line` rule takes text up to and including the first newline, and fails exactly when there is no newline |
| Project.ContsOfIndented | openstack_requirements/project.py:45 | the `cont*` rule takes exactly the space-indented lines that follow and returns their text without the indentation |
| Project.ExtraItemParts | openstack_requirements/project.py:43-45 | the `extra` rule yields the name and the first line joined with its continuation lines, and swallows the blank lines after them |
| Project.CommentItemOfLine | openstack_requirements/project.py:42 | the `comment` rule keeps a `#` line whole and swallows the blank lines after it |
| Project.LinesReachEnd | openstack_requirements/project.py:37-39 | `line*` consumes up to the last newline exactly when no line of the text is an `[extras]` header |
| Project.NoSection | openstack_requirements/project.py:36-39 | text without an `[extras]` line parses as a prefix of whole lines, no section, and an unterminated final part |
| Project.OneSection | openstack_requirements/project.py:36-46 | with an `[extras]` section after the prefix, the grammar succeeds exactly when no further header line follows the section, and then yields the prefix, the section's items and the rest |
| Project.SecondSectionFails | openstack_requirements/project.py:36-46 | a second `[extras]` header after the section makes the grammar fail |
| Project.MergeExtras | openstack_requirements/project.py:71-86 | the loop replaces each extra named in the new extras and keeps comments and other extras |
| Project.WriteSection | openstack_requirements/project.py:87-99 | the loop writes `[extras]`, the items and a separating newline when a suffix follows, or nothing when no items remain |
| Project.MergeSetupCfg | openstack_requirements/project.py:68-100 | the merge fails exactly when the grammar fails, and otherwise returns the prefix, the rewritten section and the suffix |
| Project.MergeItemsKeep | openstack_requirements/project.py:72-86 | the merge keeps the number and order of items, leaves comments and unnamed extras alone and gives each named extra its new requirements, written with `:` markers and a two-space prefix |
| Project.MergeWithoutSection | openstack_requirements/project.py:68-100 | a setup.cfg without an `[extras]` section comes back unchanged |
| Project.MergeOneSection | openstack_requirements/project.py:87-100 | with one section, the result is the prefix, then `[extras]`, the merged items and a newline, then the rest; an empty section vanishes |
| Generate.ParseFreeze | openstack_requirements/cmds/generate.py:28-45 | the loop over the freeze's lines yields the parse of its lines |
| Generate.FreezeLineOutcome | openstack_requirements/cmds/generate.py:36-43 | a stripped freeze line is skipped exactly when it is blank or a comment, and fails exactly when it starts with `-` or, not being a comment, holds no `==` |
| Generate.FreezeLineShape | openstack_requirements/cmds/generate.py:43 | a pin read from a line is the package and version before the line's first two `==` separators, neither holding `==` |
| Generate.FreezeLineOf | openstack_requirements/cmds/generate.py:43-44 | the line `package==version` reads back as that pin |
| Generate.ParseFreezeRoundTrip | openstack_requirements/cmds/generate.py:28-45 | round trip: the printed lines of printable pins parse back to the same pins, in order |
| Generate.FreezeMembers | openstack_requirements/cmds/generate.py:28-45 | parsing a freeze succeeds exactly when every line does, and then a pin is in the result exactly when some line reads as it |
| Generate.Pythons | openstack_requirements/cmds/generate.py:112-116 | the reference versions are the Python versions of the freezes, in order |
| Generate.RecordFreeze | openstack_requirements/cmds/generate.py:117-119 | the inner loop records each pin of one freeze under its package and version |
| Generate.CollectFreezes | openstack_requirements/cmds/generate.py:109-119 | collection fails exactly when a Python version repeats, naming the repeated one, and otherwise yields the reference versions and the nested dictionary of all pins |
| Generate.AddFreezeMembers | openstack_requirements/cmds/generate.py:117-119 | after one freeze, a Python version is recorded for a package and version exactly when it was before or that freeze pins them |
| Generate.CollectMembers | openstack_requirements/cmds/generate.py:113-119 | a Python version is recorded for a package and version exactly when that Python's freeze pins them |
| Generate.CollectSingle | openstack_requirements/cmds/generate.py:113-119 | a package every freeze pins once to the same version is recorded with that version alone, for all the reference versions |
| Generate.YieldPythons | openstack_requirements/cmds/generate.py:129-132 | the innermost loop yields one marked line per Python version, in sorted order |
| Generate.YieldMarked | openstack_requirements/cmds/generate.py:127-132 | the marker loops yield the marked lines of each version in sorted order |
| Generate.YieldPackage | openstack_requirements/cmds/generate.py:124-135 | one package yields its lines: marked lines or one unmarked line |
| Generate.CombineFreezes | openstack_requirements/cmds/generate.py:97-135 | combination fails exactly when a Python version repeats, and otherwise yields the rendered lines of the combined packages |
| Generate.SingleVersionUnmarked | openstack_requirements/cmds/generate.py:124-135 | a package pinned once to the same version by every freeze gives one unmarked line |
| Generate.MarkedMembers | openstack_requirements/cmds/generate.py:126-132 | when markers are needed, a line for a package, version and Python version appears exactly when that Python's freeze pins that version |
| Generate.PackageLinesOf | openstack_requirements/cmds/generate.py:121-135 | every line of a package names that package |
| Generate.CombinePackage | openstack_requirements/cmds/generate.py:121-123 | the lines naming a package are that package's lines when it was pinned and is not excluded, and none otherwise |
| Generate.CombineOrdered | openstack_requirements/cmds/generate.py:121 | the output is ordered by package name |
| Generate.CopiedAppend | openstack_requirements/cmds/generate.py:139-147 | appending the copy of a freeze under its mapped version, absent until then, keeps every appended freeze a copy of the first freeze mapping to it |
| Generate.CloneVersions | openstack_requirements/cmds/generate.py:138-147 | the freezes keep their prefix; each appended freeze copies the first freeze, in walk order, whose version maps to it; no appended version repeats an earlier one; and every mapped version ends up present |
| EditConstraint.EditedSpec | openstack_requirements/cmds/edit_constraint.py:24-29 | editing removes the canonical key when the replacement is empty and otherwise sets it to a single unparsed record holding the replacement as its comment; every other key is unchanged |
| EditConstraint.RecordsMembers | openstack_requirements/cmds/edit_constraint.py:30-33 | the collected records are exactly the records of all entries of the dictionary |
| EditConstraint.CollectRecords | openstack_requirements/cmds/edit_constraint.py:30-33 | the outer loop appends the records of each key's entries, in dictionary order |
| EditConstraint.CollectEntries | openstack_requirements/cmds/edit_constraint.py:31-33 | the inner loop appends the records of one key's entries, in order |
| EditConstraint.Edit | openstack_requirements/cmds/edit_constraint.py:23-34 | editing returns the edited dictionary and its records sorted by their fields |
| EditConstraint.EditResult | openstack_requirements/cmds/edit_constraint.py:23-34 | the result is sorted, has one record per entry, holds exactly the edited dictionary's records and holds the replacement when one was given |
| EditConstraint.EditSole | openstack_requirements/cmds/edit_constraint.py:25-34 | editing a dictionary that holds at most the edited key yields just the replacement record, or nothing |
| Names.SafeNameClean | openstack_requirements/cmds/edit_constraint.py:24 | the safe name holds only ASCII letters, digits, dots and single `-` characters, never two `-` in a row |
| Names.SafeNameFixed | openstack_requirements/cmds/edit_constraint.py:24 | a name already in that form is left as it is |
| Names.CanonicalIdempotent | openstack_requirements/cmds/edit_constraint.py:24 | canonicalising twice is canonicalising once |
| Names.CanonicalExample | openstack_requirements/tests/test_requirement.py:198-199 | `Foo_bar` canonicalises to `foo-bar` |
| LowerConstraints.FirstPinnedSpec | openstack_requirements/cmds/build_lower_constraints.py:40-43 | a version is found exactly when some clause's operator contains `>=` or `==`, and it is the version of the first such clause |
| LowerConstraints.GetRequirementsVersion | openstack_requirements/cmds/build_lower_constraints.py:33-43 | the loop returns the version of the first `>=`/`==` clause of the specifier set and fails when there is none |
| LowerConstraints.HighestSucceeds | openstack_requirements/cmds/build_lower_constraints.py:54 | `max` succeeds exactly when the list is non-empty and every element has a version |
| LowerConstraints.HighestBest | openstack_requirements/cmds/build_lower_constraints.py:54 | `max` returns an element of the list whose version is at least the version of every element |
| LowerConstraints.HighestRepeated | openstack_requirements/cmds/build_lower_constraints.py:54 | appending elements already in the list does not change the maximum |
| LowerConstraints.HighestTwice | openstack_requirements/cmds/build_lower_constraints.py:54 | the maximum of a list repeated twice is the maximum of the list |
| LowerConstraints.MaxByVersion | openstack_requirements/cmds/build_lower_constraints.py:54 | the loop computes `max` by version, keeping the first of equal versions and failing at the first element without one |
| LowerConstraints.GatherMembers | openstack_requirements/cmds/build_lower_constraints.py:48-52 | the gathered dictionary has exactly the non-blank names of the sets, each with the entries of every set in order |
| LowerConstraints.GatherSets | openstack_requirements/cmds/build_lower_constraints.py:48-52 | the loops extend each non-blank name's list with each set's entries |
| LowerConstraints.MergeNamesSpec | openstack_requirements/cmds/build_lower_constraints.py:53-55 | merging succeeds exactly when every name's maximum exists, and then yields one line per name: that maximum's line |
| LowerConstraints.MergedSucceeds | openstack_requirements/cmds/build_lower_constraints.py:46-55 | merging the sets succeeds exactly when every gathered name has a maximum, yields one line per name and never a line for the blank name |
| LowerConstraints.MergedLine | openstack_requirements/cmds/build_lower_constraints.py:53-55 | the line at each position is the maximum's line for the name at that position in sorted name order |
| LowerConstraints.MergedTwice | openstack_requirements/cmds/build_lower_constraints.py:46-55 | merging a set with itself gives the same lines as merging it alone |
| LowerConstraints.MergeConstraintsSets | openstack_requirements/cmds/build_lower_constraints.py:46-55 | the generator yields the merged lines of the constraint sets |
| CheckExists.MissesZero | openstack_requirements/cmds/check_exists.py:86-95 | no upper-constraints version is reported exactly when the project's specifiers admit every one of them |
| CheckExists.GrMissesZero | openstack_requirements/cmds/check_exists.py:96-109 | no global-requirements failure is reported exactly when the global specifiers admit the version of every project clause other than `!=` |
| CheckExists.EntryErrorsZero | openstack_requirements/cmds/check_exists.py:83-109 | a project record counts no error exactly when it admits the upper-constraints versions and, with the global check, its versions are admitted by the global specifiers |
| CheckExists.NameErrorsZero | openstack_requirements/cmds/check_exists.py:66-109 | a name counts no error exactly when it is blank, blacklisted, or in both files with every record passing; a name missing from either file counts exactly one |
| CheckExists.FileErrorsZero | openstack_requirements/cmds/check_exists.py:66-109 | a file counts no error exactly when every name in it passes |
| CheckExists.TotalErrorsZero | openstack_requirements/cmds/check_exists.py:62-111 | the run counts no error exactly when every name of every requirements file passes |
| CheckExists.IgnoredNames | openstack_requirements/cmds/check_exists.py:67-68 | blank and blacklisted names add nothing to a file's count |
| CheckExists.CountMisses | openstack_requirements/cmds/check_exists.py:86-95 | the loop counts the upper-constraints versions the project's specifiers do not admit |
| CheckExists.CountGrMisses | openstack_requirements/cmds/check_exists.py:97-109 | the loop counts the project's non-`!=` versions the global specifiers do not admit |
| CheckExists.CountEntries | openstack_requirements/cmds/check_exists.py:83-109 | the loop adds up the errors of each record of a name |
| CheckExists.CountFile | openstack_requirements/cmds/check_exists.py:66-109 | the loop adds up the errors of each name of one file |
| CheckExists.CheckExists | openstack_requirements/cmds/check_exists.py:62-111 | the run fails exactly when some project requirements file does not parse; otherwise, over the stores `requirement.parse` builds, the status is 1 when any error is counted and 0 otherwise, and 0 exactly when every name passes |
| CheckExists.ReadAllUnique | openstack_requirements/cmds/check_exists.py:65 | the stores parsed from the files' texts are determined by those texts |
| ProjectConfig.RequireCheckRequirements | openstack_requirements/project_config.py:47-73 | at most one error: a missing repository is reported as not found, and a present one is reported exactly when none of its templates is `check-requirements` |
| Overlap.LastDigits | versions_overlap_parent.py:27-32 | the scan from the right finds the last all-digit component after the first, or reports none (0) |
| Overlap.Borrow | versions_overlap_parent.py:40-49 | decreasing leaves the first component and non-digit components alone; a changed digit component either was 0 and becomes `9` or drops by one |
| Overlap.IncreaseVersion | versions_overlap_parent.py:24-34 | the loop computes the increased version string |
| Overlap.DecreaseVersion | versions_overlap_parent.py:37-52 | the loop computes the decreased version string |
| Overlap.IncreasedSpec | versions_overlap_parent.py:24-34 | increasing adds one to the last all-digit component after the first and changes nothing else, or changes nothing when there is none |
| Overlap.DecreasedSpec | versions_overlap_parent.py:37-52 | decreasing keeps the number of components and the first one; each changed digit component either wraps from 0 to `9` or drops by one |
| Overlap.DecreaseIncrease | versions_overlap_parent.py:24-52 | decreasing an increased version gives the version back when its last digit component has no leading zeros |
| Overlap.RequiredExamples | versions_overlap_parent.py:55-63 | `>` 1.0 requires 1.1, `<` 1.0 requires 1.9, and every other operator requires the version itself |
| Overlap.ReadLinesSpec | versions_overlap_parent.py:71-83 | reading succeeds exactly when every kept line parses, and then each name maps to the last line that names it, or to its earlier value |
| Overlap.ReadLinesKeyed | versions_overlap_parent.py:83 | every requirement read is stored under its own lower-cased project name |
| Overlap.RequirementsList.constructor | versions_overlap_parent.py:67-69 | a new list has its name and no requirements |
| Overlap.RequirementsList.ReadRequirements | versions_overlap_parent.py:71-83 | reading updates the list's requirements as the line-by-line reading does, and keeps its name |
| Overlap.ClausesAdmitted | versions_overlap_parent.py:100-105 | the loop succeeds exactly when the parent's specifier set contains, pre-releases allowed as `Requirement.__contains__` does, the required version of every clause |
| Overlap.CompareReqs | versions_overlap_parent.py:86-108 | comparison raises exactly when some head requirement is in the parent, differs from it in name, URL, specifier set, extras or marker, and has a clause whose required version the parent does not contain, pre-releases allowed |
| Overlap.CompareSelf | versions_overlap_parent.py:95-97 | a list always overlaps with itself, since every requirement equals itself |
| Cap.SplitAnyMany | tools/cap.py:91-92 | splitting on `<`, `>` and `=` yields more than one piece exactly when the text holds one of them |
| Cap.LastPiece | tools/cap.py:99 | the last piece is a suffix free of `<`, `>` and `=`; it is the whole text when there is nothing to split on, and otherwise follows one of those characters |
| Cap.CapRequirementSpec | tools/cap.py:95-100 | there is no cap exactly when the package is not frozen or its frozen specifier is empty; otherwise the cap is the part after the specifier's last `<`, `>` or `=` |
| Cap.PinWithoutComment | tools/cap.py:67-88 | a line without comment becomes its stripped text, a comma when it already holds an operator, and `<=` with the cap |
| Cap.PinWithComment | tools/cap.py:74-84 | a line with a ` #` comment gets the cap inserted before the comment, which is kept |
| Cap.CapLines | tools/cap.py:30-64 | capping fails exactly when some line fails, and otherwise yields one line per input line, unparsable and already capped lines unchanged |
| Cap.FreezeSpec | tools/cap.py:103-117 | the frozen dictionary has a name exactly when some line parses to it, with the specifier of the last such line |
| Cap.LastParsedSpec | tools/cap.py:110-116 | the last parse for a name exists exactly when some line parses to that name, and no later line does |
| Cap.Freeze | tools/cap.py:103-117 | the loop builds the frozen dictionary of the lines, skipping those that do not parse |
| Lint.ReadConsistent | tools/lint.py:39-64 | after reading, the stored sections and the section order agree, and every stored section is sorted by lower-cased line |
| Lint.StoredSorted | tools/lint.py:66-68 | the last section is stored sorted by lower-cased line, as a permutation of its dependencies, with lines of equal key in their original order |
| Lint.SortDepsStable | tools/lint.py:46-48 | sorting keeps the dependencies of each lower-cased key in their original order |
| Lint.NonBlank | tools/lint.py:41-42 | the kept lines are non-blank |
| Lint.ReadNonBlank | tools/lint.py:41-42 | blank lines do not change what is read |
| Lint.ReadPending | tools/lint.py:59-64 | the comment pending after reading is the run of `#` lines since the last dependency, `##` lines and blank lines aside |
| Lint.DepTakesComment | tools/lint.py:59-64 | a dependency line is appended with the pending comment, or none when it is empty, and clears it |
| Lint.ReadNoSection | tools/lint.py:35-57 | before the first section marker the section stays blank and no header is stored |
| Lint.HeaderBeforeSection | tools/lint.py:55-57 | a `##` line before any section marker fails, since the blank section has no header to extend |
| Lint.ReadLines | tools/lint.py:39-64 | the reading loop computes the line-by-line reading of the file |
| Lint.WriteSections | tools/lint.py:70-82 | the writing loop writes the sections in order, a blank line between them, each header then its dependencies, and fails on a section without header |
| Lint.WriteDeps | tools/lint.py:78-82 | the inner loop appends each dependency after its comment |
| Lint.DepsTextHolds | tools/lint.py:78-82 | every dependency line of a section, and its comment, is written out |
| Lint.WrittenSucceeds | tools/lint.py:70-82 | writing succeeds exactly when every section to write has a header |
| Lint.WrittenHolds | tools/lint.py:70-82 | the written text holds the header of every section and every line of its dependencies |
| Lint.Sort | tools/lint.py:31-82 | sorting yields the text written back from the sorted sections of the file, or the error reading raises |
| FixLower.Update | tools/fix-lower-constraints.py:36-37 | the updated dictionary has the keys of both, the test requirements winning for shared keys |
| FixLower.UpdateValid | tools/fix-lower-constraints.py:37 | `dict.update` keeps the dictionary well formed: keys once each, in insertion order |
| FixLower.LowerBounds | tools/fix-lower-constraints.py:51-55 | the lower bounds are exactly the comma-separated clauses holding `>` |
| FixLower.LowerBoundsFirst | tools/fix-lower-constraints.py:51-61 | there is no lower bound exactly when no clause holds `>`, and the first one is the first such clause |
| FixLower.RequiredSpec | tools/fix-lower-constraints.py:61 | the required version is the end of the first lower-bound clause, with its leading `>` and `=` stripped |
| FixLower.EntryLineSpec | tools/fix-lower-constraints.py:56-66 | without a lower bound, or when the required version equals the constraint's, the constraint line is kept; otherwise the constraint is pinned to the required version |
| FixLower.AlignedUnchanged | tools/fix-lower-constraints.py:56-66 | when every requirement agrees with the constraint, every line emitted is the constraint line |
| FixLower.OutputLength | tools/fix-lower-constraints.py:42-66 | the output holds one line per unused constraint plus one per requirement entry of each used one |
| FixLower.OutputHolds | tools/fix-lower-constraints.py:42-66 | every line emitted for a constraint is in the output |
| FixLower.SortLinesSpec | tools/fix-lower-constraints.py:68 | the sorted output is a permutation of the output, ordered by lower-cased text |
| FixLower.PrintedMembers | tools/fix-lower-constraints.py:68-71 | a line is printed exactly when it is the right-stripped form of a non-blank output line |
| FixLower.PrintedClean | tools/fix-lower-constraints.py:69-71 | every printed line is non-empty and ends in a non-space character |
| FixLower.AlignEntries | tools/fix-lower-constraints.py:50-66 | the loop emits one line per requirement entry of a constraint |
| FixLower.AlignEntry | tools/fix-lower-constraints.py:51-66 | one requirement entry emits its aligned line |
| FixLower.AlignConstraints | tools/fix-lower-constraints.py:42-66 | the loop over the constraints emits the aligned lines of each, in dictionary order |
| FixLower.PrintLines | tools/fix-lower-constraints.py:68-71 | the printing loop prints the non-blank sorted lines, right-stripped |
| FixLower.FixLowerConstraints | tools/fix-lower-constraints.py:36-71 | the script prints the sorted, cleaned lines aligned from the merged requirements and the constraints |

## Left out

- File, process and network I/O is not modelled. Files are taken as their text or lines, and results are returned instead of written. This covers:
  - reading and writing projects and requirements files;
  - argument parsing and the `main` functions;
  - the git checkouts of the change check;
  - `generate._freeze`, which runs virtualenv and pip;
  - loading the zuul layout, which becomes a map parameter;
  - tools/lint.py `validate_excludes` and `remove_old_excludes`, which use the network and the clock.
- Printed diagnostics are not modelled. check.py and the change script keep only their verdicts and `failed` flags. The missing-trailing-newline notice of openstack_requirements/check.py:65-67 sets nothing and is left out with the prints.
- `pkg_resources.Requirement.parse`, `packaging`'s `SpecifierSet` and `Version` are the fields of a `Foreign.Lib` value; their code is not part of this model. Two assumptions are stated as predicates and required only by the lemmas that use them:
  - `RejectsUrls`: parsing refuses text holding `://`;
  - `VersionOrder`: version comparison is a total preorder;
  - `SpecifierEquality`: a specifier set equals itself.
- The library calls differ by their keyword arguments, so `Lib` keeps them apart:
  - `contains` is `version in SpecifierSet(text)`, as openstack_requirements/cmds/check_exists.py:89 and 103 call it;
  - `containsPre` is `SpecifierSet(text).contains(version, prereleases=True)`. openstack_requirements/constraints.py:96 calls it, and so does pkg_resources `Requirement.__contains__` at versions_overlap_parent.py:102;
  - `sameSpecifier` is specifier-set equality, one part of the requirement equality at versions_overlap_parent.py:95.
- `project.extras` (openstack_requirements/project.py:57-65) reads setup.cfg with `configparser`. It is not modelled: the extras' name and content pairs are a parameter of the checks that use them.
- openstack_requirements/update.py:125-171, 306-339, 350-361 and 375-395 (parser, setup.cfg merge, renderer and grouping) repeat requirement.py and project.py line for line. They are modelled once, by `Requirement` and `Project`. `LegacyUpdate` models only what differs: its sync, its setup.py text and its error message. `_copy_requires` and `_project_extras` are orchestration over files and `configparser`.
- The change script's own `RequirementsList` and `_is_requirement_in_global_reqs` (playbooks/files/project-requirements-change.py:44-93 and 135-146) repeat check.py's code. `Playbook` uses the `Check` members for them.
- `Text.Lower` lower-cases ASCII letters only; Python's `str.lower` also maps other scripts.
- Arguments changed in place are modelled as returned values, so aliasing as the caller sees it is not captured. This covers:
  - `edit` popping or assigning a key of the caller's dictionary;
  - `_clone_versions` appending to the list it walks;
  - `requirements.update(...)` in tools/fix-lower-constraints.py.
- FixLower.AlignConstraints: requires every constraint group to be non-empty (`Listed`), which parsing guarantees. The source would raise an IndexError on an empty group.
- Constraints.IterationOrder: the order in which Python iterates a set is left open. The contract states only that each member is visited once.
- The SHA-1 sort key `_make_sort_key` of generate.py is not modelled.
- cap.py's module-level `overrides` dictionary is a parameter of `Cap.CapLines`.
- `canonical_name` and `to_line` do not appear in requirement.py. `Names.CanonicalName` and `Requirement.ToLine` state them, as described above.
- UpdateCmd.SyncRequirementsFile: the model proves that a walk records no change exactly when every package is in sync. It does not prove that re-running on the written output records no change, because that needs every global record to read back from its written line.
- Cap.CapLines: the contract states the line count, the failure cases and that unparsable or capped lines are kept. The override and pin cases are stated by `CapLine` and the `Pin` lemmas rather than in the method's ensures.
