/**
 * The requirements-change job of playbooks/files/project-requirements-change.py:
 * the files of the proposed change (`HEAD`) are parsed strictly unless the
 * target branch is a stable one, the target branch's files are parsed
 * leniently as the baseline, and every changed package is validated against
 * the global list.  The job fails when validation or the strict duplicate
 * test does.
 */
module Playbook {
  import opened Wrappers
  import opened Text
  import opened Foreign
  import opened Requirement
  import opened Check

  /** Strict parsing applies to every target branch but the stable ones. */
  function HeadStrict(branch: string): (strict: bool)
    ensures strict <==> !(|branch| >= 7 && branch[..7] == "stable/")
  {
    !StartsWith(branch, "stable/")
  }

  /** The baseline items: none when checking local changes. */
  function BranchItems(local: bool, files: seq<(string, string)>, extras: seq<(string, string)>): (items: seq<(string, string)>)
    ensures local ==> items == []
    ensures !local ==> items == files + extras
  {
    if local then [] else files + extras
  }

  /** The names of a parsed blacklist: its keys. */
  function Blacklist(lines: seq<Line>): (names: set<string>)
    ensures forall k :: k in names <==> k in KeyOrder(lines)
  {
    set k | k in KeyOrder(lines)
  }

  /** `reqs` of a list after `process` on `items` from an empty start. */
  function MergedAfter(lib: Lib, items: seq<(string, string)>): map<string, set<Requirement>> {
    var files, byFile := FilesAfter([], items), AssignAll(map[], Extractor(lib), items);
    MergedDefined(lib, items);
    Merge(files, byFile)
  }

  /** The name list after `process` names exactly the assigned files. */
  lemma MergedDefined(lib: Lib, items: seq<(string, string)>)
    ensures forall f :: f in FilesAfter([], items) ==> f in AssignAll(map[], Extractor(lib), items)
  {
    FilesAfterOrder([], items);
    forall f | f in FilesAfter([], items)
      ensures f in AssignAll(map[], Extractor(lib), items)
    {
      AssignAllKeys(map[], Extractor(lib), items, f);
    }
  }

  /**
   * Everything the job reads parses: the global list, the blacklist, the
   * change's files and, unless local, the branch's files.
   */
  predicate AllParse(lib: Lib, globalText: string, blacklistText: string,
                     headItems: seq<(string, string)>, branchItems: seq<(string, string)>) {
    Parses(lib, globalText) && Parses(lib, blacklistText)
    && AllItems(ParseTest(lib), headItems) && AllItems(ParseTest(lib), branchItems)
  }

  /**
   * The verdict: some package of the change's files violates the rules
   * against the branch baseline, the blacklist and the global list, or a
   * strictly parsed file of the change lists a package twice.
   */
  ghost predicate Incompatible(lib: Lib, branch: string, globalText: string, blacklistText: string,
                               headItems: seq<(string, string)>, branchItems: seq<(string, string)>)
    requires Parses(lib, globalText) && Parses(lib, blacklistText)
  {
    ValidationFails(AssignAll(map[], Extractor(lib), headItems), MergedAfter(lib, branchItems),
                    Blacklist(LinesOf(lib, blacklistText)), GlobalReqs(LinesOf(lib, globalText)))
    || (HeadStrict(branch) && AnyItem(DupTest(lib), headItems))
  }

  /** The blacklist's names, read from the parsed file. */
  method ReadBlacklist(lib: Lib, content: string) returns (r: Result<set<string>>)
    ensures r.Success? <==> Parses(lib, content)
    ensures r.Success? ==> r.value == Blacklist(LinesOf(lib, content))
  {
    var parsed := Parse(lib, content);
    if parsed.Failure? {
      return Failure(parsed.error);
    }
    var names := set k | k in parsed.value.order;
    return Success(names);
  }

  /**
   * `main`: reads the global list and the blacklist, processes the change
   * (strictly unless the branch is stable) and the branch (leniently),
   * validates, and reports whether an incompatible requirement was found.
   * Content that does not parse is an error.  The branch's list never sets
   * its own `failed`.
   */
  method ProjectRequirementsChange(lib: Lib, branch: string, local: bool, globalText: string, blacklistText: string,
                                   headFiles: seq<(string, string)>, headExtras: seq<(string, string)>,
                                   branchFiles: seq<(string, string)>, branchExtras: seq<(string, string)>)
    returns (r: Result<bool>)
    ensures r.Success? <==> AllParse(lib, globalText, blacklistText, headFiles + headExtras,
                                      BranchItems(local, branchFiles, branchExtras))
    ensures r.Success? ==> (r.value <==> Incompatible(lib, branch, globalText, blacklistText, headFiles + headExtras,
                                                      BranchItems(local, branchFiles, branchExtras)))
  {
    var globalReqs := GetGlobalReqs(lib, globalText);
    if globalReqs.Failure? {
      return Failure(globalReqs.error);
    }
    var blacklist := ReadBlacklist(lib, blacklistText);
    if blacklist.Failure? {
      return Failure(blacklist.error);
    }
    var headReqs := new RequirementsList("HEAD", headFiles, headExtras);
    var headOk := headReqs.Process(lib, HeadStrict(branch));
    if !headOk {
      return Failure("requirements of HEAD do not parse");
    }
    var branchReqs;
    if local {
      branchReqs := new RequirementsList(branch, [], []);
    } else {
      branchReqs := new RequirementsList(branch, branchFiles, branchExtras);
    }
    var branchOk := branchReqs.Process(lib, false);
    if !branchOk {
      return Failure("requirements of the branch do not parse");
    }
    var failed := Validate(headReqs, branchReqs, blacklist.value, globalReqs.value);
    return Success(failed || headReqs.failed || branchReqs.failed);
  }
}
