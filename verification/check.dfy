/**
 * The requirements checker of openstack_requirements/check.py: a project's
 * requirement files are parsed into per-file dictionaries of record sets,
 * flagged for duplicates, and validated against the global requirements.
 */
module Check {
  import opened Wrappers
  import opened Text
  import opened Foreign
  import opened Requirement

  /** The content parses: no line is rejected by the parser. */
  predicate Parses(lib: Lib, content: string) {
    ClassifyAll(lib, SplitLines(content)).Success?
  }

  /** The parsed lines of content that parses. */
  function LinesOf(lib: Lib, content: string): seq<Line>
    requires Parses(lib, content)
  {
    ClassifyAll(lib, SplitLines(content)).value
  }

  /** The records of a group, its lines dropped. */
  function Records(es: seq<Entry>): set<Requirement> {
    set i | 0 <= i < |es| :: es[i].req
  }

  /** `get_global_reqs` over parsed lines: every key with the set of its records. */
  function GlobalReqs(lines: seq<Line>): map<string, set<Requirement>> {
    map k | k in KeyOrder(lines) :: Records(Group(lines, k))
  }

  /** What `extract_reqs` returns: the same, without the blank key of comment lines. */
  function Extracted(lines: seq<Line>): map<string, set<Requirement>> {
    map k | k in KeyOrder(lines) && k != "" :: Records(Group(lines, k))
  }

  /** `extract_reqs` of content, or nothing when it does not parse. */
  function FileReqs(lib: Lib, content: string): map<string, set<Requirement>> {
    if Parses(lib, content) then Extracted(LinesOf(lib, content)) else map[]
  }

  /** A record with its comment blanked, as the duplicate test compares them. */
  function Blank(q: Requirement): Requirement {
    q.(comment := "")
  }

  /** Two entries of a group are equal once their comments are blanked. */
  predicate HasDuplicates(es: seq<Entry>) {
    exists i, j :: 0 <= i < j < |es| && Blank(es[i].req) == Blank(es[j].req)
  }

  /** Some named package of the lines has duplicate entries. */
  predicate DupIn(lines: seq<Line>) {
    exists k :: k in KeyOrder(lines) && k != "" && HasDuplicates(Group(lines, k))
  }

  /** Some element of `xs` occurs twice. */
  predicate Repeats<T(==)>(xs: seq<T>) {
    exists i, j :: 0 <= i < j < |xs| && xs[i] == xs[j]
  }

  /** `len(xs) != len(set(xs))` exactly when some element occurs twice. */
  lemma {:induction false} DistinctCount<T>(xs: seq<T>)
    ensures |set x | x in xs| <= |xs|
    ensures |set x | x in xs| != |xs| <==> Repeats(xs)
  {
    if xs != [] {
      var init, last := xs[..|xs| - 1], xs[|xs| - 1];
      DistinctCount(init);
      RepeatsSnoc(xs);
      assert xs == init + [last];
      SetOfSnoc(init, last);
      var s0 := set x | x in init;
      if last !in s0 {
        assert |s0 + {last}| == |s0| + 1;
      }
    }
  }

  lemma SetOfSnoc<T>(init: seq<T>, last: T)
    ensures (set x | x in init + [last]) == (set x | x in init) + {last}
  {
  }

  /** A repeat is a repeat among all elements but the last, or the last element occurring earlier. */
  lemma RepeatsSnoc<T>(xs: seq<T>)
    requires xs != []
    ensures Repeats(xs) <==> Repeats(xs[..|xs| - 1]) || xs[|xs| - 1] in xs[..|xs| - 1]
  {
    var init, last := xs[..|xs| - 1], xs[|xs| - 1];
    if Repeats(xs) {
      var i, j :| 0 <= i < j < |xs| && xs[i] == xs[j];
      if j < |xs| - 1 {
        assert init[i] == init[j];
      } else {
        assert init[i] == last;
      }
    }
    if Repeats(init) {
      var i, j :| 0 <= i < j < |init| && init[i] == init[j];
      assert xs[i] == xs[j];
    }
    if last in init {
      var i :| 0 <= i < |init| && init[i] == last;
      assert xs[i] == xs[|xs| - 1];
    }
  }

  /** A key is in the global store exactly when some parsed line has it. */
  lemma GlobalReqsKeys(lines: seq<Line>, k: string)
    ensures k in GlobalReqs(lines) <==> exists i :: 0 <= i < |lines| && lines[i].req.Some? && Key(lines[i].req.value) == k
  {
    KeyOrderGroups(lines);
    if Group(lines, k) != [] {
      var e := Group(lines, k)[0];
      GroupMembers(lines, k, e);
    }
    if exists i :: 0 <= i < |lines| && lines[i].req.Some? && Key(lines[i].req.value) == k {
      var i :| 0 <= i < |lines| && lines[i].req.Some? && Key(lines[i].req.value) == k;
      GroupMembers(lines, k, Entry(lines[i].req.value, lines[i].text));
    }
  }

  /**
   * The global store keeps every parsed record under its key and nothing
   * else; the lines themselves are discarded.
   */
  lemma GlobalReqsRecords(lines: seq<Line>, k: string, q: Requirement)
    requires k in GlobalReqs(lines)
    ensures q in GlobalReqs(lines)[k] <==> Key(q) == k && exists i :: 0 <= i < |lines| && lines[i].req == Some(q)
  {
    var g := Group(lines, k);
    if q in GlobalReqs(lines)[k] {
      var j :| 0 <= j < |g| && g[j].req == q;
      GroupMembers(lines, k, g[j]);
    }
    if Key(q) == k && exists i :: 0 <= i < |lines| && lines[i].req == Some(q) {
      var i :| 0 <= i < |lines| && lines[i].req == Some(q);
      var e := Entry(q, lines[i].text);
      GroupMembers(lines, k, e);
      var j :| 0 <= j < |g| && g[j] == e;
      assert g[j].req == q;
    }
  }

  /** A dictionary built from a store, key by key, is the global store of the lines. */
  lemma StoreGlobal(store: Store, lines: seq<Line>, m: map<string, set<Requirement>>)
    requires Grouped(store, lines)
    requires forall k :: k in m <==> k in store.order
    requires forall k :: k in m ==> k in store.groups && m[k] == Records(store.groups[k])
    ensures m == GlobalReqs(lines)
  {
  }

  /** The same, without the blank key, is what `extract_reqs` returns. */
  lemma StoreExtracted(store: Store, lines: seq<Line>, m: map<string, set<Requirement>>)
    requires Grouped(store, lines)
    requires forall k :: k in m <==> k in store.order && k != ""
    requires forall k :: k in m ==> k in store.groups && m[k] == Records(store.groups[k])
    ensures m == Extracted(lines)
  {
  }

  lemma StoreDup(store: Store, lines: seq<Line>)
    requires Grouped(store, lines)
    ensures DupIn(lines) <==> exists j :: 0 <= j < |store.order| && store.order[j] != "" && HasDuplicates(store.groups[store.order[j]])
  {
    if DupIn(lines) {
      var k :| k in KeyOrder(lines) && k != "" && HasDuplicates(Group(lines, k));
      var j :| 0 <= j < |store.order| && store.order[j] == k;
    }
  }

  /** `get_global_reqs`: parse the content and map every key to the set of its records. */
  method GetGlobalReqs(lib: Lib, content: string) returns (r: Result<map<string, set<Requirement>>>)
    ensures r.Success? <==> Parses(lib, content)
    ensures r.Success? ==> r.value == GlobalReqs(LinesOf(lib, content))
  {
    var parsed := Parse(lib, content);
    if parsed.Failure? {
      return Failure(parsed.error);
    }
    var globalReqs := StoreRecords(parsed.value);
    StoreGlobal(parsed.value, LinesOf(lib, content), globalReqs);
    return Success(globalReqs);
  }

  /** The loop of `get_global_reqs`: each key of the parsed dictionary with its records. */
  method StoreRecords(store: Store) returns (globalReqs: map<string, set<Requirement>>)
    requires store.Valid()
    ensures forall k :: k in globalReqs <==> k in store.order
    ensures forall k :: k in globalReqs ==> k in store.groups && globalReqs[k] == Records(store.groups[k])
  {
    globalReqs := map[];
    var i := 0;
    while i < |store.order|
      invariant 0 <= i <= |store.order|
      invariant forall k :: k in globalReqs <==> k in store.order[..i]
      invariant forall k :: k in globalReqs ==> k in store.groups && globalReqs[k] == Records(store.groups[k])
    {
      var k := store.order[i];
      var entries := store.groups[k];
      globalReqs := globalReqs[k := set j | 0 <= j < |entries| :: entries[j].req];
      assert store.order[..i + 1] == store.order[..i] + [k];
      i := i + 1;
    }
    assert store.order[..i] == store.order;
  }

  /** The `reqs` property: every file's dictionary merged into one, later files winning. */
  function Merge(files: seq<string>, byFile: map<string, map<string, set<Requirement>>>): map<string, set<Requirement>>
    requires forall f :: f in files ==> f in byFile
  {
    if files == [] then map[]
    else Merge(files[..|files| - 1], byFile) + byFile[files[|files| - 1]]
  }

  /** A name is in the merged dictionary exactly when some file has it. */
  lemma {:induction false} MergeKeys(files: seq<string>, byFile: map<string, map<string, set<Requirement>>>, name: string)
    requires forall f :: f in files ==> f in byFile
    ensures name in Merge(files, byFile) <==> exists i :: 0 <= i < |files| && name in byFile[files[i]]
  {
    if files != [] {
      var init := files[..|files| - 1];
      MergeKeys(init, byFile, name);
      if exists i :: 0 <= i < |files| && name in byFile[files[i]] {
        var i :| 0 <= i < |files| && name in byFile[files[i]];
        if i < |init| { assert init[i] == files[i]; }
      }
      if exists i :: 0 <= i < |init| && name in byFile[init[i]] {
        var i :| 0 <= i < |init| && name in byFile[init[i]];
        assert files[i] == init[i];
      }
    }
  }

  /** A name carries the records of the last file that has it. */
  lemma {:induction false} MergeLastWins(files: seq<string>, byFile: map<string, map<string, set<Requirement>>>, name: string, i: nat)
    requires forall f :: f in files ==> f in byFile
    requires i < |files| && name in byFile[files[i]]
    requires forall j :: i < j < |files| ==> name !in byFile[files[j]]
    ensures name in Merge(files, byFile) && Merge(files, byFile)[name] == byFile[files[i]][name]
  {
    var init := files[..|files| - 1];
    if i < |init| {
      assert init[i] == files[i];
      assert forall j :: i < j < |init| ==> init[j] == files[j];
      MergeLastWins(init, byFile, name, i);
    }
  }

  /** The file names after assigning each item in turn: a new name goes last. */
  function FilesAfter(files: seq<string>, items: seq<(string, string)>): seq<string> {
    if items == [] then files
    else
      var fs := FilesAfter(files, items[..|items| - 1]);
      if items[|items| - 1].0 in fs then fs else fs + [items[|items| - 1].0]
  }

  /** Each item's extraction stored under its name, in turn. */
  function AssignAll(byFile: map<string, map<string, set<Requirement>>>, extract: string -> map<string, set<Requirement>>,
                     items: seq<(string, string)>): map<string, map<string, set<Requirement>>> {
    if items == [] then byFile
    else AssignAll(byFile, extract, items[..|items| - 1])[items[|items| - 1].0 := extract(items[|items| - 1].1)]
  }

  /** Some item's content has a named package with duplicate entries. */
  predicate AnyItem(p: string -> bool, items: seq<(string, string)>) {
    items != [] && (AnyItem(p, items[..|items| - 1]) || p(items[|items| - 1].1))
  }

  /** Checking in order is finding one item. */
  lemma {:induction false} AnyItemSome(p: string -> bool, items: seq<(string, string)>)
    ensures AnyItem(p, items) <==> exists i :: 0 <= i < |items| && p(items[i].1)
  {
    if items != [] {
      var b := items[..|items| - 1];
      AnyItemSome(p, b);
      assert forall i :: 0 <= i < |b| ==> b[i] == items[i];
      if p(items[|items| - 1].1) {
        assert 0 <= |items| - 1 < |items|;
      }
    }
  }

  /** Every item's content passes the test, checked in order. */
  predicate AllItems(p: string -> bool, items: seq<(string, string)>) {
    items == [] || (AllItems(p, items[..|items| - 1]) && p(items[|items| - 1].1))
  }

  /** Checking in order is checking each item. */
  lemma {:induction false} AllItemsEach(p: string -> bool, items: seq<(string, string)>)
    ensures AllItems(p, items) <==> forall i :: 0 <= i < |items| ==> p(items[i].1)
  {
    if items != [] {
      var b := items[..|items| - 1];
      AllItemsEach(p, b);
      assert forall i :: 0 <= i < |b| ==> b[i] == items[i];
    }
  }

  /** The parse test as a function of the content. */
  function ParseTest(lib: Lib): string -> bool {
    c => Parses(lib, c)
  }

  /** `extract_reqs` as a function of the content. */
  function Extractor(lib: Lib): string -> map<string, set<Requirement>> {
    c => FileReqs(lib, c)
  }

  /** The strict duplicate test as a function of the content. */
  function DupTest(lib: Lib): string -> bool {
    c => ItemDup(lib, c)
  }

  /** The content parses and has a named package with duplicate entries. */
  predicate ItemDup(lib: Lib, content: string) {
    Parses(lib, content) && DupIn(LinesOf(lib, content))
  }

  /** The name order: old names keep their places, new ones follow, none twice. */
  lemma {:induction false} FilesAfterOrder(files: seq<string>, items: seq<(string, string)>)
    requires forall i, j :: 0 <= i < j < |files| ==> files[i] != files[j]
    ensures |files| <= |FilesAfter(files, items)| && FilesAfter(files, items)[..|files|] == files
    ensures forall i, j :: 0 <= i < j < |FilesAfter(files, items)| ==> FilesAfter(files, items)[i] != FilesAfter(files, items)[j]
    ensures forall f :: f in FilesAfter(files, items) <==> f in files || exists i :: 0 <= i < |items| && items[i].0 == f
  {
    if items != [] {
      var init := items[..|items| - 1];
      FilesAfterOrder(files, init);
      forall f | f in FilesAfter(files, items) ensures f in files || exists i :: 0 <= i < |items| && items[i].0 == f {
        if f !in files && f != items[|items| - 1].0 {
          var i :| 0 <= i < |init| && init[i].0 == f;
          assert items[i].0 == f;
        }
      }
      forall f | f !in files && (exists i :: 0 <= i < |items| && items[i].0 == f) ensures f in FilesAfter(files, items) {
        var i :| 0 <= i < |items| && items[i].0 == f;
        if i < |init| { assert init[i].0 == f; }
      }
    }
  }

  /** After the assignments the names are the old ones and those of the items. */
  lemma {:induction false} AssignAllKeys(byFile: map<string, map<string, set<Requirement>>>, extract: string -> map<string, set<Requirement>>,
                                        items: seq<(string, string)>, f: string)
    ensures f in AssignAll(byFile, extract, items) <==> f in byFile || exists i :: 0 <= i < |items| && items[i].0 == f
  {
    if items != [] {
      var init := items[..|items| - 1];
      AssignAllKeys(byFile, extract, init, f);
      if exists i :: 0 <= i < |items| && items[i].0 == f {
        var i :| 0 <= i < |items| && items[i].0 == f;
        if i < |init| { assert init[i].0 == f; }
      }
      if exists i :: 0 <= i < |init| && init[i].0 == f {
        var i :| 0 <= i < |init| && init[i].0 == f;
        assert items[i] == init[i];
      }
    }
  }

  /** A name no item mentions keeps what it had. */
  lemma {:induction false} AssignAllUntouched(byFile: map<string, map<string, set<Requirement>>>, extract: string -> map<string, set<Requirement>>,
                                             items: seq<(string, string)>, f: string)
    requires f in byFile && forall i :: 0 <= i < |items| ==> items[i].0 != f
    ensures f in AssignAll(byFile, extract, items) && AssignAll(byFile, extract, items)[f] == byFile[f]
  {
    if items != [] {
      var init := items[..|items| - 1];
      assert forall i :: 0 <= i < |init| ==> init[i] == items[i];
      AssignAllUntouched(byFile, extract, init, f);
    }
  }

  /** A name holds the records of its last item. */
  lemma {:induction false} AssignAllLastWins(byFile: map<string, map<string, set<Requirement>>>, extract: string -> map<string, set<Requirement>>,
                                            items: seq<(string, string)>, i: nat)
    requires i < |items| && forall j :: i < j < |items| ==> items[j].0 != items[i].0
    ensures items[i].0 in AssignAll(byFile, extract, items)
    ensures AssignAll(byFile, extract, items)[items[i].0] == extract(items[i].1)
  {
    var init := items[..|items| - 1];
    if i < |init| {
      assert init[i] == items[i];
      assert forall j :: i < j < |init| ==> init[j] == items[j];
      AssignAllLastWins(byFile, extract, init, i);
    }
  }

  /** Two records are equal once their comments are blanked. */
  predicate BlankRepeats(qs: seq<Requirement>) {
    exists i, j :: 0 <= i < j < |qs| && Blank(qs[i]) == Blank(qs[j])
  }

  /**
   * The strict test of `extract_reqs`: the records with comments blanked
   * have fewer distinct values than there are records.
   */
  method Duplicated(listReqs: seq<Requirement>) returns (dup: bool)
    ensures dup <==> BlankRepeats(listReqs)
  {
    var stripped := seq(|listReqs|, j requires 0 <= j < |listReqs| => listReqs[j].(comment := ""));
    DistinctCount(stripped);
    assert forall j :: 0 <= j < |listReqs| ==> stripped[j] == Blank(listReqs[j]);
    dup := |stripped| != |set x | x in stripped|;
  }

  /** The names are unique and are exactly the keys of the dictionary. */
  ghost predicate ValidFiles(files: seq<string>, byFile: map<string, map<string, set<Requirement>>>) {
    (forall i, j :: 0 <= i < j < |files| ==> files[i] != files[j])
    && (forall f :: f in byFile <==> f in files)
  }

  /** The records kept for one project: per file, then per extra of `setup.cfg`. */
  class RequirementsList {
    const name: string
    /** The items of the project's `requirements` dictionary, in its order. */
    const reqFiles: seq<(string, string)>
    /** The items of the project's `[extras]`, each extra's content. */
    const extraFiles: seq<(string, string)>
    /** The keys of `reqs_by_file`, in insertion order. */
    var files: seq<string>
    var reqsByFile: map<string, map<string, set<Requirement>>>
    var failed: bool

    ghost predicate Valid()
      reads this
    {
      ValidFiles(files, reqsByFile)
    }

    constructor(name: string, reqFiles: seq<(string, string)>, extraFiles: seq<(string, string)>)
      ensures Valid()
      ensures this.name == name && this.reqFiles == reqFiles && this.extraFiles == extraFiles
      ensures files == [] && reqsByFile == map[] && !failed
    {
      this.name := name;
      this.reqFiles := reqFiles;
      this.extraFiles := extraFiles;
      files := [];
      reqsByFile := map[];
      failed := false;
    }

    /** The items `process` reads: the requirement files, then the extras. */
    function Items(): seq<(string, string)> {
      reqFiles + extraFiles
    }

    /** The `reqs` property: all files' dictionaries merged, later files winning. */
    function Reqs(): map<string, set<Requirement>>
      reads this
      requires Valid()
    {
      Merge(files, reqsByFile)
    }

    /**
     * `extract_reqs`: the named packages of the content with their record
     * sets; under `strict`, a package with two entries equal once comments
     * are blanked sets `failed`.  Content that does not parse is an error
     * and changes nothing.
     */
    method ExtractReqs(lib: Lib, content: string, strict: bool) returns (r: Result<map<string, set<Requirement>>>)
      modifies this`failed
      ensures r.Success? <==> ParseTest(lib)(content)
      ensures r.Success? ==> r.value == Extractor(lib)(content)
      ensures r.Success? ==> failed == (old(failed) || (strict && DupTest(lib)(content)))
      ensures r.Failure? ==> failed == old(failed)
    {
      var parsed := Parse(lib, content);
      if parsed.Failure? {
        return Failure(parsed.error);
      }
      var reqs := ExtractParsed(parsed.value, strict);
      StoreExtracted(parsed.value, LinesOf(lib, content), reqs);
      StoreDup(parsed.value, LinesOf(lib, content));
      return Success(reqs);
    }

    /**
     * The body of `extract_reqs` for one named package: the set of its
     * records, and under `strict` the duplicate test.
     */
    method ExtractGroup(entries: seq<Entry>, strict: bool) returns (listSet: set<Requirement>)
      modifies this`failed
      ensures listSet == Records(entries)
      ensures failed == (old(failed) || (strict && HasDuplicates(entries)))
    {
      var listReqs := seq(|entries|, j requires 0 <= j < |entries| => entries[j].req);
      assert forall j :: 0 <= j < |entries| ==> listReqs[j] == entries[j].req;
      if strict {
        var dup := Duplicated(listReqs);
        if dup {
          failed := true;
        }
      }
      listSet := set x | x in listReqs;
    }

    /** The loop of `extract_reqs` over the parsed dictionary. */
    method ExtractParsed(store: Store, strict: bool) returns (reqs: map<string, set<Requirement>>)
      requires store.Valid()
      modifies this`failed
      ensures forall k :: k in reqs <==> k in store.order && k != ""
      ensures forall k :: k in reqs ==> k in store.groups && reqs[k] == Records(store.groups[k])
      ensures failed == (old(failed) || (strict && exists j :: 0 <= j < |store.order| && store.order[j] != "" && HasDuplicates(store.groups[store.order[j]])))
    {
      reqs := map[];
      var i := 0;
      while i < |store.order|
        invariant 0 <= i <= |store.order|
        invariant forall k :: k in reqs <==> k in store.order[..i] && k != ""
        invariant forall k :: k in reqs ==> k in store.groups && reqs[k] == Records(store.groups[k])
        invariant failed == (old(failed) || (strict && exists j :: 0 <= j < i && store.order[j] != "" && HasDuplicates(store.groups[store.order[j]])))
      {
        var k := store.order[i];
        assert store.order[..i + 1] == store.order[..i] + [k];
        if k != "" {
          var listSet := ExtractGroup(store.groups[k], strict);
          // names are unique, so `update` fills the default empty set
          reqs := reqs[k := listSet];
        }
        i := i + 1;
      }
      assert store.order[..i] == store.order;
    }

    /**
     * One item of `process`: its content is extracted and stored under its
     * name, which joins the names in order when it is new.  Content that
     * does not parse changes nothing.
     */
    method ProcessItem(lib: Lib, strict: bool, item: (string, string)) returns (ok: bool)
      requires Valid()
      modifies this
      ensures Valid()
      ensures ok <==> ParseTest(lib)(item.1)
      ensures ok ==> files == if item.0 in old(reqsByFile) then old(files) else old(files) + [item.0]
      ensures ok ==> reqsByFile == old(reqsByFile)[item.0 := Extractor(lib)(item.1)]
      ensures ok ==> failed == (old(failed) || (strict && DupTest(lib)(item.1)))
      ensures !ok ==> files == old(files) && reqsByFile == old(reqsByFile) && failed == old(failed)
    {
      var r := ExtractReqs(lib, item.1, strict);
      if r.Failure? {
        return false;
      }
      AssignValid(files, reqsByFile, item.0, r.value);
      if item.0 !in reqsByFile {
        files := files + [item.0];
      }
      reqsByFile := reqsByFile[item.0 := r.value];
      return true;
    }

    /**
     * `process`: every requirement file, then every extra, is extracted
     * into `reqs_by_file` under its name.  A missing final newline is only
     * reported, so it plays no part here.  Content that does not parse is
     * an error (`parsedAll` false) and ends the run.
     */
    method Process(lib: Lib, strict: bool) returns (parsedAll: bool)
      requires Valid()
      modifies this
      ensures Valid()
      ensures parsedAll <==> AllItems(ParseTest(lib), Items())
      ensures parsedAll ==> files == FilesAfter(old(files), Items())
      ensures parsedAll ==> reqsByFile == AssignAll(old(reqsByFile), Extractor(lib), Items())
      ensures parsedAll ==> failed == (old(failed) || (strict && AnyItem(DupTest(lib), Items())))
    {
      var items := reqFiles + extraFiles;
      var i := 0;
      while i < |items|
        invariant 0 <= i <= |items|
        invariant Valid()
        invariant AllItems(ParseTest(lib), items[..i])
        invariant files == FilesAfter(old(files), items[..i])
        invariant reqsByFile == AssignAll(old(reqsByFile), Extractor(lib), items[..i])
        invariant failed == (old(failed) || (strict && AnyItem(DupTest(lib), items[..i])))
      {
        var ok := ProcessItem(lib, strict, items[i]);
        ProcessStep(old(files), old(reqsByFile), Extractor(lib), items, i);
        AllItemsStep(ParseTest(lib), items, i);
        AnyItemStep(DupTest(lib), items, i);
        if !ok {
          AllItemsStop(ParseTest(lib), items, i);
          return false;
        }
        i := i + 1;
      }
      assert items[..i] == items;
      return true;
    }
  }

  /** One more item: its name is added if new and its records assigned. */
  lemma ProcessStep(files: seq<string>, byFile: map<string, map<string, set<Requirement>>>,
                    extract: string -> map<string, set<Requirement>>, items: seq<(string, string)>, i: nat)
    requires i < |items|
    ensures FilesAfter(files, items[..i + 1])
      == if items[i].0 in FilesAfter(files, items[..i]) then FilesAfter(files, items[..i]) else FilesAfter(files, items[..i]) + [items[i].0]
    ensures AssignAll(byFile, extract, items[..i + 1]) == AssignAll(byFile, extract, items[..i])[items[i].0 := extract(items[i].1)]
  {
    assert items[..i + 1][..i] == items[..i];
    assert items[..i + 1][i] == items[i];
  }

  /** One more item: its test counts too. */
  lemma AnyItemStep(p: string -> bool, items: seq<(string, string)>, i: nat)
    requires i < |items|
    ensures AnyItem(p, items[..i + 1]) <==> AnyItem(p, items[..i]) || p(items[i].1)
  {
    assert items[..i + 1][..i] == items[..i];
  }

  /** One more item: it must pass the test too. */
  lemma AllItemsStep(p: string -> bool, items: seq<(string, string)>, i: nat)
    requires i < |items|
    ensures AllItems(p, items[..i + 1]) <==> AllItems(p, items[..i]) && p(items[i].1)
  {
    assert items[..i + 1][..i] == items[..i];
  }

  /** An item that fails the test fails the whole check. */
  lemma AllItemsStop(p: string -> bool, items: seq<(string, string)>, i: nat)
    requires i < |items| && !p(items[i].1)
    ensures !AllItems(p, items)
  {
    AllItemsEach(p, items);
  }

  /** Assigning a name keeps the names unique and in step with the dictionary. */
  lemma AssignValid(files: seq<string>, byFile: map<string, map<string, set<Requirement>>>, f: string, v: map<string, set<Requirement>>)
    requires ValidFiles(files, byFile)
    ensures ValidFiles(if f in byFile then files else files + [f], byFile[f := v])
  {
  }

  /** All fields but the extras agree: the global list carries no extras. */
  predicate SameButExtras(q: Requirement, q2: Requirement) {
    q.package == q2.package && q.location == q2.location && q.specifiers == q2.specifiers
    && q.markers == q2.markers && q.comment == q2.comment
  }

  predicate InGlobal(q: Requirement, g: set<Requirement>) {
    exists q2 :: q2 in g && SameButExtras(q, q2)
  }

  /** `_is_requirement_in_global_reqs`: a search through the global records. */
  method IsRequirementInGlobalReqs(q: Requirement, g: set<Requirement>) returns (found: bool)
    ensures found <==> InGlobal(q, g)
  {
    var rest := g;
    while rest != {}
      invariant rest <= g
      invariant forall q2 :: q2 in g - rest ==> !SameButExtras(q, q2)
      decreases rest
    {
      var q2 :| q2 in rest;
      if q.package == q2.package && q.location == q2.location && q.specifiers == q2.specifiers
        && q.markers == q2.markers && q.comment == q2.comment {
        return true;
      }
      rest := rest - {q2};
    }
    return false;
  }

  /** The extras a record is counted under: its own, or `''` when it has none. */
  function ExtrasOf(q: Requirement): set<string> {
    if q.extras == {} then {""} else q.extras
  }

  /** How many records are counted under `x`. */
  function Count(reqs: set<Requirement>, x: string): nat {
    |set q | q in reqs && x in ExtrasOf(q)|
  }

  /** Some extra's count differs from the number of global records. */
  predicate CountMismatch(reqs: set<Requirement>, g: set<Requirement>) {
    exists q, x :: q in reqs && x in ExtrasOf(q) && Count(reqs, x) != |g|
  }

  /**
   * The verdict on one package of a file: unchanged from the branch,
   * blacklisted or equal to the global set is fine; otherwise it must be
   * global, each record must match a global one, and each extra must count
   * as many records as the global list has.
   */
  predicate Violates(name: string, reqs: set<Requirement>, branchReqs: map<string, set<Requirement>>,
                     blacklist: set<string>, global: map<string, set<Requirement>>) {
    !(name in branchReqs && reqs == branchReqs[name]) && name !in blacklist
    && (name !in global
        || (reqs != global[name]
            && ((exists q :: q in reqs && !InGlobal(q, global[name])) || CountMismatch(reqs, global[name]))))
  }

  lemma CountStep(done: set<Requirement>, q: Requirement, x: string)
    requires q !in done
    ensures Count(done + {q}, x) == Count(done, x) + (if x in ExtrasOf(q) then 1 else 0)
  {
    var a := set q' | q' in done && x in ExtrasOf(q');
    if x in ExtrasOf(q) {
      assert (set q' | q' in done + {q} && x in ExtrasOf(q')) == a + {q};
    } else {
      assert (set q' | q' in done + {q} && x in ExtrasOf(q')) == a;
    }
  }

  /** The counts of the records taken so far, one per extra each is counted under. */
  ghost predicate Tallies(counts: map<string, nat>, done: set<Requirement>) {
    (forall x :: x in counts ==> counts[x] == Count(done, x))
    && forall x :: x in counts <==> exists q :: q in done && x in ExtrasOf(q)
  }

  /** `counts.get(x, 0)`. */
  function Get(counts: map<string, nat>, x: string): nat {
    if x in counts then counts[x] else 0
  }

  /** One more count for each extra `q` is counted under. */
  method AddExtras(counts: map<string, nat>, q: Requirement) returns (counts': map<string, nat>)
    ensures forall x :: x in counts' <==> x in counts || x in ExtrasOf(q)
    ensures forall x :: x in counts' ==> counts'[x] == Get(counts, x) + (if x in ExtrasOf(q) then 1 else 0)
  {
    if q.extras == {} {
      return counts["" := Get(counts, "") + 1];
    }
    counts' := counts;
    var rest := q.extras;
    while rest != {}
      invariant rest <= q.extras
      invariant forall x :: x in counts' <==> x in counts || x in q.extras - rest
      invariant forall x :: x in counts' ==> counts'[x] == Get(counts, x) + (if x in q.extras - rest then 1 else 0)
      decreases rest
    {
      var x :| x in rest;
      counts' := counts'[x := Get(counts', x) + 1];
      rest := rest - {x};
    }
  }

  /** Taking one more record keeps the tallies. */
  lemma TalliesStep(counts: map<string, nat>, done: set<Requirement>, q: Requirement, counts': map<string, nat>)
    requires Tallies(counts, done) && q !in done
    requires forall x :: x in counts' <==> x in counts || x in ExtrasOf(q)
    requires forall x :: x in counts' ==> counts'[x] == Get(counts, x) + (if x in ExtrasOf(q) then 1 else 0)
    ensures Tallies(counts', done + {q})
  {
    forall x | x in counts'
      ensures counts'[x] == Count(done + {q}, x)
    {
      CountStep(done, q, x);
      if x !in counts {
        assert (set q' | q' in done && x in ExtrasOf(q')) == {};
      }
    }
  }

  /** The tallies of all records disagree with `n` somewhere exactly when the counts mismatch. */
  lemma TalliesMismatch(counts: map<string, nat>, reqs: set<Requirement>, g: set<Requirement>)
    requires Tallies(counts, reqs)
    ensures CountMismatch(reqs, g) <==> exists x :: x in counts && counts[x] != |g|
  {
    if CountMismatch(reqs, g) {
      var q, x :| q in reqs && x in ExtrasOf(q) && Count(reqs, x) != |g|;
      assert x in counts;
    }
  }

  /** The loop over `counts.items()`: some extra's count differs from `n`. */
  method CountOff(counts: map<string, nat>, n: nat) returns (off: bool)
    ensures off <==> exists x :: x in counts && counts[x] != n
  {
    off := false;
    var keys := counts.Keys;
    while keys != {}
      invariant keys <= counts.Keys
      invariant off <==> exists x :: x in counts.Keys - keys && counts[x] != n
      decreases keys
    {
      var x :| x in keys;
      if counts[x] != n {
        off := true;
      }
      keys := keys - {x};
    }
  }

  /**
   * The body of `validate` for one package: the skips, then the count per
   * extra and the membership of each record, then the count comparison.
   */
  method CheckName(name: string, reqs: set<Requirement>, branchReqs: map<string, set<Requirement>>,
                   blacklist: set<string>, global: map<string, set<Requirement>>) returns (bad: bool)
    ensures bad == Violates(name, reqs, branchReqs, blacklist, global)
  {
    if name in branchReqs && reqs == branchReqs[name] {
      return false;
    }
    if name in blacklist {
      return false;
    }
    if name !in global {
      return true;
    }
    if reqs == global[name] {
      return false;
    }
    var g := global[name];
    bad := false;
    var counts: map<string, nat> := map[];
    var rest := reqs;
    while rest != {}
      invariant rest <= reqs
      invariant Tallies(counts, reqs - rest)
      invariant bad <==> exists q :: q in reqs - rest && !InGlobal(q, g)
      decreases rest
    {
      var q :| q in rest;
      var counts' := AddExtras(counts, q);
      TalliesStep(counts, reqs - rest, q, counts');
      counts := counts';
      var found := IsRequirementInGlobalReqs(q, g);
      if !found {
        bad := true;
      }
      assert reqs - (rest - {q}) == (reqs - rest) + {q};
      rest := rest - {q};
    }
    assert reqs - rest == reqs;
    TalliesMismatch(counts, reqs, g);
    var off := CountOff(counts, |g|);
    if off {
      bad := true;
    }
  }

  /** Some package of the file's dictionary violates the rules. */
  predicate FileBad(freqs: map<string, set<Requirement>>, branchReqs: map<string, set<Requirement>>,
                    blacklist: set<string>, global: map<string, set<Requirement>>) {
    exists name :: name in freqs && Violates(name, freqs[name], branchReqs, blacklist, global)
  }

  /** Some package of some file violates the rules. */
  ghost predicate ValidationFails(byFile: map<string, map<string, set<Requirement>>>, branchReqs: map<string, set<Requirement>>,
                                  blacklist: set<string>, global: map<string, set<Requirement>>) {
    exists f :: f in byFile && FileBad(byFile[f], branchReqs, blacklist, global)
  }

  /** The inner loop of `validate`: every package of one file is checked. */
  method CheckFile(freqs: map<string, set<Requirement>>, branchReqs: map<string, set<Requirement>>,
                   blacklist: set<string>, global: map<string, set<Requirement>>) returns (bad: bool)
    ensures bad <==> FileBad(freqs, branchReqs, blacklist, global)
  {
    bad := false;
    var names := freqs.Keys;
    while names != {}
      invariant names <= freqs.Keys
      invariant bad <==> exists name :: name in freqs.Keys - names && Violates(name, freqs[name], branchReqs, blacklist, global)
      decreases names
    {
      var name :| name in names;
      var v := CheckName(name, freqs[name], branchReqs, blacklist, global);
      if v {
        bad := true;
      }
      assert freqs.Keys - (names - {name}) == (freqs.Keys - names) + {name};
      names := names - {name};
    }
  }

  /**
   * `validate`: every package of every file of `head` is checked, the
   * checking goes on after a violation, and the result says whether there
   * was one.
   */
  method Validate(head: RequirementsList, branch: RequirementsList, blacklist: set<string>,
                  global: map<string, set<Requirement>>) returns (failed: bool)
    requires head.Valid() && branch.Valid()
    ensures failed <==> ValidationFails(head.reqsByFile, branch.Reqs(), blacklist, global)
  {
    failed := false;
    var branchReqs := branch.Reqs();
    var i := 0;
    while i < |head.files|
      invariant 0 <= i <= |head.files|
      invariant failed <==> exists j :: 0 <= j < i && FileBad(head.reqsByFile[head.files[j]], branchReqs, blacklist, global)
    {
      var bad := CheckFile(head.reqsByFile[head.files[i]], branchReqs, blacklist, global);
      if bad {
        failed := true;
      }
      i := i + 1;
    }
    if ValidationFails(head.reqsByFile, branchReqs, blacklist, global) {
      var f :| f in head.reqsByFile && FileBad(head.reqsByFile[f], branchReqs, blacklist, global);
      var j :| 0 <= j < |head.files| && head.files[j] == f;
    }
  }

  /**
   * Records without extras are all counted under `''`: the count check
   * then asks for exactly as many records as the global list has.
   */
  lemma PlainCounts(reqs: set<Requirement>, g: set<Requirement>)
    requires reqs != {} && forall q :: q in reqs ==> q.extras == {}
    ensures CountMismatch(reqs, g) <==> |reqs| != |g|
  {
    assert (set q | q in reqs && "" in ExtrasOf(q)) == reqs;
    var q :| q in reqs;
    assert "" in ExtrasOf(q);
    assert Count(reqs, "") == |reqs|;
    forall q', x | q' in reqs && x in ExtrasOf(q')
      ensures x == ""
    {
    }
  }
}
