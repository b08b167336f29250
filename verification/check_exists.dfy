/**
 * The error-counting loop of openstack_requirements/cmds/check_exists.py:
 * every requirement of a project is looked up in the global requirements
 * and the upper constraints, and the tool exits with 1 when any lookup or
 * specifier check failed.
 */
module CheckExists {
  import opened Wrappers
  import opened Foreign
  import opened Requirement
  import Check

  /** Every key of a parsed store has at least one entry, as `parse` guarantees. */
  predicate Filled(s: Store) {
    forall k :: k in s.groups ==> s.groups[k] != []
  }

  /** A store built by grouping parsed lines has no empty group. */
  lemma ParsedFilled(store: Store, lines: seq<Line>)
    requires Grouped(store, lines)
    ensures Filled(store)
  {
    KeyOrderGroups(lines);
  }

  /** The clauses of `cs` whose version the specifier set `specs` refuses, counted. */
  function Misses(lib: Lib, specs: string, cs: seq<Clause>): nat
  {
    if cs == [] then 0
    else Misses(lib, specs, cs[..|cs| - 1]) + (if lib.contains(specs, cs[|cs| - 1].version) then 0 else 1)
  }

  /** The clauses of `cs` other than `!=` whose version the global set `gr` refuses, counted. */
  function GrMisses(lib: Lib, gr: string, cs: seq<Clause>): nat
  {
    if cs == [] then 0
    else
      var c := cs[|cs| - 1];
      GrMisses(lib, gr, cs[..|cs| - 1]) + (if c.op == "!=" || lib.contains(gr, c.version) then 0 else 1)
  }

  /** The errors one project record adds: an upper-constraint version outside it, and with `-G` one of its versions outside the global set. */
  function EntryErrors(lib: Lib, uc: Requirement, gr: Requirement, q: Requirement, grCheck: bool): nat
  {
    Misses(lib, q.specifiers, lib.clauses(uc.specifiers))
    + (if grCheck then GrMisses(lib, gr.specifiers, lib.clauses(q.specifiers)) else 0)
  }

  function EntriesErrors(lib: Lib, uc: Requirement, gr: Requirement, es: seq<Entry>, grCheck: bool): nat
  {
    if es == [] then 0
    else EntriesErrors(lib, uc, gr, es[..|es| - 1], grCheck) + EntryErrors(lib, uc, gr, es[|es| - 1].req, grCheck)
  }

  /**
   * The errors of one project name: none for the blank name or a
   * blacklisted one; one when it is missing from the global requirements,
   * else one when it is missing from the upper constraints; else the errors
   * of its records against the first upper-constraint and first global
   * record.
   */
  function NameErrors(lib: Lib, name: string, specList: seq<Entry>, upper: Store, global: Store, blacklist: Store, grCheck: bool): nat
    requires Filled(upper) && Filled(global)
  {
    if name == "" || name in blacklist.groups then 0
    else if name !in global.groups then 1
    else if name !in upper.groups then 1
    else if specList == [] then 0
    else EntriesErrors(lib, upper.groups[name][0].req, global.groups[name][0].req, specList, grCheck)
  }

  /** The errors of the names `order` of a parsed project file. */
  function FileErrors(lib: Lib, order: seq<string>, groups: map<string, seq<Entry>>, upper: Store, global: Store, blacklist: Store, grCheck: bool): nat
    requires Filled(upper) && Filled(global)
    requires forall k :: k in order ==> k in groups
  {
    if order == [] then 0
    else
      var name := order[|order| - 1];
      FileErrors(lib, order[..|order| - 1], groups, upper, global, blacklist, grCheck)
      + NameErrors(lib, name, groups[name], upper, global, blacklist, grCheck)
  }

  predicate Keyed(s: Store) {
    forall k :: k in s.order ==> k in s.groups
  }

  /** `error_count` once every project file is checked. */
  function TotalErrors(lib: Lib, files: seq<Store>, upper: Store, global: Store, blacklist: Store, grCheck: bool): nat
    requires Filled(upper) && Filled(global)
    requires forall i :: 0 <= i < |files| ==> Keyed(files[i])
  {
    if files == [] then 0
    else
      var f := files[|files| - 1];
      assert Keyed(f);
      assert forall i :: 0 <= i < |files| - 1 ==> files[..|files| - 1][i] == files[i];
      TotalErrors(lib, files[..|files| - 1], upper, global, blacklist, grCheck)
      + FileErrors(lib, f.order, f.groups, upper, global, blacklist, grCheck)
  }

  // What passing means, stated without counting.

  /** A project record passes: it admits every upper-constraint version, and with `-G` each of its versions other than `!=` ones is in the global set. */
  predicate EntryPasses(lib: Lib, uc: Requirement, gr: Requirement, q: Requirement, grCheck: bool) {
    (forall c :: c in lib.clauses(uc.specifiers) ==> lib.contains(q.specifiers, c.version))
    && (grCheck ==> forall c :: c in lib.clauses(q.specifiers) && c.op != "!=" ==> lib.contains(gr.specifiers, c.version))
  }

  /** A project name passes: blank, blacklisted, or known to both files with every record passing. */
  predicate NamePasses(lib: Lib, name: string, specList: seq<Entry>, upper: Store, global: Store, blacklist: Store, grCheck: bool)
    requires Filled(upper) && Filled(global)
  {
    name == "" || name in blacklist.groups
    || (name in global.groups && name in upper.groups
        && forall e :: e in specList ==>
             EntryPasses(lib, upper.groups[name][0].req, global.groups[name][0].req, e.req, grCheck))
  }

  lemma {:induction false} MissesZero(lib: Lib, specs: string, cs: seq<Clause>)
    ensures Misses(lib, specs, cs) == 0 <==> forall c :: c in cs ==> lib.contains(specs, c.version)
  {
    if cs != [] {
      MissesZero(lib, specs, cs[..|cs| - 1]);
      assert forall c :: c in cs <==> c in cs[..|cs| - 1] || c == cs[|cs| - 1];
    }
  }

  lemma {:induction false} GrMissesZero(lib: Lib, gr: string, cs: seq<Clause>)
    ensures GrMisses(lib, gr, cs) == 0 <==> forall c :: c in cs && c.op != "!=" ==> lib.contains(gr, c.version)
  {
    if cs != [] {
      GrMissesZero(lib, gr, cs[..|cs| - 1]);
      assert forall c :: c in cs <==> c in cs[..|cs| - 1] || c == cs[|cs| - 1];
    }
  }

  /** A record adds no error exactly when it passes. */
  lemma EntryErrorsZero(lib: Lib, uc: Requirement, gr: Requirement, q: Requirement, grCheck: bool)
    ensures EntryErrors(lib, uc, gr, q, grCheck) == 0 <==> EntryPasses(lib, uc, gr, q, grCheck)
  {
    MissesZero(lib, q.specifiers, lib.clauses(uc.specifiers));
    GrMissesZero(lib, gr.specifiers, lib.clauses(q.specifiers));
  }

  lemma {:induction false} EntriesErrorsZero(lib: Lib, uc: Requirement, gr: Requirement, es: seq<Entry>, grCheck: bool)
    ensures EntriesErrors(lib, uc, gr, es, grCheck) == 0 <==> forall e :: e in es ==> EntryPasses(lib, uc, gr, e.req, grCheck)
  {
    if es != [] {
      EntriesErrorsZero(lib, uc, gr, es[..|es| - 1], grCheck);
      EntryErrorsZero(lib, uc, gr, es[|es| - 1].req, grCheck);
      assert forall e :: e in es <==> e in es[..|es| - 1] || e == es[|es| - 1];
    }
  }

  /** A name adds no error exactly when it passes; a name that fails a lookup adds exactly one. */
  lemma NameErrorsZero(lib: Lib, name: string, specList: seq<Entry>, upper: Store, global: Store, blacklist: Store, grCheck: bool)
    requires Filled(upper) && Filled(global)
    ensures NameErrors(lib, name, specList, upper, global, blacklist, grCheck) == 0
      <==> NamePasses(lib, name, specList, upper, global, blacklist, grCheck)
    ensures name != "" && name !in blacklist.groups && (name !in global.groups || name !in upper.groups) ==>
      NameErrors(lib, name, specList, upper, global, blacklist, grCheck) == 1
  {
    if name != "" && name !in blacklist.groups && name in global.groups && name in upper.groups {
      EntriesErrorsZero(lib, upper.groups[name][0].req, global.groups[name][0].req, specList, grCheck);
    }
  }

  lemma {:induction false} FileErrorsZero(lib: Lib, order: seq<string>, groups: map<string, seq<Entry>>, upper: Store, global: Store, blacklist: Store, grCheck: bool)
    requires Filled(upper) && Filled(global)
    requires forall k :: k in order ==> k in groups
    ensures FileErrors(lib, order, groups, upper, global, blacklist, grCheck) == 0
      <==> forall k :: k in order ==> NamePasses(lib, k, groups[k], upper, global, blacklist, grCheck)
  {
    if order != [] {
      var name := order[|order| - 1];
      FileErrorsZero(lib, order[..|order| - 1], groups, upper, global, blacklist, grCheck);
      NameErrorsZero(lib, name, groups[name], upper, global, blacklist, grCheck);
      assert forall k :: k in order <==> k in order[..|order| - 1] || k == name;
    }
  }

  /** Every project name of a file passes. */
  predicate FilePasses(lib: Lib, f: Store, upper: Store, global: Store, blacklist: Store, grCheck: bool)
    requires Filled(upper) && Filled(global) && Keyed(f)
  {
    forall k :: k in f.order ==> NamePasses(lib, k, f.groups[k], upper, global, blacklist, grCheck)
  }

  /** Every project name of every file passes. */
  predicate AllPass(lib: Lib, files: seq<Store>, upper: Store, global: Store, blacklist: Store, grCheck: bool)
    requires Filled(upper) && Filled(global)
    requires forall i :: 0 <= i < |files| ==> Keyed(files[i])
  {
    forall i :: 0 <= i < |files| ==> FilePasses(lib, files[i], upper, global, blacklist, grCheck)
  }

  /** No error is counted exactly when every name of every file passes. */
  lemma {:induction false} TotalErrorsZero(lib: Lib, files: seq<Store>, upper: Store, global: Store, blacklist: Store, grCheck: bool)
    requires Filled(upper) && Filled(global)
    requires forall i :: 0 <= i < |files| ==> Keyed(files[i])
    ensures TotalErrors(lib, files, upper, global, blacklist, grCheck) == 0 <==> AllPass(lib, files, upper, global, blacklist, grCheck)
  {
    if files != [] {
      var n := |files| - 1;
      var init := files[..n];
      TotalErrorsZero(lib, init, upper, global, blacklist, grCheck);
      assert Keyed(files[n]);
      FileErrorsZero(lib, files[n].order, files[n].groups, upper, global, blacklist, grCheck);
      assert forall i :: 0 <= i < n ==> init[i] == files[i];
    }
  }

  /**
   * Blank and blacklisted names are never counted: adding such names to a
   * project file leaves its error count unchanged.
   */
  lemma {:induction false} IgnoredNames(lib: Lib, order: seq<string>, extra: seq<string>, groups: map<string, seq<Entry>>, upper: Store, global: Store, blacklist: Store, grCheck: bool)
    requires Filled(upper) && Filled(global)
    requires forall k :: k in order + extra ==> k in groups
    requires forall k :: k in extra ==> k == "" || k in blacklist.groups
    ensures FileErrors(lib, order + extra, groups, upper, global, blacklist, grCheck)
      == FileErrors(lib, order, groups, upper, global, blacklist, grCheck)
  {
    if extra != [] {
      var init := extra[..|extra| - 1];
      assert (order + extra)[..|order + extra| - 1] == order + init;
      IgnoredNames(lib, order, init, groups, upper, global, blacklist, grCheck);
    } else {
      assert order + extra == order;
    }
  }

  // The loops of `main`.

  /** One error for each upper-constraints version the project's specifiers do not admit. */
  method CountMisses(lib: Lib, specs: string, cs: seq<Clause>) returns (n: nat)
    ensures n == Misses(lib, specs, cs)
  {
    n := 0;
    for i := 0 to |cs|
      invariant n == Misses(lib, specs, cs[..i])
    {
      assert cs[..i + 1][..i] == cs[..i];
      if !lib.contains(specs, cs[i].version) {
        n := n + 1;
      }
    }
    assert cs[..|cs|] == cs;
  }

  /** One error for each project version, `!=` clauses aside, the global specifiers do not admit. */
  method CountGrMisses(lib: Lib, gr: string, cs: seq<Clause>) returns (n: nat)
    ensures n == GrMisses(lib, gr, cs)
  {
    n := 0;
    for i := 0 to |cs|
      invariant n == GrMisses(lib, gr, cs[..i])
    {
      assert cs[..i + 1][..i] == cs[..i];
      if cs[i].op != "!=" && !lib.contains(gr, cs[i].version) {
        n := n + 1;
      }
    }
    assert cs[..|cs|] == cs;
  }

  /** The errors of the records of one name. */
  method CountEntries(lib: Lib, uc: Requirement, gr: Requirement, es: seq<Entry>, grCheck: bool) returns (n: nat)
    ensures n == EntriesErrors(lib, uc, gr, es, grCheck)
  {
    n := 0;
    for i := 0 to |es|
      invariant n == EntriesErrors(lib, uc, gr, es[..i], grCheck)
    {
      assert es[..i + 1][..i] == es[..i];
      var q := es[i].req;
      var m := CountMisses(lib, q.specifiers, lib.clauses(uc.specifiers));
      n := n + m;
      if grCheck {
        m := CountGrMisses(lib, gr.specifiers, lib.clauses(q.specifiers));
        n := n + m;
      }
    }
    assert es[..|es|] == es;
  }

  /** The errors of one project file, name by name. */
  method CountFile(lib: Lib, file: Store, upper: Store, global: Store, blacklist: Store, grCheck: bool) returns (n: nat)
    requires Filled(upper) && Filled(global) && Keyed(file)
    ensures n == FileErrors(lib, file.order, file.groups, upper, global, blacklist, grCheck)
  {
    n := 0;
    for j := 0 to |file.order|
      invariant n == FileErrors(lib, file.order[..j], file.groups, upper, global, blacklist, grCheck)
    {
      assert file.order[..j + 1][..j] == file.order[..j];
      var name := file.order[j];
      var specList := file.groups[name];
      if name == "" || name in blacklist.groups {
        continue;
      }
      if name !in global.groups {
        n := n + 1;
        continue;
      }
      if name !in upper.groups {
        n := n + 1;
        continue;
      } else if specList != [] {
        var m := CountEntries(lib, upper.groups[name][0].req, global.groups[name][0].req, specList, grCheck);
        n := n + m;
      }
    }
    assert file.order[..|file.order|] == file.order;
  }

  /** Every store of the list has each of its names as a key. */
  predicate AllKeyed(files: seq<Store>) {
    forall i :: 0 <= i < |files| ==> Keyed(files[i])
  }

  /** `files` are what `requirement.parse` builds from the project files' texts, one store per file. */
  ghost predicate ReadAll(lib: Lib, items: seq<(string, string)>, files: seq<Store>) {
    |files| == |items|
    && forall i :: 0 <= i < |items| ==>
         Check.Parses(lib, items[i].1) && Grouped(files[i], Check.LinesOf(lib, items[i].1))
  }

  /** Grouping determines the store: two stores grouping the same lines are equal. */
  lemma GroupedUnique(a: Store, b: Store, lines: seq<Line>)
    requires Grouped(a, lines) && Grouped(b, lines)
    ensures a == b
  {
  }

  /** So the stores read from the same texts are the same stores. */
  lemma ReadAllUnique(lib: Lib, items: seq<(string, string)>, a: seq<Store>, b: seq<Store>)
    requires ReadAll(lib, items, a) && ReadAll(lib, items, b)
    ensures a == b
  {
    forall i | 0 <= i < |items|
      ensures a[i] == b[i]
    {
      GroupedUnique(a[i], b[i], Check.LinesOf(lib, items[i].1));
    }
  }

  /** One more file read. */
  lemma ReadAllSnoc(lib: Lib, items: seq<(string, string)>, files: seq<Store>, i: nat, f: Store)
    requires i < |items| && ReadAll(lib, items[..i], files)
    requires Check.Parses(lib, items[i].1) && Grouped(f, Check.LinesOf(lib, items[i].1))
    ensures ReadAll(lib, items[..i + 1], files + [f])
  {
  }

  /**
   * `main` after reading the global requirements, the upper constraints
   * and the blacklist: each project requirements file, in dictionary
   * order, is parsed with `requirement.parse` and its names counted.  A
   * file that does not parse raises, so the run fails; otherwise the exit
   * status is 1 when any error was counted and 0 otherwise, that is 0
   * exactly when every name of every file passes.
   */
  method CheckExists(lib: Lib, items: seq<(string, string)>, upper: Store, global: Store, blacklist: Store, grCheck: bool)
    returns (r: Result<int>)
    requires Filled(upper) && Filled(global)
    ensures r.Success? <==> Check.AllItems(Check.ParseTest(lib), items)
    ensures r.Success? ==> exists files ::
      && ReadAll(lib, items, files) && AllKeyed(files)
      && r.value == (if TotalErrors(lib, files, upper, global, blacklist, grCheck) > 0 then 1 else 0)
      && (r.value == 0 <==> AllPass(lib, files, upper, global, blacklist, grCheck))
  {
    var errorCount := 0;
    ghost var files: seq<Store> := [];
    for i := 0 to |items|
      invariant Check.AllItems(Check.ParseTest(lib), items[..i])
      invariant ReadAll(lib, items[..i], files) && AllKeyed(files)
      invariant errorCount == TotalErrors(lib, files, upper, global, blacklist, grCheck)
    {
      Check.AllItemsStep(Check.ParseTest(lib), items, i);
      var parsed := Parse(lib, items[i].1);
      if parsed.Failure? {
        Check.AllItemsStop(Check.ParseTest(lib), items, i);
        return Failure(parsed.error);
      }
      var file := parsed.value;
      ReadAllSnoc(lib, items, files, i, file);
      var n := CountFile(lib, file, upper, global, blacklist, grCheck);
      assert (files + [file])[..|files|] == files;
      files := files + [file];
      errorCount := errorCount + n;
    }
    assert items[..|items|] == items;
    TotalErrorsZero(lib, files, upper, global, blacklist, grCheck);
    return Success(if errorCount > 0 then 1 else 0);
  }
}
