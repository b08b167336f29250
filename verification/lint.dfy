/**
 * The section-aware sorter of tools/lint.py: global-requirements.txt is
 * split into sections at `## section:` lines, the dependency lines of each
 * section are sorted case-insensitively with the `#` comment lines above
 * them, and the file is written back section by section.
 */
module Lint {
  import opened Wrappers
  import opened Text
  import opened Sorting

  /** A dependency line with the comment lines gathered above it (`None` for no comment). */
  datatype Dep = Dep(line: string, comment: Option<string>)

  /**
   * The variables of `sort()` while the file is read: the headers of the
   * sections, the sections already stored (`order` is the insertion order
   * of `section_deps`), the current section, its dependencies so far and
   * the comment lines waiting for the next dependency.
   */
  datatype Lint = Lint(
    headers: map<string, string>,
    order: seq<string>,
    sectionDeps: map<string, seq<Dep>>,
    section: string,
    deps: seq<Dep>,
    comment: string)

  const SectionPrefix: string := "## section:"

  const Start: Lint := Lint(map[], [], map[], "", [], "")

  /** The sort key: the line, lower-cased. */
  function DepKey(d: Dep): string {
    Lower(d.line)
  }

  /** Dependencies sorted stably by their lower-cased names. */
  function SortDeps(deps: seq<Dep>): seq<Dep> {
    SortBy(deps, DepKey, Below)
  }

  /** A section's sorted dependencies stored under its name: a new key goes last, an existing one keeps its place. */
  function Stored(st: Lint): Lint {
    st.(order := if st.section in st.sectionDeps then st.order else st.order + [st.section],
        sectionDeps := st.sectionDeps[st.section := SortDeps(st.deps)])
  }

  /** `not line.strip()`: the line is all whitespace. */
  predicate Blank(line: string) {
    AllSpace(line)
  }

  /** A line that is neither blank nor a `#` line: a dependency. */
  predicate IsDep(line: string) {
    !Blank(line) && !StartsWith(line, "#")
  }

  /** One iteration of the reading loop; fails where `section_headers[section]` has no entry. */
  function Step(st: Lint, line: string): Result<Lint>
  {
    if Blank(line) then Success(st)
    else if StartsWith(line, SectionPrefix) then Success(OpenSection(st, line))
    else if StartsWith(line, "##") then
      if st.section in st.headers then Success(st.(headers := st.headers[st.section := st.headers[st.section] + line]))
      else Failure("KeyError: " + st.section)
    else if StartsWith(line, "#") then Success(st.(comment := st.comment + line))
    else Success(st.(deps := st.deps + [Dep(line, if st.comment != "" then Some(st.comment) else None)], comment := ""))
  }

  /** A `## section:` line: the current section, if any, is stored and a new one begins with this line as its header. */
  function OpenSection(st: Lint, line: string): Lint
    requires StartsWith(line, SectionPrefix)
  {
    var flushed := if st.section != "" then Stored(st).(deps := []) else st;
    var name := line[|SectionPrefix|..];
    flushed.(section := name, headers := flushed.headers[name := line])
  }

  /** The reading loop over `lines`. */
  function Read(lines: seq<string>): Result<Lint>
  {
    if lines == [] then Success(Start)
    else
      match Read(lines[..|lines| - 1])
      case Failure(e) => Failure(e)
      case Success(st) => Step(st, lines[|lines| - 1])
  }

  /** A dependency as written: its comment, then its line. */
  function DepText(d: Dep): string {
    (if d.comment.Some? then d.comment.value else "") + d.line
  }

  function DepsText(ds: seq<Dep>): string {
    if ds == [] then "" else DepsText(ds[..|ds| - 1]) + DepText(ds[|ds| - 1])
  }

  /** The writing loop over the sections `order`: a blank line between sections, each header, a line break, then its dependencies. */
  function Written(headers: map<string, string>, sectionDeps: map<string, seq<Dep>>, order: seq<string>): Result<string>
    requires forall s :: s in order ==> s in sectionDeps
  {
    if order == [] then Success("")
    else
      var s := order[|order| - 1];
      match Written(headers, sectionDeps, order[..|order| - 1])
      case Failure(e) => Failure(e)
      case Success(prev) =>
        if s !in headers then Failure("KeyError: " + s)
        else Success(prev + (if |order| > 1 then "\n" else "") + headers[s] + "\n" + DepsText(sectionDeps[s]))
  }

  /** The stored sections and their keys agree. */
  ghost predicate Consistent(st: Lint) {
    forall s :: s in st.sectionDeps <==> s in st.order
  }

  /** `sort()` on the lines of the file: the text written back, or the error. */
  ghost function Sorted(lines: seq<string>): Result<string>
  {
    match Read(lines)
    case Failure(e) => Failure(e)
    case Success(st) =>
      var fin := Stored(st);
      ReadConsistent(lines);
      Written(fin.headers, fin.sectionDeps, fin.order)
  }

  // Properties of the reading loop.

  lemma {:induction false} ReadConsistent(lines: seq<string>)
    requires Read(lines).Success?
    ensures Consistent(Read(lines).value)
    ensures SectionsSorted(Read(lines).value)
  {
    if lines != [] {
      var init := lines[..|lines| - 1];
      ReadConsistent(init);
      StepKeeps(Read(init).value, lines[|lines| - 1]);
    }
  }

  /** Every stored section is sorted by lower-cased line. */
  ghost predicate SectionsSorted(st: Lint) {
    forall s :: s in st.sectionDeps ==> SortedBy(st.sectionDeps[s], DepKey, Below)
  }

  lemma StepKeeps(st: Lint, line: string)
    requires Consistent(st) && SectionsSorted(st) && Step(st, line).Success?
    ensures Consistent(Step(st, line).value) && SectionsSorted(Step(st, line).value)
  {
    if !Blank(line) && StartsWith(line, SectionPrefix) && st.section != "" {
      StoredKeeps(st);
    }
  }

  lemma StoredKeeps(st: Lint)
    requires Consistent(st) && SectionsSorted(st)
    ensures Consistent(Stored(st)) && SectionsSorted(Stored(st))
  {
    StringOrder();
    SortBySorted(st.deps, DepKey, Below);
  }

  /**
   * Every stored section, the last one included, holds its dependencies
   * sorted by lower-cased line, as a permutation that keeps the order of
   * lines with equal keys: what `sorted` with a key promises.
   */
  lemma StoredSorted(lines: seq<string>)
    requires Read(lines).Success?
    ensures Consistent(Stored(Read(lines).value))
    ensures SectionsSorted(Stored(Read(lines).value))
    ensures Stored(Read(lines).value).sectionDeps[Read(lines).value.section] == SortDeps(Read(lines).value.deps)
    ensures multiset(SortDeps(Read(lines).value.deps)) == multiset(Read(lines).value.deps)
    ensures forall k :: Having(SortDeps(Read(lines).value.deps), DepKey, k) == Having(Read(lines).value.deps, DepKey, k)
  {
    ReadConsistent(lines);
    StoredKeeps(Read(lines).value);
    SortDepsStable(Read(lines).value.deps);
  }

  lemma SortDepsStable(deps: seq<Dep>)
    ensures forall k :: Having(SortDeps(deps), DepKey, k) == Having(deps, DepKey, k)
  {
    StringOrder();
    forall k
      ensures Having(SortDeps(deps), DepKey, k) == Having(deps, DepKey, k)
    {
      SortByStable(deps, DepKey, Below, k);
    }
  }

  /** Blank lines are skipped: dropping them leaves the reading unchanged. */
  function NonBlank(lines: seq<string>): (r: seq<string>)
    ensures forall i :: 0 <= i < |r| ==> !Blank(r[i])
  {
    if lines == [] then []
    else NonBlank(lines[..|lines| - 1]) + (if Blank(lines[|lines| - 1]) then [] else [lines[|lines| - 1]])
  }

  lemma ReadSnoc(lines: seq<string>, line: string)
    ensures Read(lines + [line]) == if Read(lines).Failure? then Read(lines) else Step(Read(lines).value, line)
  {
    assert (lines + [line])[..|lines|] == lines;
  }

  lemma StepBlank(st: Lint, line: string)
    requires Blank(line)
    ensures Step(st, line) == Success(st)
  {
  }

  lemma {:induction false} ReadNonBlank(lines: seq<string>)
    ensures Read(NonBlank(lines)) == Read(lines)
  {
    if lines != [] {
      var init := lines[..|lines| - 1];
      ReadNonBlank(init);
      var last := lines[|lines| - 1];
      assert lines == init + [last];
      ReadSnoc(init, last);
      if !Blank(last) {
        assert NonBlank(lines) == NonBlank(init) + [last];
        ReadSnoc(NonBlank(init), last);
      } else {
        assert NonBlank(lines) == NonBlank(init);
        if Read(init).Success? {
          StepBlank(Read(init).value, last);
        }
      }
    }
  }

  /** The comment waiting after `lines`: the `#` lines (not `##`) after the last dependency line, blank and `##` lines passed over. */
  function Pending(lines: seq<string>): string
  {
    if lines == [] then ""
    else
      var l := lines[|lines| - 1];
      if Blank(l) || StartsWith(l, "##") then Pending(lines[..|lines| - 1])
      else if StartsWith(l, "#") then Pending(lines[..|lines| - 1]) + l
      else ""
  }

  lemma {:induction false} ReadPending(lines: seq<string>)
    requires Read(lines).Success?
    ensures Read(lines).value.comment == Pending(lines)
  {
    if lines != [] {
      var init := lines[..|lines| - 1];
      ReadPending(init);
      StepComment(Read(init).value, lines[|lines| - 1]);
    }
  }

  lemma StepComment(st: Lint, line: string)
    requires Step(st, line).Success?
    ensures Step(st, line).value.comment ==
      if Blank(line) || StartsWith(line, "##") then st.comment
      else if StartsWith(line, "#") then st.comment + line
      else ""
  {
    if !Blank(line) && StartsWith(line, "##") && !StartsWith(line, SectionPrefix) {
      assert Step(st, line).value.comment == st.comment;
    }
  }

  /**
   * A dependency line takes as its comment exactly the `#` lines gathered
   * since the previous dependency, and clears it; a section header in
   * between does not clear it.
   */
  lemma DepTakesComment(lines: seq<string>, line: string)
    requires Read(lines).Success? && IsDep(line)
    ensures Read(lines + [line]).Success?
    ensures Read(lines + [line]).value.deps ==
      Read(lines).value.deps + [Dep(line, if Pending(lines) != "" then Some(Pending(lines)) else None)]
    ensures Pending(lines + [line]) == ""
  {
    ReadSnoc(lines, line);
    ReadPending(lines);
    PendingSnoc(lines, line);
  }

  lemma PendingSnoc(lines: seq<string>, line: string)
    ensures Pending(lines + [line]) ==
      if Blank(line) || StartsWith(line, "##") then Pending(lines)
      else if StartsWith(line, "#") then Pending(lines) + line
      else ""
  {
    assert (lines + [line])[..|lines|] == lines;
  }

  /** Before any section header the current section is blank and no header is known. */
  lemma {:induction false} ReadNoSection(lines: seq<string>, n: nat)
    requires n <= |lines|
    requires forall j :: 0 <= j < n ==> !StartsWith(lines[j], SectionPrefix)
    requires Read(lines[..n]).Success?
    ensures Read(lines[..n]).value.section == "" && Read(lines[..n]).value.headers == map[]
  {
    if n == 0 {
      assert lines[..n] == [];
    } else {
      ReadPrefixSnoc(lines, n - 1);
      ReadNoSection(lines, n - 1);
    }
  }

  lemma {:induction false} ReadStops(lines: seq<string>, i: nat)
    requires i <= |lines| && Read(lines[..i]).Failure?
    ensures Read(lines) == Read(lines[..i])
    decreases |lines| - i
  {
    if i < |lines| {
      assert lines[..i + 1][..i] == lines[..i];
      ReadStops(lines, i + 1);
    } else {
      assert lines[..i] == lines;
    }
  }

  /** A `##` line before any `## section:` line fails: the blank section has no header to extend. */
  lemma HeaderBeforeSection(lines: seq<string>, i: nat)
    requires i < |lines| && !Blank(lines[i]) && StartsWith(lines[i], "##") && !StartsWith(lines[i], SectionPrefix)
    requires forall j :: 0 <= j < i ==> !StartsWith(lines[j], SectionPrefix)
    ensures Read(lines).Failure?
  {
    ReadPrefixSnoc(lines, i);
    if Read(lines[..i]).Success? {
      ReadNoSection(lines, i);
      StepMissingHeader(Read(lines[..i]).value, lines[i]);
    }
    ReadStops(lines, i + 1);
  }

  lemma ReadPrefixSnoc(lines: seq<string>, i: nat)
    requires i < |lines|
    ensures Read(lines[..i + 1]) == if Read(lines[..i]).Failure? then Read(lines[..i]) else Step(Read(lines[..i]).value, lines[i])
  {
    assert lines[..i + 1][..i] == lines[..i];
  }

  lemma StepMissingHeader(st: Lint, line: string)
    requires st.section == "" && st.headers == map[]
    requires !Blank(line) && StartsWith(line, "##") && !StartsWith(line, SectionPrefix)
    ensures Step(st, line).Failure?
  {
  }

  // The loops of `sort()`.

  /** The reading loop. */
  method ReadLines(lines: seq<string>) returns (r: Result<Lint>)
    ensures r == Read(lines)
  {
    var st := Start;
    for i := 0 to |lines|
      invariant Read(lines[..i]) == Success(st)
    {
      assert lines[..i + 1][..i] == lines[..i];
      var line := lines[i];
      StripEmpty(line);
      if Strip(line) == "" {
        continue;
      }
      if StartsWith(line, SectionPrefix) {
        if st.section != "" {
          st := Stored(st);
          st := st.(deps := []);
        }
        var section := line[|SectionPrefix|..];
        st := st.(section := section, headers := st.headers[section := line]);
        continue;
      }
      if StartsWith(line, "##") {
        if st.section !in st.headers {
          ReadStops(lines, i + 1);
          return Failure("KeyError: " + st.section);
        }
        st := st.(headers := st.headers[st.section := st.headers[st.section] + line]);
        continue;
      }
      if StartsWith(line, "#") {
        st := st.(comment := st.comment + line);
        continue;
      }
      st := st.(deps := st.deps + [Dep(line, if st.comment != "" then Some(st.comment) else None)]);
      st := st.(comment := "");
    }
    assert lines[..|lines|] == lines;
    return Success(st);
  }

  /** The writing loop. */
  method WriteSections(headers: map<string, string>, sectionDeps: map<string, seq<Dep>>, order: seq<string>) returns (r: Result<string>)
    requires forall s :: s in order ==> s in sectionDeps
    ensures r == Written(headers, sectionDeps, order)
  {
    var out := "";
    for i := 0 to |order|
      invariant Written(headers, sectionDeps, order[..i]) == Success(out)
    {
      WrittenSnoc(headers, sectionDeps, order, i);
      var section := order[i];
      ghost var prev := out;
      if i != 0 {
        out := out + "\n";
      }
      assert out == prev + (if i > 0 then "\n" else "");
      if section !in headers {
        WrittenStops(headers, sectionDeps, order, i + 1);
        return Failure("KeyError: " + section);
      }
      out := out + headers[section] + "\n";
      out := WriteDeps(out, sectionDeps[section]);
    }
    assert order[..|order|] == order;
    return Success(out);
  }

  /** The dependencies of one section written after `out`, each comment before its line. */
  method WriteDeps(out: string, ds: seq<Dep>) returns (r: string)
    ensures r == out + DepsText(ds)
  {
    r := out;
    for j := 0 to |ds|
      invariant r == out + DepsText(ds[..j])
    {
      assert ds[..j + 1][..j] == ds[..j];
      r := r + DepText(ds[j]);
    }
    assert ds[..|ds|] == ds;
  }

  lemma WrittenSnoc(headers: map<string, string>, sectionDeps: map<string, seq<Dep>>, order: seq<string>, i: nat)
    requires i < |order| && (forall s :: s in order ==> s in sectionDeps)
    ensures Written(headers, sectionDeps, order[..i + 1]) ==
      match Written(headers, sectionDeps, order[..i])
      case Failure(e) => Failure(e)
      case Success(prev) =>
        if order[i] !in headers then Failure("KeyError: " + order[i])
        else Success(prev + (if i > 0 then "\n" else "") + headers[order[i]] + "\n" + DepsText(sectionDeps[order[i]]))
  {
    assert order[..i + 1][..i] == order[..i];
  }

  lemma {:induction false} WrittenStops(headers: map<string, string>, sectionDeps: map<string, seq<Dep>>, order: seq<string>, i: nat)
    requires i <= |order| && (forall s :: s in order ==> s in sectionDeps)
    requires Written(headers, sectionDeps, order[..i]).Failure?
    ensures Written(headers, sectionDeps, order) == Written(headers, sectionDeps, order[..i])
    decreases |order| - i
  {
    if i < |order| {
      assert order[..i + 1][..i] == order[..i];
      WrittenStops(headers, sectionDeps, order, i + 1);
    } else {
      assert order[..i] == order;
    }
  }

  /** `sort()` with the file's lines read and its new content returned. */
  method Sort(lines: seq<string>) returns (r: Result<string>)
    ensures r == Sorted(lines)
  {
    var read := ReadLines(lines);
    if read.Failure? {
      return Failure(read.error);
    }
    var st := Stored(read.value);
    ReadConsistent(lines);
    r := WriteSections(st.headers, st.sectionDeps, st.order);
  }

  // What the writing loop writes, stated against its input.

  /** `t` occurs in `s` as a contiguous piece. */
  ghost predicate Occurs(t: string, s: string) {
    exists a, b :: s == a + t + b
  }

  lemma OccursAppend(t: string, s: string, x: string)
    requires Occurs(t, s)
    ensures Occurs(t, s + x) && Occurs(t, x + s)
  {
    var a, b :| s == a + t + b;
    assert s + x == a + t + (b + x);
    assert x + s == (x + a) + t + b;
  }

  /** Every dependency line, and its comment, is written out. */
  lemma {:induction false} DepsTextHolds(ds: seq<Dep>, k: nat)
    requires k < |ds|
    ensures Occurs(ds[k].line, DepsText(ds))
    ensures ds[k].comment.Some? ==> Occurs(ds[k].comment.value, DepsText(ds))
  {
    var init := ds[..|ds| - 1];
    var d := ds[|ds| - 1];
    var c := if d.comment.Some? then d.comment.value else "";
    if k == |ds| - 1 {
      assert DepsText(ds) == (DepsText(init) + c) + d.line + "";
      assert d.comment.Some? ==> DepsText(ds) == DepsText(init) + c + d.line;
    } else {
      assert ds[k] == init[k];
      DepsTextHolds(init, k);
      OccursAppend(ds[k].line, DepsText(init), DepText(d));
      if ds[k].comment.Some? {
        OccursAppend(ds[k].comment.value, DepsText(init), DepText(d));
      }
    }
  }

  /** Writing succeeds exactly when every section to write has a header. */
  lemma {:induction false} WrittenSucceeds(headers: map<string, string>, sectionDeps: map<string, seq<Dep>>, order: seq<string>)
    requires forall s :: s in order ==> s in sectionDeps
    ensures Written(headers, sectionDeps, order).Success? <==> forall s :: s in order ==> s in headers
  {
    if order != [] {
      var init := order[..|order| - 1];
      assert forall s :: s in order <==> s in init || s == order[|order| - 1];
      WrittenSucceeds(headers, sectionDeps, init);
    }
  }

  /**
   * Nothing stored is lost: the written text holds the header of every
   * section to write and every line of that section's dependencies.
   */
  lemma {:induction false} WrittenHolds(headers: map<string, string>, sectionDeps: map<string, seq<Dep>>, order: seq<string>, i: nat, k: nat)
    requires forall s :: s in order ==> s in sectionDeps
    requires Written(headers, sectionDeps, order).Success?
    requires i < |order| && k < |sectionDeps[order[i]]|
    ensures order[i] in headers && Occurs(headers[order[i]], Written(headers, sectionDeps, order).value)
    ensures Occurs(sectionDeps[order[i]][k].line, Written(headers, sectionDeps, order).value)
  {
    var init := order[..|order| - 1];
    var s := order[|order| - 1];
    var prev := Written(headers, sectionDeps, init).value;
    var out := Written(headers, sectionDeps, order).value;
    var sep := if |order| > 1 then "\n" else "";
    assert out == prev + sep + headers[s] + "\n" + DepsText(sectionDeps[s]);
    if i == |order| - 1 {
      assert out == (prev + sep) + headers[s] + ("\n" + DepsText(sectionDeps[s]));
      DepsTextHolds(sectionDeps[s], k);
      OccursAppend(sectionDeps[s][k].line, DepsText(sectionDeps[s]), prev + sep + headers[s] + "\n");
    } else {
      assert order[i] == init[i];
      WrittenHolds(headers, sectionDeps, init, i, k);
      OccursAppend(headers[order[i]], prev, sep + headers[s] + "\n" + DepsText(sectionDeps[s]));
      OccursAppend(sectionDeps[order[i]][k].line, prev, sep + headers[s] + "\n" + DepsText(sectionDeps[s]));
      assert out == prev + (sep + headers[s] + "\n" + DepsText(sectionDeps[s]));
    }
  }
}
