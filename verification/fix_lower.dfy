/**
 * The alignment loop of tools/fix-lower-constraints.py: every pin of a
 * project's lower-constraints.txt is compared with the lower bounds the
 * project's requirements declare for that package, a pin that disagrees
 * is rewritten to `package==bound`, and the result is printed sorted
 * case-insensitively.
 */
module FixLower {
  import opened Text
  import opened Requirement
  import opened Sorting

  /**
   * `dict.update`: the entries of `b` replace those of `a` key by key; keys
   * already in `a` keep their place, new keys of `b` follow in `b`'s order.
   */
  function Update(a: Store, b: Store): (r: Store)
    ensures forall k :: k in r.groups <==> k in a.groups || k in b.groups
    ensures forall k :: k in b.groups ==> r.groups[k] == b.groups[k]
    ensures forall k :: k in a.groups && k !in b.groups ==> r.groups[k] == a.groups[k]
  {
    Store(a.order + NewKeys(a, b.order), a.groups + b.groups)
  }

  /** The keys of `ks` not yet in `a`, in order. */
  function NewKeys(a: Store, ks: seq<string>): (r: seq<string>)
    ensures forall k :: k in r <==> k in ks && k !in a.order
  {
    if ks == [] then []
    else NewKeys(a, ks[..|ks| - 1]) + (if ks[|ks| - 1] in a.order then [] else [ks[|ks| - 1]])
  }

  /** The union of two well-formed dictionaries is well-formed. */
  lemma UpdateValid(a: Store, b: Store)
    requires a.Valid() && b.Valid()
    ensures Update(a, b).Valid()
  {
    NewKeysDistinct(a, b.order);
    var r := Update(a, b);
    forall i, j | 0 <= i < j < |r.order|
      ensures r.order[i] != r.order[j]
    {
      if j >= |a.order| && i < |a.order| {
        assert r.order[j] in NewKeys(a, b.order);
      }
    }
  }

  lemma {:induction false} NewKeysDistinct(a: Store, ks: seq<string>)
    requires forall i, j :: 0 <= i < j < |ks| ==> ks[i] != ks[j]
    ensures forall i, j :: 0 <= i < j < |NewKeys(a, ks)| ==> NewKeys(a, ks)[i] != NewKeys(a, ks)[j]
  {
    if ks != [] {
      var init := ks[..|ks| - 1];
      NewKeysDistinct(a, init);
      assert ks[|ks| - 1] !in init;
    }
  }

  /** The clauses of a specifier list that contain `>`: its lower bounds, in order. */
  function LowerBounds(clauses: seq<string>): (r: seq<string>)
    ensures forall x :: x in r <==> x in clauses && '>' in x
  {
    if clauses == [] then []
    else
      var last := clauses[|clauses| - 1];
      LowerBounds(clauses[..|clauses| - 1]) + (if '>' in last then [last] else [])
  }

  /** The first lower bound is the first clause that contains `>`. */
  lemma {:induction false} LowerBoundsFirst(clauses: seq<string>)
    ensures LowerBounds(clauses) == [] <==> forall i :: 0 <= i < |clauses| ==> '>' !in clauses[i]
    ensures LowerBounds(clauses) != [] ==>
      exists i :: 0 <= i < |clauses| && clauses[i] == LowerBounds(clauses)[0] && forall j :: 0 <= j < i ==> '>' !in clauses[j]
  {
    if clauses != [] {
      var init := clauses[..|clauses| - 1];
      LowerBoundsFirst(init);
      assert forall i :: 0 <= i < |init| ==> init[i] == clauses[i];
      if LowerBounds(init) == [] && '>' in clauses[|clauses| - 1] {
        assert clauses[|clauses| - 1] == LowerBounds(clauses)[0];
      }
    }
  }

  /** The lower bounds of a requirement's specifiers. */
  function Minima(q: Requirement): seq<string> {
    LowerBounds(Clauses(q))
  }

  /** `req.specifiers.split(',')`. */
  function Clauses(q: Requirement): seq<string> {
    Split(q.specifiers, ",")
  }

  /** The pinned version of a constraint: its specifiers without leading `=`. */
  function Actual(c: Requirement): string {
    LStripChars(c.specifiers, {'='})
  }

  /** The required version of a requirement with a lower bound: the first bound without leading `>` and `=`. */
  function Required(q: Requirement): string
    requires Minima(q) != []
  {
    LStripChars(Minima(q)[0], {'>', '='})
  }

  /** The line emitted for constraint `c` against one requirement entry `q`. */
  function EntryLine(c: Requirement, q: Requirement): string {
    if Minima(q) == [] then ToLine(c)
    else if Required(q) != Actual(c) then c.package + "==" + Required(q) + "\n"
    else ToLine(c)
  }

  /** The lines emitted for constraint `c` against each entry of `entries`, in order. */
  function EntryLines(c: Requirement, entries: seq<Entry>): (r: seq<string>)
  {
    seq(|entries|, i requires 0 <= i < |entries| => EntryLine(c, entries[i].req))
  }

  /** The lines emitted for one constraint. */
  function ConstLines(c: Requirement, reqs: Store): seq<string> {
    var name := Lower(c.package);
    if name !in reqs.groups then [ToLine(c)] else EntryLines(c, reqs.groups[name])
  }

  /** Every key of `order` is a non-empty group of `cons`: what parsing a file guarantees. */
  predicate Listed(cons: Store, order: seq<string>) {
    forall k :: k in order ==> k in cons.groups && cons.groups[k] != []
  }

  /** The output list after the constraints of `order`: each constraint is its group's first entry. */
  function Output(reqs: Store, cons: Store, order: seq<string>): seq<string>
    requires Listed(cons, order)
  {
    if order == [] then []
    else
      var k := order[|order| - 1];
      Output(reqs, cons, order[..|order| - 1]) + ConstLines(cons.groups[k][0].req, reqs)
  }

  /** The number of output lines for one constraint: one per requirement entry, or one when the package is not required. */
  function Emitted(c: Requirement, reqs: Store): nat {
    var name := Lower(c.package);
    if name in reqs.groups then |reqs.groups[name]| else 1
  }

  function TotalEmitted(reqs: Store, cons: Store, order: seq<string>): nat
    requires Listed(cons, order)
  {
    if order == [] then 0
    else TotalEmitted(reqs, cons, order[..|order| - 1]) + Emitted(cons.groups[order[|order| - 1]][0].req, reqs)
  }

  // What one constraint emits.

  /** The required version is the first clause containing `>`, without its leading `>` and `=` characters. */
  lemma RequiredSpec(q: Requirement)
    requires Minima(q) != []
    ensures Required(q) == [] || (Required(q)[0] != '>' && Required(q)[0] != '=')
    ensures exists i :: (0 <= i < |Clauses(q)| && '>' in Clauses(q)[i] && EndsWith(Clauses(q)[i], Required(q))
                         && forall j :: 0 <= j < i ==> '>' !in Clauses(q)[j])
  {
    LowerBoundsFirst(Clauses(q));
    var m := Minima(q)[0];
    assert Required(q) == m[|m| - |Required(q)|..];
  }

  /**
   * The line for one entry: the constraint unchanged when the requirement
   * has no clause with `>` or when its required version is the
   * constraint's version; otherwise the package pinned to that version.
   */
  lemma EntryLineSpec(c: Requirement, q: Requirement)
    ensures (forall i :: 0 <= i < |Clauses(q)| ==> '>' !in Clauses(q)[i]) ==> EntryLine(c, q) == ToLine(c)
    ensures Minima(q) != [] && Required(q) == Actual(c) ==> EntryLine(c, q) == ToLine(c)
    ensures Minima(q) != [] && Required(q) != Actual(c) ==> EntryLine(c, q) == c.package + "==" + Required(q) + "\n"
  {
    LowerBoundsFirst(Clauses(q));
  }

  /** When every entry's lower bound already matches the pin, or is absent, the constraint is emitted unchanged for each entry. */
  lemma AlignedUnchanged(c: Requirement, entries: seq<Entry>)
    requires forall e :: e in entries ==> Minima(e.req) == [] || Required(e.req) == Actual(c)
    ensures forall i :: 0 <= i < |EntryLines(c, entries)| ==> EntryLines(c, entries)[i] == ToLine(c)
  {
  }

  /** The output holds exactly the number of lines the constraints emit. */
  lemma {:induction false} OutputLength(reqs: Store, cons: Store, order: seq<string>)
    requires Listed(cons, order)
    ensures |Output(reqs, cons, order)| == TotalEmitted(reqs, cons, order)
  {
    if order != [] {
      var init := order[..|order| - 1];
      assert Listed(cons, init) by {
        assert forall k :: k in init ==> k in order;
      }
      OutputLength(reqs, cons, init);
    }
  }

  /**
   * Every line a constraint emits is in the output: a constraint on a
   * package the project does not require appears unchanged, and a required
   * one appears once for each of its requirement entries.
   */
  lemma {:induction false} OutputHolds(reqs: Store, cons: Store, order: seq<string>, i: nat)
    requires Listed(cons, order) && i < |order|
    ensures forall x :: x in ConstLines(cons.groups[order[i]][0].req, reqs) ==> x in Output(reqs, cons, order)
  {
    var init := order[..|order| - 1];
    assert Listed(cons, init) by {
      assert forall k :: k in init ==> k in order;
    }
    if i < |init| {
      OutputHolds(reqs, cons, init, i);
      assert init[i] == order[i];
    }
  }

  // Printing.

  /** The output lines sorted stably by their lower-cased text. */
  function SortLines(output: seq<string>): seq<string> {
    SortBy(output, Lower, Below)
  }

  /** The printing loop: blank lines dropped, the others right-stripped. */
  function Printed(lines: seq<string>): (r: seq<string>)
    ensures |r| <= |lines|
  {
    if lines == [] then []
    else
      var last := lines[|lines| - 1];
      Printed(lines[..|lines| - 1]) + (if AllSpace(last) then [] else [RStrip(last)])
  }

  /** The sorted output is a case-insensitively ordered permutation of the output. */
  lemma SortLinesSpec(output: seq<string>)
    ensures multiset(SortLines(output)) == multiset(output)
    ensures SortedBy(SortLines(output), Lower, Below)
  {
    StringOrder();
    SortBySorted(output, Lower, Below);
  }

  /** Each printed line is a non-blank line of the input, right-stripped, and each non-blank line is printed. */
  lemma {:induction false} PrintedMembers(lines: seq<string>)
    ensures forall x :: x in Printed(lines) <==> exists i :: 0 <= i < |lines| && !AllSpace(lines[i]) && x == RStrip(lines[i])
  {
    if lines != [] {
      var init := lines[..|lines| - 1];
      var last := lines[|lines| - 1];
      PrintedMembers(init);
      assert forall i :: 0 <= i < |init| ==> init[i] == lines[i];
      forall x | x in Printed(lines)
        ensures exists i :: 0 <= i < |lines| && !AllSpace(lines[i]) && x == RStrip(lines[i])
      {
        if x !in Printed(init) {
          assert x == RStrip(lines[|lines| - 1]);
        }
      }
    }
  }

  /** No printed line is empty or ends in whitespace. */
  lemma {:induction false} PrintedClean(lines: seq<string>)
    ensures forall x :: x in Printed(lines) ==> x != "" && !IsSpace(x[|x| - 1])
  {
    if lines != [] {
      var last := lines[|lines| - 1];
      PrintedClean(lines[..|lines| - 1]);
      RStripSpec(last);
    }
  }

  // The loops of the script.

  /** The lines of one constraint against the entries of its package. */
  method AlignEntries(c: Requirement, entries: seq<Entry>) returns (output: seq<string>)
    ensures output == EntryLines(c, entries)
  {
    var actual := LStripChars(c.specifiers, {'='});
    output := [];
    for j := 0 to |entries|
      invariant output == EntryLines(c, entries[..j])
    {
      EntryLinesSnoc(c, entries, j);
      var line := AlignEntry(c, actual, entries[j].req);
      output := output + [line];
    }
    assert entries[..|entries|] == entries;
  }

  lemma EntryLinesSnoc(c: Requirement, entries: seq<Entry>, j: nat)
    requires j < |entries|
    ensures EntryLines(c, entries[..j + 1]) == EntryLines(c, entries[..j]) + [EntryLine(c, entries[j].req)]
  {
    assert entries[..j + 1][..j] == entries[..j];
  }

  /** The line for one requirement entry `q`, given the constraint's version `actual`. */
  method AlignEntry(c: Requirement, actual: string, q: Requirement) returns (line: string)
    requires actual == Actual(c)
    ensures line == EntryLine(c, q)
  {
    var min := LowerBounds(Split(q.specifiers, ","));
    if min == [] {
      return ToLine(c);
    }
    var required := LStripChars(min[0], {'>', '='});
    if required != actual {
      line := c.package + "==" + required + "\n";
    } else {
      line := ToLine(c);
    }
  }

  /** The alignment loop over the constraints, in file order. */
  method AlignConstraints(reqs: Store, cons: Store) returns (output: seq<string>)
    requires Listed(cons, cons.order)
    ensures output == Output(reqs, cons, cons.order)
  {
    output := [];
    for i := 0 to |cons.order|
      invariant Listed(cons, cons.order[..i])
      invariant output == Output(reqs, cons, cons.order[..i])
    {
      OutputSnoc(reqs, cons, cons.order, i);
      var c := cons.groups[cons.order[i]][0].req;
      var name := Lower(c.package);
      if name !in reqs.groups {
        output := output + [ToLine(c)];
        continue;
      }
      var lines := AlignEntries(c, reqs.groups[name]);
      output := output + lines;
    }
    assert cons.order[..|cons.order|] == cons.order;
  }

  lemma OutputSnoc(reqs: Store, cons: Store, order: seq<string>, i: nat)
    requires i < |order| && Listed(cons, order)
    ensures Listed(cons, order[..i]) && Listed(cons, order[..i + 1])
    ensures Output(reqs, cons, order[..i + 1]) == Output(reqs, cons, order[..i]) + ConstLines(cons.groups[order[i]][0].req, reqs)
  {
    assert order[..i + 1][..i] == order[..i];
    assert forall k :: k in order[..i + 1] ==> k in order;
  }

  /** The printing loop over the sorted output. */
  method PrintLines(output: seq<string>) returns (printed: seq<string>)
    ensures printed == Printed(SortLines(output))
  {
    var sorted := SortLines(output);
    printed := [];
    for i := 0 to |sorted|
      invariant printed == Printed(sorted[..i])
    {
      assert sorted[..i + 1][..i] == sorted[..i];
      var line := sorted[i];
      StripEmpty(line);
      if Strip(line) == "" {
        continue;
      }
      printed := printed + [RStrip(line)];
    }
    assert sorted[..|sorted|] == sorted;
  }

  /** The whole script on the parsed requirements, test requirements and lower constraints: the lines it prints. */
  method FixLowerConstraints(requirements: Store, testRequirements: Store, constraints: Store) returns (printed: seq<string>)
    requires Listed(constraints, constraints.order)
    ensures printed == Printed(SortLines(Output(Update(requirements, testRequirements), constraints, constraints.order)))
  {
    var reqs := Update(requirements, testRequirements);
    var output := AlignConstraints(reqs, constraints);
    printed := PrintLines(output);
  }
}
