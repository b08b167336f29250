/**
 * tools/cap.py: every requirement that has no upper bound yet is capped at
 * the version `pip freeze` reports for it, keeping the line's comment.
 */
module Cap {
  import opened Wrappers
  import opened Text
  import opened Foreign
  import opened Requirement

  /** The characters `split` cuts at: `re.split('[><=]', line)`. */
  const CapChars: set<char> := {'<', '>', '='}

  /** `s` holds a comparison character. */
  predicate HasCapChar(s: string) {
    exists j :: 0 <= j < |s| && s[j] in CapChars
  }

  /** `split` yields more than one piece exactly when there is a character to cut at. */
  lemma {:induction false} SplitAnyMany(s: string)
    ensures |SplitAny(s, CapChars)| > 1 <==> HasCapChar(s)
  {
    if s != [] {
      SplitAnyMany(s[1..]);
      if HasCapChar(s[1..]) {
        var j :| 0 <= j < |s[1..]| && s[1..][j] in CapChars;
        assert s[j + 1] in CapChars;
      }
      if HasCapChar(s) && s[0] !in CapChars {
        var j :| 0 <= j < |s| && s[j] in CapChars;
        assert s[1..][j - 1] in CapChars;
      }
    }
  }

  /** The last piece of `re.split('[><=]', s)`. */
  function Cut(s: string): string {
    var ps := SplitAny(s, CapChars);
    ps[|ps| - 1]
  }

  /** How the pieces of a text follow from the pieces of its tail. */
  lemma SplitAnyCons(s: string)
    requires s != []
    ensures SplitAny(s, CapChars) ==
      if s[0] in CapChars then [""] + SplitAny(s[1..], CapChars)
      else [[s[0]] + SplitAny(s[1..], CapChars)[0]] + SplitAny(s[1..], CapChars)[1..]
  {
  }

  /** How the last piece of a text follows from the last piece of its tail. */
  lemma CutCons(s: string)
    requires s != []
    ensures |SplitAny(s, CapChars)| == 1 <==> s[0] !in CapChars && |SplitAny(s[1..], CapChars)| == 1
    ensures Cut(s) == if s[0] !in CapChars && |SplitAny(s[1..], CapChars)| == 1 then [s[0]] + Cut(s[1..]) else Cut(s[1..])
  {
    SplitAnyCons(s);
  }

  /** The last piece holds no comparison character. */
  lemma CutFree(s: string)
    ensures !HasCapChar(Cut(s))
  {
    var ps := SplitAny(s, CapChars);
    var l := ps[|ps| - 1];
    forall j | 0 <= j < |l|
      ensures l[j] !in CapChars
    {
    }
  }

  /**
   * The last piece of `split(s)` is the text after the last comparison
   * character of `s`: a suffix of `s` free of them, preceded by one unless
   * it is all of `s`, which it is exactly when there is nothing to cut at.
   */
  lemma {:induction false} LastPiece(s: string)
    ensures EndsWith(s, Cut(s)) && !HasCapChar(Cut(s))
    ensures |SplitAny(s, CapChars)| == 1 ==> Cut(s) == s
    ensures |SplitAny(s, CapChars)| > 1 ==> |Cut(s)| < |s| && s[|s| - |Cut(s)| - 1] in CapChars
  {
    var l := Cut(s);
    if s != [] {
      var t := s[1..];
      LastPiece(t);
      CutCons(s);
      if s[0] !in CapChars && |SplitAny(t, CapChars)| == 1 {
        assert s == [s[0]] + t;
      } else {
        assert s[|s| - |l|..] == t[|t| - |l|..];
        if |l| == |t| {
          assert s[|s| - |l| - 1] == s[0];
        } else {
          assert s[|s| - |l| - 1] == t[|t| - |l| - 1];
        }
      }
    }
    CutFree(s);
  }

  /**
   * `cap_requirement(requirement, frozen)`: the text after the last
   * comparison character of the frozen specifier of the package, or `None`
   * when the package is not frozen or its specifier is empty (an empty
   * `SpecifierSet` is false).
   */
  function CapRequirement(name: string, frozen: map<string, string>): Option<string>
  {
    if name in frozen && frozen[name] != "" then Some(Cut(frozen[name])) else None
  }

  /** The cap is absent exactly for packages not frozen with a specifier, and otherwise ends their frozen specifier after its last comparison character. */
  lemma CapRequirementSpec(name: string, frozen: map<string, string>)
    ensures CapRequirement(name, frozen).None? <==> name !in frozen || frozen[name] == ""
    ensures CapRequirement(name, frozen).Some? ==>
      EndsWith(frozen[name], Cut(frozen[name])) && !HasCapChar(Cut(frozen[name]))
      && CapRequirement(name, frozen).value == Cut(frozen[name])
      && (|Cut(frozen[name])| < |frozen[name]| ==> frozen[name][|frozen[name]| - |Cut(frozen[name])| - 1] in CapChars)
  {
    if name in frozen && frozen[name] != "" {
      LastPiece(frozen[name]);
    }
  }

  /**
   * `pin(line, new_cap)`: the part before the first ` #`, stripped, then
   * `<=cap` (after a comma when that part already has a comparison), then
   * ` #` and the comment when the line has one. Fails when the line holds a
   * `#` but no ` #`, where Python indexes past the end of the parts.
   */
  function Pin(line: string, newCap: string): Result<string>
  {
    var parts := Split(line, " #");
    var pre := Strip(parts[0]);
    var useComma := |SplitAny(pre, CapChars)| > 1;
    if Contains(line, "#") && |parts| < 2 then Failure("list index out of range")
    else
      var end := if Contains(line, "#") then parts[1] else "";
      var newEnd := if end != "" then "<=" + newCap + " #" + end else "<=" + newCap;
      Success(if useComma then pre + "," + newEnd else pre + newEnd)
  }

  /** A text without `c` holds no text with `c` at position `k`. */
  lemma NoMatchWithout(t: string, p: string, c: char, k: nat)
    requires NoChar(t, c) && k < |p| && p[k] == c
    ensures !Contains(t, p)
  {
    ContainsIff(t, p);
    forall j
      ensures !MatchAt(t, p, j)
    {
      if 0 <= j && j + |p| <= |t| {
        assert t[j..j + |p|][k] == t[j + k];
      }
    }
  }

  /** A line without `#` is capped in full, with a comma exactly when it already has a comparison. */
  lemma PinWithoutComment(line: string, newCap: string)
    requires NoChar(line, '#')
    ensures Pin(line, newCap) == Success(Strip(line) + (if HasCapChar(Strip(line)) then "," else "") + ("<=" + newCap))
  {
    NoMatchWithout(line, " #", '#', 1);
    NoMatchWithout(line, "#", '#', 0);
    ContainsIff(line, " #");
    assert Split(line, " #") == [line];
    var pre := Strip(line);
    SplitAnyMany(pre);
    var newEnd := "<=" + newCap;
    assert Pin(line, newCap) == Success(if |SplitAny(pre, CapChars)| > 1 then pre + "," + newEnd else pre + newEnd);
    assert pre + "" == pre;
  }

  /** A line with one ` #` splits into the text before it and the comment. */
  lemma SplitComment(pre: string, comment: string)
    requires NoChar(pre, '#') && !Contains(comment, " #")
    ensures Split(pre + " #" + comment, " #") == [pre, comment]
  {
    var line := pre + " #" + comment;
    assert MatchAt(line, " #", |pre|) by {
      assert line[|pre|..|pre| + 2] == " #";
    }
    forall j | 0 <= j < |pre|
      ensures !MatchAt(line, " #", j)
    {
      if j + 1 < |pre| {
        assert line[j + 1] == pre[j + 1];
      } else {
        assert line[j + 1] == ' ';
      }
      assert line[j + 1] == line[j..j + 2][1];
    }
    assert IndexOf(line, " #") == |pre|;
    assert line[..|pre|] == pre;
    assert line[|pre| + 2..] == comment;
    ContainsIff(comment, " #");
    assert Split(comment, " #") == [comment];
  }

  /**
   * With one ` #` comment, the cap goes between the stripped requirement
   * and the comment: `pre<=cap #comment`.
   */
  lemma PinWithComment(pre: string, comment: string, newCap: string)
    requires NoChar(pre, '#') && comment != [] && !Contains(comment, " #")
    ensures Pin(pre + " #" + comment, newCap)
      == Success(Strip(pre) + (if HasCapChar(Strip(pre)) then "," else "") + ("<=" + newCap + " #" + comment))
  {
    var line := pre + " #" + comment;
    SplitComment(pre, comment);
    assert Contains(line, "#") by {
      ContainsIff(line, "#");
      assert MatchAt(line, "#", |pre| + 1) by {
        assert line[|pre| + 1..|pre| + 2] == "#";
      }
    }
    var p := Strip(pre);
    SplitAnyMany(p);
    var newEnd := "<=" + newCap + " #" + comment;
    assert Pin(line, newCap) == Success(if |SplitAny(p, CapChars)| > 1 then p + "," + newEnd else p + newEnd);
    assert p + "" == p;
  }

  /** Requirements already holding `==`, `~=` or `<` are left alone. */
  predicate Capped(specifier: string) {
    Contains(specifier, "==") || Contains(specifier, "~=") || Contains(specifier, "<")
  }

  /**
   * One line of `cap(requirements, frozen)`: unchanged when it does not
   * parse or is already capped; replaced by a true override of its
   * package; pinned at the package's non-empty cap; else unchanged.
   */
  function CapLine(lib: Lib, overrides: map<string, Option<string>>, frozen: map<string, string>, line: string): Result<string>
  {
    match lib.parse(line)
    case None => Success(line)
    case Some(req) =>
      if Capped(req.specifier) then Success(line)
      else if req.name in overrides then
        var newLine := overrides[req.name];
        if newLine.Some? && newLine.value != "" then Success(newLine.value) else Success(line)
      else
        match CapRequirement(req.name, frozen)
        case Some(newCap) => if newCap != "" then Pin(line, newCap) else Success(line)
        case None => Success(line)
  }

  /**
   * `cap(requirements, frozen)`: one output line per input line, in order;
   * lines that do not parse or are already capped come back unchanged.
   */
  method CapLines(lib: Lib, overrides: map<string, Option<string>>, requirements: seq<string>, frozen: map<string, string>)
    returns (r: Result<seq<string>>)
    ensures r == ApplyAll(line => CapLine(lib, overrides, frozen, line), requirements)
    ensures r.Success? <==> forall i :: 0 <= i < |requirements| ==> CapLine(lib, overrides, frozen, requirements[i]).Success?
    ensures r.Success? ==> |r.value| == |requirements|
    ensures r.Success? ==> forall i :: 0 <= i < |requirements| ==>
      (lib.parse(requirements[i]).None? || Capped(lib.parse(requirements[i]).value.specifier)) ==> r.value[i] == requirements[i]
  {
    var f := line => CapLine(lib, overrides, frozen, line);
    ApplyAllEach(f, requirements);
    var output: seq<string> := [];
    for i := 0 to |requirements|
      invariant ApplyAll(f, requirements[..i]) == Success(output)
    {
      ApplyAllSnoc(f, requirements, i);
      var line := requirements[i];
      var next := CapLine(lib, overrides, frozen, line);
      if next.Failure? {
        ApplyAllStops(f, requirements, i + 1);
        return Failure(next.error);
      }
      output := output + [next.value];
    }
    assert requirements[..|requirements|] == requirements;
    return Success(output);
  }

  /** `freeze(lines)` from the dictionary `m`: each parsable line stores its specifier under its project name. */
  function FreezeFrom(lib: Lib, m: map<string, string>, lines: seq<string>): map<string, string>
  {
    if lines == [] then m
    else
      var prev := FreezeFrom(lib, m, lines[..|lines| - 1]);
      match lib.parse(lines[|lines| - 1])
      case None => prev
      case Some(req) => prev[req.name := req.specifier]
  }

  /** The parse of the last line of `lines` that parses with project name `k`. */
  function LastParsed(lib: Lib, lines: seq<string>, k: string): Option<Parsed>
  {
    if lines == [] then None
    else
      var p := lib.parse(lines[|lines| - 1]);
      if p.Some? && p.value.name == k then p else LastParsed(lib, lines[..|lines| - 1], k)
  }

  /**
   * A package is frozen exactly when some line parses with its name, and
   * its specifier is the one of the last such line.
   */
  lemma {:induction false} FreezeSpec(lib: Lib, lines: seq<string>, k: string)
    ensures k in FreezeFrom(lib, map[], lines) <==> LastParsed(lib, lines, k).Some?
    ensures k in FreezeFrom(lib, map[], lines) ==> FreezeFrom(lib, map[], lines)[k] == LastParsed(lib, lines, k).value.specifier
  {
    if lines != [] {
      FreezeSpec(lib, lines[..|lines| - 1], k);
    }
  }

  /** `line` parses with project name `k`. */
  predicate ParsesAs(lib: Lib, line: string, k: string) {
    lib.parse(line).Some? && lib.parse(line).value.name == k
  }

  /** `LastParsed` names a line that parses with that name, after which none does. */
  lemma LastParsedSpec(lib: Lib, lines: seq<string>, k: string)
    ensures LastParsed(lib, lines, k).Some? <==> exists i :: 0 <= i < |lines| && ParsesAs(lib, lines[i], k)
    ensures LastParsed(lib, lines, k).Some? ==>
      exists i :: 0 <= i < |lines| && lib.parse(lines[i]) == LastParsed(lib, lines, k)
        && forall j :: i < j < |lines| ==> !ParsesAs(lib, lines[j], k)
  {
    LastParsedFound(lib, lines, k);
    if LastParsed(lib, lines, k).Some? {
      LastParsedLast(lib, lines, k);
    }
  }

  lemma {:induction false} LastParsedFound(lib: Lib, lines: seq<string>, k: string)
    ensures LastParsed(lib, lines, k).Some? <==> exists i :: 0 <= i < |lines| && ParsesAs(lib, lines[i], k)
  {
    if lines != [] {
      var n := |lines| - 1;
      var init := lines[..n];
      LastParsedFound(lib, init, k);
      if !ParsesAs(lib, lines[n], k) {
        if exists i :: 0 <= i < |lines| && ParsesAs(lib, lines[i], k) {
          var i :| 0 <= i < |lines| && ParsesAs(lib, lines[i], k);
          assert init[i] == lines[i];
        }
        if exists i :: 0 <= i < |init| && ParsesAs(lib, init[i], k) {
          var i :| 0 <= i < |init| && ParsesAs(lib, init[i], k);
          assert init[i] == lines[i];
        }
      }
    }
  }

  lemma {:induction false} LastParsedLast(lib: Lib, lines: seq<string>, k: string)
    requires LastParsed(lib, lines, k).Some?
    ensures exists i :: (0 <= i < |lines| && lib.parse(lines[i]) == LastParsed(lib, lines, k)
      && forall j :: i < j < |lines| ==> !ParsesAs(lib, lines[j], k))
  {
    var n := |lines| - 1;
    var init := lines[..n];
    if ParsesAs(lib, lines[n], k) {
      assert lib.parse(lines[n]) == LastParsed(lib, lines, k);
    } else {
      LastParsedLast(lib, init, k);
      var i :| 0 <= i < |init| && lib.parse(init[i]) == LastParsed(lib, init, k)
        && forall j :: i < j < |init| ==> !ParsesAs(lib, init[j], k);
      assert init[i] == lines[i];
      forall j | i < j < |lines|
        ensures !ParsesAs(lib, lines[j], k)
      {
        if j < n {
          assert init[j] == lines[j];
        }
      }
    }
  }

  /** `freeze(lines)`. */
  method Freeze(lib: Lib, lines: seq<string>) returns (frozen: map<string, string>)
    ensures frozen == FreezeFrom(lib, map[], lines)
  {
    frozen := map[];
    for i := 0 to |lines|
      invariant frozen == FreezeFrom(lib, map[], lines[..i])
    {
      assert lines[..i + 1][..i] == lines[..i];
      var req := lib.parse(lines[i]);
      if req.Some? {
        frozen := frozen[req.value.name := req.value.specifier];
      }
    }
    assert lines[..|lines|] == lines;
  }
}
