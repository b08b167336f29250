/**
 * The requirement-line codec of openstack_requirements/requirement.py:
 * one line of a requirements file splits into package, specifiers,
 * environment markers and comment; files become sequences of parsed
 * lines, lines grouped by lower-cased package name, and records are
 * written back as text.
 */
module Requirement {
  import opened Wrappers
  import opened Text
  import opened Foreign

  /**
   * One requirement record.  `location` and `extras` are carried for the
   * tools that use them; the line parser leaves them empty.
   */
  datatype Requirement = Requirement(
    package: string,
    location: string,
    specifiers: string,
    markers: string,
    comment: string,
    extras: set<string>)

  /** A line of a requirements file: its parse (`None` for a pass-through line) and its text. */
  datatype Line = Line(req: Option<Requirement>, text: string)

  /** A parsed line as stored in a grouped requirements dictionary. */
  datatype Entry = Entry(req: Requirement, text: string)

  /**
   * A Python dictionary from lower-cased package names to entries: `order`
   * holds the keys in insertion order, as Python dictionaries iterate.
   */
  datatype Store = Store(order: seq<string>, groups: map<string, seq<Entry>>)
  {
    ghost predicate Valid() {
      (forall i, j :: 0 <= i < j < |order| ==> order[i] != order[j])
      && (forall k :: k in groups <==> k in order)
    }
  }

  /** The three header lines, without their line breaks. */
  const HeaderText: seq<string> := [
    "# The order of packages is " + "significant, because pip " + "processes them in the order",
    "# of appearance. Changing " + "the order has an impact on " + "the overall integration",
    "# process, which may cause " + "wedges in the gate later."]

  /** The header written at the top of a synchronised requirements file. */
  const ReqsHeader: seq<string> := [HeaderText[0] + "\n", HeaderText[1] + "\n", HeaderText[2] + "\n"]

  /** Where the comment of a line starts: its first `#`, or its end. */
  function HashPos(line: string): (h: nat)
    ensures h <= |line|
    ensures h < |line| ==> line[h] == '#'
    ensures forall j :: 0 <= j < h ==> line[j] != '#'
  {
    var i := FindChar(line, '#', |line|);
    if i < 0 then |line| else i
  }

  /**
   * Where the markers of a line start: the later of the first `;` and the
   * first `:` before the comment, or the comment position when neither occurs.
   */
  function MarkerPos(line: string, h: nat): (m: nat)
    requires h <= |line|
    ensures m <= h
    ensures m < h ==> line[m] == ';' || line[m] == ':'
    ensures m < h ==> (forall j :: 0 <= j < m ==> line[j] != ';') || (forall j :: 0 <= j < m ==> line[j] != ':')
    ensures m == h ==> forall j :: 0 <= j < h ==> line[j] != ';' && line[j] != ':'
  {
    var semi := FindChar(line, ';', h);
    var colon := FindChar(line, ':', h);
    var mx := if semi >= colon then semi else colon;
    if mx < 0 then h else mx
  }

  /**
   * `parse_line`: split one line into package, specifiers, markers and comment.
   * A `Failure` is the exception `pkg_resources` raises.
   */
  function ParseLine(lib: Lib, line: string): Result<Requirement>
  {
    var h := HashPos(line);
    if Contains(line[..h], "://") && lib.parse(line).None? then Failure("invalid requirement")
    else SplitAt(lib, line, h, MarkerPos(line, h))
  }

  /** The record of a line whose comment starts at `h` and whose markers start at `m`. */
  function SplitAt(lib: Lib, line: string, h: nat, m: nat): Result<Requirement>
    requires m <= h <= |line|
  {
    var markers := if m < h then Strip(line[m + 1..h]) else "";
    var comment := if h != |line| then line[h..] else "";
    var reqText := line[..m];
    if reqText == [] then Success(Requirement("", "", "", markers, comment, {}))
    else
      match lib.parse(reqText)
      case None => Failure("invalid requirement")
      case Some(p) => Success(Requirement(p.name, "", p.specifier, markers, comment, {}))
  }

  /**
   * A parsed record has no location and no extras, and its comment is the
   * line from the first `#` on.
   */
  lemma ParseLineFields(lib: Lib, line: string)
    requires ParseLine(lib, line).Success?
    ensures ParseLine(lib, line).value.location == "" && ParseLine(lib, line).value.extras == {}
    ensures ParseLine(lib, line).value.comment == line[HashPos(line)..]
  {
  }

  /** A `#` or a `;` that follows the first `#` is part of the comment and never starts the markers. */
  lemma CommentIsSuffix(lib: Lib, line: string, h: nat)
    requires h < |line| && line[h] == '#' && forall j :: 0 <= j < h ==> line[j] != '#'
    requires ParseLine(lib, line).Success?
    ensures ParseLine(lib, line).value.comment == line[h..]
    ensures ParseLine(lib, line).value.comment[0] == '#'
  {
    FindCharAt(line, '#', |line|, h);
    ParseLineFields(lib, line);
  }

  /** A line without `#` has no comment. */
  lemma NoHashNoComment(lib: Lib, line: string)
    requires forall j :: 0 <= j < |line| ==> line[j] != '#'
    requires ParseLine(lib, line).Success?
    ensures ParseLine(lib, line).value.comment == ""
  {
    FindCharAt(line, '#', |line|, |line|);
    ParseLineFields(lib, line);
  }

  /** An empty line, or one that is only a comment, is a blank record whose comment is the line. */
  lemma CommentLine(lib: Lib, line: string)
    requires line == [] || line[0] == '#'
    ensures ParseLine(lib, line) == Success(Requirement("", "", "", "", line, {}))
  {
    if line != [] {
      assert HashPos(line) == 0;
      assert line[..0] == [];
      assert !Contains(line[..0], "://");
    }
  }

  lemma ContainsHasChar(s: string, t: string, j: nat)
    requires Contains(s, t) && j < |t|
    ensures exists i :: 0 <= i < |s| && s[i] == t[j]
  {
    var i := IndexOf(s, t);
    assert MatchAt(s, t, i);
    assert s[i + j] == s[i..i + |t|][j];
  }

  /** A line whose text before the comment holds `://` is refused, as a URL requirement. */
  lemma UrlLineFails(lib: Lib, line: string)
    requires RejectsUrls(lib)
    requires Contains(line[..HashPos(line)], "://")
    ensures ParseLine(lib, line).Failure?
  {
    var h := HashPos(line);
    var i := IndexOf(line[..h], "://");
    assert MatchAt(line[..h], "://", i);
    MatchInPrefix(line, "://", h, i);
    assert Contains(line, "://");
  }

  /** `-e`, `-f` and tarball lines are not parsed. */
  predicate PassThrough(line: string) {
    StartsWith(line, "http://tarballs.openstack.org/") || StartsWith(line, "-e") || StartsWith(line, "-f")
  }

  /** A pass-through line given to the parser directly is refused. */
  lemma PassThroughUrlFails(lib: Lib, line: string)
    requires RejectsUrls(lib)
    requires StartsWith(line, "http://tarballs.openstack.org/")
    ensures ParseLine(lib, line).Failure?
  {
    assert line[..30] == "http://tarballs.openstack.org/";
    assert forall j :: 0 <= j < 30 ==> line[j] == line[..30][j];
    var h := HashPos(line);
    assert h >= 30 by {
      assert h < |line| ==> line[h] == '#';
    }
    assert line[..h][4..7] == "://" by {
      assert line[4] == ':' && line[5] == '/' && line[6] == '/';
    }
    assert MatchAt(line[..h], "://", 4);
    UrlLineFails(lib, line);
  }

  /** What `to_reqs` yields for one line of content, with the line's own text. */
  function ClassifyLine(lib: Lib, contentLine: string): Result<Line>
  {
    var stripped := Strip(contentLine);
    if PassThrough(stripped) then Success(Line(None, contentLine))
    else
      match ParseLine(lib, stripped)
      case Failure(e) => Failure(e)
      case Success(q) => Success(Line(Some(q), contentLine))
  }

  /**
   * Each line yields a pair holding the line itself; the record is `None`
   * exactly for pass-through lines, and otherwise is the parse of the
   * stripped line, whose failure is the only way the line can fail.
   */
  lemma ClassifyLineOutcome(lib: Lib, contentLine: string)
    ensures var r := ClassifyLine(lib, contentLine);
      && (r.Success? ==> r.value.text == contentLine)
      && (r.Success? ==> (r.value.req.None? <==> PassThrough(Strip(contentLine))))
      && (PassThrough(Strip(contentLine)) ==> r.Success?)
      && (!PassThrough(Strip(contentLine)) ==>
            (r.Success? <==> ParseLine(lib, Strip(contentLine)).Success?)
            && (r.Success? ==> r.value.req == Some(ParseLine(lib, Strip(contentLine)).value)))
  {
  }

  /**
   * `f` applied to each of `xs` in turn, stopping with the error of the
   * first element it refuses.
   */
  function ApplyAll<A, B>(f: A -> Result<B>, xs: seq<A>): Result<seq<B>>
  {
    if xs == [] then Success([])
    else
      match ApplyAll(f, xs[..|xs| - 1])
      case Failure(e) => Failure(e)
      case Success(prev) =>
        match f(xs[|xs| - 1])
        case Failure(e) => Failure(e)
        case Success(y) => Success(prev + [y])
  }

  /** All elements are accepted exactly when each one is, and then the results line up with them. */
  lemma {:induction false} ApplyAllEach<A, B>(f: A -> Result<B>, xs: seq<A>)
    ensures ApplyAll(f, xs).Success? <==> forall k :: 0 <= k < |xs| ==> f(xs[k]).Success?
    ensures ApplyAll(f, xs).Success? ==>
      |ApplyAll(f, xs).value| == |xs|
      && forall k :: 0 <= k < |xs| ==> ApplyAll(f, xs).value[k] == f(xs[k]).value
  {
    if xs != [] {
      var init := xs[..|xs| - 1];
      ApplyAllEach(f, init);
      assert forall k :: 0 <= k < |init| ==> init[k] == xs[k];
    }
  }

  /** Once an element is refused, later elements do not change the error. */
  /** One more element: the results so far extended by its result, or its error. */
  lemma ApplyAllSnoc<A, B>(f: A -> Result<B>, xs: seq<A>, i: nat)
    requires i < |xs| && ApplyAll(f, xs[..i]).Success?
    ensures ApplyAll(f, xs[..i + 1]) ==
      if f(xs[i]).Failure? then Failure(f(xs[i]).error) else Success(ApplyAll(f, xs[..i]).value + [f(xs[i]).value])
  {
    assert xs[..i + 1][..i] == xs[..i];
  }

  lemma {:induction false} ApplyAllStops<A, B>(f: A -> Result<B>, xs: seq<A>, i: nat)
    requires i <= |xs| && ApplyAll(f, xs[..i]).Failure?
    ensures ApplyAll(f, xs) == ApplyAll(f, xs[..i])
    decreases |xs| - i
  {
    if i < |xs| {
      assert xs[..i + 1][..i] == xs[..i];
      ApplyAllStops(f, xs, i + 1);
    } else {
      assert xs[..i] == xs;
    }
  }

  /**
   * The pairs `to_reqs` yields for `lines`, or the error of the first line
   * the parser refuses.
   */
  function ClassifyAll(lib: Lib, lines: seq<string>): Result<seq<Line>>
  {
    ApplyAll(line => ClassifyLine(lib, line), lines)
  }

  /**
   * The lines are all accepted exactly when each one is, and then there is
   * one pair per line, in order.
   */
  lemma ClassifyAllLines(lib: Lib, lines: seq<string>)
    ensures ClassifyAll(lib, lines).Success? <==> forall k :: 0 <= k < |lines| ==> ClassifyLine(lib, lines[k]).Success?
    ensures ClassifyAll(lib, lines).Success? ==>
      |ClassifyAll(lib, lines).value| == |lines|
      && forall k :: 0 <= k < |lines| ==> ClassifyAll(lib, lines).value[k] == ClassifyLine(lib, lines[k]).value
  {
    ApplyAllEach(line => ClassifyLine(lib, line), lines);
  }

  /**
   * `to_reqs`: one parsed line per line of `content`, in order.  The
   * generator raises at the first line the parser refuses.
   */
  method ToReqs(lib: Lib, content: string) returns (r: Result<seq<Line>>)
    ensures r == ClassifyAll(lib, SplitLines(content))
  {
    var lines := SplitLines(content);
    var out: seq<Line> := [];
    var i := 0;
    while i < |lines|
      invariant 0 <= i <= |lines|
      invariant ClassifyAll(lib, lines[..i]) == Success(out)
    {
      ApplyAllSnoc(line => ClassifyLine(lib, line), lines, i);
      var c := ClassifyLine(lib, lines[i]);
      if c.Failure? {
        ApplyAllStops(line => ClassifyLine(lib, line), lines, i + 1);
        return Failure(c.error);
      }
      out := out + [c.value];
      i := i + 1;
    }
    assert lines[..i] == lines;
    return Success(out);
  }

  /** The grouping key of a record: its package name, lower-cased. */
  function Key(q: Requirement): string {
    Lower(q.package)
  }

  /** The entries of `lines` whose key is `k`, in order. */
  function Group(lines: seq<Line>, k: string): (g: seq<Entry>)
    ensures |g| <= |lines|
  {
    if lines == [] then []
    else
      var last := lines[|lines| - 1];
      Group(lines[..|lines| - 1], k)
      + (if last.req.Some? && Key(last.req.value) == k then [Entry(last.req.value, last.text)] else [])
  }

  /** The keys of `lines` in order of first appearance. */
  function KeyOrder(lines: seq<Line>): (ks: seq<string>)
  {
    if lines == [] then []
    else
      var prev := KeyOrder(lines[..|lines| - 1]);
      var last := lines[|lines| - 1];
      if last.req.Some? && Key(last.req.value) !in prev then prev + [Key(last.req.value)] else prev
  }

  /** A key is listed exactly when some parsed line has it, and no key is listed twice. */
  lemma {:induction false} KeyOrderGroups(lines: seq<Line>)
    ensures forall k :: k in KeyOrder(lines) <==> Group(lines, k) != []
    ensures forall i, j :: 0 <= i < j < |KeyOrder(lines)| ==> KeyOrder(lines)[i] != KeyOrder(lines)[j]
  {
    if lines != [] {
      KeyOrderGroups(lines[..|lines| - 1]);
    }
  }

  /**
   * The grouping keeps every parsed line and nothing else: an entry is in the
   * group of `k` exactly when a line with a record of key `k` produced it.
   */
  lemma {:induction false} GroupMembers(lines: seq<Line>, k: string, e: Entry)
    ensures e in Group(lines, k) <==> Key(e.req) == k && exists i :: 0 <= i < |lines| && lines[i] == Line(Some(e.req), e.text)
  {
    if lines != [] {
      var init := lines[..|lines| - 1];
      GroupMembers(init, k, e);
      var n := |lines| - 1;
      if e in Group(lines, k) && e !in Group(init, k) {
        assert lines[n] == Line(Some(e.req), e.text);
      }
      if Key(e.req) == k && exists i :: 0 <= i < |lines| && lines[i] == Line(Some(e.req), e.text) {
        var i :| 0 <= i < |lines| && lines[i] == Line(Some(e.req), e.text);
        if i < n { assert init[i] == lines[i]; }
      }
    }
  }

  /** `store` is the grouping of `lines`: its keys in first-appearance order, each with its group. */
  ghost predicate Grouped(store: Store, lines: seq<Line>)
  {
    && store.order == KeyOrder(lines)
    && (forall k :: k in store.groups <==> k in store.order)
    && (forall k :: k in store.groups ==> store.groups[k] == Group(lines, k))
    && (forall k :: k !in store.groups ==> Group(lines, k) == [])
  }

  /** The store after `setdefault(key, []).append(...)` for one line. */
  function AddLine(store: Store, line: Line): Store
  {
    if line.req.None? then store
    else
      var k := Key(line.req.value);
      var e := Entry(line.req.value, line.text);
      if k in store.groups then store.(groups := store.groups[k := store.groups[k] + [e]])
      else Store(store.order + [k], store.groups[k := [e]])
  }

  lemma GroupedStep(store: Store, lines: seq<Line>, i: nat)
    requires i < |lines| && Grouped(store, lines[..i])
    ensures Grouped(AddLine(store, lines[i]), lines[..i + 1])
  {
    assert lines[..i + 1] == lines[..i] + [lines[i]];
    GroupedSnoc(store, lines[..i], lines[i]);
  }

  /** Adding one line to a grouping gives the grouping of the lines with that one after them. */
  lemma GroupedSnoc(store: Store, init: seq<Line>, line: Line)
    requires Grouped(store, init)
    ensures Grouped(AddLine(store, line), init + [line])
  {
    KeyOrderGroups(init);
    KeyOrderSnoc(init, line);
    var s' := AddLine(store, line);
    forall k
      ensures Group(init + [line], k) == Group(init, k) + (if line.req.Some? && Key(line.req.value) == k then [Entry(line.req.value, line.text)] else [])
    {
      GroupSnoc(init, line, k);
    }
  }

  lemma GroupSnoc(init: seq<Line>, line: Line, k: string)
    ensures Group(init + [line], k) == Group(init, k) + (if line.req.Some? && Key(line.req.value) == k then [Entry(line.req.value, line.text)] else [])
  {
    assert (init + [line])[..|init|] == init;
  }

  lemma KeyOrderSnoc(init: seq<Line>, line: Line)
    ensures KeyOrder(init + [line]) ==
      if line.req.Some? && Key(line.req.value) !in KeyOrder(init) then KeyOrder(init) + [Key(line.req.value)] else KeyOrder(init)
  {
    assert (init + [line])[..|init|] == init;
  }

  /** `to_dict`: group the parsed lines by key, dropping pass-through lines. */
  method ToDict(lines: seq<Line>) returns (store: Store)
    ensures store.Valid()
    ensures Grouped(store, lines)
  {
    store := Store([], map[]);
    var i := 0;
    while i < |lines|
      invariant 0 <= i <= |lines|
      invariant Grouped(store, lines[..i])
    {
      GroupedStep(store, lines, i);
      var line := lines[i];
      if line.req.Some? {
        var k := Key(line.req.value);
        var e := Entry(line.req.value, line.text);
        if k in store.groups {
          store := store.(groups := store.groups[k := store.groups[k] + [e]]);
        } else {
          store := Store(store.order + [k], store.groups[k := [e]]);
        }
      }
      i := i + 1;
    }
    assert lines[..i] == lines;
    KeyOrderGroups(lines);
  }

  /** `parse`: the grouped dictionary of a file's content. */
  method Parse(lib: Lib, content: string) returns (r: Result<Store>)
    ensures r.Success? <==> ClassifyAll(lib, SplitLines(content)).Success?
    ensures r.Success? ==> Grouped(r.value, ClassifyAll(lib, SplitLines(content)).value) && r.value.Valid()
  {
    var lines := ToReqs(lib, content);
    if lines.Failure? {
      return Failure(lines.error);
    }
    var store := ToDict(lines.value);
    return Success(store);
  }

  /** One record as `to_content` writes it, newline included. */
  function RenderLine(q: Requirement, markerSep: string, linePrefix: string): (line: string)
    ensures line != [] && line[|line| - 1] == '\n'
  {
    RenderBody(q, markerSep, linePrefix) + "\n"
  }

  /** One record as `to_content` writes it, without the newline. */
  function RenderBody(q: Requirement, markerSep: string, linePrefix: string): string {
    var commentP := if q.package != "" then " " else "";
    var comment := if q.comment != "" then commentP + q.comment else "";
    var marker := if q.markers != "" then markerSep + q.markers else "";
    var package := if q.package != "" then linePrefix + q.package else "";
    package + q.specifiers + marker + comment
  }

  /**
   * `Requirement.to_line`: a record as one line of a requirements file, with
   * `;` before the markers and no prefix.  The method does not appear in
   * requirement.py; it is stated here as the line `to_content` writes.
   */
  function ToLine(q: Requirement): string {
    RenderLine(q, ";", "")
  }

  /** The lines `to_content` joins: the header when asked for, then one line per record. */
  function ContentLines(reqs: seq<Requirement>, markerSep: string, linePrefix: string, prefix: bool): (ls: seq<string>)
  {
    (if prefix then ReqsHeader else []) + seq(|reqs|, k requires 0 <= k < |reqs| => RenderLine(reqs[k], markerSep, linePrefix))
  }

  /** `to_content`: the text of a requirements file holding `reqs`. */
  method ToContent(reqs: seq<Requirement>, markerSep: string, linePrefix: string, prefix: bool) returns (content: string)
    ensures content == Concat(ContentLines(reqs, markerSep, linePrefix, prefix))
  {
    var lines: seq<string> := [];
    if prefix {
      lines := lines + ReqsHeader;
    }
    var h := |lines|;
    var i := 0;
    while i < |reqs|
      invariant 0 <= i <= |reqs|
      invariant |lines| == h + i
      invariant lines[..h] == (if prefix then ReqsHeader else [])
      invariant forall k :: 0 <= k < i ==> lines[h + k] == RenderLine(reqs[k], markerSep, linePrefix)
    {
      lines := lines + [RenderLine(reqs[i], markerSep, linePrefix)];
      i := i + 1;
    }
    assert lines == ContentLines(reqs, markerSep, linePrefix, prefix);
    content := Concat(lines);
  }

  predicate NoLineBreak(s: string) {
    forall j :: 0 <= j < |s| ==> !IsLineBreak(s[j])
  }

  /** Every record field that `to_content` writes is free of line breaks. */
  predicate SingleLine(q: Requirement, markerSep: string, linePrefix: string) {
    NoLineBreak(q.package) && NoLineBreak(q.specifiers) && NoLineBreak(q.markers)
    && NoLineBreak(q.comment) && NoLineBreak(markerSep) && NoLineBreak(linePrefix)
  }

  lemma {:induction false} FirstLineOfTerminated(a: string, rest: string)
    requires NoLineBreak(a)
    ensures FirstLineLength(a + "\n" + rest) == |a| + 1
    decreases |a|
  {
    var s := a + "\n" + rest;
    if a != [] {
      assert s[1..] == a[1..] + "\n" + rest;
      FirstLineOfTerminated(a[1..], rest);
    }
  }

  lemma {:induction false} SplitLinesOfTerminated(ls: seq<string>)
    requires forall k :: 0 <= k < |ls| ==> ls[k] != [] && ls[k][|ls[k]| - 1] == '\n' && NoLineBreak(ls[k][..|ls[k]| - 1])
    ensures SplitLines(Concat(ls)) == ls
  {
    if ls != [] {
      var a := ls[0][..|ls[0]| - 1];
      assert ls[0] == a + "\n";
      var rest := Concat(ls[1..]);
      assert Concat(ls) == a + "\n" + rest;
      FirstLineOfTerminated(a, rest);
      SplitLinesOfTerminated(ls[1..]);
      assert (a + "\n" + rest)[..|a| + 1] == ls[0];
      assert (a + "\n" + rest)[|a| + 1..] == rest;
    }
  }

  lemma NoLineBreakConcat(a: string, b: string)
    requires NoLineBreak(a) && NoLineBreak(b)
    ensures NoLineBreak(a + b)
  {
    forall j | 0 <= j < |a + b| ensures !IsLineBreak((a + b)[j]) {
      if j >= |a| { assert (a + b)[j] == b[j - |a|]; }
    }
  }

  lemma HeaderLine0()
    ensures NoLineBreak(HeaderText[0])
  {
    assert NoLineBreak("# The order of packages is ");
    assert NoLineBreak("significant, because pip ");
    assert NoLineBreak("processes them in the order");
    NoLineBreakConcat("# The order of packages is ", "significant, because pip ");
    NoLineBreakConcat("# The order of packages is " + "significant, because pip ", "processes them in the order");
  }

  lemma HeaderLine1()
    ensures NoLineBreak(HeaderText[1])
  {
    assert NoLineBreak("# of appearance. Changing ");
    assert NoLineBreak("the order has an impact on ");
    assert NoLineBreak("the overall integration");
    NoLineBreakConcat("# of appearance. Changing ", "the order has an impact on ");
    NoLineBreakConcat("# of appearance. Changing " + "the order has an impact on ", "the overall integration");
  }

  lemma HeaderLine2()
    ensures NoLineBreak(HeaderText[2])
  {
    assert NoLineBreak("# process, which may cause ");
    assert NoLineBreak("wedges in the gate later.");
    NoLineBreakConcat("# process, which may cause ", "wedges in the gate later.");
  }

  lemma HeaderSingleLines()
    ensures forall k :: 0 <= k < 3 ==> NoLineBreak(HeaderText[k])
  {
    HeaderLine0();
    HeaderLine1();
    HeaderLine2();
  }

  lemma RenderBodySingleLine(q: Requirement, markerSep: string, linePrefix: string)
    requires SingleLine(q, markerSep, linePrefix)
    ensures NoLineBreak(RenderBody(q, markerSep, linePrefix))
  {
    var commentP := if q.package != "" then " " else "";
    var package := if q.package != "" then linePrefix + q.package else "";
    var marker := if q.markers != "" then markerSep + q.markers else "";
    var comment := if q.comment != "" then commentP + q.comment else "";
    NoLineBreakConcat(linePrefix, q.package);
    NoLineBreakConcat(markerSep, q.markers);
    NoLineBreakConcat(commentP, q.comment);
    NoLineBreakConcat(package, q.specifiers);
    NoLineBreakConcat(package + q.specifiers, marker);
    NoLineBreakConcat(package + q.specifiers + marker, comment);
  }

  /**
   * The text `to_content` writes reads back, line by line, as the header
   * lines followed by exactly one line per record, in order.
   */
  lemma ContentLinesRead(reqs: seq<Requirement>, markerSep: string, linePrefix: string, prefix: bool)
    requires forall k :: 0 <= k < |reqs| ==> SingleLine(reqs[k], markerSep, linePrefix)
    ensures SplitLines(Concat(ContentLines(reqs, markerSep, linePrefix, prefix))) == ContentLines(reqs, markerSep, linePrefix, prefix)
    ensures |ContentLines(reqs, markerSep, linePrefix, prefix)| == (if prefix then 3 else 0) + |reqs|
  {
    var ls := ContentLines(reqs, markerSep, linePrefix, prefix);
    var h := if prefix then 3 else 0;
    forall k | 0 <= k < |ls|
      ensures ls[k] != [] && ls[k][|ls[k]| - 1] == '\n' && NoLineBreak(ls[k][..|ls[k]| - 1])
    {
      if k < h {
        HeaderSingleLines();
        assert ls[k] == HeaderText[k] + "\n";
        assert ls[k][..|ls[k]| - 1] == HeaderText[k];
      } else {
        var q := reqs[k - h];
        RenderBodySingleLine(q, markerSep, linePrefix);
        assert ls[k] == RenderBody(q, markerSep, linePrefix) + "\n";
        assert ls[k][..|ls[k]| - 1] == RenderBody(q, markerSep, linePrefix);
      }
    }
    SplitLinesOfTerminated(ls);
  }

  /**
   * A record `to_line` can write back unchanged: no field holds a character
   * the parser splits at, the markers are already stripped, a comment starts
   * with `#`, a blank package carries nothing but markers and comment, and
   * the package text parses back to the same name and specifiers with or
   * without the space written before a comment.
   */
  predicate Writable(lib: Lib, q: Requirement) {
    && q.location == "" && q.extras == {}
    && FreeOf(q.package, {'#', ';', ':'}) && FreeOf(q.specifiers, {'#', ';', ':'})
    && FreeOf(q.markers, {'#', ':'})
    && (q.markers == "" || (!IsSpace(q.markers[0]) && !IsSpace(q.markers[|q.markers| - 1])))
    && (q.comment == "" || q.comment[0] == '#')
    && (q.package == "" ==> q.specifiers == "")
    && (q.package != "" ==>
          Reparses(lib, q.package + q.specifiers, q.package, q.specifiers)
          && Reparses(lib, q.package + q.specifiers + " ", q.package, q.specifiers))
  }

  lemma StripPadded(x: string, pad: string)
    requires x != [] && !IsSpace(x[0]) && !IsSpace(x[|x| - 1])
    requires forall j :: 0 <= j < |pad| ==> IsSpace(pad[j])
    ensures Strip(x + pad) == x
  {
    RStripPadded(x, pad);
  }

  lemma {:induction false} RStripPadded(x: string, pad: string)
    requires x != [] && !IsSpace(x[|x| - 1])
    requires forall j :: 0 <= j < |pad| ==> IsSpace(pad[j])
    ensures RStrip(x + pad) == x
    decreases |pad|
  {
    if pad != [] {
      assert (x + pad)[..|x + pad| - 1] == x + pad[..|pad| - 1];
      RStripPadded(x, pad[..|pad| - 1]);
    } else {
      assert x + pad == x;
    }
  }

  function MarkerPart(q: Requirement): string {
    if q.markers != "" then ";" + q.markers else ""
  }

  function CommentPad(q: Requirement): string {
    if q.comment != "" && q.package != "" then " " else ""
  }

  /** The text `to_line` writes before the comment. */
  function CommentFreePart(q: Requirement): string {
    q.package + q.specifiers + MarkerPart(q) + CommentPad(q)
  }

  predicate FreeOf(s: string, cs: set<char>) {
    forall j :: 0 <= j < |s| ==> s[j] !in cs
  }

  lemma FreeOfNoChar(s: string, cs: set<char>, c: char)
    requires FreeOf(s, cs) && c in cs
    ensures NoChar(s, c)
  {
  }

  /** Before the comment, `to_line` writes no `#` and no `:`, and its only `;` is the marker separator. */
  lemma CommentFreePartChars(q: Requirement)
    requires FreeOf(q.package, {'#', ';', ':'}) && FreeOf(q.specifiers, {'#', ';', ':'})
    requires FreeOf(q.markers, {'#', ':'})
    ensures NoChar(CommentFreePart(q), '#') && NoChar(CommentFreePart(q), ':')
    ensures q.markers == "" ==> NoChar(CommentFreePart(q), ';')
    ensures q.markers != "" ==> NoChar(q.package + q.specifiers, ';')
  {
    var head := q.package + q.specifiers;
    var p := CommentFreePart(q);
    assert NoChar(CommentPad(q), '#') && NoChar(CommentPad(q), ':') && NoChar(CommentPad(q), ';');
    forall c | c in {'#', ';', ':'} ensures NoChar(head, c) {
      FreeOfNoChar(q.package, {'#', ';', ':'}, c);
      FreeOfNoChar(q.specifiers, {'#', ';', ':'}, c);
      NoCharConcat(q.package, q.specifiers, c);
    }
    forall c | c in {'#', ':'} ensures NoChar(p, c) {
      FreeOfNoChar(q.markers, {'#', ':'}, c);
      NoCharConcat(";", q.markers, c);
      NoCharConcat(head, MarkerPart(q), c);
      NoCharConcat(head + MarkerPart(q), CommentPad(q), c);
    }
    if q.markers == "" {
      assert p == head + CommentPad(q);
      NoCharConcat(head, CommentPad(q), ';');
    }
  }

  /** `to_line` writes the comment-free part, then the comment. */
  lemma ToLineShape(q: Requirement)
    ensures RenderBody(q, ";", "") == CommentFreePart(q) + q.comment
  {
    var x := q.package + q.specifiers + MarkerPart(q);
    var tail := if q.comment != "" then CommentPad(q) + q.comment else "";
    assert RenderBody(q, ";", "") == x + tail;
    if q.comment != "" {
      assert x + (CommentPad(q) + q.comment) == (x + CommentPad(q)) + q.comment;
    } else {
      assert x + tail == x + CommentPad(q) + q.comment;
    }
  }

  lemma HashPosAfter(p: string, c: string)
    requires NoChar(p, '#') && (c == [] || c[0] == '#')
    ensures HashPos(p + c) == |p|
  {
    FindCharAfter(p, c, '#');
  }

  lemma MarkerPosAt(line: string, h: nat, i: nat)
    requires i < h <= |line| && NoChar(line[..i], ';') && line[i] == ';' && NoChar(line[..h], ':')
    ensures MarkerPos(line, h) == i
  {
    FindCharFirst(line, ';', h, i);
    FindCharNone(line, ':', h);
  }

  lemma MarkerPosNone(line: string, h: nat)
    requires h <= |line| && NoChar(line[..h], ';') && NoChar(line[..h], ':')
    ensures MarkerPos(line, h) == h
  {
    FindCharNone(line, ';', h);
    FindCharNone(line, ':', h);
  }

  /** The record `SplitAt` builds, given what lies before `m`, between `m` and `h`, and after `h`. */
  lemma SplitAtValue(lib: Lib, line: string, h: nat, m: nat, q: Requirement)
    requires m <= h <= |line|
    requires q.location == "" && q.extras == {} && line[h..] == q.comment
    requires m < h ==> Strip(line[m + 1..h]) == q.markers
    requires m == h ==> q.markers == ""
    requires q.package == "" ==> q.specifiers == "" && m == 0
    requires q.package != "" ==> m > 0 && Reparses(lib, line[..m], q.package, q.specifiers)
    ensures SplitAt(lib, line, h, m) == Success(q)
  {
    assert m == 0 ==> line[..m] == [];
    var markers := if m < h then Strip(line[m + 1..h]) else "";
    assert markers == q.markers;
    var comment := if h != |line| then line[h..] else "";
    assert comment == q.comment;
    var reqText := line[..m];
    if q.package == "" {
      assert reqText == [];
      assert SplitAt(lib, line, h, m) == Success(Requirement("", "", "", markers, comment, {}));
    } else {
      assert lib.parse(reqText).Some?;
      var parsed := lib.parse(reqText).value;
      assert SplitAt(lib, line, h, m) == Success(Requirement(parsed.name, "", parsed.specifier, markers, comment, {}));
    }
  }

  lemma NoColonNoUrl(s: string)
    requires NoChar(s, ':')
    ensures !Contains(s, "://")
  {
    if Contains(s, "://") {
      ContainsHasChar(s, "://", 0);
      assert false;
    }
  }

  lemma MarkerSlices(q: Requirement)
    requires q.markers != ""
    ensures var head := q.package + q.specifiers;
      CommentFreePart(q)[..|head|] == head && CommentFreePart(q)[|head|] == ';'
      && CommentFreePart(q)[|head| + 1..] == q.markers + CommentPad(q)
  {
    var head := q.package + q.specifiers;
    assert CommentFreePart(q) == head + (";" + q.markers) + CommentPad(q);
  }

  lemma PrefixSlices(s: string, p: string, a: nat)
    requires |p| <= |s| && s[..|p|] == p && a <= |p|
    ensures s[..a] == p[..a] && s[a..|p|] == p[a..]
    ensures a < |p| ==> s[a] == p[a]
  {
  }

  /**
   * Round trip of the codec: parsing the line `to_line` writes for a
   * writable record gives the record back.
   */
  lemma ParseToLine(lib: Lib, q: Requirement)
    requires Writable(lib, q)
    ensures ParseLine(lib, RenderBody(q, ";", "")) == Success(q)
  {
    ToLineShape(q);
    ParseWritten(lib, q);
  }

  lemma ParseWritten(lib: Lib, q: Requirement)
    requires Writable(lib, q)
    ensures ParseLine(lib, CommentFreePart(q) + q.comment) == Success(q)
  {
    if q.markers != "" {
      ParseWrittenWithMarkers(lib, q);
    } else {
      ParseWrittenWithoutMarkers(lib, q);
    }
  }

  lemma ParseWrittenWithMarkers(lib: Lib, q: Requirement)
    requires Writable(lib, q) && q.markers != ""
    ensures ParseLine(lib, CommentFreePart(q) + q.comment) == Success(q)
  {
    var line := CommentFreePart(q) + q.comment;
    var h := |CommentFreePart(q)|;
    var m := |q.package + q.specifiers|;
    MarkedLine(lib, q, line, h, m);
    NoColonNoUrl(line[..h]);
    assert ParseLine(lib, line) == SplitAt(lib, line, h, m);
    assert q.package != "" ==> m > 0 && Reparses(lib, line[..m], q.package, q.specifiers);
    SplitAtValue(lib, line, h, m, q);
  }

  /** Where the comment and the markers of a written line with markers start. */
  lemma MarkedLine(lib: Lib, q: Requirement, line: string, h: nat, m: nat)
    requires Writable(lib, q) && q.markers != ""
    requires line == CommentFreePart(q) + q.comment && h == |CommentFreePart(q)| && m == |q.package + q.specifiers|
    ensures m < h <= |line| && HashPos(line) == h && NoChar(line[..h], ':')
    ensures line[..m] == q.package + q.specifiers && line[h..] == q.comment
    ensures MarkerPos(line, h) == m && Strip(line[m + 1..h]) == q.markers
  {
    var p := CommentFreePart(q);
    var head := q.package + q.specifiers;
    var pad := CommentPad(q);
    CommentFreePartChars(q);
    HashPosAfter(p, q.comment);
    assert line[..h] == p && line[h..] == q.comment;
    MarkerSlices(q);
    PrefixSlices(line, p, m);
    PrefixSlices(line, p, m + 1);
    assert NoChar(line[..m], ';');
    MarkerPosAt(line, h, m);
    assert line[m + 1..h] == q.markers + pad;
    StripPadded(q.markers, pad);
  }

  lemma ParseWrittenWithoutMarkers(lib: Lib, q: Requirement)
    requires Writable(lib, q) && q.markers == ""
    ensures ParseLine(lib, CommentFreePart(q) + q.comment) == Success(q)
  {
    var p := CommentFreePart(q);
    var line := p + q.comment;
    var head := q.package + q.specifiers;
    var pad := CommentPad(q);
    CommentFreePartChars(q);
    HashPosAfter(p, q.comment);
    var h := HashPos(line);
    assert line[..h] == p && line[h..] == q.comment;
    NoColonNoUrl(p);
    MarkerPosNone(line, h);
    assert !Contains(line[..h], "://");
    assert ParseLine(lib, line) == SplitAt(lib, line, h, h);
    assert p == head + pad;
    assert q.package != "" ==> h > 0 && Reparses(lib, line[..h], q.package, q.specifiers);
    assert q.package == "" ==> q.specifiers == "" && h == 0;
    SplitAtValue(lib, line, h, h, q);
  }
}
