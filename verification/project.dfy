/**
 * The pure part of openstack_requirements/project.py: the actions a
 * synchronisation produces, the grammar that cuts a setup.cfg into the
 * text before its `[extras]` section, the section's items and the text
 * after it, and the merge that rewrites the named extras.
 *
 * The grammar is a parsing expression grammar: choices are ordered,
 * repetitions are greedy and never give back what they matched, and the
 * start rule must consume the whole input.  Each rule is modelled as a
 * function of the remaining text that returns what it matched and how many
 * characters it consumed.
 */
module Project {
  import opened Wrappers
  import opened Text
  import opened Requirement

  /** What a synchronisation asks the writer to do. */
  datatype Action =
    | Error(message: string)
    | File(filename: string, content: string)
    | StdOut(message: string)
    | Verbose(message: string)

  /** One item of the extras section: a comment line, or a named extra with its value text. */
  datatype Item = Comment(line: string) | Extra(name: string, content: string)

  /** The three parts the start rule yields; `extras` is `None` when there is no section. */
  datatype Ini = Ini(prefix: string, extras: Option<seq<Item>>, suffix: string)

  /** `~extras` fails exactly where the text opens an extras section: the header and a newline. */
  predicate HeaderAt(t: string) {
    StartsWith(t, "[extras]\n")
  }

  /** The length of the first line of `t`, newline included, if `t` holds a newline. */
  function LineLen(t: string): (r: Option<nat>)
    ensures r.Some? ==> 0 < r.value <= |t|
    decreases |t|
  {
    if t == [] then None
    else if t[0] == '\n' then Some(1)
    else
      match LineLen(t[1..])
      case None => None
      case Some(n) => Some(n + 1)
  }

  /** The first line ends at the first newline; there is none exactly when the text holds no newline. */
  lemma {:induction false} LineLenSpec(t: string)
    ensures LineLen(t).Some? ==> t[LineLen(t).value - 1] == '\n' && NoChar(t[..LineLen(t).value - 1], '\n')
    ensures LineLen(t).None? <==> NoChar(t, '\n')
    decreases |t|
  {
    if t != [] && t[0] != '\n' {
      LineLenSpec(t[1..]);
      if LineLen(t).Some? {
        var n := LineLen(t).value;
        assert t[1..][..n - 2] == t[1..n - 1];
        assert forall j :: 1 <= j < n - 1 ==> t[j] == t[1..][j - 1];
      } else {
        assert forall j :: 1 <= j < |t| ==> t[j] == t[1..][j - 1];
      }
    }
  }

  /** `line*`: complete lines, none of which opens an extras section. */
  function LinesLen(t: string): (n: nat)
    ensures n <= |t|
    decreases |t|
  {
    if !HeaderAt(t) && LineLen(t).Some? then
      var m := LineLen(t).value;
      m + LinesLen(t[m..])
    else 0
  }

  /** `c*`: the length of the run of `c` that opens `t` (`'\n'*` and `' '*` in the grammar). */
  function RunLen(c: char, t: string): (n: nat)
    ensures n <= |t|
  {
    if t != [] && t[0] == c then 1 + RunLen(c, t[1..]) else 0
  }

  /** A character `name` accepts: anything but a newline, a space, a tab or `=`. */
  predicate NameChar(c: char) {
    c != '\n' && c != ' ' && c != '\t' && c != '='
  }

  /** The characters of `name`, from the start (`name` needs at least one). */
  function NameLen(t: string): (n: nat)
    ensures n <= |t|
  {
    if t != [] && NameChar(t[0]) then 1 + NameLen(t[1..]) else 0
  }

  /** `cont`: the spaces and the line of one continuation line, if `t` starts with one. */
  function ContLen(t: string): (r: Option<(nat, nat)>)
    ensures r.Some? ==> 0 < r.value.0 < r.value.1 <= |t|
  {
    var sp := RunLen(' ', t);
    if sp > 0 && LineLen(t[sp..]).Some? then Some((sp, sp + LineLen(t[sp..]).value)) else None
  }

  /** `cont*`: lines indented by at least one space; each yields its text after the spaces. */
  function Conts(t: string): (r: (seq<string>, nat))
    ensures r.1 <= |t|
    decreases |t|
  {
    match ContLen(t)
    case None => ([], 0)
    case Some((sp, m)) =>
      var rest := Conts(t[m..]);
      ([t[sp..m]] + rest.0, m + rest.1)
  }

  /** `comment`: a line starting with `#`, then any blank lines. */
  function CommentItem(t: string): (r: Option<(Item, nat)>)
    ensures r.Some? ==> 0 < r.value.1 <= |t|
  {
    if t != [] && t[0] == '#' && LineLen(t).Some? then
      var m := LineLen(t).value;
      Some((Comment(t[..m]), m + RunLen('\n', t[m..])))
    else None
  }

  /**
   * `extra`: a name, spaces, `=`, the rest of that line (which must not
   * open an extras section), continuation lines, then any blank lines.
   */
  function ExtraItem(t: string): (r: Option<(Item, nat)>)
    ensures r.Some? ==> 0 < r.value.1 <= |t|
  {
    ExtraItemWith(t, Conts)
  }

  /** A rule for `cont*` consumes no more than the text it is given. */
  ghost predicate ContsBounded(conts: string -> (seq<string>, nat)) {
    forall s :: conts(s).1 <= |s|
  }

  /** `extra`, for a given rule `cont*`. */
  function ExtraItemWith(t: string, conts: string -> (seq<string>, nat)): (r: Option<(Item, nat)>)
    requires ContsBounded(conts)
    ensures r.Some? ==> 0 < r.value.1 <= |t|
  {
    match ExtraHead(t)
    case None => None
    case Some((n, a, l)) =>
      var c := conts(t[l..]);
      var e := l + c.1;
      Some((Extra(t[..n], Concat([t[a..l]] + c.0)), e + RunLen('\n', t[e..])))
  }

  /**
   * The start of an `extra`: the name ends at `n`, and the rest of the line
   * after `=` runs from `a` to `l`.
   */
  function ExtraHead(t: string): (r: Option<(nat, nat, nat)>)
    ensures r.Some? ==> 0 < r.value.0 < r.value.1 < r.value.2 <= |t|
  {
    var n := NameLen(t);
    var p := n + RunLen(' ', t[n..]);
    if n > 0 && p < |t| && t[p] == '=' && !HeaderAt(t[p + 1..]) && LineLen(t[p + 1..]).Some? then
      Some((n, p + 1, p + 1 + LineLen(t[p + 1..]).value))
    else None
  }

  /** A complete line: it ends with its only newline. */
  predicate IsLine(l: string) {
    l != [] && l[|l| - 1] == '\n' && NoChar(l[..|l| - 1], '\n')
  }

  lemma {:induction false} LineLenOfLine(l: string, rest: string)
    requires IsLine(l)
    ensures LineLen(l + rest) == Some(|l|)
    decreases |l|
  {
    var t := l + rest;
    if |l| == 1 {
      assert t[0] == '\n';
    } else {
      assert l[0] != '\n';
      assert t[1..] == l[1..] + rest;
      assert l[1..][..|l| - 2] == l[1..|l| - 1];
      LineLenOfLine(l[1..], rest);
    }
  }

  /** A line that is not the header does not open a section, whatever follows it. */
  lemma HeaderNotAfterLine(l: string, rest: string)
    requires IsLine(l) && !HeaderAt(l)
    ensures !HeaderAt(l + rest)
  {
    if |l| >= 9 {
      assert (l + rest)[..9] == l[..9];
    } else {
      assert forall i :: 0 <= i < 8 ==> "[extras]\n"[i] != '\n';
      assert (l + rest)[|l| - 1] == '\n';
    }
  }

  lemma SpacesLenNone(t: string)
    requires t == [] || t[0] != ' '
    ensures RunLen(' ', t) == 0
  {
  }

  lemma SpacesLenOne(t: string)
    requires |t| >= 2 && t[0] == ' ' && t[1] != ' '
    ensures RunLen(' ', t) == 1
  {
    assert t[1..][0] != ' ';
    SpacesLenNone(t[1..]);
  }

  /** Continuation lines as written: each indented by one space. */
  function Indented(cs: seq<string>): string {
    if cs == [] then "" else " " + cs[0] + Indented(cs[1..])
  }

  /** Lines a single-space indent can carry: complete and not themselves starting with a space. */
  predicate ContLines(cs: seq<string>) {
    forall k :: 0 <= k < |cs| ==> IsLine(cs[k]) && cs[k][0] != ' '
  }

  lemma ContsStep(t: string, sp: nat, m: nat)
    requires ContLen(t) == Some((sp, m))
    ensures Conts(t).0 == [t[sp..m]] + Conts(t[m..]).0
    ensures Conts(t).1 == m + Conts(t[m..]).1
  {
  }

  /** One indented line: `cont` takes one space and the line. */
  lemma IndentedHead(c: string, u: string)
    requires IsLine(c) && c[0] != ' '
    ensures ContLen(" " + c + u) == Some((1, 1 + |c|))
    ensures (" " + c + u)[1..1 + |c|] == c && (" " + c + u)[1 + |c|..] == u
  {
    var t := " " + c + u;
    assert t[1] == c[0];
    SpacesLenOne(t);
    assert t[1..] == c + u;
    LineLenOfLine(c, u);
  }

  /** `cont*` reads indented lines back as the lines without their indent. */
  lemma {:induction false} ContsOfIndented(cs: seq<string>, rest: string, t: string)
    requires ContLines(cs)
    requires rest == [] || rest[0] != ' '
    requires t == Indented(cs) + rest
    ensures Conts(t).0 == cs && Conts(t).1 == |Indented(cs)|
    decreases |cs|
  {
    if cs == [] {
      assert t == rest;
      SpacesLenNone(t);
      assert ContLen(t).None?;
    } else {
      var c, i1 := cs[0], Indented(cs[1..]);
      var u := i1 + rest;
      assert t == " " + c + u by {
        assert Indented(cs) == " " + c + i1;
      }
      assert ContLen(t) == Some((1, 1 + |c|)) && t[1 + |c|..] == u && t[1..1 + |c|] == c by {
        IndentedHead(c, u);
      }
      assert Conts(u).0 == cs[1..] && Conts(u).1 == |i1| by {
        ContsOfIndented(cs[1..], rest, u);
      }
      ContsStep(t, 1, 1 + |c|);
      assert [c] + cs[1..] == cs;
    }
  }

  /** Written names: non-empty, with no newline, space, tab or `=`. */
  predicate IsName(n: string) {
    n != [] && forall j :: 0 <= j < |n| ==> NameChar(n[j])
  }

  lemma {:induction false} NameLenOf(n: string, rest: string)
    requires IsName(n) && rest != [] && rest[0] == ' '
    ensures NameLen(n + rest) == |n|
    decreases |n|
  {
    var t := n + rest;
    if |n| == 1 {
      assert t[1..] == rest;
      assert NameLen(t[1..]) == 0;
    } else {
      assert t[1..] == n[1..] + rest;
      NameLenOf(n[1..], rest);
    }
  }

  /**
   * An extra written as `name =`, a first line and continuation lines is
   * read back as one extra named `name` whose value joins the first line
   * and what `cont*` reads from the continuation lines; blank lines after
   * it belong to it.  With ContsOfIndented, one-space-indented lines come
   * back without their indent.
   */
  lemma ExtraItemParts(t: string, name: string, line: string, cs: seq<string>, k: nat, rest: string)
    requires IsName(name) && IsLine(line) && !HeaderAt(line)
    requires |name| + 2 + |line| <= |t|
    requires t[..|name|] == name && t[|name|..|name| + 2] == " =" && t[|name| + 2..|name| + 2 + |line|] == line
    requires Conts(t[|name| + 2 + |line|..]).0 == cs && Conts(t[|name| + 2 + |line|..]).1 == k
    requires t[|name| + 2 + |line| + k..] == rest
    ensures ExtraItem(t).Some? && ExtraItem(t).value.0.Extra?
    ensures ExtraItem(t).value.0.name == name && ExtraItem(t).value.0.content == line + Concat(cs)
    ensures ExtraItem(t).value.1 == |t| - |rest| + RunLen('\n', rest)
  {
    ExtraHeadOfRendered(t, name, line);
    ExtraItemFinal(t, |name|, |name| + 2, |name| + 2 + |line|, name, line, cs, k, rest);
  }

  lemma ConcatCons(l: string, cs: seq<string>)
    ensures Concat([l] + cs) == l + Concat(cs)
  {
    assert ([l] + cs)[1..] == cs;
  }

  /** `extra` once its head, its continuation lines and what follows them are known. */
  lemma ExtraItemFinal(t: string, n: nat, a: nat, l: nat, name: string, line: string, cs: seq<string>, k: nat, rest: string)
    requires ExtraHead(t) == Some((n, a, l)) && t[..n] == name && t[a..l] == line
    requires Conts(t[l..]).0 == cs && Conts(t[l..]).1 == k && t[l + k..] == rest
    ensures ExtraItem(t).Some? && ExtraItem(t).value.0.Extra?
    ensures ExtraItem(t).value.0.name == name && ExtraItem(t).value.0.content == line + Concat(cs)
    ensures ExtraItem(t).value.1 == l + k + RunLen('\n', rest)
  {
    ExtraItemFinalWith(t, Conts, n, a, l, cs, k, rest);
    ConcatCons(line, cs);
  }

  lemma ExtraItemFinalWith(t: string, conts: string -> (seq<string>, nat), n: nat, a: nat, l: nat, cs: seq<string>, k: nat, rest: string)
    requires ContsBounded(conts)
    requires ExtraHead(t) == Some((n, a, l)) && conts(t[l..]).0 == cs && conts(t[l..]).1 == k && t[l + k..] == rest
    ensures ExtraItemWith(t, conts).Some? && ExtraItemWith(t, conts).value.0.Extra?
    ensures ExtraItemWith(t, conts).value.0.name == t[..n] && ExtraItemWith(t, conts).value.0.content == Concat([t[a..l]] + cs)
    ensures ExtraItemWith(t, conts).value.1 == l + k + RunLen('\n', rest)
  {
  }

  lemma ExtraHeadOfRendered(t: string, n: string, l: string)
    requires IsName(n) && IsLine(l) && !HeaderAt(l)
    requires |n| + 2 + |l| <= |t|
    requires t[..|n|] == n && t[|n|..|n| + 2] == " =" && t[|n| + 2..|n| + 2 + |l|] == l
    ensures ExtraHead(t) == Some((|n|, |n| + 2, |n| + 2 + |l|))
  {
    var u := t[|n| + 2 + |l|..];
    assert t == n + (" =" + (l + u));
    NameLenOf(n, " =" + (l + u));
    assert t[|n|..] == " =" + (l + u);
    SpacesLenOne(t[|n|..]);
    assert t[|n| + 2..] == l + u;
    HeaderNotAfterLine(l, u);
    LineLenOfLine(l, u);
  }

  /** A comment line is read back as itself; blank lines after it belong to it. */
  lemma CommentItemOfLine(l: string, rest: string)
    requires IsLine(l) && l[0] == '#'
    ensures CommentItem(l + rest).Some?
    ensures CommentItem(l + rest).value.0 == Comment(l)
    ensures CommentItem(l + rest).value.1 == |l| + RunLen('\n', rest)
  {
    LineLenOfLine(l, rest);
    assert (l + rest)[..|l|] == l;
    assert (l + rest)[|l|..] == rest;
  }

  /** `body = comment | extra` */
  function BodyItem(t: string): (r: Option<(Item, nat)>)
    ensures r.Some? ==> 0 < r.value.1 <= |t|
  {
    if CommentItem(t).Some? then CommentItem(t) else ExtraItem(t)
  }

  /** `body*` */
  function Body(t: string): (r: (seq<Item>, nat))
    ensures r.1 <= |t|
  {
    BodyWith(t, BodyItem)
  }

  /** An item rule that matches consumes at least one character and no more than it is given. */
  ghost predicate ItemBounded(item: string -> Option<(Item, nat)>) {
    forall s :: item(s).Some? ==> 0 < item(s).value.1 <= |s|
  }

  /** `body*`, for a given rule `body`. */
  function BodyWith(t: string, item: string -> Option<(Item, nat)>): (r: (seq<Item>, nat))
    requires ItemBounded(item)
    ensures r.1 <= |t|
    decreases |t|
  {
    var i := item(t);
    if i.Some? then
      var m := i.value.1;
      var rest := BodyWith(t[m..], item);
      ([i.value.0] + rest.0, m + rest.1)
    else ([], 0)
  }

  /** `extras`: the header, one or more newlines, the body. */
  function Section(t: string): (r: (seq<Item>, nat))
    ensures r.1 <= |t|
  {
    if HeaderAt(t) then
      var h := 8 + RunLen('\n', t[8..]);
      var b := Body(t[h..]);
      (b.0, h + b.1)
    else ([], 0)
  }

  /**
   * `line* final` followed by the end of the input: `final` is the text up
   * to the next newline, so the input ends there exactly when what `line*`
   * leaves holds no newline.
   */
  predicate ReachesEnd(t: string)
    decreases |t|
  {
    if !HeaderAt(t) && LineLen(t).Some? then ReachesEnd(t[LineLen(t).value..])
    else NoChar(t, '\n')
  }

  /** The start rule `ini = line* extras? line* final`, which must consume the whole input. */
  function ParseIni(s: string): Result<Ini>
  {
    IniWith(s, Section)
  }

  /** A section rule consumes no more than the text it is given. */
  ghost predicate Consumes(section: string -> (seq<Item>, nat)) {
    forall t :: section(t).1 <= |t|
  }

  /** The start rule, for a given rule `extras`. */
  function IniWith(s: string, section: string -> (seq<Item>, nat)): Result<Ini>
    requires Consumes(section)
  {
    var j := LinesLen(s);
    if HeaderAt(s[j..]) then
      var sec := section(s[j..]);
      Finish(s, j, Some(sec.0), j + sec.1)
    else Finish(s, j, None, j)
  }

  /** The parts, once the prefix ends at `j` and the section (if any) at `k`. */
  function Finish(s: string, j: nat, e: Option<seq<Item>>, k: nat): Result<Ini>
    requires j <= k <= |s|
  {
    if ReachesEnd(s[k..]) then Success(Ini(s[..j], e, s[k..]))
    else Failure("ParseError: expected EOF")
  }

  /** No line of `t` opens an extras section. */
  predicate NoHeaderLine(t: string) {
    !HeaderAt(t) && forall i :: 0 <= i < |t| && t[i] == '\n' ==> !HeaderAt(t[i + 1..])
  }

  lemma HeaderHasNewline(t: string)
    requires HeaderAt(t)
    ensures LineLen(t).Some?
  {
    assert t[8] == "[extras]\n"[8];
    LineLenSpec(t);
  }

  /** Splitting off the first line keeps the line starts of the rest. */
  lemma NoHeaderLineCons(t: string, m: nat)
    requires 0 < m <= |t| && t[m - 1] == '\n' && NoChar(t[..m - 1], '\n')
    ensures NoHeaderLine(t) <==> !HeaderAt(t) && NoHeaderLine(t[m..])
  {
    var r := t[m..];
    assert forall j :: 0 <= j < m - 1 ==> t[j] == t[..m - 1][j];
    if !HeaderAt(t) && NoHeaderLine(r) {
      forall i | 0 <= i < |t| && t[i] == '\n'
        ensures !HeaderAt(t[i + 1..])
      {
        if i >= m {
          assert r[i - m] == t[i];
          assert r[i - m + 1..] == t[i + 1..];
        }
      }
    }
    if NoHeaderLine(t) {
      forall i | 0 <= i < |r| && r[i] == '\n'
        ensures !HeaderAt(r[i + 1..])
      {
        assert t[m + i] == r[i];
        assert t[m + i + 1..] == r[i + 1..];
      }
    }
  }

  /**
   * `line*` consumes everything but an unterminated last line exactly when
   * no line of the text opens an extras section.
   */
  lemma {:induction false} LinesReachEnd(t: string)
    ensures ReachesEnd(t) <==> NoHeaderLine(t)
    decreases |t|
  {
    if !HeaderAt(t) && LineLen(t).Some? {
      var m := LineLen(t).value;
      LinesReachEnd(t[m..]);
      LineLenSpec(t);
      NoHeaderLineCons(t, m);
    } else {
      if HeaderAt(t) {
        HeaderHasNewline(t);
      }
      LineLenSpec(t);
    }
  }

  /** `line*` stops at a line that opens a section, or where no newline is left. */
  lemma {:induction false} LinesRest(t: string)
    ensures ReachesEnd(t) <==> LineLen(t[LinesLen(t)..]).None?
    decreases |t|
  {
    if !HeaderAt(t) && LineLen(t).Some? {
      var m := LineLen(t).value;
      LinesRest(t[m..]);
      assert t[m..][LinesLen(t[m..])..] == t[LinesLen(t)..];
    } else {
      assert t[LinesLen(t)..] == t;
      LineLenSpec(t);
      if HeaderAt(t) {
        HeaderHasNewline(t);
      }
    }
  }

  /**
   * Without an extras section the text splits into its complete lines and
   * an unterminated last line, and nothing else is returned.
   */
  lemma NoSection(s: string)
    requires NoHeaderLine(s)
    ensures ParseIni(s).Success?
    ensures ParseIni(s).value.prefix == s[..LinesLen(s)] && ParseIni(s).value.extras.None?
    ensures ParseIni(s).value.suffix == s[LinesLen(s)..] && NoChar(s[LinesLen(s)..], '\n')
  {
    NoSectionWith(s, Section);
  }

  lemma NoSectionWith(s: string, section: string -> (seq<Item>, nat))
    requires Consumes(section) && NoHeaderLine(s)
    ensures IniWith(s, section).Success?
    ensures IniWith(s, section).value.prefix == s[..LinesLen(s)] && IniWith(s, section).value.extras.None?
    ensures IniWith(s, section).value.suffix == s[LinesLen(s)..] && NoChar(s[LinesLen(s)..], '\n')
  {
    LinesReachEnd(s);
    LinesRest(s);
    var j := LinesLen(s);
    if HeaderAt(s[j..]) {
      HeaderHasNewline(s[j..]);
    }
    LineLenSpec(s[j..]);
  }

  /** Where the section that starts after the prefix lines ends. */
  function SectionEnd(s: string): (k: nat)
    ensures LinesLen(s) <= k <= |s|
  {
    LinesLen(s) + Section(s[LinesLen(s)..]).1
  }

  /**
   * With a section, parsing succeeds exactly when no later line opens a
   * second one; the prefix and suffix are the text before the section and
   * after its items.
   */
  lemma OneSection(s: string)
    requires HeaderAt(s[LinesLen(s)..])
    ensures ParseIni(s).Success? <==> NoHeaderLine(s[SectionEnd(s)..])
    ensures ParseIni(s).Success? ==>
      && ParseIni(s).value.prefix == s[..LinesLen(s)]
      && ParseIni(s).value.extras == Some(Section(s[LinesLen(s)..]).0)
      && ParseIni(s).value.suffix == s[SectionEnd(s)..]
  {
    OneSectionWith(s, Section, SectionEnd(s));
  }

  lemma OneSectionWith(s: string, section: string -> (seq<Item>, nat), k: nat)
    requires Consumes(section) && HeaderAt(s[LinesLen(s)..])
    requires k == LinesLen(s) + section(s[LinesLen(s)..]).1
    ensures IniWith(s, section).Success? <==> NoHeaderLine(s[k..])
    ensures IniWith(s, section).Success? ==>
      && IniWith(s, section).value.prefix == s[..LinesLen(s)]
      && IniWith(s, section).value.extras == Some(section(s[LinesLen(s)..]).0)
      && IniWith(s, section).value.suffix == s[k..]
  {
    LinesReachEnd(s[k..]);
  }

  /** A second extras section, opened on any line after the first section's items, is an error. */
  lemma SecondSectionFails(s: string, i: nat)
    requires HeaderAt(s[LinesLen(s)..])
    requires SectionEnd(s) <= i + 1 && i < |s| && s[i] == '\n' && HeaderAt(s[i + 1..])
    ensures ParseIni(s).Failure?
  {
    OneSection(s);
    HeaderLineAfter(s, SectionEnd(s), i);
  }

  lemma HeaderLineAfter(s: string, k: nat, i: nat)
    requires k <= i + 1 && i < |s| && s[i] == '\n' && HeaderAt(s[i + 1..])
    ensures !NoHeaderLine(s[k..])
  {
    var t := s[k..];
    if i + 1 == k {
      assert t == s[i + 1..];
    } else {
      assert t[i - k] == '\n';
      assert t[i - k + 1..] == s[i + 1..];
    }
  }

  /** The value `merge_setup_cfg` writes for a named extra: its records, two-space indented, `:` before markers. */
  function ExtraValue(reqs: seq<Requirement>): string {
    Concat(ContentLines(reqs, ":", "  ", false))
  }

  /** One item after the merge: extras named in `newExtras` get their new value, everything else stays. */
  function MergeItem(item: Item, newExtras: map<string, seq<Requirement>>): Item {
    match item
    case Comment(_) => item
    case Extra(name, _) => if name in newExtras then Extra(name, ExtraValue(newExtras[name])) else item
  }

  function MergeItems(items: seq<Item>, newExtras: map<string, seq<Requirement>>): seq<Item> {
    seq(|items|, k requires 0 <= k < |items| => MergeItem(items[k], newExtras))
  }

  /** How an item is written back: a comment as its line, an extra as `name =` and its value. */
  function RenderItem(item: Item): string {
    match item
    case Comment(line) => line
    case Extra(name, content) => name + " =" + content
  }

  function RenderItems(items: seq<Item>): string
  {
    if items == [] then "" else RenderItem(items[0]) + RenderItems(items[1..])
  }

  lemma {:induction false} RenderItemsAppend(items: seq<Item>, item: Item)
    ensures RenderItems(items + [item]) == RenderItems(items) + RenderItem(item)
  {
    if items == [] {
      assert items + [item] == [item];
    } else {
      assert (items + [item])[1..] == items[1..] + [item];
      RenderItemsAppend(items[1..], item);
    }
  }

  /** The strings the second loop of `merge_setup_cfg` appends for one item. */
  function ItemParts(item: Item): seq<string> {
    match item
    case Comment(line) => [line]
    case Extra(name, content) => [name + " =", content]
  }

  lemma ConcatItemParts(item: Item)
    ensures Concat(ItemParts(item)) == RenderItem(item)
  {
    var added := ItemParts(item);
    match item {
      case Comment(line) =>
        assert added[1..] == [];
        assert line + "" == line;
      case Extra(name, content) =>
        assert added[1..] == [content] && added[1..][1..] == [];
        assert content + "" == content;
        assert Concat(added[1..]) == content;
    }
  }

  /** Appending one item's strings extends the written section by that item. */
  lemma WriteStep(head: string, parts: seq<string>, done: seq<Item>, item: Item, added: seq<string>)
    requires Concat(parts) == head + RenderItems(done)
    requires Concat(added) == RenderItem(item)
    ensures Concat(parts + added) == head + RenderItems(done + [item])
  {
    var r := RenderItem(item);
    assert Concat(parts + added) == Concat(parts) + Concat(added) by { ConcatAppend(parts, added); }
    assert RenderItems(done + [item]) == RenderItems(done) + r by { RenderItemsAppend(done, item); }
    assert head + RenderItems(done) + r == head + (RenderItems(done) + r);
  }

  /** The section text: nothing when no item is left, else the header, the items and, before a non-empty suffix, one newline. */
  function SectionText(items: seq<Item>, suffix: string): string {
    if items == [] then ""
    else "[extras]\n" + RenderItems(items) + (if suffix != "" then "\n" else "")
  }

  /** The merged file for an already parsed one: prefix, rewritten section, suffix. */
  function MergeIni(ini: Ini, newExtras: map<string, seq<Requirement>>): string {
    var items := if ini.extras.Some? then ini.extras.value else [];
    ini.prefix + SectionText(MergeItems(items, newExtras), ini.suffix) + ini.suffix
  }

  /** What `merge_setup_cfg` returns for `cfg` and `newExtras`; a parse error propagates. */
  function MergeText(cfg: string, newExtras: map<string, seq<Requirement>>): Result<string> {
    var parsed := ParseIni(cfg);
    if parsed.Failure? then Failure(parsed.error) else Success(MergeIni(parsed.value, newExtras))
  }

  /** The first loop of `merge_setup_cfg`: the items with the named extras rewritten. */
  method MergeExtras(extras: seq<Item>, newExtras: map<string, seq<Requirement>>) returns (outExtras: seq<Item>)
    ensures outExtras == MergeItems(extras, newExtras)
  {
    outExtras := [];
    var i := 0;
    while i < |extras|
      invariant 0 <= i <= |extras|
      invariant outExtras == MergeItems(extras[..i], newExtras)
    {
      var extra := extras[i];
      match extra {
        case Comment(_) =>
          outExtras := outExtras + [extra];
        case Extra(name, _) =>
          if name !in newExtras {
            outExtras := outExtras + [extra];
          } else {
            var content := ToContent(newExtras[name], ":", "  ", false);
            outExtras := outExtras + [Extra(name, content)];
          }
      }
      i := i + 1;
    }
    assert extras[..i] == extras;
  }

  /** The second loop of `merge_setup_cfg`: the section text for the merged items. */
  method WriteSection(outExtras: seq<Item>, suffix: string) returns (extrasStr: string)
    ensures extrasStr == SectionText(outExtras, suffix)
  {
    extrasStr := "";
    if outExtras != [] {
      var parts: seq<string> := ["[extras]\n"];
      var i := 0;
      while i < |outExtras|
        invariant 0 <= i <= |outExtras|
        invariant Concat(parts) == "[extras]\n" + RenderItems(outExtras[..i])
      {
        var extra := outExtras[i];
        var added: seq<string>;
        match extra {
          case Comment(line) =>
            added := [line];
          case Extra(name, content) =>
            added := [name + " =", content];
        }
        ConcatItemParts(extra);
        WriteStep("[extras]\n", parts, outExtras[..i], extra, added);
        assert outExtras[..i + 1] == outExtras[..i] + [extra];
        parts := parts + added;
        i := i + 1;
      }
      assert outExtras[..i] == outExtras;
      if suffix != "" {
        ConcatAppend(parts, ["\n"]);
        parts := parts + ["\n"];
      }
      extrasStr := Concat(parts);
    }
  }

  /** `merge_setup_cfg`: rewrite the extras named in `newExtras`, keep the rest of the file. */
  method MergeSetupCfg(cfg: string, newExtras: map<string, seq<Requirement>>) returns (r: Result<string>)
    ensures r == MergeText(cfg, newExtras)
  {
    var parsed := ParseIni(cfg);
    if parsed.Failure? {
      return Failure(parsed.error);
    }
    var ini := parsed.value;
    var outExtras: seq<Item> := [];
    if ini.extras.Some? {
      outExtras := MergeExtras(ini.extras.value, newExtras);
    } else {
      outExtras := MergeExtras([], newExtras);
    }
    var extrasStr := WriteSection(outExtras, ini.suffix);
    return Success(ini.prefix + extrasStr + ini.suffix);
  }

  /** Comments and extras not named in `newExtras` stay as they are, in place; named extras keep their name and get the new value. */
  lemma MergeItemsKeep(items: seq<Item>, newExtras: map<string, seq<Requirement>>)
    ensures |MergeItems(items, newExtras)| == |items|
    ensures forall k :: 0 <= k < |items| && (items[k].Comment? || items[k].name !in newExtras) ==>
      MergeItems(items, newExtras)[k] == items[k]
    ensures forall k :: 0 <= k < |items| && items[k].Extra? && items[k].name in newExtras ==>
      MergeItems(items, newExtras)[k] == Extra(items[k].name, ExtraValue(newExtras[items[k].name]))
  {
  }

  /** Without an `[extras]` header line the merge gives the file back unchanged. */
  lemma MergeWithoutSection(cfg: string, newExtras: map<string, seq<Requirement>>)
    requires NoHeaderLine(cfg)
    ensures MergeText(cfg, newExtras).Success? && MergeText(cfg, newExtras).value == cfg
  {
    NoSection(cfg);
    var ini := ParseIni(cfg).value;
    MergeIniNone(ini, newExtras);
    assert ini.prefix + ini.suffix == cfg;
  }

  lemma MergeIniNone(ini: Ini, newExtras: map<string, seq<Requirement>>)
    requires ini.extras.None?
    ensures MergeIni(ini, newExtras) == ini.prefix + ini.suffix
  {
    assert MergeItems([], newExtras) == [];
  }

  /**
   * With one section, the text before its header and after its body is kept
   * byte for byte; the section in between is rewritten, and when both the
   * rewritten items and the rest are non-empty exactly one newline separates them.
   */
  lemma MergeOneSection(cfg: string, newExtras: map<string, seq<Requirement>>)
    requires HeaderAt(cfg[LinesLen(cfg)..])
    ensures MergeText(cfg, newExtras).Success? <==> NoHeaderLine(cfg[SectionEnd(cfg)..])
    ensures MergeText(cfg, newExtras).Success? ==>
      var items := MergeItems(Section(cfg[LinesLen(cfg)..]).0, newExtras);
      var rest := cfg[SectionEnd(cfg)..];
      && MergeText(cfg, newExtras).value == cfg[..LinesLen(cfg)] + SectionText(items, rest) + rest
      && (items == [] ==> SectionText(items, rest) == "")
      && (items != [] && rest != [] ==> SectionText(items, rest) == "[extras]\n" + RenderItems(items) + "\n")
  {
    OneSection(cfg);
  }
}
