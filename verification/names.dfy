/**
 * `canonical_name`: the normalised form of a package name used as a lookup
 * key by the constraint tools.  The function does not appear in
 * requirement.py; it is stated here as `pkg_resources.safe_name` followed by
 * lower-casing, which is what the callers and the tests expect of it.
 */
module Names {
  import opened Text

  /** A character `safe_name` keeps: an ASCII letter or digit, or a dot. */
  predicate NameChar(c: char) {
    'a' <= c <= 'z' || 'A' <= c <= 'Z' || '0' <= c <= '9' || c == '.'
  }

  /** `s` without its leading run of characters `safe_name` replaces. */
  function SkipRun(s: string): (r: string)
    ensures |r| <= |s| && r == s[|s| - |r|..]
    ensures s != [] && !NameChar(s[0]) ==> |r| < |s|
    ensures r == [] || NameChar(r[0])
  {
    if s != [] && !NameChar(s[0]) then SkipRun(s[1..]) else s
  }

  /** `safe_name`: every run of characters other than letters, digits and dots becomes one `-`. */
  function SafeName(s: string): string
    decreases |s|
  {
    if s == [] then ""
    else if NameChar(s[0]) then [s[0]] + SafeName(s[1..])
    else "-" + SafeName(SkipRun(s))
  }

  /** `canonical_name`: the safe name, lower-cased. */
  function CanonicalName(name: string): string {
    Lower(SafeName(name))
  }

  /** A name in normal form: letters, digits and dots, each `-` followed by a kept character or ending the name. */
  predicate Clean(x: string) {
    forall i :: 0 <= i < |x| ==> CleanAt(x, i)
  }

  /** Position `i` of `x` holds a kept character, or a `-` that ends `x` or precedes a kept character. */
  predicate CleanAt(x: string, i: nat)
    requires i < |x|
  {
    NameChar(x[i]) || (x[i] == '-' && (i + 1 == |x| || NameChar(x[i + 1])))
  }

  lemma CleanCons(c: char, x: string)
    requires Clean(x)
    requires NameChar(c) || (c == '-' && (x == [] || NameChar(x[0])))
    ensures Clean([c] + x)
  {
    var y := [c] + x;
    forall i | 0 <= i < |y|
      ensures CleanAt(y, i)
    {
      if i > 0 {
        assert CleanAt(x, i - 1);
        assert y[i] == x[i - 1];
      }
      if i + 1 < |y| {
        assert y[i + 1] == x[i];
      }
    }
  }

  lemma CleanTail(x: string)
    requires Clean(x) && x != []
    ensures Clean(x[1..])
  {
    var y := x[1..];
    forall i | 0 <= i < |y|
      ensures CleanAt(y, i)
    {
      assert CleanAt(x, i + 1);
      assert y[i] == x[i + 1];
      if i + 1 < |y| {
        assert y[i + 1] == x[i + 2];
      }
    }
  }

  /** Every safe name is in normal form. */
  lemma {:induction false} SafeNameClean(s: string)
    ensures Clean(SafeName(s))
    decreases |s|
  {
    if s != [] {
      if NameChar(s[0]) {
        SafeNameClean(s[1..]);
        CleanCons(s[0], SafeName(s[1..]));
      } else {
        var rest := SkipRun(s);
        SafeNameClean(rest);
        CleanCons('-', SafeName(rest));
      }
    }
  }

  /** A run of nothing to skip is left alone. */
  lemma SkipRunStops(s: string)
    requires s == [] || NameChar(s[0])
    ensures SkipRun(s) == s
  {
  }

  /** `safe_name` leaves a name in normal form unchanged. */
  lemma {:induction false} SafeNameFixed(x: string)
    requires Clean(x)
    ensures SafeName(x) == x
    decreases |x|
  {
    if x != [] {
      var tail := x[1..];
      CleanTail(x);
      SafeNameFixed(tail);
      if NameChar(x[0]) {
        calc {
          SafeName(x);
          [x[0]] + SafeName(tail);
          [x[0]] + tail;
          x;
        }
      } else {
        assert CleanAt(x, 0);
        assert tail == [] || NameChar(tail[0]) by {
          if tail != [] {
            assert tail[0] == x[1];
          }
        }
        SkipRunStops(tail);
        calc {
          SafeName(x);
          "-" + SafeName(SkipRun(x));
          { assert SkipRun(x) == SkipRun(tail); }
          "-" + SafeName(tail);
          "-" + tail;
          x;
        }
      }
    }
  }

  /** Lower-casing keeps a name in normal form. */
  lemma LowerClean(x: string)
    requires Clean(x)
    ensures Clean(Lower(x))
  {
    var y := Lower(x);
    forall i | 0 <= i < |y|
      ensures CleanAt(y, i)
    {
      assert CleanAt(x, i);
      assert y[i] == LowerChar(x[i]);
      if i + 1 < |y| {
        assert y[i + 1] == LowerChar(x[i + 1]);
      }
    }
  }

  /** Canonicalising twice is canonicalising once. */
  lemma CanonicalIdempotent(name: string)
    ensures CanonicalName(CanonicalName(name)) == CanonicalName(name)
  {
    var y := CanonicalName(name);
    SafeNameClean(name);
    LowerClean(SafeName(name));
    SafeNameFixed(y);
    LowerIdempotent(SafeName(name));
  }

  /** The example of the tests: `Foo_bar` becomes `foo-bar`. */
  lemma CanonicalExample()
    ensures CanonicalName("Foo_bar") == "foo-bar"
  {
    var t := "_bar";
    assert t[1..] == "bar";
    assert SkipRun(t[1..]) == "bar";
    assert SkipRun(t) == "bar";
    var b := "bar";
    assert SafeName(b[2..]) == "r";
    assert SafeName(b[1..]) == "ar";
    assert SafeName(b) == "bar";
    assert SafeName(t) == "-bar";
    var f := "Foo_bar";
    assert f[3..] == t;
    assert SafeName(f[2..]) == "o-bar";
    assert SafeName(f[1..]) == "oo-bar";
    assert SafeName(f) == "Foo-bar";
  }
}
