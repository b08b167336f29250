/**
 * The third-party calls the requirement tools make, kept abstract.
 *
 * `pkg_resources.Requirement.parse`, the `packaging` specifier sets and
 * version ordering are not part of this model.  A `Lib` value bundles
 * them as functions, and every operation that calls one of them takes a
 * `Lib` as a parameter.  What the model relies on about them is stated as
 * predicates below and required explicitly by the lemmas that need it.
 */
module Foreign {
  import opened Wrappers
  import opened Text

  /** One clause of a specifier set, such as `>=` and `1.2`. */
  datatype Clause = Clause(op: string, version: string)

  /**
   * What `pkg_resources.Requirement.parse` yields for a requirement text:
   * the project name, `str` of the specifier set and its clauses, and the
   * rest of what requirement equality compares: the URL, the extras and
   * `str` of the marker.
   */
  datatype Parsed = Parsed(
    name: string, specifier: string, clauses: seq<Clause>,
    url: Option<string>, extras: set<string>, marker: Option<string>)

  datatype Lib = Lib(
    /** `pkg_resources.Requirement.parse`; `None` when it raises. */
    parse: string -> Option<Parsed>,
    /** The clauses of `SpecifierSet(text)`, in iteration order. */
    clauses: string -> seq<Clause>,
    /** `version in SpecifierSet(text)`, arguments (text, version); pre-releases only where the set names one. */
    contains: (string, string) -> bool,
    /** `SpecifierSet(text).contains(version, prereleases=True)`, arguments (text, version). */
    containsPre: (string, string) -> bool,
    /** `SpecifierSet(a) == SpecifierSet(b)`: the same clauses, versions compared once normalised. */
    sameSpecifier: (string, string) -> bool,
    /** `Version(a) <= Version(b)`. */
    versionLe: (string, string) -> bool)

  /** Requirement parsing refuses every text holding a URL scheme separator. */
  ghost predicate RejectsUrls(lib: Lib) {
    forall s :: Contains(s, "://") ==> lib.parse(s).None?
  }

  /** A specifier set equals itself. */
  ghost predicate SpecifierEquality(lib: Lib) {
    forall a :: lib.sameSpecifier(a, a)
  }

  /** Version comparison is a total preorder, as `packaging.version` ordering is. */
  ghost predicate VersionOrder(lib: Lib) {
    (forall a, b :: lib.versionLe(a, b) || lib.versionLe(b, a))
    && (forall a, b, c :: lib.versionLe(a, b) && lib.versionLe(b, c) ==> lib.versionLe(a, c))
  }

  /** `text` parses to exactly `name` and `specifier`: the form the codec writes back. */
  predicate Reparses(lib: Lib, text: string, name: string, specifier: string) {
    lib.parse(text).Some? && lib.parse(text).value.name == name
    && lib.parse(text).value.specifier == specifier
  }
}
