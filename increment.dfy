/** `increment_version`: bump a semantic version text by one of `major`,
    `minor`, `patch` or `pre<label>`. The function appears twice in the
    repository, with the same body, so this one model serves both copies. */
module Increment {
  import opened Wrappers
  import opened Strings
  import opened SemVer

  /** The two errors the bump raises (both as a `ValueError`). */
  datatype Error = InvalidFormat(text: string) | InvalidIncrementType(kind: string)

  /** The version returned when there is no current version yet. */
  const INITIAL_VERSION := "0.1.0"

  /** The increment kind used when the caller names none. */
  const DEFAULT_INCREMENT := "patch"

  predicate IsReleaseKind(kind: string) {
    kind == "major" || kind == "minor" || kind == "patch"
  }

  /** `kind.startswith("pre")`. */
  predicate IsPrereleaseKind(kind: string) {
    "pre" <= kind
  }

  /** No release kind starts with "pre", so the order of the tests does not matter. */
  lemma ReleaseKindsAreNotPrerelease(kind: string)
    ensures IsReleaseKind(kind) ==> !IsPrereleaseKind(kind)
  {
    if IsReleaseKind(kind) {
      assert kind[1] != 'r';
    }
  }

  predicate IsKnownKind(kind: string) {
    IsReleaseKind(kind) || IsPrereleaseKind(kind)
  }

  /** A current version is there when it is neither missing nor empty. */
  predicate HasVersion(current: Option<string>) {
    current.Some? && current.value != ""
  }

  /** Strict lexicographic order on the (major, minor, patch) triple. */
  predicate TripleLess(a: Version, b: Version) {
    || a.major < b.major
    || (a.major == b.major && a.minor < b.minor)
    || (a.major == b.major && a.minor == b.minor && a.patch < b.patch)
  }

  predicate SameTriple(a: Version, b: Version) {
    a.major == b.major && a.minor == b.minor && a.patch == b.patch
  }

  /** `kind[3:] or "alpha"`: the label a fresh prerelease starts with. */
  function PrereleaseLabel(kind: string): string {
    if |kind| <= 3 then "alpha" else kind[3..]
  }

  /** The successor of an existing prerelease: a numeric last dot-separated
      segment is incremented when there are at least two segments; otherwise
      `.1` is appended. */
  function NextPrerelease(p: string): string {
    var parts := Split(p, '.');
    var last := parts[|parts| - 1];
    if |parts| > 1 && IsNumeral(last) then
      Join(parts[..|parts| - 1] + [NatToDecimal(DecimalValue(last) + 1)], '.')
    else
      p + ".1"
  }

  /** A prerelease ending in `.` and a numeral continues with that numeral plus
      one, written without leading zeros (`alpha.3` to `alpha.4`, `alpha.007`
      to `alpha.8`). */
  lemma NextPrereleaseCounts(q: string, d: string)
    requires IsNumeral(d)
    ensures NextPrerelease(q + "." + d) == q + "." + NatToDecimal(DecimalValue(d) + 1)
  {
    assert '.' !in d by {
      assert forall c :: c in d ==> IsDigit(c);
    }
    SplitNoSeparator(d, '.');
    SplitConcat(q, d, '.');
    var front := Split(q, '.');
    assert Split(q + "." + d, '.') == front + [d];
    assert (front + [d])[..|front|] == front;
    JoinAppend(front, NatToDecimal(DecimalValue(d) + 1), '.');
    JoinSplit(q, '.');
  }

  /** A prerelease that does not end in `.` and a numeral gets `.1` appended
      (`alpha` to `alpha.1`, and a lone `3` to `3.1`). */
  lemma NextPrereleaseAppends(p: string)
    requires forall i :: 0 <= i < |p| && p[i] == '.' ==> !IsNumeral(p[i + 1..])
    ensures NextPrerelease(p) == p + ".1"
  {
    var parts := Split(p, '.');
    if |parts| > 1 {
      var i := SplitLastPiece(p, '.');
      assert !IsNumeral(parts[|parts| - 1]);
    }
  }

  /** A numeral behind a dot keeps a text over `[a-zA-Z0-9.-]`. */
  lemma DotNumeralIsIdent(q: string, n: string)
    requires forall j :: 0 <= j < |q| ==> IsIdentChar(q[j])
    requires IsNumeral(n)
    ensures IsIdent(q + "." + n)
  {
    var r := q + "." + n;
    forall j | 0 <= j < |r|
      ensures IsIdentChar(r[j])
    {
      if j < |q| {
        assert r[j] == q[j];
      } else if j > |q| {
        assert r[j] == n[j - |q| - 1];
      }
    }
  }

  /** The successor of a prerelease over `[a-zA-Z0-9.-]` stays over it. */
  lemma NextPrereleaseIsIdent(p: string)
    requires IsIdent(p)
    ensures IsIdent(NextPrerelease(p))
  {
    var parts := Split(p, '.');
    var last := parts[|parts| - 1];
    if |parts| > 1 && IsNumeral(last) {
      var i := SplitLastPiece(p, '.');
      var q := p[..i];
      assert p == q + "." + last;
      NextPrereleaseCounts(q, last);
      DotNumeralIsIdent(q, NatToDecimal(DecimalValue(last) + 1));
    } else {
      DotNumeralIsIdent(p, "1");
    }
  }

  /** One bump applied to a parsed version. */
  function Bump(v: Version, kind: string): (r: Result<Version, Error>)
    ensures r.Ok? <==> IsKnownKind(kind)
    ensures r.Err? ==> r.error == InvalidIncrementType(kind)
    ensures r.Ok? ==> r.value.build == v.build
    ensures IsReleaseKind(kind) ==> TripleLess(v, r.value) && r.value.prerelease.None?
    ensures IsPrereleaseKind(kind) ==> SameTriple(v, r.value) && r.value.prerelease.Some?
  {
    ReleaseKindsAreNotPrerelease(kind);
    if kind == "major" then Ok(Version(v.major + 1, 0, 0, None, v.build))
    else if kind == "minor" then Ok(Version(v.major, v.minor + 1, 0, None, v.build))
    else if kind == "patch" then Ok(Version(v.major, v.minor, v.patch + 1, None, v.build))
    else if IsPrereleaseKind(kind) then
      if Truthy(v.prerelease).Some? then Ok(v.(prerelease := Some(NextPrerelease(v.prerelease.value))))
      else Ok(v.(prerelease := Some(PrereleaseLabel(kind) + ".1")))
    else Err(InvalidIncrementType(kind))
  }

  /** `increment_version(current_version, increment_type)`: a missing or empty
      version starts at 0.1.0 whatever the kind; otherwise a text outside the
      version pattern is rejected before the kind is looked at, then an
      unknown kind is rejected. */
  function IncrementVersion(current: Option<string>, kind: string := DEFAULT_INCREMENT): (r: Result<string, Error>)
    ensures !HasVersion(current) ==> r == Ok(INITIAL_VERSION)
    ensures r.Err? && r.error.InvalidFormat? <==> HasVersion(current) && !MatchesPattern(current.value)
    ensures r.Err? && r.error.InvalidIncrementType? <==>
      HasVersion(current) && MatchesPattern(current.value) && !IsKnownKind(kind)
    ensures r.Err? ==> r.error == InvalidFormat(current.value) || r.error == InvalidIncrementType(kind)
  {
    if !HasVersion(current) then Ok(INITIAL_VERSION)
    else
      match ParseVersion(current.value)
      case None => Err(InvalidFormat(current.value))
      case Some(v) =>
        match Bump(v, kind)
        case Err(e) => Err(e)
        case Ok(w) => Ok(Serialize(w))
  }
}
