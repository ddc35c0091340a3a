/** What `increment_version` promises for each kind of bump, stated on
    texts: the exact text written, and that it parses back to the bumped
    version. */
module IncrementProperties {
  import opened Wrappers
  import opened Strings
  import opened SemVer
  import opened Increment

  /** The triple part `f"{major}.{minor}.{patch}"` of `Serialize`, spelled out
      on its own; `SerializeShape` proves it is the prefix `Serialize` writes. */
  function TripleText(v: Version): string {
    NatToDecimal(v.major) + "." + NatToDecimal(v.minor) + "." + NatToDecimal(v.patch)
  }

  /** The serialized text of a version whose optional parts are valid pattern texts. */
  lemma SerializeShape(v: Version)
    requires OptIdent(v.prerelease) && OptIdent(v.build)
    ensures Serialize(v) == TripleText(v) + Marked('-', v.prerelease) + Marked('+', v.build)
  {
  }

  lemma SerializeMajorShape(v: Version)
    requires OptIdent(v.build)
    ensures Serialize(Version(v.major + 1, 0, 0, None, v.build)) == NatToDecimal(v.major + 1) + ".0.0" + Marked('+', v.build)
  {
    SerializeShape(Version(v.major + 1, 0, 0, None, v.build));
  }

  lemma SerializeMinorShape(v: Version)
    requires OptIdent(v.build)
    ensures Serialize(Version(v.major, v.minor + 1, 0, None, v.build)) ==
      NatToDecimal(v.major) + "." + NatToDecimal(v.minor + 1) + ".0" + Marked('+', v.build)
  {
    SerializeShape(Version(v.major, v.minor + 1, 0, None, v.build));
  }

  lemma SerializePatchShape(v: Version)
    requires OptIdent(v.build)
    ensures Serialize(Version(v.major, v.minor, v.patch + 1, None, v.build)) ==
      NatToDecimal(v.major) + "." + NatToDecimal(v.minor) + "." + NatToDecimal(v.patch + 1) + Marked('+', v.build)
  {
    SerializeShape(Version(v.major, v.minor, v.patch + 1, None, v.build));
  }

  lemma SerializePrereleaseShape(v: Version, p: string)
    requires OptIdent(v.build) && p != ""
    ensures Serialize(v.(prerelease := Some(p))) == TripleText(v) + "-" + p + Marked('+', v.build)
  {
    var w := v.(prerelease := Some(p));
    assert Serialize(w) == TripleText(w) + Marked('-', Some(p)) + Marked('+', v.build);
  }

  lemma SerializeFreshShape(v: Version, name: string)
    requires OptIdent(v.build)
    ensures Serialize(v.(prerelease := Some(name + ".1"))) == TripleText(v) + "-" + name + ".1" + Marked('+', v.build)
  {
    SerializePrereleaseShape(v, name + ".1");
  }

  /** A parsed text is not empty, so it is bumped rather than replaced by the initial version. */
  lemma ParsedHasVersion(s: string)
    requires ParseVersion(s).Some?
    ensures HasVersion(Some(s))
  {
    var g := MatchVersion(s).value;
    assert |Text(g)| > 0;
  }

  /** On a parsed text the bump works on the parsed version and serializes the result. */
  lemma IncrementParsed(s: string, v: Version, kind: string)
    requires ParseVersion(s) == Some(v)
    ensures IncrementVersion(Some(s), kind) ==
      if Bump(v, kind).Ok? then Ok(Serialize(Bump(v, kind).value)) else Err(Bump(v, kind).error)
  {
    ParsedHasVersion(s);
  }

  /** A bump keeps the optional parts valid pattern texts, provided a fresh
      prerelease label is one. */
  lemma BumpKeepsIdent(v: Version, kind: string)
    requires OptIdent(v.prerelease) && OptIdent(v.build)
    requires IsKnownKind(kind)
    requires IsPrereleaseKind(kind) && v.prerelease.None? ==> IsIdent(PrereleaseLabel(kind))
    ensures OptIdent(Bump(v, kind).value.prerelease) && OptIdent(Bump(v, kind).value.build)
  {
    if IsPrereleaseKind(kind) && v.prerelease.Some? {
      NextPrereleaseIsIdent(v.prerelease.value);
    }
    if IsPrereleaseKind(kind) && v.prerelease.None? {
      var name := PrereleaseLabel(kind);
      var p := name + ".1";
      assert forall j :: 0 <= j < |p| ==> p[j] == (if j < |name| then name[j] else ".1"[j - |name|]);
    }
  }

  /** Whenever a fresh prerelease label is a valid pattern text, the bumped
      text parses back to exactly the bumped version. */
  lemma IncrementReparses(s: string, v: Version, kind: string)
    requires ParseVersion(s) == Some(v)
    requires IsKnownKind(kind)
    requires IsPrereleaseKind(kind) && v.prerelease.None? ==> IsIdent(PrereleaseLabel(kind))
    ensures var r := IncrementVersion(Some(s), kind);
      r.Ok? && ParseVersion(r.value) == Some(Bump(v, kind).value)
  {
    IncrementParsed(s, v, kind);
    BumpKeepsIdent(v, kind);
    SerializeRoundTrip(Bump(v, kind).value);
  }

  lemma BumpMajor(v: Version)
    ensures Bump(v, "major") == Ok(Version(v.major + 1, 0, 0, None, v.build))
  {
  }

  lemma BumpMinor(v: Version)
    ensures Bump(v, "minor") == Ok(Version(v.major, v.minor + 1, 0, None, v.build))
  {
  }

  lemma BumpPatch(v: Version)
    ensures Bump(v, "patch") == Ok(Version(v.major, v.minor, v.patch + 1, None, v.build))
  {
  }

  lemma BumpExistingPrerelease(v: Version, kind: string)
    requires Truthy(v.prerelease).Some? && IsPrereleaseKind(kind)
    ensures Bump(v, kind) == Ok(v.(prerelease := Some(NextPrerelease(v.prerelease.value))))
  {
    ReleaseKindsAreNotPrerelease(kind);
  }

  lemma BumpFreshPrerelease(v: Version, kind: string)
    requires v.prerelease.None? && IsPrereleaseKind(kind)
    ensures Bump(v, kind) == Ok(v.(prerelease := Some(PrereleaseLabel(kind) + ".1")))
  {
    ReleaseKindsAreNotPrerelease(kind);
  }

  lemma PrereleaseLabelOfKind(kind: string)
    requires IsPrereleaseKind(kind)
    ensures PrereleaseLabel(kind) == if kind == "pre" then "alpha" else kind[3..]
  {
    if |kind| == 3 {
      assert kind == kind[..3];
    }
  }

  /** `major`: the major number goes up by one, minor and patch go to zero,
      the prerelease is dropped and the build is appended unchanged. */
  lemma IncrementMajor(s: string, v: Version)
    requires ParseVersion(s) == Some(v)
    ensures IncrementVersion(Some(s), "major") == Ok(NatToDecimal(v.major + 1) + ".0.0" + Marked('+', v.build))
  {
    IncrementParsed(s, v, "major");
    BumpMajor(v);
    SerializeMajorShape(v);
  }

  /** `minor`: the minor number goes up by one, patch goes to zero, the
      prerelease is dropped and the build is kept. */
  lemma IncrementMinor(s: string, v: Version)
    requires ParseVersion(s) == Some(v)
    ensures IncrementVersion(Some(s), "minor") ==
      Ok(NatToDecimal(v.major) + "." + NatToDecimal(v.minor + 1) + ".0" + Marked('+', v.build))
  {
    IncrementParsed(s, v, "minor");
    BumpMinor(v);
    SerializeMinorShape(v);
  }

  /** `patch`: the patch number goes up by one, the prerelease is dropped and
      the build is kept. */
  lemma IncrementPatch(s: string, v: Version)
    requires ParseVersion(s) == Some(v)
    ensures IncrementVersion(Some(s), "patch") ==
      Ok(NatToDecimal(v.major) + "." + NatToDecimal(v.minor) + "." + NatToDecimal(v.patch + 1) + Marked('+', v.build))
  {
    IncrementParsed(s, v, "patch");
    BumpPatch(v);
    SerializePatchShape(v);
  }

  /** The texts written by `major`, `minor` and `patch` parse back to the
      bumped numbers, with no prerelease and the original build. */
  lemma IncrementMajorReparses(s: string, v: Version)
    requires ParseVersion(s) == Some(v)
    ensures var r := IncrementVersion(Some(s), "major");
      r.Ok? && ParseVersion(r.value) == Some(Version(v.major + 1, 0, 0, None, v.build))
  {
    IncrementParsed(s, v, "major");
    BumpMajor(v);
    SerializeRoundTrip(Version(v.major + 1, 0, 0, None, v.build));
  }

  lemma IncrementMinorReparses(s: string, v: Version)
    requires ParseVersion(s) == Some(v)
    ensures var r := IncrementVersion(Some(s), "minor");
      r.Ok? && ParseVersion(r.value) == Some(Version(v.major, v.minor + 1, 0, None, v.build))
  {
    IncrementParsed(s, v, "minor");
    BumpMinor(v);
    SerializeRoundTrip(Version(v.major, v.minor + 1, 0, None, v.build));
  }

  lemma IncrementPatchReparses(s: string, v: Version)
    requires ParseVersion(s) == Some(v)
    ensures var r := IncrementVersion(Some(s), "patch");
      r.Ok? && ParseVersion(r.value) == Some(Version(v.major, v.minor, v.patch + 1, None, v.build))
  {
    IncrementParsed(s, v, "patch");
    BumpPatch(v);
    SerializeRoundTrip(Version(v.major, v.minor, v.patch + 1, None, v.build));
  }

  /** `pre<label>` on a version that already has a prerelease continues that
      prerelease whatever the label; the numbers and the build are not changed. */
  lemma IncrementExistingPrerelease(s: string, v: Version, kind: string)
    requires ParseVersion(s) == Some(v)
    requires v.prerelease.Some?
    requires IsPrereleaseKind(kind)
    ensures IncrementVersion(Some(s), kind) == IncrementVersion(Some(s), "pre")
    ensures IncrementVersion(Some(s), kind) ==
      Ok(TripleText(v) + "-" + NextPrerelease(v.prerelease.value) + Marked('+', v.build))
  {
    IncrementParsed(s, v, kind);
    IncrementParsed(s, v, "pre");
    BumpExistingPrerelease(v, kind);
    BumpExistingPrerelease(v, "pre");
    SerializePrereleaseShape(v, NextPrerelease(v.prerelease.value));
  }

  /** The text written for a continued prerelease parses back to the same
      numbers and build with the continued prerelease. */
  lemma IncrementExistingReparses(s: string, v: Version, kind: string)
    requires ParseVersion(s) == Some(v)
    requires v.prerelease.Some?
    requires IsPrereleaseKind(kind)
    ensures var r := IncrementVersion(Some(s), kind);
      r.Ok? && ParseVersion(r.value) == Some(v.(prerelease := Some(NextPrerelease(v.prerelease.value))))
  {
    IncrementReparses(s, v, kind);
    BumpExistingPrerelease(v, kind);
  }

  /** `pre<label>` on a version without a prerelease starts `<label>.1`, with
      `alpha` for an empty label; the numbers are not changed and the build is kept. */
  lemma IncrementFreshPrerelease(s: string, v: Version, kind: string)
    requires ParseVersion(s) == Some(v)
    requires v.prerelease.None?
    requires IsPrereleaseKind(kind)
    ensures IncrementVersion(Some(s), kind) ==
      Ok(TripleText(v) + "-" + (if kind == "pre" then "alpha" else kind[3..]) + ".1" + Marked('+', v.build))
  {
    IncrementParsed(s, v, kind);
    BumpFreshPrerelease(v, kind);
    PrereleaseLabelOfKind(kind);
    SerializeFreshShape(v, PrereleaseLabel(kind));
  }

  /** The text written for a fresh prerelease with a label over
      `[a-zA-Z0-9.-]` (`alpha` for a bare `pre`) parses back to the same
      numbers and build with the prerelease `<label>.1`. */
  lemma IncrementFreshReparses(s: string, v: Version, kind: string)
    requires ParseVersion(s) == Some(v)
    requires v.prerelease.None?
    requires IsPrereleaseKind(kind) && IsIdent(if kind == "pre" then "alpha" else kind[3..])
    ensures var r := IncrementVersion(Some(s), kind);
      r.Ok? && ParseVersion(r.value) == Some(v.(prerelease := Some((if kind == "pre" then "alpha" else kind[3..]) + ".1")))
  {
    PrereleaseLabelOfKind(kind);
    IncrementReparses(s, v, kind);
    BumpFreshPrerelease(v, kind);
  }
}
