/** Concrete bumps: the usage examples of the scripts, the documented
    examples of the bump, and the edge cases of the pattern. Each example
    is assembled from small facts about one literal at a time. */
module Scenarios {
  import opened Wrappers
  import opened Strings
  import opened SemVer
  import opened Increment
  import opened IncrementProperties

  /** A text with the groups g, bumped to w, is written as out. */
  lemma BumpsTo(s: string, g: Groups, kind: string, w: Version, out: string)
    requires WellFormed(g) && (s == Text(g) || s == Text(g) + "\n")
    requires Bump(ToVersion(g), kind) == Ok(w)
    requires Serialize(w) == out
    ensures IncrementVersion(Some(s), kind) == Ok(out)
  {
    MatchVersionComplete(g, s);
    IncrementParsed(s, ToVersion(g), kind);
  }

  // The literals the examples start from, with their groups and values.

  lemma Reads018()
    ensures var g := Groups("0", "1", "8", None, None);
      WellFormed(g) && "0.1.8" == Text(g) && ToVersion(g) == Version(0, 1, 8, None, None)
  {
  }

  lemma Reads123()
    ensures var g := Groups("1", "2", "3", None, None);
      WellFormed(g) && "1.2.3" == Text(g) && ToVersion(g) == Version(1, 2, 3, None, None)
  {
  }

  lemma Reads018Alpha1()
    ensures var g := Groups("0", "1", "8", Some("alpha.1"), None);
      WellFormed(g) && "0.1.8-alpha.1" == Text(g) && ToVersion(g) == Version(0, 1, 8, Some("alpha.1"), None)
  {
  }

  lemma Reads018Beta()
    ensures var g := Groups("0", "1", "8", Some("beta"), None);
      WellFormed(g) && "0.1.8-beta" == Text(g) && ToVersion(g) == Version(0, 1, 8, Some("beta"), None)
  {
  }

  lemma Reads100AlphaBuild5()
    ensures var g := Groups("1", "0", "0", Some("alpha"), Some("build5"));
      WellFormed(g) && "1.0.0-alpha+build5" == Text(g) && ToVersion(g) == Version(1, 0, 0, Some("alpha"), Some("build5"))
  {
  }

  lemma Reads0123()
    ensures var g := Groups("01", "2", "3", None, None);
      WellFormed(g) && "01.2.3" == Text(g) && ToVersion(g) == Version(1, 2, 3, None, None)
  {
    assert "01"[..1] == "0" && "0"[..0] == "";
  }

  // The texts the examples end with.

  lemma Writes()
    ensures Serialize(Version(0, 1, 9, None, None)) == "0.1.9"
    ensures Serialize(Version(0, 2, 0, None, None)) == "0.2.0"
    ensures Serialize(Version(1, 0, 0, None, None)) == "1.0.0"
  {
  }

  lemma Writes123()
    ensures Serialize(Version(2, 0, 0, None, None)) == "2.0.0"
    ensures Serialize(Version(1, 3, 0, None, None)) == "1.3.0"
    ensures Serialize(Version(1, 2, 4, None, None)) == "1.2.4"
  {
  }

  lemma WritesAlpha1()
    ensures Serialize(Version(0, 1, 8, Some("alpha.1"), None)) == "0.1.8-alpha.1"
  {
  }

  lemma WritesAlpha2()
    ensures Serialize(Version(0, 1, 8, Some("alpha.2"), None)) == "0.1.8-alpha.2"
  {
  }

  lemma WritesBeta1()
    ensures Serialize(Version(0, 1, 8, Some("beta.1"), None)) == "0.1.8-beta.1"
  {
  }

  lemma WritesAlpha1Of123()
    ensures Serialize(Version(1, 2, 3, Some("alpha.1"), None)) == "1.2.3-alpha.1"
  {
  }

  lemma WritesForeign()
    ensures Serialize(Version(1, 2, 3, Some("+x.1"), None)) == "1.2.3-+x.1"
  {
  }

  lemma WritesBuild()
    ensures Serialize(Version(2, 0, 0, None, Some("build5"))) == "2.0.0+build5"
  {
  }

  // The prerelease counter.

  lemma CountsAlpha1()
    ensures NextPrerelease("alpha.1") == "alpha.2"
  {
    assert "alpha" + "." + "1" == "alpha.1";
    assert "1"[..0] == "";
    NextPrereleaseCounts("alpha", "1");
  }

  lemma Value007()
    ensures IsNumeral("007") && DecimalValue("007") == 7
  {
    assert "007"[..2] == "00" && "00"[..1] == "0" && "0"[..0] == "";
  }

  lemma Texts007()
    ensures "alpha" + "." + "007" == "alpha.007"
    ensures "alpha" + "." + NatToDecimal(8) == "alpha.8"
  {
    assert NatToDecimal(8) == "8";
  }

  /** A counter with leading zeros is read as a number. */
  lemma CountsAlpha007()
    ensures NextPrerelease("alpha.007") == "alpha.8"
  {
    Value007();
    Texts007();
    NextPrereleaseCounts("alpha", "007");
  }

  /** Without a dot there is no counter to continue, even when the whole
      prerelease is a number. */
  lemma AppendsWithoutCounter()
    ensures NextPrerelease("beta") == "beta.1"
    ensures NextPrerelease("3") == "3.1"
  {
    NextPrereleaseAppends("beta");
    NextPrereleaseAppends("3");
  }

  // The examples.

  /** 0.1.8 becomes 0.1.9 by default, 0.2.0 by `minor` and 1.0.0 by `major`. */
  lemma UsageReleaseExamples()
    ensures IncrementVersion(Some("0.1.8")) == Ok("0.1.9")
    ensures IncrementVersion(Some("0.1.8"), "minor") == Ok("0.2.0")
    ensures IncrementVersion(Some("0.1.8"), "major") == Ok("1.0.0")
  {
    var g := Groups("0", "1", "8", None, None);
    var v := Version(0, 1, 8, None, None);
    Reads018();
    Writes();
    BumpPatch(v);
    BumpsTo("0.1.8", g, "patch", Version(0, 1, 9, None, None), "0.1.9");
    BumpMinor(v);
    BumpsTo("0.1.8", g, "minor", Version(0, 2, 0, None, None), "0.2.0");
    BumpMajor(v);
    BumpsTo("0.1.8", g, "major", Version(1, 0, 0, None, None), "1.0.0");
  }

  /** 1.2.3 becomes 2.0.0, 1.3.0 and 1.2.4. */
  lemma ReleaseExamples()
    ensures IncrementVersion(Some("1.2.3"), "major") == Ok("2.0.0")
    ensures IncrementVersion(Some("1.2.3"), "minor") == Ok("1.3.0")
    ensures IncrementVersion(Some("1.2.3"), "patch") == Ok("1.2.4")
  {
    var g := Groups("1", "2", "3", None, None);
    var v := Version(1, 2, 3, None, None);
    Reads123();
    Writes123();
    BumpMajor(v);
    BumpsTo("1.2.3", g, "major", Version(2, 0, 0, None, None), "2.0.0");
    BumpMinor(v);
    BumpsTo("1.2.3", g, "minor", Version(1, 3, 0, None, None), "1.3.0");
    BumpPatch(v);
    BumpsTo("1.2.3", g, "patch", Version(1, 2, 4, None, None), "1.2.4");
  }

  /** 0.1.8 becomes 0.1.8-alpha.1 by `prealpha`, and 1.2.3 becomes
      1.2.3-alpha.1 by a bare `pre`. */
  lemma FreshPrereleaseExamples()
    ensures IncrementVersion(Some("0.1.8"), "prealpha") == Ok("0.1.8-alpha.1")
    ensures IncrementVersion(Some("1.2.3"), "pre") == Ok("1.2.3-alpha.1")
  {
    Reads018();
    WritesAlpha1();
    PrereleaseLabelOfKind("prealpha");
    assert "prealpha"[3..] == "alpha";
    assert "alpha" + ".1" == "alpha.1";
    BumpFreshPrerelease(Version(0, 1, 8, None, None), "prealpha");
    BumpsTo("0.1.8", Groups("0", "1", "8", None, None), "prealpha",
      Version(0, 1, 8, Some("alpha.1"), None), "0.1.8-alpha.1");
    Reads123();
    WritesAlpha1Of123();
    PrereleaseLabelOfKind("pre");
    BumpFreshPrerelease(Version(1, 2, 3, None, None), "pre");
    BumpsTo("1.2.3", Groups("1", "2", "3", None, None), "pre",
      Version(1, 2, 3, Some("alpha.1"), None), "1.2.3-alpha.1");
  }

  /** 0.1.8-alpha.1 continues to 0.1.8-alpha.2. */
  lemma ContinuedCounterExample()
    ensures IncrementVersion(Some("0.1.8-alpha.1"), "prealpha") == Ok("0.1.8-alpha.2")
  {
    WritesAlpha2();
    Reads018Alpha1();
    CountsAlpha1();
    BumpExistingPrerelease(Version(0, 1, 8, Some("alpha.1"), None), "prealpha");
    BumpsTo("0.1.8-alpha.1", Groups("0", "1", "8", Some("alpha.1"), None), "prealpha",
      Version(0, 1, 8, Some("alpha.2"), None), "0.1.8-alpha.2");
  }

  /** 0.1.8-beta continues to 0.1.8-beta.1, even when another label is asked for. */
  lemma ContinuedLabelExample()
    ensures IncrementVersion(Some("0.1.8-beta"), "prex") == Ok("0.1.8-beta.1")
  {
    WritesBeta1();
    Reads018Beta();
    AppendsWithoutCounter();
    BumpExistingPrerelease(Version(0, 1, 8, Some("beta"), None), "prex");
    BumpsTo("0.1.8-beta", Groups("0", "1", "8", Some("beta"), None), "prex",
      Version(0, 1, 8, Some("beta.1"), None), "0.1.8-beta.1");
  }

  /** The build survives a major bump that drops the prerelease:
      1.0.0-alpha+build5 becomes 2.0.0+build5. */
  lemma BuildExample()
    ensures IncrementVersion(Some("1.0.0-alpha+build5"), "major") == Ok("2.0.0+build5")
  {
    Reads100AlphaBuild5();
    WritesBuild();
    BumpMajor(Version(1, 0, 0, Some("alpha"), Some("build5")));
    BumpsTo("1.0.0-alpha+build5", Groups("1", "0", "0", Some("alpha"), Some("build5")), "major",
      Version(2, 0, 0, None, Some("build5")), "2.0.0+build5");
  }

  /** Leading zeros are not kept: 01.2.3 becomes 1.2.4. */
  lemma LeadingZerosExample()
    ensures IncrementVersion(Some("01.2.3"), "patch") == Ok("1.2.4")
  {
    Writes123();
    BumpPatch(Version(1, 2, 3, None, None));
    Reads0123();
    BumpsTo("01.2.3", Groups("01", "2", "3", None, None), "patch", Version(1, 2, 4, None, None), "1.2.4");
  }

  /** One trailing newline is accepted and dropped. */
  lemma TrailingNewlineExample()
    ensures IncrementVersion(Some("1.2.3\n"), "patch") == Ok("1.2.4")
  {
    Writes123();
    BumpPatch(Version(1, 2, 3, None, None));
    Reads123();
    BumpsTo("1.2.3\n", Groups("1", "2", "3", None, None), "patch", Version(1, 2, 4, None, None), "1.2.4");
  }

  /** `1.2` and `v1.2.3` are rejected as malformed whatever the kind. */
  lemma InvalidFormatExamples(kind: string)
    ensures IncrementVersion(Some("1.2"), kind) == Err(InvalidFormat("1.2"))
    ensures IncrementVersion(Some("v1.2.3"), kind) == Err(InvalidFormat("v1.2.3"))
  {
    assert MatchDotted("2") == None;
    assert MatchCore("1.2") == None;
    assert MatchCore("v1.2.3") == None;
  }

  /** An unknown kind is rejected once the version has parsed. */
  lemma InvalidKindExample()
    ensures IncrementVersion(Some("1.2.3"), "build") == Err(InvalidIncrementType("build"))
  {
    var g := Groups("1", "2", "3", None, None);
    Reads123();
    MatchVersionComplete(g, "1.2.3");
    IncrementParsed("1.2.3", ToVersion(g), "build");
    assert "build"[0] != 'p';
  }

  lemma ForeignLabelBump()
    ensures IncrementVersion(Some("1.2.3"), "pre+x") == Ok("1.2.3-+x.1")
  {
    Reads123();
    WritesForeign();
    PrereleaseLabelOfKind("pre+x");
    assert "pre+x"[3..] == "+x";
    assert "+x" + ".1" == "+x.1";
    BumpFreshPrerelease(Version(1, 2, 3, None, None), "pre+x");
    BumpsTo("1.2.3", Groups("1", "2", "3", None, None), "pre+x",
      Version(1, 2, 3, Some("+x.1"), None), "1.2.3-+x.1");
  }

  lemma ForeignSuffixRejected()
    ensures MatchSuffixes("-+x.1") == None
  {
    assert "-+x.1"[1..] == "+x.1";
    assert Span("+x.1", IdentChars) == 0;
  }

  lemma ForeignTextSplits()
    ensures "1.2.3-+x.1" == "1" + ("." + "2.3-+x.1")
    ensures "2.3-+x.1" == "2" + ("." + "3-+x.1")
    ensures "3-+x.1" == "3" + "-+x.1"
  {
  }

  lemma RejectsForeignText()
    ensures !MatchesPattern("1.2.3-+x.1")
  {
    ForeignTextSplits();
    MatchDottedComplete("1", "2.3-+x.1");
    MatchDottedComplete("2", "3-+x.1");
    MatchNumeralComplete("3", "-+x.1");
    ForeignSuffixRejected();
    assert MatchCore("1.2.3-+x.1") == None;
    MatchVersionDecides("1.2.3-+x.1");
  }

  /** A label outside `[a-zA-Z0-9.-]` is written as it is, and the text
      written then no longer matches the pattern. */
  lemma ForeignLabelExample()
    ensures IncrementVersion(Some("1.2.3"), "pre+x") == Ok("1.2.3-+x.1")
    ensures !MatchesPattern("1.2.3-+x.1")
  {
    ForeignLabelBump();
    RejectsForeignText();
  }
}
