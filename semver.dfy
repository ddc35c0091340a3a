/** The version text `MAJOR.MINOR.PATCH[-PRERELEASE][+BUILD]`: the pattern the
    bump accepts, a matcher for it, the conversion of the matched numerals to
    numbers, and the serializer that writes a version back. */
module SemVer {
  import opened Wrappers
  import opened Strings

  /** A parsed version: three numbers and the optional prerelease and build parts. */
  datatype Version = Version(major: nat, minor: nat, patch: nat, prerelease: Option<string>, build: Option<string>)

  /** The capture groups of a successful match: the three numerals as written
      (leading zeros included) and the prerelease and build texts, present
      exactly when their `-` or `+` part took part in the match. */
  datatype Groups = Groups(major: string, minor: string, patch: string, prerelease: Option<string>, build: Option<string>)

  /** A character of the class `[a-zA-Z0-9.-]`. */
  predicate IsIdentChar(c: char) {
    ('a' <= c <= 'z') || ('A' <= c <= 'Z') || IsDigit(c) || c == '.' || c == '-'
  }

  /** A non-empty text over `[a-zA-Z0-9.-]`; empty dot-separated identifiers are allowed. */
  predicate IsIdent(s: string) {
    |s| > 0 && forall i :: 0 <= i < |s| ==> IsIdentChar(s[i])
  }

  predicate OptIdent(o: Option<string>) {
    o.None? || IsIdent(o.value)
  }

  predicate WellFormed(g: Groups) {
    && IsNumeral(g.major) && IsNumeral(g.minor) && IsNumeral(g.patch)
    && OptIdent(g.prerelease) && OptIdent(g.build)
  }

  /** The text of an optional part behind its marker character, or nothing. */
  function Marked(marker: char, o: Option<string>): string {
    if o.Some? then [marker] + o.value else ""
  }

  /** The text whose match yields the groups g. */
  function Text(g: Groups): string {
    g.major + ("." + (g.minor + ("." + (g.patch + (Marked('-', g.prerelease) + Marked('+', g.build))))))
  }

  /** The version pattern, anchored at both ends; like Python's `$`, the end
      anchor also matches just before one final newline. */
  ghost predicate MatchesPattern(s: string) {
    exists g :: WellFormed(g) && (s == Text(g) || s == Text(g) + "\n")
  }

  datatype CharClass = Digits | IdentChars

  predicate InClass(c: char, k: CharClass) {
    match k
    case Digits => IsDigit(c)
    case IdentChars => IsIdentChar(c)
  }

  /** The length of the longest prefix of s in class k (a greedy `+` or `*`). */
  function Span(s: string, k: CharClass): (n: nat)
    ensures n <= |s|
    ensures forall i :: 0 <= i < n ==> InClass(s[i], k)
    ensures n < |s| ==> !InClass(s[n], k)
  {
    if |s| == 0 || !InClass(s[0], k) then 0 else 1 + Span(s[1..], k)
  }

  /** A greedy span stops exactly where a run of class k ends. */
  lemma SpanOfRun(x: string, y: string, k: CharClass)
    requires forall i :: 0 <= i < |x| ==> InClass(x[i], k)
    requires |y| > 0 ==> !InClass(y[0], k)
    ensures Span(x + y, k) == |x|
  {
    assert forall i :: 0 <= i < |x| ==> (x + y)[i] == x[i];
    assert |y| > 0 ==> (x + y)[|x|] == y[0];
  }

  /** `\d+`: the greedy run of digits at the start of s, and what follows it. */
  function MatchNumeral(s: string): (r: Option<(string, string)>)
    ensures r.Some? ==> IsNumeral(r.value.0) && s == r.value.0 + r.value.1
    ensures r.Some? ==> |r.value.1| > 0 ==> !IsDigit(r.value.1[0])
  {
    var n := Span(s, Digits);
    if n == 0 then None
    else
      assert s == s[..n] + s[n..];
      Some((s[..n], s[n..]))
  }

  lemma MatchNumeralComplete(x: string, y: string)
    requires IsNumeral(x)
    requires |y| > 0 ==> !IsDigit(y[0])
    ensures MatchNumeral(x + y) == Some((x, y))
  {
    SpanOfRun(x, y, Digits);
    assert (x + y)[..|x|] == x && (x + y)[|x|..] == y;
  }

  /** `\d+\.`: a numeral and the dot after it, and what follows the dot. */
  function MatchDotted(s: string): (r: Option<(string, string)>)
    ensures r.Some? ==> IsNumeral(r.value.0) && s == r.value.0 + ("." + r.value.1)
  {
    match MatchNumeral(s)
    case None => None
    case Some((n, rest)) =>
      if rest == [] || rest[0] != '.' then None
      else
        assert rest == "." + rest[1..];
        Some((n, rest[1..]))
  }

  lemma MatchDottedComplete(x: string, y: string)
    requires IsNumeral(x)
    ensures MatchDotted(x + ("." + y)) == Some((x, y))
  {
    MatchNumeralComplete(x, "." + y);
    assert ("." + y)[1..] == y;
  }

  /** `(\+([a-zA-Z0-9.-]+))?` followed by the end of the text. */
  function MatchBuild(t: string): (r: Option<Option<string>>)
    ensures r.Some? ==> OptIdent(r.value) && t == Marked('+', r.value)
  {
    if t == "" then Some(None)
    else if t[0] == '+' && IsIdent(t[1..]) then Some(Some(t[1..]))
    else None
  }

  /** A non-empty greedy run of identifier characters is an identifier. */
  lemma SpanIsIdent(u: string, n: nat)
    requires 0 < n == Span(u, IdentChars)
    ensures IsIdent(u[..n])
  {
    assert forall i :: 0 <= i < n ==> u[..n][i] == u[i];
  }

  /** `(-([a-zA-Z0-9.-]+))?(\+([a-zA-Z0-9.-]+))?` followed by the end of the text. */
  function MatchSuffixes(t: string): (r: Option<(Option<string>, Option<string>)>)
    ensures r.Some? ==> OptIdent(r.value.0) && OptIdent(r.value.1)
    ensures r.Some? ==> t == Marked('-', r.value.0) + Marked('+', r.value.1)
  {
    if t != "" && t[0] == '-' then
      var n := Span(t[1..], IdentChars);
      if n == 0 then None
      else
        match MatchBuild(t[1 + n..])
        case None => None
        case Some(b) =>
          SpanIsIdent(t[1..], n);
          assert t[1..][..n] == t[1..1 + n];
          assert t == ['-'] + t[1..1 + n] + t[1 + n..];
          Some((Some(t[1..1 + n]), b))
    else
      match MatchBuild(t)
      case None => None
      case Some(b) => Some((None, b))
  }

  /** The whole pattern up to an end anchor at the very end of s. */
  function MatchCore(s: string): (r: Option<Groups>)
    ensures r.Some? ==> WellFormed(r.value) && s == Text(r.value)
  {
    match MatchDotted(s)
    case None => None
    case Some((major, rest1)) =>
      match MatchDotted(rest1)
      case None => None
      case Some((minor, rest2)) =>
        match MatchNumeral(rest2)
        case None => None
        case Some((patch, tail)) =>
          match MatchSuffixes(tail)
          case None => None
          case Some(parts) => Some(Groups(major, minor, patch, parts.0, parts.1))
  }

  /** `re.match` of the version pattern: the groups of the match, if any. */
  function MatchVersion(s: string): (r: Option<Groups>)
    ensures r.Some? ==> WellFormed(r.value) && (s == Text(r.value) || s == Text(r.value) + "\n")
  {
    if |s| > 0 && s[|s| - 1] == '\n' then
      assert s == s[..|s| - 1] + "\n";
      MatchCore(s[..|s| - 1])
    else MatchCore(s)
  }

  lemma MatchBuildComplete(b: Option<string>)
    requires OptIdent(b)
    ensures MatchBuild(Marked('+', b)) == Some(b)
  {
    if b.Some? {
      assert Marked('+', b)[1..] == b.value;
    }
  }

  lemma MatchSuffixesComplete(p: Option<string>, b: Option<string>)
    requires OptIdent(p) && OptIdent(b)
    ensures MatchSuffixes(Marked('-', p) + Marked('+', b)) == Some((p, b))
  {
    var t := Marked('-', p) + Marked('+', b);
    MatchBuildComplete(b);
    if p.Some? {
      var x := p.value;
      assert t[1..] == x + Marked('+', b);
      SpanOfRun(x, Marked('+', b), IdentChars);
      assert t[1..1 + |x|] == x;
      assert t[1 + |x|..] == Marked('+', b);
    } else {
      assert t == Marked('+', b);
    }
  }

  lemma MatchCoreComplete(g: Groups)
    requires WellFormed(g)
    ensures MatchCore(Text(g)) == Some(g)
  {
    var tail := Marked('-', g.prerelease) + Marked('+', g.build);
    var rest2 := g.patch + tail;
    var rest1 := g.minor + ("." + rest2);
    MatchDottedComplete(g.major, rest1);
    MatchDottedComplete(g.minor, rest2);
    assert |tail| > 0 ==> tail[0] == '-' || tail[0] == '+';
    MatchNumeralComplete(g.patch, tail);
    MatchSuffixesComplete(g.prerelease, g.build);
  }

  /** No matched text contains a newline, so at most one can follow it. */
  lemma TextHasNoNewline(g: Groups)
    requires WellFormed(g)
    ensures '\n' !in Text(g)
  {
    assert forall c :: c in g.major || c in g.minor || c in g.patch ==> IsDigit(c);
    assert forall c :: c in Marked('-', g.prerelease) ==> c == '-' || IsIdentChar(c);
    assert forall c :: c in Marked('+', g.build) ==> c == '+' || IsIdentChar(c);
  }

  /** The matcher finds every text of the pattern, and with exactly the groups that produced it. */
  lemma MatchVersionComplete(g: Groups, s: string)
    requires WellFormed(g)
    requires s == Text(g) || s == Text(g) + "\n"
    ensures MatchVersion(s) == Some(g)
  {
    TextHasNoNewline(g);
    MatchCoreComplete(g);
    if s == Text(g) + "\n" {
      assert s[..|s| - 1] == Text(g);
    } else {
      assert s[|s| - 1] in Text(g);
    }
  }

  /** The matcher decides the pattern: it succeeds exactly on the texts the pattern describes. */
  lemma MatchVersionDecides(s: string)
    ensures MatchVersion(s).Some? <==> MatchesPattern(s)
  {
    if MatchesPattern(s) {
      var g :| WellFormed(g) && (s == Text(g) || s == Text(g) + "\n");
      MatchVersionComplete(g, s);
    }
  }

  /** `int()` applied to each numeric group. */
  function ToVersion(g: Groups): (v: Version)
    requires WellFormed(g)
  {
    Version(DecimalValue(g.major), DecimalValue(g.minor), DecimalValue(g.patch), g.prerelease, g.build)
  }

  /** Parsing a version text: it succeeds exactly on the texts of the pattern,
      and then the optional parts are non-empty texts over `[a-zA-Z0-9.-]`. */
  function ParseVersion(s: string): (r: Option<Version>)
    ensures r.Some? <==> MatchesPattern(s)
    ensures r.Some? ==> OptIdent(r.value.prerelease) && OptIdent(r.value.build)
  {
    MatchVersionDecides(s);
    match MatchVersion(s)
    case None => None
    case Some(g) => Some(ToVersion(g))
  }

  /** Python truthiness of an optional text: a missing or empty part is left out. */
  function Truthy(o: Option<string>): Option<string> {
    if o.Some? && o.value != "" then o else None
  }

  /** The groups the serializer writes: the numbers in canonical decimal, the
      optional parts when present and non-empty. */
  function CanonicalGroups(v: Version): Groups {
    Groups(NatToDecimal(v.major), NatToDecimal(v.minor), NatToDecimal(v.patch), Truthy(v.prerelease), Truthy(v.build))
  }

  /** `f"{major}.{minor}.{patch}"`, then `-prerelease` and `+build` when they are truthy. */
  function Serialize(v: Version): string {
    Text(CanonicalGroups(v))
  }

  /** Serializing and then parsing gives the version back whenever its
      optional parts are valid pattern texts. */
  lemma SerializeRoundTrip(v: Version)
    requires OptIdent(v.prerelease) && OptIdent(v.build)
    ensures ParseVersion(Serialize(v)) == Some(v)
  {
    MatchVersionComplete(CanonicalGroups(v), Serialize(v));
  }

  /** Serialization reproduces the parsed text exactly when that text has no
      leading zeros and no trailing newline; otherwise it normalizes it. */
  lemma SerializeReproduces(s: string, g: Groups)
    requires MatchVersion(s) == Some(g)
    ensures Serialize(ToVersion(g)) == s <==>
      s == Text(g) && IsCanonicalNumeral(g.major) && IsCanonicalNumeral(g.minor) && IsCanonicalNumeral(g.patch)
  {
    var v := ToVersion(g);
    TextHasNoNewline(g);
    if IsCanonicalNumeral(g.major) && IsCanonicalNumeral(g.minor) && IsCanonicalNumeral(g.patch) {
      DecimalCanonical(g.major);
      DecimalCanonical(g.minor);
      DecimalCanonical(g.patch);
      assert CanonicalGroups(v) == g;
    }
    if Serialize(v) == s {
      MatchVersionComplete(CanonicalGroups(v), s);
      assert CanonicalGroups(v) == g;
    }
  }
}
