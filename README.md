# Semantic-version bump

A Dafny model of `increment_version`, the function behind the two
version-bumping scripts of this repository. `increment_init.py` uses it to
rewrite the `__version__` of a package's `__init__.py`; `increment_setup.py`
uses it to rewrite the `version="…"` of `setup.py`. The function takes the
current version text and an increment kind (`major`, `minor`, `patch` or
`pre<label>`), and returns the next version text or raises one of two
errors. It runs in four steps:

1. It parses the text against
   `^(\d+)\.(\d+)\.(\d+)(-([a-zA-Z0-9.-]+))?(\+([a-zA-Z0-9.-]+))?$`, the
   `MAJOR.MINOR.PATCH[-PRERELEASE][+BUILD]` shape of Semantic Versioning
   2.0.0.
2. It reads the three numeric groups as integers.
3. It bumps one component.
4. It writes the result back as text.

The two copies of the function (`increment_init.py:45-107` and
`increment_setup.py:39-103`) are the same line for line. The only difference
is a commented-out `print` at `increment_setup.py:54`. One model therefore serves
both, so the two files return the same result or error for every input pair.

Modules:

- `Wrappers` (`wrappers.dfy`): `Option` and `Result`.
- `Strings` (`strings.dfy`): ASCII decimal numerals. Covers `int(...)` and
  `str(...)` on non-negative integers, and Python's `str.split` and `str.join`
  with a one-character separator.
- `SemVer` (`semver.dfy`): the version value and the version pattern.
  - `MatchesPattern` states declaratively what the regular expression accepts.
  - `MatchVersion` is the matcher that returns its groups. It is proved sound
    and complete against `MatchesPattern`.
  - `Serialize` is the f-string that writes a version back.
- `Increment` (`increment.dfy`): the two error kinds, the bump, and
  `IncrementVersion`. `IncrementVersion` is the whole function. Its
  `Option<string>` argument is `None` for Python's `None`.
- `IncrementProperties` (`properties.dfy`): the result text and the reparsed
  value for each kind of bump.
- `Scenarios` (`scenarios.dfy`): the usage examples at the head of both
  scripts, and the edge cases below, on concrete texts.

Where the code does something the usage notes or the docstring do not say:

- Python's `$` without `re.MULTILINE` also matches just before one final
  newline. So `"1.2.3\n"` is accepted, and the newline is not part of the
  patch group (`Scenarios.TrailingNewlineExample`).
- The result is rebuilt from integers, so leading zeros are dropped
  (`01.2.3` + `patch` gives `1.2.4`).
- `SemVer.SerializeReproduces` states exactly when a parsed version is
  written back unchanged.
- A prerelease of one segment is never counted: `3` becomes `3.1`. A counter
  with leading zeros is read as a number: `alpha.007` becomes `alpha.8`.
- On a version that already has a prerelease, the label of a `pre<label>`
  kind is ignored.
- The label of a fresh prerelease is taken as it is, without checking it
  against `[a-zA-Z0-9.-]`. So `pre+x` gives `1.2.3-+x.1`, which the function
  itself then rejects (`Scenarios.ForeignLabelExample`). The reparse
  lemmas therefore require an acceptable label.
- An empty or missing version gives `0.1.0`, even for an unknown kind. A
  malformed version is rejected before the kind is looked at.

## Model

| member | source | states |
|---|---|---|
| Strings.IsNumeral | increment_init.py:87 | a non-empty run of ASCII digits: `str.isdigit()` on the last prerelease part, and the `\d+` groups of the pattern at increment_init.py:61 (definition; decides when `Increment.NextPrerelease` counts, see `Increment.NextPrereleaseCounts` and `Increment.NextPrereleaseAppends`) |
| Strings.DecimalValue | increment_init.py:65 | `int(s)` of an ASCII numeral, read left to right in base ten (definition; characterised by `Strings.NatToDecimal` and `Strings.DecimalCanonical`, and used for `int(pre_parts[-1])` at increment_init.py:88) |
| Strings.Join | increment_init.py:89 | `'.'.join(parts)` (definition; characterised by `Strings.JoinSplit`, `Strings.SplitJoin` and `Strings.JoinAppend`) |
| Strings.NatToDecimal | increment_init.py:101 | `str(n)` of a natural is a numeral without leading zeros whose value is `n`; it starts with `0` only for zero |
| Strings.DecimalCanonical | increment_init.py:65 | `int` then `str` gives back every numeral without leading zeros |
| Strings.Split | increment_init.py:86 | `split('.')` yields at least one part, and no part contains the separator |
| Strings.JoinSplit | increment_init.py:86-89 | joining the parts of a split with the same separator gives back the text |
| Strings.SplitJoin | increment_init.py:86-89 | splitting a join of separator-free parts gives back the parts |
| Strings.SplitConcat | increment_init.py:86 | splitting `x + "." + y` is the parts of `x` followed by the parts of `y` |
| Strings.SplitNoSeparator | increment_init.py:86-87 | a text without a dot splits into the single part `[text]` |
| Strings.JoinAppend | increment_init.py:88-89 | joining parts plus one more piece appends the separator and that piece |
| Strings.SplitLastPiece | increment_init.py:86-87 | with more than one part, the last part is exactly what follows the last separator |
| SemVer.IsIdentChar | increment_init.py:61 | one character of the class `[a-zA-Z0-9.-]` (definition; used by `SemVer.IsIdent`) |
| SemVer.IsIdent | increment_init.py:61 | a text matched by `[a-zA-Z0-9.-]+`: non-empty, every character in the class (definition; the prerelease and build groups of `SemVer.WellFormed`, `SemVer.ParseVersion` and `SemVer.MatchSuffixes`) |
| SemVer.MatchesPattern | increment_init.py:61 | the texts the regular expression accepts: well-formed groups written out, optionally followed by one newline (definition; `SemVer.MatchVersionDecides` proves the matcher decides it) |
| SemVer.Span | increment_init.py:61 | the greedy `+` quantifier: the longest prefix in a character class; every character before it is in the class and the next one is not |
| SemVer.MatchNumeral | increment_init.py:61 | `\d+` consumes a non-empty run of digits that is not followed by another digit |
| SemVer.MatchNumeralComplete | increment_init.py:61 | a numeral followed by a non-digit is matched as that numeral |
| SemVer.MatchDotted | increment_init.py:61 | `\d+\.` splits off a numeral and the dot after it |
| SemVer.MatchDottedComplete | increment_init.py:61 | a numeral, a dot and anything after it is matched that way |
| SemVer.MatchBuild | increment_init.py:61 | the optional `+build` group accepts nothing or `+` and an identifier, up to the end |
| SemVer.MatchSuffixes | increment_init.py:61 | the optional `-pre` and `+build` groups are identifiers and rebuild the tail exactly |
| SemVer.MatchCore | increment_init.py:61 | any groups found are well formed and rebuild the whole text |
| SemVer.MatchVersion | increment_init.py:61-62 | any groups found rebuild the text, or the text minus one trailing newline |
| SemVer.MatchBuildComplete | increment_init.py:61 | every optional build group is found again in its own text |
| SemVer.MatchSuffixesComplete | increment_init.py:61 | every pair of optional groups is found again in its own text |
| SemVer.MatchCoreComplete | increment_init.py:61 | every well-formed set of groups is found again in its own text |
| SemVer.MatchVersionComplete | increment_init.py:61 | every text of the pattern, with or without a trailing newline, gives back its groups |
| SemVer.MatchVersionDecides | increment_init.py:61-63 | the matcher succeeds exactly on the texts the pattern describes |
| SemVer.ParseVersion | increment_init.py:61-67 | a version is read exactly when the text matches; its prerelease and build are identifiers when present |
| SemVer.ToVersion | increment_init.py:65-67 | `int()` of the three numeric groups, with the prerelease and build groups kept as they are (definition; characterised by `SemVer.ParseVersion`, `SemVer.SerializeRoundTrip` and `SemVer.SerializeReproduces`) |
| SemVer.Truthy | increment_init.py:102-104 | Python truthiness of an optional text: a missing or empty part counts as absent (definition; used by `SemVer.Serialize` and by the `if prerelease:` test of `Increment.Bump`) |
| SemVer.Serialize | increment_init.py:100-105 | `f"{major}.{minor}.{patch}"`, then `-prerelease` and `+build` when truthy (definition; characterised by `SemVer.SerializeRoundTrip`, `SemVer.SerializeReproduces` and `IncrementProperties.SerializeShape`) |
| SemVer.SerializeRoundTrip | increment_init.py:100-105 | writing a version whose prerelease and build are identifiers and reading it back gives the same version |
| SemVer.SerializeReproduces | increment_init.py:100-105 | a matched text is written back unchanged exactly when it has no trailing newline and its numerals have no leading zeros |
| Increment.HasVersion | increment_init.py:57 | `current_version` is truthy: present and not empty (definition; used by the first ensures of `Increment.IncrementVersion`) |
| Increment.IsReleaseKind | increment_init.py:70-81 | the three `==` tests for `major`, `minor` and `patch` (definition; used by `Increment.Bump` and `Increment.ReleaseKindsAreNotPrerelease`) |
| Increment.IsKnownKind | increment_init.py:70-98 | a kind that reaches one of the four branches rather than the error at increment_init.py:96-98 (definition; `Increment.Bump` and `Increment.IncrementVersion` state success and the kind error in terms of it) |
| Increment.IsPrereleaseKind | increment_init.py:82 | `increment_type.startswith("pre")` (definition; used by `Increment.Bump` and `Increment.ReleaseKindsAreNotPrerelease`) |
| Increment.PrereleaseLabel | increment_init.py:94 | `increment_type[3:] or "alpha"` (definition; characterised by `IncrementProperties.PrereleaseLabelOfKind`) |
| Increment.NextPrerelease | increment_init.py:84-91 | the continued prerelease, defined by split and join on `.` (definition; characterised by `Increment.NextPrereleaseCounts` and `Increment.NextPrereleaseAppends`, whose premises cover every prerelease, and by `Increment.NextPrereleaseIsIdent`) |
| Increment.ReleaseKindsAreNotPrerelease | increment_init.py:70-82 | `major`, `minor` and `patch` never reach the `pre` branch |
| Increment.NextPrereleaseCounts | increment_init.py:86-89 | a prerelease ending in `.` and a numeral has that numeral replaced by its value plus one |
| Increment.NextPrereleaseAppends | increment_init.py:86-91 | a prerelease that does not end in `.` and a numeral (no dot is followed by a numeral running to the end) gets `.1` appended |
| Increment.NextPrereleaseIsIdent | increment_setup.py:80-87 | continuing a prerelease made of `[a-zA-Z0-9.-]` keeps it so |
| Increment.DotNumeralIsIdent | increment_setup.py:84-85 | an identifier-character prefix, a dot and a numeral form an identifier |
| Increment.Bump | increment_setup.py:66-94 | the bump succeeds exactly for known kinds and otherwise names the kind; it keeps the build; `major`/`minor`/`patch` make the triple strictly larger and clear the prerelease; `pre*` keeps the triple and sets a prerelease |
| Increment.IncrementVersion | increment_init.py:45-107 | a missing or empty version gives `0.1.0` for any kind; the format error is raised exactly when the text does not match; the kind error exactly when it matches and the kind is unknown; no other error (apart from CPython's digit limit, see "Left out"); the kind defaults to `patch` |
| IncrementProperties.IncrementParsed | increment_init.py:65-107 | unfolding of `Increment.IncrementVersion` on a matching text: the bump of the parsed value, written out, or the bump's error; step towards the text lemmas below |
| IncrementProperties.BumpKeepsIdent | increment_setup.py:78-91 | a known bump keeps prerelease and build made of identifier characters, given an acceptable label |
| IncrementProperties.IncrementReparses | increment_init.py:61-107 | for every known kind (with an acceptable label) the result text matches the pattern again and reads back as the bumped value |
| IncrementProperties.BumpMajor | increment_setup.py:66-70 | unfolding of the `major` branch of `Increment.Bump`: `(major+1).0.0`, no prerelease, same build; step towards `IncrementProperties.IncrementMajor` |
| IncrementProperties.BumpMinor | increment_setup.py:71-74 | unfolding of the `minor` branch of `Increment.Bump`: `major.(minor+1).0`, no prerelease, same build; step towards `IncrementProperties.IncrementMinor` |
| IncrementProperties.BumpPatch | increment_setup.py:75-77 | unfolding of the `patch` branch of `Increment.Bump`: `major.minor.(patch+1)`, no prerelease, same build; step towards `IncrementProperties.IncrementPatch` |
| IncrementProperties.BumpExistingPrerelease | increment_setup.py:80-87 | unfolding of the existing-prerelease branch of `Increment.Bump`: any `pre*` kind continues that prerelease and changes nothing else; step towards `IncrementProperties.IncrementExistingPrerelease` |
| IncrementProperties.BumpFreshPrerelease | increment_setup.py:88-91 | unfolding of the fresh-prerelease branch of `Increment.Bump`: `pre<label>` sets `<label>.1` and changes nothing else; step towards `IncrementProperties.IncrementFreshPrerelease` |
| IncrementProperties.PrereleaseLabelOfKind | increment_init.py:94 | unfolding of `Increment.PrereleaseLabel` for `pre*` kinds: `alpha` for a bare `pre`, the rest of the kind otherwise |
| IncrementProperties.IncrementMajor | increment_init.py:70-74 | the text for `major` is `(major+1).0.0` followed by the original build |
| IncrementProperties.IncrementMinor | increment_init.py:75-78 | the text for `minor` is `major.(minor+1).0` followed by the original build |
| IncrementProperties.IncrementPatch | increment_init.py:79-81 | the text for `patch` is `major.minor.(patch+1)` followed by the original build |
| IncrementProperties.IncrementMajorReparses | increment_setup.py:66-70 | the `major` result reads back as `(major+1).0.0` with the build |
| IncrementProperties.IncrementMinorReparses | increment_setup.py:71-74 | the `minor` result reads back as `major.(minor+1).0` with the build |
| IncrementProperties.IncrementPatchReparses | increment_setup.py:75-77 | the `patch` result reads back as `major.minor.(patch+1)` with the build |
| IncrementProperties.IncrementExistingPrerelease | increment_init.py:84-91 | with an existing prerelease every `pre*` kind gives the same text, the triple, `-`, the continued prerelease and the build |
| IncrementProperties.IncrementExistingReparses | increment_setup.py:80-87 | that text reads back with the triple and build unchanged and the continued prerelease |
| IncrementProperties.IncrementFreshPrerelease | increment_init.py:92-95 | without a prerelease the text is the triple, `-`, the label (`alpha` for a bare `pre`), `.1` and the build |
| IncrementProperties.IncrementFreshReparses | increment_setup.py:88-91 | with an identifier label (`alpha` for a bare `pre`) that text reads back with the triple and build unchanged and prerelease `<label>.1` |
| Scenarios.UsageReleaseExamples | increment_init.py:11-19 | `0.1.8` becomes `0.1.9` with the default kind, `0.2.0` by `minor`, `1.0.0` by `major` |
| Scenarios.FreshPrereleaseExamples | increment_init.py:21-22 | `0.1.8` becomes `0.1.8-alpha.1` by `prealpha`; `1.2.3` becomes `1.2.3-alpha.1` by `pre` |
| Scenarios.ReleaseExamples | increment_setup.py:66-77 | `1.2.3` becomes `2.0.0`, `1.3.0`, `1.2.4` |
| Scenarios.CountsAlpha1 | increment_init.py:87-89 | `alpha.1` continues to `alpha.2` |
| Scenarios.CountsAlpha007 | increment_init.py:87-89 | `alpha.007` continues to `alpha.8` |
| Scenarios.AppendsWithoutCounter | increment_init.py:87-91 | `beta` continues to `beta.1` and a lone `3` to `3.1` |
| Scenarios.ContinuedCounterExample | increment_init.py:84-89 | `0.1.8-alpha.1` becomes `0.1.8-alpha.2` by `prealpha` |
| Scenarios.ContinuedLabelExample | increment_init.py:84-91 | `0.1.8-beta` becomes `0.1.8-beta.1` by `prex`: the asked-for label is ignored |
| Scenarios.BuildExample | increment_init.py:100-105 | `1.0.0-alpha+build5` becomes `2.0.0+build5` by `major` |
| Scenarios.LeadingZerosExample | increment_init.py:65 | `01.2.3` becomes `1.2.4` by `patch` |
| Scenarios.TrailingNewlineExample | increment_init.py:61 | `1.2.3` followed by a newline becomes `1.2.4` by `patch` |
| Scenarios.InvalidFormatExamples | increment_init.py:61-63 | `1.2` and `v1.2.3` are format errors for every kind |
| Scenarios.InvalidKindExample | increment_init.py:96-98 | `build` on `1.2.3` is a kind error |
| Scenarios.ForeignLabelExample | increment_init.py:93-95 | `pre+x` on `1.2.3` gives `1.2.3-+x.1`, a text the pattern rejects |

## Left out

- Reading the version out of `__init__.py` or `setup.py`, writing it back with a `.bak` backup, walking directories for `__init__.py` files, and the command-line entry points (argument parsing, `input()` prompts, printing, exit codes): these are file, terminal and process I/O around the function.
- `setup.py` (a call to setuptools) and `src/toPrint/toPrint.py`, a loop around an external tokenizer: neither is part of the version bump, and the tokenizer is not part of this model.
- Non-ASCII digits: Python's `\d`, `str.isdigit` and `int` also accept other Unicode decimal digits. The model accepts `0`–`9` only.
- The text of the two `ValueError` messages: the model returns the error kind with the offending version or kind, not the formatted message.
- Increment.IncrementVersion: does not model CPython's default limit of 4300 digits on conversions between `int` and decimal text (CPython 3.7.14+, 3.8.14+, 3.9.14+, 3.10.7+ and 3.11+; `setup.py` admits Python 3.7 and later). On such interpreters `int(...)` at increment_init.py:65 and :88 and `str(...)` at :88 and :101 raise `ValueError` for a longer numeral, where the model returns `Ok`. Numbers stay unbounded `nat`s.
- Non-string arguments: the model takes the version as `Option<string>` and the kind as a string. In Python a falsy non-string version (`0`, `False`, `[]`) also returns `"0.1.0"` through increment_init.py:57, a truthy non-string version makes `re.match` raise `TypeError`, and a non-string kind that passes the three comparisons raises `AttributeError` from `.startswith` at increment_init.py:82. None of these is represented.
- Apart from the digit limit above, Python integers are unbounded, as Dafny's `nat` is, so no width is modelled.
