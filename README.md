# go-semver-release: the version-computation engine in Dafny

This project models the part of go-semver-release that decides the next
version of a repository. It has three parts:

- **`semver.dfy`** (module `Semver`) models `internal/semver/semver.go`:
  - the `Semver` value: three non-negative numbers plus build metadata;
  - the three in-place bumps, as methods of a class `Semver` whose fields they update;
  - the zero test, the precedence comparison, formatting and the validated factory `NewSemver`;
  - the extraction of a version from a tag name. This uses a hand-written matcher for the
    Semantic Versioning 2.0.0 pattern `SemverRegex`. Like Go's `FindStringSubmatch`, the
    matcher is unanchored at the start, takes the leftmost match, and its `$` is the end of
    the name.
- **`commitanalyzer.dfy`** (module `CommitAnalyzer`) models
  `internal/commitanalyzer/commitanalyzer.go`:
  - validation of the release rules;
  - a hand-written matcher for the Conventional Commits 1.0.0 header
    `type(scope)!: description`, with `BREAKING CHANGE` searched for anywhere in the message;
  - `shortMessage`;
  - `fetchLatestSemverTag`, as a filter loop plus a selection loop;
  - `ComputeNewSemverNumber`, as three steps: the in-place reversal of the history array,
    the walk over the commits, and the rules loop that bumps a shared `Semver` object.
- **`wrappers.dfy`** (module `Wrappers`) holds `Option` and `Result`.

Each imperative operation is a method proved against a specification function:
- `FetchLatestSemverTag` returns `LatestAnchor`.
- `ReverseHistory` leaves `Reversed` of the old array.
- `WalkHistory` and `ApplyReleaseRules` reach `FoldCommits` and `ApplyRules`.
- `ComputeNewSemverNumber` returns `NewSemverNumber`.

The lemmas then prove what the source promises about those functions.

The repository is replaced by parameters:
- `tags` is the tag names, in the order `TagObjects` yields them;
- `hasHead` says whether `HEAD` resolves;
- `log` maps the requested `LogOptions` (`AllCommits`, or `SinceTag(anchor)`) to the commit
  messages, newest first, as `Log` returns them.

## Model

| member | source | states |
|---|---|---|
| `Semver.Semver.constructor` | internal/semver/semver.go:14-19 | the object holds exactly the given struct value |
| `Semver.Semver.BumpPatch` | internal/semver/semver.go:21-23 | patch grows by one; major, minor and metadata are unchanged; the new value is `Bumped(old, PatchBump)` |
| `Semver.Semver.BumpMinor` | internal/semver/semver.go:25-28 | patch becomes 0 and minor grows by one; major and metadata are unchanged |
| `Semver.Semver.BumpMajor` | internal/semver/semver.go:30-34 | minor and patch become 0 and major grows by one; metadata is unchanged |
| `Semver.Bumped` | internal/semver/semver.go:21-34 | every bump gives a version of precedence 1 over the old one, keeps the metadata, and has the triple of the cascading reset |
| `Semver.IsZero` | internal/semver/semver.go:36-39 | true exactly when major, minor and patch are all 0, whatever the metadata |
| `Semver.Precedence` | internal/semver/semver.go:99-119 | the result is -1, 0 or 1 |
| `Semver.PrecedenceIsLexicographic` | internal/semver/semver.go:99-119 | 1, -1 or 0 exactly when the triples are in strict lexicographic order one way, the other way, or equal |
| `Semver.PrecedenceAntisymmetric` | internal/semver/semver.go:99-119 | swapping the arguments negates the result |
| `Semver.PrecedenceZeroIffSameTriple` | internal/semver/semver.go:99-119 | 0 exactly when major, minor and patch agree |
| `Semver.PrecedenceIgnoresMetadata` | internal/semver/semver.go:99-119 | changing either version's build metadata never changes the result |
| `Semver.PrecedenceTransitive` | internal/semver/semver.go:99-119 | "at least as recent" is transitive, and strict if either step is strict |
| `Semver.NatToStringFacts` | internal/semver/semver.go:41-43 | `%d` writes a non-empty, all-digit numeral without a leading zero that reads back as the number |
| `Semver.NormalVersion` | internal/semver/semver.go:41-43 | `%d.%d.%d` of the three components; no contract of its own: `NatToStringFacts` gives the numerals, and `ParseNormalVersion` and `ParsePrefixed` give the round trip |
| `Semver.String` | internal/semver/semver.go:45-51 | the normal version, then nothing when metadata is empty, otherwise `+` and the metadata |
| `Semver.NewSemver` | internal/semver/semver.go:53-63 | succeeds exactly when every component is at least 0 and the metadata is alphanumeric or empty; the value is the given fields; the failure is `InvalidSemver` |
| `Semver.MatchAt` | internal/semver/semver.go:12 | the pattern anchored at one position and running to the end of the name (`$`), with its three captured numerals; no contract of its own: `MatchNormalVersion` says what it accepts, `MatchAtSound` that it accepts nothing else, and `NewSemverFromGitTagIsLeftmost` what it yields |
| `Semver.FindSubmatch` | internal/semver/semver.go:69-75 | `FindStringSubmatch`: the first position from which `MatchAt` succeeds; no contract of its own: its meaning is stated by `FindSubmatchIsLeftmost` and `FindSubmatchNone` |
| `Semver.MatchesSemver` | internal/semver/semver.go:12 | `MatchString` (commitanalyzer.go:92): some position of the name matches; no contract of its own: `NewSemverFromGitTag` succeeds exactly on such names, and `CandidatesMembership` keeps exactly them |
| `Semver.FindSubmatchIsLeftmost` | internal/semver/semver.go:69-75 | the reported match is a match of the pattern, and no earlier position matches |
| `Semver.FindSubmatchNone` | internal/semver/semver.go:69-75 | no match is reported only when no position of the name matches |
| `Semver.NewSemverFromGitTag` | internal/semver/semver.go:67-97 | succeeds exactly when the name matches the pattern; otherwise fails with `MalformedVersion`; the version never carries metadata |
| `Semver.NewSemverFromGitTagIsLeftmost` | internal/semver/semver.go:67-97 | the version read from a name has the triple captured at the leftmost position where the pattern matches: that position matches with this triple, and no earlier one matches |
| `Semver.MatchAtSound` | internal/semver/semver.go:12 | a match at a position is three `%d` numerals (no leading zero, as `0\|[1-9]\d*`) joined by dots, with the captured triple as their values, followed by a well-formed pre-release/build suffix that runs to the end of the name |
| `Semver.MatchesSemverIff` | internal/semver/semver.go:12 | `MatchString` (commitanalyzer.go:92) holds exactly when the name is some prefix, a rendered normal version and a well-formed suffix; both directions are stated |
| `Semver.MatchNormalVersion` | internal/semver/semver.go:12 | a rendered normal version written after any prefix and followed by any well-formed pre-release/build suffix matches where it starts, with its own triple |
| `Semver.MetadataIsBuildSuffix` | internal/semver/semver.go:12 | `+` followed by non-empty alphanumeric metadata is a build suffix that the pattern accepts |
| `Semver.ParseString` | internal/semver/semver.go:67-97 | reading back `String(v)` of a valid version gives its triple, with empty metadata |
| `Semver.ParseNormalVersion` | internal/semver/semver.go:67-97 | reading back `NormalVersion(v)` gives v with empty metadata |
| `Semver.ParsePrefixed` | internal/semver/semver.go:67-97 | a name made of a digit-free prefix such as `v`, a normal version and a well-formed suffix reads back as that version's triple, with empty metadata |
| `CommitAnalyzer.FirstInvalid` | internal/commitanalyzer/commitanalyzer.go:64-68 | finds the first rule outside the two vocabularies, and nothing exactly when every rule is valid |
| `CommitAnalyzer.ParseReleaseRules` | internal/commitanalyzer/commitanalyzer.go:53-71 | succeeds exactly when the list is present and every rule is valid, returning that list; `RulesAbsent` exactly when the document or the list is nil; any other failure is `InvalidRule` with the index of the first invalid rule |
| `CommitAnalyzer.TypeToken` | internal/commitanalyzer/commitanalyzer.go:22 | a found type is in the vocabulary and starts the message; none found means no vocabulary word starts it |
| `CommitAnalyzer.CommitTypesPrefixFree` | internal/commitanalyzer/commitanalyzer.go:22 | no commit type is a proper prefix of another, so at most one alternative of the type group matches |
| `CommitAnalyzer.ContainsIff` | internal/commitanalyzer/commitanalyzer.go:194 | `strings.Contains` holds exactly when the substring occurs at some position |
| `CommitAnalyzer.Classify` | internal/commitanalyzer/commitanalyzer.go:22 | the commit-header pattern applied to a message, with type, scope, `!` and the breaking flag; its own contract only bounds the message length, and its meaning is stated in both directions by `ClassifySound` and `ClassifyComplete` |
| `CommitAnalyzer.ClassifySound` | internal/commitanalyzer/commitanalyzer.go:189-195 | a matched message starts with its header `type(scope)!: ` followed by a `[\w ]` character; the type is in the vocabulary; the scope is non-empty scope characters; breaking exactly when `!` was given or `BREAKING CHANGE` occurs anywhere |
| `CommitAnalyzer.ClassifyComplete` | internal/commitanalyzer/commitanalyzer.go:189-195 | every such header followed by a `[\w ]` character is matched, with its own type, scope and `!` |
| `CommitAnalyzer.ShortMessage` | internal/commitanalyzer/commitanalyzer.go:239-245 | over 60 characters: 60 long, the first 57 kept, then `...`; otherwise the message without its last character |
| `CommitAnalyzer.Candidates` | internal/commitanalyzer/commitanalyzer.go:88-96 | keeps only names that match the version pattern, never more names than given |
| `CommitAnalyzer.CandidatesAppend` | internal/commitanalyzer/commitanalyzer.go:88-96 | filtering distributes over concatenation, so the original order is kept |
| `CommitAnalyzer.CandidatesMembership` | internal/commitanalyzer/commitanalyzer.go:88-96 | a name is kept exactly when it is among the tags and matches the pattern |
| `CommitAnalyzer.LatestIndex` | internal/commitanalyzer/commitanalyzer.go:118-140 | the position the selection loop ends on; its own contract only keeps it in range, and `LatestIndexIsFirstGreatest` states that it is the first of greatest precedence |
| `CommitAnalyzer.LatestIndexIsFirstGreatest` | internal/commitanalyzer/commitanalyzer.go:118-140 | the selected version has precedence at least that of every version, and strictly greater than every earlier one |
| `CommitAnalyzer.LatestAnchor` | internal/commitanalyzer/commitanalyzer.go:88-140 | with no candidate: the synthetic 0.0.0 at `HEAD`, or `NoHead` without a `HEAD`; otherwise one of the candidates |
| `CommitAnalyzer.LatestAnchorIsFirstGreatest` | internal/commitanalyzer/commitanalyzer.go:118-140 | the selected tag has precedence at least that of every candidate, and is the first of greatest precedence |
| `CommitAnalyzer.SelectLatest` | internal/commitanalyzer/commitanalyzer.go:118-140 | the loop ends on the name at the first position of greatest precedence |
| `CommitAnalyzer.FetchLatestSemverTag` | internal/commitanalyzer/commitanalyzer.go:79-145 | the filter loop and the selection return `LatestAnchor` of the tag list |
| `CommitAnalyzer.Reversed` | internal/commitanalyzer/commitanalyzer.go:182-185 | the reverse of a history; its own contract keeps the length, and `ReversedIndex` and `ReversedIsPermutation` state the positions and the multiset |
| `CommitAnalyzer.ReversedIndex` | internal/commitanalyzer/commitanalyzer.go:182-185 | position k of the reversal is position n-1-k of the original |
| `CommitAnalyzer.ReversedIsPermutation` | internal/commitanalyzer/commitanalyzer.go:182-185 | the reversal has the same multiset of messages |
| `CommitAnalyzer.ReverseHistory` | internal/commitanalyzer/commitanalyzer.go:182-185 | the two-index swap loop leaves the array equal to the reversal of its old contents |
| `CommitAnalyzer.ApplyRule` | internal/commitanalyzer/commitanalyzer.go:207-226 | one rule for a commit of type t: skip on another type, otherwise the bump its release type names, or nothing for an unknown one; no contract of its own: its effect is stated through `ApplyRulesMonotone` and `ApplyRulesReleaseIff` |
| `CommitAnalyzer.ApplyRules` | internal/commitanalyzer/commitanalyzer.go:206-228 | every rule applied in list order, with the flags or-ed; no contract of its own: `ApplyRulesMonotone`, `ApplyRulesReleaseIff` and `RulesApplyInOrder` state its meaning, and `ApplyReleaseRules` is proved equal to it |
| `CommitAnalyzer.ApplyRulesMonotone` | internal/commitanalyzer/commitanalyzer.go:206-228 | the rules never lower the version; the flag is set exactly when the version went up; metadata is kept |
| `CommitAnalyzer.ApplyRulesReleaseIff` | internal/commitanalyzer/commitanalyzer.go:206-228 | the flag is set exactly when some rule for the commit's type names `patch`, `minor` or `major` |
| `CommitAnalyzer.RulesApplyInOrder` | internal/commitanalyzer/commitanalyzer.go:206-228 | `feat→minor` then `feat→patch` take 1.0.0 to 1.1.1: rules apply one after another in list order |
| `CommitAnalyzer.ApplyReleaseRules` | internal/commitanalyzer/commitanalyzer.go:206-228 | the rules loop bumps the shared object to `ApplyRules` of its old value and reports its flag |
| `CommitAnalyzer.FoldCommits` | internal/commitanalyzer/commitanalyzer.go:187-230 | the walk oldest first: skip unmatched messages, stop at a breaking one after a major bump, else apply the rules; no contract of its own: the `FoldCommits…` lemmas below state its meaning, and `WalkHistory` is proved equal to it |
| `CommitAnalyzer.FoldCommitsNoMatch` | internal/commitanalyzer/commitanalyzer.go:187-191 | if no message matches the grammar, the result is the start version and `false` |
| `CommitAnalyzer.FoldCommitsSkip` | internal/commitanalyzer/commitanalyzer.go:189-191 | unmatched messages in front of a history do not change its result |
| `CommitAnalyzer.FoldCommitsStopsAtBreaking` | internal/commitanalyzer/commitanalyzer.go:199-204 | no commit after a breaking one affects the result |
| `CommitAnalyzer.FoldCommitsBreaking` | internal/commitanalyzer/commitanalyzer.go:199-204 | a breaking commit as the first matching one bumps major exactly once and sets the flag |
| `CommitAnalyzer.BreakingStopsTheWalk` | internal/commitanalyzer/commitanalyzer.go:199-204 | `feat!: x` then `fix: y` take 1.2.3 to 2.0.0: the later fix is not applied |
| `CommitAnalyzer.FoldCommitsMonotone` | internal/commitanalyzer/commitanalyzer.go:187-230 | the walk never lowers the version; the flag is set exactly when the version went up; metadata is kept |
| `CommitAnalyzer.FixThenFeature` | internal/commitanalyzer/commitanalyzer.go:187-230 | `fix: a` then `feat: b` under `fix→patch`, `feat→minor` take 1.0.0 to 1.1.0 |
| `CommitAnalyzer.WalkHistory` | internal/commitanalyzer/commitanalyzer.go:187-230 | the walk, with its early `break`, bumps the shared object to `FoldCommits` of its old value and reports its flag |
| `CommitAnalyzer.NewSemverNumber` | internal/commitanalyzer/commitanalyzer.go:151-237 | one run as a function of its inputs: the anchor, the log options chosen by `IsZero`, and the fold of the reversed log; no contract of its own: `NewSemverNumberFails`, `NewSemverNumberFromZero` and `NewSemverNumberMonotone` state its meaning, and `ComputeNewSemverNumber` is proved equal to it |
| `CommitAnalyzer.NewSemverNumberFails` | internal/commitanalyzer/commitanalyzer.go:151-156 | a run fails exactly when no tag matches and there is no `HEAD`, and the failure is then `NoHead` |
| `CommitAnalyzer.NewSemverNumberFromZero` | internal/commitanalyzer/commitanalyzer.go:164-168 | with no version tag, the walk starts from 0.0.0 over the whole log, oldest first |
| `CommitAnalyzer.NewSemverNumberMonotone` | internal/commitanalyzer/commitanalyzer.go:151-237 | a run never returns a version below the anchor's, and reports a new release exactly when the version went up |
| `CommitAnalyzer.ComputeNewSemverNumber` | internal/commitanalyzer/commitanalyzer.go:151-237 | fetch, log, in-place reversal and walk together return `NewSemverNumber` of the inputs |

## Left out

- Repository access (`TagObjects`, `Head`, `Log`) is replaced by the parameters `tags`, `hasHead` and `log`. The time cutoff `LogOptions.Since = Tagger.When` is inside `log`: the model records only that `SinceTag(anchor)` is requested when the anchor's version is not zero.
- `Log` errors and `logger.Fatalf` (commitanalyzer.go:170-173) are not modelled, because `log` is total. The error check at lines 232-234 can then never fire.
- `tagger.NewTag` is not part of this model. The synthetic tag at `HEAD` is `HeadAnchor`, which stands only for the version 0.0.0.
- JSON decoding is not modelled. `ParseReleaseRules` takes the decoded document; a missing or null `releaseRules` is `None`, and a missing field decodes to `""`.
- The `validator` library is replaced by explicit predicates. `alphanumunicode` is read as ASCII letters and digits only.
- All logging, the short hash and the `shortMessage` call inside the walk only feed log lines, so they are not in the walk. `ShortMessage` is modelled on its own.
- SemverRegex's pre-release and build-metadata groups are matched in full but not captured, because the source never uses them.
- Semver.Semver.BumpPatch: does not model Go's 64-bit `int` wrap-around, because the components are unbounded `nat`s.
- Semver.Semver.BumpMinor: does not model Go's 64-bit `int` wrap-around, because the components are unbounded `nat`s.
- Semver.Semver.BumpMajor: does not model Go's 64-bit `int` wrap-around, because the components are unbounded `nat`s.
- Semver.NewSemverFromGitTag: does not model `strconv.Atoi`'s out-of-range error, because numerals are read as unbounded naturals.
- CommitAnalyzer.ShortMessage: requires a non-empty message, because on an empty one `message[0:len(message)-1]` panics; the only call (commitanalyzer.go:197) passes a message that has just matched the commit pattern, so it is never empty.
- CommitAnalyzer.ShortMessage: counts characters where Go's `len` and slicing count bytes, because strings are sequences of characters; the two agree on ASCII messages.
- The parse-error branches at commitanalyzer.go:122-125, 132-135 and 159-162 are not modelled as branches. At 122-125 and 132-135 every name has already passed the same pattern. At 159-162 the anchor is such a name or `HeadAnchor`, the synthetic tag that stands for 0.0.0 (see above). So `VersionOf` and `AnchorVersion` take a matching name as a precondition.
- CommitAnalyzer.SelectLatest: starts its loop at position 1, because the source's first round only takes the first name.
- The walk of `ComputeNewSemverNumber` is split into `WalkHistory` and, for the inner loop, `ApplyReleaseRules`. The walk iterates over the reversed array's contents after the reversal, because nothing writes the array during the walk.

Two behaviours of the code worth noting, which the model follows:
- An empty rule list passes validation, because `required` on a slice rejects only nil.
- `shortMessage` is applied to the whole commit message, not only to its description.
