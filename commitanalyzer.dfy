/**
 * The version-computation engine of go-semver-release
 * (internal/commitanalyzer/commitanalyzer.go): validation of the release rules,
 * the Conventional Commits 1.0.0 header matcher, the choice of the latest
 * version tag, and the fold of the commit history into a new version and a
 * "new release" flag. Repository access is replaced by plain sequences: tag
 * names in the repository's iteration order, and a commit log as a function of
 * the log options the engine asks for.
 */
module CommitAnalyzer {
  import opened Wrappers
  import opened Semver

  // ---------------------------------------------------------------------------
  // Release rules
  // ---------------------------------------------------------------------------

  /** A decoded `{"type": ..., "release": ...}` object; a missing key decodes to "". */
  datatype ReleaseRule = ReleaseRule(commitType: string, releaseType: string)

  /** The decoded document; `rules` is None when "releaseRules" is missing or null. */
  datatype ReleaseRules = ReleaseRules(rules: Option<seq<ReleaseRule>>)

  datatype Error =
    | RulesAbsent          // the document or its rule list is nil
    | InvalidRule(index: nat)  // the first rule outside the vocabularies
    | NoHead               // no tag and no HEAD to anchor the synthetic 0.0.0

  const CommitTypes: seq<string> :=
    ["build", "chore", "ci", "docs", "feat", "fix", "perf", "refactor", "revert", "style", "test"]

  const ReleaseTypes: seq<string> := ["major", "minor", "patch"]

  /** `required,oneof=...` on both fields ("" is in neither vocabulary). */
  predicate ValidRule(rule: ReleaseRule)
  {
    rule.commitType in CommitTypes && rule.releaseType in ReleaseTypes
  }

  /** The position of the first invalid rule at or after i. */
  function FirstInvalid(rules: seq<ReleaseRule>, i: nat): (r: Option<nat>)
    requires i <= |rules|
    ensures r.Some? ==> i <= r.value < |rules| && !ValidRule(rules[r.value])
    ensures r.Some? ==> forall j | i <= j < r.value :: ValidRule(rules[j])
    ensures r.None? <==> forall j | i <= j < |rules| :: ValidRule(rules[j])
    decreases |rules| - i
  {
    if i == |rules| then None
    else if !ValidRule(rules[i]) then Some(i)
    else FirstInvalid(rules, i + 1)
  }

  /**
   * Validation of a decoded document: the list must be present (an empty list
   * is present), and the rules are checked in order, the first failure reported.
   */
  function ParseReleaseRules(doc: Option<ReleaseRules>): (r: Result<seq<ReleaseRule>, Error>)
    ensures r.Success? <==>
      doc.Some? && doc.value.rules.Some? &&
      forall i | 0 <= i < |doc.value.rules.value| :: ValidRule(doc.value.rules.value[i])
    ensures r.Success? ==> r.value == doc.value.rules.value
    ensures r == Failure(RulesAbsent) <==> doc.None? || doc.value.rules.None?
    ensures r.Failure? ==> r.error.RulesAbsent? || r.error.InvalidRule?
    ensures r.Failure? && r.error.InvalidRule? ==>
      var rules := doc.value.rules.value;
      && r.error.index < |rules| && !ValidRule(rules[r.error.index])
      && forall j | 0 <= j < r.error.index :: ValidRule(rules[j])
  {
    match doc
    case None => Failure(RulesAbsent)
    case Some(d) =>
      match d.rules
      case None => Failure(RulesAbsent)
      case Some(rules) =>
        match FirstInvalid(rules, 0)
        case Some(i) => Failure(InvalidRule(i))
        case None => Success(rules)
  }

  // ---------------------------------------------------------------------------
  // The Conventional Commits header
  // ---------------------------------------------------------------------------

  /** The token that marks a breaking change anywhere in a message. */
  const BreakingChange: string := "BREAKING CHANGE"

  /** `\w` */
  predicate IsWordChar(c: char) { IsAlphanumeric(c) || c == '_' }

  /** `[\w\-\.\\\/]` */
  predicate IsScopeChar(c: char) { IsWordChar(c) || c == '-' || c == '.' || c == '\\' || c == '/' }

  /** `[\w ]` */
  predicate IsDescriptionChar(c: char) { IsWordChar(c) || c == ' ' }

  predicate IsScope(s: string)
  {
    |s| > 0 && forall k | 0 <= k < |s| :: IsScopeChar(s[k])
  }

  /** The commit-type token the message starts with, trying the alternatives in order from k. */
  function TypeToken(msg: string, k: nat): (r: Option<string>)
    requires k <= |CommitTypes|
    ensures r.Some? ==> r.value in CommitTypes && r.value <= msg
    ensures r.None? ==> forall j | k <= j < |CommitTypes| :: !(CommitTypes[j] <= msg)
    decreases |CommitTypes| - k
  {
    if k == |CommitTypes| then None
    else if CommitTypes[k] <= msg then Some(CommitTypes[k])
    else TypeToken(msg, k + 1)
  }

  /** The end of the run of scope characters that starts at i. */
  function ScopeRunEnd(s: string, i: nat): (e: nat)
    requires i <= |s|
    ensures i <= e <= |s|
    ensures forall k | i <= k < e :: IsScopeChar(s[k])
    ensures e < |s| ==> !IsScopeChar(s[e])
    decreases |s| - i
  {
    if i < |s| && IsScopeChar(s[i]) then ScopeRunEnd(s, i + 1) else i
  }

  /** The optional `(scope)` group and the position after it. */
  datatype ScopePart = ScopePart(scope: Option<string>, end: nat)

  /** Matches `(\([\w\-\.\\\/]+\))?` at i; None when a `(` opens a group that cannot close. */
  function ScopeAt(msg: string, i: nat): (r: Option<ScopePart>)
    requires i <= |msg|
    ensures r.Some? ==> i <= r.value.end <= |msg|
  {
    if i < |msg| && msg[i] == '(' then
      var e := ScopeRunEnd(msg, i + 1);
      if e > i + 1 && e < |msg| && msg[e] == ')' then Some(ScopePart(Some(msg[i + 1..e]), e + 1))
      else None
    else Some(ScopePart(None, i))
  }

  /** Substring search, as `strings.Contains`. */
  function Contains(s: string, sub: string): (r: bool)
    decreases |s|
  {
    if |s| < |sub| then false else s[..|sub|] == sub || Contains(s[1..], sub)
  }

  predicate OccursAt(s: string, sub: string, i: nat)
  {
    i + |sub| <= |s| && s[i..i + |sub|] == sub
  }

  lemma {:induction false} ContainsIff(s: string, sub: string)
    ensures Contains(s, sub) <==> exists i: nat :: OccursAt(s, sub, i)
    decreases |s|
  {
    if |s| < |sub| {
      forall i: nat ensures !OccursAt(s, sub, i) {}
    } else if s[..|sub|] == sub {
      assert OccursAt(s, sub, 0);
    } else {
      ContainsIff(s[1..], sub);
      forall i: nat | OccursAt(s[1..], sub, i) ensures OccursAt(s, sub, i + 1) {
        assert s[i + 1..i + 1 + |sub|] == s[1..][i..i + |sub|];
      }
      forall i: nat | OccursAt(s, sub, i) ensures i > 0 && OccursAt(s[1..], sub, i - 1) {
        assert s[1..][i - 1..i - 1 + |sub|] == s[i..i + |sub|];
      }
    }
  }

  /** The fields FindStringSubmatch yields for a matching message. */
  datatype ConventionalCommit = ConventionalCommit(commitType: string, scope: Option<string>, bang: bool, breaking: bool)

  /**
   * `^(type){1}(\(scope\))?(!)?: ([\w ])+([\s\S]*)` matched against a whole message.
   * The whole match (group 0) runs to the end of the message, so `BREAKING CHANGE`
   * is looked for in the whole message.
   */
  function Classify(msg: string): (r: Option<ConventionalCommit>)
    ensures r.Some? ==> |msg| > |r.value.commitType| + 2
  {
    match TypeToken(msg, 0)
    case None => None
    case Some(t) => ClassifyAfterType(msg, t)
  }

  /** The rest of the pattern, after the commit type t at the start of msg. */
  function ClassifyAfterType(msg: string, t: string): (r: Option<ConventionalCommit>)
    requires |t| <= |msg|
    ensures r.Some? ==> r.value.commitType == t && |msg| > |t| + 2
  {
    match ScopeAt(msg, |t|)
    case None => None
    case Some(sp) =>
      var bang := sp.end < |msg| && msg[sp.end] == '!';
      var j := if bang then sp.end + 1 else sp.end;
      if j + 2 < |msg| && msg[j] == ':' && msg[j + 1] == ' ' && IsDescriptionChar(msg[j + 2]) then
        Some(ConventionalCommit(t, sp.scope, bang, bang || Contains(msg, BreakingChange)))
      else None
  }

  /** The text of the optional scope group. */
  function ScopeText(scope: Option<string>): (r: string)
  {
    match scope
    case None => ""
    case Some(s) => "(" + s + ")"
  }

  /** The header a commit starts with, up to and including `": "`. */
  function HeaderText(commitType: string, scope: Option<string>, bang: bool): (r: string)
  {
    commitType + ScopeText(scope) + (if bang then "!" else "") + ": "
  }

  /** What the scope group consumed is the text of the scope it reports. */
  lemma ScopeAtSound(msg: string, i: nat)
    requires i <= |msg| && ScopeAt(msg, i).Some?
    ensures var sp := ScopeAt(msg, i).value;
      && (sp.scope.Some? ==> IsScope(sp.scope.value))
      && msg[i..sp.end] == ScopeText(sp.scope)
  {
    var sp := ScopeAt(msg, i).value;
    if sp.scope.Some? {
      var e := sp.end - 1;
      var body := sp.scope.value;
      assert body == msg[i + 1..e];
      var txt := ScopeText(sp.scope);
      assert txt == "(" + body + ")";
      assert |txt| == e + 1 - i;
      forall k | 0 <= k < |txt| ensures msg[i..sp.end][k] == txt[k] {
        if 0 < k < |txt| - 1 {
          assert txt[k] == body[k - 1];
        }
      }
    }
  }

  /** A scope group written out at i and followed by `!` or `:` is read back. */
  lemma ScopeAtText(msg: string, i: nat, scope: Option<string>)
    requires scope.Some? ==> IsScope(scope.value)
    requires i + |ScopeText(scope)| < |msg| && msg[i..i + |ScopeText(scope)|] == ScopeText(scope)
    requires msg[i + |ScopeText(scope)|] in {'!', ':'}
    ensures ScopeAt(msg, i) == Some(ScopePart(scope, i + |ScopeText(scope)|))
  {
    var txt := ScopeText(scope);
    if scope.Some? {
      var s := scope.value;
      assert txt == "(" + s + ")";
      assert msg[i] == txt[0] == '(';
      forall k | i + 1 <= k < i + 1 + |s| ensures msg[k] == s[k - i - 1] && IsScopeChar(msg[k]) {
        assert msg[k] == txt[k - i];
      }
      assert msg[i + 1 + |s|] == txt[1 + |s|] == ')';
      ScopeRunEndAt(msg, i + 1, i + 1 + |s|);
      assert msg[i + 1..i + 1 + |s|] == s;
    } else {
      assert msg[i] in {'!', ':'};
    }
  }

  /** No commit type is a prefix of another, so at most one alternative can match. */
  lemma CommitTypesPrefixFree(a: string, b: string)
    requires a in CommitTypes && b in CommitTypes
    ensures a <= b ==> a == b
  {
    if a <= b {
      assert |a| >= 2 && |b| >= 2;
      assert a[0] == b[0] && a[1] == b[1];
      if |a| >= 3 {
        assert a[2] == b[2];
      }
    }
  }

  /** Two prefixes of one string: one is a prefix of the other. */
  lemma PrefixesCompare(a: string, b: string, s: string)
    ensures a <= s && b <= s ==> a <= b || b <= a
  {
    if a <= s && b <= s {
      assert a == s[..|a|] && b == s[..|b|];
      if |a| <= |b| {
        assert b[..|a|] == s[..|a|];
      } else {
        assert a[..|b|] == s[..|b|];
      }
    }
  }

  lemma {:induction false} TypeTokenOfPrefix(t: string, msg: string, k: nat)
    requires t in CommitTypes && t <= msg && k <= |CommitTypes|
    requires t !in CommitTypes[..k]
    ensures TypeToken(msg, k) == Some(t)
    decreases |CommitTypes| - k
  {
    if CommitTypes[k] != t {
      PrefixesCompare(CommitTypes[k], t, msg);
      CommitTypesPrefixFree(CommitTypes[k], t);
      CommitTypesPrefixFree(t, CommitTypes[k]);
      assert CommitTypes[..k + 1] == CommitTypes[..k] + [CommitTypes[k]];
      TypeTokenOfPrefix(t, msg, k + 1);
    }
  }

  /** The pieces of a header, found one after another in a message, make up its start. */
  lemma HeaderAssembly(msg: string, t: string, scope: Option<string>, bang: bool, e: nat)
    requires t <= msg && |t| <= e <= |msg| && msg[|t|..e] == ScopeText(scope)
    requires var j := if bang then e + 1 else e;
      j + 1 < |msg| && (bang ==> msg[e] == '!') && msg[j] == ':' && msg[j + 1] == ' '
    ensures var h := HeaderText(t, scope, bang);
      |h| <= |msg| && msg[..|h|] == h
  {
    var j := if bang then e + 1 else e;
    var bt := if bang then "!" else "";
    assert msg[..|t|] == t;
    assert msg[e..j] == bt;
    assert msg[j..j + 2] == ": ";
    assert msg[..j + 2] == msg[..|t|] + msg[|t|..e] + msg[e..j] + msg[j..j + 2];
  }

  /** What follows a commit type: the rest of the header, then a description character. */
  lemma AfterTypeSound(msg: string, t: string)
    requires t <= msg && ClassifyAfterType(msg, t).Some?
    ensures var c := ClassifyAfterType(msg, t).value;
      var h := HeaderText(t, c.scope, c.bang);
      && (c.scope.Some? ==> IsScope(c.scope.value))
      && |h| < |msg| && msg[..|h|] == h && IsDescriptionChar(msg[|h|])
      && (c.breaking <==> c.bang || exists i: nat :: OccursAt(msg, BreakingChange, i))
  {
    var c := ClassifyAfterType(msg, t).value;
    var sp := ScopeAt(msg, |t|).value;
    ScopeAtSound(msg, |t|);
    HeaderAssembly(msg, t, c.scope, c.bang, sp.end);
    ContainsIff(msg, BreakingChange);
  }

  /** Every matching message is a header followed by a description character. */
  lemma ClassifySound(msg: string)
    requires Classify(msg).Some?
    ensures var c := Classify(msg).value;
      var h := HeaderText(c.commitType, c.scope, c.bang);
      && c.commitType in CommitTypes
      && (c.scope.Some? ==> IsScope(c.scope.value))
      && |h| < |msg| && msg[..|h|] == h && IsDescriptionChar(msg[|h|])
      && (c.breaking <==> c.bang || exists i: nat :: OccursAt(msg, BreakingChange, i))
  {
    AfterTypeSound(msg, TypeToken(msg, 0).value);
  }

  /** A well-formed rest of header, after a commit type, is read back with its own fields. */
  lemma AfterTypeComplete(commitType: string, scope: Option<string>, bang: bool, rest: string)
    requires scope.Some? ==> IsScope(scope.value)
    requires rest != [] && IsDescriptionChar(rest[0])
    ensures var msg := HeaderText(commitType, scope, bang) + rest;
      ClassifyAfterType(msg, commitType) == Some(ConventionalCommit(commitType, scope, bang, bang || Contains(msg, BreakingChange)))
  {
    var st, bt := ScopeText(scope), if bang then "!" else "";
    var msg := HeaderText(commitType, scope, bang) + rest;
    var i, e := |commitType|, |commitType| + |st|;
    assert msg == commitType + st + bt + ": " + rest;
    assert msg[i..e] == st;
    assert msg[e] == (if bang then '!' else ':');
    ScopeAtText(msg, i, scope);
  }

  /** Every header followed by a description character is matched, with its own fields. */
  lemma ClassifyComplete(commitType: string, scope: Option<string>, bang: bool, rest: string)
    requires commitType in CommitTypes
    requires scope.Some? ==> IsScope(scope.value)
    requires rest != [] && IsDescriptionChar(rest[0])
    ensures var msg := HeaderText(commitType, scope, bang) + rest;
      Classify(msg) == Some(ConventionalCommit(commitType, scope, bang, bang || Contains(msg, BreakingChange)))
  {
    var msg := HeaderText(commitType, scope, bang) + rest;
    assert msg == commitType + (ScopeText(scope) + (if bang then "!" else "") + ": " + rest);
    TypeTokenOfPrefix(commitType, msg, 0);
    AfterTypeComplete(commitType, scope, bang, rest);
  }

  lemma {:induction false} ScopeRunEndAt(s: string, i: nat, e: nat)
    requires i <= e <= |s|
    requires forall k | i <= k < e :: IsScopeChar(s[k])
    requires e < |s| ==> !IsScopeChar(s[e])
    ensures ScopeRunEnd(s, i) == e
    decreases e - i
  {
    if i < e {
      ScopeRunEndAt(s, i + 1, e);
    }
  }

  /**
   * The message as logged: cut to 57 characters and "..." when longer than 60,
   * otherwise without its last character (taken to be the final newline).
   */
  function ShortMessage(message: string): (r: string)
    requires |message| >= 1
    ensures |r| <= 60
    ensures |message| > 60 ==> |r| == 60 && r[..57] == message[..57] && r[57..] == "..."
    ensures |message| <= 60 ==> r + [message[|message| - 1]] == message
  {
    if |message| > 60 then message[..57] + "..." else message[..|message| - 1]
  }

  // ---------------------------------------------------------------------------
  // The latest version tag
  // ---------------------------------------------------------------------------

  /** The tag names that match the version grammar, in their original order. */
  function Candidates(tags: seq<string>): (r: seq<string>)
    ensures |r| <= |tags|
    ensures forall i | 0 <= i < |r| :: MatchesSemver(r[i])
  {
    if tags == [] then [] else (if MatchesSemver(tags[0]) then [tags[0]] else []) + Candidates(tags[1..])
  }

  /** Filtering distributes over concatenation: it keeps order and drops only non-matching names. */
  lemma {:induction false} CandidatesAppend(a: seq<string>, b: seq<string>)
    ensures Candidates(a + b) == Candidates(a) + Candidates(b)
  {
    if a == [] {
      assert a + b == b;
    } else {
      assert (a + b)[1..] == a[1..] + b;
      CandidatesAppend(a[1..], b);
    }
  }

  lemma {:induction false} CandidatesMembership(tags: seq<string>, x: string)
    ensures x in Candidates(tags) <==> x in tags && MatchesSemver(x)
  {
    if tags != [] {
      CandidatesMembership(tags[1..], x);
      assert tags == [tags[0]] + tags[1..];
    }
  }

  /** The version of a candidate name; it cannot fail, the filter used the same grammar. */
  function VersionOf(name: string): (v: Version)
    requires MatchesSemver(name)
  {
    NewSemverFromGitTag(name).value
  }

  /** The versions of a list of candidate names, position by position. */
  function Versions(c: seq<string>): (vs: seq<Version>)
    requires forall i | 0 <= i < |c| :: MatchesSemver(c[i])
    ensures |vs| == |c|
  {
    if c == [] then [] else [VersionOf(c[0])] + Versions(c[1..])
  }

  /** Position i of the versions is the version of name i. */
  lemma VersionsAt(c: seq<string>, i: nat)
    requires forall j | 0 <= j < |c| :: MatchesSemver(c[j])
    requires i < |c|
    ensures Versions(c)[i] == VersionOf(c[i])
    decreases i
  {
    if i > 0 {
      assert forall j | 0 <= j < |c[1..]| :: c[1..][j] == c[j + 1];
      VersionsAt(c[1..], i - 1);
    }
  }

  /**
   * The position the source's selection loop ends on: the first version of
   * greatest precedence (a later one replaces it only when strictly greater).
   */
  function LatestIndex(vs: seq<Version>): (k: nat)
    requires |vs| > 0
    ensures k < |vs|
  {
    if |vs| == 1 then 0
    else
      var k := LatestIndex(vs[..|vs| - 1]);
      if Precedence(vs[|vs| - 1], vs[k]) == 1 then |vs| - 1 else k
  }

  /** One more step of the selection loop over the first i + 1 versions. */
  lemma LatestIndexStep(vs: seq<Version>, i: nat)
    requires 0 < i < |vs|
    ensures var k := LatestIndex(vs[..i]);
      LatestIndex(vs[..i + 1]) == if Precedence(vs[i], vs[k]) == 1 then i else k
  {
    assert vs[..i + 1][..i] == vs[..i];
  }

  /** The selected version is at least as recent as every version and strictly more recent than every earlier one. */
  lemma {:induction false} LatestIndexIsFirstGreatest(vs: seq<Version>)
    requires |vs| > 0
    ensures var k := LatestIndex(vs);
      && (forall j | 0 <= j < |vs| :: Precedence(vs[k], vs[j]) >= 0)
      && (forall j | 0 <= j < k :: Precedence(vs[k], vs[j]) == 1)
  {
    if |vs| > 1 {
      var p := vs[..|vs| - 1];
      LatestIndexIsFirstGreatest(p);
      var k0 := LatestIndex(p);
      var last, best := vs[|vs| - 1], p[k0];
      if Precedence(last, best) == 1 {
        forall j | 0 <= j < |vs| - 1
          ensures Precedence(last, vs[j]) == 1
        {
          assert vs[j] == p[j];
          PrecedenceTransitive(last, best, vs[j]);
        }
      } else {
        PrecedenceAntisymmetric(last, best);
        forall j | 0 <= j < |vs| - 1
          ensures Precedence(best, vs[j]) >= 0
          ensures j < k0 ==> Precedence(best, vs[j]) == 1
        {
          assert vs[j] == p[j];
        }
      }
    }
  }

  /** The tag the computation starts from: a real tag, or the synthetic 0.0.0 at HEAD. */
  datatype Anchor = TagAnchor(name: string) | HeadAnchor

  /** What fetchLatestSemverTag returns, stated on the whole tag list. */
  function LatestAnchor(tags: seq<string>, hasHead: bool): (r: Result<Anchor, Error>)
    ensures Candidates(tags) == [] ==> r == (if hasHead then Success(HeadAnchor) else Failure(NoHead))
    ensures Candidates(tags) != [] ==> r.Success? && r.value.TagAnchor? && r.value.name in Candidates(tags)
    ensures r.Success? && r.value.TagAnchor? ==> MatchesSemver(r.value.name)
  {
    var c := Candidates(tags);
    if c == [] then (if hasHead then Success(HeadAnchor) else Failure(NoHead))
    else Success(TagAnchor(c[LatestIndex(Versions(c))]))
  }

  /** The selection, spelled out: greatest precedence among the candidates, first of its kind. */
  lemma LatestAnchorIsFirstGreatest(tags: seq<string>, hasHead: bool)
    requires Candidates(tags) != []
    ensures var c, name := Candidates(tags), LatestAnchor(tags, hasHead).value.name;
      && MatchesSemver(name)
      && (forall x | x in c :: Precedence(VersionOf(name), VersionOf(x)) >= 0)
      && exists k | 0 <= k < |c| :: c[k] == name && forall j | 0 <= j < k :: Precedence(VersionOf(name), VersionOf(c[j])) == 1
  {
    var c := Candidates(tags);
    var vs := Versions(c);
    var k := LatestIndex(vs);
    LatestIndexIsFirstGreatest(vs);
    VersionsAt(c, k);
    assert c[k] == LatestAnchor(tags, hasHead).value.name;
    forall x | x in c ensures Precedence(VersionOf(c[k]), VersionOf(x)) >= 0 {
      var j :| 0 <= j < |c| && c[j] == x;
      VersionsAt(c, j);
    }
    forall j | 0 <= j < k ensures Precedence(VersionOf(c[k]), VersionOf(c[j])) == 1 {
      VersionsAt(c, j);
    }
  }

  /**
   * The selection loop of fetchLatestSemverTag over the filtered names; its
   * first round only takes the first name, so that is done before the loop.
   */
  method SelectLatest(semverTags: seq<string>) returns (latestSemverTag: string)
    requires |semverTags| > 0
    requires forall i {:trigger MatchesSemver(semverTags[i])} | 0 <= i < |semverTags| :: MatchesSemver(semverTags[i])
    ensures latestSemverTag == semverTags[LatestIndex(Versions(semverTags))]
  {
    ghost var vs := Versions(semverTags);
    ghost var k := 0;
    latestSemverTag := semverTags[0];
    assert vs[..1] == [vs[0]];
    for i := 1 to |semverTags|
      invariant k < i && k == LatestIndex(vs[..i]) && latestSemverTag == semverTags[k]
    {
      var tag := semverTags[i];
      var current := VersionOf(tag);
      var old_ := VersionOf(latestSemverTag);
      VersionsAt(semverTags, i);
      VersionsAt(semverTags, k);
      LatestIndexStep(vs, i);
      if Precedence(current, old_) == 1 {
        latestSemverTag, k := tag, i;
      }
    }
    assert vs[..|semverTags|] == vs;
  }

  method FetchLatestSemverTag(tags: seq<string>, hasHead: bool) returns (r: Result<Anchor, Error>)
    ensures r == LatestAnchor(tags, hasHead)
  {
    var semverTags: seq<string> := [];
    for i := 0 to |tags|
      invariant semverTags == Candidates(tags[..i])
    {
      CandidatesAppend(tags[..i], [tags[i]]);
      assert tags[..i + 1] == tags[..i] + [tags[i]];
      if MatchesSemver(tags[i]) {
        semverTags := semverTags + [tags[i]];
      }
    }
    assert tags[..|tags|] == tags;

    if |semverTags| == 0 {
      if !hasHead {
        return Failure(NoHead);
      }
      return Success(HeadAnchor);
    }

    if |semverTags| == 1 {
      return Success(TagAnchor(semverTags[0]));
    }

    var latestSemverTag := SelectLatest(semverTags);
    return Success(TagAnchor(latestSemverTag));
  }

  // ---------------------------------------------------------------------------
  // The release fold
  // ---------------------------------------------------------------------------

  /** The version reached so far and whether any bump happened. */
  datatype Progress = Progress(version: Version, newRelease: bool)

  /** p, with the flag of earlier steps or-ed in. */
  function WithEarlierFlag(flag: bool, p: Progress): (r: Progress)
  {
    p.(newRelease := flag || p.newRelease)
  }

  /** One rule applied to a commit of type t; an unknown release type changes nothing. */
  function ApplyRule(v: Version, t: string, rule: ReleaseRule): (r: Progress)
  {
    if rule.commitType != t then Progress(v, false)
    else if rule.releaseType == "patch" then Progress(Bumped(v, PatchBump), true)
    else if rule.releaseType == "minor" then Progress(Bumped(v, MinorBump), true)
    else if rule.releaseType == "major" then Progress(Bumped(v, MajorBump), true)
    else Progress(v, false)
  }

  /** Every rule applied in list order to a non-breaking commit of type t. */
  function ApplyRules(v: Version, t: string, rules: seq<ReleaseRule>): (r: Progress)
    decreases |rules|
  {
    if rules == [] then Progress(v, false)
    else
      var p := ApplyRule(v, t, rules[0]);
      WithEarlierFlag(p.newRelease, ApplyRules(p.version, t, rules[1..]))
  }

  /**
   * The commits, oldest first, folded into a version: unmatched messages are
   * skipped, a breaking commit bumps major and ends the walk, any other commit
   * applies its rules.
   */
  function FoldCommits(v: Version, commits: seq<string>, rules: seq<ReleaseRule>): (r: Progress)
    decreases |commits|
  {
    if commits == [] then Progress(v, false)
    else
      match Classify(commits[0])
      case None => FoldCommits(v, commits[1..], rules)
      case Some(c) =>
        if c.breaking then Progress(Bumped(v, MajorBump), true)
        else
          var p := ApplyRules(v, c.commitType, rules);
          WithEarlierFlag(p.newRelease, FoldCommits(p.version, commits[1..], rules))
  }

  /** A rule set never lowers the version; the flag is set exactly when the version went up. */
  lemma {:induction false} ApplyRulesMonotone(v: Version, t: string, rules: seq<ReleaseRule>)
    ensures var p := ApplyRules(v, t, rules);
      && Precedence(p.version, v) >= 0
      && (p.newRelease <==> Precedence(p.version, v) == 1)
      && p.version.buildMetadata == v.buildMetadata
    decreases |rules|
  {
    if rules != [] {
      var p := ApplyRule(v, t, rules[0]);
      ApplyRulesMonotone(p.version, t, rules[1..]);
      var q := ApplyRules(p.version, t, rules[1..]);
      if p.newRelease {
        PrecedenceTransitive(q.version, p.version, v);
      } else {
        assert p.version == v;
      }
    }
  }

  /** A commit of type t sets the flag exactly when some rule for t names a known release type. */
  lemma {:induction false} ApplyRulesReleaseIff(v: Version, t: string, rules: seq<ReleaseRule>)
    ensures ApplyRules(v, t, rules).newRelease <==>
      exists k | 0 <= k < |rules| :: rules[k].commitType == t && rules[k].releaseType in ReleaseTypes
    decreases |rules|
  {
    if rules != [] {
      var p := ApplyRule(v, t, rules[0]);
      ApplyRulesReleaseIff(p.version, t, rules[1..]);
      if exists k | 0 <= k < |rules[1..]| :: rules[1..][k].commitType == t && rules[1..][k].releaseType in ReleaseTypes {
        var k :| 0 <= k < |rules[1..]| && rules[1..][k].commitType == t && rules[1..][k].releaseType in ReleaseTypes;
        assert rules[k + 1] == rules[1..][k];
      }
      if exists k | 0 <= k < |rules| :: rules[k].commitType == t && rules[k].releaseType in ReleaseTypes {
        var k :| 0 <= k < |rules| && rules[k].commitType == t && rules[k].releaseType in ReleaseTypes;
        if k > 0 {
          assert rules[1..][k - 1] == rules[k];
        }
      }
    }
  }

  /** A history in which no message matches the grammar leaves the version and the flag alone. */
  lemma {:induction false} FoldCommitsNoMatch(v: Version, commits: seq<string>, rules: seq<ReleaseRule>)
    requires forall k | 0 <= k < |commits| :: Classify(commits[k]).None?
    ensures FoldCommits(v, commits, rules) == Progress(v, false)
  {
    if commits != [] {
      assert forall k | 0 <= k < |commits[1..]| :: commits[1..][k] == commits[k + 1];
      FoldCommitsNoMatch(v, commits[1..], rules);
    }
  }

  /** Once a breaking commit is reached, no later commit is looked at. */
  lemma {:induction false} FoldCommitsStopsAtBreaking(v: Version, commits: seq<string>, k: nat, rules: seq<ReleaseRule>)
    requires k < |commits|
    requires Classify(commits[k]).Some? && Classify(commits[k]).value.breaking
    ensures FoldCommits(v, commits, rules) == FoldCommits(v, commits[..k + 1], rules)
    decreases k
  {
    var pre := commits[..k + 1];
    assert pre[0] == commits[0];
    if k > 0 {
      assert pre[1..] == commits[1..][..k];
      match Classify(commits[0])
      case None =>
        FoldCommitsStopsAtBreaking(v, commits[1..], k - 1, rules);
      case Some(c) =>
        if !c.breaking {
          var p := ApplyRules(v, c.commitType, rules);
          FoldCommitsStopsAtBreaking(p.version, commits[1..], k - 1, rules);
        }
    }
  }

  /** A breaking commit as the first matching one bumps major exactly once and sets the flag. */
  lemma FoldCommitsBreaking(v: Version, skipped: seq<string>, msg: string, later: seq<string>, rules: seq<ReleaseRule>)
    requires forall k | 0 <= k < |skipped| :: Classify(skipped[k]).None?
    requires Classify(msg).Some? && Classify(msg).value.breaking
    ensures FoldCommits(v, skipped + [msg] + later, rules) == Progress(Bumped(v, MajorBump), true)
  {
    var commits := skipped + [msg] + later;
    FoldCommitsStopsAtBreaking(v, commits, |skipped|, rules);
    FoldCommitsSkip(v, skipped, [msg], rules);
    assert commits[..|skipped| + 1] == skipped + [msg];
  }

  /** Unmatched messages in front of a history do not change its fold. */
  lemma {:induction false} FoldCommitsSkip(v: Version, skipped: seq<string>, rest: seq<string>, rules: seq<ReleaseRule>)
    requires forall k | 0 <= k < |skipped| :: Classify(skipped[k]).None?
    ensures FoldCommits(v, skipped + rest, rules) == FoldCommits(v, rest, rules)
  {
    if skipped != [] {
      assert (skipped + rest)[0] == skipped[0];
      assert (skipped + rest)[1..] == skipped[1..] + rest;
      assert forall k | 0 <= k < |skipped[1..]| :: skipped[1..][k] == skipped[k + 1];
      FoldCommitsSkip(v, skipped[1..], rest, rules);
    } else {
      assert skipped + rest == rest;
    }
  }

  /** The fold never lowers the version; the flag is set exactly when the version went up. */
  lemma {:induction false} FoldCommitsMonotone(v: Version, commits: seq<string>, rules: seq<ReleaseRule>)
    ensures var p := FoldCommits(v, commits, rules);
      && Precedence(p.version, v) >= 0
      && (p.newRelease <==> Precedence(p.version, v) == 1)
      && p.version.buildMetadata == v.buildMetadata
    decreases |commits|
  {
    if commits != [] {
      match Classify(commits[0])
      case None =>
        FoldCommitsMonotone(v, commits[1..], rules);
      case Some(c) =>
        if !c.breaking {
          var p := ApplyRules(v, c.commitType, rules);
          ApplyRulesMonotone(v, c.commitType, rules);
          FoldCommitsMonotone(p.version, commits[1..], rules);
          var q := FoldCommits(p.version, commits[1..], rules);
          PrecedenceTransitive(q.version, p.version, v);
        }
    }
  }

  // ---------------------------------------------------------------------------
  // Reversing the history
  // ---------------------------------------------------------------------------

  function Reversed(s: seq<string>): (r: seq<string>)
    ensures |r| == |s|
  {
    if s == [] then [] else Reversed(s[1..]) + [s[0]]
  }

  lemma {:induction false} ReversedIndex(s: seq<string>, k: nat)
    requires k < |s|
    ensures Reversed(s)[k] == s[|s| - 1 - k]
  {
    if k < |s| - 1 {
      ReversedIndex(s[1..], k);
    }
  }

  /** Reversal only reorders: the multiset of messages is kept. */
  lemma {:induction false} ReversedIsPermutation(s: seq<string>)
    ensures multiset(Reversed(s)) == multiset(s)
  {
    if s != [] {
      ReversedIsPermutation(s[1..]);
      assert s == [s[0]] + s[1..];
    }
  }

  /** The two-index swap loop of the source, newest-first log to oldest-first history. */
  method ReverseHistory(history: array<string>)
    modifies history
    ensures history[..] == Reversed(old(history[..]))
  {
    var n := history.Length;
    var i, j := 0, n - 1;
    while i < j
      invariant 0 <= i && j == n - 1 - i && 2 * i <= n
      invariant forall k | 0 <= k < i :: history[k] == old(history[n - 1 - k]) && history[n - 1 - k] == old(history[k])
      invariant forall k | i <= k < n - i :: history[k] == old(history[k])
    {
      history[i], history[j] := history[j], history[i];
      i, j := i + 1, j - 1;
    }
    forall k | 0 <= k < n ensures history[k] == Reversed(old(history[..]))[k] {
      ReversedIndex(old(history[..]), k);
    }
  }

  // ---------------------------------------------------------------------------
  // ComputeNewSemverNumber
  // ---------------------------------------------------------------------------

  /** The `git.LogOptions` the engine asks for: the whole log, or commits since a tag. */
  datatype LogOptions = AllCommits | SinceTag(anchor: Anchor)

  /** The version an anchor stands for. */
  function AnchorVersion(a: Anchor): (v: Version)
    requires a.TagAnchor? ==> MatchesSemver(a.name)
  {
    match a
    case TagAnchor(name) => VersionOf(name)
    case HeadAnchor => Zero
  }

  /** What one run of the engine returns, stated as a function of its inputs. */
  function NewSemverNumber(tags: seq<string>, hasHead: bool, log: LogOptions -> seq<string>, rules: seq<ReleaseRule>)
    : (r: Result<Progress, Error>)
  {
    match LatestAnchor(tags, hasHead)
    case Failure(e) => Failure(e)
    case Success(a) =>
      var start := AnchorVersion(a);
      var opts := if IsZero(start) then AllCommits else SinceTag(a);
      Success(FoldCommits(start, Reversed(log(opts)), rules))
  }

  /** A run fails exactly when no tag name matches and there is no HEAD to anchor 0.0.0. */
  lemma NewSemverNumberFails(tags: seq<string>, hasHead: bool, log: LogOptions -> seq<string>, rules: seq<ReleaseRule>)
    ensures NewSemverNumber(tags, hasHead, log, rules).Failure? <==> Candidates(tags) == [] && !hasHead
    ensures NewSemverNumber(tags, hasHead, log, rules).Failure? ==> NewSemverNumber(tags, hasHead, log, rules).error == NoHead
  {
  }

  /** Without a version tag the walk starts from 0.0.0 over the whole log. */
  lemma NewSemverNumberFromZero(tags: seq<string>, log: LogOptions -> seq<string>, rules: seq<ReleaseRule>)
    requires Candidates(tags) == []
    ensures NewSemverNumber(tags, true, log, rules) == Success(FoldCommits(Zero, Reversed(log(AllCommits)), rules))
  {
  }

  /** A run never lowers the anchor's version, and reports a release exactly when it raised it. */
  lemma NewSemverNumberMonotone(tags: seq<string>, hasHead: bool, log: LogOptions -> seq<string>, rules: seq<ReleaseRule>)
    requires NewSemverNumber(tags, hasHead, log, rules).Success?
    ensures var start, p := AnchorVersion(LatestAnchor(tags, hasHead).value), NewSemverNumber(tags, hasHead, log, rules).value;
      && Precedence(p.version, start) >= 0
      && (p.newRelease <==> Precedence(p.version, start) == 1)
  {
    var a := LatestAnchor(tags, hasHead).value;
    var start := AnchorVersion(a);
    var opts := if IsZero(start) then AllCommits else SinceTag(a);
    FoldCommitsMonotone(start, Reversed(log(opts)), rules);
  }

  /** Rules apply in list order: `feat` under minor then patch takes 1.0.0 to 1.1.1. */
  lemma RulesApplyInOrder()
    ensures ApplyRules(Version(1, 0, 0, ""), "feat", [ReleaseRule("feat", "minor"), ReleaseRule("feat", "patch")])
      == Progress(Version(1, 1, 1, ""), true)
  {
    var rules := [ReleaseRule("feat", "minor"), ReleaseRule("feat", "patch")];
    assert rules[1..][1..] == [];
  }

  /** A fix then a feature, under fix→patch and feat→minor, take 1.0.0 to 1.1.0. */
  lemma FixThenFeature()
    ensures FoldCommits(Version(1, 0, 0, ""), ["fix: a", "feat: b"], [ReleaseRule("fix", "patch"), ReleaseRule("feat", "minor")])
      == Progress(Version(1, 1, 0, ""), true)
  {
    var rules := [ReleaseRule("fix", "patch"), ReleaseRule("feat", "minor")];
    var v0, v1, v2 := Version(1, 0, 0, ""), Version(1, 0, 1, ""), Version(1, 1, 0, "");
    assert ApplyRules(v0, "fix", rules) == Progress(v1, true) by {
      assert rules[1..][1..] == [];
    }
    assert ApplyRules(v1, "feat", rules) == Progress(v2, true) by {
      assert rules[1..][1..] == [];
    }
    assert FoldCommits(v1, ["feat: b"], rules) == Progress(v2, true) by {
      ClassifyComplete("feat", None, false, "b");
      assert HeaderText("feat", None, false) + "b" == "feat: b";
      assert ["feat: b"][1..] == [];
    }
    ClassifyComplete("fix", None, false, "a");
    assert HeaderText("fix", None, false) + "a" == "fix: a";
    assert ["fix: a", "feat: b"][1..] == ["feat: b"];
  }

  /** A breaking commit bumps major once and hides every later commit. */
  lemma BreakingStopsTheWalk()
    ensures FoldCommits(Version(1, 2, 3, ""), ["feat!: x", "fix: y"], [ReleaseRule("fix", "patch")])
      == Progress(Version(2, 0, 0, ""), true)
  {
    var commits := ["feat!: x", "fix: y"];
    ClassifyComplete("feat", None, true, "x");
    assert HeaderText("feat", None, true) + "x" == commits[0];
  }

  /** One rule of the list, taken at position j. */
  lemma ApplyRulesStep(v: Version, t: string, rules: seq<ReleaseRule>, j: nat)
    requires j < |rules|
    ensures var p := ApplyRule(v, t, rules[j]);
      ApplyRules(v, t, rules[j..]) == WithEarlierFlag(p.newRelease, ApplyRules(p.version, t, rules[j + 1..]))
  {
    assert rules[j..][0] == rules[j] && rules[j..][1..] == rules[j + 1..];
  }

  /** A message at position i that does not match the grammar is skipped. */
  lemma FoldCommitsSkipAt(v: Version, commits: seq<string>, i: nat, rules: seq<ReleaseRule>)
    requires i < |commits| && Classify(commits[i]).None?
    ensures FoldCommits(v, commits[i..], rules) == FoldCommits(v, commits[i + 1..], rules)
  {
    assert commits[i..][0] == commits[i] && commits[i..][1..] == commits[i + 1..];
  }

  /** A breaking commit at position i bumps major and ends the walk. */
  lemma FoldCommitsBreakAt(v: Version, commits: seq<string>, i: nat, rules: seq<ReleaseRule>)
    requires i < |commits| && Classify(commits[i]).Some? && Classify(commits[i]).value.breaking
    ensures FoldCommits(v, commits[i..], rules) == Progress(Bumped(v, MajorBump), true)
  {
    assert commits[i..][0] == commits[i];
  }

  /** Any other commit at position i applies its rules and the walk goes on. */
  lemma FoldCommitsApplyAt(v: Version, commits: seq<string>, i: nat, rules: seq<ReleaseRule>)
    requires i < |commits| && Classify(commits[i]).Some? && !Classify(commits[i]).value.breaking
    ensures var p := ApplyRules(v, Classify(commits[i]).value.commitType, rules);
      FoldCommits(v, commits[i..], rules) == WithEarlierFlag(p.newRelease, FoldCommits(p.version, commits[i + 1..], rules))
  {
    assert commits[i..][0] == commits[i] && commits[i..][1..] == commits[i + 1..];
  }

  /** The rules loop for one non-breaking commit of type t: bumps `semver` in place. */
  method ApplyReleaseRules(semver: Semver, t: string, rules: seq<ReleaseRule>) returns (bumped: bool)
    modifies semver
    ensures Progress(semver.Value(), bumped) == ApplyRules(old(semver.Value()), t, rules)
  {
    ghost var v := semver.Value();
    bumped := false;
    for j := 0 to |rules|
      invariant WithEarlierFlag(bumped, ApplyRules(semver.Value(), t, rules[j..])) == ApplyRules(v, t, rules)
    {
      var rule := rules[j];
      ApplyRulesStep(semver.Value(), t, rules, j);
      if t != rule.commitType {
        continue;
      }
      if rule.releaseType == "patch" {
        semver.BumpPatch();
        bumped := true;
      } else if rule.releaseType == "minor" {
        semver.BumpMinor();
        bumped := true;
      } else if rule.releaseType == "major" {
        semver.BumpMajor();
        bumped := true;
      }
    }
    assert rules[|rules|..] == [];
  }

  /** The walk over the history, oldest commit first: bumps `semver` in place. */
  method WalkHistory(semver: Semver, commits: seq<string>, rules: seq<ReleaseRule>) returns (newRelease: bool)
    modifies semver
    ensures Progress(semver.Value(), newRelease) == FoldCommits(old(semver.Value()), commits, rules)
  {
    ghost var goal := FoldCommits(semver.Value(), commits, rules);
    newRelease := false;
    for i := 0 to |commits|
      invariant WithEarlierFlag(newRelease, FoldCommits(semver.Value(), commits[i..], rules)) == goal
    {
      var message := commits[i];
      ghost var v := semver.Value();
      var commit := Classify(message);
      if commit.None? {
        FoldCommitsSkipAt(v, commits, i, rules);
        continue;
      }
      var c := commit.value;

      if c.breaking {
        FoldCommitsBreakAt(v, commits, i, rules);
        semver.BumpMajor();
        newRelease := true;
        break;
      }

      FoldCommitsApplyAt(v, commits, i, rules);
      var bumped := ApplyReleaseRules(semver, c.commitType, rules);
      newRelease := newRelease || bumped;
    }
    assert commits[|commits|..] == [];
  }

  /** One run of the engine: anchor, history since the anchor, oldest first, walked under the rules. */
  method ComputeNewSemverNumber(tags: seq<string>, hasHead: bool, log: LogOptions -> seq<string>, rules: seq<ReleaseRule>)
    returns (r: Result<Progress, Error>)
    ensures r == NewSemverNumber(tags, hasHead, log, rules)
  {
    var latestSemverTag := FetchLatestSemverTag(tags, hasHead);
    if latestSemverTag.Failure? {
      return Failure(latestSemverTag.error);
    }
    var anchor := latestSemverTag.value;

    var semver := new Semver(AnchorVersion(anchor));

    var logOptions := if !IsZero(semver.Value()) then SinceTag(anchor) else AllCommits;
    var commitHistory := log(logOptions);

    var history := new string[|commitHistory|](k requires 0 <= k < |commitHistory| => commitHistory[k]);
    assert history[..] == commitHistory;
    ReverseHistory(history);

    var newRelease := WalkHistory(semver, history[..], rules);
    return Success(Progress(semver.Value(), newRelease));
  }
}
