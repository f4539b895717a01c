/**
 * The semantic-version value type of go-semver-release (internal/semver/semver.go):
 * a triple of non-negative integers with build metadata, its three in-place bumps,
 * the zero test, the precedence comparison, formatting, the validated factory and
 * the extraction of a version from a tag name by the Semantic Versioning 2.0.0
 * grammar (section 2, normal version; section 10, build metadata; section 9,
 * pre-release identifiers, which are matched but not kept).
 */
module Semver {
  import opened Wrappers

  /** The value of a Go `Semver` struct; the value-receiver methods work on it. */
  datatype Version = Version(major: nat, minor: nat, patch: nat, buildMetadata: string)

  datatype Error =
    | InvalidSemver     // NewSemver: a negative component or non-alphanumeric metadata
    | MalformedVersion  // NewSemverFromGitTag: the name does not match the version grammar

  datatype Bump = PatchBump | MinorBump | MajorBump

  /** The version 0.0.0 without metadata that stands for "no release yet". */
  const Zero: Version := Version(0, 0, 0, "")

  // ---------------------------------------------------------------------------
  // Bumps
  // ---------------------------------------------------------------------------

  /** What one bump makes of a version, with the cascading resets of the source. */
  function Bumped(v: Version, b: Bump): (r: Version)
    ensures r.buildMetadata == v.buildMetadata
    ensures Precedence(r, v) == 1
    ensures b == PatchBump ==> Key(r) == [v.major, v.minor, v.patch + 1]
    ensures b == MinorBump ==> Key(r) == [v.major, v.minor + 1, 0]
    ensures b == MajorBump ==> Key(r) == [v.major + 1, 0, 0]
  {
    match b
    case PatchBump => v.(patch := v.patch + 1)
    case MinorBump => v.(minor := v.minor + 1, patch := 0)
    case MajorBump => v.(major := v.major + 1, minor := 0, patch := 0)
  }

  /** The object a `*Semver` points to; the bumps update its fields in place. */
  class Semver {
    var major: nat
    var minor: nat
    var patch: nat
    var buildMetadata: string

    /** The struct value the fields hold. */
    function Value(): Version
      reads this
    {
      Version(major, minor, patch, buildMetadata)
    }

    constructor (v: Version)
      ensures Value() == v
    {
      major, minor, patch, buildMetadata := v.major, v.minor, v.patch, v.buildMetadata;
    }

    method BumpPatch()
      modifies this
      ensures patch == old(patch) + 1
      ensures major == old(major) && minor == old(minor) && buildMetadata == old(buildMetadata)
      ensures Value() == Bumped(old(Value()), PatchBump)
    {
      patch := patch + 1;
    }

    method BumpMinor()
      modifies this
      ensures patch == 0 && minor == old(minor) + 1
      ensures major == old(major) && buildMetadata == old(buildMetadata)
      ensures Value() == Bumped(old(Value()), MinorBump)
    {
      patch := 0;
      minor := minor + 1;
    }

    method BumpMajor()
      modifies this
      ensures patch == 0 && minor == 0 && major == old(major) + 1
      ensures buildMetadata == old(buildMetadata)
      ensures Value() == Bumped(old(Value()), MajorBump)
    {
      patch := 0;
      minor := 0;
      major := major + 1;
    }
  }

  // ---------------------------------------------------------------------------
  // Zero test and precedence
  // ---------------------------------------------------------------------------

  /** The source tests `Major == Minor && Minor == Patch && Patch == 0`. */
  function IsZero(v: Version): (r: bool)
    ensures r <==> v.major == 0 && v.minor == 0 && v.patch == 0
    ensures r <==> Key(v) == Key(Zero)
  {
    v.major == v.minor && v.minor == v.patch && v.patch == 0
  }

  /** The numeric triple on which precedence is decided. */
  function Key(v: Version): (k: seq<nat>)
  {
    [v.major, v.minor, v.patch]
  }

  /**
   * 1 when s1 is the more recent, -1 when s2 is, 0 when they are equal;
   * major, then minor, then patch, and never the build metadata.
   */
  function Precedence(s1: Version, s2: Version): (r: int)
    ensures -1 <= r <= 1
  {
    if s1.major > s2.major then 1
    else if s1.major < s2.major then -1
    else if s1.minor > s2.minor then 1
    else if s1.minor < s2.minor then -1
    else if s1.patch > s2.patch then 1
    else if s1.patch < s2.patch then -1
    else 0
  }

  /** Strict lexicographic order on equally long sequences of naturals. */
  predicate LexLess(x: seq<nat>, y: seq<nat>)
    requires |x| == |y|
  {
    x != [] && (x[0] < y[0] || (x[0] == y[0] && LexLess(x[1..], y[1..])))
  }

  lemma {:induction false} LexLessTransitive(x: seq<nat>, y: seq<nat>, z: seq<nat>)
    requires |x| == |y| == |z|
    requires LexLess(x, y) && LexLess(y, z)
    ensures LexLess(x, z)
  {
    if x[0] == y[0] == z[0] {
      LexLessTransitive(x[1..], y[1..], z[1..]);
    }
  }

  lemma {:induction false} LexLessTrichotomy(x: seq<nat>, y: seq<nat>)
    requires |x| == |y|
    ensures LexLess(x, y) || x == y || LexLess(y, x)
    ensures !(LexLess(x, y) && LexLess(y, x))
    ensures !(LexLess(x, y) && x == y)
  {
    if x != [] && x[0] == y[0] {
      LexLessTrichotomy(x[1..], y[1..]);
      if x[1..] == y[1..] {
        assert x == [x[0]] + x[1..] && y == [y[0]] + y[1..];
      }
    }
  }

  /** LexLess on two keys, spelled out component by component. */
  lemma LexLessOfKeys(a: Version, b: Version)
    ensures LexLess(Key(a), Key(b)) <==>
      a.major < b.major || (a.major == b.major && (a.minor < b.minor || (a.minor == b.minor && a.patch < b.patch)))
  {
    var ka, kb := Key(a), Key(b);
    assert ka[1..] == [a.minor, a.patch] && kb[1..] == [b.minor, b.patch];
    assert ka[1..][1..] == [a.patch] && kb[1..][1..] == [b.patch];
    assert ka[1..][1..][1..] == [] && kb[1..][1..][1..] == [];
    assert LexLess(ka[1..][1..][1..], kb[1..][1..][1..]) == false;
    assert LexLess(ka[1..][1..], kb[1..][1..]) <==> a.patch < b.patch;
    assert LexLess(ka[1..], kb[1..]) <==> a.minor < b.minor || (a.minor == b.minor && a.patch < b.patch);
  }

  /** Precedence is the lexicographic order on (major, minor, patch), read both ways. */
  lemma PrecedenceIsLexicographic(a: Version, b: Version)
    ensures Precedence(a, b) == 1 <==> LexLess(Key(b), Key(a))
    ensures Precedence(a, b) == -1 <==> LexLess(Key(a), Key(b))
    ensures Precedence(a, b) == 0 <==> Key(a) == Key(b)
  {
    var ka, kb := Key(a), Key(b);
    LexLessOfKeys(a, b);
    LexLessOfKeys(b, a);
    LexLessTrichotomy(ka, kb);
  }

  lemma PrecedenceAntisymmetric(a: Version, b: Version)
    ensures Precedence(a, b) == -Precedence(b, a)
  {
    PrecedenceIsLexicographic(a, b);
    PrecedenceIsLexicographic(b, a);
  }

  lemma PrecedenceZeroIffSameTriple(a: Version, b: Version)
    ensures Precedence(a, b) == 0 <==> a.major == b.major && a.minor == b.minor && a.patch == b.patch
  {
    PrecedenceIsLexicographic(a, b);
  }

  /** Build metadata never takes part in the comparison. */
  lemma PrecedenceIgnoresMetadata(a: Version, b: Version, ma: string, mb: string)
    ensures Precedence(a.(buildMetadata := ma), b.(buildMetadata := mb)) == Precedence(a, b)
  {
    PrecedenceIsLexicographic(a, b);
    PrecedenceIsLexicographic(a.(buildMetadata := ma), b.(buildMetadata := mb));
  }

  /** "At least as recent" is transitive, and strictly so when either step is strict. */
  lemma PrecedenceTransitive(a: Version, b: Version, c: Version)
    requires Precedence(a, b) >= 0 && Precedence(b, c) >= 0
    ensures Precedence(a, c) >= 0
    ensures Precedence(a, b) == 1 || Precedence(b, c) == 1 ==> Precedence(a, c) == 1
  {
    PrecedenceIsLexicographic(a, b);
    PrecedenceIsLexicographic(b, c);
    PrecedenceIsLexicographic(a, c);
    if LexLess(Key(b), Key(a)) && LexLess(Key(c), Key(b)) {
      LexLessTransitive(Key(c), Key(b), Key(a));
    }
  }

  // ---------------------------------------------------------------------------
  // Formatting
  // ---------------------------------------------------------------------------

  predicate IsDigit(c: char) { '0' <= c <= '9' }

  predicate IsAlphanumeric(c: char) { IsDigit(c) || 'a' <= c <= 'z' || 'A' <= c <= 'Z' }

  /** The character of one decimal digit. */
  function DigitChar(d: nat): (c: char)
    requires d < 10
    ensures IsDigit(c) && DigitValue(c) == d
  {
    (('0' as int) + d) as char
  }

  /** The value of a decimal digit (0 for any other character; only digits are ever read). */
  function DigitValue(c: char): (d: nat)
    ensures d < 10
  {
    if IsDigit(c) then c as int - '0' as int else 0
  }

  /** The decimal value of the digits s[i..e], as `strconv.Atoi` reads them. */
  function DigitsValue(s: string, i: nat, e: nat): (n: nat)
    requires i <= e <= |s|
    decreases e - i
  {
    if e == i then 0 else DigitsValue(s, i, e - 1) * 10 + DigitValue(s[e - 1])
  }

  /** The value depends only on the digits themselves, not on where they sit. */
  lemma {:induction false} DigitsValueFrame(s: string, i: nat, t: string, j: nat, len: nat)
    requires i + len <= |s| && j + len <= |t|
    requires forall k | i <= k < i + len :: s[k] == t[k - i + j]
    ensures DigitsValue(s, i, i + len) == DigitsValue(t, j, j + len)
    decreases len
  {
    if len > 0 {
      DigitsValueFrame(s, i, t, j, len - 1);
      assert s[i + len - 1] == t[j + len - 1];
    }
  }

  /** The `%d` rendering of a natural number. */
  function NatToString(n: nat): (r: string)
  {
    if n < 10 then [DigitChar(n)] else NatToString(n / 10) + [DigitChar(n % 10)]
  }

  /** `%d` yields a canonical numeral (no leading zero) that reads back as n. */
  lemma {:induction false} NatToStringFacts(n: nat)
    ensures |NatToString(n)| > 0
    ensures forall k | 0 <= k < |NatToString(n)| :: IsDigit(NatToString(n)[k])
    ensures DigitsValue(NatToString(n), 0, |NatToString(n)|) == n
    ensures n == 0 <==> NatToString(n)[0] == '0'
    ensures n == 0 ==> NatToString(n) == "0"
  {
    var s := NatToString(n);
    if n >= 10 {
      var r := NatToString(n / 10);
      NatToStringFacts(n / 10);
      assert s == r + [DigitChar(n % 10)];
      DigitsValueFrame(s, 0, r, 0, |r|);
    }
  }

  /** `Major.Minor.Patch`. */
  function NormalVersion(v: Version): (r: string)
  {
    NatToString(v.major) + "." + NatToString(v.minor) + "." + NatToString(v.patch)
  }

  /** The normal version, followed by `+metadata` when the metadata is not empty. */
  function String(v: Version): (r: string)
    ensures |NormalVersion(v)| <= |r| && r[..|NormalVersion(v)|] == NormalVersion(v)
    ensures r[|NormalVersion(v)|..] == if v.buildMetadata == "" then "" else "+" + v.buildMetadata
  {
    if v.buildMetadata != "" then NormalVersion(v) + "+" + v.buildMetadata else NormalVersion(v)
  }

  // ---------------------------------------------------------------------------
  // The validated factory
  // ---------------------------------------------------------------------------

  /** The `omitempty,alphanumunicode` tag, read over ASCII letters and digits. */
  predicate IsAlphanumericString(s: string)
  {
    forall k | 0 <= k < |s| :: IsAlphanumeric(s[k])
  }

  /** Fails unless every component is at least 0 and the metadata is alphanumeric or empty. */
  function NewSemver(major: int, minor: int, patch: int, metadata: string): (r: Result<Version, Error>)
    ensures r.Success? <==> major >= 0 && minor >= 0 && patch >= 0 && IsAlphanumericString(metadata)
    ensures r.Success? ==> r.value == Version(major, minor, patch, metadata)
    ensures r.Failure? ==> r.error == InvalidSemver
  {
    if major < 0 || minor < 0 || patch < 0 || !IsAlphanumericString(metadata) then Failure(InvalidSemver)
    else Success(Version(major, minor, patch, metadata))
  }

  // ---------------------------------------------------------------------------
  // The version grammar of a tag name
  // ---------------------------------------------------------------------------

  /** `[0-9a-zA-Z-]` */
  predicate IsIdentChar(c: char) { IsAlphanumeric(c) || c == '-' }

  /** One pre-release identifier: `0|[1-9]\d*|\d*[a-zA-Z-][0-9a-zA-Z-]*`. */
  predicate IsPreReleaseIdent(s: string)
  {
    && |s| > 0
    && (forall k | 0 <= k < |s| :: IsIdentChar(s[k]))
    && ((exists k | 0 <= k < |s| :: !IsDigit(s[k])) || s == "0" || s[0] != '0')
  }

  /** One build-metadata identifier: `[0-9a-zA-Z-]+`. */
  predicate IsBuildIdent(s: string)
  {
    |s| > 0 && forall k | 0 <= k < |s| :: IsIdentChar(s[k])
  }

  /** The first position of c in s. */
  function IndexOf(s: string, c: char): (r: Option<nat>)
    ensures r.Some? ==> r.value < |s| && s[r.value] == c
  {
    if s == [] then None
    else if s[0] == c then Some(0)
    else match IndexOf(s[1..], c)
      case None => None
      case Some(k) => Some(k + 1)
  }

  /** IndexOf finds the first occurrence, and reports none only when c does not occur. */
  lemma {:induction false} IndexOfFirst(s: string, c: char)
    ensures IndexOf(s, c).Some? ==> forall j | 0 <= j < IndexOf(s, c).value :: s[j] != c
    ensures IndexOf(s, c).None? <==> forall j | 0 <= j < |s| :: s[j] != c
  {
    if s != [] && s[0] != c {
      IndexOfFirst(s[1..], c);
      assert forall j | 1 <= j < |s| :: s[j] == s[1..][j - 1];
    }
  }

  /** Identifiers separated by single dots; pre-release identifiers if `pre`, build ones otherwise. */
  predicate IsDotList(s: string, pre: bool)
    decreases |s|
  {
    match IndexOf(s, '.')
    case None => if pre then IsPreReleaseIdent(s) else IsBuildIdent(s)
    case Some(k) =>
      && (if pre then IsPreReleaseIdent(s[..k]) else IsBuildIdent(s[..k]))
      && IsDotList(s[k + 1..], pre)
  }

  /** What may follow the patch number up to the end of the name: `(-pre-release)?(+build)?`. */
  predicate IsVersionSuffix(s: string)
  {
    || s == []
    || (s[0] == '+' && IsDotList(s[1..], false))
    || (s[0] == '-' &&
        match IndexOf(s, '+')
        case None => IsDotList(s[1..], true)
        case Some(k) => IsDotList(s[1..k], true) && IsDotList(s[k + 1..], false))
  }

  /** The end of the run of digits that starts at i. */
  function DigitRunEnd(s: string, i: nat): (e: nat)
    requires i <= |s|
    ensures i <= e <= |s|
    ensures forall k | i <= k < e :: IsDigit(s[k])
    ensures e < |s| ==> !IsDigit(s[e])
    decreases |s| - i
  {
    if i < |s| && IsDigit(s[i]) then DigitRunEnd(s, i + 1) else i
  }

  /** A numeral with its value and the position just after it. */
  datatype Numeral = Numeral(value: nat, end: nat)

  /** The group `(0|[1-9]\d*)` at position i, read by `strconv.Atoi`. */
  function NumeralAt(s: string, i: nat): (r: Option<Numeral>)
    requires i <= |s|
    ensures r.Some? ==> i < r.value.end <= |s|
  {
    if i < |s| && s[i] == '0' then Some(Numeral(0, i + 1))
    else if i < |s| && '1' <= s[i] <= '9' then
      var e := DigitRunEnd(s, i);
      Some(Numeral(DigitsValue(s, i, e), e))
    else None
  }

  /** The three numeric groups of a match. */
  datatype Triple = Triple(major: nat, minor: nat, patch: nat)

  /**
   * Numerals from position i, each followed by a dot while `more` groups remain,
   * the last followed by a version suffix running to the end of s (the pattern ends in `$`).
   */
  function GroupsFrom(s: string, i: nat, more: nat): (r: Option<seq<nat>>)
    requires i <= |s|
    ensures r.Some? ==> |r.value| == more + 1
    decreases more
  {
    match NumeralAt(s, i)
    case None => None
    case Some(n) =>
      if more == 0 then
        if IsVersionSuffix(s[n.end..]) then Some([n.value]) else None
      else if n.end < |s| && s[n.end] == '.' then
        match GroupsFrom(s, n.end + 1, more - 1)
        case None => None
        case Some(g) => Some([n.value] + g)
      else None
  }

  /** The version grammar matched from position i to the end of s. */
  function MatchAt(s: string, i: nat): (r: Option<Triple>)
    requires i <= |s|
  {
    match GroupsFrom(s, i, 2)
    case None => None
    case Some(g) => Some(Triple(g[0], g[1], g[2]))
  }

  /** Where the leftmost match starts and what it captured. */
  datatype Submatch = Submatch(start: nat, groups: Triple)

  /** The match of the pattern at each position of s, and no match past its end. */
  function MatchesIn(s: string): (matcher: nat -> Option<Triple>)
  {
    (j: nat) => if j <= |s| then MatchAt(s, j) else None
  }

  /** The first position from i up to n at which `matcher` succeeds. */
  function Leftmost(matcher: nat -> Option<Triple>, n: nat, i: nat): (r: Option<Submatch>)
    requires i <= n
    decreases n - i
  {
    match matcher(i)
    case Some(g) => Some(Submatch(i, g))
    case None => if i < n then Leftmost(matcher, n, i + 1) else None
  }

  /** The leftmost match at or after position i, as `FindStringSubmatch` reports it. */
  function FindSubmatch(s: string, i: nat): (r: Option<Submatch>)
    requires i <= |s|
  {
    Leftmost(MatchesIn(s), |s|, i)
  }

  /** The position Leftmost reports matches, and no position before it does. */
  lemma {:induction false} LeftmostIsFirst(matcher: nat -> Option<Triple>, n: nat, i: nat)
    requires i <= n && Leftmost(matcher, n, i).Some?
    ensures var m := Leftmost(matcher, n, i).value;
      && i <= m.start <= n && matcher(m.start) == Some(m.groups)
      && forall j | i <= j < m.start :: matcher(j).None?
    decreases n - i
  {
    if matcher(i).None? {
      LeftmostIsFirst(matcher, n, i + 1);
    }
  }

  /** Leftmost reports nothing only when no position matches. */
  lemma {:induction false} LeftmostNone(matcher: nat -> Option<Triple>, n: nat, i: nat)
    requires i <= n && Leftmost(matcher, n, i).None?
    ensures forall j | i <= j <= n :: matcher(j).None?
    decreases n - i
  {
    if i < n {
      LeftmostNone(matcher, n, i + 1);
    }
  }

  /** A first match at k is the one Leftmost reports. */
  lemma {:induction false} LeftmostAt(matcher: nat -> Option<Triple>, n: nat, i: nat, k: nat)
    requires i <= k <= n && matcher(k).Some?
    requires forall j | i <= j < k :: matcher(j).None?
    ensures Leftmost(matcher, n, i) == Some(Submatch(k, matcher(k).value))
    decreases k - i
  {
    if i < k {
      LeftmostAt(matcher, n, i + 1, k);
    }
  }

  /** The reported match is a match, and no match starts earlier. */
  lemma FindSubmatchIsLeftmost(s: string, i: nat)
    requires i <= |s| && FindSubmatch(s, i).Some?
    ensures var m := FindSubmatch(s, i).value;
      && i <= m.start <= |s| && MatchAt(s, m.start) == Some(m.groups)
      && forall j | i <= j < m.start :: MatchAt(s, j).None?
  {
    LeftmostIsFirst(MatchesIn(s), |s|, i);
    var m := FindSubmatch(s, i).value;
    forall j | i <= j < m.start ensures MatchAt(s, j).None? {
      assert MatchesIn(s)(j).None?;
    }
  }

  /** No match is reported only when no position matches. */
  lemma FindSubmatchNone(s: string, i: nat)
    requires i <= |s| && FindSubmatch(s, i).None?
    ensures forall j | i <= j <= |s| :: MatchAt(s, j).None?
  {
    LeftmostNone(MatchesIn(s), |s|, i);
    forall j | i <= j <= |s| ensures MatchAt(s, j).None? {
      assert MatchesIn(s)(j).None?;
    }
  }

  /** `SemverRegex.MatchString(name)`: some suffix of the name is a version. */
  predicate MatchesSemver(name: string)
  {
    FindSubmatch(name, 0).Some?
  }

  /** Some position of the name matches with groups g, and no earlier position matches. */
  predicate IsLeftmostMatch(name: string, g: Triple)
  {
    exists i | 0 <= i <= |name| ::
      && MatchAt(name, i) == Some(g)
      && forall j | 0 <= j < i :: MatchAt(name, j).None?
  }

  /** The version a tag name denotes, without metadata; fails exactly when the name does not match. */
  function NewSemverFromGitTag(name: string): (r: Result<Version, Error>)
    ensures r.Success? <==> MatchesSemver(name)
    ensures r.Failure? ==> r.error == MalformedVersion
    ensures r.Success? ==> r.value.buildMetadata == ""
  {
    match FindSubmatch(name, 0)
    case None => Failure(MalformedVersion)
    case Some(m) => NewSemver(m.groups.major, m.groups.minor, m.groups.patch, "")
  }

  /** The version read from a name is the triple of its leftmost match. */
  lemma NewSemverFromGitTagIsLeftmost(name: string)
    ensures var r := NewSemverFromGitTag(name);
      r.Success? ==> IsLeftmostMatch(name, Triple(r.value.major, r.value.minor, r.value.patch))
  {
    if FindSubmatch(name, 0).Some? {
      FindSubmatchIsLeftmost(name, 0);
      var m := FindSubmatch(name, 0).value;
      assert MatchAt(name, m.start) == Some(m.groups);
    }
  }

  // ---------------------------------------------------------------------------
  // Round trip: formatting a version and reading it back
  // ---------------------------------------------------------------------------

  lemma {:induction false} DigitRunEndAt(s: string, i: nat, e: nat)
    requires i <= e <= |s|
    requires forall k | i <= k < e :: IsDigit(s[k])
    requires e < |s| ==> !IsDigit(s[e])
    ensures DigitRunEnd(s, i) == e
    decreases e - i
  {
    if i < e {
      DigitRunEndAt(s, i + 1, e);
    }
  }

  /** d is the canonical decimal numeral of n: digits only, no leading zero. */
  predicate IsDecimal(d: string, n: nat)
  {
    && |d| > 0
    && (forall k | 0 <= k < |d| :: IsDigit(d[k]))
    && DigitsValue(d, 0, |d|) == n
    && (d[0] == '0' ==> d == "0")
  }

  /** s[i..e] is the canonical decimal numeral of n. */
  predicate DecimalAt(s: string, i: nat, e: nat, n: nat)
  {
    && i < e <= |s|
    && (forall k | i <= k < e :: IsDigit(s[k]))
    && DigitsValue(s, i, e) == n
    && (s[i] == '0' ==> e == i + 1)
  }

  /** A numeral d written between p and q occupies s[|p|..|p| + |d|]. */
  lemma DecimalPlaced(s: string, p: string, d: string, q: string, n: nat)
    requires s == p + d + q && IsDecimal(d, n)
    ensures DecimalAt(s, |p|, |p| + |d|, n)
  {
    var i, e := |p|, |p| + |d|;
    forall k | i <= k < e ensures s[k] == d[k - i] && IsDigit(s[k]) {
    }
    DigitsValueFrame(s, i, d, 0, |d|);
    if s[i] == '0' {
      assert d[0] == '0';
    }
  }

  /** A canonical numeral followed by a non-digit (or nothing) is read back as its value. */
  lemma NumeralAtDecimal(s: string, i: nat, e: nat, n: nat)
    requires DecimalAt(s, i, e, n)
    requires e < |s| ==> !IsDigit(s[e])
    ensures NumeralAt(s, i) == Some(Numeral(n, e))
  {
    if s[i] != '0' {
      DigitRunEndAt(s, i, e);
    } else {
      assert DigitsValue(s, i, i + 1) == DigitsValue(s, i, i) * 10 + DigitValue(s[i]);
    }
  }

  /** The last group: a canonical numeral followed by a version suffix running to the end. */
  lemma LastGroup(s: string, i: nat, e: nat, n: nat)
    requires DecimalAt(s, i, e, n) && IsVersionSuffix(s[e..])
    ensures GroupsFrom(s, i, 0) == Some([n])
  {
    NumeralAtDecimal(s, i, e, n);
  }

  /** A canonical numeral and a dot in front of the remaining groups add one group. */
  lemma DotGroup(s: string, i: nat, e: nat, n: nat, more: nat, g: seq<nat>)
    requires DecimalAt(s, i, e, n) && e < |s| && s[e] == '.'
    requires more > 0 && GroupsFrom(s, e + 1, more - 1) == Some(g)
    ensures GroupsFrom(s, i, more) == Some([n] + g)
  {
    NumeralAtDecimal(s, i, e, n);
  }

  /** Three canonical numerals separated by dots from position b, then a version suffix, match at b. */
  lemma GroupsAt(s: string, b: nat, e1: nat, e2: nat, e3: nat, x: nat, y: nat, z: nat)
    requires DecimalAt(s, b, e1, x) && e1 < |s| && s[e1] == '.'
    requires DecimalAt(s, e1 + 1, e2, y) && e2 < |s| && s[e2] == '.'
    requires DecimalAt(s, e2 + 1, e3, z) && IsVersionSuffix(s[e3..])
    ensures MatchAt(s, b) == Some(Triple(x, y, z))
  {
    LastGroup(s, e2 + 1, e3, z);
    DotGroup(s, e1 + 1, e2, y, 1, [z]);
    DotGroup(s, b, e1, x, 2, [y] + [z]);
    assert [x] + ([y] + [z]) == [x, y, z];
  }

  /** Three canonical numerals joined by dots, then a version suffix, match where they start, after p. */
  lemma DecimalTriple(p: string, a: string, b: string, c: string, t: string, x: nat, y: nat, z: nat)
    requires IsDecimal(a, x) && IsDecimal(b, y) && IsDecimal(c, z) && IsVersionSuffix(t)
    ensures MatchAt(p + (a + "." + b + "." + c) + t, |p|) == Some(Triple(x, y, z))
  {
    var s := p + (a + "." + b + "." + c) + t;
    var e1 := |p| + |a|;
    var e2 := e1 + 1 + |b|;
    var e3 := e2 + 1 + |c|;
    Regroup(p, a, b, c, t);
    DecimalPlaced(s, p, a, "." + b + "." + c + t, x);
    DecimalPlaced(s, p + a + ".", b, "." + c + t, y);
    DecimalPlaced(s, p + a + "." + b + ".", c, t, z);
    GroupsAt(s, |p|, e1, e2, e3, x, y, z);
  }

  /** `p` then `a.b.c` then t, bracketed the ways the group lemmas read it. */
  lemma Regroup(p: string, a: string, b: string, c: string, t: string)
    ensures var s := p + (a + "." + b + "." + c) + t;
      && s == p + a + ("." + b + "." + c + t)
      && s == (p + a + ".") + b + ("." + c + t)
      && s == (p + a + "." + b + ".") + c + t
      && |p + a + "."| == |p| + |a| + 1
      && |p + a + "." + b + "."| == |p| + |a| + 1 + |b| + 1
      && s[|p| + |a|] == '.' && s[|p| + |a| + 1 + |b|] == '.'
      && s[|p| + |a| + 1 + |b| + 1 + |c|..] == t
  {
  }

  /** Any normal version written after p and followed by a well-formed suffix is matched where it starts. */
  lemma MatchNormalVersion(p: string, v: Version, t: string)
    requires IsVersionSuffix(t)
    ensures MatchAt(p + NormalVersion(v) + t, |p|) == Some(Triple(v.major, v.minor, v.patch))
  {
    NatToStringFacts(v.major);
    NatToStringFacts(v.minor);
    NatToStringFacts(v.patch);
    DecimalTriple(p, NatToString(v.major), NatToString(v.minor), NatToString(v.patch), t, v.major, v.minor, v.patch);
  }

  /** A run of digits that starts with 1-9 has a value of at least 1. */
  lemma {:induction false} DigitsValuePositive(s: string, i: nat, e: nat)
    requires i < e <= |s| && '1' <= s[i] <= '9'
    ensures DigitsValue(s, i, e) >= 1
    decreases e - i
  {
    if e > i + 1 {
      DigitsValuePositive(s, i, e - 1);
    }
  }

  /** A run of digits without a leading zero is the `%d` rendering of its value. */
  lemma {:induction false} CanonicalRun(s: string, i: nat, e: nat)
    requires i < e <= |s| && '1' <= s[i] <= '9'
    requires forall k | i <= k < e :: IsDigit(s[k])
    ensures NatToString(DigitsValue(s, i, e)) == s[i..e]
    decreases e - i
  {
    var n := DigitsValue(s, i, e);
    if e == i + 1 {
      assert n == DigitValue(s[i]);
      assert DigitChar(n) == s[i];
    } else {
      var m := DigitsValue(s, i, e - 1);
      var d := DigitValue(s[e - 1]);
      CanonicalRun(s, i, e - 1);
      DigitsValuePositive(s, i, e - 1);
      assert n == m * 10 + d;
      assert n / 10 == m && n % 10 == d;
      assert DigitChar(d) == s[e - 1];
      assert s[i..e] == s[i..e - 1] + [s[e - 1]];
    }
  }

  /** The numeral read at i is written exactly as `%d` renders its value. */
  lemma NumeralText(s: string, i: nat)
    requires i <= |s| && NumeralAt(s, i).Some?
    ensures var n := NumeralAt(s, i).value; s[i..n.end] == NatToString(n.value)
  {
    var n := NumeralAt(s, i).value;
    if s[i] != '0' {
      CanonicalRun(s, i, n.end);
    } else {
      assert s[i..n.end] == [s[i]];
    }
  }

  /** Numbers rendered by `%d` and joined by dots. */
  function DottedText(g: seq<nat>): (r: string)
    requires |g| > 0
    decreases |g|
  {
    if |g| == 1 then NatToString(g[0]) else NatToString(g[0]) + "." + DottedText(g[1..])
  }

  /** The groups read at i are written as their dotted text, followed by a version suffix. */
  lemma {:induction false} GroupsSuffix(s: string, i: nat, more: nat) returns (t: string)
    requires i <= |s| && GroupsFrom(s, i, more).Some?
    ensures s[i..] == DottedText(GroupsFrom(s, i, more).value) + t && IsVersionSuffix(t)
    decreases more
  {
    if more == 0 {
      t := LastGroupSuffix(s, i);
    } else {
      var n := InnerGroup(s, i, more);
      var rest := GroupsFrom(s, n.end + 1, more - 1).value;
      t := GroupsSuffix(s, n.end + 1, more - 1);
      JoinDot(s, i, n.end, NatToString(n.value), DottedText(rest), t);
      DottedCons(n.value, rest);
    }
  }

  /** The last group is written as its numeral, followed by a version suffix. */
  lemma LastGroupSuffix(s: string, i: nat) returns (t: string)
    requires i <= |s| && GroupsFrom(s, i, 0).Some?
    ensures s[i..] == DottedText(GroupsFrom(s, i, 0).value) + t && IsVersionSuffix(t)
  {
    var n := NumeralAt(s, i).value;
    NumeralText(s, i);
    t := s[n.end..];
    SplitAfter(s, i, n.end, NatToString(n.value));
    assert GroupsFrom(s, i, 0).value == [n.value];
  }

  /** A group that is not the last: a `%d` numeral, a dot, then the remaining groups. */
  lemma InnerGroup(s: string, i: nat, more: nat) returns (n: Numeral)
    requires i <= |s| && more > 0 && GroupsFrom(s, i, more).Some?
    ensures NumeralAt(s, i) == Some(n) && s[i..n.end] == NatToString(n.value)
    ensures n.end < |s| && s[n.end] == '.' && GroupsFrom(s, n.end + 1, more - 1).Some?
    ensures GroupsFrom(s, i, more).value == [n.value] + GroupsFrom(s, n.end + 1, more - 1).value
  {
    n := NumeralAt(s, i).value;
    NumeralText(s, i);
  }

  /** The dotted text of a longer list. */
  lemma DottedCons(x: nat, rest: seq<nat>)
    requires |rest| > 0
    ensures DottedText([x] + rest) == NatToString(x) + "." + DottedText(rest)
  {
    assert ([x] + rest)[1..] == rest;
  }

  /** s from i is a followed by the rest from e. */
  lemma SplitAfter(s: string, i: nat, e: nat, a: string)
    requires i <= e <= |s| && s[i..e] == a
    ensures s[i..] == a + s[e..]
  {
    assert s[i..] == s[i..e] + s[e..];
  }

  /** s from i is a, a dot at e, then u + t. */
  lemma JoinDot(s: string, i: nat, e: nat, a: string, u: string, t: string)
    requires i <= e < |s| && s[i..e] == a && s[e] == '.' && s[e + 1..] == u + t
    ensures s[i..] == a + "." + u + t
  {
    SplitAfter(s, i, e, a);
    assert s[e..] == "." + s[e + 1..];
  }

  /** A triple's dotted text is its normal version. */
  lemma DottedTriple(x: nat, y: nat, z: nat)
    ensures DottedText([x, y, z]) == NormalVersion(Version(x, y, z, ""))
  {
    var a, b, c := NatToString(x), NatToString(y), NatToString(z);
    assert [x, y, z][1..] == [y, z] && [y, z][1..] == [z];
    assert DottedText([y, z]) == b + "." + c;
    assert DottedText([x, y, z]) == a + "." + (b + "." + c);
    assert a + "." + (b + "." + c) == a + "." + b + "." + c;
  }

  /** The suffix that follows the normal version of a match at i. */
  lemma MatchAtSuffix(s: string, i: nat) returns (t: string)
    requires i <= |s| && MatchAt(s, i).Some?
    ensures var g := MatchAt(s, i).value;
      s[i..] == NormalVersion(Version(g.major, g.minor, g.patch, "")) + t && IsVersionSuffix(t)
  {
    var g := GroupsFrom(s, i, 2).value;
    t := GroupsSuffix(s, i, 2);
    assert g == [g[0], g[1], g[2]];
    DottedTriple(g[0], g[1], g[2]);
  }

  /**
   * The rejecting half of the grammar: a match at i is three `%d` numerals joined
   * by dots, followed by a well-formed suffix that runs to the end of s.
   */
  lemma MatchAtSound(s: string, i: nat)
    requires i <= |s| && MatchAt(s, i).Some?
    ensures var g := MatchAt(s, i).value;
      exists t :: s[i..] == NormalVersion(Version(g.major, g.minor, g.patch, "")) + t && IsVersionSuffix(t)
  {
    var t := MatchAtSuffix(s, i);
  }

  /** Splitting s at i where its tail is u + t. */
  lemma SplitTail(s: string, i: nat, u: string, t: string)
    requires i <= |s| && s[i..] == u + t
    ensures s == s[..i] + u + t
  {
    assert s == s[..i] + s[i..];
  }

  /** The name is some prefix, a rendered normal version and a well-formed suffix. */
  ghost predicate EndsInVersion(name: string)
  {
    exists p: string, v: Version, t: string :: name == p + NormalVersion(v) + t && IsVersionSuffix(t)
  }

  /** A matching name has a normal version, then a well-formed suffix, after its leftmost match start. */
  lemma MatchesSemverSplits(name: string)
    requires MatchesSemver(name)
    ensures EndsInVersion(name)
  {
    FindSubmatchIsLeftmost(name, 0);
    var m := FindSubmatch(name, 0).value;
    var t := MatchAtSuffix(name, m.start);
    var v := Version(m.groups.major, m.groups.minor, m.groups.patch, "");
    SplitTail(name, m.start, NormalVersion(v), t);
  }

  /** A name with a normal version and a well-formed suffix matches. */
  lemma SplitsMatchSemver(name: string, p: string, v: Version, t: string)
    requires name == p + NormalVersion(v) + t && IsVersionSuffix(t)
    ensures MatchesSemver(name)
  {
    MatchNormalVersion(p, v, t);
    if FindSubmatch(name, 0).None? {
      FindSubmatchNone(name, 0);
      assert false;
    }
  }

  /**
   * `MatchString`: a name matches exactly when it is some prefix, a rendered
   * normal version and a well-formed suffix.
   */
  lemma MatchesSemverIff(name: string)
    ensures MatchesSemver(name) <==> EndsInVersion(name)
  {
    if MatchesSemver(name) {
      MatchesSemverSplits(name);
    }
    if EndsInVersion(name) {
      var p: string, v: Version, t: string :| name == p + NormalVersion(v) + t && IsVersionSuffix(t);
      SplitsMatchSemver(name, p, v, t);
    }
  }

  /** An alphanumeric metadata string is a single build identifier. */
  lemma MetadataIsBuildSuffix(m: string)
    requires m != [] && IsAlphanumericString(m)
    ensures IsVersionSuffix("+" + m)
  {
    assert ("+" + m)[1..] == m;
    assert forall k | 0 <= k < |m| :: m[k] != '.';
    IndexOfFirst(m, '.');
  }

  /** Reading back the rendering of a version gives its triple, without metadata. */
  lemma ParseString(v: Version)
    requires IsAlphanumericString(v.buildMetadata)
    ensures NewSemverFromGitTag(String(v)) == Success(Version(v.major, v.minor, v.patch, ""))
  {
    var t := if v.buildMetadata == "" then "" else "+" + v.buildMetadata;
    if v.buildMetadata != "" {
      MetadataIsBuildSuffix(v.buildMetadata);
    }
    assert String(v) == "" + NormalVersion(v) + t;
    MatchNormalVersion("", v, t);
  }

  /** No match starts at a character that is not a digit. */
  lemma NoMatchAtNonDigit(s: string, j: nat)
    requires j < |s| && !IsDigit(s[j])
    ensures MatchAt(s, j).None?
  {
  }

  /**
   * A name made of a prefix without digits (such as `v`), a normal version and a
   * well-formed suffix reads back as that version, without metadata.
   */
  lemma ParsePrefixed(p: string, v: Version, t: string)
    requires forall k | 0 <= k < |p| :: !IsDigit(p[k])
    requires IsVersionSuffix(t)
    ensures NewSemverFromGitTag(p + NormalVersion(v) + t) == Success(v.(buildMetadata := ""))
  {
    var s := p + NormalVersion(v) + t;
    MatchNormalVersion(p, v, t);
    forall j | 0 <= j < |p| ensures MatchesIn(s)(j).None? {
      assert s[j] == p[j];
      NoMatchAtNonDigit(s, j);
    }
    assert MatchesIn(s)(|p|) == Some(Triple(v.major, v.minor, v.patch));
    LeftmostAt(MatchesIn(s), |s|, 0, |p|);
  }

  /** `parse(format(v)) == v` for a version without metadata. */
  lemma ParseNormalVersion(v: Version)
    ensures NewSemverFromGitTag(NormalVersion(v)) == Success(v.(buildMetadata := ""))
  {
    ParseString(v.(buildMetadata := ""));
  }
}
