/**
  The Semantic Version order and the release-history gate of scripts/package_core.py.  The regular
  expression that splits a version text is a parameter; what it guarantees about identifiers and
  what the script checks afterwards are stated here.
*/
module SemVer {
  import opened Outcomes
  import LexOrder

  datatype Version = Version(major: nat, minor: nat, patch: nat, prerelease: Option<seq<string>>)

  predicate Digit(c: char) { '0' <= c <= '9' }

  /** str.isdigit on the identifier alphabet. */
  predicate Numeric(id: string) { id != [] && forall i :: 0 <= i < |id| ==> Digit(id[i]) }

  /** int(text) */
  function Value(id: string): nat
    requires forall i :: 0 <= i < |id| ==> Digit(id[i])
  {
    if id == [] then 0
    else
      assert Digit(id[|id| - 1]);
      10 * Value(id[..|id| - 1]) + (id[|id| - 1] - '0') as nat
  }

  predicate LeadingZero(id: string) { Numeric(id) && |id| > 1 && id[0] == '0' }

  /** What release_policy_semver lets through: section 9 forbids numeric identifiers with a leading zero. */
  predicate WellFormed(v: Version) {
    v.prerelease.Some? ==> forall i :: 0 <= i < |v.prerelease.value| ==> !LeadingZero(v.prerelease.value[i])
  }

  // ------------------------------------------------------------------------------------------
  // Reference order (section 11)
  // ------------------------------------------------------------------------------------------

  predicate IdLess(x: string, y: string) {
    if Numeric(x) && Numeric(y) then Value(x) < Value(y)
    else if Numeric(x) != Numeric(y) then Numeric(x)
    else LexOrder.Less(x, y)
  }

  predicate IdsLess(a: seq<string>, b: seq<string>) {
    if b == [] then false
    else if a == [] then true
    else if a[0] != b[0] then IdLess(a[0], b[0])
    else IdsLess(a[1..], b[1..])
  }

  /** a has lower precedence than b. */
  predicate Precedes(a: Version, b: Version) {
    if a.major != b.major then a.major < b.major
    else if a.minor != b.minor then a.minor < b.minor
    else if a.patch != b.patch then a.patch < b.patch
    else if a.prerelease.None? then false
    else if b.prerelease.None? then true
    else IdsLess(a.prerelease.value, b.prerelease.value)
  }

  // ------------------------------------------------------------------------------------------
  // Numeric identifiers
  // ------------------------------------------------------------------------------------------

  /** The numeric identifiers of one character are the ten digits, with values 0 to 9. */
  lemma DigitsAreTen(c: char)
    ensures Numeric([c]) <==> c in "0123456789"
    ensures forall d: nat :: d < 10 ==> (Numeric([c]) && Value([c]) == d <==> c == "0123456789"[d])
  {
    assert [c][0] == c && [c][..0] == [];
  }

  /** One more digit at the end counts once, and everything before it ten times as much. */
  lemma ValueAppend(id: string, c: char)
    requires id != []
    ensures Numeric(id + [c]) <==> Numeric(id) && Numeric([c])
    ensures Numeric(id + [c]) ==> Value(id + [c]) == 10 * Value(id) + Value([c])
  {
    var longer := id + [c];
    assert [c][0] == c && longer[|id|] == c && longer[..|id|] == id;
    forall i | 0 <= i < |id| ensures longer[i] == id[i] {}
    if Numeric(longer) {
      assert Digit(longer[|id|]);
      forall i | 0 <= i < |id| ensures Digit(id[i]) { assert Digit(longer[i]); }
    }
  }

  lemma {:induction false} ValuePositive(id: string)
    requires Numeric(id) && id[0] != '0'
    ensures Value(id) >= 1
  {
    if |id| > 1 { ValuePositive(id[..|id| - 1]); }
  }

  lemma {:induction false} ValueLong(id: string)
    requires Numeric(id) && !LeadingZero(id)
    ensures |id| > 1 <==> Value(id) >= 10
  {
    if |id| > 1 {
      ValuePositive(id[..|id| - 1]);
    } else {
      assert id[..0] == [];
    }
  }

  /** Without leading zeros a number has one spelling. */
  lemma {:induction false} ValueInjective(x: string, y: string)
    requires Numeric(x) && Numeric(y) && !LeadingZero(x) && !LeadingZero(y) && Value(x) == Value(y)
    ensures x == y
  {
    ValueLong(x);
    ValueLong(y);
    var x', y' := x[..|x| - 1], y[..|y| - 1];
    var dx, dy := (x[|x| - 1] - '0') as nat, (y[|y| - 1] - '0') as nat;
    assert dx == dy && Value(x') == Value(y');
    if |x| > 1 { ValueInjective(x', y'); }
    assert x == x' + [x[|x| - 1]] && y == y' + [y[|y| - 1]];
  }

  // ------------------------------------------------------------------------------------------
  // The reference order is a strict total order
  // ------------------------------------------------------------------------------------------

  lemma IdIrreflexive(x: string)
    ensures !IdLess(x, x)
  {
    LexOrder.Irreflexive(x);
  }

  lemma IdTotal(x: string, y: string)
    requires !LeadingZero(x) && !LeadingZero(y) && x != y
    ensures IdLess(x, y) || IdLess(y, x)
  {
    LexOrder.Total(x, y);
    if Numeric(x) && Numeric(y) && Value(x) == Value(y) { ValueInjective(x, y); }
  }

  lemma IdTransitive(x: string, y: string, z: string)
    requires IdLess(x, y) && IdLess(y, z)
    ensures IdLess(x, z)
  {
    if !Numeric(x) && !Numeric(y) && !Numeric(z) { LexOrder.Transitive(x, y, z); }
  }

  predicate NoLeadingZeros(a: seq<string>) { forall i :: 0 <= i < |a| ==> !LeadingZero(a[i]) }

  lemma {:induction false} IdsIrreflexive(a: seq<string>)
    ensures !IdsLess(a, a)
  {
    if a != [] { IdsIrreflexive(a[1..]); }
  }

  lemma {:induction false} IdsTotal(a: seq<string>, b: seq<string>)
    requires NoLeadingZeros(a) && NoLeadingZeros(b) && a != b
    ensures IdsLess(a, b) || IdsLess(b, a)
  {
    if a != [] && b != [] {
      if a[0] == b[0] {
        assert a == [a[0]] + a[1..] && b == [b[0]] + b[1..];
        IdsTotal(a[1..], b[1..]);
      } else {
        IdTotal(a[0], b[0]);
      }
    }
  }

  lemma {:induction false} IdsTransitive(a: seq<string>, b: seq<string>, c: seq<string>)
    requires IdsLess(a, b) && IdsLess(b, c)
    ensures IdsLess(a, c)
  {
    if a != [] {
      if a[0] == b[0] == c[0] {
        IdsTransitive(a[1..], b[1..], c[1..]);
      } else if a[0] != b[0] && b[0] != c[0] {
        IdTransitive(a[0], b[0], c[0]);
        IdIrreflexive(a[0]);
      }
    }
  }

  /** The versions section 11 lists as examples, in its order. */
  const SECTION_11: seq<Version> :=
    [Version(1, 0, 0, Some(["alpha"])), Version(1, 0, 0, Some(["alpha", "1"])),
     Version(1, 0, 0, Some(["alpha", "beta"])), Version(1, 0, 0, Some(["beta"])),
     Version(1, 0, 0, Some(["beta", "2"])), Version(1, 0, 0, Some(["beta", "11"])),
     Version(1, 0, 0, Some(["rc", "1"])), Version(1, 0, 0, None),
     Version(2, 0, 0, None), Version(2, 1, 0, None), Version(2, 1, 1, None)]

  lemma SectionElevenOrder(k: nat)
    requires k + 1 < |SECTION_11|
    ensures Precedes(SECTION_11[k], SECTION_11[k + 1])
  {
    LexOrder.FirstDifferenceDecides("", "alpha", "beta");
    LexOrder.FirstDifferenceDecides("", "beta", "rc");
    DigitsAreTen('1');
    DigitsAreTen('2');
    ValueAppend("1", '1');
    assert "1" + ['1'] == "11";
  }

  lemma PrecedesIrreflexive(a: Version)
    ensures !Precedes(a, a)
  {
    if a.prerelease.Some? { IdsIrreflexive(a.prerelease.value); }
  }

  lemma PrecedesTotal(a: Version, b: Version)
    requires WellFormed(a) && WellFormed(b) && a != b
    ensures Precedes(a, b) || Precedes(b, a)
  {
    if a.prerelease.Some? && b.prerelease.Some? && a.prerelease != b.prerelease {
      IdsTotal(a.prerelease.value, b.prerelease.value);
    }
  }

  lemma PrecedesTransitive(a: Version, b: Version, c: Version)
    requires Precedes(a, b) && Precedes(b, c)
    ensures Precedes(a, c)
  {
    if a.prerelease.Some? && b.prerelease.Some? && c.prerelease.Some?
       && IdsLess(a.prerelease.value, b.prerelease.value) && IdsLess(b.prerelease.value, c.prerelease.value) {
      IdsTransitive(a.prerelease.value, b.prerelease.value, c.prerelease.value);
    }
  }

  lemma PrecedesAsymmetric(a: Version, b: Version)
    requires Precedes(a, b)
    ensures !Precedes(b, a) && a != b
  {
    PrecedesIrreflexive(a);
    if Precedes(b, a) { PrecedesTransitive(a, b, a); }
  }

  // ------------------------------------------------------------------------------------------
  // compare_semver
  // ------------------------------------------------------------------------------------------

  /** The verdict of the script on two differing identifiers. */
  function CompareIds(x: string, y: string): int {
    if Numeric(x) && Numeric(y) then (if Value(x) > Value(y) then 1 else -1)
    else if Numeric(x) != Numeric(y) then (if Numeric(x) then -1 else 1)
    else if LexOrder.Less(y, x) then 1 else -1
  }

  function CompareIdSeqs(a: seq<string>, b: seq<string>): int {
    if a == [] || b == [] then (if |a| == |b| then 0 else if |a| > |b| then 1 else -1)
    else if a[0] == b[0] then CompareIdSeqs(a[1..], b[1..])
    else CompareIds(a[0], b[0])
  }

  function Compare(a: Version, b: Version): int {
    if a.major != b.major then (if a.major > b.major then 1 else -1)
    else if a.minor != b.minor then (if a.minor > b.minor then 1 else -1)
    else if a.patch != b.patch then (if a.patch > b.patch then 1 else -1)
    else if a.prerelease.None? || b.prerelease.None? then
      (if a.prerelease == b.prerelease then 0 else if a.prerelease.None? then 1 else -1)
    else CompareIdSeqs(a.prerelease.value, b.prerelease.value)
  }

  /** compare_semver with its two early-return loops. */
  method CompareSemver(left: Version, right: Version) returns (r: int)
    ensures r == Compare(left, right)
  {
    var leftNumbers, rightNumbers := [left.major, left.minor, left.patch], [right.major, right.minor, right.patch];
    for i := 0 to 3
      invariant forall k :: 0 <= k < i ==> leftNumbers[k] == rightNumbers[k]
    {
      if leftNumbers[i] != rightNumbers[i] {
        assert i > 0 ==> leftNumbers[0] == rightNumbers[0];
        assert i > 1 ==> leftNumbers[1] == rightNumbers[1];
        return if leftNumbers[i] > rightNumbers[i] then 1 else -1;
      }
    }
    assert leftNumbers[0] == rightNumbers[0] && leftNumbers[1] == rightNumbers[1] && leftNumbers[2] == rightNumbers[2];
    if left.prerelease.None? || right.prerelease.None? {
      if left.prerelease.None? == right.prerelease.None? { return 0; }
      return if left.prerelease.None? then 1 else -1;
    }
    var a, b := left.prerelease.value, right.prerelease.value;
    var n := if |a| < |b| then |a| else |b|;
    for i := 0 to n
      invariant CompareIdSeqs(a, b) == CompareIdSeqs(a[i..], b[i..])
    {
      var x, y := a[i], b[i];
      assert a[i..][1..] == a[i + 1..] && b[i..][1..] == b[i + 1..];
      if x != y {
        var xNumeric, yNumeric := Numeric(x), Numeric(y);
        if xNumeric && yNumeric { return if Value(x) > Value(y) then 1 else -1; }
        if xNumeric != yNumeric { return if xNumeric then -1 else 1; }
        return if LexOrder.Less(y, x) then 1 else -1;
      }
    }
    if |a| == |b| { return 0; }
    return if |a| > |b| then 1 else -1;
  }

  lemma CompareIdsIsOrder(x: string, y: string)
    requires !LeadingZero(x) && !LeadingZero(y) && x != y
    ensures CompareIds(x, y) == if IdLess(x, y) then -1 else 1
  {
    IdTotal(x, y);
    if LexOrder.Less(x, y) { LexOrder.Asymmetric(x, y); }
  }

  lemma {:induction false} CompareIdSeqsIsOrder(a: seq<string>, b: seq<string>)
    requires NoLeadingZeros(a) && NoLeadingZeros(b)
    ensures CompareIdSeqs(a, b) == if a == b then 0 else if IdsLess(a, b) then -1 else 1
  {
    if a != [] && b != [] {
      if a[0] == b[0] {
        CompareIdSeqsIsOrder(a[1..], b[1..]);
        assert a == [a[0]] + a[1..] && b == [b[0]] + b[1..];
      } else {
        CompareIdsIsOrder(a[0], b[0]);
      }
    }
  }

  /** On accepted versions compare_semver decides the reference order, and 0 is equality. */
  lemma CompareIsOrder(a: Version, b: Version)
    requires WellFormed(a) && WellFormed(b)
    ensures Compare(a, b) == if a == b then 0 else if Precedes(a, b) then -1 else 1
    ensures Compare(a, b) == 1 <==> Precedes(b, a)
    ensures Compare(b, a) == 0 - Compare(a, b)
  {
    CompareOneSide(a, b);
    CompareOneSide(b, a);
    if a != b { PrecedesTotal(a, b); } else { PrecedesIrreflexive(a); }
    if Precedes(a, b) { PrecedesAsymmetric(a, b); }
  }

  lemma CompareOneSide(a: Version, b: Version)
    requires WellFormed(a) && WellFormed(b)
    ensures Compare(a, b) == if a == b then 0 else if Precedes(a, b) then -1 else 1
  {
    if a.prerelease.Some? && b.prerelease.Some? { CompareIdSeqsIsOrder(a.prerelease.value, b.prerelease.value); }
  }

  /** Without the leading-zero check the comparison would not be an order: 1 and 01 are each below the other. */
  lemma LeadingZerosBreakTheOrder()
    ensures var a, b := Version(1, 0, 0, Some(["1"])), Version(1, 0, 0, Some(["01"]));
            Compare(a, b) == -1 && Compare(b, a) == -1
  {
    assert "01"[..1] == "0" && "0"[..0] == [] && "1"[..0] == [];
    assert Value("0") == 0 && Value("1") == 1 && Value("01") == 1;
  }

  /** Comparing is antisymmetric exactly when the first differing identifiers are not two spellings of one number. */
  lemma {:induction false} AntisymmetricIff(a: seq<string>, b: seq<string>)
    ensures CompareIdSeqs(a, b) == 0 - CompareIdSeqs(b, a) <==> !SpellsSameNumber(a, b)
  {
    if a != [] && b != [] {
      if a[0] == b[0] {
        AntisymmetricIff(a[1..], b[1..]);
      } else {
        LexOrder.Total(a[0], b[0]);
        if LexOrder.Less(a[0], b[0]) { LexOrder.Asymmetric(a[0], b[0]); }
      }
    }
  }

  /** The first differing identifiers denote the same number. */
  predicate SpellsSameNumber(a: seq<string>, b: seq<string>) {
    a != [] && b != [] &&
    if a[0] == b[0] then SpellsSameNumber(a[1..], b[1..])
    else Numeric(a[0]) && Numeric(b[0]) && Value(a[0]) == Value(b[0])
  }
}

module ReleaseHistory {
  import opened Outcomes
  import opened SemVer
  import LexOrder

  datatype HistoryError =
    | EmptyHistory
    | NotASemanticVersion
    | NumericLeadingZero
    | InvalidDate
    | DuplicateVersion
    | DuplicatePrecedence

  datatype GateError =
    | CandidateNotAVersion(error: HistoryError)
    | TupleAlreadyPublished
    | VersionAlreadyPublished
    | VersionNotNewer
    | DateNotLater

  datatype Release = Release(version: string, date: string)

  /** The version grammar and the calendar check, which the model leaves open. */
  datatype Formats = Formats(split: string -> Option<Version>, isDate: string -> bool)

  /** release_policy_semver */
  function PolicySemver(f: Formats, text: string): (r: Result<Version, HistoryError>)
    ensures r.Ok? ==> WellFormed(r.value)
  {
    var groups := f.split(text);
    if groups.None? then Err(NotASemanticVersion)
    else if WellFormed(groups.value) then Ok(groups.value)
    else Err(NumericLeadingZero)
  }

  /** A text is accepted as what it splits into, unless an identifier of two or more digits begins with 0. */
  lemma PolicySemverMeans(f: Formats, text: string)
    ensures PolicySemver(f, text) == Err(NotASemanticVersion) <==> f.split(text) == None
    ensures PolicySemver(f, text).Ok? ==> f.split(text) == Some(PolicySemver(f, text).value)
    ensures PolicySemver(f, text) == Err(NumericLeadingZero) <==>
      exists v: Version, i: nat :: f.split(text) == Some(v) && v.prerelease.Some? && i < |v.prerelease.value|
        && Numeric(v.prerelease.value[i]) && v.prerelease.value[i][0] == '0' && v.prerelease.value[i] != "0"
  {
    if f.split(text).Some? && !WellFormed(f.split(text).value) {
      var v := f.split(text).value;
      var i :| 0 <= i < |v.prerelease.value| && LeadingZero(v.prerelease.value[i]);
      assert f.split(text) == Some(v) && v.prerelease.value[i] != "0";
    }
  }

  predicate Acceptable(f: Formats, release: Release) {
    PolicySemver(f, release.version).Ok? && f.isDate(release.date)
  }

  /** Entries are acceptable and pairwise different in text and in precedence. */
  ghost predicate ValidHistory(f: Formats, history: seq<Release>) {
    && (forall i :: 0 <= i < |history| ==> Acceptable(f, history[i]))
    && (forall i, j :: 0 <= i < j < |history| ==>
          PolicySemver(f, history[i].version) != PolicySemver(f, history[j].version))
  }

  predicate AtMost(a: Version, b: Version) { a == b || Precedes(a, b) }

  predicate DateAtMost(a: string, b: string) { a == b || LexOrder.Less(a, b) }

  /** `latest` is the greatest precedence among the first n entries. */
  ghost predicate IsLatest(f: Formats, history: seq<Release>, n: nat, latest: Option<Version>)
    requires n <= |history|
  {
    && (latest.None? <==> n == 0)
    && (latest.Some? ==>
          && WellFormed(latest.value)
          && (exists i :: 0 <= i < n && PolicySemver(f, history[i].version) == Ok(latest.value))
          && (forall i :: 0 <= i < n ==>
                && PolicySemver(f, history[i].version).Ok?
                && AtMost(PolicySemver(f, history[i].version).value, latest.value)))
  }

  /** `text` is the published spelling of the version `latest`, and there is one exactly when there is the other. */
  ghost predicate IsTextOf(f: Formats, history: seq<Release>, n: nat, text: Option<string>, latest: Option<Version>)
    requires n <= |history|
  {
    && (text.Some? <==> latest.Some?)
    && (text.Some? ==> PolicySemver(f, text.value) == Ok(latest.value))
    && (text.Some? ==> exists i :: 0 <= i < n && history[i].version == text.value)
  }

  ghost predicate IsLatestDate(history: seq<Release>, n: nat, latest: Option<string>)
    requires n <= |history|
  {
    && (latest.None? <==> n == 0)
    && (latest.Some? ==>
          && (exists i :: 0 <= i < n && history[i].date == latest.value)
          && (forall i :: 0 <= i < n ==> DateAtMost(history[i].date, latest.value)))
  }

  datatype History = History(
    published: seq<Release>,
    versions: set<string>,
    latestText: Option<string>,
    latest: Option<Version>,
    latestDate: Option<string>)

  /** The validation loop: the parsed versions in order, or the first problem. */
  method ValidateEntries(f: Formats, history: seq<Release>) returns (r: Result<seq<Version>, HistoryError>)
    ensures r.Ok? <==> ValidHistory(f, history)
    ensures r.Ok? ==>
      |r.value| == |history| && forall i :: 0 <= i < |history| ==> PolicySemver(f, history[i].version) == Ok(r.value[i])
  {
    var semvers: seq<Version> := [];
    var versions: set<string>, precedences: set<Version> := {}, {};
    for index := 0 to |history|
      invariant |semvers| == index
      invariant forall i :: 0 <= i < index ==>
        Acceptable(f, history[i]) && PolicySemver(f, history[i].version) == Ok(semvers[i])
      invariant forall i, j :: 0 <= i < j < index ==> semvers[i] != semvers[j]
      invariant forall t :: t in versions <==> exists i :: 0 <= i < index && history[i].version == t
      invariant forall v :: v in precedences <==> v in semvers
    {
      var release := history[index];
      var parsed := PolicySemver(f, release.version);
      if parsed.Err? {
        assert !Acceptable(f, history[index]);
        return Err(parsed.error);
      }
      if !f.isDate(release.date) {
        assert !Acceptable(f, history[index]);
        return Err(InvalidDate);
      }
      if release.version in versions {
        ghost var i :| 0 <= i < index && history[i].version == release.version;
        assert PolicySemver(f, history[i].version) == PolicySemver(f, history[index].version);
        return Err(DuplicateVersion);
      }
      if parsed.value in precedences {
        ghost var i :| 0 <= i < index && semvers[i] == parsed.value;
        assert PolicySemver(f, history[i].version) == PolicySemver(f, history[index].version);
        return Err(DuplicatePrecedence);
      }
      versions := versions + {release.version};
      precedences := precedences + {parsed.value};
      semvers := semvers + [parsed.value];
    }
    return Ok(semvers);
  }

  lemma DateTransitive(a: string, b: string, c: string)
    requires DateAtMost(a, b) && LexOrder.Less(b, c)
    ensures DateAtMost(a, c)
  {
    if a != b { LexOrder.Transitive(a, b, c); }
  }

  /** validate_release_history: on success the fold has found the true maxima. */
  method ValidateReleaseHistory(f: Formats, history: seq<Release>, allowEmpty: bool)
    returns (r: Result<History, HistoryError>)
    ensures r.Ok? <==> (history != [] || allowEmpty) && ValidHistory(f, history)
    ensures r.Ok? ==>
      && r.value.published == history
      && (forall t :: t in r.value.versions <==> exists i :: 0 <= i < |history| && history[i].version == t)
      && IsLatest(f, history, |history|, r.value.latest)
      && IsTextOf(f, history, |history|, r.value.latestText, r.value.latest)
      && IsLatestDate(history, |history|, r.value.latestDate)
  {
    if history == [] && !allowEmpty { return Err(EmptyHistory); }
    var entries := ValidateEntries(f, history);
    if entries.Err? { return Err(entries.error); }
    var semvers := entries.value;

    var latestText: Option<string>, latest: Option<Version> := None, None;
    for index := 0 to |semvers|
      invariant IsLatest(f, history, index, latest) && IsTextOf(f, history, index, latestText, latest)
    {
      ghost var before := latest;
      var current := semvers[index];
      assert PolicySemver(f, history[index].version) == Ok(current);
      if latest.None? {
        latestText, latest := Some(history[index].version), Some(current);
      } else {
        CompareIsOrder(current, latest.value);
        var order := CompareSemver(current, latest.value);
        if order > 0 {
          latestText, latest := Some(history[index].version), Some(current);
          forall i | 0 <= i < index ensures AtMost(PolicySemver(f, history[i].version).value, current) {
            var older := PolicySemver(f, history[i].version).value;
            if older != before.value { PrecedesTransitive(older, before.value, current); }
          }
        }
      }
    }

    var latestDate: Option<string> := None;
    for index := 0 to |history|
      invariant IsLatestDate(history, index, latestDate)
    {
      ghost var before := latestDate;
      var date := history[index].date;
      if latestDate.None? || LexOrder.Less(latestDate.value, date) {
        latestDate := Some(date);
        forall i | 0 <= i < index ensures DateAtMost(history[i].date, date) {
          DateTransitive(history[i].date, before.value, date);
        }
      } else {
        LexOrder.Total(latestDate.value, date);
      }
    }
    return Ok(History(history, set i | 0 <= i < |history| :: history[i].version, latestText, latest, latestDate));
  }

  /** The candidate is newer than everything published, in version and in date. */
  ghost predicate Newer(f: Formats, history: seq<Release>, candidate: Release) {
    && PolicySemver(f, candidate.version).Ok?
    && forall i :: 0 <= i < |history| ==>
         && PolicySemver(f, history[i].version).Ok?
         && Precedes(PolicySemver(f, history[i].version).value, PolicySemver(f, candidate.version).value)
         && LexOrder.Less(history[i].date, candidate.date)
  }

  lemma NewerThanLatest(f: Formats, history: seq<Release>, candidate: Release,
                        latest: Option<Version>, date: Option<string>)
    requires PolicySemver(f, candidate.version).Ok?
    requires IsLatest(f, history, |history|, latest) && IsLatestDate(history, |history|, date)
    ensures Newer(f, history, candidate) <==>
            && (latest.Some? ==> Precedes(latest.value, PolicySemver(f, candidate.version).value))
            && (date.Some? ==> LexOrder.Less(date.value, candidate.date))
  {
    var v := PolicySemver(f, candidate.version).value;
    if latest.Some? && Precedes(latest.value, v) && LexOrder.Less(date.value, candidate.date) {
      forall i | 0 <= i < |history|
        ensures Precedes(PolicySemver(f, history[i].version).value, v) && LexOrder.Less(history[i].date, candidate.date)
      {
        var older := PolicySemver(f, history[i].version).value;
        if older != latest.value { PrecedesTransitive(older, latest.value, v); }
        if history[i].date != date.value { LexOrder.Transitive(history[i].date, date.value, candidate.date); }
      }
    }
  }

  /**
    The gate at the end of validate_release_policy accepts exactly the candidates newer than every
    published release.
  */
  method ReleaseGate(f: Formats, history: History, candidate: Release) returns (r: Result<Version, GateError>)
    requires IsLatest(f, history.published, |history.published|, history.latest)
    requires IsLatestDate(history.published, |history.published|, history.latestDate)
    requires forall t :: t in history.versions <==>
               exists i :: 0 <= i < |history.published| && history.published[i].version == t
    ensures r.Ok? <==> Newer(f, history.published, candidate)
    ensures r.Ok? ==> PolicySemver(f, candidate.version) == Ok(r.value)
  {
    var parsed := PolicySemver(f, candidate.version);
    if parsed.Err? { return Err(CandidateNotAVersion(parsed.error)); }
    if candidate in history.published {
      ghost var i :| 0 <= i < |history.published| && history.published[i] == candidate;
      PrecedesIrreflexive(parsed.value);
      assert !Precedes(PolicySemver(f, history.published[i].version).value, parsed.value);
      return Err(TupleAlreadyPublished);
    }
    if candidate.version in history.versions {
      ghost var i :| 0 <= i < |history.published| && history.published[i].version == candidate.version;
      PrecedesIrreflexive(parsed.value);
      assert !Precedes(PolicySemver(f, history.published[i].version).value, parsed.value);
      return Err(VersionAlreadyPublished);
    }
    NewerThanLatest(f, history.published, candidate, history.latest, history.latestDate);
    if history.latest.Some? {
      var order := CompareSemver(parsed.value, history.latest.value);
      CompareIsOrder(parsed.value, history.latest.value);
      if order <= 0 { return Err(VersionNotNewer); }
    }
    if history.latestDate.Some? && DateAtMost(candidate.date, history.latestDate.value) {
      NotLater(candidate.date, history.latestDate.value);
      return Err(DateNotLater);
    }
    if history.latestDate.Some? { LexOrder.Total(candidate.date, history.latestDate.value); }
    return Ok(parsed.value);
  }

  lemma NotLater(a: string, b: string)
    requires DateAtMost(a, b)
    ensures !LexOrder.Less(b, a)
  {
    if a == b { LexOrder.Irreflexive(a); } else { LexOrder.Asymmetric(a, b); }
  }
}
