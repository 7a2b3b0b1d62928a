/**
 The release manifest and the choice of one Kubernetes patch release, one IAM Roles Anywhere release and
 one region entry from it.
 */
module Releases {
  import opened Wrappers
  import opened Text
  import SemVer

  // ----- Manifest -----

  datatype Artifact = Artifact(name: string, arch: string, os: string, uri: string, checksumUri: string, gzipUri: string)

  datatype EksPatchRelease = EksPatchRelease(
    version: string, patchVersion: string, releaseDate: string, artifacts: seq<Artifact>)

  datatype SupportedEksRelease = SupportedEksRelease(
    majorMinorVersion: string, latestPatchVersion: string, patchReleases: seq<EksPatchRelease>)

  // Also the shape of an SSM release.
  datatype Release = Release(version: string, artifacts: seq<Artifact>)

  datatype RegionData = RegionData(
    ecrAccountId: string, partition: string, dnsSuffix: string, credProviders: map<string, bool>)

  datatype Manifest = Manifest(
    supportedEksReleases: seq<SupportedEksRelease>,
    iamRolesAnywhereReleases: seq<Release>,
    ssmReleases: seq<Release>,
    regionConfig: map<string, RegionData>)

  datatype Source = Source(eks: EksPatchRelease, iam: Release, regionInfo: RegionData)

  datatype ReleaseError =
    | EmptyVersion
    | InvalidVersion
    | NoMatch(patchRequested: bool)
    | BadDate
    | VersionMismatch
    | PatchMismatch
    | NoIamReleases
    | RegionNotFound

  // ----- Release dates: the layout 2006-01-02 -----

  function DaysIn(year: nat, month: nat): nat
  {
    if month == 2 then (if year % 4 == 0 && (year % 100 != 0 || year % 400 == 0) then 29 else 28)
    else if month in {4, 6, 9, 11} then 30
    else 31
  }

  predicate IsDate(s: string)
  {
    && |s| == 10 && s[4] == '-' && s[7] == '-'
    && AllDigits(s[..4]) && AllDigits(s[5..7]) && AllDigits(s[8..])
    && 1 <= Value(s[5..7]) <= 12
    && 1 <= Value(s[8..]) <= DaysIn(Value(s[..4]), Value(s[5..7]))
  }

  /** A number that orders dates as the calendar does; texts that are not dates have no place in it. */
  function DateKey(s: string): int
  {
    if IsDate(s) then (Value(s[..4]) * 13 + Value(s[5..7])) * 32 + Value(s[8..]) else -1
  }

  /** DateKey orders by year, then month, then day. */
  lemma DateKeyIsCalendarOrder(s: string, t: string)
    requires IsDate(s) && IsDate(t)
    ensures var (y, m, d) := (Value(s[..4]), Value(s[5..7]), Value(s[8..]));
            var (y', m', d') := (Value(t[..4]), Value(t[5..7]), Value(t[8..]));
            DateKey(s) < DateKey(t) <==> y < y' || (y == y' && (m < m' || (m == m' && d < d')))
  {
  }

  /** n written with k digits. */
  function Pad(n: nat, k: nat): (s: string)
    ensures |s| == k && AllDigits(s)
  {
    if k == 0 then "" else Pad(n / 10, k - 1) + ["0123456789"[n % 10]]
  }

  function Pow10(k: nat): nat
  {
    if k == 0 then 1 else 10 * Pow10(k - 1)
  }

  lemma {:induction false} ValueOfPad(n: nat, k: nat)
    requires n < Pow10(k)
    ensures Value(Pad(n, k)) == n
  {
    if k > 0 {
      ValueOfPad(n / 10, k - 1);
      var s := Pad(n, k);
      assert s[..|s| - 1] == Pad(n / 10, k - 1);
      assert DigitValue(s[|s| - 1]) == n % 10;
    }
  }

  predicate IsLeapYear(y: nat)
  {
    y % 400 == 0 || (y % 4 == 0 && y % 100 != 0)
  }

  /** Dates of the calendar, with the months of 31 days and the one of 28 or 29 told apart. */
  predicate IsCalendarDate(y: nat, m: nat, d: nat)
  {
    && 1 <= m <= 12 && 1 <= d <= 31
    && (d == 31 ==> m in {1, 3, 5, 7, 8, 10, 12})
    && (d >= 29 && m == 2 ==> d == 29 && IsLeapYear(y))
  }

  lemma DaysInExactly(y: nat, m: nat, d: nat)
    ensures 1 <= m <= 12 && 1 <= d <= DaysIn(y, m) <==> IsCalendarDate(y, m, d)
  {
  }

  lemma PartsOfDate(year: string, month: string, day: string)
    requires |year| == 4 && |month| == 2 && |day| == 2
    ensures var s := year + "-" + month + "-" + day;
            |s| == 10 && s[4] == '-' && s[7] == '-' && s[..4] == year && s[5..7] == month && s[8..] == day
  {
  }

  lemma DateOfNumbers(year: string, month: string, day: string)
    requires |year| == 4 && |month| == 2 && |day| == 2 && AllDigits(year) && AllDigits(month) && AllDigits(day)
    ensures IsDate(year + "-" + month + "-" + day) <==> IsCalendarDate(Value(year), Value(month), Value(day))
  {
    PartsOfDate(year, month, day);
    DaysInExactly(Value(year), Value(month), Value(day));
  }

  /** The text of three numbers is a date exactly when the calendar has that day. */
  lemma DatesExactly(y: nat, m: nat, d: nat)
    requires y < 10000 && m < 100 && d < 100
    ensures IsDate(Pad(y, 4) + "-" + Pad(m, 2) + "-" + Pad(d, 2)) <==> IsCalendarDate(y, m, d)
  {
    assert Pow10(4) == 10 * (10 * Pow10(2)) == 10000 by {
      assert Pow10(3) == 10 * Pow10(2) && Pow10(2) == 10 * Pow10(1) && Pow10(1) == 10 * Pow10(0);
    }
    ValueOfPad(y, 4);
    ValueOfPad(m, 2);
    ValueOfPad(d, 2);
    DateOfNumbers(Pad(y, 4), Pad(m, 2), Pad(d, 2));
  }

  // ----- The latest of a list: a later element replaces the kept one only when it is strictly newer -----

  function Latest<T>(newer: (T, T) -> bool, xs: seq<T>, n: nat): (i: nat)
    requires 1 <= n <= |xs|
    ensures i < n
  {
    if n == 1 then 0
    else
      var best := Latest(newer, xs, n - 1);
      if newer(xs[n - 1], xs[best]) then n - 1 else best
  }

  ghost predicate StrictWeakOrder<T(!new)>(newer: (T, T) -> bool)
  {
    && (forall x, y :: newer(x, y) ==> !newer(y, x))
    && (forall x, y, z :: !newer(x, y) && !newer(y, z) ==> !newer(x, z))
  }

  /** Position i holds the first maximum of xs[..n]. */
  ghost predicate IsFirstMaximum<T>(newer: (T, T) -> bool, xs: seq<T>, n: nat, i: nat)
    requires i < n <= |xs|
  {
    && (forall j :: 0 <= j < n ==> !newer(xs[j], xs[i]))
    && (forall j :: 0 <= j < i ==> newer(xs[i], xs[j]))
  }

  lemma {:induction false} LatestIsFirstMaximum<T(!new)>(newer: (T, T) -> bool, xs: seq<T>, n: nat)
    requires 1 <= n <= |xs| && StrictWeakOrder(newer)
    ensures IsFirstMaximum(newer, xs, n, Latest(newer, xs, n))
  {
    if n > 1 {
      LatestIsFirstMaximum(newer, xs, n - 1);
      var best, last := xs[Latest(newer, xs, n - 1)], xs[n - 1];
      forall j | 0 <= j < n - 1 && newer(last, best)
        ensures newer(last, xs[j])
      {
        assert !newer(xs[j], best);
      }
    }
  }

  // ----- Latest release by date -----

  predicate LaterDate(r: EksPatchRelease, kept: EksPatchRelease)
  {
    DateKey(r.releaseDate) > DateKey(kept.releaseDate)
  }

  predicate IsDated(r: EksPatchRelease)
  {
    IsDate(r.releaseDate)
  }

  predicate AllDated(releases: seq<EksPatchRelease>)
  {
    forall j :: 0 <= j < |releases| ==> IsDated(releases[j])
  }

  function LatestDated(releases: seq<EksPatchRelease>): Result<EksPatchRelease, ReleaseError>
  {
    if releases == [] then Err(NoMatch(false))
    else if !AllDated(releases) then Err(BadDate)
    else Ok(releases[Latest(LaterDate, releases, |releases|)])
  }

  /** Walks the list with the kept element first; an element that is not acceptable ends the walk. */
  method KeepLatest<T>(acceptable: T -> bool, newer: (T, T) -> bool, xs: seq<T>) returns (r: Option<T>)
    requires |xs| > 0
    ensures r.Some? <==> forall j :: 0 <= j < |xs| ==> acceptable(xs[j])
    ensures r.Some? ==> r.value == xs[Latest(newer, xs, |xs|)]
  {
    if !acceptable(xs[0]) {
      return None;
    }
    var latest := xs[0];
    for i := 1 to |xs|
      invariant forall j :: 0 <= j < i ==> acceptable(xs[j])
      invariant latest == xs[Latest(newer, xs, i)]
    {
      if !acceptable(xs[i]) {
        return None;
      }
      if newer(xs[i], latest) {
        latest := xs[i];
      }
    }
    return Some(latest);
  }

  method GetLatestDateEksPatchRelease(releases: seq<EksPatchRelease>) returns (r: Result<EksPatchRelease, ReleaseError>)
    ensures r == LatestDated(releases)
  {
    if |releases| == 0 {
      return Err(NoMatch(false));
    }
    var latest := KeepLatest(IsDated, LaterDate, releases);
    match latest
    case None => r := Err(BadDate);
    case Some(release) => r := Ok(release);
  }

  // ----- Kubernetes releases that a request selects -----

  function Without(s: string, c: char): string
  {
    if s == "" then "" else (if s[0] == c then "" else [s[0]]) + Without(s[1..], c)
  }

  lemma {:induction false} WithoutAbsent(s: string, c: char)
    requires c !in s
    ensures Without(s, c) == s
  {
    if s != "" {
      WithoutAbsent(s[1..], c);
    }
  }

  function CutPrefix(s: string, prefix: string): (r: Option<string>)
    ensures r.Some? ==> s == prefix + r.value
  {
    if prefix <= s then Some(s[|prefix|..]) else None
  }

  /** The "major.minor" that a version text stands for, without the leading v that the comparison needs. */
  function MajorMinorOf(version: string): string
  {
    Without(SemVer.MajorMinor("v" + version), 'v')
  }

  lemma MajorMinorText(major: string, minor: string)
    requires AllDigits(major) && AllDigits(minor)
    ensures Without("v" + major + "." + minor, 'v') == major + "." + minor
  {
    var mm := major + "." + minor;
    assert "v" + major + "." + minor == "v" + mm && ("v" + mm)[1..] == mm;
    WithoutAbsent(mm, 'v');
  }

  lemma MajorMinorOfValid(version: string)
    requires SemVer.IsValid("v" + version)
    ensures var p := SemVer.Parse("v" + version).value;
            MajorMinorOf(version) == p.major + "." + p.minor
  {
    SemVer.ParseShape(version);
    var p := SemVer.Parse("v" + version).value;
    MajorMinorText(p.major, p.minor);
  }

  function PatchOf(version: string): Option<string>
  {
    CutPrefix(version, MajorMinorOf(version) + ".")
  }

  lemma PatchByLayout(version: string, p: SemVer.Version)
    requires p.major <= version && SemVer.Layout(p, version[|p.major|..])
    ensures CutPrefix(version, p.major + "." + p.minor + ".").Some? <==> p.written == 3
  {
    var rest := version[|p.major|..];
    assert version == p.major + rest;
    if p.written == 3 {
      assert rest == "." + p.minor + "." + p.patch + rest[2 + |p.minor| + |p.patch|..];
      assert version == (p.major + "." + p.minor + ".") + (p.patch + rest[2 + |p.minor| + |p.patch|..]);
    }
  }

  /** A patch is requested exactly when the version spells out all three numbers. */
  lemma PatchRequestedIff(version: string)
    requires SemVer.IsValid("v" + version)
    ensures PatchOf(version).Some? <==> SemVer.Parse("v" + version).value.written == 3
  {
    var p := SemVer.Parse("v" + version).value;
    assert MajorMinorOf(version) == p.major + "." + p.minor by {
      MajorMinorOfValid(version);
    }
    assert CutPrefix(version, p.major + "." + p.minor + ".").Some? <==> p.written == 3 by {
      SemVer.ParseShape(version);
      PatchByLayout(version, p);
    }
  }

  predicate Selects(majorMinor: string, patch: Option<string>, supported: SupportedEksRelease, release: EksPatchRelease)
  {
    && supported.majorMinorVersion == majorMinor
    && release.patchVersion == (if patch.Some? then patch.value else supported.latestPatchVersion)
  }

  /** The selected releases among the first n of one supported release, in order. */
  function MatchedIn(majorMinor: string, patch: Option<string>, supported: SupportedEksRelease, n: nat): seq<EksPatchRelease>
    requires n <= |supported.patchReleases|
  {
    if n == 0 then []
    else
      MatchedIn(majorMinor, patch, supported, n - 1)
      + (if Selects(majorMinor, patch, supported, supported.patchReleases[n - 1]) then [supported.patchReleases[n - 1]] else [])
  }

  /** The selected releases among the first n supported releases, in manifest order. */
  function Matched(majorMinor: string, patch: Option<string>, supported: seq<SupportedEksRelease>, n: nat): seq<EksPatchRelease>
    requires n <= |supported|
  {
    if n == 0 then []
    else Matched(majorMinor, patch, supported, n - 1)
         + MatchedIn(majorMinor, patch, supported[n - 1], |supported[n - 1].patchReleases|)
  }

  lemma {:induction false} MatchedInExactly(majorMinor: string, patch: Option<string>, s: SupportedEksRelease, n: nat, r: EksPatchRelease)
    requires n <= |s.patchReleases|
    ensures r in MatchedIn(majorMinor, patch, s, n)
            <==> exists j :: 0 <= j < n && s.patchReleases[j] == r && Selects(majorMinor, patch, s, r)
  {
    if n > 0 {
      MatchedInExactly(majorMinor, patch, s, n - 1, r);
    }
  }

  ghost predicate ListedIn(s: SupportedEksRelease, r: EksPatchRelease)
  {
    r in s.patchReleases
  }

  /** A release is matched exactly when some supported release lists and selects it. */
  lemma {:induction false} MatchedExactly(majorMinor: string, patch: Option<string>, supported: seq<SupportedEksRelease>, n: nat, r: EksPatchRelease)
    requires n <= |supported|
    ensures r in Matched(majorMinor, patch, supported, n)
            <==> exists i :: 0 <= i < n && ListedIn(supported[i], r) && Selects(majorMinor, patch, supported[i], r)
  {
    if n > 0 {
      MatchedExactly(majorMinor, patch, supported, n - 1, r);
      var s := supported[n - 1];
      MatchedInExactly(majorMinor, patch, s, |s.patchReleases|, r);
    }
  }

  function MatchedReleases(version: string, m: Manifest): seq<EksPatchRelease>
  {
    Matched(MajorMinorOf(version), PatchOf(version), m.supportedEksReleases, |m.supportedEksReleases|)
  }

  function LatestEks(version: string, m: Manifest): Result<EksPatchRelease, ReleaseError>
  {
    if version == "" then Err(EmptyVersion)
    else if !SemVer.IsValid("v" + version) then Err(InvalidVersion)
    else
      var matched := MatchedReleases(version, m);
      if |matched| == 1 then Ok(matched[0])
      else if |matched| > 1 then LatestDated(matched)
      else Err(NoMatch(PatchOf(version).Some?))
  }

  lemma {:induction false} NothingMatchedIn(majorMinor: string, patch: Option<string>, supported: SupportedEksRelease, n: nat)
    requires n <= |supported.patchReleases|
    requires supported.majorMinorVersion != majorMinor
    ensures MatchedIn(majorMinor, patch, supported, n) == []
  {
    if n > 0 {
      NothingMatchedIn(majorMinor, patch, supported, n - 1);
    }
  }

  method CollectMatched(majorMinor: string, patch: Option<string>, all: seq<SupportedEksRelease>)
    returns (matched: seq<EksPatchRelease>)
    ensures matched == Matched(majorMinor, patch, all, |all|)
  {
    matched := [];
    for i := 0 to |all|
      invariant matched == Matched(majorMinor, patch, all, i)
    {
      var supported := all[i];
      if supported.majorMinorVersion == majorMinor {
        for j := 0 to |supported.patchReleases|
          invariant matched == Matched(majorMinor, patch, all, i) + MatchedIn(majorMinor, patch, supported, j)
        {
          var release := supported.patchReleases[j];
          if patch.Some? {
            if release.patchVersion == patch.value {
              matched := matched + [release];
            }
          } else if release.patchVersion == supported.latestPatchVersion {
            matched := matched + [release];
          }
        }
      } else {
        NothingMatchedIn(majorMinor, patch, supported, |supported.patchReleases|);
      }
    }
  }

  method GetLatestEksSource(version: string, m: Manifest) returns (r: Result<EksPatchRelease, ReleaseError>)
    ensures r == LatestEks(version, m)
  {
    if version == "" {
      return Err(EmptyVersion);
    }
    if !SemVer.IsValid("v" + version) {
      return Err(InvalidVersion);
    }
    var matched := CollectMatched(MajorMinorOf(version), PatchOf(version), m.supportedEksReleases);
    if |matched| == 1 {
      return Ok(matched[0]);
    } else if |matched| > 1 {
      r := GetLatestDateEksPatchRelease(matched);
      return;
    }
    return Err(NoMatch(PatchOf(version).Some?));
  }

  /** What LatestEks promises: the first release of maximal date among exactly the selected ones. */
  lemma LatestEksIsFirstOfMaximalDate(version: string, m: Manifest)
    requires version != "" && SemVer.IsValid("v" + version)
    ensures var matched := MatchedReleases(version, m);
            match LatestEks(version, m)
            case Ok(r) =>
              && (|matched| > 1 ==> AllDated(matched))
              && exists i :: 0 <= i < |matched| && r == matched[i] && IsFirstMaximum(LaterDate, matched, |matched|, i)
            case Err(e) =>
              if matched == [] then e == NoMatch(PatchOf(version).Some?)
              else |matched| > 1 && e == BadDate && !AllDated(matched)
  {
    var matched := MatchedReleases(version, m);
    if matched != [] {
      LatestIsFirstMaximum(LaterDate, matched, |matched|);
      assert IsFirstMaximum(LaterDate, matched, |matched|, Latest(LaterDate, matched, |matched|));
    }
  }

  // ----- Latest IAM Roles Anywhere release -----

  predicate HigherPrecedence(r: Release, kept: Release)
  {
    SemVer.Compare(kept.version, r.version) < 0
  }

  function LatestIam(m: Manifest): Result<Release, ReleaseError>
  {
    var releases := m.iamRolesAnywhereReleases;
    if releases == [] then Err(NoIamReleases) else Ok(releases[Latest(HigherPrecedence, releases, |releases|)])
  }

  lemma HigherPrecedenceIsStrictWeakOrder()
    ensures StrictWeakOrder(HigherPrecedence)
  {
    forall x: Release, y: Release | HigherPrecedence(x, y)
      ensures !HigherPrecedence(y, x)
    {
      SemVer.CompareIsTotalPreorder(x.version, y.version, x.version);
    }
    forall x: Release, y: Release, z: Release | !HigherPrecedence(x, y) && !HigherPrecedence(y, z)
      ensures !HigherPrecedence(x, z)
    {
      SemVer.CompareIsTotalPreorder(x.version, y.version, z.version);
      SemVer.CompareIsTotalPreorder(y.version, x.version, z.version);
      SemVer.CompareIsTotalPreorder(z.version, y.version, x.version);
      SemVer.CompareIsTotalPreorder(z.version, x.version, y.version);
    }
  }

  method GetLatestIamRolesAnywhereSource(m: Manifest) returns (r: Result<Release, ReleaseError>)
    ensures r == LatestIam(m)
  {
    var releases := m.iamRolesAnywhereReleases;
    if |releases| < 1 {
      return Err(NoIamReleases);
    }
    var latest := KeepLatest((r: Release) => true, HigherPrecedence, releases);
    return Ok(latest.value);
  }

  /** The first release whose version no other listed version exceeds in precedence. */
  lemma LatestIamIsFirstOfHighestPrecedence(m: Manifest)
    requires m.iamRolesAnywhereReleases != []
    ensures var releases := m.iamRolesAnywhereReleases;
            && LatestIam(m).Ok?
            && exists i :: 0 <= i < |releases| && LatestIam(m).value == releases[i]
                && IsFirstMaximum(HigherPrecedence, releases, |releases|, i)
  {
    var releases := m.iamRolesAnywhereReleases;
    HigherPrecedenceIsStrictWeakOrder();
    LatestIsFirstMaximum(HigherPrecedence, releases, |releases|);
    assert IsFirstMaximum(HigherPrecedence, releases, |releases|, Latest(HigherPrecedence, releases, |releases|));
  }

  /** Version texts without a leading v are all invalid, so among them the first release always wins. */
  lemma {:induction false} InvalidVersionsKeepTheFirst(releases: seq<Release>, n: nat)
    requires 1 <= n <= |releases|
    requires forall j :: 0 <= j < n ==> !SemVer.IsValid(releases[j].version)
    ensures Latest(HigherPrecedence, releases, n) == 0
  {
    if n > 1 {
      InvalidVersionsKeepTheFirst(releases, n - 1);
    }
  }

  /** The text by which a version is meant to be compared: with a leading v where it lacks one. */
  function WithV(version: string): string
  {
    if SemVer.IsValid(version) then version else "v" + version
  }

  /** Release r has the higher version as versions are meant. */
  predicate Exceeds(r: Release, kept: Release)
  {
    SemVer.Compare(WithV(kept.version), WithV(r.version)) < 0
  }

  ghost predicate IsExceededByNone(r: Release, releases: seq<Release>)
  {
    forall i :: 0 <= i < |releases| ==> !Exceeds(releases[i], r)
  }

  /** Some release that none exceeds has a version text that is valid as it stands. */
  ghost predicate SomeBestIsValid(releases: seq<Release>)
  {
    exists i :: 0 <= i < |releases| && SemVer.IsValid(releases[i].version) && IsExceededByNone(releases[i], releases)
  }

  lemma NotExceededThroughChosen(r: Release, chosen: Release, x: Release)
    requires SemVer.IsValid(r.version) && SemVer.IsValid(chosen.version)
    requires !HigherPrecedence(r, chosen) && !Exceeds(x, r)
    ensures !Exceeds(x, chosen)
  {
    SemVer.CompareIsTotalPreorder(WithV(x.version), r.version, chosen.version);
    SemVer.CompareIsTotalPreorder(WithV(x.version), chosen.version, r.version);
    SemVer.CompareIsTotalPreorder(r.version, chosen.version, r.version);
    SemVer.CompareIsTotalPreorder(r.version, WithV(x.version), r.version);
  }

  lemma ChosenIsValid(m: Manifest, i: nat)
    requires i < |m.iamRolesAnywhereReleases| && SemVer.IsValid(m.iamRolesAnywhereReleases[i].version)
    ensures LatestIam(m).value in m.iamRolesAnywhereReleases && SemVer.IsValid(LatestIam(m).value.version)
    ensures !HigherPrecedence(m.iamRolesAnywhereReleases[i], LatestIam(m).value)
  {
    LatestIamIsFirstOfHighestPrecedence(m);
  }

  lemma ChosenIsBest(m: Manifest, best: nat)
    requires best < |m.iamRolesAnywhereReleases| && SemVer.IsValid(m.iamRolesAnywhereReleases[best].version)
    requires IsExceededByNone(m.iamRolesAnywhereReleases[best], m.iamRolesAnywhereReleases)
    ensures IsExceededByNone(LatestIam(m).value, m.iamRolesAnywhereReleases)
  {
    var releases := m.iamRolesAnywhereReleases;
    ChosenIsValid(m, best);
    forall j | 0 <= j < |releases|
      ensures !Exceeds(releases[j], LatestIam(m).value)
    {
      NotExceededThroughChosen(releases[best], LatestIam(m).value, releases[j]);
    }
  }

  /**
   The chosen release is one that no other exceeds exactly when a best one is written with its leading v or,
   where no version is, the first release is a best one.
   */
  lemma LatestIamIsBestIff(m: Manifest)
    requires m.iamRolesAnywhereReleases != []
    ensures var releases := m.iamRolesAnywhereReleases;
            IsExceededByNone(LatestIam(m).value, releases)
            <==> if exists i :: 0 <= i < |releases| && SemVer.IsValid(releases[i].version)
                 then SomeBestIsValid(releases)
                 else IsExceededByNone(releases[0], releases)
  {
    var releases := m.iamRolesAnywhereReleases;
    if i :| 0 <= i < |releases| && SemVer.IsValid(releases[i].version) {
      ChosenIsValid(m, i);
      if SomeBestIsValid(releases) {
        var best :| 0 <= best < |releases| && SemVer.IsValid(releases[best].version)
                    && IsExceededByNone(releases[best], releases);
        ChosenIsBest(m, best);
      }
    } else {
      InvalidVersionsKeepTheFirst(releases, |releases|);
    }
  }

  /** Of two releases 1.0.0 and 1.1.0, listed in this order, the lower one is chosen. */
  lemma LowerVersionChosen(m: Manifest, low: Release, high: Release)
    requires low.version == "1.0.0" && high.version == "1.1.0"
    requires m.iamRolesAnywhereReleases == [low, high]
    ensures LatestIam(m) == Ok(low) && Exceeds(high, low)
  {
    assert low.version[0] == '1' && high.version[0] == '1';
    InvalidVersionsKeepTheFirst([low, high], 2);
    assert Decimal(0) == "0" && Decimal(1) == "1";
    assert SemVer.Print(1, 0, 0) == "v1.0.0" && SemVer.Print(1, 1, 0) == "v1.1.0";
    SemVer.PrintedCompareAsTriples(1, 0, 0, 1, 1, 0);
  }

  // ----- Putting a source together -----

  function Count(s: string, c: char): nat
  {
    if s == "" then 0 else (if s[0] == c then 1 else 0) + Count(s[1..], c)
  }

  function ValidateKubernetesVersionMatch(requested: string, offered: string): Option<ReleaseError>
  {
    if requested == "" || offered == "" then Some(EmptyVersion)
    else if !SemVer.IsValid("v" + requested) then Some(InvalidVersion)
    else if !SemVer.IsValid("v" + offered) then Some(InvalidVersion)
    else if MajorMinorOf(requested) != MajorMinorOf(offered) then Some(VersionMismatch)
    else if Count(requested, '.') == 2 && requested != offered then Some(PatchMismatch)
    else None
  }

  function Resolve(version: string, region: string, m: Manifest): Result<Source, ReleaseError>
  {
    match LatestEks(version, m)
    case Err(e) => Err(e)
    case Ok(eks) =>
      match ValidateKubernetesVersionMatch(version, eks.version)
      case Some(e) => Err(e)
      case None =>
        match LatestIam(m)
        case Err(e) => Err(e)
        case Ok(iam) =>
          if region !in m.regionConfig then Err(RegionNotFound)
          else Ok(Source(eks, iam, m.regionConfig[region]))
  }

  method GetSourceFromManifest(version: string, region: string, m: Manifest) returns (r: Result<Source, ReleaseError>)
    ensures r == Resolve(version, region, m)
  {
    var eks := GetLatestEksSource(version, m);
    if eks.Err? {
      return Err(eks.error);
    }
    var mismatch := ValidateKubernetesVersionMatch(version, eks.value.version);
    if mismatch.Some? {
      return Err(mismatch.value);
    }
    var iam := GetLatestIamRolesAnywhereSource(m);
    if iam.Err? {
      return Err(iam.error);
    }
    if region !in m.regionConfig {
      return Err(RegionNotFound);
    }
    return Ok(Source(eks.value, iam.value, m.regionConfig[region]));
  }

  // ----- Requests for a release line and for a patch release -----

  function Line(a: nat, b: nat): string
  {
    Decimal(a) + "." + Decimal(b)
  }

  function Patch(a: nat, b: nat, c: nat): string
  {
    Line(a, b) + "." + Decimal(c)
  }

  lemma RegroupLine(a: string, b: string)
    ensures "v" + (a + ("." + b)) == "v" + (a + "." + b)
  {
  }

  lemma LineParses(a: nat, b: nat)
    ensures SemVer.Parse("v" + Line(a, b)) == Some(SemVer.Version(Decimal(a), Decimal(b), "0", [], [], 2))
  {
    SemVer.ParseOfPrintedLine(a, b);
    RegroupLine(Decimal(a), Decimal(b));
  }

  lemma Regroup(a: string, b: string, c: string)
    ensures "v" + (a + ("." + (b + ("." + c)))) == "v" + (a + "." + b + "." + c)
  {
  }

  lemma PatchParses(a: nat, b: nat, c: nat)
    ensures SemVer.Parse("v" + Patch(a, b, c)) == Some(SemVer.Version(Decimal(a), Decimal(b), Decimal(c), [], [], 3))
  {
    SemVer.ParseOfPrinted(a, b, c);
    Regroup(Decimal(a), Decimal(b), Decimal(c));
  }

  lemma MajorMinorOfPrinted(a: nat, b: nat, c: nat)
    ensures MajorMinorOf(Line(a, b)) == Line(a, b) && MajorMinorOf(Patch(a, b, c)) == Line(a, b)
  {
    LineParses(a, b);
    PatchParses(a, b, c);
    MajorMinorOfValid(Line(a, b));
    MajorMinorOfValid(Patch(a, b, c));
  }

  lemma CutOff(prefix: string, rest: string)
    ensures CutPrefix(prefix + rest, prefix) == Some(rest)
  {
  }

  lemma CutTooLong(s: string, more: string)
    requires more != ""
    ensures CutPrefix(s, s + more).None?
  {
  }

  lemma PatchOfPrinted(a: nat, b: nat, c: nat)
    ensures PatchOf(Line(a, b)) == None && PatchOf(Patch(a, b, c)) == Some(Decimal(c))
  {
    MajorMinorOfPrinted(a, b, c);
    CutOff(Line(a, b) + ".", Decimal(c));
    CutTooLong(Line(a, b), ".");
  }

  lemma SameLine(a: nat, b: nat, a': nat, b': nat)
    ensures Line(a, b) == Line(a', b') <==> a == a' && b == b'
  {
    LineParses(a, b);
    LineParses(a', b');
    ValueOfDecimal(a); ValueOfDecimal(b);
    ValueOfDecimal(a'); ValueOfDecimal(b');
  }

  lemma SamePatch(a: nat, b: nat, c: nat, a': nat, b': nat, c': nat)
    ensures Patch(a, b, c) == Patch(a', b', c') <==> a == a' && b == b' && c == c'
  {
    PatchParses(a, b, c);
    PatchParses(a', b', c');
    ValueOfDecimal(a); ValueOfDecimal(b); ValueOfDecimal(c);
    ValueOfDecimal(a'); ValueOfDecimal(b'); ValueOfDecimal(c');
  }

  lemma {:induction false} CountAppend(s: string, t: string, c: char)
    ensures Count(s + t, c) == Count(s, c) + Count(t, c)
  {
    if s == "" {
      assert s + t == t;
    } else {
      assert (s + t)[1..] == s[1..] + t;
      CountAppend(s[1..], t, c);
    }
  }

  lemma {:induction false} CountNone(s: string, c: char)
    requires c !in s
    ensures Count(s, c) == 0
  {
    if s != "" {
      CountNone(s[1..], c);
    }
  }

  lemma CountDots(a: nat, b: nat, c: nat)
    ensures Count(Line(a, b), '.') == 1 && Count(Patch(a, b, c), '.') == 2
  {
    CountNone(Decimal(a), '.');
    CountNone(Decimal(b), '.');
    CountNone(Decimal(c), '.');
    assert Count(".", '.') == 1 + Count(""[0..], '.') == 1;
    CountAppend(Decimal(a), ".", '.');
    CountAppend(Decimal(a) + ".", Decimal(b), '.');
    CountAppend(Line(a, b), ".", '.');
    CountAppend(Line(a, b) + ".", Decimal(c), '.');
  }

  lemma MatchFromParts(requested: string, offered: string, line: string, line': string)
    requires requested != "" && offered != "" && SemVer.IsValid("v" + requested) && SemVer.IsValid("v" + offered)
    requires MajorMinorOf(requested) == line && MajorMinorOf(offered) == line'
    ensures ValidateKubernetesVersionMatch(requested, offered)
            == if line != line' then Some(VersionMismatch)
               else if Count(requested, '.') == 2 && requested != offered then Some(PatchMismatch)
               else None
  {
  }

  lemma MatchOfLine(a: nat, b: nat, a': nat, b': nat, d: nat)
    ensures ValidateKubernetesVersionMatch(Line(a, b), Patch(a', b', d))
            == if a == a' && b == b' then None else Some(VersionMismatch)
  {
    LineParses(a, b);
    PatchParses(a', b', d);
    MajorMinorOfPrinted(a, b, d);
    MajorMinorOfPrinted(a', b', d);
    SameLine(a, b, a', b');
    CountDots(a, b, d);
    MatchFromParts(Line(a, b), Patch(a', b', d), Line(a, b), Line(a', b'));
  }

  lemma MatchOfPatch(a: nat, b: nat, c: nat, a': nat, b': nat, d: nat)
    ensures ValidateKubernetesVersionMatch(Patch(a, b, c), Patch(a', b', d))
            == if a != a' || b != b' then Some(VersionMismatch) else if c != d then Some(PatchMismatch) else None
  {
    PatchParses(a, b, c);
    PatchParses(a', b', d);
    MajorMinorOfPrinted(a, b, c);
    MajorMinorOfPrinted(a', b', d);
    SameLine(a, b, a', b');
    SamePatch(a, b, c, a', b', d);
    CountDots(a, b, c);
    MatchFromParts(Patch(a, b, c), Patch(a', b', d), Line(a, b), Line(a', b'));
  }

  /** The source of a chosen Kubernetes release, or why the manifest lacks the rest of it. */
  function WithTheRest(eks: EksPatchRelease, region: string, m: Manifest): Result<Source, ReleaseError>
  {
    if m.iamRolesAnywhereReleases == [] then Err(NoIamReleases)
    else if region !in m.regionConfig then Err(RegionNotFound)
    else Ok(Source(eks, LatestIam(m).value, m.regionConfig[region]))
  }

  /** A request for a release line accepts every patch release of that line and no other. */
  lemma LineRequestResolves(a: nat, b: nat, region: string, m: Manifest, eks: EksPatchRelease, a': nat, b': nat, d: nat)
    requires LatestEks(Line(a, b), m) == Ok(eks) && eks.version == Patch(a', b', d)
    ensures Resolve(Line(a, b), region, m)
            == if a == a' && b == b' then WithTheRest(eks, region, m) else Err(VersionMismatch)
  {
    MatchOfLine(a, b, a', b', d);
  }

  /** A request for a patch release accepts that patch release only. */
  lemma PatchRequestResolves(a: nat, b: nat, c: nat, region: string, m: Manifest, eks: EksPatchRelease, a': nat, b': nat, d: nat)
    requires LatestEks(Patch(a, b, c), m) == Ok(eks) && eks.version == Patch(a', b', d)
    ensures Resolve(Patch(a, b, c), region, m)
            == if a != a' || b != b' then Err(VersionMismatch)
               else if c != d then Err(PatchMismatch)
               else WithTheRest(eks, region, m)
  {
    MatchOfPatch(a, b, c, a', b', d);
  }

  /** What a request is answered with before anything of the manifest is chosen. */
  lemma BadRequests(version: string, region: string, m: Manifest)
    ensures Resolve("", region, m) == Err(EmptyVersion)
    ensures version != "" && SemVer.Parse("v" + version).None? ==> Resolve(version, region, m) == Err(InvalidVersion)
  {
  }

  /** A chosen release whose own version is empty or malformed is refused as well. */
  lemma BadReleases(version: string, region: string, m: Manifest, eks: EksPatchRelease)
    requires LatestEks(version, m) == Ok(eks)
    ensures eks.version == "" ==> Resolve(version, region, m) == Err(EmptyVersion)
    ensures eks.version != "" && SemVer.Parse("v" + eks.version).None? ==> Resolve(version, region, m) == Err(InvalidVersion)
  {
  }

  lemma WithVOfPatch(a: nat, b: nat, c: nat)
    ensures WithV(Patch(a, b, c)) == SemVer.Print(a, b, c) && WithV(SemVer.Print(a, b, c)) == SemVer.Print(a, b, c)
  {
    assert IsDigit(Patch(a, b, c)[0]);
    Regroup(Decimal(a), Decimal(b), Decimal(c));
    SemVer.ParseOfPrinted(a, b, c);
  }

  /** Of two releases with or without the leading v, one exceeds the other exactly by its numbers. */
  lemma ExceedsByNumbers(r: Release, kept: Release, a: nat, b: nat, c: nat, a': nat, b': nat, c': nat)
    requires r.version in {Patch(a, b, c), SemVer.Print(a, b, c)}
    requires kept.version in {Patch(a', b', c'), SemVer.Print(a', b', c')}
    ensures Exceeds(r, kept) <==> a > a' || (a == a' && (b > b' || (b == b' && c > c')))
  {
    WithVOfPatch(a, b, c);
    WithVOfPatch(a', b', c');
    SemVer.PrintedCompareAsTriples(a', b', c', a, b, c);
  }

  /** Without a patch the releases at the latest patch of the requested line are candidates. */
  lemma CandidatesOfLine(a: nat, b: nat, m: Manifest, r: EksPatchRelease)
    ensures r in MatchedReleases(Line(a, b), m)
            <==> exists i :: 0 <= i < |m.supportedEksReleases|
                             && m.supportedEksReleases[i].majorMinorVersion == Line(a, b)
                             && r in m.supportedEksReleases[i].patchReleases
                             && r.patchVersion == m.supportedEksReleases[i].latestPatchVersion
  {
    MajorMinorOfPrinted(a, b, 0);
    PatchOfPrinted(a, b, 0);
    MatchedExactly(Line(a, b), None, m.supportedEksReleases, |m.supportedEksReleases|, r);
  }

  /** With a patch the releases at that patch of the requested line are. */
  lemma CandidatesOfPatch(a: nat, b: nat, c: nat, m: Manifest, r: EksPatchRelease)
    ensures r in MatchedReleases(Patch(a, b, c), m)
            <==> exists i :: 0 <= i < |m.supportedEksReleases|
                             && m.supportedEksReleases[i].majorMinorVersion == Line(a, b)
                             && r in m.supportedEksReleases[i].patchReleases
                             && r.patchVersion == Decimal(c)
  {
    MajorMinorOfPrinted(a, b, c);
    PatchOfPrinted(a, b, c);
    MatchedExactly(Line(a, b), Some(Decimal(c)), m.supportedEksReleases, |m.supportedEksReleases|, r);
  }

  // ----- Looking up one artifact -----

  predicate IsFor(a: Artifact, name: string, arch: string, os: string)
  {
    a.name == name && a.arch == arch && a.os == os
  }

  /** The first artifact with this name, architecture and operating system. */
  function FindArtifact(artifacts: seq<Artifact>, name: string, arch: string, os: string): (r: Option<Artifact>)
    ensures r.Some? ==> r.value in artifacts && IsFor(r.value, name, arch, os)
    ensures r.None? ==> forall a :: a in artifacts ==> !IsFor(a, name, arch, os)
  {
    if artifacts == [] then None
    else if IsFor(artifacts[0], name, arch, os) then Some(artifacts[0])
    else FindArtifact(artifacts[1..], name, arch, os)
  }

  /** It is found exactly at the first position where all three agree. */
  lemma {:induction false} FoundAtFirst(artifacts: seq<Artifact>, i: nat, name: string, arch: string, os: string)
    requires i < |artifacts|
    requires artifacts[i].name == name && artifacts[i].arch == arch && artifacts[i].os == os
    requires forall j :: 0 <= j < i ==> artifacts[j].name != name || artifacts[j].arch != arch || artifacts[j].os != os
    ensures FindArtifact(artifacts, name, arch, os) == Some(artifacts[i])
  {
    if i > 0 {
      FoundAtFirst(artifacts[1..], i - 1, name, arch, os);
    }
  }

  /** It is not found exactly when they agree nowhere. */
  lemma NotFoundExactly(artifacts: seq<Artifact>, name: string, arch: string, os: string)
    ensures FindArtifact(artifacts, name, arch, os).None?
            <==> forall a :: a in artifacts ==> a.name != name || a.arch != arch || a.os != os
  {
  }

  /** Where an installer downloads an artifact from: the compressed copy when there is one. */
  function DownloadUri(a: Artifact): string
  {
    if a.gzipUri != "" then a.gzipUri else a.uri
  }

  /** The compressed copy is preferred exactly where there is one. */
  lemma DownloadsCompressed(a: Artifact)
    ensures DownloadUri(a) == a.gzipUri || (a.gzipUri == "" && DownloadUri(a) == a.uri)
  {
  }
}
