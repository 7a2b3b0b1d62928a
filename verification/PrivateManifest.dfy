/**
 The round trip between sync-artifacts and a private install: a source resolved from the public manifest,
 written as a one-release manifest and resolved again.
 */
module PrivateManifest {
  import opened Wrappers
  import opened Text
  import SemVer
  import opened Releases
  import opened SyncArtifacts

  // ----- The two readings of "major.minor" -----

  lemma NumeralHasNoDot(s: string)
    requires SemVer.IsNumeral(s)
    ensures '.' !in s
  {
  }

  lemma SplitMajorMinor(version: string, major: string, minor: string)
    requires SemVer.IsNumeral(major) && SemVer.IsNumeral(minor)
    requires version == major + "." + minor || (major + "." + minor + ".") <= version
    ensures MajorMinorFromText(version) == major + "." + minor && '.' in version
  {
    NumeralHasNoDot(major);
    NumeralHasNoDot(minor);
    assert version[|major|] == '.';
    if version == major + "." + minor {
      SplitFirst(major, minor, '.');
      SplitWhole(minor, '.');
    } else {
      var rest := version[|major| + |minor| + 2..];
      assert version == major + "." + (minor + "." + rest);
      SplitFirst(major, minor + "." + rest, '.');
      SplitFirst(minor, rest, '.');
    }
  }

  lemma AgreesByLayout(version: string, p: SemVer.Version)
    requires SemVer.IsNumeral(p.major) && p.major <= version && SemVer.Layout(p, version[|p.major|..])
    ensures MajorMinorFromText(version) == p.major + "." + p.minor <==> '.' in version
  {
    var rest := version[|p.major|..];
    assert version == p.major + rest;
    NumeralHasNoDot(p.major);
    if p.written == 1 {
      SplitWhole(version, '.');
    } else if p.written == 2 {
      SplitMajorMinor(version, p.major, p.minor);
    } else {
      assert rest == "." + p.minor + "." + p.patch + rest[2 + |p.minor| + |p.patch|..];
      SplitMajorMinor(version, p.major, p.minor);
    }
  }

  /** Cutting the text at its dots gives the release line exactly when the text has a minor component. */
  lemma MajorMinorAgreesIffDotted(version: string)
    requires SemVer.IsValid("v" + version)
    ensures MajorMinorFromText(version) == MajorMinorOf(version) <==> '.' in version
  {
    MajorMinorOfValid(version);
    SemVer.ParseShape(version);
    AgreesByLayout(version, SemVer.Parse("v" + version).value);
  }

  // ----- What a resolved source satisfies -----

  lemma LatestEksIsSelected(version: string, m: Manifest)
    requires LatestEks(version, m).Ok?
    ensures PatchOf(version).Some? ==> LatestEks(version, m).value.patchVersion == PatchOf(version).value
  {
    var r := LatestEks(version, m).value;
    LatestEksIsFirstOfMaximalDate(version, m);
    assert r in MatchedReleases(version, m);
    MatchedExactly(MajorMinorOf(version), PatchOf(version), m.supportedEksReleases, |m.supportedEksReleases|, r);
  }

  lemma OneReleaseMatches(majorMinor: string, patch: Option<string>, s: SupportedEksRelease)
    requires |s.patchReleases| == 1
    ensures Matched(majorMinor, patch, [s], 1)
            == if Selects(majorMinor, patch, s, s.patchReleases[0]) then [s.patchReleases[0]] else []
  {
    assert MatchedIn(majorMinor, patch, s, 0) == [];
    assert Matched(majorMinor, patch, [s], 0) == [];
  }

  lemma OneReleaseLatest(version: string, m: Manifest, s: SupportedEksRelease)
    requires version != "" && SemVer.IsValid("v" + version)
    requires m.supportedEksReleases == [s] && |s.patchReleases| == 1
    ensures LatestEks(version, m)
            == if Selects(MajorMinorOf(version), PatchOf(version), s, s.patchReleases[0])
               then Ok(s.patchReleases[0]) else Err(NoMatch(PatchOf(version).Some?))
  {
    OneReleaseMatches(MajorMinorOf(version), PatchOf(version), s);
  }

  lemma ValidationSeesOnlyTheVersion(requested: string, offered: string)
    requires ValidateKubernetesVersionMatch(requested, offered).None?
    ensures requested != "" && SemVer.IsValid("v" + requested) && SemVer.IsValid("v" + offered)
    ensures MajorMinorOf(requested) == MajorMinorOf(offered)
  {
  }

  // ----- The round trip -----

  ghost predicate SameSelection(s: Source, t: Source)
  {
    && t.eks.version == s.eks.version
    && t.eks.patchVersion == s.eks.patchVersion
    && t.eks.releaseDate == s.eks.releaseDate
    && t.iam.version == s.iam.version
    && t.regionInfo.ecrAccountId == s.regionInfo.ecrAccountId
    && forall p :: p in {"iam-ra", "ssm"} ==>
         p in t.regionInfo.credProviders
         && (t.regionInfo.credProviders[p] <==> p in s.regionInfo.credProviders && s.regionInfo.credProviders[p])
  }

  lemma EksOfCustomManifest(d: Downloader, version: string, eks: seq<Artifact>, iam: seq<Artifact>, ssm: seq<Artifact>)
    requires version != "" && SemVer.IsValid("v" + version) && SemVer.IsValid("v" + d.source.eks.version)
    requires MajorMinorOf(version) == MajorMinorOf(d.source.eks.version)
    requires PatchOf(version).Some? ==> d.source.eks.patchVersion == PatchOf(version).value
    ensures LatestEks(version, d.ManifestOf(eks, iam, ssm))
            == if '.' in d.source.eks.version
               then Ok(EksPatchRelease(d.source.eks.version, d.source.eks.patchVersion, d.source.eks.releaseDate, eks))
               else Err(NoMatch(PatchOf(version).Some?))
  {
    var m := d.ManifestOf(eks, iam, ssm);
    MajorMinorAgreesIffDotted(d.source.eks.version);
    OneReleaseLatest(version, m, m.supportedEksReleases[0]);
  }

  lemma ResolveFromParts(version: string, region: string, m: Manifest, eks: EksPatchRelease)
    requires LatestEks(version, m) == Ok(eks)
    requires ValidateKubernetesVersionMatch(version, eks.version).None?
    requires region in m.regionConfig
    ensures Resolve(version, region, m)
            == match LatestIam(m) case Err(e) => Err(e) case Ok(iam) => Ok(Source(eks, iam, m.regionConfig[region]))
  {
  }

  lemma OneIamRelease(d: Downloader, eks: seq<Artifact>, iam: seq<Artifact>, ssm: seq<Artifact>)
    ensures LatestIam(d.ManifestOf(eks, iam, ssm))
            == if iam == [] then Err(NoIamReleases) else Ok(Release(d.source.iam.version, iam))
  {
  }

  /** The source that the written manifest stands for. */
  function CustomSource(d: Downloader, eks: seq<Artifact>, iam: seq<Artifact>): Source
  {
    Source(EksPatchRelease(d.source.eks.version, d.source.eks.patchVersion, d.source.eks.releaseDate, eks),
           Release(d.source.iam.version, iam),
           d.ManifestOf(eks, iam, []).regionConfig[d.region])
  }

  lemma CustomSourceIsSameSelection(d: Downloader, eks: seq<Artifact>, iam: seq<Artifact>)
    ensures SameSelection(d.source, CustomSource(d, eks, iam))
  {
  }

  lemma ResolveCustomManifest(d: Downloader, version: string, eks: seq<Artifact>, iam: seq<Artifact>, ssm: seq<Artifact>)
    requires ValidateKubernetesVersionMatch(version, d.source.eks.version).None?
    requires PatchOf(version).Some? ==> d.source.eks.patchVersion == PatchOf(version).value
    ensures var r := Resolve(version, d.region, d.ManifestOf(eks, iam, ssm));
            && (r.Ok? <==> '.' in d.source.eks.version && iam != [])
            && (r.Ok? ==> r.value == CustomSource(d, eks, iam))
  {
    ValidationSeesOnlyTheVersion(version, d.source.eks.version);
    EksOfCustomManifest(d, version, eks, iam, ssm);
    OneIamRelease(d, eks, iam, ssm);
    if '.' in d.source.eks.version {
      ResolveFromParts(version, d.region, d.ManifestOf(eks, iam, ssm),
                       EksPatchRelease(d.source.eks.version, d.source.eks.patchVersion, d.source.eks.releaseDate, eks));
    }
  }

  /**
   Resolving the written manifest with the same version and region succeeds exactly when the chosen version
   spells out a minor component and the signing helper was found for this platform; it then chooses the same
   releases, account and credential providers.
   */
  lemma ManifestRoundTrip(d: Downloader, version: string, m: Manifest)
    requires Resolve(version, d.region, m) == Ok(d.source)
    ensures var r := Resolve(version, d.region, d.CustomManifest(d.Collected()));
            && (r.Ok? <==> '.' in d.source.eks.version && d.Find(d.source.iam.artifacts, SIGNING_HELPER).Some?)
            && (r.Ok? ==> SameSelection(d.source, r.value)
                          && r.value.eks.artifacts == d.CustomAll(d.EksArtifacts())
                          && r.value.iam.artifacts == d.CustomAll(d.IamArtifacts()))
  {
    LatestEksIsSelected(version, m);
    d.ManifestListsEveryUpload();
    var eks, iam := d.CustomAll(d.EksArtifacts()), d.CustomAll(d.IamArtifacts());
    ResolveCustomManifest(d, version, eks, iam, d.CustomAll(d.SsmArtifacts()));
    CustomSourceIsSameSelection(d, eks, iam);
  }

  /** A public manifest with one release of this version, and the source it resolves to. */
  lemma OneReleaseSource(version: string, region: string, helpers: seq<Artifact>) returns (d: Downloader, m: Manifest)
    requires version != "" && SemVer.IsValid("v" + version)
    ensures d.region == region && Resolve(version, region, m) == Ok(d.source)
    ensures d.source.eks.version == version && d.source.iam.artifacts == helpers && d.arch == "arm64" && d.os == "linux"
  {
    var patch := if PatchOf(version).Some? then PatchOf(version).value else "";
    var eks := EksPatchRelease(version, patch, "", []);
    var iam := Release("", helpers);
    var info := RegionData("", "", "", map[]);
    m := Manifest([SupportedEksRelease(MajorMinorOf(version), patch, [eks])], [iam], [], map[region := info]);
    d := Downloader(Source(eks, iam, info), "arm64", "linux", region, "", "", 0);
    OneReleaseLatest(version, m, m.supportedEksReleases[0]);
    ResolveFromParts(version, region, m, eks);
  }

  lemma OneIsValid()
    ensures SemVer.IsValid("v" + "1")
  {
    assert Decimal(1) == "1" && "1" + "" == "1" && ("v" + "1")[1..] == "1";
    SemVer.ParseIntOfDecimal(1, "");
  }

  /** For every valid version, a source without the signing helper, whose written manifest does not resolve. */
  lemma ManifestWithoutHelper(version: string, region: string) returns (d: Downloader, m: Manifest)
    requires version != "" && SemVer.IsValid("v" + version)
    ensures Resolve(version, region, m) == Ok(d.source) && d.region == region
    ensures Resolve(version, region, d.CustomManifest(d.Collected())).Err?
  {
    d, m := OneReleaseSource(version, region, []);
    ManifestRoundTrip(d, version, m);
  }

  /** A source with the signing helper and a version without a minor component: it does not resolve either. */
  lemma ManifestWithoutMinor(region: string) returns (d: Downloader, m: Manifest)
    ensures Resolve("1", region, m) == Ok(d.source) && d.region == region
    ensures d.Find(d.source.iam.artifacts, SIGNING_HELPER).Some?
    ensures Resolve("1", region, d.CustomManifest(d.Collected())).Err?
  {
    OneIsValid();
    d, m := OneReleaseSource("1", region, [Artifact(SIGNING_HELPER, "arm64", "linux", "", "", "")]);
    ManifestRoundTrip(d, "1", m);
  }

  // ----- Looking artifacts up in the written manifest -----

  lemma {:induction false} FindAppend(xs: seq<Artifact>, ys: seq<Artifact>, name: string, arch: string, os: string)
    ensures FindArtifact(xs + ys, name, arch, os)
            == var r := FindArtifact(xs, name, arch, os); if r.Some? then r else FindArtifact(ys, name, arch, os)
  {
    if xs == [] {
      assert xs + ys == ys;
    } else {
      assert (xs + ys)[1..] == xs[1..] + ys;
      FindAppend(xs[1..], ys, name, arch, os);
    }
  }

  /** What the written manifest offers under a name that the sync looked for. */
  function Offered(d: Downloader, artifacts: seq<Artifact>, name: string, dir: string): Option<Artifact>
  {
    match d.Find(artifacts, name)
    case None => None
    case Some(a) => Some(d.Custom(ArtifactInfo(name, a.uri, a.checksumUri, dir + name)))
  }

  lemma FindInOne(d: Downloader, artifacts: seq<Artifact>, looked: string, dir: string, name: string)
    ensures d.Find(d.CustomAll(d.NamedOne(artifacts, looked, dir)), name)
            == if name == looked then Offered(d, artifacts, name, dir) else None
  {
    var one := d.CustomAll(d.NamedOne(artifacts, looked, dir));
    if one != [] {
      assert FindArtifact(one[1..], name, d.arch, d.os) == None;
    }
  }

  lemma {:induction false} FindInCustom(d: Downloader, artifacts: seq<Artifact>, names: seq<string>, dir: string, name: string)
    ensures d.Find(d.CustomAll(d.Named(artifacts, names, dir)), name)
            == if name in names then Offered(d, artifacts, name, dir) else None
  {
    if names != [] {
      var init, last := names[..|names| - 1], names[|names| - 1];
      assert names == init + [last];
      FindInCustom(d, artifacts, init, dir, name);
      var one := d.NamedOne(artifacts, last, dir);
      assert d.CustomAll(d.Named(artifacts, names, dir)) == d.CustomAll(d.Named(artifacts, init, dir)) + d.CustomAll(one);
      FindAppend(d.CustomAll(d.Named(artifacts, init, dir)), d.CustomAll(one), name, d.arch, d.os);
      FindInOne(d, artifacts, last, dir, name);
    }
  }

  /**
   After the round trip an installer for the synced platform finds each artifact exactly when the sync found
   it, and downloads it from the key it was uploaded to.
   */
  lemma PrivateInstallFindsEveryArtifact(d: Downloader, version: string, m: Manifest, name: string)
    requires Resolve(version, d.region, m) == Ok(d.source)
    requires Resolve(version, d.region, d.CustomManifest(d.Collected())).Ok?
    ensures var s := Resolve(version, d.region, d.CustomManifest(d.Collected())).value;
            && d.Find(s.eks.artifacts, name)
               == (if name in EKS_NAMES then Offered(d, d.source.eks.artifacts, name, "eks/") else None)
            && d.Find(s.iam.artifacts, name)
               == (if name == SIGNING_HELPER then Offered(d, d.source.iam.artifacts, name, "iam-ra/") else None)
  {
    ManifestRoundTrip(d, version, m);
    FindInCustom(d, d.source.eks.artifacts, EKS_NAMES, "eks/", name);
    FindInOne(d, d.source.iam.artifacts, SIGNING_HELPER, "iam-ra/", name);
  }

  lemma OfferedIsAtItsKey(d: Downloader, artifacts: seq<Artifact>, name: string, dir: string)
    requires Offered(d, artifacts, name, dir).Some?
    ensures var a := d.Find(artifacts, name).value;
            DownloadUri(Offered(d, artifacts, name, dir).value)
            == d.Host() + "/" + d.Key(ArtifactInfo(name, a.uri, a.checksumUri, dir + name))
  {
    var a := d.Find(artifacts, name).value;
    d.UriIsHostAndKey(ArtifactInfo(name, a.uri, a.checksumUri, dir + name));
  }
}
