/**
 sync-artifacts: upload the artifacts of one resolved source to a bucket and write a manifest that lists
 just them, so that a later private install resolves that manifest instead of the public one.
 */
module SyncArtifacts {
  import opened Wrappers
  import opened Text
  import opened Releases

  datatype ArtifactInfo = ArtifactInfo(name: string, url: string, checksumUrl: string, localPath: string)

  datatype SyncError = NoArtifacts | UploadFailed(name: string) | ManifestNotWritten

  datatype Category = Eks | Iam | Ssm | Uncategorized

  const EKS_NAMES := ["kubelet", "kubectl", "cni-plugins", "ecr-credential-provider", "aws-iam-authenticator"]
  const SIGNING_HELPER := "aws_signing_helper"

  function PartitionOf(region: string): string
  {
    if HasPrefix(region, "cn-") then "aws-cn"
    else if HasPrefix(region, "us-gov-") then "aws-us-gov"
    else if HasPrefix(region, "us-isob-") then "aws-iso-b"
    else if HasPrefix(region, "us-isoe-") then "aws-iso-e"
    else if HasPrefix(region, "us-isof-") then "aws-iso-f"
    else if HasPrefix(region, "us-iso-") then "aws-iso"
    else if HasPrefix(region, "eusc-") then "aws-eusc"
    else "aws"
  }

  function DnsSuffixOf(partition: string): string
  {
    if partition == "aws-cn" then "amazonaws.com.cn"
    else if partition == "aws-iso" then "c2s.ic.gov"
    else if partition == "aws-iso-b" then "sc2s.sgov.gov"
    else if partition == "aws-iso-e" then "cloud.adc-e.uk"
    else if partition == "aws-iso-f" then "csp.hci.ic.gov"
    else if partition == "aws-eusc" then "amazonaws.eu"
    else "amazonaws.com"
  }

  /** The suffix that a region gets without one of its own. */
  lemma SuffixByRegion(region: string)
    ensures DnsSuffixOf(PartitionOf(region))
            == if "cn-" <= region then "amazonaws.com.cn"
               else if "us-iso-" <= region then "c2s.ic.gov"
               else if "us-isob-" <= region then "sc2s.sgov.gov"
               else if "us-isoe-" <= region then "cloud.adc-e.uk"
               else if "us-isof-" <= region then "csp.hci.ic.gov"
               else if "eusc-" <= region then "amazonaws.eu"
               else "amazonaws.com"
  {
    if "us-iso-" <= region {
      assert region[6] == '-' && region[0] == 'u' && region[3] == 'i';
    } else if "us-gov-" <= region {
      assert region[3] == 'g' && region[0] == 'u';
    }
  }

  function MajorMinorFromText(version: string): string
  {
    var parts := Split(version, '.');
    if |parts| >= 2 then parts[0] + "." + parts[1] else version
  }

  function CategoryOf(localPath: string): Category
  {
    if HasPrefix(localPath, "iam-ra/") then Iam
    else if HasPrefix(localPath, "eks/") then Eks
    else if HasPrefix(localPath, "ssm/") then Ssm
    else Uncategorized
  }

  /** The sub-sequence of the first n artifacts that falls in one category. */
  function OfCategory(artifacts: seq<ArtifactInfo>, n: nat, category: Category): seq<ArtifactInfo>
    requires n <= |artifacts|
  {
    if n == 0 then []
    else OfCategory(artifacts, n - 1, category)
         + (if CategoryOf(artifacts[n - 1].localPath) == category then [artifacts[n - 1]] else [])
  }

  /** One object stored in the bucket: its key and where its bytes came from. */
  datatype Stored = Stored(key: string, url: string)

  class Bucket {
    var objects: seq<Stored>
    ghost var faulted: bool  // whether any download or upload has failed

    constructor ()
      ensures objects == [] && !faulted
    {
      objects, faulted := [], false;
    }

    /** Copies url to key. The download or the upload may fail, and then nothing is stored. */
    method StreamToS3(url: string, key: string) returns (ok: bool)
      modifies this
      ensures objects == old(objects) + (if ok then [Stored(key, url)] else [])
      ensures faulted <==> old(faulted) || !ok
    {
      ok := *;
      if ok {
        objects := objects + [Stored(key, url)];
      } else {
        faulted := true;
      }
    }
  }

  /** Where the bytes under a key came from: the object stored there last. */
  function Held(objects: seq<Stored>, key: string): Option<string>
  {
    if objects == [] then None
    else
      var last := objects[|objects| - 1];
      if last.key == key then Some(last.url) else Held(objects[..|objects| - 1], key)
  }

  lemma {:induction false} HeldIs(objects: seq<Stored>, start: nat, key: string, url: string)
    requires start <= |objects| && Stored(key, url) in objects[start..]
    requires forall o :: o in objects[start..] && o.key == key ==> o.url == url
    ensures Held(objects, key) == Some(url)
  {
    var n := |objects| - 1;
    assert objects[start..] == objects[..n][start..] + [objects[n]];
    if objects[n].key != key {
      HeldIs(objects[..n], start, key, url);
    }
  }

  /** The manifest files in the working directory. */
  class WorkingDirectory {
    var manifests: map<string, Manifest>
    ghost var faulted: bool  // whether any write has failed

    constructor ()
      ensures manifests == map[] && !faulted
    {
      manifests, faulted := map[], false;
    }

    /** A failing write may lose the manifest that had this name. */
    method Write(name: string, m: Manifest) returns (ok: bool)
      modifies this
      ensures manifests - {name} == old(manifests) - {name}
      ensures ok ==> manifests == old(manifests)[name := m]
      ensures !ok ==> manifests == old(manifests) || manifests == old(manifests) - {name}
      ensures faulted <==> old(faulted) || !ok
    {
      ok := *;
      var lost: bool := *;
      if ok {
        manifests := manifests[name := m];
      } else {
        faulted := true;
        if lost {
          manifests := manifests - {name};
        }
      }
    }
  }

  datatype Downloader = Downloader(
    source: Source, arch: string, os: string, region: string, bucket: string, prefix: string, timestamp: nat)
  {
    function DnsSuffix(): string
    {
      if source.regionInfo.dnsSuffix != "" then source.regionInfo.dnsSuffix else DnsSuffixOf(PartitionOf(region))
    }

    // ----- Which artifacts are synced -----

    function Find(artifacts: seq<Artifact>, name: string): Option<Artifact>
    {
      FindArtifact(artifacts, name, arch, os)
    }

    function NamedOne(artifacts: seq<Artifact>, name: string, dir: string): seq<ArtifactInfo>
    {
      match Find(artifacts, name)
      case None => []
      case Some(a) => [ArtifactInfo(name, a.uri, a.checksumUri, dir + name)]
    }

    function Named(artifacts: seq<Artifact>, names: seq<string>, dir: string): seq<ArtifactInfo>
    {
      if names == [] then []
      else
        Named(artifacts, names[..|names| - 1], dir) + NamedOne(artifacts, names[|names| - 1], dir)
    }

    function SsmInstallerUrl(): Option<string>
    {
      if os != "linux" then None
      else Some("https://amazon-ssm-" + region + ".s3." + region + "." + DnsSuffix()
                + "/latest/linux_" + arch + "/ssm-setup-cli")
    }

    function SsmArtifacts(): seq<ArtifactInfo>
    {
      match SsmInstallerUrl()
      case None => []
      case Some(url) =>
        [ArtifactInfo("ssm-setup-cli", url, "", "ssm/ssm-setup-cli"),
         ArtifactInfo("ssm-setup-cli.sig", url + ".sig", "", "ssm/ssm-setup-cli.sig")]
    }

    function EksArtifacts(): seq<ArtifactInfo>
    {
      Named(source.eks.artifacts, EKS_NAMES, "eks/")
    }

    function IamArtifacts(): seq<ArtifactInfo>
    {
      NamedOne(source.iam.artifacts, SIGNING_HELPER, "iam-ra/")
    }

    function Collected(): seq<ArtifactInfo>
    {
      EksArtifacts() + IamArtifacts() + SsmArtifacts()
    }

    method CollectArtifacts() returns (r: Result<seq<ArtifactInfo>, SyncError>)
      ensures r == if Collected() == [] then Err(NoArtifacts) else Ok(Collected())
    {
      var artifacts: seq<ArtifactInfo> := [];
      for i := 0 to |EKS_NAMES|
        invariant artifacts == Named(source.eks.artifacts, EKS_NAMES[..i], "eks/")
      {
        assert EKS_NAMES[..i + 1][..i] == EKS_NAMES[..i];
        var found := Find(source.eks.artifacts, EKS_NAMES[i]);
        if found.Some? {
          artifacts := artifacts
            + [ArtifactInfo(EKS_NAMES[i], found.value.uri, found.value.checksumUri, "eks/" + EKS_NAMES[i])];
        }
      }
      assert EKS_NAMES[..|EKS_NAMES|] == EKS_NAMES;
      assert artifacts == EksArtifacts();
      var helper := Find(source.iam.artifacts, SIGNING_HELPER);
      if helper.Some? {
        artifacts := artifacts
          + [ArtifactInfo(SIGNING_HELPER, helper.value.uri, helper.value.checksumUri, "iam-ra/" + SIGNING_HELPER)];
      }
      assert artifacts == EksArtifacts() + IamArtifacts();
      var url := SsmInstallerUrl();
      if url.Some? {
        artifacts := artifacts + [ArtifactInfo("ssm-setup-cli", url.value, "", "ssm/ssm-setup-cli")];
        artifacts := artifacts + [ArtifactInfo("ssm-setup-cli.sig", url.value + ".sig", "", "ssm/ssm-setup-cli.sig")];
      }
      assert artifacts == Collected();
      if artifacts == [] {
        return Err(NoArtifacts);
      }
      return Ok(artifacts);
    }

    // ----- Where they go -----

    function Host(): string
    {
      "https://" + bucket + ".s3." + region + "." + DnsSuffix()
    }

    function Key(a: ArtifactInfo): string
    {
      TrimSuffix(prefix, '/') + "/" + Decimal(timestamp) + "/" + a.localPath
    }

    function BaseUrl(): string
    {
      "https://" + bucket + ".s3." + region + "." + DnsSuffix() + "/" + TrimSuffix(prefix, '/') + "/" + Decimal(timestamp)
    }

    function Custom(a: ArtifactInfo): Artifact
    {
      Artifact(a.name, arch, os, BaseUrl() + "/" + a.localPath,
               if a.checksumUrl != "" then BaseUrl() + "/" + a.localPath + ".sha256" else "", "")
    }

    function CustomAll(artifacts: seq<ArtifactInfo>): (r: seq<Artifact>)
      ensures |r| == |artifacts|
      ensures forall i :: 0 <= i < |r| ==> r[i] == Custom(artifacts[i])
    {
      seq(|artifacts|, i requires 0 <= i < |artifacts| => Custom(artifacts[i]))
    }

    /** The custom artifacts of one category among the first n. */
    function CustomOf(artifacts: seq<ArtifactInfo>, n: nat, category: Category): seq<Artifact>
      requires n <= |artifacts|
    {
      CustomAll(OfCategory(artifacts, n, category))
    }

    function ProviderFlag(name: string): bool
    {
      name in source.regionInfo.credProviders && source.regionInfo.credProviders[name]
    }

    function ManifestOf(eks: seq<Artifact>, iam: seq<Artifact>, ssm: seq<Artifact>): Manifest
    {
      Manifest(
        [SupportedEksRelease(
           MajorMinorFromText(source.eks.version), source.eks.patchVersion,
           [EksPatchRelease(source.eks.version, source.eks.patchVersion, source.eks.releaseDate, eks)])],
        if |iam| > 0 then [Release(source.iam.version, iam)] else [],
        if |ssm| > 0 then [Release("latest", ssm)] else [],
        map[region := RegionData(source.regionInfo.ecrAccountId, "", "",
                                 map["iam-ra" := ProviderFlag("iam-ra"), "ssm" := ProviderFlag("ssm")])])
    }

    function CustomManifest(artifacts: seq<ArtifactInfo>): Manifest
    {
      ManifestOf(CustomOf(artifacts, |artifacts|, Eks),
                 CustomOf(artifacts, |artifacts|, Iam),
                 CustomOf(artifacts, |artifacts|, Ssm))
    }

    lemma CustomOfNext(artifacts: seq<ArtifactInfo>, n: nat, category: Category)
      requires n < |artifacts|
      ensures CustomOf(artifacts, n + 1, category)
              == CustomOf(artifacts, n, category)
                 + (if CategoryOf(artifacts[n].localPath) == category then [Custom(artifacts[n])] else [])
    {
    }

    method GenerateCustomManifest(artifacts: seq<ArtifactInfo>) returns (m: Manifest)
      ensures m == CustomManifest(artifacts)
    {
      var eks: seq<Artifact> := [];
      var iam: seq<Artifact> := [];
      var ssm: seq<Artifact> := [];
      for i := 0 to |artifacts|
        invariant eks == CustomOf(artifacts, i, Eks)
        invariant iam == CustomOf(artifacts, i, Iam)
        invariant ssm == CustomOf(artifacts, i, Ssm)
      {
        CustomOfNext(artifacts, i, Eks);
        CustomOfNext(artifacts, i, Iam);
        CustomOfNext(artifacts, i, Ssm);
        var path := artifacts[i].localPath;
        var a := Custom(artifacts[i]);
        if HasPrefix(path, "iam-ra/") {
          iam := iam + [a];
        } else if HasPrefix(path, "eks/") {
          eks := eks + [a];
        } else if HasPrefix(path, "ssm/") {
          ssm := ssm + [a];
        }
      }
      return ManifestOf(eks, iam, ssm);
    }

    // ----- The texts of hosts and keys -----

    /** The host of the bucket, by the suffix of the source or else by the region. */
    lemma HostText()
      ensures Host() == "https://" + bucket + ".s3." + region + "."
                        + (if source.regionInfo.dnsSuffix != "" then source.regionInfo.dnsSuffix
                           else DnsSuffixOf(PartitionOf(region)))
    {
    }

    /** One slash at the end of the prefix makes no difference to the keys. */
    lemma KeyText(path: string, a: ArtifactInfo)
      requires path == "" || path[|path| - 1] != '/'
      requires prefix == path || prefix == path + "/"
      ensures Key(a) == path + "/" + Decimal(timestamp) + "/" + a.localPath
    {
      if prefix == path + "/" {
        assert prefix[..|prefix| - 1] == path;
      }
    }

    /** Where the SSM installer comes from, which is for linux only. */
    lemma SsmArtifactsText()
      ensures os != "linux" ==> SsmArtifacts() == []
      ensures os == "linux" ==>
                var url := "https://amazon-ssm-" + region + ".s3." + region + "." + DnsSuffix() + "/latest/linux_" + arch + "/ssm-setup-cli";
                SsmArtifacts() == [ArtifactInfo("ssm-setup-cli", url, "", "ssm/ssm-setup-cli"),
                                   ArtifactInfo("ssm-setup-cli.sig", url + ".sig", "", "ssm/ssm-setup-cli.sig")]
    {
    }

    lemma {:induction false} NamedHas(artifacts: seq<Artifact>, names: seq<string>, dir: string, name: string)
      requires name in names && Find(artifacts, name).Some?
      ensures var a := Find(artifacts, name).value;
              ArtifactInfo(name, a.uri, a.checksumUri, dir + name) in Named(artifacts, names, dir)
    {
      var last := |names| - 1;
      if names[last] != name {
        NamedHas(artifacts, names[..last], dir, name);
      }
    }

    /** The Kubernetes artifacts that are looked for, and where they go. */
    lemma EksArtifactsByName(name: string)
      requires name in {"kubelet", "kubectl", "cni-plugins", "ecr-credential-provider", "aws-iam-authenticator"}
      requires Find(source.eks.artifacts, name).Some?
      ensures var a := Find(source.eks.artifacts, name).value;
              ArtifactInfo(name, a.uri, a.checksumUri, "eks/" + name) in Collected()
    {
      assert EKS_NAMES[0] == "kubelet" && EKS_NAMES[1] == "kubectl" && EKS_NAMES[2] == "cni-plugins";
      assert EKS_NAMES[3] == "ecr-credential-provider" && EKS_NAMES[4] == "aws-iam-authenticator";
      NamedHas(source.eks.artifacts, EKS_NAMES, "eks/", name);
    }

    /** So is the signing helper. */
    lemma HelperByName()
      requires Find(source.iam.artifacts, "aws_signing_helper").Some?
      ensures var a := Find(source.iam.artifacts, "aws_signing_helper").value;
              ArtifactInfo("aws_signing_helper", a.uri, a.checksumUri, "iam-ra/aws_signing_helper") in Collected()
    {
      assert "iam-ra/" + "aws_signing_helper" == "iam-ra/aws_signing_helper";
    }

    // ----- Upload and manifest agree -----

    /** Every URI in the manifest is the bucket host followed by the key of the upload. */
    lemma UriIsHostAndKey(a: ArtifactInfo)
      ensures Custom(a).uri == Host() + "/" + Key(a)
      ensures a.checksumUrl != "" ==> Custom(a).checksumUri == Host() + "/" + Key(a) + ".sha256"
      ensures a.checksumUrl == "" ==> Custom(a).checksumUri == ""
    {
      var p, t := TrimSuffix(prefix, '/'), Decimal(timestamp);
      assert BaseUrl() + "/" + a.localPath == Host() + "/" + (p + "/" + t + "/" + a.localPath);
      assert BaseUrl() + "/" + a.localPath + ".sha256" == Host() + "/" + Key(a) + ".sha256";
    }

    lemma {:induction false} NamedAre(artifacts: seq<Artifact>, names: seq<string>, dir: string, category: Category)
      requires forall name: string :: CategoryOf(dir + name) == category
      ensures forall a :: a in Named(artifacts, names, dir) ==> CategoryOf(a.localPath) == category
    {
      if names != [] {
        NamedAre(artifacts, names[..|names| - 1], dir, category);
      }
    }

    lemma {:induction false} OfCategoryPrefix(xs: seq<ArtifactInfo>, ys: seq<ArtifactInfo>, n: nat, category: Category)
      requires n <= |xs| && n <= |ys| && xs[..n] == ys[..n]
      ensures OfCategory(xs, n, category) == OfCategory(ys, n, category)
    {
      if n > 0 {
        assert xs[..n][n - 1] == ys[..n][n - 1];
        assert xs[..n - 1] == xs[..n][..n - 1] && ys[..n - 1] == ys[..n][..n - 1];
        OfCategoryPrefix(xs, ys, n - 1, category);
      }
    }

    lemma {:induction false} OfCategoryAppend(xs: seq<ArtifactInfo>, ys: seq<ArtifactInfo>, category: Category)
      ensures OfCategory(xs + ys, |xs + ys|, category)
              == OfCategory(xs, |xs|, category) + OfCategory(ys, |ys|, category)
    {
      if ys == [] {
        assert xs + ys == xs;
      } else {
        var last := |ys| - 1;
        var all := xs + ys;
        assert OfCategory(all, |xs| + last, category) == OfCategory(xs, |xs|, category) + OfCategory(ys, last, category) by {
          OfCategoryAppend(xs, ys[..last], category);
          OfCategoryPrefix(all, xs + ys[..last], |xs| + last, category);
          OfCategoryPrefix(ys, ys[..last], last, category);
        }
        assert all[|xs| + last] == ys[last];
      }
    }

    lemma {:induction false} AllOrNone(xs: seq<ArtifactInfo>, n: nat, mine: Category, category: Category)
      requires n <= |xs|
      requires forall a :: a in xs ==> CategoryOf(a.localPath) == mine
      ensures OfCategory(xs, n, category) == if mine == category then xs[..n] else []
    {
      if n > 0 {
        AllOrNone(xs, n - 1, mine, category);
      }
    }

    lemma CategoryByDirectory(name: string)
      ensures CategoryOf("eks/" + name) == Eks
      ensures CategoryOf("iam-ra/" + name) == Iam
      ensures CategoryOf("ssm/" + name) == Ssm
    {
      assert ("eks/" + name)[0] == 'e' && ("ssm/" + name)[0] == 's' && "iam-ra/"[0] == 'i' && "eks/"[0] == 'e';
    }

    lemma EksCategory()
      ensures forall a :: a in EksArtifacts() ==> CategoryOf(a.localPath) == Eks
    {
      forall name: string ensures CategoryOf("eks/" + name) == Eks {
        CategoryByDirectory(name);
      }
      NamedAre(source.eks.artifacts, EKS_NAMES, "eks/", Eks);
    }

    lemma IamCategory()
      ensures forall a :: a in IamArtifacts() ==> CategoryOf(a.localPath) == Iam
    {
      CategoryByDirectory(SIGNING_HELPER);
    }

    lemma SsmCategory()
      ensures forall a :: a in SsmArtifacts() ==> CategoryOf(a.localPath) == Ssm
    {
      CategoryByDirectory("ssm-setup-cli");
      CategoryByDirectory("ssm-setup-cli.sig");
      assert "ssm/ssm-setup-cli" == "ssm/" + "ssm-setup-cli";
      assert "ssm/ssm-setup-cli.sig" == "ssm/" + "ssm-setup-cli.sig";
    }

    lemma WholeCategory(xs: seq<ArtifactInfo>, mine: Category, category: Category)
      requires forall a :: a in xs ==> CategoryOf(a.localPath) == mine
      ensures OfCategory(xs, |xs|, category) == if mine == category then xs else []
    {
      AllOrNone(xs, |xs|, mine, category);
      assert xs[..|xs|] == xs;
    }

    lemma ThreeByCategory(e: seq<ArtifactInfo>, i: seq<ArtifactInfo>, s: seq<ArtifactInfo>, category: Category)
      ensures OfCategory(e + i + s, |e + i + s|, category)
              == OfCategory(e, |e|, category) + OfCategory(i, |i|, category) + OfCategory(s, |s|, category)
    {
      OfCategoryAppend(e + i, s, category);
      OfCategoryAppend(e, i, category);
    }

    lemma OneOfThree(e: seq<ArtifactInfo>, i: seq<ArtifactInfo>, s: seq<ArtifactInfo>, category: Category)
      ensures (if category == Eks then e else []) + (if category == Iam then i else []) + (if category == Ssm then s else [])
              == match category case Eks => e case Iam => i case Ssm => s case Uncategorized => []
    {
      assert e + [] + [] == e && [] + i + [] == i && [] + [] + s == s;
    }

    lemma ConcatenationByCategory(e: seq<ArtifactInfo>, i: seq<ArtifactInfo>, s: seq<ArtifactInfo>, category: Category)
      requires forall a :: a in e ==> CategoryOf(a.localPath) == Eks
      requires forall a :: a in i ==> CategoryOf(a.localPath) == Iam
      requires forall a :: a in s ==> CategoryOf(a.localPath) == Ssm
      ensures OfCategory(e + i + s, |e + i + s|, category)
              == match category case Eks => e case Iam => i case Ssm => s case Uncategorized => []
    {
      ThreeByCategory(e, i, s, category);
      WholeCategory(e, Eks, category);
      WholeCategory(i, Iam, category);
      WholeCategory(s, Ssm, category);
      OneOfThree(e, i, s, category);
    }

    lemma CollectedByCategory(category: Category)
      ensures OfCategory(Collected(), |Collected()|, category)
              == match category
                 case Eks => EksArtifacts()
                 case Iam => IamArtifacts()
                 case Ssm => SsmArtifacts()
                 case Uncategorized => []
    {
      EksCategory();
      IamCategory();
      SsmCategory();
      ConcatenationByCategory(EksArtifacts(), IamArtifacts(), SsmArtifacts(), category);
    }

    lemma CustomAllAppend(xs: seq<ArtifactInfo>, ys: seq<ArtifactInfo>)
      ensures CustomAll(xs + ys) == CustomAll(xs) + CustomAll(ys)
    {
    }

    lemma WrittenManifest()
      ensures CustomManifest(Collected())
              == ManifestOf(CustomAll(EksArtifacts()), CustomAll(IamArtifacts()), CustomAll(SsmArtifacts()))
    {
      var c := Collected();
      assert CustomOf(c, |c|, Eks) == CustomAll(EksArtifacts()) by { CollectedByCategory(Eks); }
      assert CustomOf(c, |c|, Iam) == CustomAll(IamArtifacts()) by { CollectedByCategory(Iam); }
      assert CustomOf(c, |c|, Ssm) == CustomAll(SsmArtifacts()) by { CollectedByCategory(Ssm); }
    }

    /** What the written manifest says besides the artifacts. */
    lemma ManifestParts(eks: seq<Artifact>, iam: seq<Artifact>, ssm: seq<Artifact>)
      ensures var m, v := ManifestOf(eks, iam, ssm), source.eks.version;
              && |m.supportedEksReleases| == 1 && |m.supportedEksReleases[0].patchReleases| == 1
              && m.supportedEksReleases[0].majorMinorVersion == MajorMinorFromText(v)
              && m.supportedEksReleases[0].latestPatchVersion == source.eks.patchVersion
              && m.supportedEksReleases[0].patchReleases[0]
                 == EksPatchRelease(v, source.eks.patchVersion, source.eks.releaseDate, eks)
              && m.iamRolesAnywhereReleases == (if iam == [] then [] else [Release(source.iam.version, iam)])
              && m.ssmReleases == (if ssm == [] then [] else [Release("latest", ssm)])
              && m.regionConfig.Keys == {region} && m.regionConfig[region].ecrAccountId == source.regionInfo.ecrAccountId
              && m.regionConfig[region].credProviders.Keys == {"iam-ra", "ssm"}
    {
    }

    /** The three lists of the written manifest split the collected artifacts, in order and without loss. */
    lemma ManifestListsEveryUpload()
      ensures CustomManifest(Collected())
              == ManifestOf(CustomAll(EksArtifacts()), CustomAll(IamArtifacts()), CustomAll(SsmArtifacts()))
      ensures CustomAll(EksArtifacts()) + CustomAll(IamArtifacts()) + CustomAll(SsmArtifacts()) == CustomAll(Collected())
    {
      WrittenManifest();
      CustomAllAppend(EksArtifacts() + IamArtifacts(), SsmArtifacts());
      CustomAllAppend(EksArtifacts(), IamArtifacts());
    }

    // ----- Running the sync -----

    /** The artifact and, if it has one, its checksum, each under its key. */
    function UploadsOf(a: ArtifactInfo): seq<Stored>
    {
      [Stored(Key(a), a.url)]
      + if a.checksumUrl == "" then [] else [Stored(Key(a) + ".sha256", a.checksumUrl)]
    }

    function AllUploads(artifacts: seq<ArtifactInfo>, n: nat): seq<Stored>
      requires n <= |artifacts|
    {
      if n == 0 then [] else AllUploads(artifacts, n - 1) + UploadsOf(artifacts[n - 1])
    }

    /** Uploads the artifact; a failing checksum upload is only logged. */
    method SyncArtifactToS3(s3: Bucket, a: ArtifactInfo) returns (ok: bool)
      modifies s3
      ensures old(s3.objects) <= s3.objects
      ensures ok ==> |s3.objects| > |old(s3.objects)| && s3.objects[|old(s3.objects)|] == Stored(Key(a), a.url)
      ensures forall o :: o in s3.objects[|old(s3.objects)|..] ==>
                o == Stored(Key(a), a.url)
                || (a.checksumUrl != "" && o == Stored(Key(a) + ".sha256", a.checksumUrl))
      ensures !ok ==> s3.objects == old(s3.objects)
      ensures old(s3.faulted) ==> s3.faulted
      ensures !s3.faulted ==> ok && s3.objects == old(s3.objects) + UploadsOf(a)
    {
      var key := TrimSuffix(prefix, '/') + "/" + Decimal(timestamp) + "/" + a.localPath;
      ok := s3.StreamToS3(a.url, key);
      if ok && a.checksumUrl != "" {
        var _ := s3.StreamToS3(a.checksumUrl, key + ".sha256");
      }
    }

    lemma LaterObjects(before: seq<Stored>, after: seq<Stored>, start: nat)
      requires start <= |before| < |after| && before <= after
      ensures forall o :: o in before[start..] ==> o in after[start..]
      ensures after[|before|] in after[start..]
      ensures forall o :: o in after[start..] ==> o in before[start..] || o in after[|before|..]
    {
      assert after[start..] == before[start..] + after[|before|..];
      assert after[|before|..][0] == after[|before|];
    }

    // ----- What the keys hold after a run -----

    /** Object o is artifact a itself or its checksum, each under its key. */
    predicate Uploads(a: ArtifactInfo, o: Stored)
    {
      || o == Stored(Key(a), a.url)
      || (a.checksumUrl != "" && o == Stored(Key(a) + ".sha256", a.checksumUrl))
    }

    ghost predicate IsFromRun(o: Stored)
    {
      exists a :: a in Collected() && Uploads(a, o)
    }

    lemma {:induction false} NamedIsNamedOne(artifacts: seq<Artifact>, names: seq<string>, dir: string, a: ArtifactInfo)
      requires a in Named(artifacts, names, dir)
      ensures a.name in names && NamedOne(artifacts, a.name, dir) == [a]
    {
      var last := |names| - 1;
      if a in Named(artifacts, names[..last], dir) {
        NamedIsNamedOne(artifacts, names[..last], dir, a);
      }
    }

    lemma EksNamesEnd(name: string)
      requires name in EKS_NAMES
      ensures name != "" && name[|name| - 1] != '6'
    {
    }

    /** The local path of a collected artifact determines it, and it is no checksum's path. */
    lemma CollectedByPath(a: ArtifactInfo)
      requires a in Collected()
      ensures match CategoryOf(a.localPath)
              case Eks => a.localPath == "eks/" + a.name && NamedOne(source.eks.artifacts, a.name, "eks/") == [a]
              case Iam => IamArtifacts() == [a]
              case Ssm => a in SsmArtifacts()
              case Uncategorized => false
      ensures a.localPath != "" && a.localPath[|a.localPath| - 1] != '6'
    {
      EksCategory();
      IamCategory();
      SsmCategory();
      if a in EksArtifacts() {
        NamedIsNamedOne(source.eks.artifacts, EKS_NAMES, "eks/", a);
        EksNamesEnd(a.name);
      } else if a in IamArtifacts() {
        assert a.localPath == "iam-ra/" + SIGNING_HELPER;
      } else {
        assert a in SsmArtifacts();
      }
    }

    lemma SamePathIsSame(a: ArtifactInfo, b: ArtifactInfo)
      requires a in Collected() && b in Collected() && a.localPath == b.localPath
      ensures a == b
    {
      CollectedByPath(a);
      CollectedByPath(b);
      if CategoryOf(a.localPath) == Eks {
        assert a.name == a.localPath[4..] && b.name == b.localPath[4..];
      }
    }

    lemma SameKeyIsSamePath(a: ArtifactInfo, b: ArtifactInfo, suffix: string)
      requires Key(a) == Key(b) + suffix
      ensures a.localPath == b.localPath + suffix
    {
      var head := TrimSuffix(prefix, '/') + "/" + Decimal(timestamp) + "/";
      assert Key(a)[|head|..] == a.localPath;
      assert (Key(b) + suffix)[|head|..] == b.localPath + suffix;
    }

    /** No object of a run but the artifact itself is stored under its key. */
    lemma KeyIsItsOwn(a: ArtifactInfo, o: Stored)
      requires a in Collected() && IsFromRun(o) && o.key == Key(a)
      ensures o.url == a.url
    {
      var b :| b in Collected() && Uploads(b, o);
      if o == Stored(Key(b), b.url) {
        assert Key(b) + "" == Key(b) && b.localPath + "" == b.localPath;
        SameKeyIsSamePath(a, b, "");
        SamePathIsSame(a, b);
      } else {
        SameKeyIsSamePath(a, b, ".sha256");
        CollectedByPath(a);
        assert false;
      }
    }

    lemma SameSuffix(s: string, t: string, suffix: string)
      requires s + suffix == t + suffix
      ensures s == t
    {
      assert |s| == |t| && (s + suffix)[..|s|] == s && (t + suffix)[..|t|] == t;
    }

    /** Nor is anything but the artifact's own checksum stored under its checksum's key. */
    lemma ChecksumKeyIsItsOwn(a: ArtifactInfo, o: Stored)
      requires a in Collected() && IsFromRun(o) && o.key == Key(a) + ".sha256"
      ensures o.url == a.checksumUrl
    {
      var b :| b in Collected() && Uploads(b, o);
      if o == Stored(Key(b), b.url) {
        SameKeyIsSamePath(b, a, ".sha256");
        CollectedByPath(b);
        assert false;
      } else {
        SameSuffix(Key(a), Key(b), ".sha256");
        assert Key(b) + "" == Key(b) && b.localPath + "" == b.localPath;
        SameKeyIsSamePath(a, b, "");
        SamePathIsSame(a, b);
      }
    }

    /** After a run that uploaded everything, each collected artifact is what its key holds. */
    lemma KeysHoldArtifacts(objects: seq<Stored>, start: nat)
      requires start <= |objects|
      requires forall o :: o in objects[start..] ==> IsFromRun(o)
      requires forall a :: a in Collected() ==> Stored(Key(a), a.url) in objects[start..]
      ensures forall a :: a in Collected() ==> Held(objects, Key(a)) == Some(a.url)
    {
      forall a | a in Collected()
        ensures Held(objects, Key(a)) == Some(a.url)
      {
        forall o | o in objects[start..] && o.key == Key(a)
          ensures o.url == a.url
        {
          KeyIsItsOwn(a, o);
        }
        HeldIs(objects, start, Key(a), a.url);
      }
    }

    function ManifestName(): string
    {
      "manifest-" + source.eks.version + "-" + arch + "-" + os + "-" + Decimal(timestamp) + ".yaml"
    }

    lemma UploadsNext(start: seq<Stored>, before: seq<Stored>, artifacts: seq<ArtifactInfo>, i: nat)
      requires i < |artifacts|
      ensures before == start + AllUploads(artifacts, i) ==>
                before + UploadsOf(artifacts[i]) == start + AllUploads(artifacts, i + 1)
    {
    }

    /** The first n collected artifacts have been stored since start, and nothing that is not from the run. */
    ghost predicate Synced(objects: seq<Stored>, start: nat, n: nat)
      requires n <= |Collected()|
    {
      && start <= |objects|
      && (forall j :: 0 <= j < n ==> Stored(Key(Collected()[j]), Collected()[j].url) in objects[start..])
      && (forall o :: o in objects[start..] ==> IsFromRun(o))
    }

    lemma SyncedNext(before: seq<Stored>, after: seq<Stored>, start: nat, i: nat)
      requires i < |Collected()| && Synced(before, start, i)
      requires before <= after && |before| < |after|
      requires after[|before|] == Stored(Key(Collected()[i]), Collected()[i].url)
      requires forall o :: o in after[|before|..] ==> Uploads(Collected()[i], o)
      ensures Synced(after, start, i + 1)
    {
      LaterObjects(before, after, start);
      forall o | o in after[start..]
        ensures IsFromRun(o)
      {
        if o in after[|before|..] {
          assert Collected()[i] in Collected() && Uploads(Collected()[i], o);
        }
      }
    }

    /** Uploads the collected artifacts one after the other, up to the first that fails. */
    method SyncAll(s3: Bucket, artifacts: seq<ArtifactInfo>) returns (failed: Option<string>)
      requires artifacts == Collected()
      modifies s3
      ensures old(s3.objects) <= s3.objects
      ensures failed.None? ==> forall a :: a in Collected() ==>
                && Stored(Key(a), a.url) in s3.objects[|old(s3.objects)|..]
                && Held(s3.objects, Key(a)) == Some(a.url)
      ensures old(s3.faulted) ==> s3.faulted
      ensures !s3.faulted ==> failed.None? && s3.objects == old(s3.objects) + AllUploads(artifacts, |artifacts|)
    {
      ghost var start := |s3.objects|;
      for i := 0 to |artifacts|
        invariant old(s3.objects) <= s3.objects && Synced(s3.objects, start, i)
        invariant old(s3.faulted) ==> s3.faulted
        invariant !s3.faulted ==> s3.objects == old(s3.objects) + AllUploads(artifacts, i)
      {
        ghost var before := s3.objects;
        var ok := SyncArtifactToS3(s3, artifacts[i]);
        if !ok {
          return Some(artifacts[i].name);
        }
        SyncedNext(before, s3.objects, start, i);
        UploadsNext(old(s3.objects), before, artifacts, i);
      }
      KeysHoldArtifacts(s3.objects, start);
      return None;
    }

    /** The manifest is written only after every collected artifact has been uploaded under its key in this run. */
    method Run(s3: Bucket, dir: WorkingDirectory) returns (error: Option<SyncError>)
      modifies s3, dir
      ensures old(s3.objects) <= s3.objects
      ensures error.None? ==> dir.manifests == old(dir.manifests)[ManifestName() := CustomManifest(Collected())]
      ensures error.None? || error == Some(ManifestNotWritten) ==>
                forall a :: a in Collected() ==>
                  && Stored(Key(a), a.url) in s3.objects[|old(s3.objects)|..]
                  && Held(s3.objects, Key(a)) == Some(a.url)
      ensures error.Some? && error != Some(ManifestNotWritten) ==> dir.manifests == old(dir.manifests)
      ensures dir.manifests - {ManifestName()} == old(dir.manifests) - {ManifestName()}
      ensures Collected() == [] <==> error == Some(NoArtifacts)
      ensures old(s3.faulted) ==> s3.faulted
      ensures !s3.faulted ==> s3.objects == old(s3.objects) + AllUploads(Collected(), |Collected()|)
      ensures !s3.faulted && !dir.faulted ==> (error.None? <==> Collected() != [])
    {
      var collected := CollectArtifacts();
      if collected.Err? {
        return Some(collected.error);
      }
      var failed := SyncAll(s3, collected.value);
      if failed.Some? {
        return Some(UploadFailed(failed.value));
      }
      var m := GenerateCustomManifest(collected.value);
      var written := dir.Write(ManifestName(), m);
      return if written then None else Some(ManifestNotWritten);
    }
  }
}
