/**
 Installing and uninstalling the node components, with the tracker file that carries what an install did
 to a later uninstall. Every package, download, daemon and file operation may fail, part way through too.
 */
module Lifecycle {
  import opened Wrappers

  // ----- Components and the tracker's record of them -----

  datatype Component =
    | Containerd | Runc | Iptables | CniPlugins | IamAuthenticator
    | IamRolesAnywhere | ImageCredentialProvider | Kubectl | Kubelet | Ssm

  // The texts "", "none", "distro" and "docker", and any other. Unset is the text of a new tracker.
  datatype SourceName = Unset | NoSource | Distro | Docker | Invalid(text: string)

  datatype InstalledArtifacts = InstalledArtifacts(
    containerd: SourceName, cniPlugins: bool, iamAuthenticator: bool, iamRolesAnywhere: bool,
    imageCredentialProvider: bool, kubectl: bool, kubelet: bool, ssm: bool, iptables: bool)

  const NOTHING := InstalledArtifacts(Unset, false, false, false, false, false, false, false, false)

  function ContainerdSource(source: SourceName): Option<SourceName>
  {
    match source
    case Distro => Some(Distro)
    case Docker => Some(Docker)
    case Unset | NoSource => Some(NoSource)
    case Invalid(_) => None
  }

  /** The names the tracker knows, and what they stand for. */
  lemma ContainerdSourceExactly(source: SourceName)
    ensures ContainerdSource(source).None? <==> source.Invalid?
    ensures ContainerdSource(Unset) == ContainerdSource(NoSource) == Some(NoSource)
    ensures ContainerdSource(source) == Some(source) <==> source in {NoSource, Distro, Docker}
  {
  }

  function If(b: bool, c: Component): set<Component>
  {
    if b then {c} else {}
  }

  predicate Records(a: InstalledArtifacts, c: Component)
  {
    match c
    case Containerd => a.containerd != Unset && a.containerd != NoSource
    case Runc => false
    case Iptables => a.iptables
    case CniPlugins => a.cniPlugins
    case IamAuthenticator => a.iamAuthenticator
    case IamRolesAnywhere => a.iamRolesAnywhere
    case ImageCredentialProvider => a.imageCredentialProvider
    case Kubectl => a.kubectl
    case Kubelet => a.kubelet
    case Ssm => a.ssm
  }

  /** The components recorded as installed by nodeadm. */
  function Tracked(a: InstalledArtifacts): set<Component>
  {
    set c: Component | Records(a, c)
  }

  /** Record b is record a with the components cs added. */
  ghost predicate Adds(a: InstalledArtifacts, b: InstalledArtifacts, cs: set<Component>)
  {
    forall c :: Records(b, c) <==> Records(a, c) || c in cs
  }

  /** The components that Tracker.Add accepts; containerd is recorded by its source instead. */
  predicate Addable(c: Component)
  {
    c != Containerd && c != Runc
  }

  /** p and q agree on every component outside s. */
  ghost predicate SameOutside(s: set<Component>, p: set<Component>, q: set<Component>)
  {
    forall c :: c !in s ==> (c in p <==> c in q)
  }

  /** The record with the field of one component set. */
  function Marked(a: InstalledArtifacts, c: Component): InstalledArtifacts
  {
    match c
    case CniPlugins => a.(cniPlugins := true)
    case IamAuthenticator => a.(iamAuthenticator := true)
    case IamRolesAnywhere => a.(iamRolesAnywhere := true)
    case ImageCredentialProvider => a.(imageCredentialProvider := true)
    case Kubectl => a.(kubectl := true)
    case Kubelet => a.(kubelet := true)
    case Ssm => a.(ssm := true)
    case Iptables => a.(iptables := true)
    case Containerd | Runc => a
  }

  lemma MarkedRecords(a: InstalledArtifacts, c: Component, x: Component)
    ensures Records(Marked(a, c), x) <==> Records(a, x) || (Addable(c) && x == c)
  {
  }

  lemma MarkedAdds(a: InstalledArtifacts, c: Component)
    ensures if Addable(c) then Adds(a, Marked(a, c), {c}) else Marked(a, c) == a
    ensures Marked(a, c).containerd == a.containerd
  {
    forall x
      ensures Records(Marked(a, c), x) <==> Records(a, x) || (Addable(c) && x == c)
    {
      MarkedRecords(a, c, x);
    }
  }

  datatype TrackerFile = Missing | Saved(artifacts: InstalledArtifacts) | Damaged

  datatype HostState = HostState(present: set<Component>, file: TrackerFile)

  class Host {
    var present: set<Component>
    var file: TrackerFile
    ghost var installed: set<Component>  // install steps completed in the current run
    ghost var faulted: bool  // whether any step of the environment has failed

    constructor (present: set<Component>, file: TrackerFile)
      ensures State() == HostState(present, file) && !faulted
    {
      this.present, this.file, installed, faulted := present, file, {}, false;
    }

    /** An operation with no effect on the components, such as stopping a daemon. */
    method Attempt() returns (ok: bool)
      modifies this`faulted
      ensures faulted <==> old(faulted) || !ok
    {
      ok := *;
      if !ok {
        faulted := true;
      }
    }

    function State(): HostState
      reads this
    {
      HostState(present, file)
    }

    /** Installs target, possibly with its dependencies in side; a failure leaves any of them either way. */
    method InstallStep(target: Component, side: set<Component>) returns (ok: bool)
      modifies this`faulted, this`present, this`installed
      ensures SameOutside(side + {target}, old(present), present)
      ensures ok ==> target in present && installed == old(installed) + {target}
      ensures !ok ==> installed == old(installed)
      ensures faulted <==> old(faulted) || !ok
    {
      ok := Attempt();
      var after: set<Component> := *;
      present := (present - side - {target}) + after * (side + {target});
      if ok {
        present := present + {target};
        installed := installed + {target};
      }
    }

    /** Removes target, possibly with its dependencies in side; a failure may have removed any of them. */
    method RemoveStep(target: Component, side: set<Component>) returns (ok: bool)
      modifies this`faulted, this`present
      ensures SameOutside(side + {target}, old(present), present) && present <= old(present)
      ensures ok ==> target !in present
      ensures faulted <==> old(faulted) || !ok
    {
      ok := Attempt();
      var gone: set<Component> := *;
      present := present - gone * (side + {target});
      if ok {
        present := present - {target};
      }
    }
  }

  // ----- Tracker -----

  class Tracker {
    var artifacts: InstalledArtifacts

    constructor (a: InstalledArtifacts)
      ensures artifacts == a
    {
      artifacts := a;
    }

    method Add(c: Component) returns (ok: bool)
      modifies this
      ensures ok <==> Addable(c)
      ensures ok ==> Adds(old(artifacts), artifacts, {c})
      ensures artifacts.containerd == old(artifacts.containerd)
      ensures !ok ==> artifacts == old(artifacts)
    {
      MarkedAdds(artifacts, c);
      ok := Addable(c);
      artifacts := Marked(artifacts, c);
    }

    /** Writes the record; a failing write leaves the file as it was or damaged. */
    method Save(host: Host) returns (ok: bool)
      modifies this, host`faulted, host`file
      ensures ok ==> host.file == Saved(artifacts) && ContainerdSource(artifacts.containerd) == Some(artifacts.containerd)
      ensures ok ==> Adds(old(artifacts), artifacts, {})
      ensures !ok ==> host.file == old(host.file) || host.file == Damaged
      ensures old(host.faulted) ==> host.faulted
      ensures !host.faulted && ContainerdSource(old(artifacts.containerd)).Some? ==> ok
    {
      var source := ContainerdSource(artifacts.containerd);
      if source.None? {
        return false;
      }
      artifacts := artifacts.(containerd := source.value);
      ok := host.Attempt();
      if ok {
        host.file := Saved(artifacts);
      } else {
        var partial: bool := *;
        if partial {
          host.file := Damaged;
        }
      }
    }
  }

  datatype Loaded = Found(artifacts: InstalledArtifacts) | NotFound | Unreadable

  /** The record as a run sees it: an unset containerd source reads as "none". */
  predicate Readable(file: TrackerFile, a: InstalledArtifacts)
  {
    file.Saved? && ContainerdSource(file.artifacts.containerd).Some?
    && a == file.artifacts.(containerd := ContainerdSource(file.artifacts.containerd).value)
  }

  /** There is no file yet, or one with a containerd source that the tracker knows. */
  predicate IsIntact(file: TrackerFile)
  {
    file.Missing? || (file.Saved? && !file.artifacts.containerd.Invalid?)
  }

  method GetInstalledArtifacts(host: Host) returns (r: Loaded)
    modifies host`faulted
    ensures r.NotFound? <==> host.file.Missing?
    ensures r.Found? ==> Readable(host.file, r.artifacts)
    ensures r.Unreadable? && !host.faulted ==> !IsIntact(host.file)
    ensures old(host.faulted) ==> host.faulted
  {
    var readable := host.Attempt();
    if host.file.Missing? {
      return NotFound;
    }
    if !readable || host.file.Damaged? {
      return Unreadable;
    }
    var source := ContainerdSource(host.file.artifacts.containerd);
    if source.None? {
      return Unreadable;
    }
    return Found(host.file.artifacts.(containerd := source.value));
  }

  // ----- Package manager -----

  // The docker repository is set up only when containerd is to come from docker.
  datatype PackageManager = PackageManager(yum: bool, docker: bool)
  {
    method Configure(host: Host) returns (ok: bool)
      modifies host`faulted, host`present
      ensures SameOutside({Runc}, old(host.present), host.present)
      ensures !(docker && yum) ==> host.present == old(host.present)
      ensures ok && docker && yum ==> Runc !in host.present
      ensures old(host.faulted) ==> host.faulted
      ensures !host.faulted ==> ok
    {
      ok := true;
      if docker {
        if yum && Runc in host.present {
          ok := host.RemoveStep(Runc, {});
          if !ok { return; }
        }
        ok := host.Attempt();
      }
    }
  }

  // ----- Install -----

  datatype CredentialProvider = SsmProvider | IamRolesAnywhereProvider | UnknownProvider

  datatype Config = Config(source: SourceName, yum: bool, provider: CredentialProvider, privateMode: bool)
  {
    /** The command line accepts these sources only. */
    predicate Valid()
    {
      ContainerdSource(source) == Some(source)
    }
  }

  /** Whether containerd and runc are found in place, so that the install leaves containerd alone. */
  predicate KeepsContainerd(cfg: Config, present: set<Component>)
  {
    cfg.source == NoSource
    || ({Containerd, Runc} <= present && !(cfg.source == Docker && cfg.yum))
  }

  function CredentialComponents(provider: CredentialProvider): set<Component>
  {
    If(provider == SsmProvider, Ssm) + If(provider == IamRolesAnywhereProvider, IamRolesAnywhere)
  }

  function DistroPackages(cfg: Config, present: set<Component>): set<Component>
  {
    If(!KeepsContainerd(cfg, present), Containerd) + If(Iptables !in present, Iptables)
  }

  /** The components a successful install run puts in place, given what was there before. */
  function ToInstall(cfg: Config, present: set<Component>): set<Component>
  {
    (if cfg.privateMode then {} else DistroPackages(cfg, present))
    + CredentialComponents(cfg.provider)
    + {CniPlugins, IamAuthenticator, ImageCredentialProvider, Kubectl, Kubelet}
  }

  /** The components to install, one by one. */
  lemma ToInstallExactly(cfg: Config, present: set<Component>, c: Component)
    ensures c in ToInstall(cfg, present)
            <==> match c
                 case Kubelet | Kubectl | CniPlugins | ImageCredentialProvider | IamAuthenticator => true
                 case Ssm => cfg.provider == SsmProvider
                 case IamRolesAnywhere => cfg.provider == IamRolesAnywhereProvider
                 case Iptables => !cfg.privateMode && Iptables !in present
                 case Containerd =>
                   && !cfg.privateMode && cfg.source != NoSource
                   && (Containerd !in present || Runc !in present || (cfg.source == Docker && cfg.yum))
                 case Runc => false
  {
  }

  method InstallTracked(host: Host, t: Tracker, c: Component) returns (ok: bool)
    requires Addable(c)
    modifies host`faulted, host`present, host`installed, t
    ensures SameOutside({c}, old(host.present), host.present)
    ensures t.artifacts.containerd == old(t.artifacts.containerd)
    ensures ok ==> c in host.present && host.installed == old(host.installed) + {c}
    ensures ok ==> Adds(old(t.artifacts), t.artifacts, {c})
    ensures old(host.faulted) ==> host.faulted
    ensures !host.faulted ==> ok
  {
    ok := host.InstallStep(c, {});
    if ok {
      ok := t.Add(c);
    }
  }

  lemma ContainerdAdds(a: InstalledArtifacts, b: InstalledArtifacts, source: SourceName, added: set<Component>)
    requires a.containerd == NoSource && source != Unset
    requires b == a.(containerd := source) && (source == NoSource <==> added == {}) && added <= {Containerd}
    ensures Adds(a, b, added)
  {
  }

  /** Containerd, unless none is wanted or it is found in place together with runc. */
  function ContainerdToInstall(source: SourceName, present: set<Component>): set<Component>
  {
    If(!(source == NoSource || {Containerd, Runc} <= present), Containerd)
  }

  method InstallContainerd(host: Host, t: Tracker, source: SourceName) returns (ok: bool)
    modifies host`faulted, host`present, host`installed, t
    ensures SameOutside({Containerd, Runc}, old(host.present), host.present)
    ensures var keep := source == NoSource || {Containerd, Runc} <= old(host.present);
            && (keep ==> ok && host.present == old(host.present) && host.installed == old(host.installed))
            && (ok && !keep ==> Containerd in host.present && host.installed == old(host.installed) + {Containerd})
            && (ok ==> t.artifacts == old(t.artifacts).(containerd := if keep then NoSource else source))
    ensures ok ==> host.installed == old(host.installed) + ContainerdToInstall(source, old(host.present))
    ensures ok && source != Unset ==>
              Adds(old(t.artifacts).(containerd := NoSource), t.artifacts, ContainerdToInstall(source, old(host.present)))
    ensures old(host.faulted) ==> host.faulted
    ensures !host.faulted ==> ok
  {
    ghost var a0 := t.artifacts.(containerd := NoSource);
    if source == NoSource || {Containerd, Runc} <= host.present {
      t.artifacts := t.artifacts.(containerd := NoSource);
      return true;
    }
    ok := host.InstallStep(Containerd, {Runc});
    if ok {
      t.artifacts := t.artifacts.(containerd := source);
      if source != Unset {
        ContainerdAdds(a0, t.artifacts, source, {Containerd});
      }
    }
  }

  method InstallIptables(host: Host, t: Tracker) returns (ok: bool)
    modifies host`faulted, host`present, host`installed, t
    ensures SameOutside({Iptables}, old(host.present), host.present)
    ensures t.artifacts.containerd == old(t.artifacts.containerd)
    ensures ok ==> Iptables in host.present
    ensures var new_ := If(Iptables !in old(host.present), Iptables);
            ok ==> host.installed == old(host.installed) + new_
                   && Adds(old(t.artifacts), t.artifacts, new_)
    ensures old(host.faulted) ==> host.faulted
    ensures !host.faulted ==> ok
  {
    if Iptables !in host.present {
      ok := InstallTracked(host, t, Iptables);
      return;
    }
    return true;
  }

  const EKS_COMPONENTS: set<Component> := {CniPlugins, IamAuthenticator, ImageCredentialProvider, Kubectl, Kubelet}

  method InstallEksArtifacts(host: Host, t: Tracker) returns (ok: bool)
    modifies host`faulted, host`present, host`installed, t
    ensures SameOutside(EKS_COMPONENTS, old(host.present), host.present)
    ensures ok ==> EKS_COMPONENTS <= host.present && host.installed == old(host.installed) + EKS_COMPONENTS
    ensures ok ==> Adds(old(t.artifacts), t.artifacts, EKS_COMPONENTS)
    ensures t.artifacts.containerd == old(t.artifacts.containerd)
    ensures old(host.faulted) ==> host.faulted
    ensures !host.faulted ==> ok
  {
    ok := InstallTracked(host, t, Kubelet);
    if !ok { return; }
    ok := InstallTracked(host, t, Kubectl);
    if !ok { return; }
    ok := InstallTracked(host, t, CniPlugins);
    if !ok { return; }
    ok := InstallTracked(host, t, ImageCredentialProvider);
    if !ok { return; }
    ok := InstallTracked(host, t, IamAuthenticator);
  }

  method InstallCredentialProcess(host: Host, t: Tracker, provider: CredentialProvider) returns (ok: bool)
    modifies host`faulted, host`present, host`installed, t
    ensures SameOutside(CredentialComponents(provider), old(host.present), host.present)
    ensures ok ==> provider != UnknownProvider && CredentialComponents(provider) <= host.present
    ensures ok ==> host.installed == old(host.installed) + CredentialComponents(provider)
    ensures ok ==> Adds(old(t.artifacts), t.artifacts, CredentialComponents(provider))
    ensures t.artifacts.containerd == old(t.artifacts.containerd)
    ensures old(host.faulted) ==> host.faulted
    ensures !host.faulted ==> (ok <==> provider != UnknownProvider)
  {
    match provider
    case IamRolesAnywhereProvider => ok := InstallTracked(host, t, IamRolesAnywhere);
    case SsmProvider => ok := InstallTracked(host, t, Ssm);
    case UnknownProvider => ok := false;
  }

  lemma AddsBoth(a: InstalledArtifacts, b: InstalledArtifacts, c: InstalledArtifacts, xs: set<Component>, ys: set<Component>)
    requires Adds(a, b, xs) && Adds(b, c, ys)
    ensures Adds(a, c, xs + ys)
  {
  }

  /** The packages that are not left alone as they are found. */
  function PackagesToInstall(source: SourceName, present: set<Component>): set<Component>
  {
    ContainerdToInstall(source, present) + If(Iptables !in present, Iptables)
  }

  method InstallDistroPackages(host: Host, t: Tracker, source: SourceName) returns (ok: bool)
    requires source in {NoSource, Distro, Docker}
    modifies host`faulted, host`present, host`installed, t
    ensures SameOutside({Containerd, Runc, Iptables}, old(host.present), host.present)
    ensures source == NoSource || {Containerd, Runc} <= old(host.present) ==>
              SameOutside({Iptables}, old(host.present), host.present)
    ensures ok ==> PackagesToInstall(source, old(host.present)) <= host.present && Iptables in host.present
    ensures ok ==> host.installed == old(host.installed) + PackagesToInstall(source, old(host.present))
    ensures ok ==> Adds(old(t.artifacts).(containerd := NoSource), t.artifacts, PackagesToInstall(source, old(host.present)))
    ensures ok ==> t.artifacts.containerd in {NoSource, source}
    ensures old(host.faulted) ==> host.faulted
    ensures !host.faulted ==> ok
  {
    ghost var before := host.present;
    ghost var a0 := t.artifacts.(containerd := NoSource);
    ok := InstallContainerd(host, t, source);
    if !ok { return; }
    ghost var a1 := t.artifacts;
    ok := InstallIptables(host, t);
    if ok {
      AddsBoth(a0, a1, t.artifacts, ContainerdToInstall(source, before), If(Iptables !in before, Iptables));
    }
  }

  /** Sets the package manager up and installs containerd and iptables. */
  method SetUpPackages(host: Host, t: Tracker, cfg: Config) returns (ok: bool)
    requires cfg.Valid()
    modifies host`faulted, host`present, host`installed, t
    ensures SameOutside({Containerd, Runc, Iptables}, old(host.present), host.present)
    ensures KeepsContainerd(cfg, old(host.present)) ==> (Runc in host.present <==> Runc in old(host.present))
    ensures KeepsContainerd(cfg, old(host.present)) ==> (Containerd in host.present <==> Containerd in old(host.present))
    ensures ok ==> DistroPackages(cfg, old(host.present)) <= host.present && Iptables in host.present
    ensures ok ==> host.installed == old(host.installed) + DistroPackages(cfg, old(host.present))
    ensures ok ==> Adds(old(t.artifacts).(containerd := NoSource), t.artifacts, DistroPackages(cfg, old(host.present)))
    ensures ok ==> t.artifacts.containerd in {NoSource, cfg.source}
    ensures old(host.faulted) ==> host.faulted
    ensures !host.faulted ==> ok
  {
    ghost var before := host.present;
    ok := PackageManager(cfg.yum, cfg.source == Docker).Configure(host);
    if !ok { return; }
    assert PackagesToInstall(cfg.source, host.present) == DistroPackages(cfg, before);
    ok := InstallDistroPackages(host, t, cfg.source);
  }

  /** The components that a run with this configuration may touch, successful or not. */
  function Touched(cfg: Config): set<Component>
  {
    (if cfg.privateMode then {} else {Containerd, Runc, Iptables}) + CredentialComponents(cfg.provider) + EKS_COMPONENTS
  }

  /** What an install does to the set of present components. */
  ghost predicate PutsInPlace(cfg: Config, before: set<Component>, after: set<Component>, ok: bool)
  {
    && SameOutside(Touched(cfg), before, after)
    && (ok ==> forall c :: c != Runc ==> (c in after <==> c in before || c in ToInstall(cfg, before)))
    && (cfg.privateMode || KeepsContainerd(cfg, before) ==> (Runc in after <==> Runc in before))
  }

  /** The record that an install starts from: a package install forgets an earlier containerd source. */
  function StartingRecord(cfg: Config, a: InstalledArtifacts): InstalledArtifacts
  {
    if cfg.privateMode then a else a.(containerd := NoSource)
  }

  method InstallComponents(host: Host, t: Tracker, cfg: Config) returns (ok: bool)
    requires cfg.Valid()
    modifies host`faulted, host`present, host`installed, t
    ensures PutsInPlace(cfg, old(host.present), host.present, ok)
    ensures ok ==> host.installed == old(host.installed) + ToInstall(cfg, old(host.present))
    ensures ok ==> cfg.provider != UnknownProvider
    ensures ok ==> Adds(StartingRecord(cfg, old(t.artifacts)), t.artifacts, ToInstall(cfg, old(host.present)))
    ensures old(host.faulted) ==> host.faulted
    ensures !host.faulted ==> (ok <==> cfg.provider != UnknownProvider)
    ensures ok ==> t.artifacts.containerd in {NoSource, cfg.source, old(t.artifacts.containerd)}
  {
    ghost var packages: set<Component> := {};
    if !cfg.privateMode {
      packages := DistroPackages(cfg, host.present);
      ok := SetUpPackages(host, t, cfg);
      if !ok { return; }
    }
    assert forall c :: c != Runc ==> (c in host.present <==> c in old(host.present) || c in packages);
    ok := InstallCredentialProcess(host, t, cfg.provider);
    if !ok { return; }
    ok := InstallEksArtifacts(host, t);
    assert ToInstall(cfg, old(host.present)) == packages + CredentialComponents(cfg.provider) + EKS_COMPONENTS;
  }

  function RecordIn(file: TrackerFile): InstalledArtifacts
  {
    if file.Saved? then file.artifacts else NOTHING
  }

  /** The effect of one install run on the host. */
  ghost predicate Installs(cfg: Config, s: HostState, s': HostState, ok: bool)
  {
    && PutsInPlace(cfg, s.present, s'.present, ok)
    && (ok ==> cfg.provider != UnknownProvider && s'.file.Saved? && !s.file.Damaged?)
    && (ok ==> Adds(StartingRecord(cfg, RecordIn(s.file)), s'.file.artifacts,
                    ToInstall(cfg, s.present)))
    && (ok ==> ContainerdSource(s'.file.artifacts.containerd) == Some(s'.file.artifacts.containerd))
    && (!ok ==> s'.file == s.file || s'.file == Damaged)
  }

  lemma SameRecord(file: TrackerFile, a: InstalledArtifacts)
    requires Readable(file, a)
    ensures forall c :: Records(a, c) <==> Records(file.artifacts, c)
    ensures a.containerd != Unset
  {
  }

  lemma StartingRecordRecords(cfg: Config, a: InstalledArtifacts, c: Component)
    ensures Records(StartingRecord(cfg, a), c) <==> Records(a, c) && (cfg.privateMode || c != Containerd)
  {
  }

  lemma SameInFile(file: TrackerFile, a: InstalledArtifacts, c: Component)
    requires if file.Missing? then a == NOTHING else Readable(file, a)
    ensures Records(a, c) <==> Records(RecordIn(file), c)
  {
    if !file.Missing? {
      SameRecord(file, a);
    }
  }

  lemma SameStartingRecord(cfg: Config, file: TrackerFile, a: InstalledArtifacts, c: Component)
    requires if file.Missing? then a == NOTHING else Readable(file, a)
    ensures Records(StartingRecord(cfg, a), c) <==> Records(StartingRecord(cfg, RecordIn(file)), c)
  {
    StartingRecordRecords(cfg, a, c);
    StartingRecordRecords(cfg, RecordIn(file), c);
    SameInFile(file, a, c);
  }

  lemma AddsNothingMore(a: InstalledArtifacts, b: InstalledArtifacts, c: InstalledArtifacts, cs: set<Component>)
    requires Adds(a, b, cs) && Adds(b, c, {})
    ensures Adds(a, c, cs)
  {
  }

  lemma AddsTransitive(b0: InstalledArtifacts, b1: InstalledArtifacts, a1: InstalledArtifacts, a2: InstalledArtifacts, cs: set<Component>)
    requires forall c :: Records(b0, c) <==> Records(b1, c)
    requires Adds(b0, a1, cs) && Adds(a1, a2, {})
    ensures Adds(b1, a2, cs)
  {
  }

  lemma SavedRecordAdds(cfg: Config, file: TrackerFile, a0: InstalledArtifacts, a1: InstalledArtifacts, a2: InstalledArtifacts, cs: set<Component>)
    requires if file.Missing? then a0 == NOTHING else Readable(file, a0)
    requires Adds(StartingRecord(cfg, a0), a1, cs) && Adds(a1, a2, {})
    ensures Adds(StartingRecord(cfg, RecordIn(file)), a2, cs)
  {
    var b0, b1 := StartingRecord(cfg, a0), StartingRecord(cfg, RecordIn(file));
    forall c
      ensures Records(b0, c) <==> Records(b1, c)
    {
      SameStartingRecord(cfg, file, a0, c);
    }
    AddsTransitive(b0, b1, a1, a2, cs);
  }

  lemma InstalledAndRecorded(cfg: Config, s: HostState, s': HostState, c: Component)
    requires Installs(cfg, s, s', true) && c in ToInstall(cfg, s.present) && c != Runc
    ensures c in s'.present && Records(s'.file.artifacts, c)
  {
  }

  lemma ProviderIsInstalled(cfg: Config, s: HostState, s': HostState)
    requires Installs(cfg, s, s', true)
    ensures cfg.provider == SsmProvider ==>
              Ssm in s'.present && s'.file.artifacts.ssm && Ssm in ToInstall(cfg, s.present)
              && IamRolesAnywhere !in ToInstall(cfg, s.present)
    ensures cfg.provider == IamRolesAnywhereProvider ==>
              IamRolesAnywhere in s'.present && s'.file.artifacts.iamRolesAnywhere
              && IamRolesAnywhere in ToInstall(cfg, s.present) && Ssm !in ToInstall(cfg, s.present)
  {
    ToInstallExactly(cfg, s.present, Ssm);
    ToInstallExactly(cfg, s.present, IamRolesAnywhere);
    if cfg.provider == SsmProvider {
      InstalledAndRecorded(cfg, s, s', Ssm);
    } else if cfg.provider == IamRolesAnywhereProvider {
      InstalledAndRecorded(cfg, s, s', IamRolesAnywhere);
    }
  }

  lemma InstallCompleted(cfg: Config, s: HostState, s': HostState, a: InstalledArtifacts)
    requires if s.file.Missing? then a == NOTHING else Readable(s.file, a)
    requires PutsInPlace(cfg, s.present, s'.present, true) && cfg.provider != UnknownProvider && s'.file.Saved?
    requires ContainerdSource(s'.file.artifacts.containerd) == Some(s'.file.artifacts.containerd)
    requires Adds(StartingRecord(cfg, a), s'.file.artifacts, ToInstall(cfg, s.present))
    ensures Installs(cfg, s, s', true)
  {
    SavedRecordAdds(cfg, s.file, a, s'.file.artifacts, s'.file.artifacts, ToInstall(cfg, s.present));
  }

  /** The steps of a run once the record of earlier runs is loaded. */
  method InstallAndSave(host: Host, t: Tracker, cfg: Config) returns (ok: bool)
    requires cfg.Valid() && !t.artifacts.containerd.Invalid?
    modifies host`faulted, host`present, host`installed, host`file, t
    ensures PutsInPlace(cfg, old(host.present), host.present, ok)
    ensures ok ==> host.installed == old(host.installed) + ToInstall(cfg, old(host.present))
    ensures ok ==> cfg.provider != UnknownProvider && host.file.Saved?
    ensures ok ==> ContainerdSource(host.file.artifacts.containerd) == Some(host.file.artifacts.containerd)
    ensures ok ==> Adds(StartingRecord(cfg, old(t.artifacts)), host.file.artifacts, ToInstall(cfg, old(host.present)))
    ensures !ok ==> host.file == old(host.file) || host.file == Damaged
    ensures old(host.faulted) ==> host.faulted
    ensures !host.faulted ==> (ok <==> cfg.provider != UnknownProvider)
  {
    ghost var start := StartingRecord(cfg, t.artifacts);
    ok := InstallComponents(host, t, cfg);
    if !ok { return; }
    ghost var a1 := t.artifacts;
    ok := t.Save(host);
    if ok {
      AddsNothingMore(start, a1, host.file.artifacts, ToInstall(cfg, old(host.present)));
    }
  }

  method Install(host: Host, cfg: Config) returns (ok: bool)
    requires cfg.Valid()
    modifies host
    ensures Installs(cfg, old(host.State()), host.State(), ok)
    ensures ok ==> host.installed == ToInstall(cfg, old(host.present))
    ensures ok && cfg.provider == SsmProvider ==>
              && Ssm in host.present && Ssm in host.installed && host.file.artifacts.ssm
              && IamRolesAnywhere !in host.installed
    ensures ok && cfg.provider == IamRolesAnywhereProvider ==>
              && IamRolesAnywhere in host.present && IamRolesAnywhere in host.installed && host.file.artifacts.iamRolesAnywhere
              && Ssm !in host.installed
    ensures old(host.faulted) ==> host.faulted
    ensures !host.faulted ==> (ok <==> IsIntact(old(host.file)) && cfg.provider != UnknownProvider)
  {
    host.installed := {};
    var loaded := GetInstalledArtifacts(host);
    if loaded.Unreadable? {
      return false;
    }
    var t := new Tracker(if loaded.Found? then loaded.artifacts else NOTHING);
    ghost var a := t.artifacts;
    ok := InstallAndSave(host, t, cfg);
    if ok {
      InstallCompleted(cfg, old(host.State()), host.State(), a);
      ProviderIsInstalled(cfg, old(host.State()), host.State());
    }
  }

  // ----- Uninstall -----

  /** What removing those of cs that the record a lists does to the present components. */
  ghost predicate RemovesAmong(a: InstalledArtifacts, cs: set<Component>, before: set<Component>, after: set<Component>, ok: bool)
  {
    && after <= before
    && (forall c :: c in before && c !in after ==>
          (c in cs && Records(a, c)) || (c == Runc && Records(a, Containerd)))
    && (ok ==> forall c :: c in cs && Records(a, c) ==> c !in after)
  }

  const DAEMONS: set<Component> := {Kubelet, Ssm, Containerd}
  const BINARIES: set<Component> := {Kubectl, CniPlugins, IamAuthenticator, IamRolesAnywhere, ImageCredentialProvider, Iptables}

  method UninstallContainerd(host: Host) returns (ok: bool)
    modifies host`faulted, host`present
    ensures host.present <= old(host.present)
    ensures SameOutside({Containerd, Runc}, old(host.present), host.present)
    ensures ok ==> Containerd !in host.present
    ensures old(host.faulted) ==> host.faulted
    ensures !host.faulted ==> ok
  {
    ok := true;
    if Containerd in host.present {
      ok := host.RemoveStep(Containerd, {Runc});
      if !ok { return; }
      ok := host.Attempt();  // removing the configuration directory
    }
  }

  method UninstallDaemons(host: Host, a: InstalledArtifacts) returns (ok: bool)
    requires a.containerd != Unset
    modifies host`faulted, host`present
    ensures RemovesAmong(a, DAEMONS, old(host.present), host.present, ok)
    ensures old(host.faulted) ==> host.faulted
    ensures !host.faulted ==> ok
  {
    if a.kubelet {
      ok := host.Attempt();  // stopping the daemon
      if !ok { return; }
      ok := host.RemoveStep(Kubelet, {});
      if !ok { return; }
    }
    if a.ssm {
      ok := host.Attempt();  // stopping the daemon, loading the AWS configuration
      if !ok { return; }
      ok := host.RemoveStep(Ssm, {});
      if !ok { return; }
    }
    if a.iamRolesAnywhere {
      ok := host.Attempt();  // stopping the update daemon
      if !ok { return; }
    }
    if a.containerd != NoSource {
      ok := host.Attempt();  // stopping the daemon
      if !ok { return; }
      ok := UninstallContainerd(host);
      if !ok { return; }
    }
    return true;
  }

  lemma RemovedNext(a: InstalledArtifacts, cs: set<Component>, c: Component, p: set<Component>, q: set<Component>, r: set<Component>, ok: bool)
    requires RemovesAmong(a, cs, p, q, true) && RemovesAmong(a, {c}, q, r, ok)
    ensures RemovesAmong(a, cs + {c}, p, r, ok)
  {
  }

  /** Removes one more component of `all`, if it is recorded; `done` are those dealt with since `before`. */
  method RemoveRecorded(host: Host, a: InstalledArtifacts, c: Component, recorded: bool,
                        ghost done: set<Component>, ghost all: set<Component>, ghost before: set<Component>)
    returns (ok: bool)
    requires recorded ==> Records(a, c)
    requires Records(a, c) && c in host.present ==> recorded
    requires done + {c} <= all && RemovesAmong(a, done, before, host.present, true)
    modifies host`faulted, host`present
    ensures if ok then RemovesAmong(a, done + {c}, before, host.present, true)
            else RemovesAmong(a, all, before, host.present, false)
    ensures host.faulted <==> old(host.faulted) || !ok
  {
    ok := true;
    if recorded {
      ok := host.RemoveStep(c, {});
    }
    RemovedNext(a, done, c, before, old(host.present), host.present, ok);
  }

  const TOOLS: set<Component> := {Kubectl, CniPlugins, IamAuthenticator}

  method UninstallTools(host: Host, a: InstalledArtifacts) returns (ok: bool)
    modifies host`faulted, host`present
    ensures RemovesAmong(a, TOOLS, old(host.present), host.present, ok)
    ensures host.faulted <==> old(host.faulted) || !ok
  {
    ghost var before := host.present;
    ok := RemoveRecorded(host, a, Kubectl, a.kubectl, {}, TOOLS, before);
    if !ok { return; }
    ok := RemoveRecorded(host, a, CniPlugins, a.cniPlugins, {Kubectl}, TOOLS, before);
    if !ok { return; }
    ok := RemoveRecorded(host, a, IamAuthenticator, a.iamAuthenticator, {Kubectl, CniPlugins}, TOOLS, before);
    assert {Kubectl, CniPlugins} + {IamAuthenticator} == TOOLS;
  }

  method UninstallBinaries(host: Host, a: InstalledArtifacts) returns (ok: bool)
    modifies host`faulted, host`present
    ensures RemovesAmong(a, BINARIES, old(host.present), host.present, ok)
    ensures old(host.faulted) ==> host.faulted
    ensures !host.faulted ==> ok
  {
    ghost var before := host.present;
    ok := UninstallTools(host, a);
    if !ok { return; }
    ok := RemoveRecorded(host, a, IamRolesAnywhere, a.iamRolesAnywhere, TOOLS, BINARIES, before);
    if !ok { return; }
    ok := RemoveRecorded(host, a, ImageCredentialProvider, a.imageCredentialProvider, TOOLS + {IamRolesAnywhere}, BINARIES, before);
    if !ok { return; }
    assert TOOLS + {IamRolesAnywhere} + {ImageCredentialProvider} == BINARIES - {Iptables};
    ok := RemoveRecorded(host, a, Iptables, a.iptables && Iptables in host.present, BINARIES - {Iptables}, BINARIES, before);
    assert BINARIES - {Iptables} + {Iptables} == BINARIES;
  }

  /** Removes the tracker directory; a failure may come after the tracker file itself is gone. */
  method Clear(host: Host) returns (ok: bool)
    modifies host`faulted, host`file
    ensures ok ==> host.file.Missing?
    ensures host.file == old(host.file) || host.file.Missing?
    ensures old(host.faulted) ==> host.faulted
    ensures !host.faulted ==> ok
  {
    ok := host.Attempt();
    var gone: bool := *;
    if ok || gone {
      host.file := Missing;
    }
  }

  ghost predicate Uninstalled(a: InstalledArtifacts, present: set<Component>)
  {
    forall c :: Records(a, c) ==> c !in present
  }

  /**
   The effect of one run of the uninstall command: the tracker file is dropped only after everything it
   records is gone, and nothing unrecorded is removed, except that runc may go with a recorded containerd.
   */
  ghost predicate UninstallRun(s: HostState, s': HostState, ok: bool)
  {
    match s.file
    case Missing => ok && s' == s
    case Damaged => !ok && s' == s
    case Saved(a) =>
      && (s'.file == s.file || s'.file.Missing?)
      && (ok ==> s'.file.Missing?)
      && s'.present <= s.present
      && (forall c :: c in s.present && c !in s'.present ==> Records(a, c) || (c == Runc && Records(a, Containerd)))
      && (s'.file.Missing? ==> Uninstalled(a, s'.present))
  }

  lemma RemovedInTwoSteps(a: InstalledArtifacts, p: set<Component>, q: set<Component>, r: set<Component>, ok: bool)
    requires RemovesAmong(a, DAEMONS, p, q, true) && RemovesAmong(a, BINARIES, q, r, ok)
    ensures r <= p
    ensures forall c :: c in p && c !in r ==> Records(a, c) || (c == Runc && Records(a, Containerd))
    ensures ok ==> Uninstalled(a, r)
  {
    forall c | Records(a, c)
      ensures c in DAEMONS || c in BINARIES
    {
    }
  }

  method Uninstall(host: Host) returns (ok: bool)
    modifies host
    ensures UninstallRun(old(host.State()), host.State(), ok)
    ensures old(host.faulted) ==> host.faulted
    ensures !host.faulted ==> (ok <==> IsIntact(old(host.file)))
  {
    var loaded := GetInstalledArtifacts(host);
    if loaded.NotFound? {
      return true;
    }
    if loaded.Unreadable? {
      return false;
    }
    var a := loaded.artifacts;
    SameRecord(host.file, a);
    ok := host.Attempt();  // the node is drained and unschedulable
    if !ok { return; }
    ok := UninstallDaemons(host, a);
    if !ok { return; }
    ghost var between := host.present;
    ok := UninstallBinaries(host, a);
    RemovedInTwoSteps(a, old(host.present), between, host.present, ok);
    if !ok { return; }
    ok := host.Attempt();  // removing package manager leftovers and the configuration directory
    if !ok { return; }
    ok := Clear(host);
  }

  // ----- Whole lifecycles -----

  /** A history of uninstall runs: states[i] to states[i + 1] is run i, which succeeded when oks[i]. */
  ghost predicate UninstallRuns(states: seq<HostState>, oks: seq<bool>)
  {
    && |states| == |oks| + 1
    && forall i :: 0 <= i < |oks| ==> UninstallRun(states[i], states[i + 1], oks[i])
  }

  /**
   Over any history of runs the tracker file stays as saved until everything recorded is gone; a run that
   succeeds, however many failed before, leaves no file. Unrecorded components are never touched.
   */
  lemma {:induction false} UninstallHistory(states: seq<HostState>, oks: seq<bool>, a: InstalledArtifacts)
    requires UninstallRuns(states, oks) && states[0].file == Saved(a)
    ensures var last := states[|oks|];
            && (last.file == Saved(a) || last.file.Missing?)
            && (last.file.Missing? ==> Uninstalled(a, last.present))
            && (true in oks ==> last.file.Missing?)
            && last.present <= states[0].present
            && (forall c :: c in states[0].present && c !in last.present ==>
                  Records(a, c) || (c == Runc && Records(a, Containerd)))
  {
    if oks != [] {
      var n := |oks| - 1;
      UninstallHistory(states[..|oks|], oks[..n], a);
      assert oks == oks[..n] + [oks[n]];
      assert UninstallRun(states[n], states[n + 1], oks[n]);
    }
  }

  lemma NothingIsRecorded(cfg: Config)
    ensures forall c :: !Records(StartingRecord(cfg, NOTHING), c)
  {
    forall c
      ensures !Records(StartingRecord(cfg, NOTHING), c)
    {
    }
  }

  /**
   Install on a host without a tracker file, then uninstall until it succeeds: everything the install put in
   place is gone, every other component is as it was at the start, and there is no tracker file.
   */
  lemma InstallThenUninstall(cfg: Config, start: HostState, states: seq<HostState>, oks: seq<bool>)
    requires start.file.Missing? && UninstallRuns(states, oks)
    requires Installs(cfg, start, states[0], true)
    requires true in oks
    ensures var last := states[|oks|];
            && last.file.Missing?
            && Tracked(states[0].file.artifacts) == ToInstall(cfg, start.present)
            && (forall c :: c in ToInstall(cfg, start.present) ==> c !in last.present)
            && (forall c :: c !in ToInstall(cfg, start.present) && c != Runc ==>
                  (c in last.present <==> c in start.present))
            && (cfg.privateMode || KeepsContainerd(cfg, start.present) ==> (Runc in last.present <==> Runc in start.present))
  {
    var a := states[0].file.artifacts;
    var cs := ToInstall(cfg, start.present);
    assert forall c :: Records(a, c) <==> c in cs by {
      NothingIsRecorded(cfg);
    }
    UninstallHistory(states, oks, a);
  }

  // ----- Installs that fail first -----

  /** Install runs with one configuration that all failed. */
  ghost predicate FailedInstalls(cfg: Config, states: seq<HostState>)
  {
    && states != []
    && forall i :: 0 <= i < |states| - 1 ==> Installs(cfg, states[i], states[i + 1], false)
  }

  lemma {:induction false} FailedInstallsTouchOnly(cfg: Config, states: seq<HostState>)
    requires FailedInstalls(cfg, states) && states[0].file.Missing?
    ensures var last := states[|states| - 1];
            SameOutside(Touched(cfg), states[0].present, last.present) && !last.file.Saved?
  {
    if |states| > 1 {
      var n := |states| - 1;
      FailedInstallsTouchOnly(cfg, states[..n]);
      assert Installs(cfg, states[n - 1], states[n], false);
    }
  }

  /**
   Any number of failing installs, a successful one, and uninstalls until one succeeds. What is then left over
   that was not there at the start is, besides runc, exactly the iptables that a failed install put in place,
   and its containerd where the successful install found it in place.
   */
  lemma InstallRetriedThenUninstall(cfg: Config, tries: seq<HostState>, states: seq<HostState>, oks: seq<bool>, c: Component)
    requires FailedInstalls(cfg, tries) && tries[0].file.Missing?
    requires UninstallRuns(states, oks) && true in oks && c != Runc
    requires Installs(cfg, tries[|tries| - 1], states[0], true)
    ensures var start, before, last := tries[0].present, tries[|tries| - 1].present, states[|oks|];
            && last.file.Missing?
            && (c in last.present <==> c in before && c !in ToInstall(cfg, before))
            && (c in last.present && c !in start
                <==> c in before && c !in start
                     && (c == Iptables || (c == Containerd && KeepsContainerd(cfg, before))))
  {
    FailedInstallsTouchOnly(cfg, tries);
    InstallThenUninstall(cfg, tries[|tries| - 1], states, oks);
  }

  /** An install that fails after iptables was installed, a successful one and an uninstall leave iptables over. */
  lemma IptablesLeftOver(cfg: Config) returns (tries: seq<HostState>, states: seq<HostState>)
    requires cfg.Valid() && cfg.source == NoSource && cfg.provider == SsmProvider && !cfg.privateMode
    ensures FailedInstalls(cfg, tries) && tries[0] == HostState({}, Missing)
    ensures UninstallRuns(states, [true]) && Installs(cfg, tries[|tries| - 1], states[0], true)
    ensures states[1] == HostState({Iptables}, Missing)
  {
    var cs := {Ssm} + EKS_COMPONENTS;
    var record := InstalledArtifacts(NoSource, true, true, false, true, true, true, true, false);
    tries := [HostState({}, Missing), HostState({Iptables}, Missing)];
    states := [HostState({Iptables} + cs, Saved(record)), HostState({Iptables}, Missing)];
    assert ToInstall(cfg, {Iptables}) == cs;
    forall c
      ensures Records(record, c) <==> c in cs
    {
    }
  }

  // ----- Any history -----

  datatype Run = Installing(cfg: Config, ok: bool) | Uninstalling(ok: bool)

  ghost predicate Takes(s: HostState, s': HostState, run: Run)
  {
    match run
    case Installing(cfg, ok) => Installs(cfg, s, s', ok)
    case Uninstalling(ok) => UninstallRun(s, s', ok)
  }

  ghost predicate Runs(states: seq<HostState>, runs: seq<Run>)
  {
    && |states| == |runs| + 1
    && forall i {:trigger runs[i]} :: 0 <= i < |runs| ==> Takes(states[i], states[i + 1], runs[i])
  }

  /** This run brought the component in and failed, or succeeded and stopped tracking containerd. */
  ghost predicate Untracks(s: HostState, s': HostState, run: Run, c: Component)
  {
    && run.Installing?
    && if run.ok then c == Containerd && Records(RecordIn(s.file), c) && !Records(RecordIn(s'.file), c)
       else c !in s.present && c in s'.present
  }

  ghost predicate SomeRunUntracks(states: seq<HostState>, runs: seq<Run>, c: Component)
    requires |states| == |runs| + 1
  {
    exists i {:trigger runs[i]} :: 0 <= i < |runs| && Untracks(states[i], states[i + 1], runs[i], c)
  }

  lemma StepAccountsFor(s: HostState, s': HostState, run: Run, c: Component)
    requires Takes(s, s', run) && !s'.file.Damaged? && c != Runc
    requires c in s'.present && !Records(RecordIn(s'.file), c)
    ensures !s.file.Damaged?
    ensures (c in s.present && !Records(RecordIn(s.file), c)) || Untracks(s, s', run, c)
  {
  }

  /**
   Over any history of installs and uninstalls, failing or not and with any configurations, from a host without
   a tracker file: a component that is present and not recorded was there at the start, or came with a failed
   install, or is containerd that a later install stopped tracking. Once an uninstall succeeds nothing is recorded.
   */
  lemma {:induction false} HistoryAccountsFor(states: seq<HostState>, runs: seq<Run>, c: Component)
    requires Runs(states, runs) && states[0].file.Missing? && c != Runc
    requires var last := states[|runs|]; !last.file.Damaged? && c in last.present && !Records(RecordIn(last.file), c)
    ensures c in states[0].present || SomeRunUntracks(states, runs, c)
  {
    if runs != [] {
      var n := |runs| - 1;
      assert Takes(states[n], states[n + 1], runs[n]);
      StepAccountsFor(states[n], states[n + 1], runs[n], c);
      if !Untracks(states[n], states[n + 1], runs[n], c) {
        HistoryAccountsFor(states[..|runs|], runs[..n], c);
        if SomeRunUntracks(states[..|runs|], runs[..n], c) {
          var i :| 0 <= i < n && Untracks(states[..|runs|][i], states[..|runs|][i + 1], runs[..n][i], c);
          assert Untracks(states[i], states[i + 1], runs[i], c);
        }
      }
    }
  }

  /** A failed uninstall can leave no tracker file, once all it records is gone. */
  lemma FailedUninstallMayDropTheFile(s: HostState, a: InstalledArtifacts)
    requires s.file == Saved(a)
    ensures UninstallRun(s, HostState(s.present - Tracked(a), Missing), false)
  {
  }

  /** Containerd and runc that were there first survive unless the docker repository is set up through yum. */
  lemma PreexistingContainerdSurvives(cfg: Config, start: HostState, states: seq<HostState>, oks: seq<bool>)
    requires start.file.Missing? && UninstallRuns(states, oks)
    requires Installs(cfg, start, states[0], true)
    requires true in oks
    requires {Containerd, Runc} <= start.present
    ensures {Containerd, Runc} <= states[|oks|].present <==> cfg.privateMode || !(cfg.source == Docker && cfg.yum)
  {
    InstallThenUninstall(cfg, start, states, oks);
  }

  /** A later package install records containerd only if it does not find containerd and runc in place. */
  lemma ReinstallForgetsContainerd(cfg: Config, s: HostState, s': HostState)
    requires Installs(cfg, s, s', true) && !cfg.privateMode
    ensures Containerd in Tracked(s'.file.artifacts) <==> !KeepsContainerd(cfg, s.present)
  {
    assert Records(s'.file.artifacts, Containerd) <==> Containerd in ToInstall(cfg, s.present);
  }
}
