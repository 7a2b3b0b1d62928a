# Verification model of nodeadm

nodeadm installs, initialises, upgrades and uninstalls the components of an EKS hybrid node. This project
models the parts of it that carry state, loops, text parsing or arithmetic, and proves what they promise over
every input, every failure and every interleaving. `dafny verify dfyconfig.toml` checks all of it.

| file | part of nodeadm |
|---|---|
| `Wrappers.dfy`, `Text.dfy` | optional values and results; splitting, trimming and decimals |
| `SemVer.dfy`, `Releases.dfy` | version precedence; choosing releases from the manifest |
| `SyncArtifacts.dfy`, `PrivateManifest.dfy` | uploading artifacts, the one-release manifest, and resolving it again |
| `Lifecycle.dfy` | install and uninstall runs with the tracker file |
| `CheckedWrite.dfy` | streaming an artifact into a file under a checksum |
| `Retry.dfy` | the retry loop, the consecutive-error handler, waiting for an object |
| `SystemdOperation.dfy` | the systemd job protocol: waiter, forwarding goroutines, cancellation |
| `OnlineCpus.dfy`, `Topology.dfy`, `Reservation.dfy` | online CPUs, cores, reserved CPU and memory |
| `Fstab.dfy`, `ProviderId.dfy`, `KubeletFlags.dfy`, `ClusterDns.dfy` | text transformations |
| `ClusterCache.dfy` | cached cluster details as deep copies |

## How the environment is modelled

- A download, package command, daemon call, read or write that may fail assigns its outcome with `:= *`, so a
  contract of the method around it holds for every fault schedule. A failing step may have done part of its work.
- Each such step also notes its failure in a ghost flag (`faulted`, or the count `refused` of the EKS API), so that
  contracts say what must succeed when nothing fails.
- Where a run must be spoken of as a whole, the answers of the environment are a function of the call number
  (`Retry`, `CheckedWrite.Server`, `SystemdOperation.WaitForStatus`) and the loop is proved equal to a
  recursive function, or the run is a sequence of states (`SystemdOperation`, `Lifecycle.UninstallRuns`).
- `SystemdOperation` is a state machine of interleaved steps. `Protocol.RetryOperation` is the waiter's own
  loop: each of its moves is a step of that machine, and systemd and the context move in between.
- The hash, the base64 decoder and what an IPv6 range answers are function parameters.
- The list of online CPUs is read once for all CPUs of a machine.
- Installing or removing a package affects that package and, for containerd, runc.
- The version library, the line scanner, the address parser and the backoff loop that the repository calls
  are modelled from their documented behaviour.

## Where the code differs from what its comments say

- An operation that returns done together with an error ends the retry loop with nil when a handler tolerates
  the error, although the comment at internal/retry/retry.go:81-82 says it is retried: `Retry.DoneWithErrorIsSwallowed`.
  Nil means done without an error exactly when no such call is reached (`Retry.NilMeansDoneWithoutError`); seen
  from the handler alone, exactly when it is absent or tolerates no error (`Retry.HandlerIsSafeIff`), and seen from
  the operation alone, exactly when its first done call reports no error (`Retry.OperationIsSafeIff`).
- IAM Roles Anywhere versions are compared without adding the leading `v` that the comparison needs, so among
  versions written without it the first always wins, 1.0.0 over a later 1.1.0 for example:
  `Releases.LowerVersionChosen`. `Releases.LatestIamIsBestIff` says when the choice is a highest version all the same.
- The written manifest can be resolved only if the chosen version has a minor component and the signing helper
  was found: `PrivateManifest.ManifestRoundTrip` gives both directions, `PrivateManifest.ManifestWithoutMinor` and
  `PrivateManifest.ManifestWithoutHelper` a source each that fails.
- A package install over nodeadm's own containerd stops tracking it: `Lifecycle.ReinstallForgetsContainerd`. A
  failed install saves nothing, so a retry leaves untracked what it finds in place of containerd and iptables:
  `Lifecycle.InstallRetriedThenUninstall`, and `Lifecycle.IptablesLeftOver` for one such history.
- Removing the tracker directory may fail after the tracker file itself is gone. The file is then missing after
  a failed uninstall, but only once everything it recorded has been removed: `Lifecycle.UninstallRun`,
  `Lifecycle.FailedUninstallMayDropTheFile`.
- The forwarding goroutine of an attempt is left behind for good exactly if the attempt's call failed or the context
  ended its wait; after a success or a failed job it has finished: `SystemdOperation.OutcomeDecidesForwarder`, with
  runs for both cases in `SystemdOperation.FailedCallStrandsForwarder` and `SystemdOperation.SomeForwarderIsAbandoned`.
- The memory reservation drops between machines below 1 GiB, which reserve 255 MiB, and machines of at least 1 and
  below 2 GiB, which reserve nothing; for no other pair does more memory mean a smaller reservation:
  `Reservation.ReservationDropsIff`.
- The fstab rewrite is repeatable exactly when no remaining line ends in a carriage return after the scanner
  has dropped one: `Fstab.RewriteIsIdempotentIff`. A comment line ending in two changes again: `Fstab.SecondRunMayDiffer`.

## Model

| member | source | states |
|---|---|---|
| SemVer.ParseShape | internal/aws/source.go:94-103 | a valid version text is its major numeral followed by nothing, a minor, or a minor, a patch and more |
| SemVer.ParseOfPrinted | internal/aws/source.go:94-103 | a release printed from three numbers parses to those three numerals |
| SemVer.ParsesExactly | internal/aws/source.go:94-103 | a text is a version exactly when it is the text of its three numbers, pre-release and build identifiers, which it determines |
| SemVer.NumeralExactly | internal/aws/source.go:94-103 | the numerals of a version are the decimals of the natural numbers |
| SemVer.CompareIsTotalPreorder | internal/aws/source.go:80-86 | version precedence is reflexive, total and transitive over all texts, invalid ones included |
| SemVer.PrecedenceOfReleases | internal/aws/source.go:80-86 | versions compare by their three numbers first; of equal ones a pre-release is below its release, and two pre-releases are ordered as sections 11.4.1 to 11.4.4 of Semantic Versioning 2.0.0 say |
| SemVer.PrintedCompareAsTriples | internal/aws/source.go:80-86 | printed releases compare as their number triples |
| Releases.DateKeyIsCalendarOrder | internal/aws/source.go:145-158 | one date is after another exactly by year, month and day |
| Releases.DatesExactly | internal/aws/source.go:145-158 | the text of three numbers is a date exactly when the calendar has that day |
| Releases.LatestIsFirstMaximum | internal/aws/source.go:146-160 | keeping the first and replacing it by strictly newer elements ends with the first maximum |
| Releases.KeepLatest | internal/aws/source.go:141-161 | the walk fails exactly if some element is unacceptable and otherwise returns the first maximum |
| Releases.GetLatestDateEksPatchRelease | internal/aws/source.go:141-161 | an empty list or an unparsable date is an error, otherwise the first release of latest date |
| Releases.MajorMinorOfValid | internal/aws/source.go:98-103 | the release line of a valid version is its major and minor joined by a dot, a missing minor read as 0 |
| Releases.PatchRequestedIff | internal/aws/source.go:105-106 | a patch is requested exactly when the text spells out three numbers |
| Releases.MatchedExactly | internal/aws/source.go:109-125 | a release is matched exactly when a supported release of the requested line lists it with the requested, or else the latest, patch |
| Releases.CandidatesOfLine | internal/aws/source.go:105-125 | a request a.b has as candidates the releases at the latest patch of that line |
| Releases.CandidatesOfPatch | internal/aws/source.go:105-125 | a request a.b.c has as candidates the releases at that patch of the line a.b |
| Releases.CollectMatched | internal/aws/source.go:109-125 | the nested loops collect the matched releases in manifest order |
| Releases.GetLatestEksSource | internal/aws/source.go:89-139 | the loop form agrees with the specification that LatestEksIsFirstOfMaximalDate is about |
| Releases.LatestEksIsFirstOfMaximalDate | internal/aws/source.go:89-161 | the first release of maximal date among exactly the matched ones; with several matches an error exactly if a date does not parse |
| Releases.GetLatestIamRolesAnywhereSource | internal/aws/source.go:76-87 | an error exactly without releases, otherwise the specification that LatestIamIsFirstOfHighestPrecedence is about |
| Releases.LatestIamIsFirstOfHighestPrecedence | internal/aws/source.go:76-87 | the first release that no other exceeds in precedence |
| Releases.InvalidVersionsKeepTheFirst | internal/aws/source.go:80-86 | among versions that are invalid as written the first release is chosen |
| Releases.LatestIamIsBestIff | internal/aws/source.go:76-87 | with each version read with its leading v, no release exceeds the chosen one exactly when a best release is written with it or, where none is, the first release is a best one |
| Releases.LowerVersionChosen | internal/aws/source.go:80-86 | of 1.0.0 and 1.1.0 in this order the lower version is chosen |
| Releases.ExceedsByNumbers | internal/aws/source.go:76-87 | of two printed versions, with or without the leading v, one exceeds the other exactly by its numbers |
| Releases.GetSourceFromManifest | internal/aws/source.go:48-74 | the loops and checks in the code's order agree with the specification that LineRequestResolves, PatchRequestResolves and ManifestRoundTrip are about |
| Releases.LineRequestResolves | internal/aws/source.go:48-74 | a request a.b accepts a chosen a.b.d for every d, and a release of another line is a version mismatch |
| Releases.PatchRequestResolves | internal/aws/source.go:263-300 | a request a.b.c accepts a chosen a.b.d exactly when c equals d, and otherwise says which part does not match |
| Releases.BadRequests | internal/aws/source.go:89-100 | an empty or malformed version is refused before anything is chosen |
| Releases.BadReleases | internal/aws/source.go:263-275 | a chosen release whose own version is empty or malformed is refused |
| Releases.FoundAtFirst | internal/aws/source.go:225-260 | an artifact is found at the first position where name, architecture and operating system agree |
| SyncArtifacts.Bucket.StreamToS3 | cmd/nodeadm/sync_artifacts/sync_artifacts.go:273-302 | an upload stores the object under its key or fails and stores nothing |
| SyncArtifacts.SuffixByRegion | internal/aws/partition.go:54-128 | the host suffix that each kind of region gets |
| SyncArtifacts.Downloader.HostText | cmd/nodeadm/sync_artifacts/sync_artifacts.go:331-340 | the text of the bucket host |
| SyncArtifacts.Downloader.KeyText | cmd/nodeadm/sync_artifacts/sync_artifacts.go:255-255 | a key is the prefix, the time and the local path, and one slash at the end of the prefix makes no difference |
| SyncArtifacts.Downloader.CollectArtifacts | cmd/nodeadm/sync_artifacts/sync_artifacts.go:186-238 | collects the five EKS artifacts, the signing helper and the SSM installer that exist for the platform; no artifact at all is an error |
| SyncArtifacts.Downloader.EksArtifactsByName | cmd/nodeadm/sync_artifacts/sync_artifacts.go:189-200 | each of the five Kubernetes artifacts that exists for the platform is collected under its directory |
| SyncArtifacts.Downloader.SyncArtifactToS3 | cmd/nodeadm/sync_artifacts/sync_artifacts.go:249-271 | success stores the main artifact under its key, and without a fault its checksum as well; a failing checksum upload is ignored |
| SyncArtifacts.Downloader.KeyIsItsOwn | cmd/nodeadm/sync_artifacts/sync_artifacts.go:252-262 | no other artifact and no checksum of a run is stored under an artifact's key |
| SyncArtifacts.Downloader.ChecksumKeyIsItsOwn | cmd/nodeadm/sync_artifacts/sync_artifacts.go:261-268 | nothing but its own checksum is stored under an artifact's checksum key |
| SyncArtifacts.Downloader.KeysHoldArtifacts | cmd/nodeadm/sync_artifacts/sync_artifacts.go:166-170 | once all are uploaded, each key holds its own artifact, whatever was stored after it |
| SyncArtifacts.Downloader.Run | cmd/nodeadm/sync_artifacts/sync_artifacts.go:152-184 | the manifest is written only after every collected artifact has been stored in this run and is what its key holds at the end; without a fault everything is stored, in order, and the run succeeds exactly if anything was collected |
| SyncArtifacts.Downloader.GenerateCustomManifest | cmd/nodeadm/sync_artifacts/sync_artifacts.go:331-418 | the loop that sorts artifacts into three lists builds the specified manifest |
| SyncArtifacts.Downloader.ManifestParts | cmd/nodeadm/sync_artifacts/sync_artifacts.go:371-418 | what the written manifest says besides the artifacts |
| SyncArtifacts.Downloader.UriIsHostAndKey | cmd/nodeadm/sync_artifacts/sync_artifacts.go:339-352 | every URI is the bucket host, a slash and the very key of the upload (built at line 255); a checksum URI adds .sha256 |
| SyncArtifacts.Downloader.CollectedByCategory | cmd/nodeadm/sync_artifacts/sync_artifacts.go:362-369 | each category holds exactly the artifacts collected for it, in order, and none is left over |
| SyncArtifacts.Downloader.ManifestListsEveryUpload | cmd/nodeadm/sync_artifacts/sync_artifacts.go:345-418 | the three lists together are all collected artifacts, each once |
| PrivateManifest.MajorMinorAgreesIffDotted | cmd/nodeadm/sync_artifacts/sync_artifacts.go:441-448 | cutting a version at its dots gives its release line exactly when it contains a dot |
| PrivateManifest.ManifestRoundTrip | cmd/nodeadm/sync_artifacts/sync_artifacts.go:331-448 | resolving the written manifest succeeds exactly when the chosen version has a minor component and the signing helper was found, and then selects the same releases, account and providers |
| PrivateManifest.ManifestWithoutMinor | cmd/nodeadm/sync_artifacts/sync_artifacts.go:441-448 | a version without a minor component whose written manifest does not resolve although the helper was found |
| PrivateManifest.ManifestWithoutHelper | cmd/nodeadm/sync_artifacts/sync_artifacts.go:410-418 | for every valid version a source without the signing helper, whose written manifest does not resolve |
| PrivateManifest.PrivateInstallFindsEveryArtifact | cmd/nodeadm/sync_artifacts/sync_artifacts.go:186-247 | after the round trip each name is found exactly when the sync had found it |
| PrivateManifest.OfferedIsAtItsKey | internal/aws/source.go:225-260 | what is found is downloaded from the key it was uploaded to |
| Lifecycle.Tracker.Add | internal/tracker/artifacts.go:43-65 | adds exactly the named component to the record, or fails and changes nothing |
| Lifecycle.Tracker.Save | internal/tracker/artifacts.go:68-81 | success writes the record with a definite containerd source; a failure leaves the file as it was or damaged |
| Lifecycle.GetInstalledArtifacts | internal/tracker/artifacts.go:89-108 | a missing file is told apart from an unreadable one, and an unset containerd source reads as none |
| Lifecycle.ContainerdSourceExactly | internal/tracker/artifacts.go:125-136 | the containerd sources the tracker knows; an unset one stands for none |
| Lifecycle.PackageManager.Configure | internal/packagemanager/packagemanager.go:81-124 | touches nothing but runc, and that only for the docker repository through yum, where success means it is gone |
| Lifecycle.InstallContainerd | internal/containerd/install.go:30-52 | containerd and runc found in place are left alone and recorded as none |
| Lifecycle.InstallIptables | internal/iptables/iptables.go:23-35 | iptables is installed and recorded exactly when it is not there |
| Lifecycle.InstallDistroPackages | internal/flows/install.go:83-97 | records exactly the packages it had to install |
| Lifecycle.InstallCredentialProcess | internal/flows/install.go:99-130 | installs and records the component of the chosen provider; without a fault it fails exactly for an unknown provider |
| Lifecycle.InstallEksArtifacts | internal/flows/install.go:132-175 | success installs and records all five EKS components |
| Lifecycle.ToInstallExactly | internal/flows/install.go:83-175 | component by component what a run installs |
| Lifecycle.Install | internal/flows/install.go:35-81 | a successful run installs exactly the expected components, SSM or IAM Roles Anywhere by the provider, and saves them with what was recorded before; a failed one leaves the tracker file as it was or damaged; without a fault it succeeds exactly if the file is intact and the provider known |
| Lifecycle.UninstallContainerd | internal/containerd/install.go:54-67 | removes containerd when it is there, at most together with runc |
| Lifecycle.UninstallDaemons | internal/flows/uninstall.go:59-122 | removes recorded daemons only, and all of them on success |
| Lifecycle.UninstallBinaries | internal/flows/uninstall.go:124-162 | removes recorded binaries only, and all of them on success |
| Lifecycle.Clear | internal/tracker/artifacts.go:83-85 | success leaves no tracker file |
| Lifecycle.Uninstall | internal/flows/uninstall.go:41-57 | one run of the uninstall command: the tracker file goes only after everything it records, and without a fault the run succeeds exactly if the file is intact |
| Lifecycle.UninstallHistory | internal/flows/uninstall.go:41-57 | over any number of failing runs the file stays as saved until all recorded components are gone, and a success leaves none |
| Lifecycle.FailedUninstallMayDropTheFile | internal/tracker/artifacts.go:83-85 | a failed uninstall that leaves no tracker file |
| Lifecycle.InstallThenUninstall | internal/flows/install.go:35-81 | install on a clean host, then uninstall until success: what was installed is gone, everything else is as before, no file is left |
| Lifecycle.InstallRetriedThenUninstall | internal/flows/install.go:35-81 | failing installs, then a successful one, then uninstalls: besides runc exactly the iptables of a failed install is left over, and its containerd where it was found in place |
| Lifecycle.IptablesLeftOver | internal/flows/install.go:35-81 | a failed install, a successful one and an uninstall that leave iptables on a host that had none |
| Lifecycle.HistoryAccountsFor | internal/tracker/artifacts.go:43-136 | over any history of installs and uninstalls a component that is present and not recorded was there at the start, came with a failed install, or is containerd that a later install stopped tracking |
| Lifecycle.PreexistingContainerdSurvives | internal/containerd/install.go:38-41 | containerd and runc that were there first survive exactly unless the docker repository is set up through yum |
| Lifecycle.ReinstallForgetsContainerd | internal/containerd/install.go:38-41 | a package install records containerd exactly if it does not find it in place, whoever put it there |
| CheckedWrite.ChecksumLineRoundTrip | internal/artifact/checksum.go:28-39 | a checksum line printed for any digest and file name parses back to the digest |
| CheckedWrite.ParsesExactly | internal/artifact/checksum.go:28-39 | a line is accepted exactly when an even number of hex digits precedes its first space |
| CheckedWrite.HexValueExactly | internal/artifact/checksum.go:28-39 | the hex digits, in either case, and their values |
| CheckedWrite.WithChecksum | internal/artifact/source.go:47-61 | fails exactly when the checksum line does not parse |
| CheckedWrite.Source.Read | internal/artifact/source.go:56-60 | the digest has been fed exactly the bytes delivered so far, for every chunking, also when the end or an error comes with a chunk |
| CheckedWrite.InstallFile | internal/artifact/install.go:23-39 | success means the file holds the whole stream and the digest saw the same bytes; it fails only through a fault; no other file changes |
| CheckedWrite.ChecksumMatch | internal/artifact/upgrade.go:17-29 | the chunked comparison is the hash of the whole file against the expected digest |
| CheckedWrite.Upgrade | internal/artifact/upgrade.go:33-52 | nil means the file has the expected digest, in both branches; without a fault it comes exactly if the old or the delivered content has it; a file that already has it is not touched |
| CheckedWrite.UpgradeTwice | internal/artifact/upgrade.go:33-52 | after a successful upgrade a second one to the same digest writes nothing and, without a fault, succeeds |
| CheckedWrite.DownloadFileTo | internal/kubelet/install.go:78-94 | success means the file is one offer in full, vouched for by that offer's own checksum line, and comes without a fault exactly for such an offer |
| CheckedWrite.InstallFromSource | internal/kubelet/install.go:65-76 | at most three attempts, stopping at the first success, whose stream is exactly the file; without a fault at the first of three offers that vouches for itself, and exactly if there is one |
| Retry.ConsecutiveErrorHandler.Handle | internal/retry/maxerrors.go:5-19 | counts errors in a row and turns the one beyond the limit into a final error |
| Retry.InterruptedExactly | internal/retry/retry.go:86-91 | an error counts as an interruption exactly if one in its chain is |
| Retry.TryOnce | internal/retry/retry.go:65-84 | one attempt: the handler's counter is the failing suffix, and the attempt is final exactly when the handler gives up or the operation finishes |
| Retry.Do | internal/retry/retry.go:45-94 | the loop agrees with the specification, and the handler's counter is the length of the failing suffix |
| Retry.LoopEndsWell | internal/retry/retry.go:64-84 | the loop ends at the first call that finishes or exceeds the tolerated failures, or is cut short by a context that is done where the loop looks at it, with that context's error, or by its step limit |
| Retry.OneEnding | internal/retry/retry.go:64-84 | no other ending fits that description |
| Retry.DoEndsAsConfigured | internal/retry/retry.go:45-94 | the configured loop, in which zero steps are the largest 64-bit integer and an interruption carries the last failure |
| Retry.NilIsGenuineUnlessSwallowed | internal/retry/retry.go:71-84 | in one run nil means done without an error exactly when the last call is not one whose error is swallowed |
| Retry.NilMeansDoneWithoutError | internal/retry/retry.go:71-84 | nil means done without an error under every context and step limit exactly when no call is swallowed |
| Retry.DoneWithErrorIsSwallowed | internal/retry/retry.go:75-83 | any call that is reached, done with an error and tolerated ends an uninterrupted run with nil |
| Retry.HandlerIsSafeIff | internal/retry/retry.go:75-83 | no operation is swallowed exactly when there is no handler or it tolerates no error |
| Retry.OperationIsSafeIff | internal/retry/retry.go:75-83 | no handler swallows an error of the operation exactly when its first done call reports none |
| Retry.WaitFor | internal/kubernetes/wait.go:24-49 | nil or an error as WaitForOutcome says, together with the object of the last read |
| Retry.WaitForOutcome | internal/kubernetes/wait.go:24-49 | nil exactly at the first ready read; giving up exactly at the first four failures in a row; otherwise cut short by the context, with its error, or after as many reads as a 64-bit integer counts, carrying the most recent failure |
| Retry.ReadyReadEndsWait | internal/kubernetes/wait.go:24-49 | in a live context the first ready read ends the wait, unless four failures in a row come first |
| SystemdOperation.StepKeepsInv | internal/daemon/systemd.go:127-140 | every step of waiter, forwarder, systemd or context keeps the channels, jobs and results of attempts apart |
| SystemdOperation.RunKeepsInv | internal/daemon/systemd.go:127-140 | so does every run |
| SystemdOperation.ReturnMeansOwnResultOrCancelled | internal/daemon/wait.go:42-72 | nil only for a result of the last attempt's own job, posted since it began, neither failed nor timeout; an error only once the context is done |
| SystemdOperation.ResultsAreNeverConsumedByAnotherAttempt | internal/daemon/systemd.go:58-71 | no attempt consumes a result posted before it began or for another job |
| SystemdOperation.ConsumedResultIsNew | internal/daemon/systemd.go:58-71 | what an attempt consumes was posted after every state in which the attempt had not begun |
| SystemdOperation.EveryResultGoesToOneAttempt | internal/daemon/systemd.go:127-140 | a posted result reaches at most one attempt |
| SystemdOperation.AnyResultEndsAttempt | internal/daemon/wait.go:57-72 | a waiting attempt's job can end with any result, and taking it ends the attempt: failed and timeout with an error, every other result with nil |
| SystemdOperation.OfferedResultEndsAttempt | internal/daemon/wait.go:57-72 | so does taking a result that is offered already |
| SystemdOperation.OutcomeDecidesForwarder | internal/daemon/wait.go:42-72 | the outcome of an attempt decides its forwarder for good: none was started if the caller brought a channel, it finished exactly after a success or a failed job, whose result is the one reported, and it never finishes after a failed call or an ended context |
| SystemdOperation.FinishedIffConsumed | internal/daemon/systemd.go:132-136 | in every state of a run a forwarder has finished exactly when its attempt consumed a result |
| SystemdOperation.AbandonedForwarderNeverFinishes | internal/daemon/systemd.go:132-136 | the forwarder of an attempt that ended without its result never finishes |
| SystemdOperation.SomeForwarderIsAbandoned | internal/daemon/systemd.go:132-136 | a run in which the context ends before the job, which strands the forwarder |
| SystemdOperation.FailedCallStrandsForwarder | internal/daemon/systemd.go:58-71 | a run in which the call fails with the context live, which strands the forwarder as well |
| SystemdOperation.Protocol.WaitForOperation | internal/daemon/wait.go:42-72 | one attempt, whose moves are steps of the protocol: a caller's own channel is refused without starting the operation, and the wait stays pending only while no result is offered and the context is not done |
| SystemdOperation.Protocol.RetryOperation | internal/daemon/retry.go:12-27 | the retry loop: nil means an own successful result, an error is the last attempt's and comes only once the context is done, and a caller's own channel never ends in nil |
| SystemdOperation.WaitForStatus | internal/daemon/wait.go:16-34 | ends exactly at the first poll with the desired status or the first wait with the context done, and polls on otherwise |
| OnlineCpus.IsCpuOnline | internal/system/resources.go:228-272 | the loop with early returns agrees with scanning the pieces left to right |
| OnlineCpus.SegmentExactly | internal/system/resources.go:239-268 | a piece is well formed exactly when it is a 16-bit number or two of them in order around a hyphen |
| OnlineCpus.OnlineExactly | internal/system/resources.go:228-272 | yes exactly when a piece contains the CPU and all earlier ones are well formed; an error exactly for an empty file or a malformed piece before any match |
| OnlineCpus.OnlineOnPrintedList | internal/system/resources.go:238-271 | on the printed form of any non-empty list of 16-bit ranges the answer is membership in their union |
| Topology.RoleOfPrinted | internal/system/resources.go:117-153 | a directory of an online CPU with both files gives the thread, core and socket numbers printed there |
| Topology.OnlineExactly | internal/system/resources.go:201-226 | without the list file every CPU is online, with an unreadable one none, and otherwise those the list finds |
| Topology.PlaceThread | internal/system/resources.go:155-174 | puts one thread into its core or a new last one |
| Topology.GetCoresInfo | internal/system/resources.go:117-178 | fails exactly if some directory has no CPU number or, for an online CPU, a topology file that is not a number; otherwise groups the threads of the online CPUs with both files |
| Topology.CoresConserveOnlineCpus | internal/system/resources.go:117-178 | the cores have distinct keys, list the online CPUs with both topology files in input order, and neither lose nor repeat one |
| Topology.OnlineThreadsInOrder | internal/system/resources.go:124-153 | the threads to group are those of the online CPUs with both topology files, in input order |
| Topology.OnlineThreadsExactly | internal/system/resources.go:119-153 | a thread is grouped exactly when some directory has its CPU number, that CPU is online, and both files hold its core and socket numbers |
| Topology.GroupPartitionsThreads | internal/system/resources.go:155-174 | cores have distinct keys, each lists exactly its CPUs in input order, and every key has a core |
| Topology.GroupConservesThreads | internal/system/resources.go:155-174 | grouping neither loses nor repeats a CPU |
| Topology.ThreadsExactly | internal/system/resources.go:117-153 | the threads to group are exactly those of the counted directories |
| Topology.GetMilliNumCores | internal/system/resources.go:50-82 | a thousand times the online CPUs with both topology files of all nodes, or all CPU directories when there are no nodes; fails exactly if some node's directories cannot be read |
| Reservation.GetCPUMillicoresToReserve | internal/kubelet/config.go:514-531 | the reserved millicores are the marginal sum rounded down |
| Reservation.SumIsFlooredMarginal | internal/kubelet/config.go:524-543 | rounding down per range equals rounding the whole marginal sum down once |
| Reservation.CPUReservationIsMonotoneAndBounded | internal/kubelet/config.go:514-543 | monotone, at most six percent, and less than one millicore below the marginal sum |
| Reservation.CPUReservationOfWholeCores | internal/kubelet/config.go:514-543 | 80 millicores and two and a half per core beyond four, rounded down |
| Reservation.MemoryIsMarginalSum | internal/kubelet/config.go:302-315 | the five branches are one schedule of 25, 20, 10, 6 and 2 percent |
| Reservation.MemoryByBrackets | internal/kubelet/config.go:302-315 | the marginal schedule as a sum over its brackets |
| Reservation.MemoryReservation | internal/kubelet/config.go:292-315 | from 1 GiB on: monotone, within half a GiB of the schedule, never above the total |
| Reservation.ReservationDropsIff | internal/kubelet/config.go:302-315 | more memory means a smaller reservation exactly from below 1 GiB to at least 1 and below 2 GiB |
| Reservation.ReservationDropsAtOneGiB | internal/kubelet/config.go:303-306 | 255 MiB one byte short of 1 GiB and nothing at 1 GiB |
| Fstab.ParseByWords | internal/system/swap.go:182-201 | how any layout of words and white space parses: blank, too few fields, or its first three words |
| Fstab.SwapByWords | internal/system/swap.go:168-170 | a line goes exactly when it is no comment and its third word is swap, and is malformed exactly with one or two words |
| Fstab.LinesOfText | internal/system/swap.go:159-164 | how a text reads line by line, with or without a newline at its end |
| Fstab.LeftExactly | internal/system/swap.go:162-171 | the lines that stay are those at the positions that hold no swap entry, in their order |
| Fstab.FilterLines | internal/system/swap.go:162-171 | collects exactly the lines that stay, or reports the first malformed one |
| Fstab.DisableSwapOnFstab | internal/system/swap.go:150-180 | the file is rewritten without swap entries, or is untouched and has a malformed entry; anything else takes a fault |
| Fstab.RewriteKeepsTheOtherLines | internal/system/swap.go:162-180 | scanning the result gives the other lines in order and no swap entry |
| Fstab.RewriteIsIdempotentIff | internal/system/swap.go:150-180 | a second run writes the same text exactly when no remaining line ends in a carriage return |
| Fstab.SecondRunMayDiffer | internal/system/swap.go:150-180 | a file of one comment line that the second run changes again |
| Fstab.RewriteIsIdempotentWithoutCR | internal/system/swap.go:150-180 | on files without carriage returns the second run is the identity |
| ProviderId.GetNodeNameIsThePattern | internal/kubelet/config.go:48 | the reader accepts exactly what the pattern matches, with the same group |
| ProviderId.RoundTripIff | internal/kubelet/config.go:474-476 | the name is read back exactly for non-empty slash-free region and cluster and a non-empty name without newline |
| ProviderId.PartsOfId | internal/kubelet/config.go:474-476 | the parts of an ID are region, cluster and node name, in this order |
| ProviderId.IdIsInjective | internal/kubelet/config.go:474-476 | an ID determines region, cluster and name |
| KubeletFlags.ExtractFlagValue | internal/network/utils.go:79-91 | the loop gives the value LastValueIsTheLast is about |
| KubeletFlags.LastValueIsTheLast | internal/network/utils.go:79-91 | the value of the last argument that gives the flag a non-empty one |
| KubeletFlags.RenderedText | internal/kubelet/environment.go:21-24 | each generated flag is rendered with two hyphens and an equals sign and read back from that text |
| KubeletFlags.AssignedText | internal/kubelet/environment.go:29-33 | each variable is written with its value in double quotes |
| KubeletFlags.Kubelet.FlagList | internal/kubelet/environment.go:21-26 | every generated flag once, in any order, and then the user's flags |
| KubeletFlags.Kubelet.WriteKubeletEnvironment | internal/kubelet/environment.go:18-33 | only the argument variable of the environment changes, to the joined list, and the file lists the whole environment in any order |
| KubeletFlags.UserFlagsWin | internal/kubelet/environment.go:22-26 | for every order the user's last non-empty value wins, otherwise the generated one |
| ClusterDns.DnsReplacesTheLastOctet | internal/api/net.go:10-18 | the DNS text parses to the range's address with last octet 10 |
| ClusterDns.AddrsExactly | internal/api/net.go:28-37 | an IPv4 address is written exactly as its four octets, the most significant first |
| ClusterDns.CidrsExactly | internal/api/net.go:28-37 | an IPv4 range is written exactly as an address, a slash and the digits of a length up to 32 |
| ClusterDns.DnsText | internal/api/net.go:10-18 | the text of the DNS address of an IPv4 range |
| ClusterDns.DnsTextIPv6 | internal/api/net.go:19-21 | an IPv6 range gives the text before its slash and an a, and a text that is no range an error |
| ClusterDns.IsIPInCIDRs | internal/network/utils.go:49-63 | true exactly when a range contains the address and all earlier ones, IPv6 ranges included, parse and do not; an address without IPv4 form is an error |
| ClusterDns.MaskedByteIsHalved | internal/network/utils.go:39-46 | comparing masked bytes is comparing the bits the prefix fixes |
| ClusterDns.ContainsIffSameBlock | internal/network/utils.go:39-46 | containment is equality of the address numbers divided by the block size |
| ClusterDns.ContainsIffInRange | internal/network/utils.go:39-46 | containment is lying in the address range of section 3.1 of RFC 4632 |
| ClusterDns.DnsLiesInRange | internal/api/net.go:10-18 | the DNS address lies in the range exactly when the prefix is at most 24 bits or the range's last octet shares the fixed bits of 10 |
| ClusterCache.ClusterDetails.DeepCopyInto | internal/api/zz_generated.deepcopy.go:12-24 | equal contents, with a byte array and a boolean of its own |
| ClusterCache.ClusterDetails.DeepCopy | internal/api/zz_generated.deepcopy.go:27-34 | a new object with equal contents that shares nothing |
| ClusterCache.UserFieldsAreKept | internal/aws/eks/cluster.go:49-66 | fields the user set are never overwritten |
| ClusterCache.MissingFieldsComeFromTheCluster | internal/aws/eks/cluster.go:49-66 | each missing field is taken from its own part of the cluster's description |
| ClusterCache.UsableExactly | internal/aws/eks/cluster.go:44-61 | an answer is of use exactly if the cluster is active and a needed authority decodes |
| ClusterCache.ReadEksClusterDetails | internal/aws/eks/cluster.go:34-69 | a new object with only the missing fields filled; the API is called exactly once for an incomplete node and never for a complete one, and the read succeeds if it gives a usable answer |
| ClusterCache.ClusterProvider.ReadClusterDetails | internal/kubernetes/cluster.go:29-47 | results are new and disjoint from the cache, which is filled once and answers afterwards |
| ClusterCache.AnySession | internal/kubernetes/cluster.go:29-47 | whatever a client does to earlier results, all results agree, the API is not asked again after the first, an API with a usable answer is read successfully at most once, and every read succeeds if it refuses no call |

## Left out

- YAML encoding of manifest and tracker: the manifest and the record are values, so what a yaml library could lose is not modelled.
- The manifest's `Partition`, `DnsSuffix` and `GzipURI`: the written manifest drops them, so the round trip does not speak of them.
- SyncArtifacts.Downloader.SyncArtifactToS3: promises nothing about a checksum object, because its failure is only logged.
- Unpacking gzip and tar streams, OpenPGP signatures and x509.
- Side effects of package removal beyond runc, such as other packages removed as unneeded.
- SystemdOperation.Protocol.WaitForOperation: the wait is unbounded in the code; here it looks a given number of times and may end pending.
- SystemdOperation.Protocol.RetryOperation: the number of attempts is a parameter, where the code has no bound.
- SystemdOperation.WaitForStatus: polls a given number of times and may end still polling, where the code has no bound.
- Durations: only whether the context is done at a point is modelled, not how long a backoff is.
- Reservation.MemoryReservation: exact hundredths in place of binary floating point, so rounding errors of the machine's arithmetic are not captured.
- ClusterDns.DnsLiesInRange: IPv4 ranges only; an IPv6 range takes the other branch, and an IPv4 address written as IPv6 is not modelled.
- Fstab.DisableSwapOnFstab: the line scanner's limit of 64 KB per line is not modelled.
- Topology.RoleOfPrinted: numbers up to the largest 64-bit integer; the look-up of CPU ids above 16 bits keeps the code's truncation.
- Command lines, logging, validation runners, firewall, version skew, MTU and partition tables: no property beyond one branch.
