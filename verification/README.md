# Verified model of the RHCS Terraform provider

The Terraform provider for Red Hat Cloud Services keeps ROSA clusters, their machine pools and their identity
providers in line with what a user wrote down. Most of it copies fields. This project models the parts that are
protocols, where several requests, partial failures and other actors meet, and the read-back rules on which
`terraform plan` relies to be empty after `terraform apply`. It proves what those parts promise.

Run `dafny verify dfyconfig.toml` to check everything.

## What is modelled

**The upgrade protocol** (`UpgradePolicies`, `UpgradeServer`, `UpgradeProtocol`, `UpgradeCall`, `UpgradeRuns`,
`UpgradeInterleaving`, `UpgradeDisturbance`, `UpgradeConvergence`, `UpgradeRefinement`). The classic cluster,
the hosted control plane and the node pool carry three copies of one protocol: compare versions, check that the
desired one is available, page through the upgrade policies, cancel the unwanted ones, acknowledge version
gates, schedule. It is written once, over the kind of policy. The server is a class with its policies,
acknowledged gates, running version, clock and a log of all requests. Every request may fail, and a failed
request that changes something may still have taken effect. Each method is proved against a description of what
it sends and what it leaves behind on every exit; from those follow

* safety over every run: at most one active policy, above the version running, which never goes down;
* convergence: a second call with the same plan at a strictly later time only reads, whatever the upgrade did
  meanwhile;
* the same at the grain of single requests, page by page, with server moves between any two of them: at most one
  active policy exactly as long as the policies never fill more than one page, and for everything else that a
  move in the middle of a call can break it is shown exactly when it does;
* convergence at that grain too: on a settled server a call deletes nothing, and adds only after the version
  running has changed under it;
* the two grains agree: a call that runs request by request without a server move in between has the effect the
  whole runs take it to have, also when a request fails midway.

**KubeletConfig creation under the keyed mutex** (`KeyedMutex`, `KubeletCreate`): N processes, each a sequence of
atomic steps through the global lock, the per-cluster mutex, the check and the create. Proved: mutual exclusion,
at most one config, no rebinding, no deadlock, at most ten steps per process, and that a config does get created
wherever the list allows it.

**htpasswd users** (`HtPasswd`): the three maps, the delete pass and the patch pass, each over a map in arbitrary
order, against a server table whose requests may fail.

**Diff, patch and read-back** (`Properties`, `Tags`, `NoProxy`, `VersionId`, `VersionSelection`, `RegistryConfig`,
`Waiter`, over `Semver`, `Paging` and `Wrappers`).

## Where the code falls short

Some properties one would expect are false of the code. Each is stated with the exact condition under which it
holds.

* A call that judges by a stale cached version can schedule an upgrade to a version below the one running:
  every successful one does, unless there is nothing to add or the desired version is above the one running
  (`CallIsSafeIff`, `StaleCallGoesBelow`, `StaleCallCanSucceed`).
* Even a fresh call can add a policy that does not lead upwards, when the wanted upgrade completes between the
  listing and the reading of its state: the version is scheduled once more. A run stays safe exactly if every
  policy it schedules leads above the version then running and finds none active; when no upgrade completes in
  the middle of a call and none slips past a listing, that is so (`RunIsSafeIff`,
  `RunsWithoutCompletionDuringCallsAreSafe`, `CompletionDuringACallIsRepeated`).
* A policy that was waiting when its state was read can start before it is deleted; the deleted policy, its
  request answered or not, is under way exactly when it has started since and has not ended
  (`StartedPolicyIsDeletedIff`, `StartedPolicyCanBeDeleted`).
* A list of more than 100 policies, read page by page while one of them vanishes, can lack another one, exactly
  when the one that vanished was on a page already read (`RemovalBetweenPagesIsSeenIff`); the one
  lacking is the first that was still unread, and it matters when it is active (`RemovalIsQuietIff`). Then a
  second policy can become active beside one under way (`SlippedPolicyIsDoubled`). At most one policy is ever
  active, whatever else happens, exactly if there are never more than 100 (`OnePageIsSafeIff`); and in any one
  run exactly if every policy it schedules finds none active (`RunKeepsOneActiveIff`).
* A node pool outside the default channel group is refused a plan it has already reached, on every update, because
  the version it reads has the name of the group behind it (`ReadIsFreshIff`, `RefreshAndUpgrade`).
* A second call at the very instant of the first would cancel the policy it added (`AddedPolicyIsWantedLater`).
* A dry run whose answer never arrives counts as "no gate missing" (`GatesIn`): the policy is then asked for with
  gates missing exactly if some were missing before (`ScheduleUpgrade`), and only a check of the server's own can
  still stop it.
* A user whose password drifted on the server, and whom the plan leaves as it is, is not repaired
  (`UpdateReachesTargetIff`).
* A planned property with a reserved key never settles: creation keeps the user's value, the next update
  overwrites it (`CreationSettlesIff`, `UpdateSettlesIff`); it is sent with every update
  (`SentOnceOrForever`).
* When a machine pool loses all tags of its own on the server, a read does not notice (`ReadShowsTheServerIff`).
* A version that itself ends in "-stable" does not survive the read in the default channel group
  (`VersionIdRoundTrip`); a node pool's version survives in no other group (`NodePoolKeepsTheChannelGroup`).
* A list of registries that the server has lost, and leaves out of its answer because it is empty, is not noticed
  when the state had one (`RegistryConfig.ReadShowsTheServerIff`).
* Removing the list of insecure registries from the plan does not clear it (`PatchReachesThePlanIff`); removing
  the whole registry configuration crashes the provider when the state has import locations
  (`UpdateRegistryConfigBuilder`).
* A planned empty list of import locations never settles when the server leaves empty lists out of its answer, nor
  does a location without its flag (`ReadBackSettlesIff`); and reading into a missing configuration is lost
  (`PopulateHostedCluster`).
* Waiting for compute nodes reports success without a cluster when the first request fails with anything but
  "not found" (`WaitForStdComputeNodesToBeReady`).

## Assumptions

* Version parsing and comparison are libraries: hashicorp/go-version for upgrades, Masterminds/semver for
  version selection. On the versions that occur both are taken to order as section 11 of Semantic Versioning
  2.0.0 does, written out in `Semver`. The parser is a parameter, and the text the library writes for a version
  it has read must be read as a version of the same precedence (`RoundTrips`).
* The server may accept a policy for any version, also one that is not above the version running, and also while
  gates are missing; no check of its own is relied on.
* The server gives an added policy the kind that the provider later looks for, and lists a policy once.
* Policies on the server move forward only: pending, scheduled, started or delayed, then completed, cancelled or
  failed; a completed upgrade is the version running.
* Nobody but the provider adds policies of the kind; others may add policies of other kinds, and delete (`Progress`).
  For convergence request by request, nobody takes the upgrade away while the call lasts, none that is active
  slips past its listing, and the id of a listed policy is not given to a policy of another kind
  (`UpgradeConvergence.Steady`).
* For the refusal of a node pool outside the default channel group: a version with the name of the group behind it
  reads as a lower one, and no enabled upgrade leads to the version running (`SeenBelowItself`).
* A request is either answered or its answer is lost, which the servers of the model count (`lost`); the provider
  cannot tell a lost answer from a request that never arrived.
* The htpasswd listing returns every user; deleting or changing an unknown id fails, and so does adding a name
  that is taken.
* A properties map that is sent replaces the one on the server; a registry patch replaces the fields it sets.
* The sort of the standard library gives a permutation, ordered when the comparison is a weak order.

## Model

| member | source | states |
|---|---|---|
| Semver.PrecedenceIsTotalPreorder | provider/clusterrosa/classic/cluster_rosa_classic_resource.go:1252-1275 | The order all comparisons rest on, which is that of section 11 (`PrecedenceIffSectionEleven`), is a total preorder: reversal flips it, chains compose, strictly when a link is strict. |
| Semver.EqualVersionsCompareAlike | provider/clusterrosa/classic/upgrade/cluster_upgrade.go:148-153 | Versions that compare equal are interchangeable in every comparison and have the same minor version. |
| Semver.PrecedenceIffSectionEleven | provider/clusterrosa/classic/cluster_rosa_classic_resource.go:1252-1275 | The comparison is section 11 of Semantic Versioning, in its own words: lower numbers first in order of major, minor and patch, then a pre-release below its release, then the first identifier that differs. |
| VersionId.VersionIdRoundTrip | provider/clusterrosa/classic/cluster_rosa_classic_resource.go:1728-1757 | Reading the version back and rebuilding the id gives the server's id, exactly unless the group is the default one and the version ends in its name. |
| VersionId.DefaultSuffixIsInTheVersion | provider/clusterrosa/classic/cluster_rosa_classic_resource.go:1742-1752 | The default suffix cannot straddle the prefix: the id ends in it only if the version does. |
| VersionId.NodePoolKeepsTheChannelGroup | provider/machinepool/hcp/machine_pool_resource.go:1298-1308 | A node pool read gives the version back exactly for the default channel group. |
| UpgradePolicies.OfKindSelects | provider/clusterrosa/classic/upgrade/cluster_upgrade.go:112-128 | Filtering by kind keeps exactly the policies of that kind. |
| UpgradePolicies.OfKindOfConcatenation | provider/clusterrosa/classic/upgrade/cluster_upgrade.go:112-128 | Filtering keeps the order of the list. |
| UpgradePolicies.OfKindKeepsDistinctIds | provider/clusterrosa/classic/upgrade/cluster_upgrade.go:112-128 | Filtering repeats no policy. |
| UpgradePolicies.MinorTextWrites | provider/clusterrosa/classic/cluster_rosa_classic_resource.go:787-795 | What the user writes down is the major and the minor number in decimal, without leading zeros, and a point in between. |
| UpgradePolicies.MinorTextIsSameIff | provider/clusterrosa/classic/cluster_rosa_classic_resource.go:787-795 | What the user writes down is the same for two versions exactly if they have the same major and minor version. |
| UpgradeServer.PolicyServer.ListingIsComplete | provider/clusterrosa/classic/upgrade/cluster_upgrade.go:91-109 | The server's listing holds every policy exactly once. |
| UpgradeServer.UnackedSelects | provider/clusterrosa/classic/upgrade/cluster_upgrade.go:218-244 | The gates missing are exactly the required ones that are not acknowledged. |
| UpgradeServer.AckingTheMissingGatesLeavesNone | provider/clusterrosa/classic/upgrade/cluster_upgrade.go:218-244 | Once every gate reported missing is acknowledged, none is missing. |
| Paging.PageContinues | provider/clusterrosa/classic/upgrade/cluster_upgrade.go:97-109 | Each page continues the ones before it, and a short page is the last. |
| Paging.RemovalBetweenPagesIsSeenIff | provider/machinepool/hcp/upgrade/upgrade.go:79-103 | When an item vanishes between two page reads, at any page, everything left is still seen exactly when it was on none of the pages already read. |
| UpgradeProtocol.ListAllPages | provider/clusterrosa/classic/upgrade/cluster_upgrade.go:91-109 | The page loop returns the whole listing after N/100 + 1 requests and only reads; it fails exactly when an answer is lost. |
| UpgradeProtocol.ReadStates | provider/clusterrosa/classic/upgrade/cluster_upgrade.go:111-130 | Each policy of the kind gets one state request, in order; other kinds get none; it fails exactly when an answer is lost. |
| UpgradeProtocol.GetScheduledUpgrades | provider/clusterrosa/classic/upgrade/cluster_upgrade.go:88-131 | Success gives exactly the policies of the kind, in order, none lost and no id repeated; the exact requests sent; it fails exactly when an answer is lost. Same code at hcp/upgrade/upgrade.go:68 and machinepool/hcp/upgrade/upgrade.go:79. |
| UpgradeProtocol.CheckAndCancelUpgrades | provider/clusterrosa/classic/upgrade/cluster_upgrade.go:136-164 | On every exit: which policies were asked to be deleted and which are gone; on success no unwanted one waits, none is under way elsewhere, and the result says whether a wanted one exists. It stops at the first policy that cannot be read or is under way elsewhere, and reports an API failure exactly when an answer is lost. |
| UpgradeProtocol.ScheduleUpgrade | provider/clusterrosa/classic/cluster_rosa_classic_resource.go:1345-1398 | What is sent is a prefix of dry run, acknowledgements, add; the policy added runs ten minutes from its scheduling; refusal for a missing acknowledgement happens exactly when some gate needs the user and the user's text is not the target minor version; an API failure exactly when the refusal is no list of gates or another answer is lost; success leaves no gate missing exactly if the dry run was answered or none was missing before. |
| UpgradeProtocol.NeedsUser | provider/clusterrosa/classic/cluster_rosa_classic_resource.go:1355-1361 | The user must acknowledge exactly when there is a gate that is not STS-only. |
| UpgradeProtocol.AcknowledgeAll | provider/clusterrosa/classic/cluster_rosa_classic_resource.go:1368-1379 | Acknowledges the gates in order and stops at the first failure; nothing acknowledged is lost. |
| UpgradeProtocol.GateDiscipline | provider/clusterrosa/hcp/resource.go:1333-1386 | A policy is added only after every reported gate was acknowledged; when a gate needs the user, nothing is acknowledged or added without the exact minor version; no other gate is ever acknowledged. |
| UpgradeProtocol.WholeScheduleLog | provider/clusterrosa/classic/cluster_rosa_classic_resource.go:1344-1398 | The whole log of an answered call: dry run, every gate in order, the policy; and only the dry run when some gate is not STS-only and the text does not match, or the refusal cannot be read. |
| UpgradeCall.GetAvailableUpgradeVersions | provider/clusterrosa/classic/upgrade/cluster_upgrade.go:60-85 | Success gives exactly the enabled versions among the available upgrades, in order; it fails exactly when an answer is lost or the server does not know one of the versions. |
| UpgradeCall.EnabledSelects | provider/clusterrosa/classic/upgrade/cluster_upgrade.go:69-82 | A version is selected exactly when it is enabled and stands in the catalog under one of the ids. |
| UpgradeCall.EnabledOfConcatenation | provider/clusterrosa/classic/upgrade/cluster_upgrade.go:69-82 | They come in the order of the available upgrades. |
| UpgradeCall.OfferedIff | provider/clusterrosa/classic/cluster_rosa_classic_resource.go:1306-1335 | A version is offered exactly when an upgrade from the stored version, in the stored channel group or "stable", is known to the server, enabled, and of that precedence. |
| UpgradeCall.ValidateUpgrade | provider/clusterrosa/classic/cluster_rosa_classic_resource.go:1306-1342 | Succeeds only if the desired version is among the enabled upgrades, and reports it missing only if it is not; an API failure exactly when an answer is lost or a version unknown, and an unreadable version only if there is one. |
| UpgradeCall.CancellingIsACallEffect | provider/machinepool/hcp/upgrade/upgrade.go:127-161 | However far the walk got, what is gone waited, was of this kind, and was for another version or not due within ten minutes. |
| UpgradeCall.OnlyWantedRemain | provider/clusterrosa/hcp/upgrade/upgrade.go:115-148 | After a whole walk the active policies are the wanted ones; without a wanted one none is active. |
| UpgradeCall.SettledNeedsNoCancelling | provider/clusterrosa/classic/upgrade/cluster_upgrade.go:152-160 | On a settled server there is nothing to cancel at any later time, and a due upgrade is found. |
| UpgradeCall.AddedPolicyIsWantedLater | provider/clusterrosa/classic/cluster_rosa_classic_resource.go:1381-1387 | A policy scheduled ten minutes ahead is wanted at a later call exactly when that call is strictly later. |
| UpgradeCall.ListAndCancel | provider/clusterrosa/classic/cluster_rosa_classic_resource.go:1283-1293 | The listing and the walk together, as an effect on the policy table. |
| UpgradeCall.Reconcile | provider/clusterrosa/classic/cluster_rosa_classic_resource.go:1283-1301 | List, cancel, schedule: effect on every exit, success postcondition, nothing but reads on a settled server; a policy is added exactly when one was due and none wanted; gates are acknowledged and the policy added only as the answer to the dry run and the plan's own acknowledgement allow; each error has its cause, an API failure a lost answer or a refusal. |
| UpgradeCall.ValidateAndReconcile | provider/machinepool/hcp/machine_pool_resource.go:898-936 | The policy API is contacted only for the current version or for one found among the enabled upgrades; a call that does not get that far leaves the policies as they were, was for another version than the current one, and says why. |
| UpgradeCall.UpgradeIfNeeded | provider/clusterrosa/classic/cluster_rosa_classic_resource.go:1229-1304 | Which inputs do nothing, which are refused, and otherwise the effect of the whole call, made only for the current version or an enabled upgrade, with the cause of each error; the state changes only on success. |
| UpgradeCall.VersionsRead | provider/clusterrosa/classic/cluster_rosa_classic_resource.go:1229-1264 | Both versions are needed, neither blank; a classic cluster's plan may carry the version prefix, which makes no difference. |
| UpgradeCall.EachResourceKeepsToItsKind | provider/clusterrosa/classic/upgrade/cluster_upgrade.go:112-117 | What a call changes are policies of its own kind: OSD for a classic cluster, control plane or node pool for the others. |
| UpgradeRuns.ServerMoveIsSafe | provider/clusterrosa/classic/upgrade/cluster_upgrade.go:146-162 | Server moves keep safety and never lower the running version. |
| UpgradeRuns.CallIsSafeIff | provider/clusterrosa/classic/cluster_rosa_classic_resource.go:1252-1299 | By what holds before it, whatever version it had cached: a call is safe when none is to be added or the desired version is above the one running, and a successful call only then. |
| UpgradeRuns.StaleCallGoesBelow | provider/clusterrosa/classic/cluster_rosa_classic_resource.go:1252-1275 | With a stale cached version every successful call on a server without policies schedules a version below the running one. |
| UpgradeRuns.StaleCallCanSucceed | provider/clusterrosa/classic/cluster_rosa_classic_resource.go:1252-1275 | Such a call, with the three requests it sends (one page, the dry run, the policy) and what it leaves, with all that is promised of a successful one. |
| UpgradeRuns.RunsAreSafe | provider/clusterrosa/classic/cluster_rosa_classic_resource.go:1229-1304 | Over every run of fresh calls and server moves: one active policy at most, strictly above the running version, which never decreases. |
| UpgradeRuns.MovesStayOnCourse | provider/clusterrosa/classic/upgrade/cluster_upgrade.go:146-154 | Unhindered moves keep what a successful call established. |
| UpgradeRuns.UpgradeCanRunItsCourse | provider/clusterrosa/classic/upgrade/cluster_upgrade.go:146-162 | Unhindered moves can take a waiting policy through every state to its end, and then its version is the one running. |
| UpgradeRuns.Convergence | provider/clusterrosa/classic/upgrade/cluster_upgrade.go:138-160 | After a successful call and any unhindered moves the server is settled for the same version at every strictly later time. |
| UpgradeRuns.SuccessSetsOnCourse | provider/clusterrosa/classic/cluster_rosa_classic_resource.go:1275-1304 | A successful call judged by the version running sets the server on course for the desired one. |
| UpgradeRuns.SecondCallOnlyReads | provider/clusterrosa/classic/upgrade/cluster_upgrade.go:138-160 | After a successful call and any unhindered moves, a second call with the same plan at a strictly later time changes nothing and sends only reads; it reports an API failure exactly when an answer is lost, and otherwise fails only over an old policy whose version cannot be read. |
| UpgradeRuns.ReadIsFreshIff | provider/clusterrosa/hcp/resource.go:1679-1690 | A read stores the version running exactly for the default channel group on a node pool, and on a cluster exactly unless the group is the default one and the version ends in its name. |
| UpgradeRuns.RefreshAndUpgrade | provider/clusterrosa/hcp/resource.go:1225-1297 | A read that stores the version running and an upgrade call are a step of a run, keep safety, set the server on course when they succeed, and only read when it is settled. An API failure is a lost answer, an unknown version or a refused dry run. A node pool outside the default channel group is refused a plan it has reached; in that group such a plan fails only over a lost answer or an unreadable old policy. The node pool's read is at machinepool/hcp/machine_pool_resource.go:1298. |
| UpgradeInterleaving.RemovalIsQuietIff | provider/clusterrosa/classic/upgrade/cluster_upgrade.go:97-109 | A policy that vanishes while the pages are read makes an active one slip past the listing exactly when it was on a page already read and the first policy still unread is active and of the kind. |
| UpgradeInterleaving.ShortListsAreQuiet | provider/clusterrosa/classic/upgrade/cluster_upgrade.go:97-109 | With at most 100 policies no active one ever slips past the listing, although exactly 100 make the call ask for a second page. |
| UpgradeInterleaving.AnyAnswerMayBeLost | provider/clusterrosa/classic/cluster_rosa_classic_resource.go:1283-1299 | Losing an answer ends the call, with or without what was asked for. |
| UpgradeInterleaving.StepKeepsInv | provider/clusterrosa/classic/upgrade/cluster_upgrade.go:88-164 | No single request, page by page, or server move makes a second policy active, unless an active one slips past the listing. |
| UpgradeInterleaving.InterleavingsKeepOneActive | provider/clusterrosa/classic/cluster_rosa_classic_resource.go:1283-1301 | With the server moving between any two requests of any number of calls, at most one policy is active, provided no active one of the kind slips past a listing. |
| UpgradeInterleaving.ShortListsKeepOneActive | provider/clusterrosa/classic/cluster_rosa_classic_resource.go:1283-1301 | With at most 100 policies that holds without a proviso. |
| UpgradeDisturbance.ScheduledPolicyIsAloneIff | provider/clusterrosa/classic/cluster_rosa_classic_resource.go:1380-1396 | The policy added, its request answered or not, is the only active one exactly when none was active before. |
| UpgradeDisturbance.RunKeepsOneActiveIff | provider/clusterrosa/classic/cluster_rosa_classic_resource.go:1283-1301 | In any interleaved run, whatever slips past its listings, at most one policy is ever active exactly when every policy scheduled found none active at that moment. |
| UpgradeDisturbance.OnePageIsSafeIff | provider/clusterrosa/classic/upgrade/cluster_upgrade.go:91-109 | For any bound on the number of policies: every interleaved run within it keeps at most one active exactly if the bound is at most one page, 100. |
| UpgradeDisturbance.ScheduledPolicyIsSafeIff | provider/clusterrosa/classic/cluster_rosa_classic_resource.go:1380-1396 | The policy added, its request answered or not, keeps the server safe exactly when at that moment the desired version is still above the running one and no policy is active. |
| UpgradeDisturbance.RunIsSafeIff | provider/clusterrosa/classic/cluster_rosa_classic_resource.go:1283-1301 | Every state of any interleaved run from a safe start is safe exactly when every policy scheduled in it was for a version above the one then running and found none active. |
| UpgradeDisturbance.RunsWithoutCompletionDuringCallsAreSafe | provider/clusterrosa/classic/cluster_rosa_classic_resource.go:1252-1301 | Interleaved runs are safe when no upgrade completes between the beginning and the end of a call and no active policy slips past a listing. |
| UpgradeDisturbance.CompletionDuringACallIsRepeated | provider/clusterrosa/classic/upgrade/cluster_upgrade.go:111-128 | A run in which an upgrade completes between listing and state request, and is scheduled again. |
| UpgradeDisturbance.RepeatingRun | provider/clusterrosa/classic/upgrade/cluster_upgrade.go:111-128 | The nine states of that run, each a step from the one before. |
| UpgradeDisturbance.SlippedPolicyIsDoubled | provider/clusterrosa/classic/upgrade/cluster_upgrade.go:97-109 | A run with 101 policies, never more, in which one slips past the listing and a second becomes active beside it. |
| UpgradeDisturbance.StartedPolicyIsDeletedIff | provider/clusterrosa/classic/upgrade/cluster_upgrade.go:152-160 | The policy a walk deletes, its request answered or not, is in progress exactly when it has started since its state was read and has not ended; it is gone afterwards. |
| UpgradeDisturbance.StartedPolicyCanBeDeleted | provider/clusterrosa/classic/upgrade/cluster_upgrade.go:111-160 | A run in which a policy starts between the reading of its state and its deletion, whose answer may be lost. |
| UpgradeConvergence.SettledCallDeletesNothing | provider/clusterrosa/classic/upgrade/cluster_upgrade.go:138-160 | A call on a settled server, request by request with unhindered moves in between, deletes nothing, also when it fails midway, provided no active policy slips past its listing. |
| UpgradeConvergence.SettledCallAddsOnlyAfterAChange | provider/clusterrosa/classic/cluster_rosa_classic_resource.go:1283-1301 | Such a call schedules a policy only when the version running has changed since it began. |
| UpgradeRefinement.RequestsStayDuring | provider/clusterrosa/classic/upgrade/cluster_upgrade.go:140-163 | Each request, answered or not, takes the call to the next of the states it passes through when undisturbed. |
| UpgradeRefinement.GivingUpStaysDuring | provider/clusterrosa/classic/cluster_rosa_classic_resource.go:1283-1299 | Giving up at any stage leaves a call's effect. |
| UpgradeRefinement.UndisturbedCallHasItsEffect | provider/clusterrosa/classic/cluster_rosa_classic_resource.go:1283-1301 | Run request by request without a server move, a call has exactly the kind of effect that whole runs assume. |
| KeyedMutex.MutexKV.constructor | provider/common/mutex.go:20-24 | A new store is empty. |
| KeyedMutex.MutexKV.Get | provider/common/mutex.go:26-35 | A key keeps its mutex; a new key gets a fresh one; different keys never share one; by its ids the store changes as the steps of KubeletCreate take it to. |
| KubeletCreate.MutualExclusion | provider/kubeletconfig/kubeletconfig_resource.go:115-116 | Two processes past the lock work on different clusters. |
| KubeletCreate.StepKeepsInv | provider/kubeletconfig/kubeletconfig_resource.go:106-165 | Every step of every process, and every unlocked update or deletion, keeps the invariant and rebinds no key. |
| KubeletCreate.RunsKeepInv | provider/kubeletconfig/kubeletconfig_resource.go:106-165 | The invariant holds in every state of every run. |
| KubeletCreate.AtMostOneConfig | provider/kubeletconfig/kubeletconfig_resource.go:134-158 | A cluster that is not hosted never has more than one config, and a list found empty is still empty at the create. |
| KubeletCreate.CreateCanSucceed | provider/kubeletconfig/kubeletconfig_resource.go:153-158 | A process at its create can add a config, whatever the cluster and the other processes. |
| KubeletCreate.ListStopsTheCreateIff | provider/kubeletconfig/kubeletconfig_resource.go:134-145 | On its own a ready process can come to its create exactly if its cluster is hosted or has no config. |
| KubeletCreate.LoneProcessCreates | provider/kubeletconfig/kubeletconfig_resource.go:106-165 | A single process creates the config of a cluster that has none, hosted or not, and comes to its end. |
| KubeletCreate.FailureLeadsToTheUnlock | provider/kubeletconfig/kubeletconfig_resource.go:115-158 | Any request may fail, which leads straight to the deferred unlock. |
| KubeletCreate.HostedClustersMayHaveMore | provider/kubeletconfig/kubeletconfig_resource.go:134-145 | For a hosted cluster the bound does not hold: a run from the beginning in which a single process creates a second config. |
| KubeletCreate.StoreNeverRebinds | provider/common/mutex.go:26-35 | Over every run a bound key keeps its mutex. |
| KubeletCreate.UnlockReleasesWhatLockTook | provider/common/mutex.go:12-18 | The deferred unlock releases the mutex that this process locked and holds. |
| KubeletCreate.OnlyTheSameClusterBlocks | provider/common/mutex.go:12-35 | Waiting for a mutex means waiting for a process of the same cluster; waiting in `get` means waiting for one that cannot block. |
| KubeletCreate.AnUnblockedProcessCanStep | provider/kubeletconfig/kubeletconfig_resource.go:115-165 | Nothing but the two kinds of lock ever stops an unfinished process. |
| KubeletCreate.NoDeadlock | provider/common/mutex.go:7-35 | While some process is unfinished some process can step, and every step brings it nearer to its end. |
| KubeletCreate.RunsAreShort | provider/kubeletconfig/kubeletconfig_resource.go:106-165 | In every run the processes make at most ten steps each, whatever updates and deletions interleave. |
| KubeletCreate.AllCanFinish | provider/common/mutex.go:7-35 | Every run can be continued until all processes are at their end. |
| HtPasswd.HtPasswdUserListToStringMaps | provider/identityprovider/htpasswd.go:127-150 | The map holds exactly the listed users, the last password of each, and id and name exactly for those on the server; it fails exactly when the answer is lost. |
| HtPasswd.LastEntryWins | provider/identityprovider/htpasswd.go:134-141 | Exactly the listed names have a password, and the last entry for a name gives it. |
| HtPasswd.KeepListed | provider/identityprovider/htpasswd.go:142-149 | Users of the server that are not listed are dropped. |
| HtPasswd.UserServer.Delete | provider/identityprovider/htpasswd/api.go:9-14 | A deletion removes the user of the id; it fails exactly when there is none or the answer is lost. |
| HtPasswd.UserServer.Update | provider/identityprovider/htpasswd/api.go:16-25 | A change sets the password of the user of the id and keeps the id; it fails exactly when there is none or the answer is lost. |
| HtPasswd.UserServer.Add | provider/identityprovider/htpasswd/api.go:27-36 | A new name gets a new id; it fails exactly for a taken or blank name or when the answer is lost. |
| HtPasswd.DeleteUserFromState | provider/identityprovider/htpasswd/helpers.go:28-47 | In any order, success deletes exactly the leaving users, all of whom the server had; an error leaves only such users deleted; with every request answered it succeeds exactly when the server has them all. |
| HtPasswd.PatchOrAddUserInState | provider/identityprovider/htpasswd/helpers.go:49-70 | In any order, success gives exactly the changed and new users their planned password; on every exit nobody outside the plan is touched and every other user is as before or has the planned password; with every request answered it succeeds exactly when the new names are neither taken nor blank. |
| HtPasswd.LeavingUsersLeftThePlan | provider/identityprovider/htpasswd/helpers.go:36-44 | The delete pass can only succeed when the server had every user of the state, and then deletes exactly state minus plan. |
| HtPasswd.UserAfterUpdate | provider/identityprovider/htpasswd/helpers.go:53-68 | For each user where a successful update differs from the target: a password the plan left alone that had drifted on the server. |
| HtPasswd.UpdateReachesTargetIff | provider/identityprovider/htpasswd.go:152-207 | The table ends as (server minus state without plan) overlaid with the plan exactly when the server agreed with the state about the unchanged users. |
| HtPasswd.NothingToDoIff | provider/identityprovider/htpasswd.go:154-156 | Equal user lists send nothing, which is right exactly when the server was in sync. |
| HtPasswd.UpdateHTPasswd | provider/identityprovider/htpasswd.go:152-207 | The same for the whole update over every order of both passes, and with every request answered it succeeds exactly when the lists are equal, or the server has every user of the state and takes the new names. On every exit each user is as before, has its planned password, or is gone because only the state had it: no planned user is ever lost, and users outside state and plan are untouched. |
| HtPasswd.RunsReachTheLastPlan | provider/identityprovider/htpasswd.go:152-207 | From a server that holds the first plan, any run of updates stays in sync and ends with exactly the last plan's users and passwords among those any plan mentions, everyone else as before. |
| Properties.ClusterState.Populate | provider/clusterrosa/classic/cluster_rosa_classic_resource.go:1492-1513 | A read splits the server's map into the user's part and the whole; no map in the answer leaves the state. |
| Properties.CreateProperties | provider/clusterrosa/classic/cluster_rosa_classic_resource.go:523-566 | A new cluster gets the reserved properties with the user's on top, and is refused exactly for a missing or malformed creator in the user's map. |
| Properties.SameSizeAndIncluded | provider/clusterrosa/classic/cluster_rosa_classic_resource.go:1818-1830 | Equal size and inclusion make two maps equal, which is how the defaults are compared. |
| Properties.ShouldPatchProperties | provider/clusterrosa/classic/cluster_rosa_classic_resource.go:1804-1832 | False exactly when the plan equals the state and the extracted defaults equal the reserved map. |
| Properties.UpdateProperties | provider/clusterrosa/classic/cluster_rosa_classic_resource.go:1166-1181 | The patch is the plan with the reserved keys on top; a changed creator draws a warning and is patched all the same; no plan, no patch. |
| Properties.ReadsUpToDateIff | provider/clusterrosa/hcp/resource.go:1480-1501 | After a read nothing is to be patched exactly when the server holds the plan and the reserved properties and the two share no key. |
| Properties.UpdateSettlesIff | provider/clusterrosa/hcp/resource.go:1775-1803 | Patch and read-back settle a plan exactly when it uses no reserved key; without a plan, when the server held only the reserved properties. |
| Properties.CreationSettlesIff | provider/clusterrosa/classic/cluster_rosa_classic_resource.go:523-566 | Creation settles exactly such plans; on a reserved key it keeps the user's value and the next update overwrites it. |
| Properties.SentOnceOrForever | provider/clusterrosa/classic/cluster_rosa_classic_resource.go:1166-1181 | Applied again and again, a plan is sent at most once, and never if the server holds it; a plan with a reserved key is sent every time. |
| Tags.FilterClusterTagsNotPresentInNpInput | provider/machinepool/classic/machine_pool_resource.go:1179-1201 | With its early returns: the server's tags minus the cluster's keys that are not configured. |
| Tags.MachinePoolState.Populate | provider/machinepool/classic/machine_pool_resource.go:1160-1174 | The state after a read; an empty result leaves it as it was. |
| Tags.OwnTagsAreTheUsers | provider/machinepool/hcp/machine_pool_resource.go:1314-1336 | From cluster tags overlaid with the user's, exactly the user's come out. |
| Tags.UserTagsStay | provider/machinepool/classic/machine_pool_resource.go:1160-1201 | The user's tags are a fixed point over any run of reads, with changing cluster tags. |
| Tags.ReadingAgainChangesNothing | provider/machinepool/classic/machine_pool_resource.go:1160-1201 | From any state, reading the same answer twice is reading it once. |
| Tags.ReadShowsTheServerIff | provider/machinepool/classic/machine_pool_resource.go:1168-1173 | A read shows the pool's own tags exactly unless the server has lost all of them while the state had some. |
| NoProxy.RemoveNoProxyZeroEgressDefaultDomains | provider/proxy/utils.go:18-34 | For any separator: split, filter, and join with commas. |
| NoProxy.JoinOfSplit | provider/proxy/utils.go:19-33 | Joining undoes splitting, whatever the separator. |
| NoProxy.SplitIsThorough | provider/proxy/utils.go:19 | No piece contains the separator. |
| NoProxy.SplitOfJoin | provider/proxy/utils.go:19-33 | Splitting undoes joining a non-empty list of comma-free entries. |
| NoProxy.SurvivorsMatchNothing | provider/proxy/utils.go:21-32 | The survivors are exactly the entries that none of the formats matches. |
| NoProxy.SurvivorsOfConcatenation | provider/proxy/utils.go:21-32 | Order and repetitions are kept. |
| NoProxy.CleanKeepsSurvivors | provider/proxy/utils.go:18-34 | The cleaned list splits into exactly the survivors, or is empty when all were removed. |
| NoProxy.CleanIsIdentityIff | provider/proxy/utils.go:18-34 | The list is unchanged exactly when nothing in it matches. |
| NoProxy.CleanIsIdempotent | provider/proxy/utils.go:18-34 | Cleaning twice is cleaning once, also when everything was removed. |
| VersionSelection.SortSlice | provider/clusterrosa/common/types/cluster.go:122-130 | A permutation always; descending when every version parses. |
| VersionSelection.ReadAllPages | provider/clusterrosa/common/types/cluster.go:89-120 | All offered versions, in N/100 + 1 requests; it fails exactly when an answer is lost. |
| VersionSelection.GetVersions | provider/clusterrosa/common/types/cluster.go:89-133 | The offered versions of the channel group, sorted. |
| VersionSelection.GetVersionList | provider/clusterrosa/common/types/cluster.go:71-87 | Their raw ids, in that order; an error is a lost answer or, exactly, an empty list. |
| VersionSelection.FirstIsGreatest | provider/clusterrosa/common/types/cluster.go:54-57 | The first of the sorted list has no offered version above it. |
| VersionSelection.OfferedIff | provider/clusterrosa/common/types/cluster.go:92-100 | Offered are exactly the enabled versions of the channel group that are enabled for ROSA and, for a hosted cluster, for hosted control planes. |
| VersionSelection.GetAndValidateVersionInChannelGroup | provider/clusterrosa/common/types/cluster.go:46-67 | A requested version is returned unchanged and refused only if not offered; without a request the greatest offered version over all pages is returned; a failed request exactly when an answer is lost. |
| RegistryConfig.ShouldPatchRegistryAllowedForImport | provider/registry_config/helpers.go:129-157 | The compare loop is false exactly when both lists are absent or equal entry by entry. |
| RegistryConfig.FillAllowedRegistriesForImport | provider/registry_config/helpers.go:102-110 | The locations are sent in order, each with its domain, empty when it has none, and insecure only when the plan says so. |
| RegistryConfig.UpdateRegistryConfigBuilder | provider/registry_config/state.go:83-136 | The patch for a state and a plan, and that building it crashes exactly when the plan is missing and the state has import locations. |
| RegistryConfig.PatchIsEmptyIff | provider/registry_config/state.go:88-96 | Nothing is sent exactly when all lists, maps and locations agree and the plan's allowlist id is absent or equal. |
| RegistryConfig.PatchSendsTheChangesOnly | provider/registry_config/state.go:88-136 | Each part is sent exactly when it differs from the state, with the plan's value; the insecure list only when the plan has one. |
| RegistryConfig.PatchReachesThePlanIff | provider/registry_config/helpers.go:88-100 | The patched server holds the plan exactly unless the plan drops the insecure list while the server has one. |
| RegistryConfig.ConvertCaMapToMapType | provider/registry_config/state.go:226-242 | The keys of the answer, with the value of the state where it has one. |
| RegistryConfig.CertificateIsKept | provider/registry_config/state.go:226-242 | Over any run of reads a certificate keeps its value as long as its key is in every answer. |
| RegistryConfig.RedactedAnswersNeedNoPatch | provider/registry_config/helpers.go:159-171 | Answers with the plan's keys never call for a patch, whatever values they carry. |
| RegistryConfig.OmittedCertificateIsLost | provider/registry_config/state.go:229-236 | After an answer without the key, the next one with it brings the server's value into the state. |
| RegistryConfig.PopulateRegistryConfigState | provider/registry_config/state.go:140-224 | The state after a read: missing parts stay, but missing import locations become absent. |
| RegistryConfig.ReadShowsTheServerIff | provider/registry_config/state.go:140-224 | Whatever the state had, a read shows each list of the server exactly if the answer has it or the state had none, and the import locations, flags and allowlist the answer has. |
| RegistryConfig.PopulateHostedCluster | provider/clusterrosa/hcp/resource.go:1703 | A cluster state without a registry configuration has none after the read either, whatever the answer. |
| RegistryConfig.FillLocations | provider/registry_config/state.go:175-191 | A location without a domain is empty; one without the flag is read as secure. |
| RegistryConfig.ReadBackSettlesIff | provider/registry_config/helpers.go:129-157 | On a server that holds the plan, reading back calls for no patch exactly if the answer has import locations just when the plan has and the plan leaves no field of them open. |
| RegistryConfig.ReadLocationsAgreeIff | provider/registry_config/state.go:175-191 | Locations come back as planned exactly if both fields of each were given. |
| Waiter.WaitForClusterToBeReady | provider/common/cluster_waiter.go:76-128 | At most three polls, thirty seconds apart, all but the last failures: polling stops at the first final state. No error exactly when the cluster returned, the last one shown, is ready. |
| Waiter.WaitForStdComputeNodesToBeReady | provider/common/cluster_waiter.go:34-74 | The same polls; no error exactly when the cluster returned has all its nodes or the first request failed for another reason than a missing cluster, and then without a cluster. |
| Waiter.PausesAddUp | provider/clusterrosa/classic/cluster_rosa_classic_resource.go:1768-1774 | Doubling pauses before n tries add up to 2^(n-1) - 1 times the first. |
| Waiter.RetryClusterNotFoundWithTimeout | provider/clusterrosa/classic/cluster_rosa_classic_resource.go:1768-1780 | At least one try, at most as many as asked for, all but the last failures; it fails only when all did; the exact time slept. |

## Left out

- Schemas, metadata, configuration, descriptions, logging and the text of diagnostics.
- HTTP transport, builders of the SDK, decoding, password hashing and thumbprints: requests are abstract and may fail.
- Regular expressions: formats and the check of a creator ARN are parameters.
- Field-by-field copying in the large create and populate functions, autoscaler, ingress and most identity providers.
- The checks of replicas, zones and disks, and the redacted plan modifier.
- HCP machine pool creation, which reports both replicas and autoscaling as an error and goes on.
- Data sources, group membership, image mirrors and DNS domains.
- RefreshAndUpgrade: takes the upgrade call as one step with respect to server moves; UpgradeInterleaving takes it apart and UpgradeRefinement relates the two.
- UpgradeInterleaving.StepKeepsInv: gate requests, which do not touch policies, are no steps.
- PrecedenceIsTotalPreorder: is proved of the order of section 11; the code of the two version libraries is not part of this model.
- Convergence: assumes that nobody takes the scheduled upgrade away meanwhile (`Unhindered`).
- ScheduleUpgrade: does not model the fallback of getOcmVersionMinor for text that does not parse, because the text comes from the version library itself.
- UpdateRegistryConfigBuilder: returns the contents of its builder rather than the builder.
- PopulateRegistryConfigState: does not model an allowlist link that is no valid URL, and takes the id out of the link as given.
- UpdateHTPasswd: does not model a users list longer than one page of the server's answer, because the request asks for no page.
- FilterClusterTagsNotPresentInNpInput: does not model tag values that are unknown or not text.
- NoDeadlock: says that some process can step, not that the scheduler is fair; KubeletCreate interleaves on values, its store changing by the functions that KeyedMutex.MutexKV.Get is proved against.
- WaitForClusterToBeReady: does not model the interval and timeout inside one poll, which belong to the SDK.
