/** One upgrade call of a resource, and what it may do to the server. */
module UpgradeCall {
  import opened Wrappers
  import opened Semver
  import opened VersionId
  import opened UpgradePolicies
  import opened UpgradeServer
  import opened UpgradeProtocol

  class ResourceState {
    var version: Attribute<string>
    var currentVersion: Attribute<string>
    var channelGroup: Attribute<string>
    var upgradeAcksFor: Attribute<string>
  }

  // Available versions

  /** The enabled versions among those with the given ids. */
  function Enabled(catalog: map<string, VersionInfo>, versions: seq<string>, channelGroup: string): seq<VersionInfo> {
    if versions == [] then []
    else
      var (front, id) := (Enabled(catalog, versions[..|versions| - 1], channelGroup),
          CreateVersionId(versions[|versions| - 1], channelGroup));
      if id in catalog && catalog[id].enabled then front + [catalog[id]] else front
  }

  predicate Shows(catalog: map<string, VersionInfo>, id: string, v: VersionInfo) {
    id in catalog && catalog[id] == v
  }

  /** Exactly the catalog's enabled entries for the ids are selected. */
  lemma {:induction false} EnabledSelects(catalog: map<string, VersionInfo>, versions: seq<string>,
                                          channelGroup: string, v: VersionInfo)
    ensures v in Enabled(catalog, versions, channelGroup) <==>
              v.enabled && exists text :: text in versions && Shows(catalog, CreateVersionId(text, channelGroup), v)
  {
    if versions != [] {
      var n := |versions| - 1;
      EnabledSelects(catalog, versions[..n], channelGroup, v);
      assert versions == versions[..n] + [versions[n]];
      var id := CreateVersionId(versions[n], channelGroup);
      assert Shows(catalog, id, v) <==> id in catalog && catalog[id] == v;
    }
  }

  /** In the order of the ids. */
  lemma {:induction false} EnabledOfConcatenation(catalog: map<string, VersionInfo>, a: seq<string>, b: seq<string>,
                                                  channelGroup: string)
    ensures Enabled(catalog, a + b, channelGroup) ==
            Enabled(catalog, a, channelGroup) + Enabled(catalog, b, channelGroup)
  {
    if b == [] {
      assert a + b == a;
    } else {
      var n := |b| - 1;
      EnabledOfConcatenation(catalog, a, b[..n], channelGroup);
      assert (a + b)[..|a| + n] == a + b[..n] && (a + b)[|a| + n] == b[n];
    }
  }

  /** The version the available upgrades are looked up from: by id for a classic cluster, from the
      cluster or node pool itself otherwise. */
  function UpgradeSource(server: PolicyServer, variant: Variant, currentVersion: string,
                         channelGroup: string): Option<VersionInfo>
  {
    if !variant.ClassicCluster? then Some(server.upgradesFromCurrent)
    else
      var id := CreateVersionId(currentVersion, channelGroup);
      if id in server.catalog then Some(server.catalog[id]) else None
  }

  /** The server has no entry for a version it is asked about. */
  predicate CatalogGap(server: PolicyServer, variant: Variant, currentVersion: string, channelGroup: string) {
    match UpgradeSource(server, variant, currentVersion, channelGroup)
    case None => true
    case Some(source) =>
      exists text :: text in source.availableUpgrades &&
        CreateVersionId(text, source.channelGroup) !in server.catalog
  }

  method GetAvailableUpgradeVersions(server: PolicyServer, variant: Variant, currentVersion: string,
                                     channelGroup: string)
    returns (r: Result<seq<VersionInfo>, Error>)
    modifies server`log, server`clock, server`lost
    ensures server.clock >= old(server.clock) && OnlyReads(old(server.log), server.log)
    ensures r.Success? ==>
              var source := UpgradeSource(server, variant, currentVersion, channelGroup);
              source.Some? && r.value == Enabled(server.catalog, source.value.availableUpgrades,
                  source.value.channelGroup)
    ensures r.Failure? ==> r.error.ApiFailed?
    ensures r.Failure? <==>
              server.lost > old(server.lost) || CatalogGap(server, variant, currentVersion, channelGroup)
    ensures server.lost >= old(server.lost)
  {
    var source;
    if variant.ClassicCluster? {
      source := server.VersionOf(CreateVersionId(currentVersion, channelGroup));
    } else {
      source := server.ClusterVersion();
    }
    if source.None? {
      return Failure(ApiFailed);
    }
    var versions := source.value.availableUpgrades;
    var available: seq<VersionInfo> := [];
    for i := 0 to |versions|
      invariant server.clock >= old(server.clock) && OnlyReads(old(server.log), server.log)
      invariant server.lost == old(server.lost)
      invariant forall k :: 0 <= k < i ==> CreateVersionId(versions[k], source.value.channelGroup) in server.catalog
      invariant available == Enabled(server.catalog, versions[..i], source.value.channelGroup)
    {
      var info := server.VersionOf(CreateVersionId(versions[i], source.value.channelGroup));
      if info.None? {
        return Failure(ApiFailed);
      }
      assert versions[..i + 1][..i] == versions[..i];
      if info.value.enabled {
        available := available + [info.value];
      }
    }
    assert versions[..|versions|] == versions;
    return Success(available);
  }

  /** The enabled upgrades from the version that the resource has stored as its current one. */
  function AvailableUpgrades(server: PolicyServer, variant: Variant, state: ResourceState): Option<seq<VersionInfo>>
    reads state
  {
    match UpgradeSource(server, variant, state.currentVersion.GetOr(""),
        state.channelGroup.GetOr(DEFAULT_CHANNEL_GROUP))
    case None => None
    case Some(source) => Some(Enabled(server.catalog, source.availableUpgrades, source.channelGroup))
  }

  /** An answer about the upgrades from the stored version is missing on the server. */
  predicate UpgradesUnknown(server: PolicyServer, variant: Variant, state: ResourceState)
    reads state
  {
    CatalogGap(server, variant, state.currentVersion.GetOr(""), state.channelGroup.GetOr(DEFAULT_CHANNEL_GROUP))
  }

  /** A version is among the enabled upgrades. */
  ghost predicate Offered(server: PolicyServer, variant: Variant, lib: SemverLibrary, state: ResourceState,
                          version: Version)
    reads state
  {
    var available := AvailableUpgrades(server, variant, state);
    available.Some? && exists v :: v in available.value && lib.Denotes(v.rawId, version)
  }

  /** A classic cluster's upgrades are looked up by the id of its version in its channel group, "stable" when it has
      none; those of a hosted cluster or node pool come from itself. Only enabled ones count. */
  lemma OfferedIff(server: PolicyServer, variant: Variant, lib: SemverLibrary, state: ResourceState, version: Version)
    ensures var group := if state.channelGroup.Known? then state.channelGroup.value else "stable";
            var id := CreateVersionId(state.currentVersion.GetOr(""), group);
            Offered(server, variant, lib, state, version) <==>
              && (variant.ClassicCluster? ==> id in server.catalog)
              && var source := if variant.ClassicCluster? then server.catalog[id] else server.upgradesFromCurrent;
                 exists text :: text in source.availableUpgrades &&
                   Leads(server, lib, text, source.channelGroup, version)
  {
    var source := UpgradeSource(server, variant, state.currentVersion.GetOr(""),
        state.channelGroup.GetOr(DEFAULT_CHANNEL_GROUP));
    if source.Some? {
      var (versions, group) := (source.value.availableUpgrades, source.value.channelGroup);
      if v :| v in Enabled(server.catalog, versions, group) && lib.Denotes(v.rawId, version) {
        EnabledSelects(server.catalog, versions, group, v);
        var text :| text in versions && Shows(server.catalog, CreateVersionId(text, group), v);
        assert Leads(server, lib, text, group, version);
      }
      if text :| text in versions && Leads(server, lib, text, group, version) {
        var v := server.catalog[CreateVersionId(text, group)];
        assert Shows(server.catalog, CreateVersionId(text, group), v);
        EnabledSelects(server.catalog, versions, group, v);
      }
    }
  }

  /** The server knows the version of a text as enabled, and as a given one. */
  predicate Leads(server: PolicyServer, lib: SemverLibrary, text: string, channelGroup: string, version: Version) {
    var id := CreateVersionId(text, channelGroup);
    id in server.catalog && server.catalog[id].enabled && lib.Denotes(server.catalog[id].rawId, version)
  }

  /** The availability check reads the planned text without the version prefix, whatever the variant. */
  ghost predicate PlanOffered(server: PolicyServer, variant: Variant, lib: SemverLibrary, state: ResourceState,
                              planned: string)
    reads state
  {
    var desired := lib.parse(TrimPrefix(planned, VERSION_PREFIX));
    desired.Some? && Offered(server, variant, lib, state, desired.value)
  }

  ghost predicate PlanOrUpgradeUnparsable(server: PolicyServer, variant: Variant, lib: SemverLibrary,
                                          state: ResourceState, planned: string)
    reads state
  {
    var available := AvailableUpgrades(server, variant, state);
    lib.parse(TrimPrefix(planned, VERSION_PREFIX)).None? ||
      (available.Some? && exists v :: v in available.value && lib.parse(v.rawId).None?)
  }

  /** Succeeds only when the desired version is among the enabled upgrades, and reports it missing only
      when it is not. */
  method ValidateUpgrade(server: PolicyServer, variant: Variant, lib: SemverLibrary, state: ResourceState,
                         planned: string)
    returns (r: Option<Error>)
    modifies server`log, server`clock, server`lost
    ensures server.clock >= old(server.clock) && OnlyReads(old(server.log), server.log)
    ensures r.None? ==> PlanOffered(server, variant, lib, state, planned)
    ensures r == Some(NotAvailable) ==>
              && AvailableUpgrades(server, variant, state).Some? && lib.parse(TrimPrefix(planned, VERSION_PREFIX)).Some?
              && !PlanOffered(server, variant, lib, state, planned)
    ensures r == Some(ApiFailed) <==> server.lost > old(server.lost) || UpgradesUnknown(server, variant, state)
    ensures r == Some(Unparsable) ==> PlanOrUpgradeUnparsable(server, variant, lib, state, planned)
    ensures r.Some? ==> r.value in {ApiFailed, Unparsable, NotAvailable}
    ensures server.lost >= old(server.lost)
  {
    var channelGroup := DEFAULT_CHANNEL_GROUP;
    if state.channelGroup.HasValue() {
      channelGroup := state.channelGroup.value;
    }
    var available := GetAvailableUpgradeVersions(server, variant, state.currentVersion.GetOr(""), channelGroup);
    if available.Failure? {
      return Some(available.error);
    }
    var desired := lib.parse(TrimPrefix(planned, VERSION_PREFIX));
    if desired.None? {
      return Some(Unparsable);
    }
    for i := 0 to |available.value|
      invariant server.clock >= old(server.clock) && OnlyReads(old(server.log), server.log)
      invariant server.lost == old(server.lost)
      invariant forall v :: v in available.value[..i] ==> !lib.Denotes(v.rawId, desired.value)
    {
      var sem := lib.parse(available.value[i].rawId);
      assert available.value[i] in available.value;
      if sem.None? {
        return Some(Unparsable);
      }
      EqualIsSymmetric(desired.value, sem.value);
      if Equal(desired.value, sem.value) {
        return None;
      }
    }
    return Some(NotAvailable);
  }

  // The effect of a call on the server

  /** What a call cancelled, what it added, and when it judged the existing policies; the answer to its dry run, when
      it made one, and how many of its requests were not answered. */
  datatype Effect = Effect(gone: set<nat>, added: Option<Policy>, at: int, reply: Option<DryRunReply>, lost: nat)

  /** What a call may do to the server, however it ends: cancel policies of its own kind that wait and
      are not wanted, and then, when an upgrade is due, add one policy for the desired version, but
      only once no active policy of its kind is left. */
  ghost predicate CallEffect(lib: SemverLibrary, kind: UpgradeKind, cached: Version, desired: Version, w: World,
                             w': World, fx: Effect)
  {
    && w'.current == w.current
    && w.clock <= fx.at <= w'.clock
    && (forall id :: id in fx.gone ==>
        id in w.policies && w.policies[id].kind == kind && Cancellable(lib, w.policies[id], desired, fx.at))
    && match fx.added
       case None => w'.policies == w.policies - fx.gone
       case Some(p) =>
         && Less(cached, desired)
         && lib.Denotes(p.version, desired)
         && NewPolicy(w.policies - fx.gone, w'.policies, p, kind, p.version)
         && fx.at + TEN_MINUTES <= p.nextRun <= w'.clock + TEN_MINUTES
         && NoneActive(kind, w.policies - fx.gone)
  }

  /** From `now` on every active policy is wanted and, when an upgrade is due, there is one. */
  ghost predicate Settled(lib: SemverLibrary, kind: UpgradeKind, due: bool, desired: Version,
                          policies: map<nat, Policy>, now: int)
  {
    && (forall id :: id in policies && policies[id].kind == kind && policies[id].Active() ==>
        Wanted(lib, policies[id], desired, now))
    && (due ==> exists id :: id in policies && policies[id].kind == kind && policies[id].Active())
  }

  ghost predicate NoneActive(kind: UpgradeKind, policies: map<nat, Policy>) {
    forall id :: id in policies && policies[id].kind == kind ==> !policies[id].Active()
  }

  /** Some policy of a kind is wanted at a given time. */
  ghost predicate AnyWanted(lib: SemverLibrary, kind: UpgradeKind, desired: Version, policies: map<nat, Policy>,
                            now: int)
  {
    exists id :: id in policies && policies[id].kind == kind && Wanted(lib, policies[id], desired, now)
  }

  ghost predicate AnyInProgressElsewhere(lib: SemverLibrary, kind: UpgradeKind, desired: Version,
                                         policies: map<nat, Policy>)
  {
    exists id :: id in policies && policies[id].kind == kind && policies[id].InProgress() &&
      !lib.Denotes(policies[id].version, desired)
  }

  ghost predicate AnyUnparsable(lib: SemverLibrary, kind: UpgradeKind, policies: map<nat, Policy>) {
    exists id :: id in policies && policies[id].kind == kind && lib.parse(policies[id].version).None?
  }

  ghost predicate IsTable(policies: map<nat, Policy>) {
    forall id :: id in policies ==> policies[id].id == id
  }

  /** The list the protocol works on is the part of the policy table of its kind. */
  ghost predicate Lists(ups: seq<Policy>, policies: map<nat, Policy>, kind: UpgradeKind) {
    && IsTable(policies)
    && forall p: Policy :: p in ups <==> p.id in policies && policies[p.id] == p && p.kind == kind
  }

  lemma ListedUpgrades(server: PolicyServer, kind: UpgradeKind)
    requires server.Valid()
    ensures Lists(OfKind(server.Listing(), kind), server.policies, kind)
  {
    server.ListingIsComplete();
    forall p: Policy ensures p in OfKind(server.Listing(), kind) <==> p in server.Listing() && p.kind == kind {
      OfKindSelects(server.Listing(), kind, p);
    }
  }

  lemma {:induction false} NothingToCancel(lib: SemverLibrary, start: seq<Call>, ups: seq<Policy>, desired: Version,
                                           now: int)
    requires forall p :: p in ups ==> !Cancellable(lib, p, desired, now)
    ensures CancelLog(lib, start, ups, desired, now) == start
  {
    if ups != [] {
      NothingToCancel(lib, start, ups[..|ups| - 1], desired, now);
    }
  }

  /** Walking part of the list cancels as a call may. */
  lemma CancellingIsACallEffect(lib: SemverLibrary, kind: UpgradeKind, cached: Version, desired: Version,
                                w: World, w': World, ups: seq<Policy>, seen: nat, at: int)
    requires Lists(ups, w.policies, kind) && seen <= |ups|
    requires w'.policies == w.policies - CancelIds(lib, ups[..seen], desired, at)
    requires w'.current == w.current && w.clock <= at <= w'.clock
    ensures var gone := CancelIds(lib, ups[..seen], desired, at);
            CallEffect(lib, kind, cached, desired, w, w', Effect(gone, None, at, None, 0))
  {
  }

  lemma SettledNeedsNoCancelling(lib: SemverLibrary, kind: UpgradeKind, due: bool, desired: Version, w: World,
                                 ups: seq<Policy>, start: seq<Call>, at: int, asked: nat, seen: nat)
    requires Lists(ups, w.policies, kind) && w.clock <= at && asked <= |ups| && seen <= |ups|
    requires Settled(lib, kind, due, desired, w.policies, w.clock)
    ensures CancelIds(lib, ups[..seen], desired, at) == {}
    ensures CancelLog(lib, start, ups[..asked], desired, at) == start
    ensures due ==> AnyWanted(lib, kind, desired, w.policies, at)
  {
    forall p | p in ups ensures !Cancellable(lib, p, desired, at) {
      assert w.policies[p.id] == p;
    }
    NothingToCancel(lib, start, ups[..asked], desired, at);
  }

  /** After a whole walk without an error, the policies of the kind that are still active are the
      wanted ones. */
  lemma OnlyWantedRemain(lib: SemverLibrary, kind: UpgradeKind, desired: Version, policies: map<nat, Policy>,
                         ups: seq<Policy>, at: int, correct: bool)
    requires Lists(ups, policies, kind) && Walked(lib, ups, desired, at, correct)
    ensures Settled(lib, kind, correct, desired, policies - CancelIds(lib, ups, desired, at), at)
    ensures correct <==> AnyWanted(lib, kind, desired, policies, at)
    ensures !correct ==> NoneActive(kind, policies - CancelIds(lib, ups, desired, at))
  {
    var kept := policies - CancelIds(lib, ups, desired, at);
    forall id | id in kept && kept[id].kind == kind && kept[id].Active()
      ensures Wanted(lib, kept[id], desired, at)
    {
      assert kept[id] in ups;
    }
    if correct {
      var p :| p in ups && Wanted(lib, p, desired, at);
      assert p.id in policies && policies[p.id] == p;
      assert p.id !in CancelIds(lib, ups, desired, at);
      assert kept[p.id].Active();
    } else {
      forall id | id in policies && policies[id].kind == kind
        ensures !Wanted(lib, policies[id], desired, at)
      {
        assert policies[id] in ups;
      }
    }
  }

  /** No gate was acknowledged and no policy added. */
  ghost predicate NoScheduling(start: seq<Call>, log: seq<Call>) {
    && start <= log
    && forall i :: |start| <= i < |log| ==> !log[i].AckGate? && !log[i].AddPolicy?
  }

  lemma {:induction false} CancellingSchedulesNothing(lib: SemverLibrary, start: seq<Call>, ups: seq<Policy>,
                                                      desired: Version, now: int)
    ensures NoScheduling(start, CancelLog(lib, start, ups, desired, now))
  {
    if ups != [] {
      CancellingSchedulesNothing(lib, start, ups[..|ups| - 1], desired, now);
    }
  }

  /** The state after a walk over the policies, whole or cut short. */
  ghost predicate AfterCancelling(lib: SemverLibrary, kind: UpgradeKind, desired: Version, due: bool,
                                  w: World, w': World, start: seq<Call>, log: seq<Call>, r: Result<bool, Error>,
                                  at: int, lost: nat)
  {
    && NoScheduling(start, log)
    && lost == (if r == Failure(ApiFailed) then 1 else 0)
    && (r.Success? ==>
          && Settled(lib, kind, r.value, desired, w'.policies, at)
          && (r.value <==> AnyWanted(lib, kind, desired, w.policies, at))
          && (!r.value ==> NoneActive(kind, w'.policies)))
    && (Settled(lib, kind, due, desired, w.policies, w.clock) ==>
          && w'.policies == w.policies && OnlyReads(start, log)
          && (due && r.Success? ==> r.value))
    && (r == Failure(UpgradeInProgress) ==> AnyInProgressElsewhere(lib, kind, desired, w.policies))
    && (r == Failure(Unparsable) ==> AnyUnparsable(lib, kind, w.policies))
    && (r.Failure? ==> r.error in {ApiFailed, UpgradeInProgress, Unparsable})
  }

  lemma WalkedFarEnough(lib: SemverLibrary, kind: UpgradeKind, desired: Version, due: bool, w: World, w': World,
                        start: seq<Call>, listed: seq<Call>, log: seq<Call>,
                        ups: seq<Policy>, r: Result<bool, Error>, at: int, asked: nat, seen: nat, lost: nat)
    requires Lists(ups, w.policies, kind) && w.clock <= at && asked <= |ups| && seen <= |ups|
    requires lost == if r == Failure(ApiFailed) then 1 else 0
    requires OnlyReads(start, listed) && log == CancelLog(lib, listed, ups[..asked], desired, at)
    requires w'.policies == w.policies - CancelIds(lib, ups[..seen], desired, at)
    requires r.Success? ==> seen == |ups| && Walked(lib, ups, desired, at, r.value)
    requires r == Failure(UpgradeInProgress) ==>
              exists p :: p in ups && p.InProgress() && !lib.Denotes(p.version, desired)
    requires r == Failure(Unparsable) ==> exists p :: p in ups && lib.parse(p.version).None?
    requires r.Failure? ==> r.error in {ApiFailed, UpgradeInProgress, Unparsable}
    ensures AfterCancelling(lib, kind, desired, due, w, w', start, log, r, at, lost)
  {
    CancellingSchedulesNothing(lib, listed, ups[..asked], desired, at);
    if Settled(lib, kind, due, desired, w.policies, w.clock) {
      SettledNeedsNoCancelling(lib, kind, due, desired, w, ups, listed, at, asked, seen);
    }
    if r.Success? {
      assert ups[..seen] == ups;
      OnlyWantedRemain(lib, kind, desired, w.policies, ups, at, r.value);
    } else if r.error.UpgradeInProgress? {
      var p :| p in ups && p.InProgress() && !lib.Denotes(p.version, desired);
      assert w.policies[p.id] == p;
    } else if r.error.Unparsable? {
      var p :| p in ups && lib.parse(p.version).None?;
      assert w.policies[p.id] == p;
    }
  }

  method ListAndCancel(server: PolicyServer, lib: SemverLibrary, kind: UpgradeKind, cached: Version, desired: Version,
                       ghost due: bool)
    returns (r: Result<bool, Error>, ghost fx: Effect)
    requires server.Valid()
    modifies server`policies, server`order, server`log, server`clock, server`lost
    ensures server.Valid()
    ensures CallEffect(lib, kind, cached, desired, old(server.Seen()), server.Seen(), fx) && fx.added.None?
    ensures AfterCancelling(lib, kind, desired, due, old(server.Seen()), server.Seen(), old(server.log), server.log,
              r, fx.at, fx.lost)
    ensures fx.reply.None? && server.lost == old(server.lost) + fx.lost
  {
    ghost var w, start := server.Seen(), server.log;
    ListedUpgrades(server, kind);
    var ups := GetScheduledUpgrades(server, kind);
    if ups.Failure? {
      assert w.policies - {} == w.policies;
      return Failure(ups.error), Effect({}, None, server.clock, None, 1);
    }
    ghost var at, listed, asked, seen := server.clock, server.log, 0, 0;
    r, asked, seen := CheckAndCancelUpgrades(server, lib, ups.value, desired);
    CancellingIsACallEffect(lib, kind, cached, desired, w, server.Seen(), ups.value, seen, at);
    ghost var lost: nat := if r == Failure(ApiFailed) then 1 else 0;
    WalkedFarEnough(lib, kind, desired, due, w, server.Seen(), start, listed, server.log, ups.value, r, at, asked,
        seen, lost);
    fx := Effect(CancelIds(lib, ups.value[..seen], desired, at), None, at, None, lost);
  }

  /** A policy just added for ten minutes from now is wanted at every later time, and only then: at the
      very instant it was scheduled from, it would be cancelled again. */
  lemma AddedPolicyIsWantedLater(lib: SemverLibrary, p: Policy, desired: Version, scheduledAt: int, now: int)
    requires p.Waiting() && lib.Denotes(p.version, desired) && p.nextRun == scheduledAt + 600_000_000_000
    ensures Wanted(lib, p, desired, now) <==> now > scheduledAt
    ensures Cancellable(lib, p, desired, now) <==> now <= scheduledAt
  {
  }

  /** Adding the policy settles the server. */
  lemma AddingSettles(lib: SemverLibrary, kind: UpgradeKind, desired: Version, before: map<nat, Policy>,
                      after: map<nat, Policy>, p: Policy, now: int)
    requires NewPolicy(before, after, p, kind, p.version)
    requires lib.Denotes(p.version, desired) && p.nextRun < now + TEN_MINUTES
    requires NoneActive(kind, before)
    ensures Settled(lib, kind, true, desired, after, now)
  {
    assert after[p.id].Active();
  }

  /** All that is promised of a call that contacted the policy API. On success it leaves the server
      settled, having added a policy exactly when an upgrade was due and none was wanted; and on a
      server that was settled already it changes nothing and sends nothing but reads. */
  ghost predicate Reconciled(lib: SemverLibrary, kind: UpgradeKind, cached: Version, desired: Version, userAck: string,
                             w: World, w': World, start: seq<Call>, log: seq<Call>, r: Option<Error>, fx: Effect)
  {
    && CallEffect(lib, kind, cached, desired, w, w', fx)
    && (r.None? ==>
          && Settled(lib, kind, Less(cached, desired), desired, w'.policies, w'.clock + 1)
          && (Less(cached, desired) ==> (fx.added.None? <==> AnyWanted(lib, kind, desired, w.policies, fx.at))))
    && (Settled(lib, kind, Less(cached, desired), desired, w.policies, w.clock) ==>
          w'.policies == w.policies && OnlyReads(start, log))
    && ErrorExplained(lib, kind, cached, desired, w, r, fx)
    && Scheduled(lib, desired, userAck, start, log, r, fx)
  }

  /** Each error of a call that contacted the policy API has its cause. A lost answer ends the call, except when
      it is the one to the dry run; and a dry run is made only when an upgrade is due and none wanted. */
  ghost predicate ErrorExplained(lib: SemverLibrary, kind: UpgradeKind, cached: Version, desired: Version,
                                 w: World, r: Option<Error>, fx: Effect)
  {
    var unheard: nat := if fx.reply == Some(NoResponse) then 1 else 0;
    && (fx.reply.Some? ==> Less(cached, desired) && !AnyWanted(lib, kind, desired, w.policies, fx.at))
    && fx.lost >= unheard
    && (r != Some(ApiFailed) ==> fx.lost == unheard)
    && match r
       case None => true
       case Some(ApiFailed) => fx.lost > unheard || (fx.reply.Some? && Unreadable(fx.reply.value))
       case Some(UpgradeInProgress) => AnyInProgressElsewhere(lib, kind, desired, w.policies)
       case Some(Unparsable) => AnyUnparsable(lib, kind, w.policies)
       case Some(AckNeeded) => fx.reply.Some?
       case _ => false
  }

  /** Nothing is acknowledged or added without a dry run, and after it only what its answer and the user allow; the
      call stops for the user exactly when a gate reported needs an acknowledgement that was not given. */
  ghost predicate Scheduled(lib: SemverLibrary, desired: Version, userAck: string, start: seq<Call>, log: seq<Call>,
                            r: Option<Error>, fx: Effect)
  {
    match fx.reply
    case None => NoScheduling(start, log) && fx.added.None? && r != Some(AckNeeded)
    case Some(reply) =>
      && (r == Some(AckNeeded) <==>
            GatesIn(reply).Some? && UserAckRequired(GatesIn(reply).value) && userAck != MinorText(desired))
      && exists n :: ScheduledFrom(lib, desired, userAck, start, log, n, r, fx)
  }

  /** The first `n` requests schedule nothing; those from the dry run on are what `ScheduleLog` says, to the end or
      cut short. */
  ghost predicate ScheduledFrom(lib: SemverLibrary, desired: Version, userAck: string, start: seq<Call>,
                                log: seq<Call>, n: nat, r: Option<Error>, fx: Effect)
  {
    && fx.reply.Some?
    && |start| <= n < |log| && NoScheduling(start, log[..n])
    && var whole := ScheduleLog(log[..n], lib.render(desired), fx.reply.value, userAck, MinorText(desired));
       if r.None? || fx.added.Some? then log == whole else log <= whole
  }

  /** Reads made just before a call do not change what is promised of it. */
  lemma ReconciledSince(lib: SemverLibrary, kind: UpgradeKind, cached: Version, desired: Version, userAck: string,
                        w0: World, w: World, w': World, start: seq<Call>, read: seq<Call>, log: seq<Call>,
                        r: Option<Error>, fx: Effect)
    requires Reconciled(lib, kind, cached, desired, userAck, w, w', read, log, r, fx)
    requires w0.policies == w.policies && w0.current == w.current && w0.clock <= w.clock && OnlyReads(start, read)
    ensures Reconciled(lib, kind, cached, desired, userAck, w0, w', start, log, r, fx)
  {
    var due := Less(cached, desired);
    if Settled(lib, kind, due, desired, w0.policies, w0.clock) {
      assert Settled(lib, kind, due, desired, w.policies, w.clock);
    }
    if fx.reply.Some? {
      var n :| ScheduledFrom(lib, desired, userAck, read, log, n, r, fx);
      assert ScheduledFrom(lib, desired, userAck, start, log, n, r, fx);
    }
  }

  /** Lists, cancels and schedules. */
  method Reconcile(server: PolicyServer, lib: SemverLibrary, kind: UpgradeKind, cached: Version, desired: Version,
                   userAck: string)
    returns (r: Option<Error>, ghost fx: Effect)
    requires server.Valid() && lib.Denotes(lib.render(desired), desired)
    requires !Less(desired, cached)
    modifies server`policies, server`order, server`nextId, server`log, server`clock, server`lost, server`acked
    ensures server.Valid()
    ensures Reconciled(lib, kind, cached, desired, userAck, old(server.Seen()), server.Seen(), old(server.log),
              server.log, r, fx)
    ensures server.lost == old(server.lost) + fx.lost
    ensures fx.reply.Some? && GatesIn(fx.reply.value).Some? && !fx.reply.value.NoResponse? ==>
              GatesIn(fx.reply.value).value == old(server.MissingGates(lib.render(desired)))
  {
    PrecedenceIsTotalPreorder(cached, desired, cached);
    var pending;
    pending, fx := ListAndCancel(server, lib, kind, cached, desired, Less(cached, desired));
    if pending.Failure? {
      return Some(pending.error), fx;
    }
    if pending.value || Equal(desired, cached) {
      return None, fx;
    }
    ghost var kept, tried, lost := server.policies, server.log, server.lost;
    ghost var added;
    var reply;
    r, reply, added := ScheduleUpgrade(server, lib, kind, desired, userAck);
    if added.Some? {
      AddingSettles(lib, kind, desired, kept, server.policies, added.value, server.clock + 1);
    }
    fx := fx.(added := added, reply := Some(reply), lost := server.lost - lost);
    assert server.log[..|tried|] == tried;
    assert ScheduledFrom(lib, desired, userAck, old(server.log), server.log, |tried|, r, fx);
  }

  /** The current and the desired version, when both are given and can be read. */
  function Versions(variant: Variant, lib: SemverLibrary, current: Attribute<string>,
                    planned: Attribute<string>): Option<(Version, Version)>
  {
    if UnknownOrEmpty(planned) || UnknownOrEmpty(current) then None
    else
      match (lib.parse(current.value), lib.parse(variant.PlannedText(planned.value)))
      case (Some(c), Some(d)) => Some((c, d))
      case _ => None
  }

  /** Both versions are needed, neither blank. A classic cluster's plan may carry the version prefix; the others are
      read as they are written. */
  lemma VersionsRead(variant: Variant, lib: SemverLibrary, current: Attribute<string>, planned: Attribute<string>,
                     text: string)
    requires text != "" && !("openshift-v" <= text)
    ensures Versions(variant, lib, current, planned).Some? ==>
              current.Known? && current.value != "" && planned.Known? && planned.value != ""
    ensures current.Known? && current.value != "" ==>
              var (c, d) := (lib.parse(current.value), lib.parse(text));
              Versions(variant, lib, current, Known(text)) ==
              if c.Some? && d.Some? then Some((c.value, d.value)) else None
    ensures current.Known? && current.value != "" ==>
              Versions(variant, lib, current, Known("openshift-v" + text)) ==
              if variant.ClassicCluster? then Versions(variant, lib, current, Known(text))
              else
                var (c, d) := (lib.parse(current.value), lib.parse("openshift-v" + text));
                if c.Some? && d.Some? then Some((c.value, d.value)) else None
  {
    SuffixOfConcatenation("openshift-v", text);
  }

  /** A resource cancels and adds policies of its own kind only: a classic cluster's are the OSD ones. */
  lemma EachResourceKeepsToItsKind(variant: Variant, lib: SemverLibrary, cached: Version, desired: Version,
                                   w: World, w': World, fx: Effect, id: nat)
    requires CallEffect(lib, variant.Kind(), cached, desired, w, w', fx)
    requires id !in w.policies || id !in w'.policies || w.policies[id] != w'.policies[id]
    ensures var mine := match variant case ClassicCluster => Osd case HostedControlPlane => ControlPlane
                                      case HostedNodePool => UpgradeKind.NodePool;
            && (id in w.policies ==> w.policies[id].kind == mine)
            && (id in w'.policies ==> w'.policies[id].kind == mine)
  {
  }

  /** The version wanted, when it is not the current one, is among the enabled upgrades. The text checked is
      the planned one, except that a hosted variant compares with the version prefix still on. */
  ghost predicate UpgradeChecked(server: PolicyServer, variant: Variant, lib: SemverLibrary, state: ResourceState,
                                 planned: string, current: Version, desired: Version)
    reads state
  {
    !Equal(desired, current) ==>
      && PlanOffered(server, variant, lib, state, planned)
      && (variant.PlannedText(planned) == TrimPrefix(planned, VERSION_PREFIX) ==>
          Offered(server, variant, lib, state, desired))
  }

  /** What a call leaves behind when it gets as far as the policies, and when it does not. */
  ghost predicate Called(lib: SemverLibrary, kind: UpgradeKind, cached: Version, desired: Version, userAck: string,
                         w: World, w': World, start: seq<Call>, log: seq<Call>, r: Option<Error>, fx: Option<Effect>)
  {
    match fx
    case Some(effect) => Reconciled(lib, kind, cached, desired, userAck, w, w', start, log, r, effect)
    case None =>
      && w' == w.(clock := w'.clock) && w'.clock >= w.clock && OnlyReads(start, log)
      && !Equal(desired, cached) && r.Some? && r.value in {ApiFailed, Unparsable, NotAvailable}
  }

  /** The availability check fails for a reason: an answer did not arrive or the server does not know a version,
      something cannot be read, or the version is not offered. */
  ghost predicate CheckExplained(server: PolicyServer, variant: Variant, lib: SemverLibrary, state: ResourceState,
                                 planned: string, error: Error, lost: bool)
    reads state
  {
    match error
    case ApiFailed => lost || UpgradesUnknown(server, variant, state)
    case Unparsable => PlanOrUpgradeUnparsable(server, variant, lib, state, planned)
    case NotAvailable => !PlanOffered(server, variant, lib, state, planned)
    case _ => false
  }

  /** Unless the desired version is the current one, checks that it is available; then reconciles. */
  method ValidateAndReconcile(variant: Variant, lib: SemverLibrary, server: PolicyServer, state: ResourceState,
                              plan: ResourceState, current: Version, desired: Version)
    returns (r: Option<Error>, ghost fx: Option<Effect>)
    requires server.Valid() && lib.Denotes(lib.render(desired), desired)
    requires !Less(desired, current)
    requires plan.version.Known? && lib.parse(variant.PlannedText(plan.version.value)) == Some(desired)
    modifies server`policies, server`order, server`nextId, server`log, server`clock, server`lost, server`acked
    ensures server.Valid()
    ensures Called(lib, variant.Kind(), current, desired, plan.upgradeAcksFor.GetOr(""), old(server.Seen()),
                server.Seen(), old(server.log), server.log, r, fx)
    ensures fx.None? ==>
              CheckExplained(server, variant, lib, state, plan.version.value, r.value, server.lost > old(server.lost))
    ensures fx.Some? ==> server.lost == old(server.lost) + fx.value.lost
    ensures fx.Some? ==> old(UpgradeChecked(server, variant, lib, state, plan.version.value, current, desired))
  {
    if !Equal(desired, current) {
      r := ValidateUpgrade(server, variant, lib, state, plan.version.value);
      if r.Some? {
        return r, None;
      }
    }
    ghost var seen, read := server.Seen(), server.log;
    ghost var effect;
    r, effect := Reconcile(server, lib, variant.Kind(), current, desired, plan.upgradeAcksFor.GetOr(""));
    ReconciledSince(lib, variant.Kind(), current, desired, plan.upgradeAcksFor.GetOr(""), old(server.Seen()), seen,
        server.Seen(), old(server.log), read, server.log, r, effect);
    fx := Some(effect);
  }

  /** The call a resource makes on every update. It contacts the policy API only when both versions can
      be read and the desired one is not below the current one, and not above it unless it is offered; then
      its effect is a `CallEffect`. The resource state changes only on success. */
  method UpgradeIfNeeded(variant: Variant, lib: SemverLibrary, server: PolicyServer, state: ResourceState,
                         plan: ResourceState)
    returns (r: Option<Error>, ghost fx: Option<Effect>)
    requires server.Valid() && lib.RoundTrips()
    modifies server`policies, server`order, server`nextId, server`log, server`clock, server`lost, server`acked
    modifies state`version, state`upgradeAcksFor
    ensures server.Valid()
    ensures r.Some? ==> unchanged(state)
    ensures match old(Versions(variant, lib, state.currentVersion, plan.version))
            case None =>
              && fx.None? && unchanged(server)
              && (r.None? <==> old(UnknownOrEmpty(plan.version) || UnknownOrEmpty(state.currentVersion)))
              && (r.Some? ==> r.value.Unparsable?)
              && unchanged(state)
            case Some((current, desired)) =>
              if Less(desired, current) then
                && fx.None? && unchanged(server) && unchanged(state)
                && r == if old(!UnknownOrEmpty(state.version) && state.version == plan.version) then None
                        else Some(AlreadyAbove)
              else
                && (r.None? ==>
                      state.version == old(plan.version) && state.upgradeAcksFor == old(plan.upgradeAcksFor))
                && Called(lib, variant.Kind(), current, desired, old(plan.upgradeAcksFor.GetOr("")),
                       old(server.Seen()), server.Seen(), old(server.log), server.log, r, fx)
                && (fx.None? ==>
                      CheckExplained(server, variant, lib, state, old(plan.version.value), r.value,
                        server.lost > old(server.lost)))
                && (fx.Some? ==> server.lost == old(server.lost) + fx.value.lost)
                && (fx.Some? ==> old(UpgradeChecked(server, variant, lib, state, plan.version.value, current, desired)))
  {
    fx := None;
    if UnknownOrEmpty(plan.version) || UnknownOrEmpty(state.currentVersion) {
      return None, fx;
    }
    var requestedVersionChanged := true;
    if !UnknownOrEmpty(plan.version) && !UnknownOrEmpty(state.version) {
      if plan.version.value == state.version.value {
        requestedVersionChanged := false;
      }
    }
    var current := lib.parse(state.currentVersion.value);
    if current.None? {
      return Some(Unparsable), fx;
    }
    var desired := lib.parse(variant.PlannedText(plan.version.value));
    if desired.None? {
      return Some(Unparsable), fx;
    }
    GreaterIsLessReversed(current.value, desired.value);
    if Compare(current.value, desired.value) > 0 {
      return if requestedVersionChanged then Some(AlreadyAbove) else None, fx;
    }
    assert lib.Reads(desired.value);
    r, fx := ValidateAndReconcile(variant, lib, server, state, plan, current.value, desired.value);
    if r.Some? {
      return r, fx;
    }
    state.version := plan.version;
    state.upgradeAcksFor := plan.upgradeAcksFor;
  }
}
