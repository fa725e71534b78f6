/** Whole runs: upgrade calls of one resource, each made on freshly read state, with the server free to
    move its policies along in between. */
module UpgradeRuns {
  import opened Wrappers
  import opened Semver
  import opened VersionId
  import opened UpgradePolicies
  import opened UpgradeServer
  import opened UpgradeProtocol
  import opened UpgradeCall

  /** What the server, or someone else, may do to a policy that stays in the table. */
  predicate CanBecome(s: PolicyState, s': PolicyState) {
    || s == s'
    || (s.Pending? && !s'.Completed?)
    || (s.Scheduled? && !s'.Pending? && !s'.Completed?)
    || ((s.Started? || s.Delayed?) && (s'.Started? || s'.Delayed? || s'.Cancelled? || s'.Failed?))
  }

  /** Policies of this kind move on or vanish, none appears; other kinds come and go; time passes. */
  ghost predicate Progress(kind: UpgradeKind, w: World, w': World) {
    && w'.clock >= w.clock && w'.current == w.current && IsTable(w'.policies)
    && forall id :: id in w'.policies && w'.policies[id].kind == kind ==>
         && id in w.policies
         && w'.policies[id] == w.policies[id].(state := w'.policies[id].state)
         && CanBecome(w.policies[id].state, w'.policies[id].state)
  }

  /** A started upgrade ends, and its version is the one running. */
  ghost predicate Completion(kind: UpgradeKind, w: World, w': World, id: nat) {
    && w'.clock >= w.clock
    && id in w.policies && w.policies[id].kind == kind && w.policies[id].state.Started?
    && w'.policies == w.policies[id := w.policies[id].(state := Completed)]
    && w'.current == w.policies[id].version
  }

  ghost predicate ServerMove(kind: UpgradeKind, w: World, w': World) {
    Progress(kind, w, w') || exists id :: Completion(kind, w, w', id)
  }

  /** A call that judged by the version actually running. */
  ghost predicate FreshCall(lib: SemverLibrary, kind: UpgradeKind, w: World, w': World) {
    lib.parse(w.current).Some? && exists desired, fx ::
        CallEffect(lib, kind, lib.parse(w.current).value, desired, w, w', fx)
  }

  ghost predicate StepAt(lib: SemverLibrary, kind: UpgradeKind, ws: seq<World>, i: nat)
    requires i + 1 < |ws|
  {
    ServerMove(kind, ws[i], ws[i + 1]) || FreshCall(lib, kind, ws[i], ws[i + 1])
  }

  ghost predicate Run(lib: SemverLibrary, kind: UpgradeKind, ws: seq<World>) {
    forall i :: 0 <= i < |ws| - 1 ==> StepAt(lib, kind, ws, i)
  }

  ghost predicate Above(lib: SemverLibrary, text: string, current: string) {
    lib.parse(text).Some? && lib.parse(current).Some? && Less(lib.parse(current).value, lib.parse(text).value)
  }

  predicate IsActive(kind: UpgradeKind, policies: map<nat, Policy>, id: nat) {
    id in policies && policies[id].kind == kind && policies[id].Active()
  }

  ghost predicate AtMostOneActive(kind: UpgradeKind, policies: map<nat, Policy>) {
    forall i, j :: IsActive(kind, policies, i) && IsActive(kind, policies, j) ==> i == j
  }

  /** At most one active policy of a kind, and it leads above the version running. */
  ghost predicate Safe(lib: SemverLibrary, kind: UpgradeKind, w: World) {
    && IsTable(w.policies)
    && lib.parse(w.current).Some?
    && AtMostOneActive(kind, w.policies)
    && (forall i :: IsActive(kind, w.policies, i) ==> Above(lib, w.policies[i].version, w.current))
  }

  lemma ServerMoveIsSafe(lib: SemverLibrary, kind: UpgradeKind, w: World, w': World)
    requires Safe(lib, kind, w) && ServerMove(kind, w, w')
    ensures Safe(lib, kind, w')
    ensures w'.current == w.current || Above(lib, w'.current, w.current)
  {
    if !Progress(kind, w, w') {
      var id :| Completion(kind, w, w', id);
      assert IsActive(kind, w.policies, id);
      forall i ensures !IsActive(kind, w'.policies, i) {
        assert IsActive(kind, w'.policies, i) ==> IsActive(kind, w.policies, i);
      }
    } else {
      assert forall i :: IsActive(kind, w'.policies, i) ==> IsActive(kind, w.policies, i);
    }
  }

  /** Whatever version a call judged by, its effect keeps the server safe exactly when it added no policy or
      the desired version is above the one actually running. */
  lemma EffectIsSafeIff(lib: SemverLibrary, kind: UpgradeKind, cached: Version, desired: Version, w: World, w': World,
                        fx: Effect)
    requires Safe(lib, kind, w) && CallEffect(lib, kind, cached, desired, w, w', fx)
    ensures Safe(lib, kind, w') <==> fx.added.None? || Less(lib.parse(w.current).value, desired)
  {
    if fx.added.Some? {
      var p := fx.added.value;
      var running := lib.parse(w.current).value;
      EqualVersionsCompareAlike(lib.parse(p.version).value, desired, running);
      assert IsActive(kind, w'.policies, p.id);
      forall id | IsActive(kind, w'.policies, id) ensures id == p.id {
        assert id != p.id ==> id in w.policies - fx.gone;
      }
    } else {
      forall id | IsActive(kind, w'.policies, id) ensures IsActive(kind, w.policies, id) {
      }
    }
  }

  /** No policy needs to be added: none is due by the version judged by, or one is wanted already. */
  ghost predicate NothingToAdd(lib: SemverLibrary, kind: UpgradeKind, cached: Version, desired: Version, w: World,
                               at: int)
  {
    !Less(cached, desired) || AnyWanted(lib, kind, desired, w.policies, at)
  }

  /** By what holds before the call, and whatever version it judges by: every call is safe when there is
      nothing to add or the desired version is above the one actually running, and every other call that
      succeeds is not. */
  lemma CallIsSafeIff(lib: SemverLibrary, kind: UpgradeKind, cached: Version, desired: Version, userAck: string,
                      w: World, w': World, start: seq<Call>, log: seq<Call>, r: Option<Error>, fx: Effect)
    requires Safe(lib, kind, w) && Reconciled(lib, kind, cached, desired, userAck, w, w', start, log, r, fx)
    ensures NothingToAdd(lib, kind, cached, desired, w, fx.at) || Less(lib.parse(w.current).value, desired) ==>
              Safe(lib, kind, w')
    ensures r.None? ==>
              (Safe(lib, kind, w') <==>
               NothingToAdd(lib, kind, cached, desired, w, fx.at) || Less(lib.parse(w.current).value, desired))
  {
    EffectIsSafeIff(lib, kind, cached, desired, w, w', fx);
    if AnyWanted(lib, kind, desired, w.policies, fx.at) {
      var id :| id in w.policies && w.policies[id].kind == kind && Wanted(lib, w.policies[id], desired, fx.at);
      assert id !in fx.gone;
      assert (w.policies - fx.gone)[id].Active();
    }
  }

  /** The cached version does matter. On a server without policies that meanwhile runs a version above the
      desired one, every call that judges by an older version and succeeds schedules an upgrade downwards. */
  lemma StaleCallGoesBelow(lib: SemverLibrary, kind: UpgradeKind, cached: Version, desired: Version, userAck: string,
                           w: World, w': World, start: seq<Call>, log: seq<Call>, fx: Effect)
    requires w.policies == map[] && lib.parse(w.current).Some?
    requires Less(cached, desired) && Less(desired, lib.parse(w.current).value)
    requires Reconciled(lib, kind, cached, desired, userAck, w, w', start, log, None, fx)
    ensures Safe(lib, kind, w) && !Safe(lib, kind, w')
    ensures exists id :: IsActive(kind, w'.policies, id) && lib.Denotes(w'.policies[id].version, desired)
  {
    PrecedenceIsTotalPreorder(desired, lib.parse(w.current).value, desired);
    CallIsSafeIff(lib, kind, cached, desired, userAck, w, w', start, log, None, fx);
    assert IsActive(kind, w'.policies, fx.added.value.id);
  }

  /** Such a call: a listing, a dry run and an add, none of which fails, on a server without policies. */
  lemma StaleCallCanSucceed(lib: SemverLibrary, kind: UpgradeKind, cached: Version, desired: Version, from: string)
    returns (w: World, w': World, log: seq<Call>, fx: Effect)
    requires lib.parse(from).Some? && lib.Denotes(lib.render(desired), desired)
    requires Less(cached, desired) && Less(desired, lib.parse(from).value)
    ensures w == World(map[], from, 0)
    ensures log == ScheduleLog(ListLog([], 1), lib.render(desired), Accepted, "", MinorText(desired))
    ensures log == [ListPolicies(1), DryRun(lib.render(desired)), AddPolicy(lib.render(desired))]
    ensures Reconciled(lib, kind, cached, desired, "", w, w', [], log, None, fx) && fx.lost == 0
    ensures Safe(lib, kind, w) && !Safe(lib, kind, w')
  {
    var to := lib.render(desired);
    var p := Policy(0, kind, to, TEN_MINUTES, Pending);
    w, w' := World(map[], from, 0), World(map[0 := p], from, 0);
    fx := Effect({}, Some(p), 0, Some(Accepted), 0);
    log := [ListPolicies(1), DryRun(to), AddPolicy(to)];
    assert ListLog([], 0) + [ListPolicies(1)] == [ListPolicies(1)];
    assert w.policies - fx.gone == map[];
    AddingSettles(lib, kind, desired, map[], w'.policies, p, 1);
    assert log[..1] == [ListPolicies(1)] && ScheduledFrom(lib, desired, "", [], log, 1, None, fx);
    StaleCallGoesBelow(lib, kind, cached, desired, "", w, w', [], log, fx);
  }

  /** Safety over every run: in each state at most one policy is active and it leads above the version
      running, which never goes down. */
  lemma {:induction false} RunsAreSafe(lib: SemverLibrary, kind: UpgradeKind, ws: seq<World>, i: nat, j: nat)
    requires Run(lib, kind, ws) && i <= j < |ws|
    requires Safe(lib, kind, ws[i])
    ensures Safe(lib, kind, ws[j])
    ensures ws[j].current == ws[i].current || Above(lib, ws[j].current, ws[i].current)
    decreases j - i
  {
    if i < j {
      assert StepAt(lib, kind, ws, i);
      var (w, w') := (ws[i], ws[i + 1]);
      if ServerMove(kind, w, w') {
        ServerMoveIsSafe(lib, kind, w, w');
      } else {
        assert FreshCall(lib, kind, w, w');
        var current := lib.parse(w.current).value;
        var desired, fx :| CallEffect(lib, kind, current, desired, w, w', fx);
        EffectIsSafeIff(lib, kind, current, desired, w, w', fx);
      }
      RunsAreSafe(lib, kind, ws, i + 1, j);
      if ws[j].current != ws[i].current && w'.current != w.current && ws[j].current != w'.current {
        PrecedenceIsTotalPreorder(lib.parse(w.current).value, lib.parse(w'.current).value,
            lib.parse(ws[j].current).value);
      }
    }
  }

  // Convergence

  /** A server move that does not take an upgrade away: policies of this kind stay in the table, wait,
      start, or complete. */
  ghost predicate Unhindered(kind: UpgradeKind, w: World, w': World) {
    && ServerMove(kind, w, w')
    && forall id :: id in w.policies && w.policies[id].kind == kind && w.policies[id].Active() ==>
         && id in w'.policies && w'.policies[id].kind == kind
         && (w'.policies[id].Active() || w'.policies[id].state.Completed?)
         && (w.policies[id].InProgress() ==> !w'.policies[id].Waiting())
  }

  /** What a successful call for `desired` at time `now` establishes and unhindered moves keep. */
  ghost predicate OnCourse(lib: SemverLibrary, kind: UpgradeKind, desired: Version, w: World, now: int) {
    && lib.parse(w.current).Some?
    && var current := lib.parse(w.current).value;
       && (Equal(current, desired) || Less(current, desired))
       && Settled(lib, kind, Less(current, desired), desired, w.policies, now + 1)
       && w.clock >= now
  }

  lemma MovesStayOnCourse(lib: SemverLibrary, kind: UpgradeKind, desired: Version, w: World, w': World, now: int)
    requires OnCourse(lib, kind, desired, w, now) && Unhindered(kind, w, w')
    ensures OnCourse(lib, kind, desired, w', now)
  {
  }

  ghost predicate UnhinderedAt(kind: UpgradeKind, ws: seq<World>, i: nat)
    requires i + 1 < |ws|
  {
    Unhindered(kind, ws[i], ws[i + 1])
  }

  function WithState(w: World, id: nat, state: PolicyState): World
    requires id in w.policies
  {
    w.(policies := w.policies[id := w.policies[id].(state := state)])
  }

  lemma PolicyCanMoveOn(kind: UpgradeKind, w: World, id: nat, state: PolicyState)
    requires IsTable(w.policies) && IsActive(kind, w.policies, id) && CanBecome(w.policies[id].state, state)
    requires state.Scheduled? || state.Delayed? || state.Started?
    ensures Unhindered(kind, w, WithState(w, id, state)) && IsTable(WithState(w, id, state).policies)
  {
    assert Progress(kind, w, WithState(w, id, state));
  }

  lemma StartedCanComplete(kind: UpgradeKind, w: World, id: nat) returns (w': World)
    requires IsTable(w.policies) && IsActive(kind, w.policies, id) && w.policies[id].state.Started?
    ensures Unhindered(kind, w, w') && w'.clock > w.clock && w'.current == w.policies[id].version
  {
    w' := WithState(w, id, Completed).(current := w.policies[id].version, clock := w.clock + 1);
    assert Completion(kind, w, w', id);
  }

  /** Unhindered, a waiting policy can go all the way: scheduled, delayed, started, and completed, and then its version
      is the one running. */
  lemma UpgradeCanRunItsCourse(kind: UpgradeKind, w: World, id: nat) returns (ws: seq<World>)
    requires IsTable(w.policies) && IsActive(kind, w.policies, id) && w.policies[id].Waiting()
    ensures |ws| == 5 && ws[0] == w && forall i :: 0 <= i < 4 ==> UnhinderedAt(kind, ws, i)
    ensures id in w.policies && ws[4].current == w.policies[id].version && ws[4].clock > w.clock
  {
    PolicyCanMoveOn(kind, w, id, Scheduled);
    var w1 := WithState(w, id, Scheduled);
    PolicyCanMoveOn(kind, w1, id, Delayed);
    var w2 := WithState(w1, id, Delayed);
    PolicyCanMoveOn(kind, w2, id, Started);
    var w3 := WithState(w2, id, Started);
    var w4 := StartedCanComplete(kind, w3, id);
    ws := [w, w1, w2, w3, w4];
  }

  /** Convergence: after a successful call, however the upgrade proceeds meanwhile, the server is settled
      for the same desired version at every strictly later time. */
  lemma {:induction false} Convergence(lib: SemverLibrary, kind: UpgradeKind, desired: Version, ws: seq<World>,
                                       now: int)
    requires ws != [] && OnCourse(lib, kind, desired, ws[0], now)
    requires forall i :: 0 <= i < |ws| - 1 ==> UnhinderedAt(kind, ws, i)
    requires ws[|ws| - 1].clock > now
    ensures var w := ws[|ws| - 1];
            && lib.parse(w.current).Some?
            && var current := lib.parse(w.current).value;
               && !Less(desired, current)
               && Settled(lib, kind, Less(current, desired), desired, w.policies, w.clock)
    decreases |ws|
  {
    if |ws| == 1 {
      var w := ws[0];
      var current := lib.parse(w.current).value;
      PrecedenceIsTotalPreorder(current, desired, current);
    } else {
      assert UnhinderedAt(kind, ws, 0);
      MovesStayOnCourse(lib, kind, desired, ws[0], ws[1], now);
      forall i | 0 <= i < |ws| - 2 ensures UnhinderedAt(kind, ws[1..], i) {
        assert UnhinderedAt(kind, ws, i + 1);
      }
      Convergence(lib, kind, desired, ws[1..], now);
    }
  }

  // The resource on the server

  /** A successful call judged by the version running puts the server on course. */
  lemma SuccessSetsOnCourse(lib: SemverLibrary, kind: UpgradeKind, current: Version, desired: Version, userAck: string,
                            w: World, w': World, start: seq<Call>, log: seq<Call>, fx: Effect)
    requires lib.parse(w.current) == Some(current) && !Less(desired, current)
    requires Reconciled(lib, kind, current, desired, userAck, w, w', start, log, None, fx)
    ensures OnCourse(lib, kind, desired, w', w'.clock)
  {
    PrecedenceIsTotalPreorder(current, desired, current);
  }

  /** Convergence of calls: after a successful one, whatever an unhindered server does meanwhile, a second
      call for the same version at a strictly later time, judged by the version then running, changes
      nothing and sends nothing but reads. It can only fail when a request does, or when some old policy's
      version cannot be read. */
  lemma SecondCallOnlyReads(lib: SemverLibrary, kind: UpgradeKind, current: Version, desired: Version,
                            userAck: string, w: World, start: seq<Call>, log: seq<Call>, fx: Effect, ws: seq<World>,
                            userAck': string, w': World, start': seq<Call>, log': seq<Call>, r: Option<Error>,
                            fx': Effect)
    requires lib.parse(w.current) == Some(current) && !Less(desired, current) && ws != []
    requires Reconciled(lib, kind, current, desired, userAck, w, ws[0], start, log, None, fx)
    requires forall i :: 0 <= i < |ws| - 1 ==> UnhinderedAt(kind, ws, i)
    requires var last := ws[|ws| - 1];
             && last.clock > ws[0].clock && lib.parse(last.current).Some?
             && Reconciled(lib, kind, lib.parse(last.current).value, desired, userAck', last, w', start', log', r, fx')
    ensures w'.policies == ws[|ws| - 1].policies && OnlyReads(start', log')
    ensures r == Some(ApiFailed) <==> fx'.lost > 0
    ensures r.None? || r == Some(ApiFailed) || (r == Some(Unparsable) && AnyUnparsable(lib, kind, w'.policies))
  {
    SuccessSetsOnCourse(lib, kind, current, desired, userAck, w, ws[0], start, log, fx);
    Convergence(lib, kind, desired, ws, ws[0].clock);
    var last := ws[|ws| - 1];
    SettledExplains(lib, kind, lib.parse(last.current).value, desired, last, r, fx');
  }

  /** On a settled server no upgrade is in the way and none is to be acknowledged. */
  lemma SettledExplains(lib: SemverLibrary, kind: UpgradeKind, cached: Version, desired: Version,
                        w: World, r: Option<Error>, fx: Effect)
    requires Settled(lib, kind, Less(cached, desired), desired, w.policies, w.clock) && w.clock <= fx.at
    requires ErrorExplained(lib, kind, cached, desired, w, r, fx)
    ensures fx.reply.None? && (r == Some(ApiFailed) <==> fx.lost > 0)
    ensures r.None? || r == Some(ApiFailed) || (r == Some(Unparsable) && AnyUnparsable(lib, kind, w.policies))
  {
    if Less(cached, desired) {
      var id :| id in w.policies && w.policies[id].kind == kind && w.policies[id].Active();
      assert Wanted(lib, w.policies[id], desired, fx.at);
    }
  }

  /** The version a read stores, from the server's id for the version running. */
  function StoredVersion(variant: Variant, current: string, channelGroup: string): string {
    var id := CreateVersionId(current, channelGroup);
    if variant.HostedNodePool? then NodePoolVersion(id) else ClusterVersion(id, channelGroup)
  }

  /** A read stores the version running exactly for the default channel group, on a node pool, and exactly unless
      the version itself ends in the name of that group, on a cluster. */
  lemma ReadIsFreshIff(variant: Variant, current: string, channelGroup: string)
    ensures StoredVersion(variant, current, channelGroup) == current <==>
              if variant.HostedNodePool? then channelGroup == DEFAULT_CHANNEL_GROUP
              else channelGroup != DEFAULT_CHANNEL_GROUP || !EndsWith(current, "-" + DEFAULT_CHANNEL_GROUP)
  {
    VersionIdRoundTrip(current, channelGroup);
    NodePoolKeepsTheChannelGroup(current, channelGroup);
  }

  /** What is promised of a call after a read that stored the version running. */
  ghost predicate FreshOutcome(variant: Variant, lib: SemverLibrary, w: World, w': World, start: seq<Call>,
                               log: seq<Call>, r: Option<Error>, planned: Attribute<string>)
  {
    var (kind, versions) := (variant.Kind(), Versions(variant, lib, Known(w.current), planned));
    && (FreshCall(lib, kind, w, w') || Progress(kind, w, w'))
    && (Safe(lib, kind, w) ==> Safe(lib, kind, w'))
    && (versions.None? || Less(versions.value.1, versions.value.0) ==> w'.policies == w.policies && log == start)
    && (versions.Some? && !Less(versions.value.1, versions.value.0) ==>
          var (current, desired) := versions.value;
          && (r.None? ==> OnCourse(lib, kind, desired, w', w'.clock))
          && (Settled(lib, kind, Less(current, desired), desired, w.policies, w.clock) ==>
                w'.policies == w.policies && OnlyReads(start, log)))
    && (r.None? && w.current != "" && !UnknownOrEmpty(planned) ==> versions.Some?)
  }

  /** What a call comes to that judged by the version `current`. */
  ghost predicate Attempted(variant: Variant, lib: SemverLibrary, current: string, planned: Attribute<string>,
                            userAck: string, w: World, w': World, start: seq<Call>, log: seq<Call>,
                            r: Option<Error>, fx: Option<Effect>)
  {
    match Versions(variant, lib, Known(current), planned)
    case None => w' == w && log == start && (r.None? <==> UnknownOrEmpty(planned) || current == "")
    case Some((cached, desired)) =>
      if Less(desired, cached) then w' == w && log == start
      else Called(lib, variant.Kind(), cached, desired, userAck, w, w', start, log, r, fx)
  }

  lemma FreshlyUpgraded(variant: Variant, lib: SemverLibrary, w: World, w': World, start: seq<Call>, log: seq<Call>,
                        r: Option<Error>, planned: Attribute<string>, userAck: string, fx: Option<Effect>)
    requires IsTable(w.policies) && w'.current == w.current
    requires Attempted(variant, lib, w.current, planned, userAck, w, w', start, log, r, fx)
    ensures FreshOutcome(variant, lib, w, w', start, log, r, planned)
  {
    var versions := Versions(variant, lib, Known(w.current), planned);
    if versions.Some? && !Less(versions.value.1, versions.value.0) && fx.Some? {
      var (current, desired) := versions.value;
      assert CallEffect(lib, variant.Kind(), current, desired, w, w', fx.value);
      if r.None? {
        SuccessSetsOnCourse(lib, variant.Kind(), current, desired, userAck, w, w', start, log, fx.value);
      }
      if Safe(lib, variant.Kind(), w) {
        EffectIsSafeIff(lib, variant.Kind(), current, desired, w, w', fx.value);
      }
    }
  }

  /** The plan is the version running, and no upgrade is under way or to come. */
  ghost predicate Converged(variant: Variant, lib: SemverLibrary, w: World, planned: Attribute<string>) {
    && w.current != "" && planned == Known(w.current)
    && lib.parse(w.current).Some? && NoneActive(variant.Kind(), w.policies)
  }

  /** With the name of the channel group behind it, the version running is read as a lower one, and none of the
      enabled upgrades leads to it. */
  ghost predicate SeenBelowItself(server: PolicyServer, lib: SemverLibrary, running: string, channelGroup: string) {
    var (read, source) := (lib.parse(running + "-" + channelGroup), server.upgradesFromCurrent);
    && lib.parse(running).Some? && read.Some? && Less(read.value, lib.parse(running).value)
    && !(VERSION_PREFIX <= running)
    && forall v :: v in Enabled(server.catalog, source.availableUpgrades, source.channelGroup) ==>
         !lib.Denotes(v.rawId, lib.parse(running).value)
  }

  lemma NodePoolStoresTheGroup(running: string, channelGroup: string)
    requires channelGroup != DEFAULT_CHANNEL_GROUP
    ensures StoredVersion(HostedNodePool, running, channelGroup) == running + "-" + channelGroup
  {
    SuffixOfConcatenation(VERSION_PREFIX, running + ("-" + channelGroup));
    assert CreateVersionId(running, channelGroup) == VERSION_PREFIX + (running + ("-" + channelGroup));
    assert running + ("-" + channelGroup) == running + "-" + channelGroup;
  }

  /** The version planned for a hosted resource is among the enabled upgrades from the one it runs. */
  ghost predicate HostedOffer(server: PolicyServer, lib: SemverLibrary, planned: string) {
    var (desired, source) := (lib.parse(TrimPrefix(planned, VERSION_PREFIX)), server.upgradesFromCurrent);
    && desired.Some?
    && exists v ::
         v in Enabled(server.catalog, source.availableUpgrades, source.channelGroup) &&
         lib.Denotes(v.rawId, desired.value)
  }

  /** A call for the version running, with nothing active, fails only when a request does or an old policy cannot be
      read. */
  lemma ConvergedCallExplained(lib: SemverLibrary, w: World, w': World, start: seq<Call>, log: seq<Call>,
                               r: Option<Error>, planned: Attribute<string>, userAck: string, fx: Option<Effect>)
    requires Attempted(HostedNodePool, lib, w.current, planned, userAck, w, w', start, log, r, fx)
    requires Converged(HostedNodePool, lib, w, planned)
    ensures r.None? || (r == Some(ApiFailed) && fx.Some? && fx.value.lost > 0) ||
            (r == Some(Unparsable) && AnyUnparsable(lib, NodePool, w.policies))
  {
    var running := lib.parse(w.current).value;
    PrecedenceIsTotalPreorder(running, running, running);
  }

  lemma RefusedBelowItself(server: PolicyServer, lib: SemverLibrary, channelGroup: string, w: World, w': World,
                           start: seq<Call>, log: seq<Call>, r: Option<Error>, planned: Attribute<string>,
                           userAck: string, fx: Option<Effect>)
    requires SeenBelowItself(server, lib, w.current, channelGroup) && Converged(HostedNodePool, lib, w, planned)
    requires Attempted(HostedNodePool, lib, w.current + "-" + channelGroup, planned, userAck, w, w', start, log, r, fx)
    requires fx.Some? ==>
               HostedOffer(server, lib, w.current) ||
               Equal(lib.parse(w.current).value, lib.parse(w.current + "-" + channelGroup).value)
    ensures r.Some? && w'.policies == w.policies && OnlyReads(start, log)
  {
    var (stored, running) := (lib.parse(w.current + "-" + channelGroup).value, lib.parse(w.current).value);
    PrecedenceIsTotalPreorder(stored, running, stored);
  }

  /** A read and the call after it. */
  method ReadAndUpgrade(variant: Variant, lib: SemverLibrary, server: PolicyServer, channelGroup: string,
                        state: ResourceState, plan: ResourceState)
    returns (r: Option<Error>, ghost fx: Option<Effect>)
    requires server.Valid() && lib.RoundTrips() && plan != state
    modifies server`policies, server`order, server`nextId, server`log, server`clock, server`lost, server`acked
    modifies state`currentVersion, state`channelGroup, state`version, state`upgradeAcksFor
    ensures server.Valid()
    ensures var stored := StoredVersion(variant, server.current, channelGroup);
            && state.currentVersion == Known(stored)
            && Attempted(variant, lib, stored, plan.version, plan.upgradeAcksFor.GetOr(""), old(server.Seen()),
                         server.Seen(), old(server.log), server.log, r, fx)
            && (fx.Some? && variant.HostedNodePool? ==>
                  var versions := Versions(variant, lib, Known(stored), plan.version);
                  versions.Some? && (HostedOffer(server, lib, plan.version.value) ||
                                     Equal(versions.value.1, versions.value.0)))
    ensures !variant.HostedNodePool? ==> state.channelGroup == Known(channelGroup)
    ensures fx.Some? ==> server.lost == old(server.lost) + fx.value.lost
    ensures r == Some(ApiFailed) ==>
              || server.lost > old(server.lost)
              || UpgradesUnknown(server, variant, state)
              || (fx.Some? && fx.value.reply.Some? && Unreadable(fx.value.reply.value))
  {
    state.currentVersion := Known(StoredVersion(variant, server.current, channelGroup));
    if !variant.HostedNodePool? {
      state.channelGroup := Known(channelGroup);
    }
    r, fx := UpgradeIfNeeded(variant, lib, server, state, plan);
  }

  /** A read followed by an upgrade call, as an apply does it. After a read that stored the version running it is a
      step of a run, and when it succeeds, on course for the planned version unless the one running is above
      it. A node pool outside the default channel group is refused a plan it has already reached; in that group
      only a lost answer, or an old policy whose version cannot be read, keeps such a plan from succeeding. An API
      failure always has its cause: a lost answer, a version the server does not know, or a refused dry run. */
  method RefreshAndUpgrade(variant: Variant, lib: SemverLibrary, server: PolicyServer, channelGroup: string,
                           state: ResourceState, plan: ResourceState)
    returns (r: Option<Error>, ghost fx: Option<Effect>)
    requires server.Valid() && lib.RoundTrips() && plan != state
    modifies server`policies, server`order, server`nextId, server`log, server`clock, server`lost, server`acked
    modifies state`currentVersion, state`channelGroup, state`version, state`upgradeAcksFor
    ensures server.Valid() && server.current == old(server.current)
    ensures state.currentVersion == Known(StoredVersion(variant, server.current, channelGroup))
    ensures StoredVersion(variant, server.current, channelGroup) == server.current ==>
              FreshOutcome(variant, lib, old(server.Seen()), server.Seen(), old(server.log), server.log, r,
                  plan.version)
    ensures !variant.HostedNodePool? ==> state.channelGroup == Known(channelGroup)
    ensures r == Some(ApiFailed) ==>
              || server.lost > old(server.lost)
              || UpgradesUnknown(server, variant, state)
              || (fx.Some? && fx.value.reply.Some? && Unreadable(fx.value.reply.value))
    ensures variant.HostedNodePool? && old(Converged(variant, lib, server.Seen(), plan.version)) ==>
              if channelGroup == DEFAULT_CHANNEL_GROUP then
                r.None? || (r == Some(ApiFailed) && server.lost > old(server.lost)) ||
                  (r == Some(Unparsable) && old(AnyUnparsable(lib, NodePool, server.policies)))
              else
                SeenBelowItself(server, lib, server.current, channelGroup) ==>
                  r.Some? && server.policies == old(server.policies) && OnlyReads(old(server.log), server.log)
  {
    ghost var (w, start) := (server.Seen(), server.log);
    ghost var (planned, userAck) := (plan.version, plan.upgradeAcksFor.GetOr(""));
    r, fx := ReadAndUpgrade(variant, lib, server, channelGroup, state, plan);
    if StoredVersion(variant, w.current, channelGroup) == w.current {
      FreshlyUpgraded(variant, lib, w, server.Seen(), start, server.log, r, planned, userAck, fx);
    }
    if variant.HostedNodePool? && Converged(variant, lib, w, planned) {
      if channelGroup == DEFAULT_CHANNEL_GROUP {
        ReadIsFreshIff(variant, w.current, channelGroup);
        ConvergedCallExplained(lib, w, server.Seen(), start, server.log, r, planned, userAck, fx);
      } else if SeenBelowItself(server, lib, w.current, channelGroup) {
        NodePoolStoresTheGroup(w.current, channelGroup);
        RefusedBelowItself(server, lib, channelGroup, w, server.Seen(), start, server.log, r, planned, userAck, fx);
      }
    }
  }
}
