/** Convergence request by request: a call on a settled server deletes nothing while the server moves between its
    requests, and adds a policy only when the version running has changed meanwhile. */
module UpgradeConvergence {
  import opened Wrappers
  import opened Semver
  import opened Paging
  import opened UpgradePolicies
  import opened UpgradeServer
  import opened UpgradeCall
  import opened UpgradeRuns
  import opened UpgradeInterleaving
  import opened UpgradeDisturbance

  /** What the call has listed and has still to act on. */
  function Held(stage: Stage): seq<Policy> {
    match stage
    case Listing(_, listed) => listed
    case Reading(todo, _) => todo
    case _ => []
  }

  /** A move in the middle of a call that takes no upgrade away, hides none from the listing, and gives the id of a
      listed policy to no policy of another kind. */
  ghost predicate Steady(kind: UpgradeKind, c: Config, c': Config) {
    && Quiet(kind, c, c')
    && (Moves(kind, c, c') ==>
          && Unhindered(kind, c.w, c'.w)
          && forall p :: p in Held(c.stage) && p.kind == kind && p.id in c'.w.policies ==>
              c'.w.policies[p.id].kind == kind)
  }

  ghost predicate SteadyAt(kind: UpgradeKind, cs: seq<Config>, i: nat)
    requires i + 1 < |cs|
  {
    Steady(kind, cs[i], cs[i + 1])
  }

  /** One call, begun on a settled server and not yet over before the last state. */
  ghost predicate SettledCall(lib: SemverLibrary, kind: UpgradeKind, cs: seq<Config>) {
    && |cs| >= 2 && Begins(lib, kind, cs[0], cs[1])
    && Inv(kind, cs[0])
    && Settled(lib, kind, Less(cs[1].cached, cs[1].desired), cs[1].desired, cs[0].w.policies, cs[0].w.clock)
    && Interleaving(lib, kind, cs)
    && (forall i :: 0 <= i < |cs| - 1 ==> SteadyAt(kind, cs, i))
    && forall i :: 1 <= i < |cs| - 1 ==> !cs[i].stage.Idle?
  }

  /** A listed policy differs from the one in the table by its state only. */
  ghost predicate SameButState(kind: UpgradeKind, policies: map<nat, Policy>, p: Policy) {
    p.kind == kind && p.id in policies ==>
        policies[p.id].kind == kind && policies[p.id] == p.(state := policies[p.id].state)
  }

  ghost predicate AllWanted(lib: SemverLibrary, kind: UpgradeKind, desired: Version, policies: map<nat, Policy>,
                            since: int)
  {
    forall id :: IsActive(kind, policies, id) ==> Wanted(lib, policies[id], desired, since)
  }

  /** What was read of a policy that was active then. */
  ghost predicate ReadWanted(lib: SemverLibrary, desired: Version, ups: seq<Policy>, since: int) {
    forall p :: p in ups && p.Active() ==> Wanted(lib, p, desired, since)
  }

  /** Where a call begun at time `since` on a settled server has got to. */
  ghost predicate OnTrack(lib: SemverLibrary, kind: UpgradeKind, c: Config, since: int) {
    && c.w.clock >= since && IsTable(c.w.policies)
    && AllWanted(lib, kind, c.desired, c.w.policies, since)
    && !Less(c.desired, c.cached)
    && (forall p :: p in Held(c.stage) ==> SameButState(kind, c.w.policies, p))
    && match c.stage
       case Reading(todo, ups) => (forall p :: p in todo ==> p.kind == kind) && ReadWanted(lib, c.desired, ups, since)
       case Walking(ups, _, _, now) => now >= since && ReadWanted(lib, c.desired, ups, since)
       case Adding => Less(c.cached, c.desired)
       case _ => true
  }

  lemma MovesStayOnTrack(lib: SemverLibrary, kind: UpgradeKind, c: Config, c': Config, since: int)
    requires OnTrack(lib, kind, c, since) && Moves(kind, c, c') && Steady(kind, c, c')
    ensures OnTrack(lib, kind, c', since)
  {
    forall id | IsActive(kind, c'.w.policies, id) ensures Wanted(lib, c'.w.policies[id], c.desired, since) {
      MovesOnlyRetire(kind, c.w, c'.w, id);
      assert Wanted(lib, c.w.policies[id], c.desired, since);
    }
    forall p | p in Held(c'.stage) ensures SameButState(kind, c'.w.policies, p) {
      assert SameButState(kind, c.w.policies, p);
    }
  }

  lemma ListingStaysOnTrack(lib: SemverLibrary, kind: UpgradeKind, c: Config, c': Config, since: int)
    requires OnTrack(lib, kind, c, since) && ListsPage(kind, c, c')
    ensures OnTrack(lib, kind, c', since)
  {
    var listed := c.stage.listed + Entries(PageOf(c.order, c.stage.page), c.w.policies);
    forall p | p in listed ensures SameButState(kind, c.w.policies, p) {
    }
    if c'.stage.Reading? {
      forall p ensures p in c'.stage.todo <==> p in listed && p.kind == kind {
        OfKindSelects(listed, kind, p);
      }
    }
  }

  lemma ReadsStayOnTrack(lib: SemverLibrary, kind: UpgradeKind, c: Config, c': Config, since: int)
    requires OnTrack(lib, kind, c, since) && Reads(c, c')
    ensures OnTrack(lib, kind, c', since)
  {
    if c.stage.todo != [] {
      var p := c.stage.todo[0];
      assert SameButState(kind, c.w.policies, p);
      var q := p.(state := c.w.policies[p.id].state);
      assert q == c.w.policies[p.id] && (q.Active() ==> IsActive(kind, c.w.policies, p.id));
    }
  }

  /** A walk finds nothing to delete. */
  lemma WalksOnlyRead(lib: SemverLibrary, kind: UpgradeKind, c: Config, c': Config, since: int)
    requires OnTrack(lib, kind, c, since) && Walks(lib, c, c')
    ensures c'.w == c.w && OnTrack(lib, kind, c', since)
  {
    var Walking(ups, next, correct, now) := c.stage;
    if next < |ups| {
      assert ups[next] in ups;
      assert !Cancellable(lib, ups[next], c.desired, now);
    } else {
      PrecedenceIsTotalPreorder(c.cached, c.desired, c.cached);
    }
  }

  /** A step of such a call: the server moves, a request reads, or a policy is scheduled. */
  ghost predicate KeepsPolicies(lib: SemverLibrary, kind: UpgradeKind, c: Config, c': Config) {
    Moves(kind, c, c') || c'.w == c.w || Schedules(lib, kind, c, c')
  }

  lemma StepStaysOnTrack(lib: SemverLibrary, kind: UpgradeKind, c: Config, c': Config, since: int)
    requires OnTrack(lib, kind, c, since) && !c.stage.Idle? && Step(lib, kind, c, c') && Steady(kind, c, c')
    ensures KeepsPolicies(lib, kind, c, c')
    ensures !c'.stage.Idle? ==> OnTrack(lib, kind, c', since) && c'.cached == c.cached && c'.desired == c.desired
  {
    if Moves(kind, c, c') {
      MovesStayOnTrack(lib, kind, c, c', since);
    } else if ListsPage(kind, c, c') {
      ListingStaysOnTrack(lib, kind, c, c', since);
    } else if Reads(c, c') {
      ReadsStayOnTrack(lib, kind, c, c', since);
    } else if Walks(lib, c, c') {
      WalksOnlyRead(lib, kind, c, c', since);
    } else if Fails(lib, kind, c, c') && c' != c.(stage := Idle) {
      var done :| (Walks(lib, c, done) || Adds(lib, kind, c, done)) && c' == done.(stage := Idle);
      if Walks(lib, c, done) {
        WalksOnlyRead(lib, kind, c, done, since);
      } else {
        var p: Policy :| SchedulesPolicy(lib, kind, c, done, p);
        assert SchedulesPolicy(lib, kind, c, c', p);
      }
    }
  }

  lemma {:induction false} CallStaysOnTrack(lib: SemverLibrary, kind: UpgradeKind, cs: seq<Config>, i: nat)
    requires SettledCall(lib, kind, cs) && 1 <= i < |cs| && !cs[i].stage.Idle?
    ensures OnTrack(lib, kind, cs[i], cs[0].w.clock)
    ensures cs[i].cached == cs[1].cached && cs[i].desired == cs[1].desired
  {
    if i > 1 {
      CallStaysOnTrack(lib, kind, cs, i - 1);
      assert InterleavedAt(lib, kind, cs, i - 1) && SteadyAt(kind, cs, i - 1);
      StepStaysOnTrack(lib, kind, cs[i - 1], cs[i], cs[0].w.clock);
    }
  }

  /** A call on a settled server, with unhindered moves between its requests, deletes nothing, on no exit. */
  lemma SettledCallDeletesNothing(lib: SemverLibrary, kind: UpgradeKind, cs: seq<Config>, i: nat)
    requires SettledCall(lib, kind, cs) && i + 1 < |cs|
    ensures KeepsPolicies(lib, kind, cs[i], cs[i + 1])
  {
    if i > 0 {
      CallStaysOnTrack(lib, kind, cs, i);
      assert InterleavedAt(lib, kind, cs, i) && SteadyAt(kind, cs, i);
      StepStaysOnTrack(lib, kind, cs[i], cs[i + 1], cs[0].w.clock);
    }
  }

  ghost predicate AnyActive(kind: UpgradeKind, policies: map<nat, Policy>) {
    exists id :: IsActive(kind, policies, id)
  }

  /** An unhindered move takes the last active policy away only by completing it, and then another version runs. */
  lemma MoveKeepsOneActive(lib: SemverLibrary, kind: UpgradeKind, c: Config, c': Config, since: int)
    requires OnTrack(lib, kind, c, since) && Moves(kind, c, c') && Steady(kind, c, c')
    requires AnyActive(kind, c.w.policies) && c'.w.current == c.w.current
    requires lib.parse(c.w.current) == Some(c.cached) && Less(c.cached, c.desired)
    ensures AnyActive(kind, c'.w.policies)
  {
    var id :| IsActive(kind, c.w.policies, id);
    if !Progress(kind, c.w, c'.w) {
      var done :| Completion(kind, c.w, c'.w, done);
      assert IsActive(kind, c.w.policies, done);
      assert false;
    }
    assert IsActive(kind, c'.w.policies, id);
  }

  ghost predicate SameVersionAt(cs: seq<Config>, i: nat)
    requires i + 1 < |cs|
  {
    cs[i + 1].w.current == cs[i].w.current
  }

  lemma {:induction false} UpgradeStaysActive(lib: SemverLibrary, kind: UpgradeKind, cs: seq<Config>, i: nat)
    requires SettledCall(lib, kind, cs) && 1 <= i < |cs| && !cs[i].stage.Idle?
    requires Less(cs[1].cached, cs[1].desired) && forall j :: 0 <= j < i ==> SameVersionAt(cs, j)
    ensures AnyActive(kind, cs[i].w.policies) && lib.parse(cs[i].w.current) == Some(cs[i].cached)
  {
    if i == 1 {
      var id :| id in cs[0].w.policies && cs[0].w.policies[id].kind == kind && cs[0].w.policies[id].Active();
      assert IsActive(kind, cs[1].w.policies, id);
    } else {
      UpgradeStaysActive(lib, kind, cs, i - 1);
      CallStaysOnTrack(lib, kind, cs, i - 1);
      assert InterleavedAt(lib, kind, cs, i - 1) && SteadyAt(kind, cs, i - 1) && SameVersionAt(cs, i - 1);
      StepStaysOnTrack(lib, kind, cs[i - 1], cs[i], cs[0].w.clock);
      if Moves(kind, cs[i - 1], cs[i]) {
        MoveKeepsOneActive(lib, kind, cs[i - 1], cs[i], cs[0].w.clock);
      } else {
        assert cs[i].w == cs[i - 1].w;
      }
    }
  }

  /** And it schedules a policy only when the version running has changed since it began. */
  lemma SettledCallAddsOnlyAfterAChange(lib: SemverLibrary, kind: UpgradeKind, cs: seq<Config>, i: nat)
    requires SettledCall(lib, kind, cs) && i + 1 < |cs| && SchedulesAt(lib, kind, cs, i)
    ensures exists j :: 0 <= j < i && !SameVersionAt(cs, j)
  {
    CallStaysOnTrack(lib, kind, cs, i);
    if forall j :: 0 <= j < i ==> SameVersionAt(cs, j) {
      UpgradeStaysActive(lib, kind, cs, i);
      forall j | 0 <= j < |cs| - 1 ensures QuietAt(kind, cs, j) {
        assert SteadyAt(kind, cs, j);
      }
      InterleavingsKeepOneActive(lib, kind, cs, i);
      NoneAheadOfAdding(kind, cs[i]);
    }
  }
}
