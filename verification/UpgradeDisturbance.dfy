/** What a server that moves in the middle of an upgrade call can break, and exactly when. */
module UpgradeDisturbance {
  import opened Wrappers
  import opened Semver
  import opened Paging
  import opened UpgradePolicies
  import opened UpgradeServer
  import opened UpgradeCall
  import opened UpgradeRuns
  import opened UpgradeInterleaving

  /** The step schedules a policy, whether or not its request is answered. */
  ghost predicate Schedules(lib: SemverLibrary, kind: UpgradeKind, c: Config, c': Config) {
    c.stage.Adding? && exists p: Policy :: SchedulesPolicy(lib, kind, c, c', p)
  }

  ghost predicate SchedulesAt(lib: SemverLibrary, kind: UpgradeKind, cs: seq<Config>, i: nat)
    requires i + 1 < |cs|
  {
    Schedules(lib, kind, cs[i], cs[i + 1])
  }

  // A second active policy

  /** No other step makes a policy active. */
  lemma OtherStepsOnlyRetire(lib: SemverLibrary, kind: UpgradeKind, c: Config, c': Config, id: nat)
    requires Step(lib, kind, c, c') && !Schedules(lib, kind, c, c') && IsActive(kind, c'.w.policies, id)
    ensures IsActive(kind, c.w.policies, id)
  {
  }

  /** The policy a call schedules is the only active one exactly when none was active before. */
  lemma ScheduledPolicyIsAloneIff(lib: SemverLibrary, kind: UpgradeKind, c: Config, c': Config)
    requires Schedules(lib, kind, c, c')
    ensures AtMostOneActive(kind, c'.w.policies) <==> NoneActive(kind, c.w.policies)
  {
    var p: Policy :| SchedulesPolicy(lib, kind, c, c', p);
    assert IsActive(kind, c'.w.policies, p.id);
    forall id ensures IsActive(kind, c'.w.policies, id) <==> id == p.id || IsActive(kind, c.w.policies, id) {
    }
    if AtMostOneActive(kind, c'.w.policies) {
      forall id | id in c.w.policies && c.w.policies[id].kind == kind ensures !c.w.policies[id].Active() {
        assert IsActive(kind, c.w.policies, id) ==> id == p.id;
      }
    } else {
      var i: nat, j: nat :| IsActive(kind, c'.w.policies, i) && IsActive(kind, c'.w.policies, j) && i != j;
      assert IsActive(kind, c.w.policies, if i == p.id then j else i);
    }
  }

  ghost predicate OneActiveAt(kind: UpgradeKind, cs: seq<Config>, i: nat)
    requires i < |cs|
  {
    AtMostOneActive(kind, cs[i].w.policies)
  }

  /** Every step that schedules a policy finds none active. */
  ghost predicate AllAlone(lib: SemverLibrary, kind: UpgradeKind, cs: seq<Config>) {
    forall i :: 0 <= i < |cs| - 1 && SchedulesAt(lib, kind, cs, i) ==> NoneActive(kind, cs[i].w.policies)
  }

  lemma {:induction false} AloneStaysOne(lib: SemverLibrary, kind: UpgradeKind, cs: seq<Config>, i: nat)
    requires i < |cs| && AtMostOneActive(kind, cs[0].w.policies)
    requires Interleaving(lib, kind, cs) && AllAlone(lib, kind, cs)
    ensures OneActiveAt(kind, cs, i)
  {
    if i > 0 {
      AloneStaysOne(lib, kind, cs, i - 1);
      assert InterleavedAt(lib, kind, cs, i - 1);
      if SchedulesAt(lib, kind, cs, i - 1) {
        ScheduledPolicyIsAloneIff(lib, kind, cs[i - 1], cs[i]);
      } else {
        forall id | IsActive(kind, cs[i].w.policies, id) ensures IsActive(kind, cs[i - 1].w.policies, id) {
          OtherStepsOnlyRetire(lib, kind, cs[i - 1], cs[i], id);
        }
      }
    }
  }

  /** In any run of interleaved requests and moves, at most one policy is ever active exactly when every policy
      scheduled found none active at that moment. */
  lemma RunKeepsOneActiveIff(lib: SemverLibrary, kind: UpgradeKind, cs: seq<Config>)
    requires cs != [] && AtMostOneActive(kind, cs[0].w.policies) && Interleaving(lib, kind, cs)
    ensures (forall i :: 0 <= i < |cs| ==> OneActiveAt(kind, cs, i)) <==> AllAlone(lib, kind, cs)
  {
    if AllAlone(lib, kind, cs) {
      forall i | 0 <= i < |cs| ensures OneActiveAt(kind, cs, i) {
        AloneStaysOne(lib, kind, cs, i);
      }
    }
    if forall i :: 0 <= i < |cs| ==> OneActiveAt(kind, cs, i) {
      forall i | 0 <= i < |cs| - 1 && SchedulesAt(lib, kind, cs, i) ensures NoneActive(kind, cs[i].w.policies) {
        assert OneActiveAt(kind, cs, i + 1);
        ScheduledPolicyIsAloneIff(lib, kind, cs[i], cs[i + 1]);
      }
    }
  }

  /** A run that begins between calls, on a server whose list never exceeds `n` policies. */
  ghost predicate ListsUpTo(lib: SemverLibrary, kind: UpgradeKind, cs: seq<Config>, n: nat) {
    && cs != [] && Interleaving(lib, kind, cs)
    && cs[0].stage.Idle? && Inv(kind, cs[0])
    && forall j :: 0 <= j < |cs| ==> |cs[j].order| <= n
  }

  /** Lists of up to `n` policies are safe to read page by page. */
  ghost predicate SafeListLength(lib: SemverLibrary, kind: UpgradeKind, n: nat) {
    forall cs: seq<Config>, i :: ListsUpTo(lib, kind, cs, n) && 0 <= i < |cs| ==> OneActiveAt(kind, cs, i)
  }

  /** The caller's condition: whatever moves and failures come in between, at most one policy is ever active,
      exactly if the policies never fill more than one page. `from` and `to` are any two versions, one above
      the other. */
  lemma OnePageIsSafeIff(lib: SemverLibrary, kind: UpgradeKind, from: string, to: string,
                         cached: Version, desired: Version, n: nat)
    requires lib.parse(from) == Some(cached) && lib.Denotes(to, desired) && Less(cached, desired)
    ensures SafeListLength(lib, kind, n) <==> n <= 100
  {
    if n <= PAGE_SIZE {
      forall cs: seq<Config>, i | ListsUpTo(lib, kind, cs, n) && 0 <= i < |cs| ensures OneActiveAt(kind, cs, i) {
        ShortListsKeepOneActive(lib, kind, cs, i);
      }
    } else {
      var cs := SlippedPolicyIsDoubled(lib, kind, from, to, cached, desired);
      assert ListsUpTo(lib, kind, cs, n) && !OneActiveAt(kind, cs, 7);
    }
  }

  // Policies that do not lead upwards

  /** The version wanted is above the one running. */
  ghost predicate LeadsUp(lib: SemverLibrary, c: Config) {
    lib.parse(c.w.current).Some? && Less(lib.parse(c.w.current).value, c.desired)
  }

  /** Scheduling a policy keeps the server safe exactly when the desired version is above the one running, and
      no policy is active, at that moment. */
  lemma ScheduledPolicyIsSafeIff(lib: SemverLibrary, kind: UpgradeKind, c: Config, c': Config)
    requires Safe(lib, kind, c.w) && Schedules(lib, kind, c, c')
    ensures Safe(lib, kind, c'.w) <==> LeadsUp(lib, c) && NoneActive(kind, c.w.policies)
  {
    var p: Policy :| SchedulesPolicy(lib, kind, c, c', p);
    ScheduledPolicyIsAloneIff(lib, kind, c, c');
    EqualVersionsCompareAlike(lib.parse(p.version).value, c.desired, lib.parse(c.w.current).value);
    assert IsActive(kind, c'.w.policies, p.id);
    if NoneActive(kind, c.w.policies) {
      forall id | IsActive(kind, c'.w.policies, id) ensures id == p.id {
      }
    }
  }

  lemma WalksStaySafe(lib: SemverLibrary, kind: UpgradeKind, c: Config, c': Config)
    requires Safe(lib, kind, c.w) && Walks(lib, c, c')
    ensures Safe(lib, kind, c'.w)
  {
    assert forall id :: IsActive(kind, c'.w.policies, id) ==> IsActive(kind, c.w.policies, id);
  }

  /** No other step breaks safety. */
  lemma OtherStepsStaySafe(lib: SemverLibrary, kind: UpgradeKind, c: Config, c': Config)
    requires Safe(lib, kind, c.w) && Step(lib, kind, c, c') && !Schedules(lib, kind, c, c')
    ensures Safe(lib, kind, c'.w)
  {
    if Moves(kind, c, c') {
      ServerMoveIsSafe(lib, kind, c.w, c'.w);
    } else if Walks(lib, c, c') {
      WalksStaySafe(lib, kind, c, c');
    } else if Fails(lib, kind, c, c') && c' != c.(stage := Idle) {
      var done :| (Walks(lib, c, done) || Adds(lib, kind, c, done)) && c' == done.(stage := Idle);
      if Walks(lib, c, done) {
        WalksStaySafe(lib, kind, c, done);
      }
    }
  }

  ghost predicate SafeAt(lib: SemverLibrary, kind: UpgradeKind, cs: seq<Config>, i: nat)
    requires i < |cs|
  {
    Safe(lib, kind, cs[i].w)
  }

  /** Every step that schedules a policy finds a version above the one running wanted, and none active. */
  ghost predicate AllLeadUpAlone(lib: SemverLibrary, kind: UpgradeKind, cs: seq<Config>) {
    forall i :: 0 <= i < |cs| - 1 && SchedulesAt(lib, kind, cs, i) ==>
      LeadsUp(lib, cs[i]) && NoneActive(kind, cs[i].w.policies)
  }

  lemma {:induction false} LeadingUpStaysSafe(lib: SemverLibrary, kind: UpgradeKind, cs: seq<Config>, i: nat)
    requires i < |cs| && Safe(lib, kind, cs[0].w)
    requires Interleaving(lib, kind, cs) && AllLeadUpAlone(lib, kind, cs)
    ensures SafeAt(lib, kind, cs, i)
  {
    if i > 0 {
      LeadingUpStaysSafe(lib, kind, cs, i - 1);
      assert InterleavedAt(lib, kind, cs, i - 1);
      if SchedulesAt(lib, kind, cs, i - 1) {
        ScheduledPolicyIsSafeIff(lib, kind, cs[i - 1], cs[i]);
      } else {
        OtherStepsStaySafe(lib, kind, cs[i - 1], cs[i]);
      }
    }
  }

  /** Safety over whole runs of interleaved requests and server moves: every state is safe exactly when every
      policy scheduled was, at that moment, for a version above the one running, with none active. */
  lemma RunIsSafeIff(lib: SemverLibrary, kind: UpgradeKind, cs: seq<Config>)
    requires cs != [] && Safe(lib, kind, cs[0].w) && Interleaving(lib, kind, cs)
    ensures (forall i :: 0 <= i < |cs| ==> SafeAt(lib, kind, cs, i)) <==> AllLeadUpAlone(lib, kind, cs)
  {
    if AllLeadUpAlone(lib, kind, cs) {
      forall i | 0 <= i < |cs| ensures SafeAt(lib, kind, cs, i) {
        LeadingUpStaysSafe(lib, kind, cs, i);
      }
    }
    if forall i :: 0 <= i < |cs| ==> SafeAt(lib, kind, cs, i) {
      forall i | 0 <= i < |cs| - 1 && SchedulesAt(lib, kind, cs, i)
        ensures LeadsUp(lib, cs[i]) && NoneActive(kind, cs[i].w.policies)
      {
        assert SafeAt(lib, kind, cs, i) && SafeAt(lib, kind, cs, i + 1);
        ScheduledPolicyIsSafeIff(lib, kind, cs[i], cs[i + 1]);
      }
    }
  }

  /** No upgrade completes, that is the version running stays, from the beginning of a call to its end. */
  ghost predicate VersionStaysAt(cs: seq<Config>, i: nat)
    requires i + 1 < |cs|
  {
    cs[i].stage.Idle? || cs[i + 1].w.current == cs[i].w.current
  }

  /** A call on its way that still judges by the version running. */
  ghost predicate UpToDate(lib: SemverLibrary, c: Config) {
    !c.stage.Idle? ==>
      && lib.parse(c.w.current) == Some(c.cached) && !Less(c.desired, c.cached)
      && (c.stage.Adding? ==> Less(c.cached, c.desired))
  }

  lemma {:induction false} CallsStayUpToDate(lib: SemverLibrary, kind: UpgradeKind, cs: seq<Config>, i: nat)
    requires i < |cs| && cs[0].stage.Idle? && Interleaving(lib, kind, cs)
    requires forall j :: 0 <= j < |cs| - 1 ==> VersionStaysAt(cs, j)
    ensures UpToDate(lib, cs[i])
  {
    if i > 0 {
      CallsStayUpToDate(lib, kind, cs, i - 1);
      assert InterleavedAt(lib, kind, cs, i - 1) && VersionStaysAt(cs, i - 1);
      PrecedenceIsTotalPreorder(cs[i - 1].cached, cs[i - 1].desired, cs[i - 1].cached);
    }
  }

  lemma NoneAheadOfAdding(kind: UpgradeKind, c: Config)
    requires Inv(kind, c) && c.stage.Adding?
    ensures NoneActive(kind, c.w.policies)
  {
    forall id | id in c.w.policies && c.w.policies[id].kind == kind ensures !c.w.policies[id].Active() {
      assert IsActive(kind, c.w.policies, id) ==> Ahead(kind, c, id);
    }
  }

  /** So runs are safe when no upgrade completes in the middle of a call. */
  lemma RunsWithoutCompletionDuringCallsAreSafe(lib: SemverLibrary, kind: UpgradeKind, cs: seq<Config>, i: nat)
    requires i < |cs| && cs[0].stage.Idle? && Inv(kind, cs[0]) && Safe(lib, kind, cs[0].w)
    requires Interleaving(lib, kind, cs) && QuietRun(kind, cs)
    requires forall j :: 0 <= j < |cs| - 1 ==> VersionStaysAt(cs, j)
    ensures Safe(lib, kind, cs[i].w)
  {
    forall j | 0 <= j < |cs| - 1 && SchedulesAt(lib, kind, cs, j)
      ensures LeadsUp(lib, cs[j]) && NoneActive(kind, cs[j].w.policies)
    {
      CallsStayUpToDate(lib, kind, cs, j);
      InterleavingsKeepOneActive(lib, kind, cs, j);
      NoneAheadOfAdding(kind, cs[j]);
    }
    LeadingUpStaysSafe(lib, kind, cs, i);
  }

  /** Safety does break: when the wanted upgrade completes between the listing and the reading of its state,
      the call takes it for a finished one and schedules the version already running once more. */
  lemma CompletionDuringACallIsRepeated(lib: SemverLibrary, kind: UpgradeKind, from: string, to: string,
                                        cached: Version, desired: Version)
    returns (cs: seq<Config>)
    requires lib.parse(from) == Some(cached) && lib.Denotes(to, desired) && Less(cached, desired)
    ensures |cs| == 9 && Interleaving(lib, kind, cs)
    ensures cs[0].stage.Idle? && Inv(kind, cs[0]) && Safe(lib, kind, cs[0].w)
    ensures cs[8].stage.Idle? && !Safe(lib, kind, cs[8].w)
  {
    PrecedenceIsTotalPreorder(cached, desired, cached);
    var read := lib.parse(to).value;
    EqualVersionsCompareAlike(read, desired, cached);
    EqualVersionsCompareAlike(read, desired, desired);
    cs := RepeatingRun(lib, kind, from, to, cached, desired);
    assert Safe(lib, kind, cs[7].w);
    ScheduledPolicyIsSafeIff(lib, kind, cs[7], cs[8]);
  }

  /** The run itself, on a server whose only policy is the wanted one, under way. */
  lemma RepeatingRun(lib: SemverLibrary, kind: UpgradeKind, from: string, to: string, cached: Version, desired: Version)
    returns (cs: seq<Config>)
    requires lib.parse(from) == Some(cached) && lib.Denotes(to, desired)
    requires !Less(desired, cached) && !Equal(desired, cached)
    ensures |cs| == 9 && Interleaving(lib, kind, cs)
    ensures cs[0] == Config(World(map[0 := Policy(0, kind, to, 0, Started)], from, 0), [0], Idle, cached, desired)
    ensures cs[7].w == World(map[0 := Policy(0, kind, to, 0, Completed)], to, 0) && cs[7].desired == desired
    ensures Inv(kind, cs[7]) && Schedules(lib, kind, cs[7], cs[8])
    ensures cs[8].stage.Idle?
  {
    var (p, seen) := (Policy(0, kind, to, 0, Started), Policy(0, kind, to, 0, Completed));
    var front := ListsOne(lib, kind, p, from, cached, desired);
    var middle := CompletesAndReads(lib, kind, front[2], p, seen, to);
    var back := FindsNothing(lib, kind, middle[2], seen, to);
    cs := JoinedThree(lib, kind, front, middle, back);
    assert cs[7] == back[3] && cs[8] == back[4];
  }

  /** A call begins on a server with one policy, which one page shows. */
  lemma ListsOne(lib: SemverLibrary, kind: UpgradeKind, p: Policy, from: string, cached: Version, desired: Version)
    returns (cs: seq<Config>)
    requires lib.parse(from) == Some(cached) && !Less(desired, cached)
    requires p.id == 0 && p.kind == kind
    ensures |cs| == 3 && Interleaving(lib, kind, cs)
    ensures cs[0] == Config(World(map[0 := p], from, 0), [0], Idle, cached, desired)
    ensures |cs[1].order| == 1
    ensures cs[2] == Config(World(map[0 := p], from, 0), [0], Reading([p], []), cached, desired)
  {
    var c0 := Config(World(map[0 := p], from, 0), [0], Idle, cached, desired);
    var (c1, c2) := (c0.(stage := Listing(1, [])), c0.(stage := Reading([p], [])));
    assert Begins(lib, kind, c0, c1);
    OnePolicyIsListed(kind, c1, p);
    TwoSteps(lib, kind, c0, c1, c2);
    cs := [c0, c1, c2];
  }

  lemma TwoSteps(lib: SemverLibrary, kind: UpgradeKind, a: Config, b: Config, c: Config)
    requires Step(lib, kind, a, b) && Step(lib, kind, b, c)
    ensures Interleaving(lib, kind, [a, b, c])
  {
    var cs := [a, b, c];
    assert InterleavedAt(lib, kind, cs, 0) && InterleavedAt(lib, kind, cs, 1);
  }

  lemma CompletesAndReads(lib: SemverLibrary, kind: UpgradeKind, c: Config, p: Policy, seen: Policy, to: string)
    returns (cs: seq<Config>)
    requires p == Policy(0, kind, to, 0, Started) && seen == p.(state := Completed)
    requires c.w.policies == map[0 := p] && c.w.clock == 0 && c.order == [0] && c.stage == Reading([p], [])
    ensures |cs| == 3 && Interleaving(lib, kind, cs) && cs[0] == c
    ensures cs[2] == Config(World(map[0 := seen], to, 0), [0], Reading([], [seen]), c.cached, c.desired)
  {
    var c1 := c.(w := World(map[0 := seen], to, 0));
    var c2 := c1.(stage := Reading([], [seen]));
    assert Completion(kind, c.w, c1.w, 0);
    assert Moves(kind, c, c1);
    assert [p][1..] == [] && [] + [seen] == [seen];
    assert Reads(c1, c2);
    cs := [c, c1, c2];
    assert InterleavedAt(lib, kind, cs, 0) && InterleavedAt(lib, kind, cs, 1);
  }

  lemma FindsNothing(lib: SemverLibrary, kind: UpgradeKind, c: Config, seen: Policy, to: string)
    returns (cs: seq<Config>)
    requires seen == Policy(0, kind, to, 0, Completed) && lib.Denotes(to, c.desired) && !Equal(c.desired, c.cached)
    requires c.w == World(map[0 := seen], to, 0) && c.order == [0] && c.stage == Reading([], [seen])
    ensures |cs| == 5 && Interleaving(lib, kind, cs) && cs[0] == c
    ensures cs[3] == c.(stage := Adding) && Inv(kind, cs[3]) && Schedules(lib, kind, cs[3], cs[4])
    ensures cs[4].stage.Idle?
  {
    var c1 := c.(stage := Walking([seen], 0, false, 0));
    var c2 := c.(stage := Walking([seen], 1, false, 0));
    assert Reads(c, c1) && Walks(lib, c1, c2);
    TwoSteps(lib, kind, c, c1, c2);
    var back := SchedulesItAgain(lib, kind, c2, seen, to);
    Joined(lib, kind, [c, c1, c2], back);
    cs := [c, c1, c2] + back[1..];
  }

  lemma SchedulesItAgain(lib: SemverLibrary, kind: UpgradeKind, c: Config, seen: Policy, to: string)
    returns (cs: seq<Config>)
    requires seen == Policy(0, kind, to, 0, Completed) && lib.Denotes(to, c.desired) && !Equal(c.desired, c.cached)
    requires c.w == World(map[0 := seen], to, 0) && c.order == [0] && c.stage == Walking([seen], 1, false, 0)
    ensures |cs| == 3 && Interleaving(lib, kind, cs) && cs[0] == c
    ensures cs[1] == c.(stage := Adding) && Inv(kind, cs[1]) && Schedules(lib, kind, cs[1], cs[2])
    ensures cs[2].stage.Idle?
  {
    var again := Policy(1, kind, to, TEN_MINUTES, Pending);
    var c1 := c.(stage := Adding);
    var c2 := Config(World(c.w.policies[1 := again], to, 0), [0] + [1], Idle, c.cached, c.desired);
    assert Walks(lib, c, c1);
    assert SchedulesPolicy(lib, kind, c1, c2, again);
    assert Adds(lib, kind, c1, c2);
    TwoSteps(lib, kind, c, c1, c2);
    cs := [c, c1, c2];
  }

  /** A run that goes on where another ends. */
  lemma Joined(lib: SemverLibrary, kind: UpgradeKind, front: seq<Config>, back: seq<Config>)
    requires Interleaving(lib, kind, front) && Interleaving(lib, kind, back)
    requires front != [] && back != [] && front[|front| - 1] == back[0]
    ensures Interleaving(lib, kind, front + back[1..])
  {
    var (cs, at) := (front + back[1..], |front| - 1);
    assert forall i :: at <= i < |cs| ==> cs[i] == back[i - at];
    forall i | 0 <= i < |cs| - 1 ensures InterleavedAt(lib, kind, cs, i) {
      if i < at {
        assert InterleavedAt(lib, kind, front, i);
      } else {
        assert InterleavedAt(lib, kind, back, i - at);
      }
    }
  }

  lemma JoinedThree(lib: SemverLibrary, kind: UpgradeKind, a: seq<Config>, b: seq<Config>, c: seq<Config>)
    returns (cs: seq<Config>)
    requires Interleaving(lib, kind, a) && Interleaving(lib, kind, b) && Interleaving(lib, kind, c)
    requires |a| >= 2 && |b| >= 2 && |c| >= 2 && a[|a| - 1] == b[0] && b[|b| - 1] == c[0]
    ensures Interleaving(lib, kind, cs) && |cs| == |a| + |b| + |c| - 2
    ensures cs[..|a|] == a && cs[|a| - 1..|a| + |b| - 1] == b && cs[|a| + |b| - 2..] == c
  {
    Joined(lib, kind, a, b);
    Joined(lib, kind, a + b[1..], c);
    cs := a + b[1..] + c[1..];
  }

  /** A list of one policy is read in one page. */
  lemma OnePolicyIsListed(kind: UpgradeKind, c: Config, p: Policy)
    requires c.order == [p.id] && c.w.policies == map[p.id := p] && p.kind == kind && c.stage == Listing(1, [])
    ensures ListsPage(kind, c, c.(stage := Reading([p], [])))
  {
    assert PageOf([p.id], 1) == [p.id];
    assert [] + Entries([p.id], c.w.policies) == [p];
    OfKindOneMore([], p, kind);
    assert [] + [p] == [p];
  }

  // Policies that slip past the listing

  function OtherKind(kind: UpgradeKind): UpgradeKind {
    if kind.OsdCve? then Osd else OsdCve
  }

  /** A table of a page and one more: policies of another kind, and last the given one. */
  function FullTable(kind: UpgradeKind, p: Policy): map<nat, Policy> {
    map id: nat | 0 <= id <= PAGE_SIZE :: if id == PAGE_SIZE then p else Policy(id, OtherKind(kind), "", 0, Completed)
  }

  function UpTo(n: nat): seq<nat> {
    seq(n, i requires 0 <= i < n => i)
  }

  lemma {:induction false} NoneOfKind(ps: seq<Policy>, kind: UpgradeKind)
    requires forall p :: p in ps ==> p.kind != kind
    ensures OfKind(ps, kind) == []
  {
    if ps != [] {
      NoneOfKind(ps[..|ps| - 1], kind);
    }
  }

  /** A started upgrade is on the second page. Once the first is read, a policy of that one vanishes, the
      started upgrade moves up, and the second page is empty: the call finds nothing, and schedules a second
      policy beside it. */
  lemma SlippedPolicyIsDoubled(lib: SemverLibrary, kind: UpgradeKind, from: string, to: string, cached: Version,
                               desired: Version)
    returns (cs: seq<Config>)
    requires lib.parse(from) == Some(cached) && lib.Denotes(to, desired) && Less(cached, desired)
    ensures |cs| == 8 && Interleaving(lib, kind, cs)
    ensures cs[0].stage.Idle? && Inv(kind, cs[0]) && Safe(lib, kind, cs[0].w)
    ensures !QuietAt(kind, cs, 2) && forall i :: 0 <= i < 8 ==> |cs[i].order| <= PAGE_SIZE + 1
    ensures !AtMostOneActive(kind, cs[7].w.policies)
  {
    PrecedenceIsTotalPreorder(cached, desired, cached);
    EqualVersionsCompareAlike(lib.parse(to).value, desired, cached);
    var p := Policy(PAGE_SIZE, kind, to, 0, Started);
    var order, all := FullPageAndOneMore(kind, p);
    var orderAfter, rest := FirstVanishes(kind, p, order, all, from);
    cs := SlippingRun(lib, kind, Config(World(all, from, 0), order, Idle, cached, desired), p, orderAfter, rest, to);
  }

  lemma SlippingRun(lib: SemverLibrary, kind: UpgradeKind, c: Config, p: Policy, orderAfter: seq<nat>,
                    rest: map<nat, Policy>, to: string)
    returns (cs: seq<Config>)
    requires c.stage.Idle? && lib.parse(c.w.current) == Some(c.cached) && lib.Denotes(to, c.desired) && c.w.clock == 0
    requires !Less(c.desired, c.cached) && !Equal(c.desired, c.cached)
    requires Orders(c.order, c.w.policies) && |c.order| == PAGE_SIZE + 1 && orderAfter == Removed(c.order, 0)
    requires c.order[PAGE_SIZE] == PAGE_SIZE
    requires forall q :: q in Entries(PageOf(c.order, 1), c.w.policies) ==> q.kind != kind
    requires Orders(orderAfter, rest) && Progress(kind, c.w, c.w.(policies := rest))
    requires p.kind == kind && p.Active() && p.id == PAGE_SIZE && p.id in rest && rest[p.id] == p &&
             PAGE_SIZE + 1 !in rest
    ensures |cs| == 8 && Interleaving(lib, kind, cs) && cs[0] == c
    ensures !QuietAt(kind, cs, 2) && !AtMostOneActive(kind, cs[7].w.policies)
    ensures forall i :: 0 <= i < 8 ==> |cs[i].order| <= PAGE_SIZE + 1
  {
    var front := ReadsFirstPage(lib, kind, c);
    var middle := SlipsAway(lib, kind, front[2], orderAfter, rest);
    var back := AddsAnother(lib, kind, middle[2], p, to);
    cs := JoinedThree(lib, kind, front, middle, back);
    assert cs[0] == front[0] && cs[1] == front[1] && cs[2] == middle[0] && cs[3] == middle[1];
    assert cs[4] == back[0] && cs[5] == back[1] && cs[6] == back[2] && cs[7] == back[3];
  }

  lemma ReadsFirstPage(lib: SemverLibrary, kind: UpgradeKind, c: Config) returns (cs: seq<Config>)
    requires c.stage.Idle? && lib.parse(c.w.current) == Some(c.cached) && !Less(c.desired, c.cached)
    requires Orders(c.order, c.w.policies) && |c.order| >= PAGE_SIZE
    ensures |cs| == 3 && Interleaving(lib, kind, cs) && cs[0] == c
    ensures cs[1].order == c.order
    ensures cs[2] == c.(stage := Listing(2, [] + Entries(PageOf(c.order, 1), c.w.policies)))
  {
    assert |PageOf(c.order, 1)| == PAGE_SIZE;
    var c1 := c.(stage := Listing(1, []));
    var c2 := c.(stage := Listing(2, [] + Entries(PageOf(c.order, 1), c.w.policies)));
    assert Begins(lib, kind, c, c1);
    assert ListsPage(kind, c1, c2);
    cs := [c, c1, c2];
    assert InterleavedAt(lib, kind, cs, 0) && InterleavedAt(lib, kind, cs, 1);
  }

  lemma SlipsAway(lib: SemverLibrary, kind: UpgradeKind, c: Config, orderAfter: seq<nat>, rest: map<nat, Policy>)
    returns (cs: seq<Config>)
    requires c.stage.Listing? && c.stage.page == 2 && forall p :: p in c.stage.listed ==> p.kind != kind
    requires |c.order| > PAGE_SIZE && IsActive(kind, rest, c.order[PAGE_SIZE])
    requires Orders(c.order, c.w.policies) && |c.order| == PAGE_SIZE + 1 && orderAfter == Removed(c.order, 0)
    requires Orders(orderAfter, rest) && Progress(kind, c.w, c.w.(policies := rest))
    ensures |cs| == 3 && Interleaving(lib, kind, cs) && cs[0] == c && !Quiet(kind, cs[0], cs[1])
    ensures cs[1].order == orderAfter
    ensures cs[2] == Config(c.w.(policies := rest), orderAfter, Reading([], []), c.cached, c.desired)
  {
    var c1 := c.(w := c.w.(policies := rest), order := orderAfter);
    var c2 := c1.(stage := Reading([], []));
    assert Moves(kind, c, c1);
    LastPageIsEmpty(kind, c1, c2);
    cs := [c, c1, c2];
    assert InterleavedAt(lib, kind, cs, 0) && InterleavedAt(lib, kind, cs, 1);
    RemovalIsQuietIff(kind, c, c1, 0);
  }

  lemma AddsAnother(lib: SemverLibrary, kind: UpgradeKind, c: Config, p: Policy, to: string) returns (cs: seq<Config>)
    requires lib.Denotes(to, c.desired) && !Equal(c.desired, c.cached)
    requires c.stage == Reading([], []) && c.w.clock == 0
    requires p.kind == kind && p.Active() && p.id == PAGE_SIZE && p.id in c.w.policies && c.w.policies[p.id] == p
    requires PAGE_SIZE + 1 !in c.w.policies
    ensures |cs| == 4 && Interleaving(lib, kind, cs) && cs[0] == c
    ensures !AtMostOneActive(kind, cs[3].w.policies)
    ensures forall i :: 0 <= i < 4 ==> |cs[i].order| <= |c.order| + 1
  {
    var again := Policy(PAGE_SIZE + 1, kind, to, TEN_MINUTES, Pending);
    var c1 := c.(stage := Walking([], 0, false, 0));
    var c2 := c.(stage := Adding);
    var c3 := c.(stage := Idle, w := c.w.(policies := c.w.policies[again.id := again]), order := c.order + [again.id]);
    assert Reads(c, c1) && Walks(lib, c1, c2);
    assert SchedulesPolicy(lib, kind, c2, c3, again);
    assert Adds(lib, kind, c2, c3);
    cs := [c, c1, c2, c3];
    assert InterleavedAt(lib, kind, cs, 0) && InterleavedAt(lib, kind, cs, 1) && InterleavedAt(lib, kind, cs, 2);
    assert IsActive(kind, c3.w.policies, p.id) && IsActive(kind, c3.w.policies, again.id);
  }

  lemma FullPageAndOneMore(kind: UpgradeKind, p: Policy) returns (order: seq<nat>, all: map<nat, Policy>)
    requires p.id == PAGE_SIZE && p.kind == kind && p.Active()
    ensures order == UpTo(PAGE_SIZE + 1) && all == FullTable(kind, p)
    ensures IsTable(all) && Orders(order, all) && |order| == PAGE_SIZE + 1
    ensures forall id :: IsActive(kind, all, id) <==> id == PAGE_SIZE
    ensures all[PAGE_SIZE] == p
    ensures forall q :: q in Entries(PageOf(order, 1), all) ==> q.kind != kind
  {
    order, all := UpTo(PAGE_SIZE + 1), FullTable(kind, p);
    assert forall id :: id in all ==> order[id] == id;
    var ids := PageOf(order, 1);
    assert forall i :: 0 <= i < |ids| ==> ids[i] == i;
  }

  lemma FirstVanishes(kind: UpgradeKind, p: Policy, order: seq<nat>, all: map<nat, Policy>, from: string)
    returns (orderAfter: seq<nat>, rest: map<nat, Policy>)
    requires p.id == PAGE_SIZE && order == UpTo(PAGE_SIZE + 1) && all == FullTable(kind, p)
    ensures orderAfter == Removed(order, 0) && rest == all - {0}
    ensures Orders(orderAfter, rest) && Progress(kind, World(all, from, 0), World(rest, from, 0))
    ensures PAGE_SIZE in rest && rest[PAGE_SIZE] == p && PAGE_SIZE + 1 !in rest
  {
    orderAfter, rest := Removed(order, 0), all - {0};
    assert forall i :: 0 <= i < |orderAfter| ==> orderAfter[i] == i + 1;
    assert forall id :: id in rest ==> orderAfter[id - 1] == id;
  }

  lemma LastPageIsEmpty(kind: UpgradeKind, c: Config, c': Config)
    requires Orders(c.order, c.w.policies) && |c.order| == PAGE_SIZE && c.stage.Listing? && c.stage.page == 2
    requires forall p :: p in c.stage.listed ==> p.kind != kind
    requires c' == c.(stage := Reading([], []))
    ensures ListsPage(kind, c, c')
  {
    assert PageOf(c.order, 2) == [];
    assert c.stage.listed + [] == c.stage.listed;
    NoneOfKind(c.stage.listed, kind);
  }

  // Started policies that are deleted

  predicate InProgressIn(kind: UpgradeKind, w: World, id: nat) {
    id in w.policies && w.policies[id].kind == kind && w.policies[id].InProgress()
  }

  predicate WaitingIn(kind: UpgradeKind, w: World, id: nat) {
    id in w.policies && w.policies[id].kind == kind && w.policies[id].Waiting()
  }

  /** The policy starts in this step. */
  predicate StartsAt(kind: UpgradeKind, cs: seq<Config>, id: nat, i: nat)
    requires i + 1 < |cs|
  {
    WaitingIn(kind, cs[i].w, id) && InProgressIn(kind, cs[i + 1].w, id)
  }

  /** The policy was in progress and no longer is. */
  predicate EndsAt(kind: UpgradeKind, cs: seq<Config>, id: nat, i: nat)
    requires i + 1 < |cs|
  {
    InProgressIn(kind, cs[i].w, id) && !InProgressIn(kind, cs[i + 1].w, id)
  }

  ghost predicate HasStarted(kind: UpgradeKind, cs: seq<Config>, id: nat) {
    exists i :: 0 <= i < |cs| - 1 && StartsAt(kind, cs, id, i)
  }

  ghost predicate HasEnded(kind: UpgradeKind, cs: seq<Config>, id: nat) {
    exists i :: 0 <= i < |cs| - 1 && EndsAt(kind, cs, id, i)
  }

  /** The call is between the end of its listing and the end of its walk. */
  ghost predicate Acting(cs: seq<Config>, i: nat)
    requires i < |cs|
  {
    cs[i].stage.Reading? || cs[i].stage.Walking?
  }

  /** A stretch of one call in which states are read and policies walked. */
  ghost predicate ActingRun(lib: SemverLibrary, kind: UpgradeKind, cs: seq<Config>) {
    Interleaving(lib, kind, cs) && forall i :: 0 <= i < |cs| ==> Acting(cs, i)
  }

  /** Policies only move forward while a call reads and walks. */
  lemma PoliciesMoveForward(lib: SemverLibrary, kind: UpgradeKind, cs: seq<Config>, i: nat, id: nat)
    requires i + 1 < |cs| && ActingRun(lib, kind, cs)
    ensures WaitingIn(kind, cs[i + 1].w, id) ==> WaitingIn(kind, cs[i].w, id)
    ensures InProgressIn(kind, cs[i + 1].w, id) ==> InProgressIn(kind, cs[i].w, id) || StartsAt(kind, cs, id, i)
  {
    assert InterleavedAt(lib, kind, cs, i) && Acting(cs, i) && Acting(cs, i + 1);
  }

  lemma OneStepMore(kind: UpgradeKind, cs: seq<Config>, id: nat)
    requires |cs| >= 2
    ensures var n := |cs| - 1;
            && (HasStarted(kind, cs, id) <==> HasStarted(kind, cs[..n], id) || StartsAt(kind, cs, id, n - 1))
            && (HasEnded(kind, cs, id) <==> HasEnded(kind, cs[..n], id) || EndsAt(kind, cs, id, n - 1))
  {
    var n := |cs| - 1;
    assert forall i :: 0 <= i < n - 1 ==> StartsAt(kind, cs[..n], id, i) == StartsAt(kind, cs, id, i);
    assert forall i :: 0 <= i < n - 1 ==> EndsAt(kind, cs[..n], id, i) == EndsAt(kind, cs, id, i);
  }

  lemma ActingFront(lib: SemverLibrary, kind: UpgradeKind, cs: seq<Config>)
    requires cs != [] && ActingRun(lib, kind, cs)
    ensures ActingRun(lib, kind, cs[..|cs| - 1])
  {
    var front := cs[..|cs| - 1];
    forall i | 0 <= i < |front| - 1 ensures InterleavedAt(lib, kind, front, i) {
      assert InterleavedAt(lib, kind, cs, i);
    }
    forall i | 0 <= i < |front| ensures Acting(front, i) {
      assert Acting(cs, i);
    }
  }

  /** What has become of a policy that was waiting at first. */
  ghost predicate FollowedUp(kind: UpgradeKind, cs: seq<Config>, id: nat)
    requires cs != []
  {
    var w := cs[|cs| - 1].w;
    && (WaitingIn(kind, w, id) ==> !HasStarted(kind, cs, id) && !HasEnded(kind, cs, id))
    && (InProgressIn(kind, w, id) <==> HasStarted(kind, cs, id) && !HasEnded(kind, cs, id))
  }

  lemma FollowedUpOneMore(kind: UpgradeKind, cs: seq<Config>, id: nat)
    requires |cs| >= 2 && FollowedUp(kind, cs[..|cs| - 1], id)
    requires WaitingIn(kind, cs[|cs| - 1].w, id) ==> WaitingIn(kind, cs[|cs| - 2].w, id)
    requires InProgressIn(kind, cs[|cs| - 1].w, id) ==>
              InProgressIn(kind, cs[|cs| - 2].w, id) || StartsAt(kind, cs, id, |cs| - 2)
    ensures FollowedUp(kind, cs, id)
  {
    OneStepMore(kind, cs, id);
    assert cs[..|cs| - 1][|cs| - 2] == cs[|cs| - 2];
  }

  lemma {:induction false} SinceItWaited(lib: SemverLibrary, kind: UpgradeKind, cs: seq<Config>, id: nat)
    requires cs != [] && ActingRun(lib, kind, cs) && WaitingIn(kind, cs[0].w, id)
    ensures FollowedUp(kind, cs, id)
    decreases |cs|
  {
    var n := |cs| - 1;
    if n > 0 {
      ActingFront(lib, kind, cs);
      SinceItWaited(lib, kind, cs[..n], id);
      PoliciesMoveForward(lib, kind, cs, n - 1, id);
      FollowedUpOneMore(kind, cs, id);
    }
  }

  /** The state of a policy of the kind is read. */
  ghost predicate ReadsStateOf(kind: UpgradeKind, c: Config, c': Config, p: Policy) {
    && Reads(c, c') && c'.stage.Reading? && c'.stage.ups == c.stage.ups + [p]
    && p.id in c.w.policies && c.w.policies[p.id].kind == kind
  }

  /** The policy judged is the one that was read, and it is deleted. */
  ghost predicate Deletes(lib: SemverLibrary, c: Config, c': Config, p: Policy) {
    && Walks(lib, c, c')
    && c.stage.next < |c.stage.ups| && c.stage.ups[c.stage.next] == p
    && Cancellable(lib, p, c.desired, c.stage.now)
  }

  /** A call deletes a policy by the state it read, in which it was waiting. The policy it deletes, its request
      answered or not, is in progress by then exactly when it has started since its state was read and has not
      ended. */
  lemma StartedPolicyIsDeletedIff(lib: SemverLibrary, kind: UpgradeKind, cs: seq<Config>, done: Config, p: Policy)
    requires |cs| >= 3 && ActingRun(lib, kind, cs[..|cs| - 1])
    requires ReadsStateOf(kind, cs[0], cs[1], p)
    requires Deletes(lib, cs[|cs| - 2], done, p)
    requires cs[|cs| - 1] == done || cs[|cs| - 1] == done.(stage := Idle)
    ensures InterleavedAt(lib, kind, cs, |cs| - 2)
    ensures InProgressIn(kind, cs[|cs| - 2].w, p.id) <==>
              HasStarted(kind, cs[..|cs| - 1], p.id) && !HasEnded(kind, cs[..|cs| - 1], p.id)
    ensures p.id !in cs[|cs| - 1].w.policies
  {
    assert cs[1].stage.ups[|cs[0].stage.ups|] == p;
    SinceItWaited(lib, kind, cs[..|cs| - 1], p.id);
  }

  /** It does happen: a policy for another version starts right after its state was read. */
  lemma StartedPolicyCanBeDeleted(lib: SemverLibrary, kind: UpgradeKind, from: string, to: string, cached: Version,
                                  desired: Version)
    returns (cs: seq<Config>)
    requires lib.parse(from) == Some(cached) && !Less(desired, cached)
    requires lib.parse(to).Some? && !lib.Denotes(to, desired)
    ensures |cs| == 7 && Interleaving(lib, kind, cs) && QuietRun(kind, cs)
    ensures cs[0].stage.Idle? && Inv(kind, cs[0])
    ensures InProgressIn(kind, cs[5].w, 0) && Walks(lib, cs[5], cs[6]) && 0 !in cs[6].w.policies
    ensures Step(lib, kind, cs[5], cs[6].(stage := Idle))
  {
    var p := Policy(0, kind, to, 0, Pending);
    var front := ListsOne(lib, kind, p, from, cached, desired);
    var back := StartsAfterItsStateIsRead(lib, kind, front[2], p, to);
    Joined(lib, kind, front, back);
    cs := front + back[1..];
    forall i | 0 <= i < 6 ensures QuietAt(kind, cs, i) {
      ShortListsAreQuiet(lib, kind, cs, i);
    }
  }

  lemma StartsAfterItsStateIsRead(lib: SemverLibrary, kind: UpgradeKind, c: Config, p: Policy, to: string)
    returns (cs: seq<Config>)
    requires p == Policy(0, kind, to, 0, Pending) && lib.parse(to).Some? && !lib.Denotes(to, c.desired)
    requires c.w.policies == map[0 := p] && c.w.clock == 0 && c.order == [0] && c.stage == Reading([p], [])
    ensures |cs| == 5 && Interleaving(lib, kind, cs) && cs[0] == c
    ensures forall i :: 0 <= i < 5 ==> |cs[i].order| <= 1
    ensures InProgressIn(kind, cs[3].w, 0) && Walks(lib, cs[3], cs[4]) && 0 !in cs[4].w.policies
  {
    var started := p.(state := Started);
    var c1 := c.(stage := Reading([], [p]));
    var c2 := c1.(w := c.w.(policies := map[0 := started]));
    assert [p][1..] == [] && [] + [p] == [p];
    assert Reads(c, c1);
    assert Progress(kind, c1.w, c2.w);
    assert Moves(kind, c1, c2);
    TwoSteps(lib, kind, c, c1, c2);
    var back := JudgesByWhatItRead(lib, kind, c2, p, started);
    Joined(lib, kind, [c, c1, c2], back);
    cs := [c, c1, c2] + back[1..];
  }

  lemma JudgesByWhatItRead(lib: SemverLibrary, kind: UpgradeKind, c: Config, p: Policy, started: Policy)
    returns (cs: seq<Config>)
    requires p.id == 0 && p.state.Pending? && lib.parse(p.version).Some? && !lib.Denotes(p.version, c.desired)
    requires c.w.policies == map[0 := started] && c.order == [0] && c.stage == Reading([], [p])
    ensures |cs| == 3 && Interleaving(lib, kind, cs) && cs[0] == c
    ensures cs[1].w == c.w && Walks(lib, cs[1], cs[2]) && 0 !in cs[2].w.policies
    ensures |cs[1].order| == 1 && |cs[2].order| <= 1
  {
    var c1 := c.(stage := Walking([p], 0, false, c.w.clock));
    var c2 := Config(c.w.(policies := c.w.policies - {0}), Without(c.order, 0), Walking([p], 1, false, c.w.clock),
        c.cached, c.desired);
    assert Reads(c, c1);
    assert Walks(lib, c1, c2);
    assert Without([0], 0) == [];
    TwoSteps(lib, kind, c, c1, c2);
    cs := [c, c1, c2];
  }
}
