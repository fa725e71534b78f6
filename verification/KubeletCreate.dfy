/** Any number of concurrent KubeletConfig creations in one provider process, step by step: take the
    cluster's mutex out of the keyed store, hold it over the check and the create, and give it back.
    Updates and deletions run beside them without the lock. The store changes as `MutexKV.Get` changes it. */
module KubeletCreate {
  import opened Wrappers
  import opened KeyedMutex

  type Process = nat

  datatype Stage =
    | LockGet                 // before `get` on behalf of Lock
    | LockInGet               // holding the store's own lock
    | LockWait(m: MutexId)    // `get` returned; the mutex is to be locked
    | CheckTopology
    | WaitReady
    | List
    | Create
    | UnlockGet               // before `get` on behalf of the deferred Unlock
    | UnlockInGet
    | UnlockWith(m: MutexId)  // `get` returned; the mutex is to be unlocked
    | Done
  {
    predicate InGet() {
      LockInGet? || UnlockInGet?
    }

    predicate InCriticalSection() {
      CheckTopology? || WaitReady? || List? || Create? || UnlockGet? || UnlockInGet? || UnlockWith?
    }

    /** The steps a process still has to make, at most. */
    function StepsLeft(): nat {
      match this
      case LockGet => 10
      case LockInGet => 9
      case LockWait(_) => 8
      case CheckTopology => 7
      case WaitReady => 6
      case List => 5
      case Create => 4
      case UnlockGet => 3
      case UnlockInGet => 2
      case UnlockWith(_) => 1
      case Done => 0
    }
  }

  /** What does not change: the cluster each process works on, and which clusters are hosted. */
  datatype Setting = Setting(cluster: map<Process, string>, hosted: set<string>)

  datatype State = State(
    store: map<string, MutexId>,
    nextMutex: MutexId,
    storeLockedBy: Option<Process>,
    lockedBy: map<MutexId, Process>,   // the mutexes locked now
    stage: map<Process, Stage>,
    configs: map<string, nat>)         // how many configs each cluster has
  {
    function Count(cluster: string): nat {
      if cluster in configs then configs[cluster] else 0
    }

    predicate MayBlock(p: Process)
      requires p in stage
    {
      || ((stage[p].LockGet? || stage[p].UnlockGet?) && storeLockedBy.Some?)
      || (stage[p].LockWait? && stage[p].m in lockedBy)
    }

    /** The mutex `get` gives for a key: the one in the store, or a new one. */
    function MutexOf(key: string): MutexId {
      MutexFor(store, nextMutex, key)
    }
  }

  ghost predicate Initial(sys: Setting, s: State) {
    && s.store == map[] && s.storeLockedBy.None? && s.lockedBy == map[]
    && s.stage.Keys == sys.cluster.Keys
    && (forall p :: p in s.stage ==> s.stage[p].LockGet?)
    && (forall c :: c !in sys.hosted ==> s.Count(c) <= 1)
  }

  // The kinds of step

  predicate EntersGet(s: State, s': State, p: Process, to: Stage) {
    s.storeLockedBy.None? && s' == s.(storeLockedBy := Some(p), stage := s.stage[p := to])
  }

  function AfterGet(s: State, p: Process, key: string, to: Stage): State {
    s.(storeLockedBy := None, stage := s.stage[p := to], store := s.store[key := s.MutexOf(key)],
       nextMutex := NextAfter(s.store, s.nextMutex, key))
  }

  predicate LeavesGet(s: State, s': State, p: Process, key: string, to: Stage) {
    s' == AfterGet(s, p, key, to)
  }

  predicate Locks(s: State, s': State, p: Process, m: MutexId) {
    m !in s.lockedBy && s' == s.(lockedBy := s.lockedBy[m := p], stage := s.stage[p := CheckTopology])
  }

  predicate Unlocks(s: State, s': State, p: Process, m: MutexId) {
    s' == s.(lockedBy := s.lockedBy - {m}, stage := s.stage[p := Done])
  }

  predicate Works(s: State, s': State, p: Process, to: Stage) {
    s' == s.(stage := s.stage[p := to])
  }

  predicate Creates(s: State, s': State, p: Process, key: string) {
    s' == s.(configs := s.configs[key := s.Count(key) + 1], stage := s.stage[p := UnlockGet])
  }

  /** A step of one process. Every server request may fail, which leads straight to the unlock; a failed
      create may still have created. */
  predicate ProcessStep(sys: Setting, s: State, s': State, p: Process) {
    && p in s.stage && p in sys.cluster
    && var key := sys.cluster[p];
       match s.stage[p]
       case LockGet => EntersGet(s, s', p, LockInGet)
       case LockInGet => LeavesGet(s, s', p, key, LockWait(s.MutexOf(key)))
       case LockWait(m) => Locks(s, s', p, m)
       case CheckTopology => Works(s, s', p, WaitReady) || Works(s, s', p, UnlockGet)
       case WaitReady => Works(s, s', p, if key in sys.hosted then Create else List) || Works(s, s', p, UnlockGet)
       case List => (s.Count(key) == 0 && Works(s, s', p, Create)) || Works(s, s', p, UnlockGet)
       case Create => Creates(s, s', p, key) || Works(s, s', p, UnlockGet)
       case UnlockGet => EntersGet(s, s', p, UnlockInGet)
       case UnlockInGet => LeavesGet(s, s', p, key, UnlockWith(s.MutexOf(key)))
       case UnlockWith(m) => Unlocks(s, s', p, m)
       case Done => false
  }

  /** Updates leave the number of configs as it is; a deletion takes one away from some cluster. */
  ghost predicate UnlockedStep(s: State, s': State) {
    || s' == s
    || exists c :: s.Count(c) > 0 && s' == s.(configs := s.configs[c := s.Count(c) - 1])
  }

  ghost predicate Step(sys: Setting, s: State, s': State) {
    UnlockedStep(s, s') || exists p :: ProcessStep(sys, s, s', p)
  }

  // The invariant

  ghost predicate StoreInv(s: State) {
    OneMutexPerKey(s.store, s.nextMutex)
  }

  ghost predicate ProcessInv(sys: Setting, s: State, p: Process)
    requires p in s.stage && p in sys.cluster
  {
    var (key, stage) := (sys.cluster[p], s.stage[p]);
    && (stage.InGet() <==> s.storeLockedBy == Some(p))
    && (stage.LockWait? ==> key in s.store && stage.m == s.store[key])
    && (stage.InCriticalSection() ==> key in s.store && s.store[key] in s.lockedBy && s.lockedBy[s.store[key]] == p)
    && (stage.UnlockWith? ==> stage.m == s.store[key])
    && (stage.Create? && key !in sys.hosted ==> s.Count(key) == 0)
  }

  ghost predicate LocksInv(sys: Setting, s: State) {
    && (s.storeLockedBy.Some? ==> s.storeLockedBy.value in s.stage)
    && forall m :: m in s.lockedBy ==>
         var p := s.lockedBy[m];
         p in s.stage && p in sys.cluster && s.stage[p].InCriticalSection() && sys.cluster[p] in s.store &&
           s.store[sys.cluster[p]] == m
  }

  ghost predicate Inv(sys: Setting, s: State) {
    && s.stage.Keys == sys.cluster.Keys
    && StoreInv(s)
    && (forall p :: p in s.stage ==> ProcessInv(sys, s, p))
    && LocksInv(sys, s)
    && (forall c :: c !in sys.hosted ==> s.Count(c) <= 1)
  }

  /** Two processes in the critical section work on different clusters. */
  lemma MutualExclusion(sys: Setting, s: State, p: Process, q: Process)
    requires Inv(sys, s) && p in s.stage && q in s.stage
    requires s.stage[p].InCriticalSection() && s.stage[q].InCriticalSection() && sys.cluster[p] == sys.cluster[q]
    ensures p == q
  {
  }

  /** What a step of `p` leaves alone: the locks and configs of every other process. */
  ghost predicate Framed(sys: Setting, s: State, s': State, p: Process) {
    && p in s.stage && p in sys.cluster
    && p in s'.stage && s'.stage == s.stage[p := s'.stage[p]]
    && (forall k :: k in s.store ==> k in s'.store && s'.store[k] == s.store[k])
    && (forall q :: q != p ==> (s'.storeLockedBy == Some(q) <==> s.storeLockedBy == Some(q)))
    && LocksFramed(sys, s, s', p)
    && (forall c ::
          s'.Count(c) == s.Count(c) ||
          (s.stage[p].Create? && c == sys.cluster[p] && s'.Count(c) == s.Count(c) + 1))
  }

  ghost predicate LocksFramed(sys: Setting, s: State, s': State, p: Process)
    requires p in s'.stage && p in sys.cluster
  {
    && (forall m :: m in s.lockedBy && s.lockedBy[m] != p ==> m in s'.lockedBy && s'.lockedBy[m] == s.lockedBy[m])
    && (forall m :: m in s'.lockedBy && s'.lockedBy[m] != p ==> m in s.lockedBy && s'.lockedBy[m] == s.lockedBy[m])
    && (forall m :: m in s'.lockedBy && s'.lockedBy[m] == p ==>
          s'.stage[p].InCriticalSection() && sys.cluster[p] in s'.store && s'.store[sys.cluster[p]] == m)
  }

  /** What a step needs to know, and what it gives. */
  ghost predicate Before(sys: Setting, s: State, p: Process) {
    p in s.stage && p in sys.cluster && StoreInv(s) && LocksInv(sys, s) && ProcessInv(sys, s, p)
  }

  ghost predicate After(sys: Setting, s: State, s': State, p: Process) {
    && Framed(sys, s, s', p) && StoreInv(s') && ProcessInv(sys, s', p)
    && s'.stage[p].StepsLeft() < s.stage[p].StepsLeft()
  }

  lemma EnterGetStep(sys: Setting, s: State, s': State, p: Process, to: Stage)
    requires Before(sys, s, p) && EntersGet(s, s', p, to)
    requires (s.stage[p].LockGet? && to.LockInGet?) || (s.stage[p].UnlockGet? && to.UnlockInGet?)
    ensures After(sys, s, s', p)
  {
  }

  lemma GetKeepsStore(s: State, p: Process, key: string, to: Stage)
    requires StoreInv(s)
    ensures var s' := AfterGet(s, p, key, to);
            && StoreInv(s') && key in s'.store && s'.store[key] == s.MutexOf(key)
            && (forall k :: k in s.store ==> k in s'.store && s'.store[k] == s.store[k])
  {
  }

  lemma LeaveGetStep(sys: Setting, s: State, s': State, p: Process, m: MutexId, to: Stage)
    requires Before(sys, s, p) && LeavesGet(s, s', p, sys.cluster[p], to) && m == s.MutexOf(sys.cluster[p])
    requires (s.stage[p].LockInGet? && to == LockWait(m)) || (s.stage[p].UnlockInGet? && to == UnlockWith(m))
    ensures After(sys, s, s', p)
  {
    GetKeepsStore(s, p, sys.cluster[p], to);
    LeavingFramesLocks(sys, s, s', p, to);
  }

  lemma LeavingFramesLocks(sys: Setting, s: State, s': State, p: Process, to: Stage)
    requires Before(sys, s, p) && LeavesGet(s, s', p, sys.cluster[p], to)
    requires (s.stage[p].LockInGet? && !to.InCriticalSection()) || (s.stage[p].UnlockInGet? && to.UnlockWith?)
    ensures LocksFramed(sys, s, s', p)
  {
  }

  lemma LockStep(sys: Setting, s: State, s': State, p: Process, m: MutexId)
    requires Before(sys, s, p) && s.stage[p] == LockWait(m) && Locks(s, s', p, m)
    ensures After(sys, s, s', p)
  {
  }

  lemma UnlockStep(sys: Setting, s: State, s': State, p: Process, m: MutexId)
    requires Before(sys, s, p) && s.stage[p] == UnlockWith(m) && Unlocks(s, s', p, m)
    ensures After(sys, s, s', p)
  {
  }

  lemma WorkStep(sys: Setting, s: State, s': State, p: Process, to: Stage)
    requires Before(sys, s, p) && Works(s, s', p, to)
    requires s.stage[p].CheckTopology? || s.stage[p].WaitReady? || s.stage[p].List? || s.stage[p].Create?
    requires to.StepsLeft() < s.stage[p].StepsLeft()
    requires to.WaitReady? || to.List? || to.UnlockGet? ||
             (to.Create? && (sys.cluster[p] in sys.hosted || s.Count(sys.cluster[p]) == 0))
    ensures After(sys, s, s', p)
  {
  }

  lemma CreateStep(sys: Setting, s: State, s': State, p: Process)
    requires Before(sys, s, p) && s.stage[p].Create? && Creates(s, s', p, sys.cluster[p])
    ensures After(sys, s, s', p)
  {
  }

  lemma StepKeepsOwnInv(sys: Setting, s: State, s': State, p: Process)
    requires Before(sys, s, p) && ProcessStep(sys, s, s', p)
    ensures After(sys, s, s', p)
  {
    var key := sys.cluster[p];
    match s.stage[p] {
      case LockGet => EnterGetStep(sys, s, s', p, LockInGet);
      case LockInGet => LeaveGetStep(sys, s, s', p, s.MutexOf(key), LockWait(s.MutexOf(key)));
      case LockWait(m) => LockStep(sys, s, s', p, m);
      case UnlockGet => EnterGetStep(sys, s, s', p, UnlockInGet);
      case UnlockInGet => LeaveGetStep(sys, s, s', p, s.MutexOf(key), UnlockWith(s.MutexOf(key)));
      case UnlockWith(m) => UnlockStep(sys, s, s', p, m);
      case Create =>
        if Creates(s, s', p, key) {
          CreateStep(sys, s, s', p);
        } else {
          WorkStep(sys, s, s', p, UnlockGet);
        }
      case CheckTopology | WaitReady | List => WorkStep(sys, s, s', p, s'.stage[p]);
      case Done =>
    }
  }

  lemma FramedStepKeepsInv(sys: Setting, s: State, s': State, p: Process)
    requires Inv(sys, s) && After(sys, s, s', p)
    requires forall c :: c !in sys.hosted ==> s'.Count(c) <= 1
    ensures Inv(sys, s')
  {
  }

  lemma ProcessStepKeepsInv(sys: Setting, s: State, s': State, p: Process)
    requires Inv(sys, s) && ProcessStep(sys, s, s', p)
    ensures Inv(sys, s')
  {
    assert Before(sys, s, p);
    StepKeepsOwnInv(sys, s, s', p);
    FramedStepKeepsInv(sys, s, s', p);
  }

  lemma StepKeepsInv(sys: Setting, s: State, s': State)
    requires Inv(sys, s) && Step(sys, s, s')
    ensures Inv(sys, s')
    ensures forall k :: k in s.store ==> k in s'.store && s'.store[k] == s.store[k]
  {
    if UnlockedStep(s, s') {
      forall q | q in s'.stage ensures ProcessInv(sys, s', q) {
        assert ProcessInv(sys, s, q);
      }
    } else {
      var p :| ProcessStep(sys, s, s', p);
      ProcessStepKeepsInv(sys, s, s', p);
      StepKeepsOwnInv(sys, s, s', p);
    }
  }

  ghost predicate StepAt(sys: Setting, ss: seq<State>, i: nat)
    requires i + 1 < |ss|
  {
    Step(sys, ss[i], ss[i + 1])
  }

  ghost predicate Run(sys: Setting, ss: seq<State>) {
    && ss != [] && Initial(sys, ss[0])
    && forall i :: 0 <= i < |ss| - 1 ==> StepAt(sys, ss, i)
  }

  lemma {:induction false} RunsKeepInv(sys: Setting, ss: seq<State>, i: nat)
    requires Run(sys, ss) && i < |ss|
    ensures Inv(sys, ss[i])
  {
    if i > 0 {
      RunsKeepInv(sys, ss, i - 1);
      assert StepAt(sys, ss, i - 1);
      StepKeepsInv(sys, ss[i - 1], ss[i]);
    }
  }

  /** In every interleaving a cluster that is not hosted and starts with at most one config never has
      more, and a list found empty under the lock is still empty when that process creates. */
  lemma AtMostOneConfig(sys: Setting, ss: seq<State>, i: nat, cluster: string)
    requires Run(sys, ss) && i < |ss| && cluster !in sys.hosted
    ensures ss[i].Count(cluster) <= 1
    ensures forall p :: p in ss[i].stage && ss[i].stage[p].Create? && p in sys.cluster && sys.cluster[p] == cluster ==>
              ss[i].Count(cluster) == 0
  {
    RunsKeepInv(sys, ss, i);
    forall p | p in ss[i].stage && ss[i].stage[p].Create? && sys.cluster[p] == cluster
      ensures ss[i].Count(cluster) == 0
    {
      assert ProcessInv(sys, ss[i], p);
    }
  }

  // Configs do get created

  /** A process that has come to its create can add a config, whatever its cluster and whatever the others do. */
  lemma CreateCanSucceed(sys: Setting, s: State, p: Process) returns (s': State)
    requires p in s.stage && p in sys.cluster && s.stage[p].Create?
    ensures ProcessStep(sys, s, s', p) && s'.Count(sys.cluster[p]) == s.Count(sys.cluster[p]) + 1
  {
    var key := sys.cluster[p];
    s' := s.(configs := s.configs[key := s.Count(key) + 1], stage := s.stage[p := UnlockGet]);
  }

  /** A deletion makes room for another one. */
  lemma DeletionMakesRoom(s: State, cluster: string) returns (s': State)
    requires s.Count(cluster) > 0
    ensures UnlockedStep(s, s') && s'.Count(cluster) == s.Count(cluster) - 1 && s'.stage == s.stage
  {
    s' := s.(configs := s.configs[cluster := s.Count(cluster) - 1]);
  }

  /** Any of its requests may fail, which leads straight to the unlock. */
  lemma FailureLeadsToTheUnlock(sys: Setting, s: State, p: Process)
    requires p in s.stage && p in sys.cluster
    requires s.stage[p].CheckTopology? || s.stage[p].WaitReady? || s.stage[p].List? || s.stage[p].Create?
    ensures ProcessStep(sys, s, s.(stage := s.stage[p := UnlockGet]), p)
  {
  }

  /** Past the lock it can come to its create exactly if its cluster is hosted or has no config: only the list stops
      it. */
  lemma ListStopsTheCreateIff(sys: Setting, s: State, p: Process)
    requires p in s.stage && p in sys.cluster && s.stage[p].WaitReady?
    ensures (exists ss: seq<State> :: LeadsToCreate(sys, s, p, ss)) <==>
              sys.cluster[p] in sys.hosted || s.Count(sys.cluster[p]) == 0
  {
    var (listed, creating) := (s.(stage := s.stage[p := List]), s.(stage := s.stage[p := Create]));
    if sys.cluster[p] in sys.hosted {
      assert ProcessStep(sys, s, creating, p);
      assert LeadsToCreate(sys, s, p, [s, creating]);
    } else if s.Count(sys.cluster[p]) == 0 {
      assert ProcessStep(sys, s, listed, p);
      assert listed.stage[p := Create] == creating.stage;
      assert ProcessStep(sys, listed, creating, p);
      assert LeadsToCreate(sys, s, p, [s, listed, creating]);
    } else if ss: seq<State> :| LeadsToCreate(sys, s, p, ss) {
      NoCreateWhileListed(sys, s, p, ss, |ss| - 1);
      assert false;
    }
  }

  /** A run of steps of one process alone that ends before its create. */
  ghost predicate LeadsToCreate(sys: Setting, s: State, p: Process, ss: seq<State>) {
    && ss != [] && ss[0] == s
    && (forall i :: 0 <= i < |ss| - 1 ==> ProcessStep(sys, ss[i], ss[i + 1], p))
    && p in ss[|ss| - 1].stage && ss[|ss| - 1].stage[p].Create?
  }

  lemma {:induction false} NoCreateWhileListed(sys: Setting, s: State, p: Process, ss: seq<State>, i: nat)
    requires LeadsToCreate(sys, s, p, ss) && i < |ss|
    requires p in s.stage && p in sys.cluster && s.stage[p].WaitReady?
    requires sys.cluster[p] !in sys.hosted && s.Count(sys.cluster[p]) > 0
    ensures p in ss[i].stage && (ss[i].stage[p].WaitReady? || ss[i].stage[p].List? || ss[i].stage[p].StepsLeft() <= 3)
    ensures ss[i].Count(sys.cluster[p]) == s.Count(sys.cluster[p])
  {
    if i > 0 {
      NoCreateWhileListed(sys, s, p, ss, i - 1);
      assert ProcessStep(sys, ss[i - 1], ss[i], p);
    }
  }

  /** A single process, whose requests are all answered, creates the config of a cluster that has none, hosted or
      not, and comes to its end. */
  lemma LoneProcessCreates(cluster: string, hosted: set<string>) returns (sys: Setting, ss: seq<State>)
    ensures sys == Setting(map[0 := cluster], hosted) && Run(sys, ss)
    ensures ss[0].Count(cluster) == 0 && ss[|ss| - 1].Count(cluster) == 1 && ss[|ss| - 1].stage == map[0 := Done]
  {
    sys := Setting(map[0 := cluster], hosted);
    var front := TakesTheLock(sys, cluster, 0);
    var middle := CreatesOne(sys, cluster, front[|front| - 1]);
    var back := GivesBackTheLock(sys, cluster, middle[|middle| - 1]);
    Joined(sys, middle, back);
    Joined(sys, front, middle + back[1..]);
    ss := front + (middle + back[1..])[1..];
  }

  /** The bound does not extend to hosted clusters, whose list is skipped: a single process that finds one
      config there creates a second. */
  lemma HostedClustersMayHaveMore(cluster: string) returns (sys: Setting, ss: seq<State>)
    ensures Run(sys, ss) && ss[0].Count(cluster) == 1 && ss[|ss| - 1].Count(cluster) == 2
  {
    sys := Setting(map[0 := cluster], {cluster});
    var front := TakesTheLock(sys, cluster, 1);
    var back := CreatesOne(sys, cluster, front[|front| - 1]);
    Joined(sys, front, back);
    ss := front + back[1..];
  }

  ghost predicate Steps(sys: Setting, ss: seq<State>) {
    ss != [] && forall i :: 0 <= i < |ss| - 1 ==> StepAt(sys, ss, i)
  }

  lemma Joined(sys: Setting, front: seq<State>, back: seq<State>)
    requires Steps(sys, front) && Steps(sys, back) && front[|front| - 1] == back[0]
    ensures Steps(sys, front + back[1..]) && (front + back[1..])[|front + back[1..]| - 1] == back[|back| - 1]
  {
    var (ss, n) := (front + back[1..], |front| - 1);
    forall i | 0 <= i < |ss| - 1 ensures StepAt(sys, ss, i) {
      assert if i < n then StepAt(sys, front, i) else StepAt(sys, back, i - n);
    }
  }

  lemma ThreeSteps(sys: Setting, a: State, b: State, c: State, d: State, p: Process)
    requires ProcessStep(sys, a, b, p) && ProcessStep(sys, b, c, p) && ProcessStep(sys, c, d, p)
    ensures Steps(sys, [a, b, c, d])
  {
    var ss := [a, b, c, d];
    forall i | 0 <= i < 3 ensures StepAt(sys, ss, i) {
    }
  }

  lemma TakesTheLock(sys: Setting, cluster: string, configs: nat) returns (ss: seq<State>)
    requires sys.cluster == map[0 := cluster] && (cluster in sys.hosted || configs <= 1)
    ensures Steps(sys, ss) && Initial(sys, ss[0]) && ss[0].Count(cluster) == configs
    ensures var last := ss[|ss| - 1];
            && last.stage == map[0 := CheckTopology] && last.Count(cluster) == configs
            && last.storeLockedBy.None? && last.store == map[cluster := 0]
  {
    var s0 := State(map[], 0, None, map[], map[0 := LockGet], map[cluster := configs]);
    var s1 := s0.(storeLockedBy := Some(0), stage := s0.stage[0 := LockInGet]);
    var s2 := AfterGet(s1, 0, cluster, LockWait(s1.MutexOf(cluster)));
    var s3 := s2.(lockedBy := s2.lockedBy[0 := 0], stage := s2.stage[0 := CheckTopology]);
    ThreeSteps(sys, s0, s1, s2, s3, 0);
    ss := [s0, s1, s2, s3];
  }

  lemma ComesToItsCreate(sys: Setting, cluster: string, s: State) returns (ss: seq<State>)
    requires sys.cluster == map[0 := cluster] && s.stage == map[0 := CheckTopology]
    requires cluster in sys.hosted || s.Count(cluster) == 0
    ensures Steps(sys, ss) && ss[0] == s && ss[|ss| - 1] == s.(stage := map[0 := Create])
  {
    var ready, listed := s.(stage := map[0 := WaitReady]), s.(stage := map[0 := List]);
    var creating := s.(stage := map[0 := Create]);
    assert ready.stage == s.stage[0 := WaitReady] && creating.stage == ready.stage[0 := Create];
    assert ProcessStep(sys, s, ready, 0);
    if cluster in sys.hosted {
      assert ProcessStep(sys, ready, creating, 0);
      ss := [s, ready, creating];
      assert StepAt(sys, ss, 0) && StepAt(sys, ss, 1);
    } else {
      assert listed.stage == ready.stage[0 := List] && creating.stage == listed.stage[0 := Create];
      ThreeSteps(sys, s, ready, listed, creating, 0);
      ss := [s, ready, listed, creating];
    }
  }

  lemma CreatesOne(sys: Setting, cluster: string, s: State) returns (ss: seq<State>)
    requires sys.cluster == map[0 := cluster] && s.stage == map[0 := CheckTopology]
    requires cluster in sys.hosted || s.Count(cluster) == 0
    ensures Steps(sys, ss) && ss[0] == s
    ensures var last := ss[|ss| - 1];
            && last.stage == map[0 := UnlockGet] && last.Count(cluster) == s.Count(cluster) + 1
            && last.storeLockedBy == s.storeLockedBy && last.store == s.store
  {
    var front := ComesToItsCreate(sys, cluster, s);
    var creating := front[|front| - 1];
    var created := CreateCanSucceed(sys, creating, 0);
    assert StepAt(sys, [creating, created], 0);
    Joined(sys, front, [creating, created]);
    ss := front + [creating, created][1..];
  }

  lemma GivesBackTheLock(sys: Setting, cluster: string, s: State) returns (ss: seq<State>)
    requires sys.cluster == map[0 := cluster] && s.stage == map[0 := UnlockGet]
    requires s.storeLockedBy.None? && cluster in s.store
    ensures Steps(sys, ss) && ss[0] == s
    ensures ss[|ss| - 1].stage == map[0 := Done] && ss[|ss| - 1].Count(cluster) == s.Count(cluster)
  {
    var s1 := s.(storeLockedBy := Some(0), stage := s.stage[0 := UnlockInGet]);
    var s2 := AfterGet(s1, 0, cluster, UnlockWith(s1.MutexOf(cluster)));
    var s3 := s2.(lockedBy := s2.lockedBy - {s1.MutexOf(cluster)}, stage := s2.stage[0 := Done]);
    ThreeSteps(sys, s, s1, s2, s3, 0);
    ss := [s, s1, s2, s3];
  }

  /** A key, once bound, keeps its mutex for the rest of the run. */
  lemma {:induction false} StoreNeverRebinds(sys: Setting, ss: seq<State>, i: nat, j: nat, key: string)
    requires Run(sys, ss) && i <= j < |ss| && key in ss[i].store
    ensures key in ss[j].store && ss[j].store[key] == ss[i].store[key]
    decreases j - i
  {
    if i < j {
      RunsKeepInv(sys, ss, i);
      assert StepAt(sys, ss, i);
      StepKeepsInv(sys, ss[i], ss[i + 1]);
      StoreNeverRebinds(sys, ss, i + 1, j, key);
    }
  }

  /** The deferred unlock releases the very mutex this process locked, and no other process holds it. */
  lemma UnlockReleasesWhatLockTook(sys: Setting, ss: seq<State>, i: nat, j: nat, p: Process)
    requires Run(sys, ss) && i < j < |ss| && p in sys.cluster
    requires p in ss[i].stage && ss[i].stage[p].LockWait? && p in ss[j].stage && ss[j].stage[p].UnlockWith?
    ensures ss[j].stage[p].m == ss[i].stage[p].m
    ensures ss[j].stage[p].m in ss[j].lockedBy && ss[j].lockedBy[ss[j].stage[p].m] == p
  {
    RunsKeepInv(sys, ss, i);
    RunsKeepInv(sys, ss, j);
    assert ProcessInv(sys, ss[i], p) && ProcessInv(sys, ss[j], p);
    StoreNeverRebinds(sys, ss, i, j, sys.cluster[p]);
  }

  /** A process that waits for a mutex waits for a process of its own cluster; one that waits in `get`
      waits for a process whose next step cannot block. */
  lemma OnlyTheSameClusterBlocks(sys: Setting, s: State, p: Process)
    requires Inv(sys, s) && p in s.stage && s.MayBlock(p)
    ensures s.stage[p].LockWait? ==>
              var q := s.lockedBy[s.stage[p].m];
              q != p && q in s.stage && sys.cluster[q] == sys.cluster[p]
    ensures !s.stage[p].LockWait? ==>
              var q := s.storeLockedBy.value;
              q != p && q in s.stage && !s.MayBlock(q) && !s.stage[q].Done?
  {
  }

  lemma AnUnblockedProcessCanStep(sys: Setting, s: State, p: Process) returns (s': State)
    requires Inv(sys, s) && p in s.stage && !s.stage[p].Done? && !s.MayBlock(p)
    ensures ProcessStep(sys, s, s', p)
  {
    var key := sys.cluster[p];
    match s.stage[p]
    case LockGet => s' := s.(storeLockedBy := Some(p), stage := s.stage[p := LockInGet]);
    case UnlockGet => s' := s.(storeLockedBy := Some(p), stage := s.stage[p := UnlockInGet]);
    case LockInGet => s' := AfterGet(s, p, key, LockWait(s.MutexOf(key)));
    case UnlockInGet => s' := AfterGet(s, p, key, UnlockWith(s.MutexOf(key)));
    case LockWait(m) => s' := s.(lockedBy := s.lockedBy[m := p], stage := s.stage[p := CheckTopology]);
    case UnlockWith(m) => s' := s.(lockedBy := s.lockedBy - {m}, stage := s.stage[p := Done]);
    case _ => s' := s.(stage := s.stage[p := UnlockGet]);
  }

  /** No deadlock: while some process is unfinished, some process can make a step, which brings it
      nearer to its end and leaves the others where they are. */
  lemma NoDeadlock(sys: Setting, s: State, p: Process) returns (q: Process, s': State)
    requires Inv(sys, s) && p in s.stage && !s.stage[p].Done?
    ensures ProcessStep(sys, s, s', q)
    ensures q in s.stage && q in s'.stage && s'.stage == s.stage[q := s'.stage[q]]
    ensures s'.stage[q].StepsLeft() < s.stage[q].StepsLeft()
  {
    q := p;
    if s.MayBlock(q) && s.stage[q].LockWait? {
      OnlyTheSameClusterBlocks(sys, s, q);
      q := s.lockedBy[s.stage[q].m];
    }
    if s.MayBlock(q) {
      OnlyTheSameClusterBlocks(sys, s, q);
      q := s.storeLockedBy.value;
    }
    s' := AnUnblockedProcessCanStep(sys, s, q);
    StepKeepsOwnInv(sys, s, s', q);
  }

  // How long it takes

  ghost function Pick(stage: map<Process, Stage>): (p: Process)
    requires stage != map[]
    ensures p in stage
  {
    assert exists p :: p in stage;
    var p :| p in stage;
    p
  }

  /** The steps all processes together still have to make, at most. */
  ghost function Remaining(stage: map<Process, Stage>): nat
    decreases |stage|
  {
    if stage == map[] then 0 else stage[Pick(stage)].StepsLeft() + Remaining(stage - {Pick(stage)})
  }

  lemma {:induction false} RemainingWithout(stage: map<Process, Stage>, p: Process)
    requires p in stage
    ensures Remaining(stage) == stage[p].StepsLeft() + Remaining(stage - {p})
    decreases |stage|
  {
    var q := Pick(stage);
    if q != p {
      RemainingWithout(stage - {q}, p);
      RemainingWithout(stage - {p}, q);
      assert stage - {q} - {p} == stage - {p} - {q};
    }
  }

  lemma RemainingAfter(stage: map<Process, Stage>, p: Process, to: Stage)
    requires p in stage && to.StepsLeft() < stage[p].StepsLeft()
    ensures Remaining(stage[p := to]) < Remaining(stage)
  {
    RemainingWithout(stage, p);
    RemainingWithout(stage[p := to], p);
    assert stage[p := to] - {p} == stage - {p};
  }

  lemma {:induction false} RemainingAtFirst(stage: map<Process, Stage>)
    requires forall p :: p in stage ==> stage[p].LockGet?
    ensures Remaining(stage) == 10 * |stage|
    decreases |stage|
  {
    if stage != map[] {
      var rest := stage - {Pick(stage)};
      RemainingAtFirst(rest);
      assert stage.Keys == rest.Keys + {Pick(stage)};
      assert |stage| == |stage.Keys| && |rest| == |rest.Keys|;
    }
  }

  /** How often some process moved. */
  function Moves(ss: seq<State>): nat {
    if |ss| < 2 then 0
    else Moves(ss[..|ss| - 1]) + if ss[|ss| - 2].stage != ss[|ss| - 1].stage then 1 else 0
  }

  /** In every run the processes make at most ten steps each, whatever happens beside them. */
  lemma {:induction false} RunsAreShort(sys: Setting, ss: seq<State>)
    requires Run(sys, ss)
    ensures Moves(ss) + Remaining(ss[|ss| - 1].stage) <= 10 * |sys.cluster|
  {
    var n := |ss| - 1;
    if n == 0 {
      RemainingAtFirst(ss[0].stage);
      assert |sys.cluster| == |sys.cluster.Keys| && |ss[0].stage| == |ss[0].stage.Keys|;
    } else {
      forall i | 0 <= i < n - 1 ensures StepAt(sys, ss[..n], i) {
        assert StepAt(sys, ss, i);
      }
      RunsAreShort(sys, ss[..n]);
      RunsKeepInv(sys, ss, n - 1);
      assert StepAt(sys, ss, n - 1);
      if !UnlockedStep(ss[n - 1], ss[n]) {
        var p :| ProcessStep(sys, ss[n - 1], ss[n], p);
        StepKeepsOwnInv(sys, ss[n - 1], ss[n], p);
        RemainingAfter(ss[n - 1].stage, p, ss[n].stage[p]);
      }
    }
  }

  lemma ExtendRun(sys: Setting, ss: seq<State>, s': State, p: Process)
    requires Run(sys, ss) && ProcessStep(sys, ss[|ss| - 1], s', p)
    ensures Run(sys, ss + [s'])
  {
    forall i | 0 <= i < |ss| ensures StepAt(sys, ss + [s'], i) {
      assert i < |ss| - 1 ==> StepAt(sys, ss, i);
    }
  }

  ghost predicate AllDone(s: State) {
    forall p :: p in s.stage ==> s.stage[p].Done?
  }

  /** Every run can be continued until all processes are at their end. */
  lemma {:induction false} AllCanFinish(sys: Setting, ss: seq<State>) returns (whole: seq<State>)
    requires Run(sys, ss)
    ensures ss <= whole && Run(sys, whole) && AllDone(whole[|whole| - 1])
    decreases Remaining(ss[|ss| - 1].stage)
  {
    var s := ss[|ss| - 1];
    if AllDone(s) {
      whole := ss;
    } else {
      var p :| p in s.stage && !s.stage[p].Done?;
      RunsKeepInv(sys, ss, |ss| - 1);
      var q, s' := NoDeadlock(sys, s, p);
      RemainingAfter(s.stage, q, s'.stage[q]);
      ExtendRun(sys, ss, s', q);
      whole := AllCanFinish(sys, ss + [s']);
    }
  }
}
