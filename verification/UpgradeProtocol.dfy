/** The upgrade protocol, call by call: list the policies, cancel the unwanted ones, acknowledge
    the gates, and schedule. Errors leave what was already sent in place. */
module UpgradeProtocol {
  import opened Wrappers
  import opened Paging
  import opened Semver
  import opened UpgradePolicies
  import opened UpgradeServer

  datatype Error = ApiFailed | Unparsable | AlreadyAbove | UpgradeInProgress | NotAvailable | AckNeeded

  // Listing

  function ListLog(start: seq<Call>, pages: nat): seq<Call> {
    if pages == 0 then start else ListLog(start, pages - 1) + [ListPolicies(pages)]
  }

  function StateLog(start: seq<Call>, ps: seq<Policy>): seq<Call> {
    if ps == [] then start else StateLog(start, ps[..|ps| - 1]) + [ReadState(ps[|ps| - 1].id)]
  }

  lemma {:induction false} ListLogReads(start: seq<Call>, pages: nat)
    ensures OnlyReads(start, ListLog(start, pages))
  {
    if pages > 0 {
      ListLogReads(start, pages - 1);
    }
  }

  lemma {:induction false} StateLogReads(start: seq<Call>, ps: seq<Policy>)
    ensures OnlyReads(start, StateLog(start, ps))
  {
    if ps != [] {
      StateLogReads(start, ps[..|ps| - 1]);
    }
  }

  /** The page loop: success reads the whole listing, after one request per full page and one more for
      the last, short page. */
  method ListAllPages(server: PolicyServer) returns (r: Result<seq<Policy>, Error>)
    requires server.Valid()
    modifies server`log, server`clock, server`lost
    ensures server.clock >= old(server.clock)
    ensures OnlyReads(old(server.log), server.log)
    ensures r.Success? ==>
              && r.value == old(server.Listing())
              && server.log == ListLog(old(server.log), |r.value| / PAGE_SIZE + 1)
    ensures r.Failure? ==> r.error.ApiFailed?
    ensures server.lost == old(server.lost) + if r.Failure? then 1 else 0
  {
    ghost var all := server.Listing();
    var policies: seq<Policy> := [];
    var page := 1;
    while true
      invariant page >= 1 && server.clock >= old(server.clock) && server.lost == old(server.lost)
      invariant (page - 1) * PAGE_SIZE <= |all|
      invariant policies == all[..(page - 1) * PAGE_SIZE]
      invariant server.log == ListLog(old(server.log), page - 1)
      decreases |all| - page * PAGE_SIZE
    {
      var items := server.List(page);
      PageContinues(all, page);
      ListLogReads(old(server.log), page);
      if items.None? {
        return Failure(ApiFailed);
      }
      policies := policies + items.value;
      if |items.value| < PAGE_SIZE {
        return Success(policies);
      }
      page := page + 1;
    }
  }

  /** Success gives exactly the policies of one kind, in order, each with its own state request. */
  method GetScheduledUpgrades(server: PolicyServer, kind: UpgradeKind) returns (r: Result<seq<Policy>, Error>)
    requires server.Valid()
    modifies server`log, server`clock, server`lost
    ensures server.clock >= old(server.clock)
    ensures OnlyReads(old(server.log), server.log)
    ensures r.Success? ==>
              && r.value == OfKind(old(server.Listing()), kind) && DistinctIds(r.value)
              && server.log == StateLog(ListLog(old(server.log), |old(server.Listing())| / PAGE_SIZE + 1), r.value)
    ensures r.Failure? ==> r.error.ApiFailed?
    ensures server.lost == old(server.lost) + if r.Failure? then 1 else 0
  {
    server.ListingIsComplete();
    var policies := ListAllPages(server);
    if policies.Failure? {
      return policies;
    }
    OfKindKeepsDistinctIds(policies.value, kind);
    r := ReadStates(server, policies.value, kind);
  }

  /** `upgrades` is what reading the states of `policies` gives, and `log` what it sends. */
  ghost predicate StatesRead(policies: seq<Policy>, kind: UpgradeKind, upgrades: seq<Policy>, start: seq<Call>,
                             log: seq<Call>)
  {
    upgrades == OfKind(policies, kind) && log == StateLog(start, upgrades)
  }

  lemma OneMoreRead(policies: seq<Policy>, kind: UpgradeKind, i: nat, upgrades: seq<Policy>, start: seq<Call>,
                    log: seq<Call>)
    requires i < |policies| && StatesRead(policies[..i], kind, upgrades, start, log)
    ensures policies[i].kind != kind ==> StatesRead(policies[..i + 1], kind, upgrades, start, log)
    ensures policies[i].kind == kind ==>
              StatesRead(policies[..i + 1], kind, upgrades + [policies[i]], start, log + [ReadState(policies[i].id)])
    ensures OnlyReads(start, log + [ReadState(policies[i].id)])
  {
    assert policies[..i + 1] == policies[..i] + [policies[i]];
    OfKindOneMore(policies[..i], policies[i], kind);
    assert (upgrades + [policies[i]])[..|upgrades|] == upgrades;
    StateLogReads(start, upgrades);
  }

  method ReadStates(server: PolicyServer, policies: seq<Policy>, kind: UpgradeKind)
    returns (r: Result<seq<Policy>, Error>)
    requires forall p :: p in policies ==> p.id in server.policies && server.policies[p.id] == p
    modifies server`log, server`clock, server`lost
    ensures server.clock >= old(server.clock)
    ensures OnlyReads(old(server.log), server.log)
    ensures r.Success? ==> r.value == OfKind(policies, kind) && server.log == StateLog(old(server.log), r.value)
    ensures r.Failure? ==> r.error.ApiFailed?
    ensures server.lost == old(server.lost) + if r.Failure? then 1 else 0
  {
    var upgrades: seq<Policy> := [];
    for i := 0 to |policies|
      invariant server.clock >= old(server.clock) && server.lost == old(server.lost)
      invariant StatesRead(policies[..i], kind, upgrades, old(server.log), server.log)
    {
      OneMoreRead(policies, kind, i, upgrades, old(server.log), server.log);
      if policies[i].kind != kind {
        continue;
      }
      assert policies[i] in policies;
      var state := server.StateOf(policies[i].id);
      if state.None? {
        return Failure(ApiFailed);
      }
      upgrades := upgrades + [policies[i].(state := state.value)];
    }
    assert policies[..|policies|] == policies;
    StateLogReads(old(server.log), upgrades);
    return Success(upgrades);
  }

  // Cancelling

  /** The log after the delete requests for a list of policies, in order. */
  function CancelLog(lib: SemverLibrary, start: seq<Call>, ups: seq<Policy>, desired: Version, now: int): seq<Call> {
    if ups == [] then start
    else
      var (front, last) := (CancelLog(lib, start, ups[..|ups| - 1], desired, now), ups[|ups| - 1]);
      if Cancellable(lib, last, desired, now) then front + [DeletePolicy(last.id)] else front
  }

  /** What is known once the policies of a list have been walked without an error. */
  ghost predicate Walked(lib: SemverLibrary, ups: seq<Policy>, desired: Version, now: int,
                         correctUpgradePending: bool)
  {
    && (forall p :: p in ups ==> lib.parse(p.version).Some?)
    && (forall p :: p in ups && p.InProgress() ==> lib.Denotes(p.version, desired))
    && (correctUpgradePending <==> exists p :: p in ups && Wanted(lib, p, desired, now))
  }

  /** Where a walk over `ups`, begun in the state `policies0` with the log `log0`, has brought both. */
  ghost predicate CancelledIn(lib: SemverLibrary, ups: seq<Policy>, desired: Version, now: int,
                              policies0: map<nat, Policy>, log0: seq<Call>, policies: map<nat, Policy>, log: seq<Call>)
  {
    && policies == policies0 - CancelIds(lib, ups, desired, now)
    && log == CancelLog(lib, log0, ups, desired, now)
  }

  lemma OneMoreWalked(lib: SemverLibrary, ups: seq<Policy>, desired: Version, now: int, correct: bool, i: nat)
    requires i < |ups|
    requires Walked(lib, ups[..i], desired, now, correct)
    requires lib.parse(ups[i].version).Some? && (ups[i].InProgress() ==> lib.Denotes(ups[i].version, desired))
    ensures Walked(lib, ups[..i + 1], desired, now, correct || Wanted(lib, ups[i], desired, now))
  {
    assert forall q :: q in ups[..i + 1] <==> q in ups[..i] || q == ups[i];
  }

  lemma OneMoreKept(lib: SemverLibrary, ups: seq<Policy>, desired: Version, now: int, i: nat,
                    policies0: map<nat, Policy>, log0: seq<Call>, policies: map<nat, Policy>, log: seq<Call>)
    requires i < |ups| && !Cancellable(lib, ups[i], desired, now)
    requires CancelledIn(lib, ups[..i], desired, now, policies0, log0, policies, log)
    ensures CancelledIn(lib, ups[..i + 1], desired, now, policies0, log0, policies, log)
  {
    assert ups[..i + 1][..i] == ups[..i];
    assert forall q :: q in ups[..i + 1] <==> q in ups[..i] || q == ups[i];
    assert CancelIds(lib, ups[..i + 1], desired, now) == CancelIds(lib, ups[..i], desired, now);
  }

  lemma OneMoreCancelled(lib: SemverLibrary, ups: seq<Policy>, desired: Version, now: int, i: nat,
                         policies0: map<nat, Policy>, log0: seq<Call>, policies: map<nat, Policy>, log: seq<Call>)
    requires i < |ups| && Cancellable(lib, ups[i], desired, now)
    requires CancelledIn(lib, ups[..i], desired, now, policies0, log0, policies, log)
    ensures CancelledIn(lib, ups[..i + 1], desired, now, policies0, log0, policies - {ups[i].id},
              log + [DeletePolicy(ups[i].id)])
  {
    assert ups[..i + 1][..i] == ups[..i];
    assert forall q :: q in ups[..i + 1] <==> q in ups[..i] || q == ups[i];
    assert CancelIds(lib, ups[..i + 1], desired, now) == CancelIds(lib, ups[..i], desired, now) + {ups[i].id};
  }

  /** Walks the policies in order and stops at the first error. However it ends, deletion was asked
      for the cancellable ones among the first `asked` and done for those among the first `seen`,
      which differ only when the last request failed; on success both are all of them. */
  method CheckAndCancelUpgrades(server: PolicyServer, lib: SemverLibrary, upgrades: seq<Policy>, desired: Version)
    returns (r: Result<bool, Error>, ghost asked: nat, ghost seen: nat)
    requires server.Valid()
    modifies server`policies, server`order, server`log, server`clock, server`lost
    ensures server.Valid()
    ensures server.clock >= old(server.clock)
    ensures seen <= asked <= seen + 1 && asked <= |upgrades| && (r != Failure(ApiFailed) ==> seen == asked)
    ensures server.log == CancelLog(lib, old(server.log), upgrades[..asked], desired, old(server.clock))
    ensures server.policies == old(server.policies) - CancelIds(lib, upgrades[..seen], desired, old(server.clock))
    ensures r.Success? ==> seen == |upgrades| && Walked(lib, upgrades, desired, old(server.clock), r.value)
    ensures r == Failure(UpgradeInProgress) ==>
              && seen < |upgrades| && upgrades[seen].InProgress()
              && lib.parse(upgrades[seen].version).Some? && !lib.Denotes(upgrades[seen].version, desired)
    ensures r == Failure(Unparsable) ==> seen < |upgrades| && lib.parse(upgrades[seen].version).None?
    ensures server.lost == old(server.lost) + if r == Failure(ApiFailed) then 1 else 0
    ensures r.Failure? ==> r.error in {ApiFailed, UpgradeInProgress, Unparsable}
    ensures r.Failure? ==> exists correct :: Walked(lib, upgrades[..seen], desired, old(server.clock), correct)
  {
    var now := server.clock;
    var correctUpgradePending := false;
    for i := 0 to |upgrades|
      invariant server.Valid() && server.clock >= now && server.lost == old(server.lost)
      invariant CancelledIn(lib, upgrades[..i], desired, now, old(server.policies), old(server.log), server.policies,
                server.log)
      invariant Walked(lib, upgrades[..i], desired, now, correctUpgradePending)
    {
      var upgrade := upgrades[i];
      var toVersion := lib.parse(upgrade.version);
      if toVersion.None? {
        return Failure(Unparsable), i, i;
      }
      EqualIsSymmetric(desired, toVersion.value);
      match upgrade.state {
        case Delayed | Started =>
          if !Equal(desired, toVersion.value) {
            return Failure(UpgradeInProgress), i, i;
          }
          OneMoreWalked(lib, upgrades, desired, now, correctUpgradePending, i);
          OneMoreKept(lib, upgrades, desired, now, i, old(server.policies), old(server.log), server.policies,
              server.log);
          correctUpgradePending := true;
        case Pending | Scheduled =>
          OneMoreWalked(lib, upgrades, desired, now, correctUpgradePending, i);
          if Equal(desired, toVersion.value) && upgrade.nextRun < now + TEN_MINUTES {
            OneMoreKept(lib, upgrades, desired, now, i, old(server.policies), old(server.log), server.policies,
                server.log);
            correctUpgradePending := true;
          } else {
            OneMoreCancelled(lib, upgrades, desired, now, i, old(server.policies), old(server.log), server.policies,
                server.log);
            ghost var before := server.policies;
            var ok := server.Delete(upgrade.id);
            if !ok {
              return Failure(ApiFailed), i + 1, if server.policies == before then i else i + 1;
            }
          }
        case Completed | Cancelled | Failed =>
          OneMoreWalked(lib, upgrades, desired, now, correctUpgradePending, i);
          OneMoreKept(lib, upgrades, desired, now, i, old(server.policies), old(server.log), server.policies,
              server.log);
      }
    }
    assert upgrades[..|upgrades|] == upgrades;
    return Success(correctUpgradePending), |upgrades|, |upgrades|;
  }

  lemma EqualIsSymmetric(a: Version, b: Version)
    ensures Equal(a, b) <==> Equal(b, a)
  {
    PrecedenceIsTotalPreorder(a, b, a);
  }

  // Gates and scheduling

  function AckLog(start: seq<Call>, gates: seq<Gate>): seq<Call> {
    if gates == [] then start else AckLog(start, gates[..|gates| - 1]) + [AckGate(gates[|gates| - 1].id)]
  }

  /** The log after everything `ScheduleUpgrade` sends when no call fails, given the answer to its dry
      run. */
  function ScheduleLog(start: seq<Call>, version: string, reply: DryRunReply, userAck: string,
                       minor: string): seq<Call>
  {
    var tried := start + [DryRun(version)];
    match GatesIn(reply)
    case None => tried
    case Some(gates) =>
      if UserAckRequired(gates) && userAck != minor then tried else AckLog(tried, gates) + [AddPolicy(version)]
  }

  lemma {:induction false} AckLogExtends(start: seq<Call>, gates: seq<Gate>, i: nat)
    requires i <= |gates|
    ensures AckLog(start, gates[..i]) <= AckLog(start, gates)
    ensures |AckLog(start, gates[..i])| == |start| + i && |AckLog(start, gates)| == |start| + |gates|
    ensures i < |gates| ==> AckLog(start, gates)[|start| + i] == AckGate(gates[i].id)
    decreases |gates|
  {
    if i < |gates| {
      var front := gates[..|gates| - 1];
      AckLogExtends(start, front, i);
      AckLogExtends(start, front, |front|);
      assert front[..i] == gates[..i] && front[..|front|] == front;
    } else {
      assert gates[..i] == gates;
      if gates != [] {
        AckLogExtends(start, gates[..|gates| - 1], |gates| - 1);
        assert gates[..|gates| - 1][..|gates| - 1] == gates[..|gates| - 1];
      }
    }
  }

  /** What was sent is a prefix of `ScheduleLog`, cut short by the first failure. A policy is scheduled with
      no gate left missing exactly if the dry run was answered or there was none missing anyway. */
  method ScheduleUpgrade(server: PolicyServer, lib: SemverLibrary, kind: UpgradeKind, desired: Version, userAck: string)
    returns (r: Option<Error>, reply: DryRunReply, ghost added: Option<Policy>)
    requires server.Valid()
    requires lib.Denotes(lib.render(desired), desired)
    modifies server`policies, server`order, server`nextId, server`log, server`clock, server`lost, server`acked
    ensures server.Valid()
    ensures server.clock >= old(server.clock)
    ensures old(server.log) < server.log <= ScheduleLog(old(server.log), lib.render(desired), reply, userAck,
              MinorText(desired))
    ensures r.None? ==> added.Some?
    ensures r.None? || added.Some? ==>
              server.log == ScheduleLog(old(server.log), lib.render(desired), reply, userAck, MinorText(desired))
    ensures added.None? ==> server.policies == old(server.policies)
    ensures added.Some? ==>
              && NewPolicy(old(server.policies), server.policies, added.value, kind, lib.render(desired))
              && old(server.clock) + TEN_MINUTES <= added.value.nextRun <= server.clock + TEN_MINUTES
    ensures GatesIn(reply).Some? && !reply.NoResponse? ==>
              GatesIn(reply).value == old(server.MissingGates(lib.render(desired)))
    ensures r.None? ==> (server.MissingGates(lib.render(desired)) == [] <==>
                           !reply.NoResponse? || old(server.MissingGates(lib.render(desired))) == [])
    ensures r == Some(AckNeeded) <==>
              GatesIn(reply).Some? && UserAckRequired(GatesIn(reply).value) && userAck != MinorText(desired)
    ensures r == Some(ApiFailed) <==>
              Unreadable(reply) || server.lost > old(server.lost) + if reply.NoResponse? then 1 else 0
    ensures server.lost >= old(server.lost) + if reply.NoResponse? then 1 else 0
    ensures r.Some? ==> r.value in {ApiFailed, AckNeeded}
  {
    var version := lib.render(desired);
    reply := server.TryAdd(version);
    added := None;
    var answer := GatesIn(reply);
    if answer.None? {
      return Some(ApiFailed), reply, added;
    }
    var gates := answer.value;
    ghost var tried, whole := server.log, ScheduleLog(old(server.log), version, reply, userAck, MinorText(desired));
    assert tried == old(server.log) + [DryRun(version)];
    var userAckRequired := NeedsUser(gates);
    assert lib.Denotes(version, desired);
    EqualVersionsCompareAlike(lib.parse(version).value, desired, desired);
    var targetMinorVersion := MinorText(lib.parse(version).value);
    if userAckRequired && userAck != targetMinorVersion {
      return Some(AckNeeded), reply, added;
    }
    assert whole == AckLog(tried, gates) + [AddPolicy(version)];
    var ok := AcknowledgeAll(server, gates);
    assert server.log <= AckLog(tried, gates) <= whole;
    if !ok {
      return Some(ApiFailed), reply, added;
    }
    if !reply.NoResponse? {
      AckingTheMissingGatesLeavesNone(server.requiredGates(version), old(server.acked), server.acked);
    }
    ok, added := server.Add(kind, version, server.clock + TEN_MINUTES);
    r := if ok then None else Some(ApiFailed);
  }

  ghost predicate NewPolicy(before: map<nat, Policy>, after: map<nat, Policy>, p: Policy, kind: UpgradeKind,
                            version: string)
  {
    && p.kind == kind && p.version == version && p.Waiting()
    && p.id !in before && after == before[p.id := p]
  }

  /** One gate that is not for STS only is enough. */
  method NeedsUser(gates: seq<Gate>) returns (userAckRequired: bool)
    ensures userAckRequired <==> UserAckRequired(gates)
    ensures userAckRequired <==> exists g :: g in gates && !g.stsOnly
  {
    userAckRequired := false;
    for i := 0 to |gates|
      invariant userAckRequired <==> UserAckRequired(gates[..i])
    {
      assert gates[..i + 1] == gates[..i] + [gates[i]];
      if !gates[i].stsOnly {
        userAckRequired := true;
        assert gates[i] in gates[..i + 1];
      }
    }
    assert gates[..|gates|] == gates;
  }

  method AcknowledgeAll(server: PolicyServer, gates: seq<Gate>) returns (ok: bool)
    modifies server`log, server`clock, server`lost, server`acked
    ensures server.clock >= old(server.clock)
    ensures old(server.log) <= server.log <= AckLog(old(server.log), gates)
    ensures ok ==> server.log == AckLog(old(server.log), gates)
    ensures server.lost == old(server.lost) + if ok then 0 else 1
    ensures old(server.acked) <= server.acked
    ensures ok ==> forall g :: g in gates ==> g.id in server.acked
    ensures gates == [] ==> server.acked == old(server.acked)
  {
    for i := 0 to |gates|
      invariant server.clock >= old(server.clock) && old(server.acked) <= server.acked
      invariant server.lost == old(server.lost)
      invariant server.log == AckLog(old(server.log), gates[..i])
      invariant forall j :: 0 <= j < i ==> gates[j].id in server.acked
      invariant i == 0 ==> server.acked == old(server.acked)
    {
      ok := server.Acknowledge(gates[i].id);
      assert gates[..i + 1][..i] == gates[..i];
      AckLogExtends(old(server.log), gates, i + 1);
      AckLogExtends(old(server.log), gates[..i + 1], 0);
      if !ok {
        return false;
      }
    }
    assert gates[..|gates|] == gates;
    AckLogExtends(old(server.log), gates, 0);
    return true;
  }

  /** Gate discipline: in whatever was sent, an added policy comes after an acknowledgement of every
      gate the dry run reported, and when one of those gates needs the user, nothing at all is
      acknowledged or added unless the user wrote down the target minor version. */
  lemma GateDiscipline(start: seq<Call>, log: seq<Call>, version: string, reply: DryRunReply, userAck: string,
                       minor: string)
    requires start < log <= ScheduleLog(start, version, reply, userAck, minor)
    ensures forall i :: |start| <= i < |log| && log[i].AddPolicy? ==>
              && GatesIn(reply).Some?
              && forall g :: g in GatesIn(reply).value ==> AckGate(g.id) in log[|start|..i]
    ensures Unreadable(reply) ==> OnlyReads(start, log)
    ensures GatesIn(reply).Some? && (exists g :: g in GatesIn(reply).value && !g.stsOnly) && userAck != minor ==>
              OnlyReads(start, log)
    ensures forall i :: |start| <= i < |log| && log[i].AckGate? ==>
              GatesIn(reply).Some? && exists g :: g in GatesIn(reply).value && g.id == log[i].gate
  {
    if GatesIn(reply).Some? {
      var gates := GatesIn(reply).value;
      if UserAckRequired(gates) && userAck != minor {
        assert log == start + [DryRun(version)];
      } else {
        AcksBeforeAdding(start, log, version, gates);
      }
    } else {
      assert log == start + [DryRun(version)];
    }
  }

  /** Everything a call sends that is answered throughout: the dry run, then an acknowledgement of each gate
      reported and the policy, but neither when the refusal is no list of gates, or when the user has not
      acknowledged and some gate is not for STS only. */
  lemma WholeScheduleLog(start: seq<Call>, version: string, reply: DryRunReply, userAck: string, minor: string)
    ensures var gates := if reply.Refused? && reply.gates.Some? then reply.gates.value else [];
            var acks := seq(|gates|, i requires 0 <= i < |gates| => AckGate(gates[i].id));
            ScheduleLog(start, version, reply, userAck, minor) ==
            start + [DryRun(version)] +
            if Unreadable(reply) || (userAck != minor && exists g :: g in gates && !g.stsOnly) then []
            else acks + [AddPolicy(version)]
  {
    var gates := if reply.Refused? && reply.gates.Some? then reply.gates.value else [];
    var acks := seq(|gates|, i requires 0 <= i < |gates| => AckGate(gates[i].id));
    AckLogShape(start + [DryRun(version)], gates);
    assert AckLog(start + [DryRun(version)], gates) == start + [DryRun(version)] + acks;
  }

  lemma AcksBeforeAdding(start: seq<Call>, log: seq<Call>, version: string, gates: seq<Gate>)
    requires start < log <= AckLog(start + [DryRun(version)], gates) + [AddPolicy(version)]
    ensures forall i :: |start| <= i < |log| && log[i].AckGate? ==> exists g :: g in gates && g.id == log[i].gate
    ensures forall i :: |start| <= i < |log| && log[i].AddPolicy? ==>
              forall g :: g in gates ==> AckGate(g.id) in log[|start|..i]
  {
    var tried := start + [DryRun(version)];
    AckLogShape(tried, gates);
    AcksComeFirst(|start|, log, AckLog(tried, gates) + [AddPolicy(version)], gates);
  }

  lemma AckLogShape(start: seq<Call>, gates: seq<Gate>)
    ensures start <= AckLog(start, gates) && |AckLog(start, gates)| == |start| + |gates|
    ensures forall n :: |start| <= n < |start| + |gates| ==> AckLog(start, gates)[n] == AckGate(gates[n - |start|].id)
  {
  }

  lemma AcksComeFirst(from: nat, log: seq<Call>, whole: seq<Call>, gates: seq<Gate>)
    requires log <= whole && |whole| == from + |gates| + 2
    requires whole[from].DryRun? && whole[|whole| - 1].AddPolicy?
    requires forall n :: from < n <= from + |gates| ==> whole[n] == AckGate(gates[n - from - 1].id)
    ensures forall i :: from <= i < |log| && log[i].AckGate? ==> exists g :: g in gates && g.id == log[i].gate
    ensures forall i :: from <= i < |log| && log[i].AddPolicy? ==> forall g :: g in gates ==>
              AckGate(g.id) in log[from..i]
  {
    forall i, g | from <= i < |log| && log[i].AddPolicy? && g in gates
      ensures AckGate(g.id) in log[from..i]
    {
      var j :| 0 <= j < |gates| && gates[j] == g;
      assert log[from..i][j + 1] == whole[from + j + 1];
    }
    forall i | from <= i < |log| && log[i].AckGate?
      ensures exists g :: g in gates && g.id == log[i].gate
    {
      assert log[i] == whole[i] == AckGate(gates[i - from - 1].id);
    }
  }
}
