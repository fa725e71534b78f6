/** The policy server, seen through its API. Any call may fail, and a failed call may still have
    taken effect: only its answer was lost. Every call is logged and takes time. */
module UpgradeServer {
  import opened Wrappers
  import opened Paging
  import opened UpgradePolicies

  datatype Call =
    | ListPolicies(page: nat)
    | ReadState(id: nat)
    | ReadVersion(versionId: string)
    | ReadCluster
    | DeletePolicy(id: nat)
    | DryRun(version: string)
    | AckGate(gate: string)
    | AddPolicy(version: string)
  {
    /** Calls that ask the server to change something. */
    predicate Mutates() {
      DeletePolicy? || AckGate? || AddPolicy?
    }
  }

  /** `log` extends `start` by calls that change nothing. */
  ghost predicate OnlyReads(start: seq<Call>, log: seq<Call>) {
    && start <= log
    && forall i :: |start| <= i < |log| ==> !log[i].Mutates()
  }

  datatype VersionInfo = VersionInfo(rawId: string, channelGroup: string, enabled: bool, availableUpgrades: seq<string>)

  /** What the upgrade protocol is about: the policies by id, the version running, and the time. */
  datatype World = World(policies: map<nat, Policy>, current: string, clock: int)

  /** A list of the ids of a table, each once. */
  ghost predicate Orders(order: seq<nat>, policies: map<nat, Policy>) {
    && (forall id :: id in order <==> id in policies)
    && (forall i, j :: 0 <= i < j < |order| ==> order[i] != order[j])
  }

  function Entries(ids: seq<nat>, policies: map<nat, Policy>): seq<Policy>
    requires forall id :: id in ids ==> id in policies
  {
    seq(|ids|, i requires 0 <= i < |ids| => policies[ids[i]])
  }

  class PolicyServer {
    var policies: map<nat, Policy>
    var order: seq<nat>           // the ids, in the order the server lists them
    var nextId: nat
    var acked: set<string>
    var current: string           // the version running
    var clock: int
    var log: seq<Call>
    ghost var lost: nat           // how many requests were not answered
    const upgradesFromCurrent: VersionInfo
    const catalog: map<string, VersionInfo>
    const requiredGates: string -> seq<Gate>

    ghost predicate Valid()
      reads `policies, `order, `nextId
    {
      && (forall id :: id in policies ==> policies[id].id == id < nextId)
      && Orders(order, policies)
    }

    /** The policies in the order the server lists them. */
    function Listing(): seq<Policy>
      requires Valid()
      reads `policies, `order, `nextId
    {
      Entries(order, policies)
    }

    /** The listing holds every policy once. */
    lemma ListingIsComplete()
      requires Valid()
      ensures DistinctIds(Listing())
      ensures forall p: Policy :: p in Listing() <==> p.id in policies && policies[p.id] == p
    {
      forall p: Policy | p.id in policies && policies[p.id] == p ensures p in Listing() {
        var i :| 0 <= i < |order| && order[i] == p.id;
        assert Listing()[i] == p;
      }
    }

    ghost function Seen(): World
      reads `policies, `current, `clock
    {
      World(policies, current, clock)
    }

    /** The gates the server still wants acknowledged before an upgrade to this version. */
    function MissingGates(version: string): seq<Gate>
      reads `acked
    {
      Unacked(requiredGates(version), acked)
    }

    method Send(c: Call) returns (answered: bool)
      modifies `log, `clock, `lost
      ensures log == old(log) + [c]
      ensures clock >= old(clock)
      ensures lost == old(lost) + if answered then 0 else 1
    {
      log := log + [c];
      var elapsed :| elapsed >= 0;
      clock := clock + elapsed;
      answered := *;
      lost := lost + if answered then 0 else 1;
    }

    method List(page: nat) returns (r: Option<seq<Policy>>)
      requires Valid() && page >= 1
      modifies `log, `clock, `lost
      ensures log == old(log) + [ListPolicies(page)] && clock >= old(clock)
      ensures r.Some? ==> r.value == PageOf(Listing(), page)
      ensures lost == old(lost) + if r.Some? then 0 else 1
    {
      var ok := Send(ListPolicies(page));
      r := if ok then Some(PageOf(Listing(), page)) else None;
    }

    method StateOf(id: nat) returns (r: Option<PolicyState>)
      modifies `log, `clock, `lost
      ensures log == old(log) + [ReadState(id)] && clock >= old(clock)
      ensures r.Some? ==> id in policies && r.value == policies[id].state
      ensures old(lost) <= lost <= old(lost) + 1 && (r.Some? <==> id in policies && lost == old(lost))
    {
      var ok := Send(ReadState(id));
      r := if ok && id in policies then Some(policies[id].state) else None;
    }

    method VersionOf(versionId: string) returns (r: Option<VersionInfo>)
      modifies `log, `clock, `lost
      ensures log == old(log) + [ReadVersion(versionId)] && clock >= old(clock)
      ensures r.Some? ==> versionId in catalog && r.value == catalog[versionId]
      ensures old(lost) <= lost <= old(lost) + 1 && (r.Some? <==> versionId in catalog && lost == old(lost))
    {
      var ok := Send(ReadVersion(versionId));
      r := if ok && versionId in catalog then Some(catalog[versionId]) else None;
    }

    /** The version running, with the upgrades it offers. */
    method ClusterVersion() returns (r: Option<VersionInfo>)
      modifies `log, `clock, `lost
      ensures log == old(log) + [ReadCluster] && clock >= old(clock)
      ensures r.Some? ==> r.value == upgradesFromCurrent
      ensures lost == old(lost) + if r.Some? then 0 else 1
    {
      var ok := Send(ReadCluster);
      r := if ok then Some(upgradesFromCurrent) else None;
    }

    method Delete(id: nat) returns (ok: bool)
      requires Valid()
      modifies `log, `clock, `lost, `policies, `order
      ensures Valid()
      ensures log == old(log) + [DeletePolicy(id)] && clock >= old(clock)
      ensures policies == old(policies) - {id} || (!ok && policies == old(policies))
      ensures lost == old(lost) + if ok then 0 else 1
    {
      ok := Send(DeletePolicy(id));
      var applied: bool := *;
      if ok || applied {
        policies := policies - {id};
        WithoutRemoves(order, id);
        order := Without(order, id);
      }
    }

    method TryAdd(version: string) returns (reply: DryRunReply)
      modifies `log, `clock, `lost
      ensures log == old(log) + [DryRun(version)] && clock >= old(clock)
      ensures lost == old(lost) + if reply.NoResponse? then 1 else 0
      ensures reply.Accepted? ==> MissingGates(version) == []
      ensures reply.Refused? && GatesIn(reply).Some? ==> GatesIn(reply).value == MissingGates(version)
    {
      var ok := Send(DryRun(version));
      var readable: bool := *;
      reply := if !ok then NoResponse
               else if MissingGates(version) != [] && readable then Refused(Some(MissingGates(version)))
               else if MissingGates(version) == [] && readable then Accepted
               else Refused(None);
    }

    method Acknowledge(gate: string) returns (ok: bool)
      modifies `log, `clock, `lost, `acked
      ensures log == old(log) + [AckGate(gate)] && clock >= old(clock)
      ensures acked == old(acked) + {gate} || (!ok && acked == old(acked))
      ensures lost == old(lost) + if ok then 0 else 1
    {
      ok := Send(AckGate(gate));
      var applied: bool := *;
      if ok || applied {
        acked := acked + {gate};
      }
    }

    /** A new policy waits for its run; the server decides whether it is pending or already scheduled. */
    method Add(kind: UpgradeKind, version: string, nextRun: int) returns (ok: bool, ghost added: Option<Policy>)
      requires Valid()
      modifies `log, `clock, `lost, `policies, `order, `nextId
      ensures Valid()
      ensures log == old(log) + [AddPolicy(version)] && clock >= old(clock)
      ensures lost == old(lost) + if ok then 0 else 1
      ensures ok ==> added.Some?
      ensures added.None? ==> policies == old(policies)
      ensures added.Some? ==>
                var p := added.value;
                && p.kind == kind && p.version == version && p.nextRun == nextRun && p.Waiting()
                && p.id !in old(policies)
                && policies == old(policies)[p.id := p]
    {
      ok := Send(AddPolicy(version));
      added := None;
      var applied: bool := *;
      if ok || applied {
        var scheduled: bool := *;
        var p := Policy(nextId, kind, version, nextRun, if scheduled then Scheduled else Pending);
        added := Some(p);
        assert nextId !in order;
        policies := policies[nextId := p];
        order := order + [nextId];
        nextId := nextId + 1;
      }
    }
  }

  function Without(ids: seq<nat>, id: nat): seq<nat> {
    if ids == [] then [] else (if ids[0] == id then [] else [ids[0]]) + Without(ids[1..], id)
  }

  lemma {:induction false} WithoutRemoves(ids: seq<nat>, id: nat)
    ensures forall x :: x in Without(ids, id) <==> x in ids && x != id
    ensures (forall i, j :: 0 <= i < j < |ids| ==> ids[i] != ids[j]) ==>
              (forall i, j :: 0 <= i < j < |Without(ids, id)| ==> Without(ids, id)[i] != Without(ids, id)[j])
  {
    if ids != [] {
      WithoutRemoves(ids[1..], id);
      assert ids == [ids[0]] + ids[1..];
      assert forall i :: 0 <= i < |Without(ids[1..], id)| ==> Without(ids[1..], id)[i] in ids[1..];
    }
  }

  function Unacked(gates: seq<Gate>, acked: set<string>): seq<Gate> {
    if gates == [] then []
    else (if gates[0].id in acked then [] else [gates[0]]) + Unacked(gates[1..], acked)
  }

  lemma {:induction false} UnackedSelects(gates: seq<Gate>, acked: set<string>)
    ensures forall g :: g in Unacked(gates, acked) <==> g in gates && g.id !in acked
  {
    if gates != [] {
      UnackedSelects(gates[1..], acked);
      assert gates == [gates[0]] + gates[1..];
    }
  }

  /** Once every gate that was missing is acknowledged, none is missing. */
  lemma {:induction false} AckingTheMissingGatesLeavesNone(gates: seq<Gate>, acked: set<string>, more: set<string>)
    requires acked <= more
    requires forall g :: g in Unacked(gates, acked) ==> g.id in more
    ensures Unacked(gates, more) == []
  {
    if gates != [] {
      assert gates[0].id !in acked ==> gates[0] in Unacked(gates, acked);
      AckingTheMissingGatesLeavesNone(gates[1..], acked, more);
    }
  }
}
