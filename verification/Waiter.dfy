/** Waiting for a cluster: the bounded polls with a pause in between, and the destroy retry with its growing
    pause. Times are in seconds. */
module Waiter {
  import opened Wrappers

  datatype State = Ready | Error | Uninstalling | Other

  datatype Cluster = Cluster(state: State, compute: int, currentCompute: int)

  datatype Answer = Found(cluster: Cluster) | NotFound | Failed

  const ATTEMPTS := 3
  const PAUSE := 30

  /** What the server answers is its own affair; the results of the polls and the time slept are recorded, and the
      last answer and cluster are remembered. */
  class ClusterServer {
    var answer: Answer            // to the first request of a wait
    var shown: Option<Cluster>    // the cluster last seen
    var polls: seq<Option<Cluster>>   // the results of polling for the cluster, None for a failure
    var removals: seq<Option<bool>>   // the results of polling for the cluster to be gone
    var slept: nat

    method Get() returns (r: Answer)
      modifies `answer, `shown
      ensures answer == r && shown == if r.Found? then Some(r.cluster) else old(shown)
    {
      var c: Cluster := *;
      r := *;
      answer, shown := r, if r.Found? then Some(r.cluster) else shown;
    }

    /** Polls until the state is final or the time is up. */
    method PollState() returns (r: Option<Cluster>)
      modifies `polls, `shown
      ensures polls == old(polls) + [r]
      ensures r.Some? ==> shown == r && !r.value.state.Other?
    {
      shown, r := *, None;
      if shown.Some? && !shown.value.state.Other? {
        r := shown;
      }
      polls := polls + [r];
    }

    /** Polls until the nodes are there or the time is up. */
    method PollCurrentCompute() returns (r: Option<Cluster>)
      modifies `polls, `shown
      ensures polls == old(polls) + [r]
      ensures r.Some? ==> shown == r && r.value.compute == r.value.currentCompute
    {
      shown, r := *, None;
      if shown.Some? && shown.value.compute == shown.value.currentCompute {
        r := shown;
      }
      polls := polls + [r];
    }

    /** Polls until the cluster is not found. */
    method PollNotFound() returns (r: Option<bool>)
      modifies `removals
      ensures removals == old(removals) + [r]
    {
      r := *;
      removals := removals + [r];
    }

    method Sleep(time: nat)
      modifies `slept
      ensures slept == old(slept) + time
    {
      slept := slept + time;
    }
  }

  function Failures<T>(n: nat): seq<Option<T>> {
    seq(n, i => None)
  }

  /** Three polls at the most, with a pause of thirty seconds between any two, and none after the first that does not
      fail. */
  ghost predicate Polled(before: seq<Option<Cluster>>, after: seq<Option<Cluster>>, slept: int,
                         cluster: Option<Cluster>)
  {
    var polls := |after| - |before|;
    && 1 <= polls <= 3
    && after == before + Failures(polls - 1) + [cluster]
    && (cluster.None? ==> polls == 3)
    && slept == 30 * (polls - 1)
  }

  lemma OneMoreFailure(before: seq<Option<Cluster>>, n: nat)
    ensures before + Failures(n) + [None] == before + Failures(n + 1)
    ensures before + Failures(0) == before
  {
  }

  /** There is no error exactly when the cluster returned, which is the one the server showed last, is ready. A first
      answer that is final, or that the cluster is not found, ends the wait; any other, also a failure, means that
      polling starts, and its first final cluster is the one returned. */
  method WaitForClusterToBeReady(server: ClusterServer) returns (cluster: Option<Cluster>, failed: bool)
    modifies server
    ensures !failed <==> cluster.Some? && cluster.value.state.Ready?
    ensures cluster.Some? ==> server.shown == cluster && !cluster.value.state.Other?
    ensures if server.answer.NotFound? || (server.answer.Found? && !server.answer.cluster.state.Other?) then
              && server.polls == old(server.polls) && server.slept == old(server.slept)
              && cluster == if server.answer.Found? then Some(server.answer.cluster) else None
            else Polled(old(server.polls), server.polls, server.slept - old(server.slept), cluster)
  {
    var resp := server.Get();
    if resp.NotFound? {
      return None, true;
    }
    var currentState := if resp.Found? then resp.cluster.state else Other;
    if currentState.Error? || currentState.Uninstalling? {
      return Some(resp.cluster), true;
    }
    if currentState.Ready? {
      return Some(resp.cluster), false;
    }
    var backoffAttempts := ATTEMPTS;
    cluster := None;
    OneMoreFailure(server.polls, 0);
    while cluster.None?
      invariant 1 <= backoffAttempts <= ATTEMPTS && server.answer == resp
      invariant cluster.Some? ==>
                  && server.shown == cluster && !cluster.value.state.Other?
                  && Polled(old(server.polls), server.polls, server.slept - old(server.slept), cluster)
      invariant cluster.None? ==> server.polls == old(server.polls) + Failures(ATTEMPTS - backoffAttempts)
      invariant server.slept == old(server.slept) + PAUSE * (ATTEMPTS - backoffAttempts)
      decreases cluster.None?, backoffAttempts
    {
      cluster := server.PollState();
      if cluster.None? {
        OneMoreFailure(old(server.polls), ATTEMPTS - backoffAttempts);
        backoffAttempts := backoffAttempts - 1;
        if backoffAttempts == 0 {
          return None, true;
        }
        server.Sleep(PAUSE);
      }
    }
    failed := !cluster.value.state.Ready?;
  }

  /** The same for the number of compute nodes, where the cluster returned by a poll has them all; but a first request
      that fails for another reason than a missing cluster is taken for one whose nodes are all there: success
      without a cluster. */
  method WaitForStdComputeNodesToBeReady(server: ClusterServer) returns (cluster: Option<Cluster>, failed: bool)
    modifies server
    ensures !failed <==> cluster.Some? || server.answer.Failed?
    ensures cluster.Some? ==> server.shown == cluster && cluster.value.compute == cluster.value.currentCompute
    ensures if server.answer.Found? && server.answer.cluster.compute != server.answer.cluster.currentCompute then
              Polled(old(server.polls), server.polls, server.slept - old(server.slept), cluster)
            else
              && server.polls == old(server.polls) && server.slept == old(server.slept)
              && cluster == if server.answer.Found? then Some(server.answer.cluster) else None
  {
    var resp := server.Get();
    if resp.NotFound? {
      return None, true;
    }
    var compute := if resp.Found? then resp.cluster.compute else 0;
    var currentCompute := if resp.Found? then resp.cluster.currentCompute else 0;
    if compute == currentCompute {
      return if resp.Found? then Some(resp.cluster) else None, false;
    }
    var backoffAttempts := ATTEMPTS;
    cluster := None;
    OneMoreFailure(server.polls, 0);
    while cluster.None?
      invariant 1 <= backoffAttempts <= ATTEMPTS && server.answer == resp
      invariant cluster.Some? ==>
                  && server.shown == cluster && cluster.value.compute == cluster.value.currentCompute
                  && Polled(old(server.polls), server.polls, server.slept - old(server.slept), cluster)
      invariant cluster.None? ==> server.polls == old(server.polls) + Failures(ATTEMPTS - backoffAttempts)
      invariant server.slept == old(server.slept) + PAUSE * (ATTEMPTS - backoffAttempts)
      decreases cluster.None?, backoffAttempts
    {
      cluster := server.PollCurrentCompute();
      if cluster.None? {
        OneMoreFailure(old(server.polls), ATTEMPTS - backoffAttempts);
        backoffAttempts := backoffAttempts - 1;
        if backoffAttempts == 0 {
          return None, true;
        }
        server.Sleep(PAUSE);
      }
    }
    failed := cluster.value.compute != cluster.value.currentCompute;
  }

  // The destroy retry

  /** The time slept before the n-th try, when the pause starts at `sleep` and doubles each time. */
  function Paused(sleep: nat, tries: nat): nat
    decreases tries
  {
    if tries <= 1 then 0 else sleep + Paused(2 * sleep, tries - 1)
  }

  function Pow2(n: nat): nat {
    if n == 0 then 1 else 2 * Pow2(n - 1)
  }

  lemma {:induction false} PausesAddUp(sleep: nat, tries: nat)
    requires tries >= 1
    ensures Paused(sleep, tries) == (Pow2(tries - 1) - 1) * sleep
    decreases tries
  {
    if tries > 1 {
      PausesAddUp(2 * sleep, tries - 1);
      var p := Pow2(tries - 2);
      assert sleep + (p - 1) * (2 * sleep) == (2 * p - 1) * sleep;
    }
  }

  /** One try at least, at most as many as asked for, each but the last a failure; it gives up only when all
      of them failed. */
  method RetryClusterNotFoundWithTimeout(server: ClusterServer, attempts: int, sleep: nat) returns (r: Option<bool>)
    modifies server`removals, server`slept
    ensures var (tries, most) := (|server.removals| - |old(server.removals)|, if attempts >= 1 then attempts else 1);
            && 1 <= tries <= most
            && server.removals == old(server.removals) + Failures(tries - 1) + [r]
            && (r.None? ==> tries == most)
            && server.slept == old(server.slept) + (Pow2(tries - 1) - 1) * sleep
    decreases attempts
  {
    r := server.PollNotFound();
    if r.None? && attempts - 1 > 0 {
      ghost var once := server.removals;
      server.Sleep(sleep);
      r := RetryClusterNotFoundWithTimeout(server, attempts - 1, 2 * sleep);
      ghost var tries := |server.removals| - |once|;
      assert Failures<bool>(tries) == [None] + Failures<bool>(tries - 1);
      PausesAddUp(sleep, tries + 1);
      PausesAddUp(2 * sleep, tries);
    }
  }
}
