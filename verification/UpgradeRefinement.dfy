/** An upgrade call that runs request by request, without a server move in between, has the effect that the
    whole runs take a call to have. */
module UpgradeRefinement {
  import opened Wrappers
  import opened Semver
  import opened Paging
  import opened UpgradePolicies
  import opened UpgradeServer
  import opened UpgradeProtocol
  import opened UpgradeCall
  import opened UpgradeInterleaving

  /** A request of the call, answered or not. */
  ghost predicate Request(lib: SemverLibrary, kind: UpgradeKind, c: Config, c': Config) {
    ListsPage(kind, c, c') || Reads(c, c') || Walks(lib, c, c') || Adds(lib, kind, c, c') || Fails(lib, kind, c, c')
  }

  ghost predicate RequestAt(lib: SemverLibrary, kind: UpgradeKind, cs: seq<Config>, i: nat)
    requires i + 1 < |cs|
  {
    Request(lib, kind, cs[i], cs[i + 1])
  }

  /** Where a call that began in `w0` has got to. */
  ghost predicate During(lib: SemverLibrary, kind: UpgradeKind, w0: World, c: Config) {
    && !Less(c.desired, c.cached)
    && match c.stage
       case Idle => exists fx :: CallEffect(lib, kind, c.cached, c.desired, w0, c.w, fx)
       case Listing(page, listed) =>
         && c.w == w0 && IsTable(w0.policies) && Orders(c.order, w0.policies)
         && page >= 1 && (page - 1) * PAGE_SIZE <= |c.order|
         && listed == Entries(c.order[..(page - 1) * PAGE_SIZE], w0.policies)
       case Reading(todo, ups) => c.w == w0 && Lists(ups + todo, w0.policies, kind)
       case Walking(ups, next, correct, now) =>
         && now == w0.clock && next <= |ups| && Lists(ups, w0.policies, kind)
         && Walked(lib, ups[..next], c.desired, now, correct)
         && c.w == w0.(policies := w0.policies - CancelIds(lib, ups[..next], c.desired, now))
       case Adding =>
         && c.w.clock == w0.clock && Less(c.cached, c.desired) && NoneActive(kind, c.w.policies)
         && exists gone :: CallEffect(lib, kind, c.cached, c.desired, w0, c.w, Effect(gone, None, w0.clock, None, 0))
  }

  /** The whole list, filtered by kind, is what the policy table holds of that kind. */
  lemma WholeListing(kind: UpgradeKind, order: seq<nat>, policies: map<nat, Policy>)
    requires IsTable(policies) && Orders(order, policies)
    ensures Lists(OfKind(Entries(order, policies), kind), policies, kind)
  {
    var all := Entries(order, policies);
    forall p: Policy
      ensures p in OfKind(all, kind) <==> p.id in policies && policies[p.id] == p && p.kind == kind
    {
      OfKindSelects(all, kind, p);
      if p.id in policies && policies[p.id] == p {
        var i :| 0 <= i < |order| && order[i] == p.id;
        assert all[i] == p;
      }
    }
  }

  lemma EntriesOfConcatenation(ids: seq<nat>, more: seq<nat>, policies: map<nat, Policy>)
    requires forall id :: id in ids || id in more ==> id in policies
    ensures Entries(ids + more, policies) == Entries(ids, policies) + Entries(more, policies)
  {
  }

  lemma OneMorePage(order: seq<nat>, page: nat, policies: map<nat, Policy>)
    requires page >= 1 && (page - 1) * PAGE_SIZE <= |order|
    requires forall id :: id in order ==> id in policies
    ensures var (ids, before) := (PageOf(order, page), order[..(page - 1) * PAGE_SIZE]);
            if |ids| < PAGE_SIZE then Entries(before, policies) + Entries(ids, policies) == Entries(order, policies)
            else
              && page * PAGE_SIZE <= |order|
              && Entries(before, policies) + Entries(ids, policies) == Entries(order[..page * PAGE_SIZE], policies)
  {
    PageContinues(order, page);
    EntriesOfConcatenation(order[..(page - 1) * PAGE_SIZE], PageOf(order, page), policies);
  }

  lemma ListingStaysDuring(lib: SemverLibrary, kind: UpgradeKind, w0: World, c: Config, c': Config)
    requires During(lib, kind, w0, c) && ListsPage(kind, c, c')
    ensures During(lib, kind, w0, c')
  {
    OneMorePage(c.order, c.stage.page, w0.policies);
    if c'.stage.Reading? {
      WholeListing(kind, c.order, w0.policies);
      assert c'.stage.ups + c'.stage.todo == c'.stage.todo;
    }
  }

  lemma ReadsStayDuring(lib: SemverLibrary, kind: UpgradeKind, w0: World, c: Config, c': Config)
    requires During(lib, kind, w0, c) && Reads(c, c')
    ensures During(lib, kind, w0, c')
  {
    var Reading(todo, ups) := c.stage;
    if todo == [] {
      assert ups + todo == ups;
      assert ups[..0] == [] && CancelIds(lib, [], c.desired, w0.clock) == {};
      assert w0.policies - {} == w0.policies;
    } else {
      var p := todo[0];
      assert p in ups + todo;
      assert (ups + [p]) + todo[1..] == ups + todo;
    }
  }

  lemma WalksStayDuring(lib: SemverLibrary, kind: UpgradeKind, w0: World, c: Config, c': Config)
    requires During(lib, kind, w0, c) && Walks(lib, c, c')
    ensures During(lib, kind, w0, c')
  {
    var Walking(ups, next, correct, now) := c.stage;
    if next < |ups| {
      var log := CancelLog(lib, [], ups[..next], c.desired, now);
      OneMoreWalked(lib, ups, c.desired, now, correct, next);
      if Cancellable(lib, ups[next], c.desired, now) {
        OneMoreCancelled(lib, ups, c.desired, now, next, w0.policies, [], c.w.policies, log);
      } else {
        OneMoreKept(lib, ups, c.desired, now, next, w0.policies, [], c.w.policies, log);
      }
    } else {
      assert ups[..next] == ups;
      CancellingIsACallEffect(lib, kind, c.cached, c.desired, w0, c.w, ups, next, now);
      OnlyWantedRemain(lib, kind, c.desired, w0.policies, ups, now, correct);
      PrecedenceIsTotalPreorder(c.cached, c.desired, c.cached);
    }
  }

  lemma AddsStayDuring(lib: SemverLibrary, kind: UpgradeKind, w0: World, c: Config, c': Config)
    requires During(lib, kind, w0, c) && Adds(lib, kind, c, c')
    ensures During(lib, kind, w0, c')
  {
    var p: Policy :| SchedulesPolicy(lib, kind, c, c', p);
    var gone :| CallEffect(lib, kind, c.cached, c.desired, w0, c.w, Effect(gone, None, w0.clock, None, 0));
    assert CallEffect(lib, kind, c.cached, c.desired, w0, c'.w, Effect(gone, Some(p), w0.clock, None, 0));
  }

  /** Giving up is a call's effect at every stage. */
  lemma GivingUpStaysDuring(lib: SemverLibrary, kind: UpgradeKind, w0: World, c: Config)
    requires During(lib, kind, w0, c)
    ensures exists fx :: CallEffect(lib, kind, c.cached, c.desired, w0, c.w, fx)
  {
    match c.stage
    case Listing(_, _) =>
      assert w0.policies - {} == w0.policies;
      assert CallEffect(lib, kind, c.cached, c.desired, w0, c.w, Effect({}, None, w0.clock, None, 0));
    case Reading(todo, ups) =>
      assert w0.policies - CancelIds(lib, (ups + todo)[..0], c.desired, w0.clock) == w0.policies;
      CancellingIsACallEffect(lib, kind, c.cached, c.desired, w0, c.w, ups + todo, 0, w0.clock);
    case Walking(ups, next, _, now) =>
      CancellingIsACallEffect(lib, kind, c.cached, c.desired, w0, c.w, ups, next, now);
    case _ =>
  }

  lemma RequestsStayDuring(lib: SemverLibrary, kind: UpgradeKind, w0: World, c: Config, c': Config)
    requires During(lib, kind, w0, c) && Request(lib, kind, c, c')
    ensures During(lib, kind, w0, c')
  {
    if ListsPage(kind, c, c') {
      ListingStaysDuring(lib, kind, w0, c, c');
    } else if Reads(c, c') {
      ReadsStayDuring(lib, kind, w0, c, c');
    } else if Walks(lib, c, c') {
      WalksStayDuring(lib, kind, w0, c, c');
    } else if Adds(lib, kind, c, c') {
      AddsStayDuring(lib, kind, w0, c, c');
    } else if c' == c.(stage := Idle) {
      GivingUpStaysDuring(lib, kind, w0, c);
    } else {
      var done :| (Walks(lib, c, done) || Adds(lib, kind, c, done)) && c' == done.(stage := Idle);
      if Walks(lib, c, done) {
        WalksStayDuring(lib, kind, w0, c, done);
      } else {
        AddsStayDuring(lib, kind, w0, c, done);
      }
      GivingUpStaysDuring(lib, kind, w0, done);
    }
  }

  /** A call begun in one state and run to its end, or to any failure, has a call's effect on that state. */
  lemma {:induction false} UndisturbedCallHasItsEffect(lib: SemverLibrary, kind: UpgradeKind, cs: seq<Config>, i: nat)
    requires 1 <= i < |cs| && Begins(lib, kind, cs[0], cs[1])
    requires IsTable(cs[0].w.policies) && Orders(cs[0].order, cs[0].w.policies)
    requires forall j :: 1 <= j < |cs| - 1 ==> RequestAt(lib, kind, cs, j)
    ensures During(lib, kind, cs[0].w, cs[i])
    ensures cs[i].stage.Idle? ==>
              exists fx :: CallEffect(lib, kind, cs[i].cached, cs[i].desired, cs[0].w, cs[i].w, fx)
  {
    if i == 1 {
      assert Entries(cs[1].order[..0], cs[0].w.policies) == [];
    } else {
      UndisturbedCallHasItsEffect(lib, kind, cs, i - 1);
      assert RequestAt(lib, kind, cs, i - 1);
      RequestsStayDuring(lib, kind, cs[0].w, cs[i - 1], cs[i]);
    }
  }
}
