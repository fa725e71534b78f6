/** The upgrade call taken apart into its API requests, with the server moving between any two of them.
    Gate requests do not touch policies and are not steps of their own here. */
module UpgradeInterleaving {
  import opened Wrappers
  import opened Semver
  import opened Paging
  import opened UpgradePolicies
  import opened UpgradeServer
  import opened UpgradeProtocol
  import opened UpgradeCall
  import opened UpgradeRuns

  /** Where the provider is in its call. */
  datatype Stage =
    | Idle
    | Listing(page: nat, listed: seq<Policy>)           // the next page; what the pages before it showed
    | Reading(todo: seq<Policy>, ups: seq<Policy>)      // listed; states read so far
    | Walking(ups: seq<Policy>, next: nat, correct: bool, now: int)
    | Adding

  /** The server lists its policies in `order`. */
  datatype Config = Config(w: World, order: seq<nat>, stage: Stage, cached: Version, desired: Version)

  /** The ids on the pages still to be read. */
  function Unread(order: seq<nat>, page: nat): seq<nat>
    requires page >= 1
  {
    if (page - 1) * PAGE_SIZE <= |order| then order[(page - 1) * PAGE_SIZE..] else []
  }

  /** The call begins: the version running is read. */
  ghost predicate Begins(lib: SemverLibrary, kind: UpgradeKind, c: Config, c': Config) {
    && c.stage.Idle? && c'.w == c.w && c'.order == c.order && c'.stage == Listing(1, [])
    && lib.parse(c.w.current) == Some(c'.cached) && !Less(c'.desired, c'.cached)
  }

  /** One page is listed; a short one is the last. */
  ghost predicate ListsPage(kind: UpgradeKind, c: Config, c': Config) {
    && c.stage.Listing? && c.stage.page >= 1 && Orders(c.order, c.w.policies)
    && var ids := PageOf(c.order, c.stage.page);
       var listed := c.stage.listed + Entries(ids, c.w.policies);
       c' == c.(stage := if |ids| < PAGE_SIZE then Reading(OfKind(listed, kind), [])
                         else Listing(c.stage.page + 1, listed))
  }

  /** One policy state is read, or the walk over the policies begins. */
  ghost predicate Reads(c: Config, c': Config) {
    && c.stage.Reading?
    && if c.stage.todo == [] then c' == c.(stage := Walking(c.stage.ups, 0, false, c.w.clock))
       else
         var p := c.stage.todo[0];
         && p.id in c.w.policies
         && c' == c.(stage := Reading(c.stage.todo[1..], c.stage.ups + [p.(state := c.w.policies[p.id].state)]))
  }

  /** One policy is judged by what was read of it; an unwanted one is deleted. */
  ghost predicate Walks(lib: SemverLibrary, c: Config, c': Config) {
    && c.stage.Walking?
    && var Walking(ups, next, correct, now) := c.stage;
       if next >= |ups| then
         c' == c.(stage := if correct || Equal(c.desired, c.cached) then Idle else Adding)
       else
         var p := ups[next];
         && lib.parse(p.version).Some?
         && (p.InProgress() ==> lib.Denotes(p.version, c.desired))
         && c'.stage == Walking(ups, next + 1, correct || Wanted(lib, p, c.desired, now), now)
         && c' == if !Cancellable(lib, p, c.desired, now) then c.(stage := c'.stage)
                  else c.(stage := c'.stage, w := c.w.(policies := c.w.policies - {p.id}),
                      order := Without(c.order, p.id))
  }

  /** The policy added runs ten minutes from now. */
  ghost predicate SchedulesPolicy(lib: SemverLibrary, kind: UpgradeKind, c: Config, c': Config, p: Policy) {
    && c'.w == c.w.(policies := c'.w.policies) && c'.order == c.order + [p.id]
    && NewPolicy(c.w.policies, c'.w.policies, p, kind, p.version)
    && lib.Denotes(p.version, c.desired) && p.nextRun == c.w.clock + TEN_MINUTES
  }

  ghost predicate Adds(lib: SemverLibrary, kind: UpgradeKind, c: Config, c': Config) {
    && c.stage.Adding?
    && c' == c.(stage := Idle, w := c'.w, order := c'.order)
    && exists p: Policy :: SchedulesPolicy(lib, kind, c, c', p)
  }

  /** Any request may fail and end the call; a failed delete or add may still have taken effect. */
  ghost predicate Fails(lib: SemverLibrary, kind: UpgradeKind, c: Config, c': Config) {
    || c' == c.(stage := Idle)
    || exists done :: (Walks(lib, c, done) || Adds(lib, kind, c, done)) && c' == done.(stage := Idle)
  }

  /** The server moves, and may list its policies in another order from then on. */
  ghost predicate Moves(kind: UpgradeKind, c: Config, c': Config) {
    && ServerMove(kind, c.w, c'.w) && Orders(c'.order, c'.w.policies)
    && c' == c.(w := c'.w, order := c'.order)
  }

  ghost predicate Step(lib: SemverLibrary, kind: UpgradeKind, c: Config, c': Config) {
    || Moves(kind, c, c')
    || Begins(lib, kind, c, c')
    || ListsPage(kind, c, c')
    || Reads(c, c')
    || Walks(lib, c, c')
    || Adds(lib, kind, c, c')
    || Fails(lib, kind, c, c')
  }

  /** The answer to any request may be lost, which ends the call, with or without what the request asked for. */
  lemma AnyAnswerMayBeLost(lib: SemverLibrary, kind: UpgradeKind, c: Config, done: Config)
    requires Walks(lib, c, done) || Adds(lib, kind, c, done)
    ensures Step(lib, kind, c, done.(stage := Idle)) && Step(lib, kind, c, c.(stage := Idle))
  {
  }

  ghost predicate InterleavedAt(lib: SemverLibrary, kind: UpgradeKind, cs: seq<Config>, i: nat)
    requires i + 1 < |cs|
  {
    Step(lib, kind, cs[i], cs[i + 1])
  }

  ghost predicate Interleaving(lib: SemverLibrary, kind: UpgradeKind, cs: seq<Config>) {
    forall i :: 0 <= i < |cs| - 1 ==> InterleavedAt(lib, kind, cs, i)
  }

  // Listing while the server moves

  /** No active policy of the kind slips from the pages still to be read onto one already read. */
  ghost predicate Quiet(kind: UpgradeKind, c: Config, c': Config) {
    c.stage.Listing? && c.stage.page >= 1 ==>
      forall id :: IsActive(kind, c'.w.policies, id) && id in Unread(c.order, c.stage.page) ==>
        id in Unread(c'.order, c.stage.page)
  }

  ghost predicate QuietAt(kind: UpgradeKind, cs: seq<Config>, i: nat)
    requires i + 1 < |cs|
  {
    Quiet(kind, cs[i], cs[i + 1])
  }

  ghost predicate QuietRun(kind: UpgradeKind, cs: seq<Config>) {
    forall i :: 0 <= i < |cs| - 1 ==> QuietAt(kind, cs, i)
  }

  /** When an item vanishes from a list, the one item that can slip onto the first `n` is the next one. */
  lemma OnlyTheNextSlips(order: seq<nat>, k: nat, n: nat, id: nat)
    requires k < |order| && n < |order|
    requires forall i, j :: 0 <= i < j < |order| ==> order[i] != order[j]
    requires id in order[n..] && id != order[k]
    ensures id in Removed(order, k)
    ensures id !in Removed(order, k)[n..] <==> k < n && id == order[n]
  {
    var after := Removed(order, k);
    var i :| n <= i < |order| && order[i] == id;
    if i < k {
      assert after[i] == id && after[n..][i - n] == id;
    } else {
      assert after[i - 1] == id;
      if i > n {
        assert after[n..][i - 1 - n] == id;
      } else {
        assert forall m :: n <= m < |after| ==> after[m] == order[m + 1];
      }
    }
  }

  /** A policy that vanishes makes the listing miss one exactly when it was on a page already read and the
      first policy still unread is an active one of the kind. */
  lemma RemovalIsQuietIff(kind: UpgradeKind, c: Config, c': Config, k: nat)
    requires c.stage.Listing? && c.stage.page >= 2 && (c.stage.page - 1) * PAGE_SIZE < |c.order|
    requires Orders(c.order, c.w.policies) && Orders(c'.order, c'.w.policies)
    requires k < |c.order| && c'.order == Removed(c.order, k)
    ensures var n := (c.stage.page - 1) * PAGE_SIZE;
            Quiet(kind, c, c') <==> k >= n || !IsActive(kind, c'.w.policies, c.order[n])
  {
    var n := (c.stage.page - 1) * PAGE_SIZE;
    assert c.order[n] in c.order[n..];
    forall id | IsActive(kind, c'.w.policies, id) && id in Unread(c.order, c.stage.page)
      ensures id in Unread(c'.order, c.stage.page) <==> k >= n || id != c.order[n]
    {
      assert id != c.order[k] by {
        VanishedIsGone(c.order, k);
      }
      OnlyTheNextSlips(c.order, k, n, id);
    }
  }

  lemma VanishedIsGone(order: seq<nat>, k: nat)
    requires k < |order|
    requires forall i, j :: 0 <= i < j < |order| ==> order[i] != order[j]
    ensures order[k] !in Removed(order, k)
  {
    var after := Removed(order, k);
    forall i | 0 <= i < |after| ensures after[i] != order[k] {
      assert after[i] == if i < k then order[i] else order[i + 1];
    }
  }

  /** With at most a page of policies a call asks for at most two pages, the second one empty. */
  lemma ShortListsEndOnTheSecondPage(lib: SemverLibrary, kind: UpgradeKind, c: Config, c': Config)
    requires Step(lib, kind, c, c') && |c.order| <= PAGE_SIZE
    requires c.stage.Listing? ==> 1 <= c.stage.page <= 2
    ensures c'.stage.Listing? ==> 1 <= c'.stage.page <= 2
  {
    if ListsPage(kind, c, c') && c.stage.page == 2 {
      assert |PageOf(c.order, 2)| < PAGE_SIZE;
    }
  }

  lemma ShortListIsQuiet(lib: SemverLibrary, kind: UpgradeKind, c: Config, c': Config)
    requires Step(lib, kind, c, c') && |c.order| <= PAGE_SIZE
    requires c.stage.Listing? ==> 1 <= c.stage.page <= 2
    ensures Quiet(kind, c, c')
  {
    if c.stage.Listing? {
      assert c.stage.page == 2 ==> Unread(c.order, 2) == [];
      assert c.stage.page == 1 ==> Unread(c'.order, 1) == c'.order;
    }
  }

  /** With at most a page of policies, no move makes the listing miss one: a second page, asked for after a
      full first one, has nothing left to show. */
  lemma {:induction false} ShortListsAreQuiet(lib: SemverLibrary, kind: UpgradeKind, cs: seq<Config>, i: nat)
    requires Interleaving(lib, kind, cs) && i < |cs| && cs[0].stage.Idle?
    requires forall j :: 0 <= j < |cs| ==> |cs[j].order| <= PAGE_SIZE
    ensures cs[i].stage.Listing? ==> 1 <= cs[i].stage.page <= 2
    ensures i + 1 < |cs| ==> QuietAt(kind, cs, i)
  {
    if i > 0 {
      ShortListsAreQuiet(lib, kind, cs, i - 1);
      assert InterleavedAt(lib, kind, cs, i - 1);
      ShortListsEndOnTheSecondPage(lib, kind, cs[i - 1], cs[i]);
    }
    if i + 1 < |cs| {
      assert InterleavedAt(lib, kind, cs, i);
      ShortListIsQuiet(lib, kind, cs[i], cs[i + 1]);
    }
  }

  // At most one active policy

  /** The active policies the call still has to deal with, by what it has read of them. */
  ghost predicate Ahead(kind: UpgradeKind, c: Config, id: nat) {
    match c.stage
    case Idle => true
    case Listing(page, listed) =>
      page >= 1 && (id in Unread(c.order, page) || exists p :: p in listed && p.id == id && p.kind == kind)
    case Reading(todo, ups) =>
      (exists p :: p in todo && p.id == id) || (exists p :: p in ups && p.id == id && p.Active())
    case Walking(ups, next, correct, _) =>
      correct || exists i :: next <= i < |ups| && ups[i].id == id && ups[i].Active()
    case Adding => false
  }

  ghost predicate Inv(kind: UpgradeKind, c: Config) {
    && IsTable(c.w.policies) && Orders(c.order, c.w.policies)
    && AtMostOneActive(kind, c.w.policies)
    && forall id :: IsActive(kind, c.w.policies, id) ==> Ahead(kind, c, id)
  }

  /** A server move only ever makes policies inactive. */
  lemma MovesOnlyRetire(kind: UpgradeKind, w: World, w': World, id: nat)
    requires ServerMove(kind, w, w') && IsActive(kind, w'.policies, id)
    ensures IsActive(kind, w.policies, id)
  {
  }

  lemma MovesKeepInv(kind: UpgradeKind, c: Config, c': Config)
    requires Inv(kind, c) && Moves(kind, c, c') && Quiet(kind, c, c')
    ensures Inv(kind, c')
  {
    forall id | IsActive(kind, c'.w.policies, id)
      ensures IsActive(kind, c.w.policies, id) && Ahead(kind, c', id)
    {
      MovesOnlyRetire(kind, c.w, c'.w, id);
      assert Ahead(kind, c, id);
    }
  }

  /** Of the policies still unread, those not on this page are on the pages after it, if there are any. */
  lemma UnreadSplits(order: seq<nat>, page: nat, id: nat)
    requires page >= 1 && id in Unread(order, page)
    ensures id in PageOf(order, page) || (|PageOf(order, page)| == PAGE_SIZE && id in Unread(order, page + 1))
  {
    var n := (page - 1) * PAGE_SIZE;
    var i :| n <= i < |order| && order[i] == id;
    if i < page * PAGE_SIZE {
      assert PageOf(order, page)[i - n] == id;
    } else {
      assert Unread(order, page + 1)[i - page * PAGE_SIZE] == id;
    }
  }

  lemma ListingKeepsInv(kind: UpgradeKind, c: Config, c': Config)
    requires Inv(kind, c) && ListsPage(kind, c, c')
    ensures Inv(kind, c')
  {
    var page := c.stage.page;
    var ids := PageOf(c.order, page);
    var shown := Entries(ids, c.w.policies);
    var listed := c.stage.listed + shown;
    forall id | IsActive(kind, c'.w.policies, id) ensures Ahead(kind, c', id) {
      assert Ahead(kind, c, id);
      if id in Unread(c.order, page) {
        UnreadSplits(c.order, page, id);
      }
      if id in ids {
        var i :| 0 <= i < |ids| && ids[i] == id;
        assert shown[i] == c.w.policies[id] && shown[i] in listed;
      }
      if c'.stage.Reading? {
        var p :| p in listed && p.id == id && p.kind == kind;
        OfKindSelects(listed, kind, p);
      }
    }
  }

  lemma ReadsKeepInv(kind: UpgradeKind, c: Config, c': Config)
    requires Inv(kind, c) && Reads(c, c')
    ensures Inv(kind, c')
  {
  }

  lemma WalksKeepInv(lib: SemverLibrary, kind: UpgradeKind, c: Config, c': Config)
    requires Inv(kind, c) && Walks(lib, c, c')
    ensures Inv(kind, c')
  {
    var Walking(ups, next, correct, now) := c.stage;
    if next < |ups| {
      WithoutRemoves(c.order, ups[next].id);
    }
    assert forall id :: IsActive(kind, c'.w.policies, id) ==> IsActive(kind, c.w.policies, id);
    forall id | IsActive(kind, c'.w.policies, id) ensures Ahead(kind, c', id) {
      if !correct {
        assert Ahead(kind, c, id);
        var i :| next <= i < |ups| && ups[i].id == id && ups[i].Active();
        assert i == next ==> Wanted(lib, ups[i], c.desired, now);
      }
    }
  }

  lemma AddsKeepInv(lib: SemverLibrary, kind: UpgradeKind, c: Config, c': Config)
    requires Inv(kind, c) && Adds(lib, kind, c, c')
    ensures Inv(kind, c')
  {
    var p: Policy :| SchedulesPolicy(lib, kind, c, c', p);
    assert p.id !in c.order;
    forall id | IsActive(kind, c'.w.policies, id) ensures id == p.id {
      assert id != p.id ==> IsActive(kind, c.w.policies, id);
    }
  }

  lemma StepKeepsInv(lib: SemverLibrary, kind: UpgradeKind, c: Config, c': Config)
    requires Inv(kind, c) && Step(lib, kind, c, c') && Quiet(kind, c, c')
    ensures Inv(kind, c')
  {
    if Moves(kind, c, c') {
      MovesKeepInv(kind, c, c');
    } else if ListsPage(kind, c, c') {
      ListingKeepsInv(kind, c, c');
    } else if Reads(c, c') {
      ReadsKeepInv(kind, c, c');
    } else if Walks(lib, c, c') {
      WalksKeepInv(lib, kind, c, c');
    } else if Adds(lib, kind, c, c') {
      AddsKeepInv(lib, kind, c, c');
    } else if Fails(lib, kind, c, c') && c' != c.(stage := Idle) {
      var done :| (Walks(lib, c, done) || Adds(lib, kind, c, done)) && c' == done.(stage := Idle);
      if Walks(lib, c, done) {
        WalksKeepInv(lib, kind, c, done);
      } else {
        AddsKeepInv(lib, kind, c, done);
      }
    }
  }

  /** However the server moves between the requests of however many calls, and whichever requests fail,
      at most one policy of the kind is ever active, provided none slips past the listing. */
  lemma {:induction false} InterleavingsKeepOneActive(lib: SemverLibrary, kind: UpgradeKind, cs: seq<Config>, i: nat)
    requires i < |cs| && Inv(kind, cs[0])
    requires Interleaving(lib, kind, cs) && QuietRun(kind, cs)
    ensures Inv(kind, cs[i])
    ensures AtMostOneActive(kind, cs[i].w.policies)
  {
    if i > 0 {
      InterleavingsKeepOneActive(lib, kind, cs, i - 1);
      assert InterleavedAt(lib, kind, cs, i - 1) && QuietAt(kind, cs, i - 1);
      StepKeepsInv(lib, kind, cs[i - 1], cs[i]);
    }
  }

  /** For short lists the proviso holds by itself. */
  lemma ShortListsKeepOneActive(lib: SemverLibrary, kind: UpgradeKind, cs: seq<Config>, i: nat)
    requires i < |cs| && Inv(kind, cs[0]) && cs[0].stage.Idle?
    requires Interleaving(lib, kind, cs) && forall j :: 0 <= j < |cs| ==> |cs[j].order| <= PAGE_SIZE
    ensures AtMostOneActive(kind, cs[i].w.policies)
  {
    forall j | 0 <= j < |cs| - 1 ensures QuietAt(kind, cs, j) {
      ShortListsAreQuiet(lib, kind, cs, j);
    }
    InterleavingsKeepOneActive(lib, kind, cs, i);
  }
}
