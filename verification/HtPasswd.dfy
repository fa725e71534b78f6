/** Reconciling the users of an htpasswd identity provider: read their ids, delete the users that left
    the plan, then change and add the rest. Maps are walked in no particular order. */
module HtPasswd {
  import opened Wrappers

  datatype User = User(username: string, password: string)

  /** NoId stands for the empty id. */
  datatype Id = NoId | Id(n: nat)

  /** A user with the server's id for it; id and name are empty when the server does not list it. */
  datatype UserWithId = UserWithId(id: Id, username: string, password: string)

  datatype Account = Account(id: Id, password: string)

  type Accounts = map<string, Account>

  function Passwords(accounts: Accounts): map<string, string> {
    map n | n in accounts :: accounts[n].password
  }

  /** The server's table of users: names are unique and not blank, ids are unique and not empty. */
  class UserServer {
    var accounts: Accounts
    var nextId: nat
    ghost var lost: nat    // how many requests were not answered

    ghost predicate Valid()
      reads this
    {
      && "" !in accounts
      && (forall n :: n in accounts ==> accounts[n].id.Id? && accounts[n].id.n < nextId)
      && (forall m, n :: m in accounts && n in accounts && accounts[m].id == accounts[n].id ==> m == n)
    }

    method Send() returns (answered: bool)
      modifies `lost
      ensures lost == old(lost) + if answered then 0 else 1
    {
      answered := *;
      lost := lost + if answered then 0 else 1;
    }

    method List() returns (r: Option<Accounts>)
      modifies `lost
      ensures r.Some? ==> r.value == accounts
      ensures lost == old(lost) + if r.Some? then 0 else 1
    {
      var ok := Send();
      r := if ok then Some(accounts) else None;
    }

    /** Fails for an id that no user has; a failed call may still have taken effect on the user. */
    method Delete(id: Id, ghost name: string) returns (ok: bool)
      requires Valid() && forall n :: n in accounts && accounts[n].id == id ==> n == name
      modifies this
      ensures Valid()
      ensures ok ==> name in old(accounts) && accounts == old(accounts) - {name}
      ensures !ok ==> accounts == old(accounts) || accounts == old(accounts) - {name}
      ensures old(lost) <= lost <= old(lost) + 1
      ensures ok <==> lost == old(lost) && name in old(accounts) && old(accounts)[name].id == id
    {
      var answered := Send();
      ok := false;
      if n :| n in accounts && accounts[n].id == id {
        ok := answered;
        var applied: bool := *;
        if answered || applied {
          accounts := accounts - {n};
        }
      }
    }

    method Update(password: string, id: Id, ghost name: string) returns (ok: bool)
      requires Valid() && forall n :: n in accounts && accounts[n].id == id ==> n == name
      modifies this
      ensures Valid()
      ensures ok ==> name in old(accounts) && accounts == old(accounts)[name := Account(id, password)]
      ensures !ok ==>
                accounts == old(accounts) ||
                (name in old(accounts) && accounts == old(accounts)[name := Account(id, password)])
      ensures old(lost) <= lost <= old(lost) + 1
      ensures ok <==> lost == old(lost) && name in old(accounts) && old(accounts)[name].id == id
    {
      var answered := Send();
      ok := false;
      if n :| n in accounts && accounts[n].id == id {
        ok := answered;
        var applied: bool := *;
        if answered || applied {
          accounts := accounts[n := Account(id, password)];
        }
      }
    }

    /** Fails for a name that is taken or blank. */
    method Add(username: string, password: string) returns (ok: bool)
      requires Valid()
      modifies this
      ensures Valid()
      ensures ok ==> username !in old(accounts)
      ensures accounts == old(accounts) ==> !ok
      ensures accounts != old(accounts) ==>
                && username in accounts
                && accounts == old(accounts)[username := Account(accounts[username].id, password)]
      ensures old(lost) <= lost <= old(lost) + 1
      ensures ok <==> lost == old(lost) && username !in old(accounts) && username != ""
    {
      var answered := Send();
      ok := false;
      if username !in accounts && username != "" {
        ok := answered;
        var applied: bool := *;
        if answered || applied {
          accounts := accounts[username := Account(Id(nextId), password)];
          nextId := nextId + 1;
        }
      }
    }
  }

  // The maps

  /** The passwords of a list of users; a later entry for the same name wins. */
  function PasswordsOf(users: seq<User>): map<string, string> {
    if users == [] then map[]
    else
      var last := users[|users| - 1];
      PasswordsOf(users[..|users| - 1])[last.username := last.password]
  }

  /** A user as the provider sees it: id and name only when the server has it. */
  function Entry(accounts: Accounts, name: string, password: string): UserWithId {
    if name in accounts then UserWithId(accounts[name].id, name, password) else UserWithId(NoId, "", password)
  }

  function WithIds(passwords: map<string, string>, accounts: Accounts): map<string, UserWithId> {
    map n | n in passwords :: Entry(accounts, n, passwords[n])
  }

  ghost predicate Seen(csUserMap: map<string, UserWithId>, accounts: Accounts, passwords: map<string, string>) {
    && csUserMap.Keys == accounts.Keys + passwords.Keys
    && forall n :: n in csUserMap ==> csUserMap[n] == Entry(accounts, n, if n in passwords then passwords[n] else "")
  }

  lemma OneMoreSeen(csUserMap: map<string, UserWithId>, accounts: Accounts, passwords: map<string, string>, u: User)
    requires Seen(csUserMap, accounts, passwords)
    ensures Seen(csUserMap[u.username := Entry(accounts, u.username, u.password)], accounts,
              passwords[u.username := u.password])
  {
  }

  lemma OneMoreUser(users: seq<User>, i: nat)
    requires i < |users|
    ensures PasswordsOf(users[..i + 1]) == PasswordsOf(users[..i])[users[i].username := users[i].password]
  {
    assert users[..i + 1][..i] == users[..i];
  }

  /** Exactly the listed names have a password, and the last entry for a name gives it. */
  lemma {:induction false} LastEntryWins(users: seq<User>, n: string)
    ensures n in PasswordsOf(users) <==> exists i :: 0 <= i < |users| && users[i].username == n
    ensures n in PasswordsOf(users) ==>
              exists i :: 0 <= i < |users| && users[i] == User(n, PasswordsOf(users)[n]) &&
                forall j :: i < j < |users| ==> users[j].username != n
  {
    if users != [] {
      var last := |users| - 1;
      LastEntryWins(users[..last], n);
      if users[last].username != n && n in PasswordsOf(users) {
        var i :| 0 <= i < last && users[..last][i] == User(n, PasswordsOf(users)[n]) &&
          forall j :: i < j < last ==> users[..last][j].username != n;
        assert forall j :: i < j < last ==> users[..last][j] == users[j];
      }
    }
  }

  lemma {:induction false} ListedNames(users: seq<User>, i: nat)
    requires i < |users|
    ensures users[i].username in PasswordsOf(users)
  {
    if i < |users| - 1 {
      ListedNames(users[..|users| - 1], i);
    }
  }

  method HtPasswdUserListToStringMaps(server: UserServer, users: seq<User>) returns (r: Option<map<string, UserWithId>>)
    modifies server`lost
    ensures r.Some? ==> r.value == WithIds(PasswordsOf(users), server.accounts)
    ensures server.lost == old(server.lost) + if r.Some? then 0 else 1
  {
    var listed := server.List();
    if listed.None? {
      return None;
    }
    ghost var accounts := server.accounts;
    var csUserMap := map n | n in listed.value :: UserWithId(listed.value[n].id, n, "");
    for i := 0 to |users|
      invariant Seen(csUserMap, accounts, PasswordsOf(users[..i])) && server.lost == old(server.lost)
    {
      OneMoreUser(users, i);
      var name := users[i].username;
      var known := if name in csUserMap then csUserMap[name] else UserWithId(NoId, "", "");
      assert known.(password := users[i].password) == Entry(accounts, name, users[i].password);
      OneMoreSeen(csUserMap, accounts, PasswordsOf(users[..i]), users[i]);
      csUserMap := csUserMap[name := known.(password := users[i].password)];
    }
    assert users[..|users|] == users;
    r := KeepListed(users, csUserMap, accounts);
  }

  /** Removes the users that are not listed. */
  method KeepListed(users: seq<User>, csUserMap: map<string, UserWithId>, ghost accounts: Accounts)
    returns (r: Option<map<string, UserWithId>>)
    requires Seen(csUserMap, accounts, PasswordsOf(users))
    ensures r == Some(WithIds(PasswordsOf(users), accounts))
  {
    var finalUserMap: map<string, UserWithId> := map[];
    for i := 0 to |users|
      invariant finalUserMap.Keys == PasswordsOf(users[..i]).Keys
      invariant forall n :: n in finalUserMap ==>
                n in csUserMap && n in PasswordsOf(users) && finalUserMap[n] == csUserMap[n]
    {
      OneMoreUser(users, i);
      ListedNames(users, i);
      if users[i].username in csUserMap {
        finalUserMap := finalUserMap[users[i].username := csUserMap[users[i].username]];
      }
    }
    assert users[..|users|] == users;
    assert finalUserMap == WithIds(PasswordsOf(users), accounts);
    return Some(finalUserMap);
  }

  // The two passes

  /** The names the delete pass works on: those whose plan entry has no name on the server. */
  function Leaving(state: map<string, UserWithId>, plan: map<string, UserWithId>): set<string> {
    set n | n in state && (n !in plan || plan[n].username == "")
  }

  /** Ids read from a table of accounts belong to the accounts of the same name, or to none. */
  lemma IdsAreOfTheirNames(server: UserServer, accounts: Accounts, name: string, password: string, gone: set<string>)
    requires server.Valid() && server.accounts == accounts - gone
    requires name !in gone
    ensures forall m :: m in server.accounts && server.accounts[m].id == Entry(accounts, name, password).id ==>
              m == name
  {
    if name in accounts {
      assert server.accounts[name] == accounts[name];
    }
  }

  /** The leaving users outside `left` are deleted, and the server had them all. */
  ghost predicate Deleted(before: Accounts, accounts: Accounts, leaving: set<string>, left: set<string>,
                          removed: set<string>)
  {
    && removed == leaving - left
    && removed <= before.Keys && accounts == before - removed
  }

  lemma OneMoreDeleted(before: Accounts, accounts: Accounts, leaving: set<string>, left: set<string>,
                       removed: set<string>, user: string)
    requires Deleted(before, accounts, leaving, left, removed) && user in left
    ensures user !in leaving ==> Deleted(before, accounts, leaving, left - {user}, removed)
    ensures user in leaving && user in accounts ==>
              Deleted(before, accounts - {user}, leaving, left - {user}, removed + {user})
    ensures user !in removed && accounts - {user} == before - (removed + {user})
    ensures removed <= leaving && (user in leaving ==> removed + {user} <= leaving)
  {
  }

  /** Success deletes exactly the leaving users, all of whom the server had. An error leaves some of them
      deleted. */
  method DeleteUserFromState(server: UserServer, state: map<string, UserWithId>, plan: map<string, UserWithId>,
                             ghost passwords: map<string, string>)
    returns (removed: set<string>, ok: bool, ghost gone: set<string>)
    requires server.Valid() && state == WithIds(passwords, server.accounts)
    modifies server
    ensures server.Valid()
    ensures server.accounts == old(server.accounts) - gone && gone <= Leaving(state, plan)
    ensures ok ==> gone == removed && Deleted(old(server.accounts), server.accounts, Leaving(state, plan), {}, removed)
    ensures server.lost >= old(server.lost) && (ok ==> server.lost == old(server.lost))
    ensures server.lost == old(server.lost) ==> (ok <==> Leaving(state, plan) <= old(server.accounts).Keys)
  {
    removed := {};
    ghost var before, leaving := server.accounts, Leaving(state, plan);
    var left := state.Keys;
    while left != {}
      invariant server.Valid() && left <= state.Keys
      invariant Deleted(before, server.accounts, leaving, left, removed) && server.lost == old(server.lost)
      decreases |left|
    {
      var user :| user in left;
      OneMoreDeleted(before, server.accounts, leaving, left, removed, user);
      if user !in plan || plan[user].username == "" {
        IdsAreOfTheirNames(server, before, user, passwords[user], removed);
        ghost var accounts := server.accounts;
        ok := server.Delete(state[user].id, user);
        if !ok {
          gone := if server.accounts == accounts then removed else removed + {user};
          return;
        }
        removed := removed + {user};
      }
      left := left - {user};
    }
    return removed, true, removed;
  }

  /** The users the second pass sends: new ones, and those whose entry differs from the state's. */
  function Changing(state: map<string, UserWithId>, plan: map<string, UserWithId>, removed: set<string>): set<string> {
    set n | n in plan && n !in removed && (n !in state || plan[n] != state[n])
  }

  predicate SameAccount(a: Accounts, b: Accounts, n: string) {
    (n in a <==> n in b) && (n in a ==> a[n] == b[n])
  }

  /** Exactly the users in `names` have their planned password; the rest is as before. */
  ghost predicate Patched(before: Accounts, after: Accounts, plan: map<string, UserWithId>, names: set<string>) {
    forall n :: if n in names && n in plan then n in after && after[n].password == plan[n].password
                else SameAccount(before, after, n)
  }

  lemma OneMorePatched(before: Accounts, accounts: Accounts, plan: map<string, UserWithId>, changing: set<string>,
                       left: set<string>, user: string)
    requires Patched(before, accounts, plan, changing - left) && user in left && user in plan
    ensures SameAccount(before, accounts, user)
    ensures user !in changing ==> Patched(before, accounts, plan, changing - (left - {user}))
    ensures forall a: Account :: user in changing && a.password == plan[user].password ==>
              Patched(before, accounts[user := a], plan, changing - (left - {user}))
    ensures PartlyPatched(before, accounts, plan)
    ensures forall a: Account {:trigger accounts[user := a]} :: a.password == plan[user].password ==>
              PartlyPatched(before, accounts[user := a], plan)
  {
  }

  /** Every account is as before or has its planned password. */
  ghost predicate PartlyPatched(before: Accounts, after: Accounts, plan: map<string, UserWithId>) {
    forall n :: SameAccount(before, after, n) || (n in plan && n in after && after[n].password == plan[n].password)
  }

  /** The server takes these names: they are not taken or blank. */
  ghost predicate CanBeAdded(names: set<string>, accounts: Accounts) {
    forall n :: n in names ==> n !in accounts && n != ""
  }

  /** Sends every user whose entry is new or differs, in any order. Whatever happens, no user outside the plan is
      touched and every other is left alone or has its planned password. */
  method PatchOrAddUserInState(server: UserServer, state: map<string, UserWithId>, plan: map<string, UserWithId>,
                               removed: set<string>)
    returns (ok: bool)
    requires server.Valid()
    requires forall n :: n in state && n in plan && n !in removed ==>
              n in server.accounts && server.accounts[n].id == plan[n].id
    modifies server
    ensures server.Valid()
    ensures PartlyPatched(old(server.accounts), server.accounts, plan)
    ensures ok ==> Patched(old(server.accounts), server.accounts, plan, Changing(state, plan, removed))
    ensures server.lost >= old(server.lost) && (ok ==> server.lost == old(server.lost))
    ensures server.lost == old(server.lost) ==>
              (ok <==> CanBeAdded(plan.Keys - state.Keys - removed, old(server.accounts)))
  {
    ghost var before, changing := server.accounts, Changing(state, plan, removed);
    var left := plan.Keys;
    while left != {}
      invariant server.Valid() && left <= plan.Keys
      invariant Patched(before, server.accounts, plan, changing - left) && server.lost == old(server.lost)
      invariant forall n :: n in plan && n !in left && n !in state && n !in removed ==> n !in before && n != ""
      decreases |left|
    {
      var user :| user in left;
      OneMorePatched(before, server.accounts, plan, changing, left, user);
      left := left - {user};
      if user in state {
        if plan[user] != state[user] && user !in removed {
          ok := server.Update(plan[user].password, plan[user].id, user);
          if !ok {
            return;
          }
        }
      } else if user !in removed {
        ok := server.Add(user, plan[user].password);
        if !ok {
          return;
        }
      }
    }
    assert changing - left == changing;
    ok := true;
  }

  // The whole update

  /** What an update is for: users that left the plan are gone, planned users have their planned
      passwords, and everyone else is untouched. */
  function Target(before: map<string, string>, state: map<string, string>,
                  plan: map<string, string>): map<string, string>
  {
    (before - (state.Keys - plan.Keys)) + plan
  }

  /** The server agrees with the state about every user whose password the plan leaves as it is. */
  ghost predicate InSync(before: map<string, string>, state: map<string, string>, plan: map<string, string>) {
    forall n :: n in state && n in plan && state[n] == plan[n] ==> n in before && before[n] == plan[n]
  }

  lemma LeavingUsersLeftThePlan(before: Accounts, state: map<string, string>, plan: map<string, string>)
    requires "" !in before
    ensures var leaving := Leaving(WithIds(state, before), WithIds(plan, before));
            && (leaving <= before.Keys <==> state.Keys <= before.Keys)
            && (leaving <= before.Keys ==> leaving == state.Keys - plan.Keys)
  {
    var leaving := Leaving(WithIds(state, before), WithIds(plan, before));
    forall n | n in state ensures n !in before ==> n in leaving {
    }
  }

  /** The users added are those of the plan alone, whatever the delete pass removed. */
  lemma NewUsersAreThoseOfThePlan(before: Accounts, state: map<string, string>, plan: map<string, string>)
    requires state.Keys <= before.Keys
    ensures var removed := state.Keys - plan.Keys;
            CanBeAdded(WithIds(plan, before).Keys - WithIds(state, before).Keys - removed, before - removed) <==>
            CanBeAdded(plan.Keys - state.Keys, before)
  {
    var removed := state.Keys - plan.Keys;
    assert WithIds(plan, before).Keys == plan.Keys && WithIds(state, before).Keys == state.Keys;
    assert plan.Keys - state.Keys - removed == plan.Keys - state.Keys;
    assert forall n :: n in plan.Keys - state.Keys ==> (n in before - removed <==> n in before);
  }

  /** A user of both state and plan is still there, under the id read before. */
  lemma KeptUsersHaveTheirIds(before: Accounts, state: map<string, string>, plan: map<string, string>)
    requires state.Keys <= before.Keys
    ensures var (stateMap, planMap, removed) := (WithIds(state, before), WithIds(plan, before), state.Keys - plan.Keys);
            forall n :: n in stateMap && n in planMap && n !in removed ==>
              n in before - removed && (before - removed)[n].id == planMap[n].id
  {
  }

  /** One user after a successful update: where it differs from the target. */
  lemma UserAfterUpdate(before: Accounts, kept: Accounts, after: Accounts, state: map<string, string>,
                        plan: map<string, string>, n: string)
    requires state.Keys <= before.Keys && kept == before - (state.Keys - plan.Keys)
    requires Patched(kept, after, WithIds(plan, before),
              Changing(WithIds(state, before), WithIds(plan, before), state.Keys - plan.Keys))
    ensures n in after <==> n in Target(Passwords(before), state, plan)
    ensures n in after && after[n].password != Target(Passwords(before), state, plan)[n]
       <==> n in state && n in plan && state[n] == plan[n] && before[n].password != plan[n]
  {
    var planMap := WithIds(plan, before);
    var changing := Changing(WithIds(state, before), planMap, state.Keys - plan.Keys);
    assert n in changing <==> n in plan && (n !in state || plan[n] != state[n]);
    assert if n in changing && n in planMap then n in after && after[n].password == planMap[n].password
           else SameAccount(kept, after, n);
  }

  lemma SameMapsIff(m: map<string, string>, m': map<string, string>, differing: set<string>)
    requires forall n :: n in m <==> n in m'
    requires forall n :: n in differing <==> n in m && n in m' && m[n] != m'[n]
    ensures m == m' <==> differing == {}
  {
    if differing == {} {
      assert forall n :: n in m ==> n !in differing;
    }
  }

  lemma UpdateReachesTargetIff(before: Accounts, kept: Accounts, after: Accounts, state: map<string, string>,
                               plan: map<string, string>)
    requires state.Keys <= before.Keys && kept == before - (state.Keys - plan.Keys)
    requires Patched(kept, after, WithIds(plan, before),
              Changing(WithIds(state, before), WithIds(plan, before), state.Keys - plan.Keys))
    ensures Passwords(after) == Target(Passwords(before), state, plan) <==> InSync(Passwords(before), state, plan)
  {
    var (reached, target) := (Passwords(after), Target(Passwords(before), state, plan));
    var drifted := set n | n in state && n in plan && state[n] == plan[n] && before[n].password != plan[n];
    forall n
      ensures n in reached <==> n in target
      ensures n in drifted <==> n in reached && n in target && reached[n] != target[n]
    {
      UserAfterUpdate(before, kept, after, state, plan, n);
    }
    SameMapsIff(reached, target, drifted);
  }

  /** What any update, finished or not, may do to one user: nothing, give it its planned password, or remove it
      when only the state had it. */
  predicate OnlyAsPlanned(before: Accounts, after: Accounts, state: map<string, string>, plan: map<string, string>,
                          n: string)
  {
    || SameAccount(before, after, n)
    || (n in plan && n in after && after[n].password == plan[n])
    || (n in state && n !in plan && n !in after)
  }

  ghost predicate AllAsPlanned(before: Accounts, after: Accounts, state: map<string, string>,
                               plan: map<string, string>)
  {
    forall n :: OnlyAsPlanned(before, after, state, plan, n)
  }

  lemma DeletingIsAsPlanned(before: Accounts, gone: set<string>, state: map<string, string>, plan: map<string, string>)
    requires "" !in before && gone <= Leaving(WithIds(state, before), WithIds(plan, before))
    ensures AllAsPlanned(before, before - gone, state, plan)
  {
    forall n ensures OnlyAsPlanned(before, before - gone, state, plan, n) {
      assert n in gone && n in before ==> n !in plan;
    }
  }

  lemma PatchingIsAsPlanned(before: Accounts, kept: Accounts, after: Accounts,
                            state: map<string, string>, plan: map<string, string>)
    requires AllAsPlanned(before, kept, state, plan) && PartlyPatched(kept, after, WithIds(plan, before))
    ensures AllAsPlanned(before, after, state, plan)
  {
    forall n ensures OnlyAsPlanned(before, after, state, plan, n) {
      assert OnlyAsPlanned(before, kept, state, plan, n);
      assert SameAccount(kept, after, n) || (n in plan && n in after && after[n].password == plan[n]);
    }
  }

  /** What an update needs of the server besides answers: it has every user of the state, and none of the new ones,
      which are not blank. */
  ghost predicate Acceptable(before: Accounts, state: map<string, string>, plan: map<string, string>) {
    state.Keys <= before.Keys && CanBeAdded(plan.Keys - state.Keys, before)
  }

  /** The delete pass and then, if it succeeds, the patch pass. */
  method DeleteAndPatch(server: UserServer, stateUserMap: map<string, UserWithId>, planUserMap: map<string, UserWithId>,
                        ghost state: map<string, string>, ghost plan: map<string, string>)
    returns (ok: bool)
    requires server.Valid()
    requires stateUserMap == WithIds(state, server.accounts) && planUserMap == WithIds(plan, server.accounts)
    modifies server
    ensures server.Valid()
    ensures server.lost >= old(server.lost) && (ok ==> server.lost == old(server.lost))
    ensures server.lost == old(server.lost) ==> (ok <==> Acceptable(old(server.accounts), state, plan))
    ensures AllAsPlanned(old(server.accounts), server.accounts, state, plan)
    ensures ok ==>
              var before := Passwords(old(server.accounts));
              && state.Keys <= before.Keys
              && (Passwords(server.accounts) == Target(before, state, plan) <==> InSync(before, state, plan))
  {
    ghost var before := server.accounts;
    var removed;
    ghost var gone;
    removed, ok, gone := DeleteUserFromState(server, stateUserMap, planUserMap, state);
    ghost var kept := server.accounts;
    DeletingIsAsPlanned(before, gone, state, plan);
    LeavingUsersLeftThePlan(before, state, plan);
    if !ok {
      return;
    }
    assert removed == state.Keys - plan.Keys && kept == before - removed;
    NewUsersAreThoseOfThePlan(before, state, plan);
    KeptUsersHaveTheirIds(before, state, plan);
    ok := PatchOrAddUserInState(server, stateUserMap, planUserMap, removed);
    PatchingIsAsPlanned(before, kept, server.accounts, state, plan);
    if ok {
      UpdateReachesTargetIff(before, kept, server.accounts, state, plan);
    }
  }

  /** With every request answered, an update that has anything to do succeeds exactly when it is acceptable, and it
      fails whenever an answer is lost. Success brings the server's users to the target exactly when the server was
      in sync with the state before; a success that sent anything also means the server had every user of the
      state. On every exit each user is as before, has its planned password, or is gone because only the state had
      it: users outside state and plan are untouched, and no planned user is ever lost. */
  method UpdateHTPasswd(server: UserServer, stateUsers: seq<User>, planUsers: seq<User>) returns (ok: bool)
    requires server.Valid()
    modifies server
    ensures server.Valid()
    ensures server.lost >= old(server.lost) && (ok ==> server.lost == old(server.lost))
    ensures server.lost == old(server.lost) ==>
              (ok <==> stateUsers == planUsers ||
                       Acceptable(old(server.accounts), PasswordsOf(stateUsers), PasswordsOf(planUsers)))
    ensures var (before, state, plan) := (Passwords(old(server.accounts)), PasswordsOf(stateUsers),
              PasswordsOf(planUsers));
            ok ==>
              && (Passwords(server.accounts) == Target(before, state, plan) <==> InSync(before, state, plan))
              && (stateUsers != planUsers ==> state.Keys <= before.Keys)
    ensures AllAsPlanned(old(server.accounts), server.accounts, PasswordsOf(stateUsers), PasswordsOf(planUsers))
    ensures forall n :: n !in PasswordsOf(stateUsers) && n !in PasswordsOf(planUsers) ==>
              SameAccount(old(server.accounts), server.accounts, n)
    ensures forall n :: n in PasswordsOf(planUsers) && n in old(server.accounts) ==> n in server.accounts
  {
    ghost var before, state, plan := server.accounts, PasswordsOf(stateUsers), PasswordsOf(planUsers);
    if stateUsers == planUsers {
      NothingToDoIff(before, plan);
      return true;
    }
    var stateUserMap := HtPasswdUserListToStringMaps(server, stateUsers);
    if stateUserMap.None? {
      return false;
    }
    var planUserMap := HtPasswdUserListToStringMaps(server, planUsers);
    if planUserMap.None? {
      return false;
    }
    ok := DeleteAndPatch(server, stateUserMap.value, planUserMap.value, state, plan);
    forall n
      ensures n !in state && n !in plan ==> SameAccount(before, server.accounts, n)
      ensures n in plan && n in before ==> n in server.accounts
    {
      assert OnlyAsPlanned(before, server.accounts, state, plan, n);
    }
  }

  lemma NothingToDoIff(before: Accounts, plan: map<string, string>)
    ensures Passwords(before) == Target(Passwords(before), plan, plan) <==> InSync(Passwords(before), plan, plan)
  {
  }

  // Runs of updates: each plan is the state of the next

  function AfterUpdates(before: map<string, string>, plans: seq<map<string, string>>): map<string, string>
    decreases |plans|
  {
    if |plans| < 2 then before else AfterUpdates(Target(before, plans[0], plans[1]), plans[1..])
  }

  ghost predicate InSyncThroughout(before: map<string, string>, plans: seq<map<string, string>>)
    decreases |plans|
  {
    || |plans| < 2
    || (InSync(before, plans[0], plans[1]) && InSyncThroughout(Target(before, plans[0], plans[1]), plans[1..]))
  }

  predicate Mentioned(plans: seq<map<string, string>>, n: string) {
    exists i :: 0 <= i < |plans| && n in plans[i]
  }

  /** When the server holds the first plan, it stays in sync through any run of updates without
      interference: in the end it holds the last plan, users of earlier plans that the last one lacks are
      gone, and users that no plan mentions are as they were. */
  lemma {:induction false} RunsReachTheLastPlan(before: map<string, string>, plans: seq<map<string, string>>, n: string)
    requires plans != [] && forall m :: m in plans[0] ==> m in before && before[m] == plans[0][m]
    ensures InSyncThroughout(before, plans)
    ensures var (after, last) := (AfterUpdates(before, plans), plans[|plans| - 1]);
            if n in last then n in after && after[n] == last[n]
            else if Mentioned(plans, n) then n !in after
            else (n in after <==> n in before) && (n in after ==> after[n] == before[n])
    decreases |plans|
  {
    if |plans| >= 2 {
      RunsReachTheLastPlan(Target(before, plans[0], plans[1]), plans[1..], n);
      assert plans == [plans[0]] + plans[1..];
      assert Mentioned(plans, n) <==> n in plans[0] || Mentioned(plans[1..], n) by {
        if i :| 0 <= i < |plans| && n in plans[i] {
          assert i > 0 ==> plans[1..][i - 1] == plans[i];
        }
      }
      assert n in plans[1] ==> Mentioned(plans[1..], n) by { assert plans[1..][0] == plans[1]; }
    }
  }
}
