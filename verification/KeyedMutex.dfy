/** The keyed mutex: one mutex per key, made on first use. */
module KeyedMutex {
  // Mutexes are told apart by the order in which they were made.
  type MutexId = nat

  /** The mutex for a key: the one in the store, or the next to be made. */
  function MutexFor(store: map<string, MutexId>, next: MutexId, key: string): MutexId {
    if key in store then store[key] else next
  }

  function NextAfter(store: map<string, MutexId>, next: MutexId, key: string): MutexId {
    if key in store then next else next + 1
  }

  /** Different keys have different mutexes, all of them made. */
  ghost predicate OneMutexPerKey(store: map<string, MutexId>, next: MutexId) {
    && (forall k :: k in store ==> store[k] < next)
    && (forall k, l :: k in store && l in store && store[k] == store[l] ==> k == l)
  }

  class Mutex {
    const id: MutexId

    constructor (id: MutexId)
      ensures this.id == id
    {
      this.id := id;
    }
  }

  class MutexKV {
    var store: map<string, Mutex>
    var made: MutexId

    /** The store by the ids of its mutexes. */
    function Ids(): map<string, MutexId>
      reads this
    {
      map k | k in store :: store[k].id
    }

    ghost predicate Valid()
      reads this
    {
      OneMutexPerKey(Ids(), made)
    }

    constructor ()
      ensures Valid() && store == map[] && made == 0
    {
      store, made := map[], 0;
    }

    /** The mutex of a key, always the same one from its first use on. */
    method Get(key: string) returns (mutex: Mutex)
      requires Valid()
      modifies this
      ensures Valid()
      ensures store == old(store)[key := mutex]
      ensures if key in old(store) then mutex == old(store)[key] else fresh(mutex)
      ensures mutex.id == old(MutexFor(Ids(), made, key)) && made == old(NextAfter(Ids(), made, key))
      ensures Ids() == old(Ids()[key := MutexFor(Ids(), made, key)])
    {
      if key in store {
        mutex := store[key];
        assert store == store[key := mutex];
      } else {
        mutex := new Mutex(made);
        store := store[key := mutex];
        made := made + 1;
      }
      assert Ids() == old(Ids()[key := MutexFor(Ids(), made, key)]);
    }
  }
}
