/** Lists that the server hands out in pages. */
module Paging {
  const PAGE_SIZE := 100

  function PageOf<T>(items: seq<T>, page: nat): seq<T>
    requires page >= 1
  {
    var from := if (page - 1) * PAGE_SIZE <= |items| then (page - 1) * PAGE_SIZE else |items|;
    var to := if page * PAGE_SIZE <= |items| then page * PAGE_SIZE else |items|;
    items[from..to]
  }

  /** The next page continues the pages before it, and a short one is the last. */
  lemma PageContinues<T>(items: seq<T>, page: nat)
    requires page >= 1 && (page - 1) * PAGE_SIZE <= |items|
    ensures var next := PageOf(items, page);
            if |next| < PAGE_SIZE then items[..(page - 1) * PAGE_SIZE] + next == items
            else page * PAGE_SIZE <= |items| && items[..(page - 1) * PAGE_SIZE] + next == items[..page * PAGE_SIZE]
  {
  }

  /** Removing an item from a list moves those behind it up by one. */
  function Removed<T>(items: seq<T>, k: nat): seq<T>
    requires k < |items|
  {
    items[..k] + items[k + 1..]
  }

  /** A list is read page by page and one of its items vanishes once `n` items have been read. What is left is
      still seen whole, on the pages read before and the pages yet to come, exactly when the item that
      vanished was on none of the pages already read. */
  lemma RemovalBetweenPagesIsSeenIff<T>(items: seq<T>, page: nat, k: nat)
    requires page >= 1 && page * PAGE_SIZE < |items| && k < |items|
    requires forall i, j :: 0 <= i < j < |items| ==> items[i] != items[j]
    ensures var (n, after) := (page * PAGE_SIZE, Removed(items, k));
            (forall x :: x in after ==> x in items[..n] || x in after[n..]) <==> k >= n
  {
    var (n, after) := (page * PAGE_SIZE, Removed(items, k));
    if k >= n {
      forall x | x in after ensures x in items[..n] || x in after[n..] {
        var i :| 0 <= i < |after| && after[i] == x;
        assert if i < n then items[..n][i] == x else after[n..][i - n] == x;
      }
    } else {
      var lost := items[n];
      assert after[n - 1] == lost && lost in after;
      forall i | 0 <= i < |after| - n ensures after[n..][i] != lost {
        assert after[n..][i] == items[n + i + 1];
      }
      forall i | 0 <= i < n ensures items[..n][i] != lost {
        assert items[..n][i] == items[i];
      }
      assert lost !in items[..n] && lost !in after[n..];
    }
  }
}
