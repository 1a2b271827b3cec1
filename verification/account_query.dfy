/**
 The store query a worker refills its buffer with: the accounts of one
 instance whose last check is at or before a threshold, ordered by last check
 descending. The store itself is a plain sequence of accounts.
 */
module AccountQuery {
  import opened Entities

  /** An account of `instance` that is due for a check at `threshold`. */
  predicate IsDue(a: Account, instance: string, threshold: int)
  {
    a.instance == instance && a.lastCheck <= threshold
  }

  /** Newest check first, oldest check last. */
  predicate SortedDesc(s: seq<Account>)
  {
    forall i, j :: 0 <= i < j < |s| ==> s[i].lastCheck >= s[j].lastCheck
  }

  /** Oldest check first. */
  predicate SortedAsc(s: seq<Account>)
  {
    forall i, j :: 0 <= i < j < |s| ==> s[i].lastCheck <= s[j].lastCheck
  }

  /** The due accounts of the store, each with its multiplicity, in store order. */
  function Filter(store: seq<Account>, instance: string, threshold: int): (r: seq<Account>)
    ensures forall a :: a in r ==> IsDue(a, instance, threshold)
    ensures forall a :: multiset(r)[a] == if IsDue(a, instance, threshold) then multiset(store)[a] else 0
  {
    if store == [] then []
    else
      var rest := Filter(store[1..], instance, threshold);
      assert store == [store[0]] + store[1..];
      if IsDue(store[0], instance, threshold) then [store[0]] + rest else rest
  }

  /** An account checked no earlier than the head of a descending sequence can lead it. */
  lemma ConsSortedDesc(x: Account, s: seq<Account>)
    requires SortedDesc(s)
    requires |s| == 0 || x.lastCheck >= s[0].lastCheck
    ensures SortedDesc([x] + s)
  {
  }

  /** A non-empty sequence's multiset is its head plus its tail's. */
  lemma MultisetSplit(s: seq<Account>)
    requires |s| > 0
    ensures multiset(s) == multiset{s[0]} + multiset(s[1..])
  {
    assert s == [s[0]] + s[1..];
  }

  /** `a` inserted into a descending sequence before the first account it is
      not older than. */
  function InsertDesc(a: Account, s: seq<Account>): (r: seq<Account>)
    requires SortedDesc(s)
    ensures SortedDesc(r)
    ensures |r| == |s| + 1
    ensures r[0] == a || (|s| > 0 && r[0] == s[0])
    ensures multiset(r) == multiset(s) + multiset{a}
  {
    if s == [] || a.lastCheck >= s[0].lastCheck then
      ConsSortedDesc(a, s);
      [a] + s
    else
      var tail := s[1..];
      assert SortedDesc(tail);
      var rest := InsertDesc(a, tail);
      ConsSortedDesc(s[0], rest);
      MultisetSplit(s);
      [s[0]] + rest
  }

  /** The accounts reordered by last check, newest first. */
  function SortDesc(s: seq<Account>): (r: seq<Account>)
    ensures SortedDesc(r)
    ensures multiset(r) == multiset(s)
  {
    if s == [] then []
    else
      assert s == [s[0]] + s[1..];
      InsertDesc(s[0], SortDesc(s[1..]))
  }

  /** The refill query: due accounts of `instance`, newest check first. */
  function FindDue(store: seq<Account>, instance: string, threshold: int): (r: seq<Account>)
    ensures SortedDesc(r)
    ensures forall a :: a in r <==> a in store && IsDue(a, instance, threshold)
    ensures forall a :: multiset(r)[a] == if IsDue(a, instance, threshold) then multiset(store)[a] else 0
  {
    var due := Filter(store, instance, threshold);
    var r := SortDesc(due);
    assert forall a :: a in r <==> a in multiset(due);
    r
  }
}
