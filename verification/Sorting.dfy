/** `sort.Slice`, known only by its result: some sorted rearrangement of distinct items. */
module Sorting {

  ghost predicate NoDup<T>(s: seq<T>) {
    forall i, j :: 0 <= i < j < |s| ==> s[i] != s[j]
  }

  ghost predicate Sorted<T>(s: seq<T>, rank: map<T, int>)
    requires forall x <- s :: x in rank
  {
    forall i, j :: 0 <= i < j < |s| ==> rank[s[i]] <= rank[s[j]]
  }

  /** `r` holds exactly the items of `s`, each once. */
  ghost predicate Rearranged<T>(r: seq<T>, s: seq<T>) {
    |r| == |s| && NoDup(r) && (forall x <- r :: x in s) && forall x <- s :: x in r
  }

  /** Cut anywhere, a sorted sequence has its lower ranks before the cut. */
  lemma SortedHalves<T>(s: seq<T>, rank: map<T, int>, half: nat)
    requires half <= |s| && (forall x <- s :: x in rank) && Sorted(s, rank)
    ensures s[..half] + s[half..] == s
    ensures forall x, y :: x in s[..half] && y in s[half..] ==> rank[x] <= rank[y]
  {}

  lemma InsertAt<T>(s: seq<T>, k: nat, x: T)
    requires k <= |s| && NoDup(s) && x !in s
    ensures NoDup(s[..k] + [x] + s[k..])
    ensures forall y <- s[..k] + [x] + s[k..] :: y == x || y in s
    ensures x in s[..k] + [x] + s[k..] && forall y <- s :: y in s[..k] + [x] + s[k..]
  {
    var r := s[..k] + [x] + s[k..];
    assert forall i :: 0 <= i < |r| ==> r[i] == if i < k then s[i] else if i == k then x else s[i - 1];
    forall y | y in s
      ensures y in r
    {
      var i :| 0 <= i < |s| && s[i] == y;
      assert r[if i < k then i else i + 1] == y;
    }
    assert r[k] == x;
  }

  /** Putting the next item anywhere rearranges the longer front. */
  lemma InsertRearranged<T>(s: seq<T>, n: nat, r: seq<T>, k: nat)
    requires NoDup(s) && n < |s| && Rearranged(r, s[..n]) && k <= |r|
    ensures Rearranged(r[..k] + [s[n]] + r[k..], s[..n + 1])
  {
    var x := s[n];
    assert s[..n + 1] == s[..n] + [x];
    assert x !in s[..n];
    InsertAt(r, k, x);
    hide NoDup;
  }

  predicate Ranked<T>(s: seq<T>, rank: map<T, int>) {
    forall x <- s :: x in rank
  }

  /** Putting it behind everything not above it keeps the order. */
  lemma InsertSorted<T>(r: seq<T>, k: nat, x: T, rank: map<T, int>)
    requires k <= |r| && x in rank && Ranked(r, rank) && Sorted(r, rank)
    requires forall i :: k <= i < |r| ==> rank[r[i]] > rank[x]
    requires k > 0 ==> rank[r[k - 1]] <= rank[x]
    ensures Ranked(r[..k] + [x] + r[k..], rank) && Sorted(r[..k] + [x] + r[k..], rank)
  {
    var t := r[..k] + [x] + r[k..];
    assert forall i :: 0 <= i < |t| ==> t[i] == if i < k then r[i] else if i == k then x else r[i - 1];
    assert forall i :: 0 <= i < |r| ==> r[i] in rank;
    assert forall i :: 0 <= i < |t| ==> t[i] in rank;
    forall i, j | 0 <= i < j < |t|
      ensures rank[t[i]] <= rank[t[j]]
    {
      if i < k {
        assert rank[r[i]] <= rank[r[k - 1]];
      }
    }
  }

  /** Sort distinct items by rank, ties in any order. */
  method SortBy<T(==)>(s: seq<T>, rank: map<T, int>) returns (r: seq<T>)
    requires NoDup(s) && forall x <- s :: x in rank
    ensures Rearranged(r, s) && (forall x <- r :: x in rank) && Sorted(r, rank)
  {
    hide NoDup, Rearranged, Sorted;
    r := [];
    StartSort(s, rank);
    for n := 0 to |s|
      invariant |r| == n && Ranked(r, rank) && Rearranged(r, s[..n]) && Sorted(r, rank)
    {
      var x := s[n];
      assert x in s;
      var k := n;
      while k > 0 && rank[r[k - 1]] > rank[x]
        invariant 0 <= k <= n
        invariant forall i :: k <= i < n ==> rank[r[i]] > rank[x]
      {
        k := k - 1;
      }
      InsertRearranged(s, n, r, k);
      InsertSorted(r, k, x, rank);
      r := r[..k] + [x] + r[k..];
    }
    assert s[..|s|] == s;
  }

  lemma SameLength<T>(r: seq<T>, s: seq<T>)
    requires Rearranged(r, s)
    ensures |r| == |s|
  {}

  lemma StartSort<T>(s: seq<T>, rank: map<T, int>)
    ensures Rearranged([], s[..0]) && Ranked([], rank) && Sorted([], rank)
  {}

  // ---- rank in a finite set with distinct ranks ----

  ghost function Items<T>(s: seq<T>): set<T> {
    set x | x in s
  }

  lemma {:induction false} ItemsCount<T>(s: seq<T>)
    requires NoDup(s)
    ensures |Items(s)| == |s|
  {
    if s != [] {
      var init, last := s[..|s| - 1], s[|s| - 1];
      ItemsCount(init);
      assert Items(s) == Items(init) + {last};
    } else {
      assert Items(s) == {};
    }
  }

  ghost predicate Injective<T>(rank: map<T, int>) {
    forall x, y :: x in rank && y in rank && x != y ==> rank[x] != rank[y]
  }

  ghost function Below<T>(rank: map<T, int>, x: T): set<T>
    requires x in rank
  {
    set y | y in rank && rank[y] < rank[x]
  }

  /** The k items of lowest rank. */
  ghost function Lowest<T>(rank: map<T, int>, k: int): set<T> {
    set x | x in rank && |Below(rank, x)| < k
  }

  /** A sorted listing of all the ranked items. */
  ghost predicate Listing<T>(ids: seq<T>, rank: map<T, int>) {
    NoDup(ids) && Items(ids) == rank.Keys && (forall x <- ids :: x in rank) && Sorted(ids, rank)
  }

  lemma MaxExists<T>(rank: map<T, int>) returns (x: T)
    requires rank != map[]
    ensures x in rank && forall y <- rank :: rank[y] <= rank[x]
    decreases |rank|
  {
    x :| x in rank;
    if y :| y in rank && rank[y] > rank[x] {
      var rest := rank - {x};
      assert y in rest;
      x := MaxExists(rest);
      assert rank[y] <= rank[x];
      forall z | z in rank
        ensures rank[z] <= rank[x]
      {
        assert z in rest || rank[z] < rank[y];
      }
    }
  }

  /** Every finite ranking has a listing. */
  lemma {:induction false} ListingExists<T>(rank: map<T, int>) returns (ids: seq<T>)
    ensures Listing(ids, rank)
    decreases |rank|
  {
    if rank == map[] {
      ids := [];
      assert Items(ids) == {};
    } else {
      var last := MaxExists(rank);
      var init := ListingExists(rank - {last});
      ids := init + [last];
      ListingSnoc(init, last, rank);
    }
  }

  lemma ListingSnoc<T>(init: seq<T>, last: T, rank: map<T, int>)
    requires last in rank && Listing(init, rank - {last}) && forall y <- rank :: rank[y] <= rank[last]
    ensures Listing(init + [last], rank)
  {
    var ids, rest := init + [last], rank - {last};
    assert forall x <- init :: x in Items(init);
    assert Items(ids) == Items(init) + {last};
    forall i | 0 <= i < |ids|
      ensures ids[i] in rank
    {
      assert i < |init| ==> ids[i] == init[i] && init[i] in init;
    }
    forall i, j | 0 <= i < j < |ids|
      ensures rank[ids[i]] <= rank[ids[j]] && ids[i] != ids[j]
    {
      assert ids[i] == init[i] && init[i] in init;
      if j < |init| {
        assert ids[j] == init[j] && rest[init[i]] <= rest[init[j]];
      }
    }
  }

  lemma BelowAt<T>(ids: seq<T>, rank: map<T, int>, n: nat)
    requires Listing(ids, rank) && Injective(rank) && n < |ids|
    ensures Below(rank, ids[n]) == Items(ids[..n]) && |Below(rank, ids[n])| == n
  {
    forall x | x in Items(ids[..n])
      ensures x in Below(rank, ids[n])
    {
      var l :| 0 <= l < n && ids[l] == x;
      assert rank[ids[l]] <= rank[ids[n]];
    }
    forall x | x in Below(rank, ids[n])
      ensures x in Items(ids[..n])
    {
      assert x in Items(ids);
      var l :| 0 <= l < |ids| && ids[l] == x;
      assert l < n;
      assert ids[..n][l] == x;
    }
    ItemsCount(ids[..n]);
  }

  /** The k lowest are the first k of any listing. */
  lemma LowestIs<T>(ids: seq<T>, rank: map<T, int>, k: nat)
    requires Listing(ids, rank) && Injective(rank) && k <= |ids|
    ensures Lowest(rank, k) == Items(ids[..k])
  {
    forall x | x in rank
      ensures x in Lowest(rank, k) <==> x in Items(ids[..k])
    {
      assert x in Items(ids);
      var n :| 0 <= n < |ids| && ids[n] == x;
      BelowAt(ids, rank, n);
      hide Below;
      assert n < k ==> ids[..k][n] == x;
      assert n >= k ==> x !in ids[..k];
    }
  }

  /** There are k of them, and all the others rank higher. */
  lemma LowestSplits<T>(rank: map<T, int>, k: nat)
    requires Injective(rank) && k <= |rank|
    ensures |Lowest(rank, k)| == k && Lowest(rank, k) <= rank.Keys
    ensures forall x, y :: x in Lowest(rank, k) && y in rank && y !in Lowest(rank, k) ==> rank[x] < rank[y]
  {
    var ids := ListingExists(rank);
    ItemsCount(ids);
    assert |rank.Keys| == |rank|;
    LowestIs(ids, rank, k);
    ItemsCount(ids[..k]);
    forall x, y | x in Lowest(rank, k) && y in rank && y !in Lowest(rank, k)
      ensures rank[x] < rank[y]
    {
      assert x in Items(ids[..k]) && y in Items(ids) && y !in Items(ids[..k]);
      hide Lowest;
      var l :| 0 <= l < k && ids[l] == x;
      var n :| 0 <= n < |ids| && ids[n] == y;
      assert l < n;
    }
  }
}
