/** Python's stable `sorted(candidates, key=itemgetter('bidask'), reverse=...)` over a list of
    records taken from `transactions` in list order. Records are named by their position in
    `transactions`; because the input is in increasing position order and the sort is stable,
    records with equal prices stay in increasing position order. */
module Sorting {
  import opened Orders

  /** Every position names a record of ts. */
  predicate InRange(ts: seq<Order>, s: seq<nat>)
  {
    forall k :: 0 <= k < |s| ==> s[k] < |ts|
  }

  predicate Distinct(s: seq<nat>)
  {
    forall a, b :: 0 <= a < b < |s| ==> s[a] != s[b]
  }

  /** Record i comes before record j in the sorted list: a better price (higher when `desc`,
      as with `reverse=True`, lower otherwise), or the same price and an earlier position. */
  predicate Precedes(ts: seq<Order>, i: nat, j: nat, desc: bool)
    requires i < |ts| && j < |ts|
  {
    (if desc then ts[i].price > ts[j].price else ts[i].price < ts[j].price)
    || (ts[i].price == ts[j].price && i < j)
  }

  predicate Sorted(ts: seq<Order>, s: seq<nat>, desc: bool)
    requires InRange(ts, s)
  {
    forall a, b :: 0 <= a < b < |s| ==> Precedes(ts, s[a], s[b], desc)
  }

  /** Inserts position x into the sorted list s in front of the first element it precedes. */
  function Insert(ts: seq<Order>, s: seq<nat>, x: nat, desc: bool): (r: seq<nat>)
    requires InRange(ts, s) && x < |ts|
    ensures |r| == |s| + 1
    ensures InRange(ts, r)
    ensures multiset(r) == multiset(s) + multiset{x}
  {
    if s == [] then [x]
    else if Precedes(ts, x, s[0], desc) then [x] + s
    else
      assert s == [s[0]] + s[1..];
      [s[0]] + Insert(ts, s[1..], x, desc)
  }

  /** Any two different positions are ordered one way or the other. */
  lemma PrecedesTotal(ts: seq<Order>, i: nat, j: nat, desc: bool)
    requires i < |ts| && j < |ts| && i != j
    ensures Precedes(ts, i, j, desc) || Precedes(ts, j, i, desc)
  {
  }

  lemma PrecedesTransitive(ts: seq<Order>, i: nat, j: nat, k: nat, desc: bool)
    requires i < |ts| && j < |ts| && k < |ts|
    requires Precedes(ts, i, j, desc) && Precedes(ts, j, k, desc)
    ensures Precedes(ts, i, k, desc)
  {
  }

  /** A sorted list stays sorted under a head that precedes all of it. */
  lemma SortedCons(ts: seq<Order>, h: nat, t: seq<nat>, desc: bool)
    requires h < |ts| && InRange(ts, t) && Sorted(ts, t, desc)
    requires forall b :: 0 <= b < |t| ==> Precedes(ts, h, t[b], desc)
    ensures InRange(ts, [h] + t) && Sorted(ts, [h] + t, desc)
  {
    var r := [h] + t;
    forall a, b | 0 <= a < b < |r| ensures Precedes(ts, r[a], r[b], desc) {
      assert r[b] == t[b - 1];
      if a > 0 {
        assert r[a] == t[a - 1];
      }
    }
  }

  /** Inserting a new position into a sorted list keeps it sorted. */
  lemma {:induction false} InsertSorted(ts: seq<Order>, s: seq<nat>, x: nat, desc: bool)
    requires InRange(ts, s) && x < |ts|
    requires Sorted(ts, s, desc) && x !in s
    ensures Sorted(ts, Insert(ts, s, x, desc), desc)
  {
    if s == [] {
    } else if Precedes(ts, x, s[0], desc) {
      forall b | 0 <= b < |s| ensures Precedes(ts, x, s[b], desc) {
        if b > 0 {
          PrecedesTransitive(ts, x, s[0], s[b], desc);
        }
      }
      SortedCons(ts, x, s, desc);
    } else {
      var tail := s[1..];
      var rest := Insert(ts, tail, x, desc);
      assert s == [s[0]] + tail;
      InsertSorted(ts, tail, x, desc);
      PrecedesTotal(ts, x, s[0], desc);
      forall b | 0 <= b < |rest| ensures Precedes(ts, s[0], rest[b], desc) {
        assert rest[b] in multiset(rest);
        if rest[b] != x {
          assert rest[b] in multiset(tail);
          var m :| 0 <= m < |tail| && tail[m] == rest[b];
          assert tail[m] == s[m + 1];
        }
      }
      SortedCons(ts, s[0], rest, desc);
    }
  }

  /** `sorted(...)`: insertion sort under Precedes. */
  function Sort(ts: seq<Order>, cs: seq<nat>, desc: bool): (r: seq<nat>)
    requires InRange(ts, cs)
    ensures |r| == |cs|
    ensures InRange(ts, r)
    ensures multiset(r) == multiset(cs)
  {
    if cs == [] then []
    else
      assert cs == [cs[0]] + cs[1..];
      Insert(ts, Sort(ts, cs[1..], desc), cs[0], desc)
  }

  /** Sorting a list of distinct positions yields a sorted list. */
  lemma {:induction false} SortSorted(ts: seq<Order>, cs: seq<nat>, desc: bool)
    requires InRange(ts, cs) && Distinct(cs)
    ensures Sorted(ts, Sort(ts, cs, desc), desc)
  {
    if cs != [] {
      var rest := Sort(ts, cs[1..], desc);
      SortSorted(ts, cs[1..], desc);
      assert cs == [cs[0]] + cs[1..];
      assert forall m :: 0 <= m < |cs[1..]| ==> cs[1..][m] == cs[m + 1] != cs[0];
      assert cs[0] !in multiset(cs[1..]);
      InsertSorted(ts, rest, cs[0], desc);
    }
  }

  /** A sorted list contains no position twice. */
  lemma SortedIsDistinct(ts: seq<Order>, s: seq<nat>, desc: bool)
    requires InRange(ts, s) && Sorted(ts, s, desc)
    ensures Distinct(s)
  {
  }

  /** Two sorted arrangements of the same positions start with the same position. */
  lemma SortedSameHead(ts: seq<Order>, s: seq<nat>, t: seq<nat>, desc: bool)
    requires InRange(ts, s) && InRange(ts, t)
    requires Sorted(ts, s, desc) && Sorted(ts, t, desc)
    requires multiset(s) == multiset(t) && s != []
    ensures t != [] && s[0] == t[0]
  {
    assert s[0] in multiset(t);
    var i :| 0 <= i < |t| && t[i] == s[0];
    assert t[0] in multiset(s);
    var j :| 0 <= j < |s| && s[j] == t[0];
  }

  lemma TailMultiset(s: seq<nat>)
    requires s != []
    ensures multiset(s[1..]) == multiset(s) - multiset{s[0]}
  {
    assert s == [s[0]] + s[1..];
  }

  /** There is only one sorted arrangement of a set of positions: whatever order a stable sort
      produces, it is the list Sort returns. */
  lemma {:induction false} SortedUnique(ts: seq<Order>, s: seq<nat>, t: seq<nat>, desc: bool)
    requires InRange(ts, s) && InRange(ts, t)
    requires Sorted(ts, s, desc) && Sorted(ts, t, desc)
    requires multiset(s) == multiset(t)
    ensures s == t
  {
    if s == [] {
      assert |t| == |multiset(t)| == 0;
    } else {
      SortedSameHead(ts, s, t, desc);
      TailMultiset(s);
      TailMultiset(t);
      assert Sorted(ts, s[1..], desc) && Sorted(ts, t[1..], desc);
      SortedUnique(ts, s[1..], t[1..], desc);
      assert s == [s[0]] + s[1..] && t == [t[0]] + t[1..];
    }
  }
}
