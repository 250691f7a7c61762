/**
 * The order in which the store lists contact messages and study sessions:
 * newest `createdAt` first.  The store reads its values out of a JavaScript
 * `Map` (insertion order, which is ascending key because keys are the ids a
 * counter handed out at creation) and sorts them with the stable
 * `Array.prototype.sort`, so records with equal timestamps keep ascending-key
 * order.  Here that order is a
 * strict total order on keys, `Precedes`, and sorting is done on keys.
 */
module TimeOrder {

  /** The keys 1, 2, ..., next - 1, in the order a counter starting at 1 handed them out. */
  function InsertionOrder(next: int): (ks: seq<int>)
    ensures |ks| == if next >= 1 then next - 1 else 0
    ensures forall i :: 0 <= i < |ks| ==> ks[i] == i + 1
    decreases next
  {
    if next <= 1 then [] else InsertionOrder(next - 1) + [next - 1]
  }

  predicate Distinct(ks: seq<int>)
  {
    forall i, j :: 0 <= i < j < |ks| ==> ks[i] != ks[j]
  }

  /** Every key of `ks` has a timestamp in `t`. */
  predicate Timed(ks: seq<int>, t: map<int, int>)
  {
    forall i :: 0 <= i < |ks| ==> ks[i] in t
  }

  /** `a` is listed before `b`: it is newer, or as new and inserted earlier. */
  predicate Precedes(a: int, b: int, t: map<int, int>)
    requires a in t && b in t
  {
    t[a] > t[b] || (t[a] == t[b] && a < b)
  }

  predicate NewestFirst(ks: seq<int>, t: map<int, int>)
    requires Timed(ks, t)
  {
    forall i, j :: 0 <= i < j < |ks| ==> Precedes(ks[i], ks[j], t)
  }

  /** Places `k` in front of the first key it precedes. */
  function Insert(k: int, ks: seq<int>, t: map<int, int>): (r: seq<int>)
    requires k in t && Timed(ks, t) && NewestFirst(ks, t) && k !in ks
    ensures Timed(r, t) && NewestFirst(r, t)
    ensures multiset(r) == multiset(ks) + multiset{k}
  {
    if ks == [] || Precedes(k, ks[0], t) then
      [k] + ks
    else
      var rest := Insert(k, ks[1..], t);
      InsertBehindHead(k, ks, rest, t);
      [ks[0]] + rest
  }

  /** When `k` does not precede the head, the head stays in front of `k` placed in the tail. */
  lemma InsertBehindHead(k: int, ks: seq<int>, rest: seq<int>, t: map<int, int>)
    requires ks != [] && k in t && Timed(ks, t) && NewestFirst(ks, t) && k !in ks
    requires !Precedes(k, ks[0], t)
    requires Timed(rest, t) && NewestFirst(rest, t)
    requires multiset(rest) == multiset(ks[1..]) + multiset{k}
    ensures Timed([ks[0]] + rest, t) && NewestFirst([ks[0]] + rest, t)
    ensures multiset([ks[0]] + rest) == multiset(ks) + multiset{k}
  {
    var r := [ks[0]] + rest;
    assert ks == [ks[0]] + ks[1..];
    forall j | 0 < j < |r| ensures Precedes(ks[0], r[j], t) {
      assert r[j] in multiset(rest);
      if r[j] != k {
        var m :| 0 <= m < |ks[1..]| && ks[1..][m] == r[j];
        assert ks[m + 1] == r[j];
      }
    }
  }

  /** The counter's keys are exactly 1 to next - 1. */
  lemma InsertionOrderKeys(next: int)
    ensures forall k :: k in InsertionOrder(next) <==> 1 <= k < next
  {
    var keys := InsertionOrder(next);
    forall k ensures k in keys <==> 1 <= k < next {
      if 1 <= k < next { assert keys[k - 1] == k; }
    }
  }

  /** Sequences with the same multiset have the same members. */
  lemma SameKeys(a: seq<int>, b: seq<int>)
    requires multiset(a) == multiset(b)
    ensures forall k :: k in a <==> k in b
  {
    forall k ensures k in a <==> k in b {
      assert k in a <==> k in multiset(a);
      assert k in b <==> k in multiset(b);
    }
  }

  /** Insertion sort of distinct keys into newest-first order. */
  function Sort(ks: seq<int>, t: map<int, int>): (r: seq<int>)
    requires Timed(ks, t) && Distinct(ks)
    ensures Timed(r, t) && NewestFirst(r, t)
    ensures multiset(r) == multiset(ks)
  {
    if ks == [] then
      []
    else
      var rest := Sort(ks[1..], t);
      assert ks[0] !in ks[1..];
      assert ks[0] !in rest by {
        assert ks[0] !in multiset(ks[1..]);
      }
      assert ks == [ks[0]] + ks[1..];
      Insert(ks[0], rest, t)
  }

  /**
   * Two newest-first arrangements of the same keys are the same sequence:
   * any stable descending sort yields exactly what `Sort` yields.
   */
  lemma {:induction false} NewestFirstUnique(a: seq<int>, b: seq<int>, t: map<int, int>)
    requires Timed(a, t) && Timed(b, t)
    requires NewestFirst(a, t) && NewestFirst(b, t)
    requires multiset(a) == multiset(b)
    ensures a == b
  {
    if a != [] {
      assert |b| == |multiset(b)| == |a| > 0;
      // a[0] and b[0] both precede every other key, so they are the same key
      assert a[0] in multiset(b) && b[0] in multiset(a);
      assert a[0] == b[0];
      assert a == [a[0]] + a[1..];
      assert b == [b[0]] + b[1..];
      assert multiset(a[1..]) == multiset(a) - multiset{a[0]};
      assert multiset(b[1..]) == multiset(b) - multiset{b[0]};
      NewestFirstUnique(a[1..], b[1..], t);
    }
  }

  /** The values stored under `ks`, in that order. */
  function Lookup<T(==)>(m: map<int, T>, ks: seq<int>): (r: seq<T>)
    requires forall i :: 0 <= i < |ks| ==> ks[i] in m
    ensures |r| == |ks|
    ensures forall i :: 0 <= i < |ks| ==> r[i] == m[ks[i]] && r[i] in m.Values
  {
    if ks == [] then [] else [m[ks[0]]] + Lookup(m, ks[1..])
  }
}
