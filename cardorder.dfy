/**
 * The order of the draggable cards on the study page, and the array
 * operations `handleDrop` uses on it: `indexOf` and `splice`.
 */
module CardOrder {

  /** The cards in the order the page first shows them. */
  const DefaultOrder: seq<string> := ["environment", "quotes", "spotify"]

  predicate Distinct(s: seq<string>)
  {
    forall i, j :: 0 <= i < j < |s| ==> s[i] != s[j]
  }

  /** `Array.prototype.indexOf`: the first position of `x`, or -1. */
  function IndexOf(s: seq<string>, x: string): (i: int)
    ensures -1 <= i < |s|
    ensures i == -1 <==> x !in s
    ensures 0 <= i ==> s[i] == x && x !in s[..i]
  {
    if s == [] then -1
    else if s[0] == x then 0
    else
      var j := IndexOf(s[1..], x);
      if j == -1 then -1
      else
        assert s[..j + 1] == [s[0]] + s[1..][..j];
        j + 1
  }

  /** Where `splice` starts: a negative start counts from the end; both are clamped to the array. */
  function SpliceStart(length: nat, start: int): (k: nat)
    ensures k <= length
    ensures 0 <= start <= length ==> k == start
  {
    if start < 0 then (if length + start < 0 then 0 else length + start)
    else if start > length then length
    else start
  }

  /**
   * `Array.prototype.splice(start, deleteCount, ...items)`, as the array
   * it leaves behind: up to `deleteCount` elements from `start` replaced by
   * `items`.  With a start and a count inside the array it cuts exactly there.
   */
  function Splice(s: seq<string>, start: int, deleteCount: int, items: seq<string>): (r: seq<string>)
    ensures 0 <= start <= |s| && 0 <= deleteCount <= |s| - start ==>
              r == s[..start] + items + s[start + deleteCount..]
  {
    var k := SpliceStart(|s|, start);
    var d := if deleteCount < 0 then 0 else if deleteCount > |s| - k then |s| - k else deleteCount;
    s[..k] + items + s[k + d..]
  }

  /** `s` with the element at `i` taken out. */
  function RemoveAt(s: seq<string>, i: nat): (r: seq<string>)
    requires i < |s|
    ensures |r| == |s| - 1
  {
    s[..i] + s[i + 1..]
  }

  /**
   * Taking the card at `from` out and splicing it back in at `to` (both
   * positions in the original order) keeps the same cards, puts the moved
   * card at `to` and leaves every other card in its relative order.
   */
  lemma MoveCard(s: seq<string>, from: nat, to: nat)
    requires from < |s| && to < |s|
    ensures var r := Splice(Splice(s, from, 1, []), to, 0, [s[from]]);
      && |r| == |s|
      && multiset(r) == multiset(s)
      && r[to] == s[from]
      && RemoveAt(r, to) == RemoveAt(s, from)
  {
    var removed := Splice(s, from, 1, []);
    var r := Splice(removed, to, 0, [s[from]]);
    ReinsertAt(s, from, to, removed, r);
  }

  /** `MoveCard` on the cut-out and spliced-in sequences themselves. */
  lemma ReinsertAt(s: seq<string>, from: nat, to: nat, removed: seq<string>, r: seq<string>)
    requires from < |s| && to < |s|
    requires removed == s[..from] + s[from + 1..]
    requires r == removed[..to] + [s[from]] + removed[to..]
    ensures |r| == |s| && multiset(r) == multiset(s)
    ensures r[to] == s[from] && RemoveAt(r, to) == RemoveAt(s, from)
  {
    RemoveAtMultiset(s, from);
    InsertAtMultiset(removed, to, s[from]);
    assert r[..to] == removed[..to] && r[to + 1..] == removed[to..];
    assert removed[..to] + removed[to..] == removed;
  }

  /** Taking an element out leaves the others. */
  lemma RemoveAtMultiset(s: seq<string>, i: nat)
    requires i < |s|
    ensures multiset(s) == multiset(RemoveAt(s, i)) + multiset{s[i]}
  {
    assert s == s[..i] + [s[i]] + s[i + 1..];
  }

  /** Putting an element in adds it to the others. */
  lemma InsertAtMultiset(s: seq<string>, i: nat, x: string)
    requires i <= |s|
    ensures multiset(s[..i] + [x] + s[i..]) == multiset(s) + multiset{x}
  {
    assert s == s[..i] + s[i..];
  }

  /**
   * Dropping card `dragged` on a different card `target` of a sequence of
   * distinct cards, the way `handleDrop` does it: find both positions, cut
   * the dragged card out, splice it back in at the target's position.
   */
  lemma DropOnCard(s: seq<string>, dragged: string, target: string)
    requires Distinct(s) && dragged in s && target in s && dragged != target
    ensures var from := IndexOf(s, dragged);
      var to := IndexOf(s, target);
      var r := Splice(Splice(s, from, 1, []), to, 0, [dragged]);
      && 0 <= from && 0 <= to
      && |r| == |s| && multiset(r) == multiset(s) && Distinct(r)
      && r[to] == dragged && RemoveAt(r, to) == RemoveAt(s, from)
  {
    var from := IndexOf(s, dragged);
    var to := IndexOf(s, target);
    assert s[from] == dragged;
    MoveCard(s, from, to);
    MoveKeepsDistinct(s, from, to);
  }

  /** Moving a card keeps the cards distinct. */
  lemma MoveKeepsDistinct(s: seq<string>, from: nat, to: nat)
    requires from < |s| && to < |s| && Distinct(s)
    ensures Distinct(Splice(Splice(s, from, 1, []), to, 0, [s[from]]))
  {
    var r := Splice(Splice(s, from, 1, []), to, 0, [s[from]]);
    MoveCard(s, from, to);
    forall i, j | 0 <= i < j < |r| ensures r[i] != r[j] {
      // a repeated card would occur more often in r than in s
      if r[i] == r[j] {
        assert multiset(s)[r[i]] == 1 by { DistinctCount(s, r[i]); }
        assert multiset(r)[r[i]] >= 2 by { TwiceCount(r, i, j); }
        assert false;
      }
    }
  }

  /** In a sequence without repeats, a present element occurs once. */
  lemma {:induction false} DistinctCount(s: seq<string>, x: string)
    requires Distinct(s) && x in s
    ensures multiset(s)[x] == 1
  {
    assert s == [s[0]] + s[1..];
    if s[0] == x {
      assert x !in s[1..];
    } else {
      DistinctCount(s[1..], x);
    }
  }

  /** An element at two positions occurs at least twice. */
  lemma TwiceCount(s: seq<string>, i: nat, j: nat)
    requires i < j < |s| && s[i] == s[j]
    ensures multiset(s)[s[i]] >= 2
  {
    assert s == s[..j] + [s[j]] + s[j + 1..];
    assert s[i] in s[..j];
  }
}
