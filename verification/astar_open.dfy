/**
 * The open set of the A* search (path_astar.c): an array of node handles kept
 * ordered so that the path cost never increases toward the top, with the
 * cheapest node on top. Push places the new node on top and makes one
 * downward pass of adjacent swaps; pop takes the top; remove deletes the first
 * occurrence and closes the gap. The cost of a node is an arbitrary `key`.
 */
module AstarOpen {

  /** The cost never increases from the bottom (index 0) to the top. */
  ghost predicate SortedDesc(s: seq<nat>, key: nat -> int)
  {
    forall i, j :: 0 <= i < j < |s| ==> key(s[i]) >= key(s[j])
  }

  /** No node appears twice. */
  ghost predicate NoDup(s: seq<nat>)
  {
    forall i, j :: 0 <= i < j < |s| ==> s[i] != s[j]
  }

  /** s with e inserted at position p. */
  function Ins(s: seq<nat>, p: nat, e: nat): (r: seq<nat>)
    requires p <= |s|
    ensures |r| == |s| + 1 && r[p] == e
    ensures forall k :: 0 <= k < p ==> r[k] == s[k]
    ensures forall k :: p < k <= |s| ==> r[k] == s[k - 1]
  {
    s[..p] + [e] + s[p..]
  }

  /** The number of leading elements whose cost is at least key(e): where push puts e. */
  function Rank(s: seq<nat>, e: nat, key: nat -> int): (p: nat)
    ensures p <= |s|
    ensures forall k :: 0 <= k < p ==> key(s[k]) >= key(e)
    ensures p < |s| ==> key(s[p]) < key(e)
  {
    if s == [] || key(s[0]) < key(e) then 0 else 1 + Rank(s[1..], e, key)
  }

  /** The loop of path_push_open from index i down to 1: swap a pair when the lower one is cheaper. */
  function Bubble(s: seq<nat>, i: nat, key: nat -> int): (r: seq<nat>)
    requires i < |s|
    ensures |r| == |s| && multiset(r) == multiset(s)
    decreases i
  {
    if i == 0 then s
    else
      var s' := if key(s[i - 1]) < key(s[i]) then s[i - 1 := s[i]][i := s[i - 1]] else s;
      Bubble(s', i - 1, key)
  }

  /** path_push_open: store e at the top and run the swap pass. */
  function PushOpen(open: seq<nat>, e: nat, key: nat -> int): (r: seq<nat>)
    ensures |r| == |open| + 1
    ensures multiset(r) == multiset(open) + multiset{e}
  {
    Bubble(open + [e], |open|, key)
  }

  /** The swap pass leaves a sequence alone when its pairs up to index i are already ordered. */
  lemma {:induction false} BubbleOrderedNoop(t: seq<nat>, i: nat, key: nat -> int)
    requires i < |t|
    requires forall j :: 0 < j <= i ==> key(t[j - 1]) >= key(t[j])
    ensures Bubble(t, i, key) == t
    decreases i
  {
    if i > 0 {
      BubbleOrderedNoop(t, i - 1, key);
    }
  }

  lemma InsSwap(s: seq<nat>, i: nat, e: nat)
    requires 0 < i <= |s|
    ensures var t := Ins(s, i, e); t[i - 1 := t[i]][i := t[i - 1]] == Ins(s, i - 1, e)
  {
    var t := Ins(s, i, e);
    var u := t[i - 1 := t[i]][i := t[i - 1]];
    var v := Ins(s, i - 1, e);
    assert |u| == |v|;
    forall k | 0 <= k < |u|
      ensures u[k] == v[k]
    {
    }
  }

  /** Started with e at position i at or above its rank, the pass moves e down to its rank. */
  lemma {:induction false} BubbleInserts(s: seq<nat>, e: nat, key: nat -> int, i: nat)
    requires SortedDesc(s, key) && Rank(s, e, key) <= i <= |s|
    ensures Bubble(Ins(s, i, e), i, key) == Ins(s, Rank(s, e, key), e)
    decreases i
  {
    var p := Rank(s, e, key);
    var t := Ins(s, i, e);
    if i == p {
      forall j | 0 < j <= i
        ensures key(t[j - 1]) >= key(t[j])
      {
      }
      BubbleOrderedNoop(t, i, key);
    } else {
      assert key(t[i - 1]) < key(t[i]);
      InsSwap(s, i, e);
      BubbleInserts(s, e, key, i - 1);
    }
  }

  /** On an ordered open set, push inserts e just above every node that costs at least as much, keeping the order. */
  lemma PushOpenInserts(open: seq<nat>, e: nat, key: nat -> int)
    requires SortedDesc(open, key)
    ensures PushOpen(open, e, key) == Ins(open, Rank(open, e, key), e)
    ensures SortedDesc(PushOpen(open, e, key), key)
  {
    assert open + [e] == Ins(open, |open|, e);
    BubbleInserts(open, e, key, |open|);
    InsSorted(open, e, key);
  }

  lemma InsSorted(s: seq<nat>, e: nat, key: nat -> int)
    requires SortedDesc(s, key)
    ensures SortedDesc(Ins(s, Rank(s, e, key), e), key)
  {
    var p := Rank(s, e, key);
    var t := Ins(s, p, e);
    forall i, j | 0 <= i < j < |t|
      ensures key(t[i]) >= key(t[j])
    {
      if j < p || i > p {
      } else if i == p {
        assert key(s[p]) < key(e);
        assert key(s[p]) >= key(s[j - 1]) || j - 1 == p;
      } else if j == p {
      } else {
        assert key(s[i]) >= key(s[p - 1]) || i == p - 1;
        assert key(s[p - 1]) >= key(e);
      }
    }
  }

  /** path_pop_open: the top node and the set without it. */
  function PopOpen(open: seq<nat>): (res: (nat, seq<nat>))
    requires |open| > 0
    ensures open == res.1 + [res.0]
  {
    (open[|open| - 1], open[..|open| - 1])
  }

  /** On an ordered open set, pop yields a node of least cost and leaves the rest ordered. */
  lemma PopIsCheapest(open: seq<nat>, key: nat -> int)
    requires |open| > 0 && SortedDesc(open, key)
    ensures forall k :: 0 <= k < |open| ==> key(PopOpen(open).0) <= key(open[k])
    ensures SortedDesc(PopOpen(open).1, key)
  {
  }

  /** A node pushed with a cost no higher than any other is the next one popped (ties favour the newest). */
  lemma PushThenPop(open: seq<nat>, e: nat, key: nat -> int)
    requires SortedDesc(open, key)
    requires forall k :: 0 <= k < |open| ==> key(e) <= key(open[k])
    ensures PopOpen(PushOpen(open, e, key)) == (e, open)
  {
    PushOpenInserts(open, e, key);
    RankAll(open, e, key);
    assert Ins(open, |open|, e) == open + [e];
  }

  lemma RankAll(s: seq<nat>, e: nat, key: nat -> int)
    requires forall k :: 0 <= k < |s| ==> key(e) <= key(s[k])
    ensures Rank(s, e, key) == |s|
  {
  }

  /** The index of the first occurrence of e, or |s| when e is absent. */
  function IndexOf(s: seq<nat>, e: nat): (i: nat)
    ensures i <= |s|
    ensures i < |s| ==> s[i] == e
    ensures forall k :: 0 <= k < i ==> s[k] != e
  {
    if s == [] || s[0] == e then 0 else 1 + IndexOf(s[1..], e)
  }

  /** path_remove: delete the first occurrence of e and close the gap; no change when e is absent. */
  function RemoveOpen(open: seq<nat>, e: nat): (r: seq<nat>)
    ensures e !in open ==> r == open
    ensures e in open ==> |r| == |open| - 1
  {
    var i := IndexOf(open, e);
    if i == |open| then open else open[..i] + open[i + 1..]
  }

  /** Removing keeps the other nodes in their order, so an ordered set stays ordered. */
  lemma RemoveOpenSorted(open: seq<nat>, e: nat, key: nat -> int)
    requires SortedDesc(open, key)
    ensures SortedDesc(RemoveOpen(open, e), key)
  {
    var i := IndexOf(open, e);
    if i < |open| {
      var r := RemoveOpen(open, e);
      forall a, b | 0 <= a < b < |r|
        ensures key(r[a]) >= key(r[b])
      {
        var a' := if a < i then a else a + 1;
        var b' := if b < i then b else b + 1;
        assert r[a] == open[a'] && r[b] == open[b'];
      }
    }
  }

  /** Exactly one copy of e is removed, and nothing else. */
  lemma RemoveOpenMultiset(open: seq<nat>, e: nat)
    ensures multiset(RemoveOpen(open, e)) == multiset(open) - multiset{e}
  {
    var i := IndexOf(open, e);
    if i < |open| {
      assert open == open[..i] + [e] + open[i + 1..];
    } else {
      assert e !in multiset(open);
    }
  }

  /** Without duplicates, e is gone after removal and no duplicate appears. */
  lemma RemoveOpenNoDup(open: seq<nat>, e: nat)
    requires NoDup(open)
    ensures e !in RemoveOpen(open, e) && NoDup(RemoveOpen(open, e))
    ensures forall x :: x in RemoveOpen(open, e) <==> x in open && x != e
  {
    var i := IndexOf(open, e);
    if i < |open| {
      var r := RemoveOpen(open, e);
      forall x | x in r
        ensures x in open && x != e
      {
        var a :| 0 <= a < |r| && r[a] == x;
        var a' := if a < i then a else a + 1;
        assert r[a] == open[a'];
      }
      forall x | x in open && x != e
        ensures x in r
      {
        var a :| 0 <= a < |open| && open[a] == x;
        assert a != i;
        if a < i {
          assert r[a] == x;
        } else {
          assert r[a - 1] == x;
        }
      }
      forall a, b | 0 <= a < b < |r|
        ensures r[a] != r[b]
      {
        var a' := if a < i then a else a + 1;
        var b' := if b < i then b else b + 1;
        assert r[a] == open[a'] && r[b] == open[b'];
      }
    }
  }
}
