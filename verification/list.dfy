/**
 * RLFL_list_t: a growable array of `void *` slots. `data` is the allocated array
 * (its length is the capacity `asize`), `fsize` the number of slots in use;
 * NULL is `None`. Iterators (addresses into `data`) are replaced by indices.
 */
module List {
  import opened Util

  datatype ListT<T> = ListT(fsize: nat, data: seq<Option<T>>)
  {
    function Capacity(): nat
    {
      |data|
    }

    /** The shape every list keeps: the fill size fits the buffer, and a capacity is never 1. */
    ghost predicate Valid()
    {
      fsize <= |data| && |data| != 1
    }

    /** Every slot beyond the fill size is NULL: true of lists that only grow by append, insert and set. */
    ghost predicate Clean()
    {
      forall i :: fsize <= i < |data| ==> data[i] == None
    }

    /** The elements in use, positions [0, fsize). */
    function Elements(): seq<Option<T>>
      requires fsize <= |data|
    {
      data[..fsize]
    }
  }

  /** The result of reading a slot: a value (possibly NULL), or a read outside the allocated buffer. */
  datatype Read<T> = Value(v: Option<T>) | BeyondBuffer

  /** An iterator as remove_iterator returns it: a slot index (-1 is one before the buffer), or NULL-1. */
  datatype Cursor = Slot(i: int) | NullMinusOne

  /** RLFL_list_create: calloc leaves size, capacity and buffer at zero. */
  function Create<T>(): (l: ListT<T>)
    ensures l.Valid() && l.Clean() && l.Elements() == [] && l.Capacity() == 0
  {
    ListT(0, [])
  }

  /** RLFL_list_create_size: a buffer of `size` NULL slots, unless size <= 1. */
  function CreateSize<T>(size: int): (l: ListT<T>)
    ensures l.Valid() && l.Clean() && l.Elements() == []
    ensures l.Capacity() == (if size <= 1 then 0 else size)
  {
    if size <= 1 then Create() else ListT(0, seq(size, _ => None))
  }

  /** RLFL_list_allocate_int: double the capacity (16 from empty), keep the first fsize slots, NULL the rest. */
  function Grow<T>(l: ListT<T>): (g: ListT<T>)
    requires l.Valid()
    ensures g.Valid() && g.Clean()
    ensures g.Capacity() == (if l.Capacity() == 0 then 16 else 2 * l.Capacity())
    ensures g.fsize == l.fsize && g.Elements() == l.Elements()
    ensures g.fsize + 1 < g.Capacity()
  {
    var nsize := if |l.data| == 0 then 16 else 2 * |l.data|;
    ListT(l.fsize, l.data[..l.fsize] + seq(nsize - l.fsize, _ => None))
  }

  /** RLFL_list_append: grow when fsize+1 >= asize, then store at the old size. */
  function Append<T>(l: ListT<T>, e: T): (r: ListT<T>)
    requires l.Valid()
    ensures r.Valid() && r.fsize == l.fsize + 1
    ensures r.Elements() == l.Elements() + [Some(e)]
    ensures r.fsize < r.Capacity()
    ensures l.Clean() ==> r.Clean()
  {
    var g := Room(l);
    ListT(g.fsize + 1, g.data[g.fsize := Some(e)])
  }

  /** The pop step `data[--fsize]`: the last element in use and the list one shorter; NULL and no change when nothing is in use. */
  function TakeLast<T>(l: ListT<T>): (Option<T>, ListT<T>)
  {
    if 0 < l.fsize <= |l.data| then (l.data[l.fsize - 1], l.(fsize := l.fsize - 1)) else (None, l)
  }

  /**
   * RLFL_list_pop as written: NULL when `fsize >= 0`, the pop step otherwise. The size is never
   * negative, so the pop step is dead code and every call returns NULL and changes nothing.
   */
  function PopAsWritten<T>(l: ListT<T>): (res: (Option<T>, ListT<T>))
    ensures res.0 == None && res.1 == l
  {
    if l.fsize >= 0 then (None, l) else TakeLast(l)
  }

  /** RLFL_list_pop as evidently intended: NULL on an empty list, otherwise the last element, removed. */
  function Pop<T>(l: ListT<T>): (res: (Option<T>, ListT<T>))
    requires l.Valid()
    ensures res.1.Valid() && res.1.data == l.data
    ensures l.fsize == 0 ==> res == (None, l)
    ensures l.fsize > 0 ==> res.1.fsize == l.fsize - 1 && res.0 == l.data[l.fsize - 1]
  {
    if l.fsize == 0 then (None, l) else TakeLast(l)
  }

  /** On every non-empty list the written pop and the intended pop disagree: the written one never shrinks it. */
  lemma PopAsWrittenNeverShrinks<T>(l: ListT<T>)
    requires l.Valid() && l.fsize > 0
    ensures PopAsWritten(l).1.fsize == l.fsize && Pop(l).1.fsize == l.fsize - 1
  {
  }

  /** Popping what was just appended gives it back and restores the elements. */
  lemma PopAfterAppend<T>(l: ListT<T>, e: T)
    requires l.Valid()
    ensures Pop(Append(l, e)).0 == Some(e)
    ensures Pop(Append(l, e)).1.Elements() == l.Elements()
  {
    var a := Append(l, e);
    assert a.Elements()[l.fsize] == Some(e);
    assert a.Elements()[..l.fsize] == l.Elements();
  }

  /** RLFL_list_get as written: NULL only when index > fsize, so index == fsize is read too. */
  function GetAsWritten<T>(l: ListT<T>, index: nat): (r: Read<T>)
    ensures index > l.fsize ==> r == Value(None)
    ensures index <= l.fsize && index < |l.data| ==> r == Value(l.data[index])
    ensures index <= l.fsize && index >= |l.data| ==> r == BeyondBuffer
  {
    if index > l.fsize then Value(None)
    else if index < |l.data| then Value(l.data[index])
    else BeyondBuffer
  }

  /** RLFL_list_get as evidently intended: NULL for every index at or beyond the fill size. */
  function Get<T>(l: ListT<T>, index: nat): (r: Option<T>)
    requires l.Valid()
    ensures index < l.fsize ==> r == l.Elements()[index]
    ensures index >= l.fsize ==> r == None
  {
    if index >= l.fsize then None else l.data[index]
  }

  /** On a fresh list, reading at its size (0) reads outside the (empty) buffer. */
  lemma GetAtSizeOfEmptyListOverruns()
    ensures GetAsWritten(Create<int>(), 0) == BeyondBuffer
    ensures Get(Create<int>(), 0) == None
  {
  }

  /** A full list (filled by set at its last slot) is overrun by a read at its size. */
  lemma GetAtSizeOfFullListOverruns()
    ensures var l := Set(CreateSize<int>(16), 15, 7);
      l.fsize == 16 && l.Capacity() == 16 && GetAsWritten(l, 16) == BeyondBuffer
  {
  }

  /** On the lists the library builds (clean, with spare capacity), the two reads agree. */
  lemma GetAgreesOnCleanLists<T>(l: ListT<T>, index: nat)
    requires l.Valid() && l.Clean() && l.fsize < l.Capacity()
    ensures GetAsWritten(l, index) == Value(Get(l, index))
  {
  }

  /** The capacity `set` ends up with: grow until index < asize. */
  function SetCapacity(asize: nat, index: nat): (c: nat)
    requires asize != 1
    ensures c > index && c >= asize && c != 1
    ensures asize > index ==> c == asize
    decreases index + 1 - asize
  {
    if asize >= index + 1 then asize
    else SetCapacity(if asize == 0 then 16 else 2 * asize, index)
  }

  /** RLFL_list_set: grow until the index fits, store, and raise the size past the index if needed. */
  function Set<T>(l: ListT<T>, index: nat, e: T): (r: ListT<T>)
    requires l.Valid()
    ensures r.Valid() && r.Capacity() > index && r.Capacity() >= l.Capacity()
    ensures r.fsize == Max(l.fsize, index + 1)
    ensures r.data[index] == Some(e)
  {
    var c := SetCapacity(|l.data|, index);
    var buf := if c == |l.data| then l.data else l.data[..l.fsize] + seq(c - l.fsize, _ => None);
    ListT(Max(l.fsize, index + 1), buf[index := Some(e)])
  }

  /** set leaves every other element in use alone; without growth it leaves every other slot alone, and growth NULLs the fresh slots. */
  lemma SetKeepsOthers<T>(l: ListT<T>, index: nat, e: T)
    requires l.Valid()
    ensures var r := Set(l, index, e);
      && (forall i :: 0 <= i < l.fsize && i != index ==> r.data[i] == l.data[i])
      && (r.Capacity() == l.Capacity() ==> forall i :: 0 <= i < |l.data| && i != index ==> r.data[i] == l.data[i])
      && (r.Capacity() != l.Capacity() ==> forall i :: l.fsize <= i < r.Capacity() && i != index ==> r.data[i] == None)
  {
  }

  /** set keeps a clean list clean. */
  lemma SetKeepsClean<T>(l: ListT<T>, index: nat, e: T)
    requires l.Valid() && l.Clean()
    ensures Set(l, index, e).Clean()
  {
  }

  /** The buffer an append or insert writes into: grown first when fsize+1 >= asize. */
  function Room<T>(l: ListT<T>): (g: ListT<T>)
    requires l.Valid()
    ensures g.Valid() && g.fsize == l.fsize && g.Elements() == l.Elements() && g.fsize + 1 < g.Capacity()
    ensures g.Capacity() >= l.Capacity()
    ensures l.Clean() ==> g.Clean()
  {
    if l.fsize + 1 >= |l.data| then Grow(l) else l
  }

  /**
   * RLFL_list_insert: grow when fsize+1 >= asize, shift [before, fsize) right by one, store at
   * `before`, grow the size by one. `before` is a plain int the C never checks: a negative one
   * reads data[-1] and one at or beyond the (grown) capacity writes outside the buffer (None
   * here); one beyond the size stores outside the live range and pulls the stale slot at the
   * old size into it.
   */
  method Insert<T>(l: ListT<T>, e: T, before: int) returns (r: Option<ListT<T>>, at: int)
    requires l.Valid()
    ensures at == before
    ensures r.None? <==> before < 0 || before >= Room(l).Capacity()
    ensures r.Some? ==> && r.value.Valid() && r.value.fsize == l.fsize + 1 && r.value.fsize < r.value.Capacity()
                        && 0 <= before < r.value.Capacity() && r.value.data[before] == Some(e)
    ensures 0 <= before <= l.fsize ==> r.Some? && r.value.Elements() == l.Elements()[..before] + [Some(e)] + l.Elements()[before..]
    ensures 0 <= before <= l.fsize && l.Clean() ==> r.Some? && r.value.Clean()
    ensures l.fsize < before < Room(l).Capacity() ==> r.Some? && r.value.Elements() == l.Elements() + [Room(l).data[l.fsize]]
  {
    at := before;
    var g := Room(l);
    if before < 0 || before >= |g.data| {
      return None, at;
    }
    var d;
    if before <= g.fsize {
      d := ShiftRight(g.data, g.fsize, before);
      ShiftedInsert(g.data, d, g.fsize, before, e);
    } else {
      d := g.data;
      assert d[before := Some(e)][..g.fsize + 1] == g.data[..g.fsize] + [g.data[g.fsize]];
    }
    d := d[before := Some(e)];
    r := Some(ListT(g.fsize + 1, d));
  }

  /** The shifting loop of RLFL_list_insert: slots [before, n) move one place right, the rest stay. */
  method ShiftRight<T>(s: seq<Option<T>>, n: nat, before: nat) returns (d: seq<Option<T>>)
    requires before <= n < |s|
    ensures |d| == |s|
    ensures forall k :: 0 <= k <= before ==> d[k] == s[k]
    ensures forall k :: before < k <= n ==> d[k] == s[k - 1]
    ensures forall k :: n < k < |d| ==> d[k] == s[k]
  {
    d := s;
    var idx := n;
    while idx > before
      invariant before <= idx <= n
      invariant |d| == |s|
      invariant forall k :: 0 <= k <= idx ==> d[k] == s[k]
      invariant forall k :: idx < k <= n ==> d[k] == s[k - 1]
      invariant forall k :: n < k < |d| ==> d[k] == s[k]
      decreases idx
    {
      d := d[idx := d[idx - 1]];
      idx := idx - 1;
    }
  }

  /** After shifting s[before..n) one slot right into d, storing e at `before` gives the insertion into s[..n]. */
  lemma ShiftedInsert<T>(s: seq<Option<T>>, d: seq<Option<T>>, n: nat, before: nat, e: T)
    requires before <= n < |d| && |d| == |s|
    requires forall k :: 0 <= k < before ==> d[k] == s[k]
    requires forall k :: before < k <= n ==> d[k] == s[k - 1]
    ensures d[before := Some(e)][..n + 1] == s[..n][..before] + [Some(e)] + s[..n][before..]
  {
    var spec := s[..n][..before] + [Some(e)] + s[..n][before..];
    var r := d[before := Some(e)][..n + 1];
    assert |r| == |spec|;
    forall k | 0 <= k < |spec|
      ensures r[k] == spec[k]
    {
      if k > before {
        assert spec[k] == s[k - 1];
      }
    }
  }

  /**
   * RLFL_list_remove_iterator: shift every element after `at` left by one and shrink. It returns
   * the iterator one before `at`, except that a list left empty yields NULL-1, which is no
   * position in the buffer at all.
   */
  method RemoveAt<T>(l: ListT<T>, at: nat) returns (r: ListT<T>, prev: Cursor)
    requires l.Valid() && at < l.fsize
    ensures r.Valid() && r.fsize == l.fsize - 1 && r.Capacity() == l.Capacity()
    ensures r.Elements() == l.Elements()[..at] + l.Elements()[at + 1..]
    ensures r.fsize == 0 <==> prev == NullMinusOne
    ensures r.fsize > 0 ==> prev == Slot(at - 1)
  {
    var d := ShiftLeft(l.data, l.fsize, at);
    r := ListT(l.fsize - 1, d);
    prev := if r.fsize == 0 then NullMinusOne else Slot(at - 1);
    ShiftedRemove(l.data, d, l.fsize, at);
  }

  /** The shifting loop of RLFL_list_remove_iterator: slots (at, n) move one place left, the rest stay. */
  method ShiftLeft<T>(s: seq<Option<T>>, n: nat, at: nat) returns (d: seq<Option<T>>)
    requires at < n <= |s|
    ensures |d| == |s|
    ensures forall k :: 0 <= k < at ==> d[k] == s[k]
    ensures forall k :: at <= k < n - 1 ==> d[k] == s[k + 1]
    ensures forall k :: n - 1 <= k < |d| ==> d[k] == s[k]
  {
    d := s;
    var e := at;
    while e < n - 1
      invariant at <= e <= n - 1
      invariant |d| == |s|
      invariant forall k :: 0 <= k < at ==> d[k] == s[k]
      invariant forall k :: at <= k < e ==> d[k] == s[k + 1]
      invariant forall k :: e <= k < |d| ==> d[k] == s[k]
      decreases n - e
    {
      d := d[e := d[e + 1]];
      e := e + 1;
    }
  }

  /** After shifting s(at..n) one slot left into d, the first n - 1 slots are s[..n] without position at. */
  lemma ShiftedRemove<T>(s: seq<Option<T>>, d: seq<Option<T>>, n: nat, at: nat)
    requires at < n <= |s| && |d| == |s|
    requires forall k :: 0 <= k < at ==> d[k] == s[k]
    requires forall k :: at <= k < n - 1 ==> d[k] == s[k + 1]
    ensures d[..n - 1] == s[..n][..at] + s[..n][at + 1..]
  {
    var spec := s[..n][..at] + s[..n][at + 1..];
    assert |d[..n - 1]| == |spec|;
    forall k | 0 <= k < |spec|
      ensures d[..n - 1][k] == spec[k]
    {
      if k >= at {
        assert spec[k] == s[k + 1];
      }
    }
  }

  /** RLFL_list_size: 0 for a NULL list. */
  function Size<T>(l: Option<ListT<T>>): (n: nat)
    ensures l.None? ==> n == 0
    ensures l.Some? && l.value.fsize <= |l.value.data| ==> n == |l.value.Elements()|
  {
    if l.None? then 0 else l.value.fsize
  }

  /** Append the elements of s one by one, as a loop of RLFL_list_append calls does. */
  function AppendAll<T>(l: ListT<T>, s: seq<T>): (r: ListT<T>)
    requires l.Valid()
    ensures r.Valid() && r.fsize == l.fsize + |s|
    ensures r.Elements()[..l.fsize] == l.Elements()
    ensures forall i :: 0 <= i < |s| ==> r.Elements()[l.fsize + i] == Some(s[i])
    decreases |s|
  {
    if s == [] then l
    else
      var l1 := Append(l, s[0]);
      var r := AppendAll(l1, s[1..]);
      assert r.Elements()[..l.fsize] == r.Elements()[..l1.fsize][..l.fsize];
      r
  }

  /** The entries a list holds for the elements of s, in order. */
  function Entries<T>(s: seq<T>): (r: seq<Option<T>>)
    ensures |r| == |s| && forall i :: 0 <= i < |s| ==> r[i] == Some(s[i])
  {
    seq(|s|, i requires 0 <= i < |s| => Some(s[i]))
  }

  /** An element is in s exactly when its entry is among the entries of s. */
  lemma EntriesHold<T>(s: seq<T>)
    ensures forall e :: e in s <==> Some(e) in Entries(s)
  {
    var r := Entries(s);
    forall e | Some(e) in r
      ensures e in s
    {
      var i :| 0 <= i < |r| && r[i] == Some(e);
      assert s[i] == e;
    }
    forall e | e in s
      ensures Some(e) in r
    {
      var i :| 0 <= i < |s| && s[i] == e;
      assert r[i] == Some(e);
    }
  }

  /** Appending s one by one leaves the old elements followed by the entries of s. */
  lemma AppendAllEntries<T>(l: ListT<T>, s: seq<T>)
    requires l.Valid()
    ensures AppendAll(l, s).Elements() == l.Elements() + Entries(s)
  {
    var r, e := AppendAll(l, s).Elements(), l.Elements() + Entries(s);
    forall i | 0 <= i < |r|
      ensures r[i] == e[i]
    {
      if i < l.fsize {
        assert r[i] == r[..l.fsize][i];
      } else {
        assert r[l.fsize + (i - l.fsize)] == Some(s[i - l.fsize]);
      }
    }
  }

  /** RLFL_list_empty: the size drops to 0; the buffer is kept. */
  function Empty<T>(l: ListT<T>): (r: ListT<T>)
    requires l.Valid()
    ensures r.Valid() && r.Elements() == [] && r.Capacity() == l.Capacity()
  {
    l.(fsize := 0)
  }

  /** The list obtained by appending the elements of s in order to a fresh list. */
  function FromSeq<T>(s: seq<T>): (l: ListT<T>)
    ensures l.Valid() && l.Clean() && l.fsize == |s|
    ensures forall i :: 0 <= i < |s| ==> l.Elements()[i] == Some(s[i])
  {
    if s == [] then Create() else Append(FromSeq(s[..|s| - 1]), s[|s| - 1])
  }
}
