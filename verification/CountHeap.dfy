/** The bounded min-heap of src/log_heap.c over the counted names of src/log_name_tree.c,
    whose elements are told the slot they are in. */
module CountHeap {
  import opened HeapOrder
  import opened LruList
  import opened Sealing

  const MAX_HEAP_NODE_NUM := 10000

  /** A name with its count, its place in the heap (-1 for none) and its cell in the LRU list. */
  class NodeValue {
    const fqdn: string
    var count: nat
    var heapIndex: int
    var ptr: Cell?

    constructor (fqdn: string)
      ensures this.fqdn == fqdn && count == 0 && heapIndex == -1 && ptr == null
    {
      this.fqdn := fqdn;
      count, heapIndex, ptr := 0, -1, null;
    }
  }

  ghost predicate Weighed(s: seq<NodeValue>, r: seq<Entry<NodeValue>>)
    reads s`count
  {
    |r| == |s| && forall k :: 0 <= k < |s| ==> r[k] == Entry(s[k], s[k].count)
  }

  lemma CanWeigh(s: seq<NodeValue>)
    ensures exists r :: Weighed(s, r)
  {
    if s == [] {
      assert Weighed(s, []);
    } else {
      var n := |s| - 1;
      CanWeigh(s[..n]);
      var r :| Weighed(s[..n], r);
      assert Weighed(s, r + [Entry(s[n], s[n].count)]);
    }
  }

  /** The elements with their counts. */
  ghost function Weigh(s: seq<NodeValue>): (r: seq<Entry<NodeValue>>)
    reads s`count
    ensures |r| == |s| && forall k :: 0 <= k < |s| ==> r[k] == Entry(s[k], s[k].count)
  {
    CanWeigh(s);
    var r :| Weighed(s, r);
    r
  }

  lemma WeighPut(s: seq<NodeValue>, n: nat, i: nat, x: NodeValue)
    requires i < n <= |s|
    ensures Weigh(s[..n][i := x]) == Weigh(s[..n])[i := Entry(x, x.count)]
  {
  }

  lemma {:induction false} WeighCounts(s: seq<NodeValue>, v: NodeValue)
    ensures multiset(Weigh(s))[Entry(v, v.count)] == multiset(s)[v]
  {
    if s != [] {
      var n := |s| - 1;
      WeighCounts(s[..n], v);
      assert s == s[..n] + [s[n]];
      assert Weigh(s) == Weigh(s[..n]) + [Entry(s[n], s[n].count)];
    }
  }

  /** A rearrangement of entries rearranges the elements. */
  lemma SameElems(s: seq<NodeValue>, t: seq<NodeValue>)
    requires multiset(Weigh(s)) == multiset(Weigh(t))
    ensures multiset(s) == multiset(t)
  {
    forall v | v in multiset(s) + multiset(t)
      ensures multiset(s)[v] == multiset(t)[v]
    {
      WeighCounts(s, v);
      WeighCounts(t, v);
    }
    assert forall v :: v in multiset(s) <==> v in multiset(t);
  }

  predicate Within(s: seq<NodeValue>, t: seq<NodeValue>) {
    forall k :: 0 <= k < |s| ==> s[k] in t
  }

  lemma WithinOf(s: seq<NodeValue>, t: seq<NodeValue>, v: NodeValue)
    requires Within(s, t)
    ensures v in s ==> v in t
  {
  }

  lemma WithinTail(s: seq<NodeValue>, t: seq<NodeValue>, v: NodeValue)
    requires s != [] && Within(s[1..], t)
    ensures v in s ==> v == s[0] || v in t
  {
    if v in s && v != s[0] {
      var k :| 0 <= k < |s| && s[k] == v;
      assert s[1..][k - 1] == v;
    }
  }

  lemma SameWithin(s: seq<NodeValue>, t: seq<NodeValue>)
    requires multiset(s) == multiset(t)
    ensures Within(s, t) && Within(t, s)
  {
    forall k | 0 <= k < |s| ensures s[k] in t { assert s[k] in multiset(t); }
    forall k | 0 <= k < |t| ensures t[k] in s { assert t[k] in multiset(s); }
  }

  lemma ReplacedWithin(s: seq<NodeValue>, x: NodeValue, t: seq<NodeValue>)
    requires s != [] && multiset(t) == multiset(s[0 := x])
    ensures x in t && Within(t, s + [x]) && Within(s[1..], t)
  {
    var r := s[0 := x];
    SameWithin(r, t);
    assert r[0] in t;
    forall k | 0 <= k < |t| ensures t[k] in s + [x] {
      var j :| 0 <= j < |r| && r[j] == t[k];
      assert j > 0 ==> (s + [x])[j] == t[k];
      assert (s + [x])[|s|] == x;
    }
    forall k | 0 <= k < |s| - 1 ensures s[1..][k] in t {
      assert s[1..][k] == r[k + 1];
    }
  }

  lemma JoinedWithin(s: seq<NodeValue>, x: NodeValue, t: seq<NodeValue>)
    requires multiset(t) == multiset(s + [x])
    ensures x in t && Within(t, s + [x]) && Within(s, t)
  {
    SameWithin(s + [x], t);
    assert (s + [x])[|s|] in t;
    forall k | 0 <= k < |s| ensures s[k] in t {
      assert (s + [x])[k] == s[k];
    }
  }

  /** A sift over the whole heap rearranges its elements, with `x` in place of the one at `i`. */
  lemma SiftedElems(s: seq<NodeValue>, i: nat, x: NodeValue, t: seq<NodeValue>)
    requires Sifting(Weigh(s), i, Entry(x, x.count), Weigh(t))
    ensures multiset(t) == multiset(s[i := x])
  {
    assert Ask(OfShape, 0);
    SiftPermutes(Weigh(s), i, Entry(x, x.count));
    assert Weigh(s[i := x]) == Weigh(s)[i := Entry(x, x.count)];
    SameElems(s[i := x], t);
  }

  /** The same for a rise. */
  lemma RisenElems(s: seq<NodeValue>, x: NodeValue, repaired: bool, t: seq<NodeValue>)
    requires Rising(Weigh(s) + [Entry(x, x.count)], |s|, Entry(x, x.count), repaired, Weigh(t))
    ensures multiset(t) == multiset(s + [x])
  {
    assert Ask(OfShape, 0);
    var w, e := Weigh(s) + [Entry(x, x.count)], Entry(x, x.count);
    RisePermutes(w, |s|, e);
    RiseRepairedPermutes(w, |s|, e);
    assert w[|s| := e] == w == Weigh(s + [x]);
    SameElems(s + [x], t);
  }

  /** Without its last slot, and with the last element in place of the first. */
  lemma ElemsLessOne(s: seq<NodeValue>, t: seq<NodeValue>)
    requires s != [] && t == s[..|s| - 1]
    ensures t == [] ==> multiset(t) == multiset(s) - multiset{s[0]}
    ensures t != [] ==> multiset(t[0 := s[|s| - 1]]) == multiset(s) - multiset{s[0]}
  {
    assert s == t + [s[|s| - 1]];
  }

  ghost predicate Indexed(s: seq<NodeValue>)
    reads s`heapIndex
  {
    forall k :: 0 <= k < |s| ==> s[k].heapIndex == k
  }

  /** Every slot but the hole at `i` holds an element that knows its place, none of `away`. */
  ghost predicate IndexedBut(s: seq<NodeValue>, i: int, away: set<NodeValue>)
    reads s`heapIndex
  {
    forall k :: 0 <= k < |s| && k != i ==> s[k].heapIndex == k && s[k] !in away
  }

  /** Whoever in `s` has been told a slot since then was told one of the first `n`. */
  twostate predicate Placed(s: seq<NodeValue>, n: nat)
    reads s`heapIndex
  {
    forall k :: 0 <= k < |s| ==> s[k].heapIndex == old(s[k].heapIndex) || 0 <= s[k].heapIndex < n
  }

  /** None of `away` has been told a slot since then. */
  twostate predicate Still(away: set<NodeValue>)
    reads away`heapIndex
  {
    forall v :: v in away ==> v.heapIndex == old(v.heapIndex)
  }

  /** A heap of at most MAX_HEAP_NODE_NUM elements, of which `maxSize` are asked for. In the
      methods below `known` says that the elements know their slots; nothing else depends on it. */
  class Heap {
    const heap: array<NodeValue?>
    var len: nat
    const maxSize: nat
    ghost var elems: seq<NodeValue>

    ghost predicate Valid()
      reads this, heap
    {
      && heap.Length == MAX_HEAP_NODE_NUM && 0 < maxSize <= MAX_HEAP_NODE_NUM
      && len == |elems| <= heap.Length
      && forall k :: 0 <= k < len ==> heap[k] == elems[k]
    }

    constructor (ms: nat)
      requires 0 < ms <= MAX_HEAP_NODE_NUM
      ensures Valid() && elems == [] && maxSize == ms && fresh(heap)
    {
      heap := new NodeValue?[MAX_HEAP_NODE_NUM];
      len, maxSize, elems := 0, ms, [];
    }

    /** Slot `i` gets `v`, which hears about it if `track`. */
    method Put(i: nat, v: NodeValue, track: bool)
      requires Valid() && i < len
      modifies `elems, heap, (if track then [v] else [])`heapIndex
      ensures Valid() && elems == old(elems)[i := v]
      ensures track ==> v.heapIndex == i
    {
      heap[i] := v;
      elems := elems[i := v];
      if track {
        assert v in [v];
        v.heapIndex := i;
      }
    }

    /** The lighter child of slot `i` among the first `n` slots. */
    method Lighter(i: nat, n: nat) returns (j: nat)
      requires Valid() && n <= len && 2 * i + 1 < n
      ensures j == LightChild(Weigh(elems[..n]), i)
    {
      j := 2 * i + 1;
      if j < n - 1 && heap[j].count > heap[j + 1].count {
        j := j + 1;
      }
    }

    /** The element of slot `j` moves to the hole at `i`, and the hole to `j`. */
    method MoveHole(i: nat, j: nat, n: nat, track: bool, ghost known: bool, ghost away: set<NodeValue>)
      requires Valid() && i < n <= len && j < n && i != j
      requires known ==> track && IndexedBut(elems, i, away)
      modifies `elems, heap, (if track then elems else [])`heapIndex
      ensures Valid() && elems == old(elems)[i := old(elems)[j]]
      ensures Weigh(elems[..n]) == old(Weigh(elems[..n]))[i := old(Weigh(elems[..n]))[j]]
      ensures elems[n..] == old(elems[n..])
      ensures Placed(old(elems), len)
      ensures known ==> IndexedBut(elems, j, away) && Still(away)
    {
      Put(i, heap[j], track);
    }

    method DescendStep(i: nat, n: nat, x: NodeValue, track: bool, ghost known: bool, ghost away: set<NodeValue>,
                       ghost goal: seq<Entry<NodeValue>>)
      returns (settled: bool, j: nat)
      requires Valid() && 2 * i + 1 < n <= len
      requires known ==> track && IndexedBut(elems, i, away)
      requires Sifting(Weigh(elems[..n]), i, Entry(x, x.count), goal)
      modifies `elems, heap, (if track then elems else [])`heapIndex
      ensures Valid() && i < j < n
      ensures settled ==> elems == old(elems) && goal == Weigh(elems[..n])[i := Entry(x, x.count)]
      ensures !settled ==>
        && elems == old(elems)[i := old(elems)[j]]
        && Sifting(Weigh(elems[..n]), j, Entry(x, x.count), goal)
      ensures Placed(old(elems), len)
      ensures known ==> IndexedBut(elems, if settled then i else j, away) && Still(away)
    {
      j := Lighter(i, n);
      settled := x.count <= heap[j].count;
      if settled {
        SiftEnds(Weigh(elems[..n]), i, Entry(x, x.count), goal);
      } else {
        SiftMoves(Weigh(elems[..n]), i, Entry(x, x.count), goal);
        MoveHole(i, j, n, track, known, away);
      }
    }

    /** The loop of the sift-down family: from `from` on, while the lighter child in the
        first `n` slots is lighter than `x`, that child moves up. */
    method DescendLoop(from: nat, n: nat, x: NodeValue, track: bool, ghost known: bool, ghost away: set<NodeValue>,
                       ghost goal: seq<Entry<NodeValue>>)
      returns (i: nat)
      requires Valid() && from < n <= len
      requires known ==> track && IndexedBut(elems, from, away)
      requires Sifting(Weigh(elems[..n]), from, Entry(x, x.count), goal)
      modifies `elems, heap, (if track then elems else [])`heapIndex
      ensures Valid() && |old(elems)| == |elems| && from <= i < n
      ensures Weigh(elems[..n])[i := Entry(x, x.count)] == goal
      ensures elems[n..] == old(elems[n..])
      ensures i == from ==> elems == old(elems)
      ensures Placed(old(elems), len)
      ensures known ==> IndexedBut(elems, i, away) && Still(away)
    {
      i := from;
      var j := 2 * i + 1;
      while j <= n - 1
        invariant Valid() && len == |old(elems)| && from <= i < n && j == 2 * i + 1
        invariant Sifting(Weigh(elems[..n]), i, Entry(x, x.count), goal)
        invariant elems[n..] == old(elems[n..])
        invariant forall k :: 0 <= k < len ==> elems[k] in old(elems)
        invariant i == from ==> elems == old(elems)
        invariant Placed(old(elems), len)
        invariant known ==> IndexedBut(elems, i, away) && Still(away)
      {
        var settled;
        settled, j := DescendStep(i, n, x, track, known, away, goal);
        if settled {
          return;
        }
        i := j;
        j := 2 * i + 1;
      }
      SiftEnds(Weigh(elems[..n]), i, Entry(x, x.count), goal);
    }

    method Descend(from: nat, n: nat, x: NodeValue, track: bool, ghost known: bool, ghost away: set<NodeValue>)
      returns (i: nat)
      requires Valid() && from < n <= len
      requires known ==> track && IndexedBut(elems, from, away)
      modifies `elems, heap, (if track then elems else [])`heapIndex
      ensures Valid() && |old(elems)| == |elems| && from <= i < n
      ensures Sifting(old(Weigh(elems[..n])), from, Entry(x, x.count), Weigh(elems[..n])[i := Entry(x, x.count)])
      ensures elems[n..] == old(elems[n..])
      ensures i == from ==> elems == old(elems)
      ensures Placed(old(elems), len)
      ensures known ==> IndexedBut(elems, i, away) && Still(away)
    {
      i := DescendLoop(from, n, x, track, known, away, Sift(Weigh(elems[..n]), from, Entry(x, x.count)));
    }

    method DescendAll(from: nat, x: NodeValue, ghost known: bool, ghost away: set<NodeValue>) returns (i: nat)
      requires Valid() && from < len
      requires known ==> IndexedBut(elems, from, away)
      modifies `elems, heap, elems`heapIndex
      ensures Valid() && |old(elems)| == |elems| && from <= i < len
      ensures Sifting(old(Weigh(elems)), from, Entry(x, x.count), Weigh(elems[i := x]))
      ensures i == from ==> elems == old(elems)
      ensures Placed(old(elems), len)
      ensures known ==> IndexedBut(elems, i, away) && Still(away)
    {
      assert elems[..len] == elems;
      i := Descend(from, len, x, true, known, away);
      assert elems[..len] == elems;
      WeighPut(elems, len, i, x);
    }

    /** After the count of the element at `index` has grown. */
    method AdjustSiftdown(index: nat, ghost known: bool)
      requires Valid() && index < len
      requires known ==> Indexed(elems)
      modifies `elems, heap, elems`heapIndex
      ensures Valid() && |elems| == |old(elems)| && Placed(old(elems), len)
      ensures Sifting(old(Weigh(elems)), index, old(Weigh(elems))[index], Weigh(elems))
      ensures multiset(elems) == multiset(old(elems))
      ensures known ==> Indexed(elems)
    {
      var elem := heap[index];
      ghost var was := elems;
      var i := DescendAll(index, elem, known, {elem});
      if i != index {
        Put(i, elem, true);
      } else {
        assert elems[i := elem] == elems;
      }
      SiftedElems(was, index, elem, elems);
      assert was[index := elem] == was;
    }

    /** The hole at `from` goes down to where `x` fits, and `x` is put there. */
    method Settle(from: nat, x: NodeValue, ghost known: bool, ghost away: set<NodeValue>)
      requires Valid() && from < len
      requires known ==> IndexedBut(elems, from, away) && x in away
      modifies `elems, heap, elems`heapIndex, x`heapIndex
      ensures Valid() && |elems| == |old(elems)| && Placed(old(elems), len) && 0 <= x.heapIndex < len
      ensures Sifting(old(Weigh(elems)), from, Entry(x, x.count), Weigh(elems))
      ensures known ==> Indexed(elems) && Still(away - {x})
    {
      var i := DescendAll(from, x, known, away);
      Put(i, x, true);
    }

    /** The least element makes room for `x` if `x` counts more. */
    method ReplaceLeast(x: NodeValue, ghost known: bool) returns (out: NodeValue)
      requires Valid() && len > 0
      requires known ==> Indexed(elems) && x !in elems
      modifies `elems, heap, elems`heapIndex, x`heapIndex
      ensures Valid() && |elems| == |old(elems)| && Placed(old(elems), len)
      ensures x.heapIndex == old(x.heapIndex) || 0 <= x.heapIndex < len
      ensures x.count <= old(elems)[0].count ==>
        && out == x && elems == old(elems) && x.heapIndex == old(x.heapIndex)
        && forall v :: v in elems ==> v.heapIndex == old(v.heapIndex)
      ensures x.count > old(elems)[0].count ==>
        && out == old(elems)[0]
        && Sifting(old(Weigh(elems)), 0, Entry(x, x.count), Weigh(elems))
        && multiset(elems) == multiset(old(elems)[0 := x])
        && (known ==> out.heapIndex == 0 && out !in elems)
      ensures known ==> Indexed(elems)
    {
      out := heap[0];
      if x.count <= out.count {
        return x;
      }
      ghost var was := elems;
      assert known ==> forall k :: 0 < k < |was| ==> was[k] != out;
      Settle(0, x, known, {x, out});
      SiftedElems(was, 0, x, elems);
      assert known ==> out !in was[0 := x];
      assert known ==> multiset(elems)[out] == 0;
    }

    /** Adds `x`; the loop compares parents with the slot as written, with `x` if repaired. */
    method Insert(x: NodeValue, repaired: bool, ghost known: bool) returns (i: nat)
      requires Valid() && len < MAX_HEAP_NODE_NUM
      requires known ==> Indexed(elems) && x !in elems
      modifies `elems, `len, heap, elems`heapIndex, x`heapIndex
      ensures Valid() && len == old(len) + 1 && Placed(old(elems), len) && 0 <= x.heapIndex < len
      ensures Rising(old(Weigh(elems)) + [Entry(x, x.count)], old(len), Entry(x, x.count), repaired, Weigh(elems))
      ensures i < len && elems[i] == x
      ensures multiset(elems) == multiset(old(elems) + [x])
      ensures known ==> Indexed(elems)
    {
      ghost var was := elems;
      Append(x, known);
      assert Weigh(elems) == old(Weigh(elems)) + [Entry(x, x.count)];
      i := Lift(x, repaired, known);
      RisenElems(was, x, repaired, elems);
    }

    /** The last element goes up to where it fits. */
    method Lift(x: NodeValue, repaired: bool, ghost known: bool) returns (i: nat)
      requires Valid() && len > 0 && elems[len - 1] == x
      requires known ==> IndexedBut(elems, len - 1, {x})
      modifies `elems, heap, elems`heapIndex
      ensures Valid() && len == |old(elems)| && Placed(old(elems), len) && 0 <= x.heapIndex < len
      ensures Rising(old(Weigh(elems)), len - 1, Entry(x, x.count), repaired, Weigh(elems))
      ensures i < len && elems[i] == x
      ensures known ==> Indexed(elems)
    {
      i := Ascend(x, repaired, known, RiseAs(Weigh(elems), len - 1, Entry(x, x.count), repaired));
      Put(i, x, true);
    }

    method Append(x: NodeValue, ghost known: bool)
      requires Valid() && len < MAX_HEAP_NODE_NUM
      requires known ==> Indexed(elems) && x !in elems
      modifies `elems, `len, heap, x`heapIndex
      ensures Valid() && len == old(len) + 1 && x.heapIndex == len - 1
      ensures elems == old(elems) + [x]
      ensures known ==> IndexedBut(elems, len - 1, {x})
    {
      heap[len] := x;
      x.heapIndex := len;
      len := len + 1;
      elems := elems + [x];
    }

    method AscendStep(i: nat, x: NodeValue, repaired: bool, ghost known: bool, ghost goal: seq<Entry<NodeValue>>)
      returns (settled: bool, j: nat)
      requires Valid() && 0 < i < len
      requires known ==> IndexedBut(elems, i, {x})
      requires Rising(Weigh(elems), i, Entry(x, x.count), repaired, goal)
      modifies `elems, heap, elems`heapIndex
      ensures Valid() && j < i && Placed(old(elems), len)
      ensures settled ==> elems == old(elems) && goal == Weigh(elems)[i := Entry(x, x.count)]
      ensures !settled ==>
        && elems == old(elems)[i := old(elems)[j]]
        && Rising(Weigh(elems), j, Entry(x, x.count), repaired, goal)
      ensures known ==> IndexedBut(elems, if settled then i else j, {x})
    {
      j := Parent(i);
      settled := heap[j].count <= if repaired then x.count else heap[i].count;
      if settled {
        RiseEnds(Weigh(elems), i, Entry(x, x.count), repaired, goal);
      } else {
        RiseMoves(Weigh(elems), i, Entry(x, x.count), repaired, goal);
        Put(i, heap[j], true);
        assert Weigh(elems) == old(Weigh(elems))[i := old(Weigh(elems))[j]];
      }
    }

    method Ascend(x: NodeValue, repaired: bool, ghost known: bool, ghost goal: seq<Entry<NodeValue>>) returns (i: nat)
      requires Valid() && len > 0
      requires known ==> IndexedBut(elems, len - 1, {x})
      requires Rising(Weigh(elems), len - 1, Entry(x, x.count), repaired, goal)
      modifies `elems, heap, elems`heapIndex
      ensures Valid() && |elems| == |old(elems)| && i < len && Placed(old(elems), len)
      ensures goal == Weigh(elems)[i := Entry(x, x.count)]
      ensures known ==> IndexedBut(elems, i, {x})
    {
      i := len - 1;
      while i != 0
        invariant Valid() && len == |old(elems)| && i < len
        invariant known ==> IndexedBut(elems, i, {x})
        invariant Rising(Weigh(elems), i, Entry(x, x.count), repaired, goal)
        invariant forall k :: 0 <= k < len ==> elems[k] in old(elems)
        invariant Placed(old(elems), len)
      {
        var settled, j := AscendStep(i, x, repaired, known, goal);
        if settled {
          return;
        }
        i := j;
      }
      RiseEnds(Weigh(elems), i, Entry(x, x.count), repaired, goal);
    }

    /** Takes the least element out; no element is told its new place. */
    method Delete() returns (least: NodeValue)
      requires Valid() && len > 0
      modifies `elems, `len, heap
      ensures Valid() && len == old(len) - 1 && least == old(elems)[0]
      ensures len > 0 ==> Sifting(old(Weigh(elems))[..len], 0, old(Weigh(elems))[len], Weigh(elems))
      ensures multiset(elems) == multiset(old(elems)) - multiset{least}
    {
      least := heap[0];
      len := len - 1;
      elems := elems[..len];
      ElemsLessOne(old(elems), elems);
      if len == 0 {
        return;
      }
      ghost var was := elems;
      assert Weigh(was) == old(Weigh(elems))[..len];
      var x := heap[len];
      assert elems[..len] == elems;
      DescendPart(0, len, x);
      assert elems[..len] == elems;
      SiftedElems(was, 0, x, elems);
    }

    /** The descent in the first `n` slots, with no word to the elements. */
    method DescendPart(from: nat, n: nat, x: NodeValue)
      requires Valid() && from < n <= len
      modifies `elems, heap
      ensures Valid() && |elems| == |old(elems)| && elems[n..] == old(elems[n..])
      ensures Sifting(old(Weigh(elems[..n])), from, Entry(x, x.count), Weigh(elems[..n]))
    {
      var i := Descend(from, n, x, false, false, {});
      ghost var w := Weigh(elems[..n]);
      Put(i, x, false);
      assert Weigh(elems[..n]) == w[i := Entry(x, x.count)];
    }

    method Copy() returns (copy: Heap)
      requires Valid()
      ensures fresh(copy) && fresh(copy.heap) && copy.Valid() && copy.elems == elems && copy.maxSize == maxSize
    {
      copy := new Heap(maxSize);
      for i := 0 to len
        invariant fresh(copy.heap) && copy.heap.Length == MAX_HEAP_NODE_NUM
        invariant forall k :: 0 <= k < i ==> copy.heap[k] == elems[k]
        invariant Valid() && elems == old(elems) && len == old(len)
      {
        copy.heap[i] := heap[i];
      }
      copy.len := len;
      copy.elems := elems;
    }

    /** The first of the `n` first elements changes places with the last. */
    method ExchangeEnds(n: nat) returns (elem: NodeValue)
      requires Valid() && 0 < n <= len
      modifies `elems, heap
      ensures Valid() && |elems| == |old(elems)| && elem == elems[0]
      ensures Weigh(elems) == SwapEnds(old(Weigh(elems)), n)
    {
      elem := heap[n - 1];
      heap[n - 1] := heap[0];
      heap[0] := elem;
      elems := elems[n - 1 := elems[0]][0 := elem];
    }

    /** The displaced element is sifted down. */
    method FinishRound(n: nat, elem: NodeValue, ghost w: seq<Entry<NodeValue>>, ghost goal: seq<Entry<NodeValue>>)
      requires Valid() && 2 < n <= len == |w| && Sorting(w, n, goal)
      requires Weigh(elems) == SwapEnds(w, n) && elem == elems[0]
      modifies `elems, heap
      ensures Valid() && |elems| == |old(elems)| && Sorting(Weigh(elems), n - 1, goal)
    {
      assert Weigh(elems[..n - 1]) == SwapEnds(w, n)[..n - 1];
      DescendPart(0, n - 1, elem);
      assert elems == elems[..n - 1] + elems[n - 1..];
      assert Weigh(elems) == Weigh(elems[..n - 1]) + SwapEnds(w, n)[n - 1..] by {
        assert forall k :: n - 1 <= k < len ==> elems[k] == old(elems)[k];
      }
      SortGoesOn(w, n, goal, Weigh(elems[..n - 1]));
    }

    /** Heap sort in place, greatest first if the heap was in order; no element is told its new place. */
    method Sort()
      requires Valid()
      modifies `elems, heap
      ensures Valid() && |elems| == |old(elems)|
      ensures Sorting(old(Weigh(elems)), len, Weigh(elems))
      ensures old(Ordered(Weigh(elems))) ==> Falling(Weigh(elems))
      ensures multiset(elems) == multiset(old(elems)) && multiset(Weigh(elems)) == multiset(old(Weigh(elems)))
    {
      ghost var w := Weigh(elems);
      ghost var goal := SortFrom(w, len);
      SortBegins(w);
      SortMeans(w, len, Ordered(w), goal);
      SortAll(goal);
      SameElems(old(elems), elems);
    }

    /** The loop of the sort. */
    method SortAll(ghost goal: seq<Entry<NodeValue>>)
      requires Valid() && Sorting(Weigh(elems), len, goal)
      modifies `elems, heap
      ensures Valid() && |elems| == |old(elems)| && Weigh(elems) == goal
    {
      var n := len;
      ghost var left: nat := n;
      while n > 0
        invariant Valid() && len == |old(elems)| && left == n <= len && Sorting(Weigh(elems), left, goal)
      {
        SortOnce(n, goal);
        left := if n <= 2 then 0 else n - 1;
        if n == 2 {
          break;
        }
        n := n - 1;
      }
      SortStops(Weigh(elems), left, goal);
    }

    /** A round of the sort; one or two elements are sorted by the exchange. */
    method SortOnce(n: nat, ghost goal: seq<Entry<NodeValue>>)
      requires Valid() && 0 < n <= len && Sorting(Weigh(elems), n, goal)
      modifies `elems, heap
      ensures Valid() && |elems| == |old(elems)| && Sorting(Weigh(elems), if n <= 2 then 0 else n - 1, goal)
    {
      ghost var w := Weigh(elems);
      var elem := ExchangeEnds(n);
      if n > 2 {
        FinishRound(n, elem, w, goal);
      } else {
        SortStops(w, n, goal);
      }
    }
  }
}
