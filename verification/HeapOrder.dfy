/** The array heap of src/log_heap.c on sequences of weighted entries. */
module HeapOrder {
  import opened Sealing

  datatype Entry<E> = Entry(elem: E, weight: int)

  function Parent(k: nat): nat
    requires k > 0
  {
    (k - 1) / 2
  }

  /** Min-heap order. */
  predicate Ordered<E>(s: seq<Entry<E>>) {
    forall k :: 0 < k < |s| ==> s[Parent(k)].weight <= s[k].weight
  }

  /** The child a sifted element is compared with: the lighter one, the left one if equal. */
  function LightChild<E>(s: seq<Entry<E>>, i: nat): (j: nat)
    requires 2 * i + 1 < |s|
    ensures j < |s| && j > 0 && Parent(j) == i && s[j].weight <= s[2 * i + 1].weight
    ensures 2 * i + 2 < |s| ==> s[j].weight <= s[2 * i + 2].weight
  {
    var j := 2 * i + 1;
    if j < |s| - 1 && s[j].weight > s[j + 1].weight then j + 1 else j
  }

  /** The hole at `i` moves down, and `x` goes where it stops. */
  function Sift<E>(s: seq<Entry<E>>, i: nat, x: Entry<E>): (r: seq<Entry<E>>)
    requires i < |s|
    ensures |r| == |s|
    decreases |s| - i
  {
    if 2 * i + 1 >= |s| then s[i := x]
    else
      var j := LightChild(s, i);
      if x.weight <= s[j].weight then s[i := x] else Sift(s[i := s[j]], j, x)
  }

  /** Nothing moves up past an element that weighs no more, and of equal children the left one moves. */
  lemma SiftIsLazy<E>(s: seq<Entry<E>>, i: nat, x: Entry<E>)
    requires i < |s|
    ensures (forall k :: 0 < k < |s| && Parent(k) == i ==> x.weight <= s[k].weight) ==> Sift(s, i, x) == s[i := x]
    ensures 2 * i + 2 < |s| && s[2 * i + 1].weight == s[2 * i + 2].weight ==> LightChild(s, i) == 2 * i + 1
  {
  }

  /** Sifting `x` down from the hole at `i` ends in `goal`. */
  ghost predicate Sifting<E>(s: seq<Entry<E>>, i: nat, x: Entry<E>, goal: seq<Entry<E>>) {
    i < |s| == |goal| && forall u :: Ask(OfShape, u) ==> Sift(s, i, x) == goal
  }

  lemma SiftEnds<E>(s: seq<Entry<E>>, i: nat, x: Entry<E>, goal: seq<Entry<E>>)
    requires Sifting(s, i, x, goal) && (2 * i + 1 >= |s| || x.weight <= s[LightChild(s, i)].weight)
    ensures goal == s[i := x]
  {
    assert Ask(OfShape, 0);
  }

  lemma SiftMoves<E>(s: seq<Entry<E>>, i: nat, x: Entry<E>, goal: seq<Entry<E>>)
    requires Sifting(s, i, x, goal) && 2 * i + 1 < |s| && x.weight > s[LightChild(s, i)].weight
    ensures Sifting(s[i := s[LightChild(s, i)]], LightChild(s, i), x, goal)
  {
    assert Ask(OfShape, 0);
  }

  lemma {:induction false} SiftPermutes<E>(s: seq<Entry<E>>, i: nat, x: Entry<E>)
    requires i < |s|
    ensures multiset(Sift(s, i, x)) == multiset(s[i := x])
    decreases |s| - i
  {
    if 2 * i + 1 < |s| {
      var j := LightChild(s, i);
      if x.weight > s[j].weight {
        SiftPermutes(s[i := s[j]], j, x);
        assert s[i := s[j]][j := x] == s[i := x][i := s[j]][j := x];
      }
    }
  }

  /** Ordered but for the hole at `i`, which `x` may fill as far as its parent goes. */
  predicate OrderedBut<E>(s: seq<Entry<E>>, i: nat, x: Entry<E>)
    requires i < |s|
  {
    && (forall k :: 0 < k < |s| && k != i && Parent(k) != i ==> s[Parent(k)].weight <= s[k].weight)
    && (i > 0 ==> s[Parent(i)].weight <= x.weight)
    && (forall k :: 0 < k < |s| && Parent(k) == i && i > 0 ==> s[Parent(i)].weight <= s[k].weight)
  }

  lemma SiftStepOrders<E>(s: seq<Entry<E>>, i: nat, x: Entry<E>)
    requires i < |s| && OrderedBut(s, i, x) && 2 * i + 1 < |s| && x.weight > s[LightChild(s, i)].weight
    ensures OrderedBut(s[i := s[LightChild(s, i)]], LightChild(s, i), x)
  {
    var j := LightChild(s, i);
    var r := s[i := s[j]];
    forall k | 0 < k < |r| && Parent(k) == i
      ensures k != j ==> r[i].weight <= r[k].weight
    {
      assert k == 2 * i + 1 || k == 2 * i + 2;
    }
    forall k | 0 < k < |r| && Parent(k) == j
      ensures r[i].weight <= r[k].weight
    {
      assert s[j].weight <= s[k].weight;
    }
  }

  lemma {:induction false} SiftOrders<E>(s: seq<Entry<E>>, i: nat, x: Entry<E>)
    requires i < |s| && OrderedBut(s, i, x)
    ensures Ordered(Sift(s, i, x))
    decreases |s| - i
  {
    if 2 * i + 1 < |s| {
      var j := LightChild(s, i);
      if x.weight > s[j].weight {
        SiftStepOrders(s, i, x);
        SiftOrders(s[i := s[j]], j, x);
      }
    }
  }

  // ---------- insertion ----------

  /** The insertion loop as written: the parent is compared with what the slot holds. */
  function Rise<E>(s: seq<Entry<E>>, i: nat, x: Entry<E>): (r: seq<Entry<E>>)
    requires i < |s|
    ensures |r| == |s|
    decreases i
  {
    if i == 0 || s[Parent(i)].weight <= s[i].weight then s[i := x]
    else Rise(s[i := s[Parent(i)]], Parent(i), x)
  }

  /** The insertion loop repaired: the parent is compared with the new element. */
  function RiseRepaired<E>(s: seq<Entry<E>>, i: nat, x: Entry<E>): (r: seq<Entry<E>>)
    requires i < |s|
    ensures |r| == |s|
    decreases i
  {
    if i == 0 || s[Parent(i)].weight <= x.weight then s[i := x]
    else RiseRepaired(s[i := s[Parent(i)]], Parent(i), x)
  }

  function RiseAs<E>(s: seq<Entry<E>>, i: nat, x: Entry<E>, repaired: bool): (r: seq<Entry<E>>)
    requires i < |s|
    ensures |r| == |s|
  {
    if repaired then RiseRepaired(s, i, x) else Rise(s, i, x)
  }

  /** Letting `x` rise from the hole at `i` ends in `goal`. */
  ghost predicate Rising<E>(s: seq<Entry<E>>, i: nat, x: Entry<E>, repaired: bool, goal: seq<Entry<E>>) {
    i < |s| == |goal| && forall u :: Ask(OfShape, u) ==> RiseAs(s, i, x, repaired) == goal
  }

  /** Whether the loop stops at `i`. */
  predicate Rests<E>(s: seq<Entry<E>>, i: nat, x: Entry<E>, repaired: bool)
    requires i < |s|
  {
    i == 0 || s[Parent(i)].weight <= if repaired then x.weight else s[i].weight
  }

  lemma RiseEnds<E>(s: seq<Entry<E>>, i: nat, x: Entry<E>, repaired: bool, goal: seq<Entry<E>>)
    requires Rising(s, i, x, repaired, goal) && Rests(s, i, x, repaired)
    ensures goal == s[i := x]
  {
    assert Ask(OfShape, 0);
  }

  lemma RiseMoves<E>(s: seq<Entry<E>>, i: nat, x: Entry<E>, repaired: bool, goal: seq<Entry<E>>)
    requires Rising(s, i, x, repaired, goal) && !Rests(s, i, x, repaired)
    ensures Rising(s[i := s[Parent(i)]], Parent(i), x, repaired, goal)
  {
    assert Ask(OfShape, 0);
  }

  lemma {:induction false} RisePermutes<E>(s: seq<Entry<E>>, i: nat, x: Entry<E>)
    requires i < |s|
    ensures multiset(Rise(s, i, x)) == multiset(s[i := x])
    decreases i
  {
    if i > 0 && s[Parent(i)].weight > s[i].weight {
      RisePermutes(s[i := s[Parent(i)]], Parent(i), x);
      assert s[i := s[Parent(i)]][Parent(i) := x] == s[i := x][i := s[Parent(i)]][Parent(i) := x];
    }
  }

  lemma {:induction false} RiseRepairedPermutes<E>(s: seq<Entry<E>>, i: nat, x: Entry<E>)
    requires i < |s|
    ensures multiset(RiseRepaired(s, i, x)) == multiset(s[i := x])
    decreases i
  {
    if i > 0 && s[Parent(i)].weight > x.weight {
      RiseRepairedPermutes(s[i := s[Parent(i)]], Parent(i), x);
      assert s[i := s[Parent(i)]][Parent(i) := x] == s[i := x][i := s[Parent(i)]][Parent(i) := x];
    }
  }

  /** As written, a new element rises at most one level. */
  lemma RiseIsShallow<E>(s: seq<Entry<E>>, x: Entry<E>)
    requires Ordered(s)
    ensures var n := |s|;
      Rise(s + [x], n, x) ==
        if n == 0 || s[Parent(n)].weight <= x.weight then s + [x]
        else s[Parent(n) := x] + [s[Parent(n)]]
  {
    var n, t := |s|, s + [x];
    if n > 0 && s[Parent(n)].weight > x.weight {
      var j := Parent(n);
      var t1 := t[n := t[j]];
      assert t1[j] == s[j];
      if j > 0 {
        assert t1[Parent(j)] == s[Parent(j)];
      }
      assert Rise(t, n, x) == Rise(t1, j, x) == t1[j := x];
      assert t1[j := x] == s[j := x] + [s[j]];
    }
  }

  /** A new element of weight `c` may stay where the insertion as written leaves it. */
  predicate RiseSuffices<E>(s: seq<Entry<E>>, c: int) {
    var n := |s|;
    || n == 0
    || Parent(n) == 0
    || s[Parent(n)].weight <= c
    || s[Parent(Parent(n))].weight <= c
  }

  lemma MovedUpOrderIff<E>(s: seq<Entry<E>>, j: nat, x: Entry<E>, r: seq<Entry<E>>)
    requires Ordered(s) && s != [] && j == Parent(|s|) && s[j].weight > x.weight && r == s[j := x] + [s[j]]
    ensures Ordered(r) <==> RiseSuffices(s, x.weight)
  {
    assert j > 0 ==> r[Parent(j)] == s[Parent(j)] && r[j] == x;
    if j == 0 || s[Parent(j)].weight <= x.weight {
      forall k | 0 < k < |r| ensures r[Parent(k)].weight <= r[k].weight {
        if k < |s| && k != j {
          assert s[Parent(k)].weight <= s[k].weight;
        }
      }
    }
  }

  lemma StayedKeepsOrder<E>(s: seq<Entry<E>>, x: Entry<E>, r: seq<Entry<E>>)
    requires Ordered(s) && r == s + [x] && (s == [] || s[Parent(|s|)].weight <= x.weight)
    ensures Ordered(r) && RiseSuffices(s, x.weight)
  {
    assert forall k :: 0 < k < |s| ==> r[Parent(k)] == s[Parent(k)];
  }

  /** The insertion as written keeps the order exactly when one level is enough. */
  lemma RiseKeepsOrderIff<E>(s: seq<Entry<E>>, x: Entry<E>)
    requires Ordered(s)
    ensures Ordered(Rise(s + [x], |s|, x)) <==> RiseSuffices(s, x.weight)
  {
    RiseIsShallow(s, x);
    if s != [] && s[Parent(|s|)].weight > x.weight {
      var j := Parent(|s|);
      MovedUpOrderIff(s, j, x, s[j := x] + [s[j]]);
    } else {
      StayedKeepsOrder(s, x, s + [x]);
    }
  }

  /** Three elements of weight 2 and then one of weight 1: the order is lost. */
  lemma RiseLosesOrder()
    ensures var s := [Entry('a', 2), Entry('b', 2), Entry('c', 2)];
      Ordered(s) && !Ordered(Rise(s + [Entry('d', 1)], 3, Entry('d', 1)))
  {
    var s := [Entry('a', 2), Entry('b', 2), Entry('c', 2)];
    RiseKeepsOrderIff(s, Entry('d', 1));
  }

  /** Ordered but for `i`, where something light is on its way up. */
  predicate OrderedAbove<E>(s: seq<Entry<E>>, i: nat, x: Entry<E>)
    requires i < |s|
  {
    && (forall k :: 0 < k < |s| && k != i && Parent(k) != i ==> s[Parent(k)].weight <= s[k].weight)
    && (forall k :: 0 < k < |s| && Parent(k) == i ==> x.weight <= s[k].weight)
    && (forall k :: 0 < k < |s| && Parent(k) == i && i > 0 ==> s[Parent(i)].weight <= s[k].weight)
  }

  lemma {:induction false} RiseRepairedOrders<E>(s: seq<Entry<E>>, i: nat, x: Entry<E>)
    requires i < |s| && OrderedAbove(s, i, x)
    ensures Ordered(RiseRepaired(s, i, x))
    decreases i
  {
    if i > 0 && s[Parent(i)].weight > x.weight {
      RiseRepairedOrders(s[i := s[Parent(i)]], Parent(i), x);
    }
  }

  lemma {:induction false} RootIsLeast<E>(s: seq<Entry<E>>, k: nat)
    requires Ordered(s) && k < |s|
    ensures s[0].weight <= s[k].weight
    decreases k
  {
    if k > 0 {
      RootIsLeast(s, Parent(k));
    }
  }

  /** The least of a heap grows with the elements. */
  lemma LeastGrows<E>(w: seq<Entry<E>>, w1: seq<Entry<E>>, w2: seq<Entry<E>>)
    requires Ordered(w) && |w1| == |w| > 0 && forall k :: 0 <= k < |w| ==> w1[k].weight >= w[k].weight
    requires multiset(w2) == multiset(w1)
    ensures |w2| == |w| && w2[0].weight >= w[0].weight
  {
    assert |w2| == |multiset(w2)| == |w1|;
    assert w2[0] in multiset(w1);
    var k :| 0 <= k < |w1| && w1[k] == w2[0];
    RootIsLeast(w, k);
  }

  // ---------- sorting ----------

  predicate Falling<E>(s: seq<Entry<E>>) {
    forall i, j :: 0 <= i < j < |s| ==> s[i].weight >= s[j].weight
  }

  /** A heap in the first `n` slots, and behind it, already in place, what weighs no more. */
  predicate Halved<E>(s: seq<Entry<E>>, n: nat)
    requires n <= |s|
  {
    && (forall k :: 0 < k < n ==> s[Parent(k)].weight <= s[k].weight)
    && (forall i, j :: n <= i < j < |s| ==> s[i].weight >= s[j].weight)
    && forall i, j :: 0 <= i < n <= j < |s| ==> s[i].weight >= s[j].weight
  }

  /** So far the sort of a heap that was in order at first, if `ord`. */
  ghost predicate HalfSorted<E>(s: seq<Entry<E>>, n: nat, ord: bool) {
    n <= |s| && forall u :: Ask(OfShape, u) && ord ==> Halved(s, n)
  }

  lemma SortBegins<E>(s: seq<Entry<E>>)
    ensures HalfSorted(s, |s|, Ordered(s))
  {
  }

  lemma SortEnds<E>(s: seq<Entry<E>>, n: nat, ord: bool)
    requires HalfSorted(s, n, ord) && n <= 1
    ensures ord ==> Falling(s)
  {
    assert Ask(OfShape, 0);
  }

  function SwapEnds<E>(s: seq<Entry<E>>, n: nat): (r: seq<Entry<E>>)
    requires 0 < n <= |s|
    ensures |r| == |s|
  {
    s[n - 1 := s[0]][0 := s[n - 1]]
  }

  lemma SwapPutsLeastBehind<E>(s: seq<Entry<E>>, n: nat)
    requires 0 < n <= |s| && HalfSorted(s, n, true)
    ensures var t := SwapEnds(s, n);
      && (forall i, j :: n - 1 <= i < j < |s| ==> t[i].weight >= t[j].weight)
      && (forall i, j :: 0 <= i < n - 1 <= j < |s| ==> t[i].weight >= t[j].weight)
      && (n > 1 ==> OrderedBut(t[..n - 1], 0, t[0]))
      && multiset(t) == multiset(s)
  {
    assert Ask(OfShape, 0);
    var t := SwapEnds(s, n);
    forall k | 0 <= k < n ensures s[0].weight <= s[k].weight {
      assert Ordered(s[..n]);
      RootIsLeast(s[..n], k);
    }
    if n > 1 {
      assert forall k :: 0 < k < n - 1 ==> t[k] == s[k];
    }
  }

  /** With one or two elements left, the exchange ends the sort. */
  lemma LastRound<E>(s: seq<Entry<E>>, n: nat, ord: bool)
    requires 0 < n <= |s| && HalfSorted(s, n, ord)
    ensures multiset(SwapEnds(s, n)) == multiset(s)
    ensures n <= 2 ==> HalfSorted(SwapEnds(s, n), n - 1, ord)
  {
    if ord {
      SwapPutsLeastBehind(s, n);
    }
  }

  /** One round of the sort: the least goes behind, the element it displaced is sifted down. */
  lemma SortRound<E>(s: seq<Entry<E>>, n: nat, g: seq<Entry<E>>, ord: bool)
    requires 1 < n <= |s| && HalfSorted(s, n, ord)
    requires Sifting(SwapEnds(s, n)[..n - 1], 0, SwapEnds(s, n)[0], g)
    ensures HalfSorted(g + SwapEnds(s, n)[n - 1..], n - 1, ord)
    ensures multiset(g + SwapEnds(s, n)[n - 1..]) == multiset(s)
  {
    var t := SwapEnds(s, n);
    var p := t[..n - 1];
    SiftedPrefix(p, g);
    LastRound(s, n, ord);
    assert multiset(g + t[n - 1..]) == multiset(s) by {
      assert t == p + t[n - 1..];
    }
    if ord {
      SwapPutsLeastBehind(s, n);
      JoinHalves(p, g, t[n - 1..]);
    }
  }

  lemma SiftedPrefix<E>(p: seq<Entry<E>>, g: seq<Entry<E>>)
    requires p != [] && Sifting(p, 0, p[0], g)
    ensures multiset(g) == multiset(p) && (OrderedBut(p, 0, p[0]) ==> Ordered(g))
  {
    assert Ask(OfShape, 0);
    if OrderedBut(p, 0, p[0]) {
      SiftOrders(p, 0, p[0]);
    }
    SiftPermutes(p, 0, p[0]);
    assert p[0 := p[0]] == p;
  }

  lemma JoinHalves<E>(p: seq<Entry<E>>, g: seq<Entry<E>>, q: seq<Entry<E>>)
    requires Ordered(g) && multiset(g) == multiset(p) && |g| == |p|
    requires Falling(q) && forall i, j :: 0 <= i < |p| && 0 <= j < |q| ==> p[i].weight >= q[j].weight
    ensures HalfSorted(g + q, |g|, true)
  {
    forall i | 0 <= i < |g| ensures g[i] in p {
      assert g[i] in multiset(g);
    }
  }

  /** One round of the sort. */
  function Round<E>(s: seq<Entry<E>>, n: nat): (r: seq<Entry<E>>)
    requires 1 < n <= |s|
    ensures |r| == |s|
  {
    Sift(SwapEnds(s, n)[..n - 1], 0, SwapEnds(s, n)[0]) + SwapEnds(s, n)[n - 1..]
  }

  /** What the sort makes of the first `n` elements: round after round, and the last one ends with the exchange. */
  function SortFrom<E>(s: seq<Entry<E>>, n: nat): (r: seq<Entry<E>>)
    requires n <= |s|
    ensures |r| == |s|
    decreases n
  {
    if n == 0 then s else if n <= 2 then SwapEnds(s, n) else SortFrom(Round(s, n), n - 1)
  }

  /** Sorting the first `n` elements ends in `goal`. */
  ghost predicate Sorting<E>(s: seq<Entry<E>>, n: nat, goal: seq<Entry<E>>) {
    n <= |s| == |goal| && forall u :: Ask(OfShape, u) ==> SortFrom(s, n) == goal
  }

  lemma SortStops<E>(s: seq<Entry<E>>, n: nat, goal: seq<Entry<E>>)
    requires Sorting(s, n, goal) && n <= 2
    ensures goal == if n == 0 then s else SwapEnds(s, n)
  {
    assert Ask(OfShape, 0);
  }

  lemma SortGoesOn<E>(s: seq<Entry<E>>, n: nat, goal: seq<Entry<E>>, g: seq<Entry<E>>)
    requires Sorting(s, n, goal) && n > 2 && Sifting(SwapEnds(s, n)[..n - 1], 0, SwapEnds(s, n)[0], g)
    ensures Sorting(g + SwapEnds(s, n)[n - 1..], n - 1, goal)
  {
    assert Ask(OfShape, 0);
  }

  /** The sort permutes, and what was a heap in front of what weighs no more ends in falling order. */
  lemma {:induction false} SortMeans<E>(s: seq<Entry<E>>, n: nat, ord: bool, goal: seq<Entry<E>>)
    requires Sorting(s, n, goal) && HalfSorted(s, n, ord)
    ensures multiset(goal) == multiset(s) && (ord ==> Falling(goal))
    decreases n
  {
    if n == 0 {
      SortStops(s, n, goal);
      SortEnds(s, n, ord);
    } else if n <= 2 {
      SortStops(s, n, goal);
      LastRound(s, n, ord);
      SortEnds(goal, n - 1, ord);
    } else {
      var next := SortStep(s, n, ord, goal);
      SortMeans(next, n - 1, ord, goal);
    }
  }

  lemma SortStep<E>(s: seq<Entry<E>>, n: nat, ord: bool, goal: seq<Entry<E>>) returns (next: seq<Entry<E>>)
    requires Sorting(s, n, goal) && HalfSorted(s, n, ord) && n > 2
    ensures Sorting(next, n - 1, goal) && HalfSorted(next, n - 1, ord) && multiset(next) == multiset(s)
  {
    var p, e := SwapEnds(s, n)[..n - 1], SwapEnds(s, n)[0];
    var g := Sift(p, 0, e);
    SortRound(s, n, g, ord);
    SortGoesOn(s, n, goal, g);
    next := g + SwapEnds(s, n)[n - 1..];
  }

  /** The four elements that an insertion as written has left out of order: the lightest ends third. */
  lemma SortGoesWrong<E>(x: Entry<E>, d: Entry<E>, z: Entry<E>, y: Entry<E>, goal: seq<Entry<E>>)
    requires x.weight == y.weight == z.weight > d.weight && Sorting([x, d, z, y], 4, goal)
    ensures goal == [y, z, d, x]
  {
    assert Sift([y, d, z], 0, y) == [d, y, z];
    SortGoesOn([x, d, z, y], 4, goal, [d, y, z]);
    assert [d, y, z] + SwapEnds([x, d, z, y], 4)[3..] == [d, y, z, x];
    assert Sift([z, y], 0, z) == [z, y];
    SortGoesOn([d, y, z, x], 3, goal, [z, y]);
    assert [z, y] + SwapEnds([d, y, z, x], 3)[2..] == [z, y, d, x];
    SortStops([z, y, d, x], 2, goal);
  }
}
