/** Which of the counted names stand in the heap, on snapshots: `vals` the records by name,
    `counts` their counts, `w` the heap with its weights, `n` the number of names. */
module TopRank {
  import opened CountHeap
  import opened HeapOrder
  import opened Sealing

  const TOP := 1000

  function Min(a: int, b: int): (m: int)
    ensures m <= a && m <= b && (m == a || m == b)
  {
    if a < b then a else b
  }

  predicate Holds(w: seq<Entry<NodeValue>>, v: NodeValue) {
    exists k :: 0 <= k < |w| && w[k].elem == v
  }

  /** The heap holds records only, as many as there are up to TOP, and while there are no more
      than TOP all of them. Of `x`, a record not yet placed, nothing is said. */
  predicate Members(vals: map<string, NodeValue>, w: seq<Entry<NodeValue>>, n: nat, x: NodeValue?) {
    && (forall k :: 0 <= k < |w| ==> w[k].elem.fqdn in vals && vals[w[k].elem.fqdn] == w[k].elem)
    && |w| == Min(TOP, if x == null || Holds(w, x) then n else n - 1)
    && forall s :: s in vals && vals[s] != x && !Holds(w, vals[s]) ==> n > TOP
  }

  /** The heap is in order, shows the counts, and nobody outside counts more than its least. */
  predicate Leads(vals: map<string, NodeValue>, counts: map<string, nat>, w: seq<Entry<NodeValue>>, x: NodeValue?) {
    && Ordered(w) && counts.Keys == vals.Keys
    && (forall k :: 0 <= k < |w| ==> w[k].elem.fqdn in counts && w[k].weight == counts[w[k].elem.fqdn])
    && forall s :: s in vals && vals[s] != x && !Holds(w, vals[s]) ==> |w| > 0 && counts[s] <= w[0].weight
  }

  lemma HoldsPut(w: seq<Entry<NodeValue>>, i: nat, e: Entry<NodeValue>, v: NodeValue)
    requires i < |w|
    ensures Holds(w[i := e], e.elem)
    ensures Holds(w, v) ==> Holds(w[i := e], v) || w[i].elem == v
  {
    assert w[i := e][i].elem == e.elem;
    if Holds(w, v) && w[i].elem != v {
      var k :| 0 <= k < |w| && w[k].elem == v;
      assert w[i := e][k].elem == v;
    }
  }

  lemma HoldsAppend(w: seq<Entry<NodeValue>>, e: Entry<NodeValue>, v: NodeValue)
    ensures Holds(w + [e], e.elem)
    ensures Holds(w, v) ==> Holds(w + [e], v)
  {
    assert (w + [e])[|w|].elem == e.elem;
    if Holds(w, v) {
      var k :| 0 <= k < |w| && w[k].elem == v;
      assert (w + [e])[k].elem == v;
    }
  }

  lemma HoldsSame(w: seq<Entry<NodeValue>>, w': seq<Entry<NodeValue>>, v: NodeValue)
    requires multiset(w) == multiset(w')
    ensures Holds(w, v) <==> Holds(w', v)
  {
    if Holds(w, v) {
      var k :| 0 <= k < |w| && w[k].elem == v;
      assert w[k] in multiset(w');
    }
    if Holds(w', v) {
      var k :| 0 <= k < |w'| && w'[k].elem == v;
      assert w'[k] in multiset(w);
    }
  }

  lemma MembersSame(vals: map<string, NodeValue>, w: seq<Entry<NodeValue>>, w': seq<Entry<NodeValue>>, n: nat,
                    x: NodeValue?)
    requires Members(vals, w, n, x) && multiset(w) == multiset(w')
    ensures Members(vals, w', n, x)
  {
    assert |w| == |multiset(w)| == |w'|;
    forall k | 0 <= k < |w'|
      ensures w'[k].elem.fqdn in vals && vals[w'[k].elem.fqdn] == w'[k].elem
    {
      assert w'[k] in multiset(w);
    }
    if x != null { HoldsSame(w, w', x); }
    forall s | s in vals && vals[s] != x && !Holds(w', vals[s]) ensures n > TOP {
      HoldsSame(w, w', vals[s]);
    }
  }

  lemma LeadsSame(vals: map<string, NodeValue>, counts: map<string, nat>, w: seq<Entry<NodeValue>>,
                  w': seq<Entry<NodeValue>>, x: NodeValue?)
    requires counts.Keys == vals.Keys && multiset(w) == multiset(w') && Ordered(w')
    requires forall k :: 0 <= k < |w| ==> w[k].elem.fqdn in counts && w[k].weight == counts[w[k].elem.fqdn]
    requires forall s :: s in vals && vals[s] != x && !Holds(w, vals[s]) ==>
      forall k :: 0 <= k < |w| ==> counts[s] <= w[k].weight
    requires |w| > 0
    ensures Leads(vals, counts, w', x)
  {
    assert |w| == |multiset(w)| == |w'|;
    forall k | 0 <= k < |w'|
      ensures w'[k].elem.fqdn in counts && w'[k].weight == counts[w'[k].elem.fqdn]
    {
      assert w'[k] in multiset(w);
    }
    assert w'[0] in multiset(w);
    forall s | s in vals && vals[s] != x && !Holds(w', vals[s]) ensures counts[s] <= w'[0].weight {
      HoldsSame(w, w', vals[s]);
    }
  }

  // ---------- a record in the heap counts one more ----------

  lemma GrownIsOrderedBut(w: seq<Entry<NodeValue>>, i: nat, e: Entry<NodeValue>)
    requires Ordered(w) && i < |w| && w[i].weight <= e.weight
    ensures OrderedBut(w[i := e], i, e)
  {
    forall k | 0 < k < |w| && Parent(k) == i && i > 0 ensures w[Parent(i)].weight <= w[k].weight {
      assert w[Parent(i)].weight <= w[i].weight <= w[k].weight;
    }
  }

  /** Whoever is outside counts no more than any entry, the grown one included. */
  lemma GrownAbove(vals: map<string, NodeValue>, counts: map<string, nat>, w: seq<Entry<NodeValue>>, i: nat,
                   e: Entry<NodeValue>,
                   s: string, k: nat)
    requires Leads(vals, counts, w, null) && i < |w| && k < |w| && e.elem == w[i].elem && w[i].weight <= e.weight
    requires s in vals && !Holds(w[i := e], vals[s])
    ensures counts[s] <= w[i := e][k].weight && vals[s] != e.elem
  {
    HoldsPut(w, i, e, vals[s]);
    RootIsLeast(w, k);
  }

  lemma GrownLeads(vals: map<string, NodeValue>, counts: map<string, nat>, w: seq<Entry<NodeValue>>, i: nat,
                   w': seq<Entry<NodeValue>>)
    requires Leads(vals, counts, w, null) && i < |w|
    requires forall j, k :: 0 <= j < k < |w| ==> w[j].elem.fqdn != w[k].elem.fqdn
    requires var e := Entry(w[i].elem, w[i].weight + 1); Sifting(w[i := e], i, e, w')
    requires vals[w[i].elem.fqdn] == w[i].elem && forall s :: s in vals ==> vals[s].fqdn == s
    ensures Leads(vals, counts[w[i].elem.fqdn := counts[w[i].elem.fqdn] + 1], w', null)
  {
    var e := Entry(w[i].elem, w[i].weight + 1);
    var w1, name := w[i := e], e.elem.fqdn;
    var counts' := counts[name := counts[name] + 1];
    GrownSifts(w, i, e, w');
    forall s, k | s in vals && !Holds(w1, vals[s]) && 0 <= k < |w| ensures counts'[s] <= w1[k].weight {
      GrownAbove(vals, counts, w, i, e, s, k);
    }
    LeadsSame(vals, counts', w1, w', null);
  }

  lemma GrownSifts(w: seq<Entry<NodeValue>>, i: nat, e: Entry<NodeValue>, w': seq<Entry<NodeValue>>)
    requires Ordered(w) && i < |w| && w[i].weight <= e.weight && Sifting(w[i := e], i, e, w')
    ensures multiset(w[i := e]) == multiset(w') && Ordered(w')
  {
    var w1 := w[i := e];
    assert Ask(OfShape, 0);
    SiftPermutes(w1, i, e);
    assert w1[i := e] == w1;
    GrownIsOrderedBut(w, i, e);
    SiftOrders(w1, i, e);
  }

  // ---------- a record outside the heap counts one more ----------

  lemma StaysOut(vals: map<string, NodeValue>, counts: map<string, nat>, w: seq<Entry<NodeValue>>, n: nat, x: NodeValue)
    requires Members(vals, w, n, x) && Leads(vals, counts, w, x) && !Holds(w, x) && |w| == TOP
    requires x.fqdn in vals && vals[x.fqdn] == x && counts[x.fqdn] <= w[0].weight
    requires forall s :: s in vals ==> vals[s].fqdn == s
    ensures Members(vals, w, n, null) && Leads(vals, counts, w, null)
  {
  }

  lemma {:induction false} MovesInMembers(vals: map<string, NodeValue>, w: seq<Entry<NodeValue>>, n: nat,
                       x: Entry<NodeValue>, w': seq<Entry<NodeValue>>)
    requires Members(vals, w, n, x.elem) && !Holds(w, x.elem) && |w| == TOP
    requires x.elem.fqdn in vals && vals[x.elem.fqdn] == x.elem
    requires Sifting(w, 0, x, w')
    ensures Members(vals, w', n, null)
  {
    assert Ask(OfShape, 0);
    SiftPermutes(w, 0, x);
    MembersSame(vals, w[0 := x], w', n, null);
  }

  lemma MovesInLeads(vals: map<string, NodeValue>, counts: map<string, nat>, w: seq<Entry<NodeValue>>,
                     x: Entry<NodeValue>, w': seq<Entry<NodeValue>>)
    requires Leads(vals, counts, w, x.elem) && !Holds(w, x.elem) && |w| > 0 && x.weight > w[0].weight
    requires x.elem.fqdn in vals && vals[x.elem.fqdn] == x.elem && counts[x.elem.fqdn] == x.weight
    requires forall s :: s in vals ==> vals[s].fqdn == s
    requires Sifting(w, 0, x, w')
    ensures Leads(vals, counts, w', null)
  {
    var w1 := w[0 := x];
    assert Ask(OfShape, 0);
    SiftPermutes(w, 0, x);
    SiftOrders(w, 0, x);
    forall s, k | s in vals && !Holds(w1, vals[s]) && 0 <= k < |w| ensures counts[s] <= w1[k].weight {
      RootIsLeast(w, k);
      HoldsPut(w, 0, x, vals[s]);
    }
    LeadsSame(vals, counts, w1, w', null);
  }

  lemma JoinsMembers(vals: map<string, NodeValue>, w: seq<Entry<NodeValue>>, n: nat,
                     x: Entry<NodeValue>, repaired: bool, w': seq<Entry<NodeValue>>)
    requires Members(vals, w, n, x.elem) && !Holds(w, x.elem) && |w| < TOP
    requires x.elem.fqdn in vals && vals[x.elem.fqdn] == x.elem
    requires Rising(w + [x], |w|, x, repaired, w')
    ensures Members(vals, w', n, null)
  {
    var w1 := w + [x];
    assert Ask(OfShape, 0);
    RisePermutes(w1, |w|, x);
    RiseRepairedPermutes(w1, |w|, x);
    assert w1[|w| := x] == w1;
    HoldsAppend(w, x, x.elem);
    forall s | s in vals ensures Holds(w1, vals[s]) {
      HoldsAppend(w, x, vals[s]);
    }
    MembersSame(vals, w1, w', n, null);
  }

  lemma JoinsLeads(vals: map<string, NodeValue>, counts: map<string, nat>, w: seq<Entry<NodeValue>>, n: nat,
                   x: Entry<NodeValue>, w': seq<Entry<NodeValue>>)
    requires Members(vals, w, n, x.elem) && Leads(vals, counts, w, x.elem) && !Holds(w, x.elem) && |w| < TOP
    requires x.elem.fqdn in vals && vals[x.elem.fqdn] == x.elem && counts[x.elem.fqdn] == x.weight
    requires forall s :: s in vals ==> vals[s].fqdn == s
    requires Rising(w + [x], |w|, x, true, w')
    ensures Leads(vals, counts, w', null)
  {
    var w1 := w + [x];
    assert Ask(OfShape, 0);
    RiseRepairedPermutes(w1, |w|, x);
    RiseRepairedOrders(w1, |w|, x);
    assert w1[|w| := x] == w1;
    HoldsAppend(w, x, x.elem);
    forall s | s in vals ensures Holds(w1, vals[s]) {
      HoldsAppend(w, x, vals[s]);
    }
    LeadsSame(vals, counts, w1, w', null);
  }

  // ---------- one count more, as a step from heap to heap ----------

  /** The heap once the record `x`, which believes to be at `idx`, counts `c`. */
  function Bumped(w: seq<Entry<NodeValue>>, idx: int, x: NodeValue, c: nat): (r: seq<Entry<NodeValue>>)
    ensures |r| == |w|
  {
    if 0 <= idx < |w| && w[idx].elem == x then w[idx := Entry(x, c)] else w
  }

  /** `x` counts `c` now; what becomes of the heap `w`. A slot that `x` left long ago is
      sifted all the same. */
  ghost predicate Counted(w: seq<Entry<NodeValue>>, idx: int, x: NodeValue, c: nat, repaired: bool,
                          w': seq<Entry<NodeValue>>)
  {
    forall u :: Ask(OfCounting, u) ==> CountStep(w, idx, x, c, repaired, w')
  }

  ghost predicate CountStep(w: seq<Entry<NodeValue>>, idx: int, x: NodeValue, c: nat, repaired: bool,
                            w': seq<Entry<NodeValue>>)
  {
    var w1 := Bumped(w, idx, x, c);
    if idx != -1 then 0 <= idx < |w| && Sifting(w1, idx, w1[idx], w')
    else if |w| < TOP then Rising(w + [Entry(x, c)], |w|, Entry(x, c), repaired, w')
    else if w[0].weight < c then Sifting(w, 0, Entry(x, c), w')
    else w' == w
  }

  /** No record is in the heap twice. */
  predicate Separate(w: seq<Entry<NodeValue>>) {
    forall j, k :: 0 <= j < k < |w| ==> w[j].elem != w[k].elem
  }

  /** Nor is `x` in it only where it believes to be. */
  predicate Apart(w: seq<Entry<NodeValue>>, idx: int, x: NodeValue) {
    && (forall k :: 0 <= k < |w| && k != idx ==> w[k].elem != x)
    && Separate(w)
  }

  lemma MembersOut(vals: map<string, NodeValue>, w: seq<Entry<NodeValue>>, n: nat, x: NodeValue)
    requires Members(vals, w, n, null) && x.fqdn in vals && vals[x.fqdn] == x
    ensures Members(vals, w, n, x)
  {
  }

  lemma CountedMembers(vals: map<string, NodeValue>, w: seq<Entry<NodeValue>>, n: nat, idx: int, x: NodeValue, c: nat,
                       repaired: bool, w': seq<Entry<NodeValue>>)
    requires Members(vals, w, n, x) && (idx != -1 ==> Members(vals, w, n, null))
    requires x.fqdn in vals && vals[x.fqdn] == x && Apart(w, idx, x)
    requires CountStep(w, idx, x, c, repaired, w')
    ensures Members(vals, w', n, null)
  {
    var w1 := Bumped(w, idx, x, c);
    if idx != -1 {
      BumpedMembers(vals, w, n, idx, x, c);
      assert Ask(OfShape, 0);
      SiftPermutes(w1, idx, w1[idx]);
      assert w1[idx := w1[idx]] == w1;
      MembersSame(vals, w1, w', n, null);
    } else if |w| < TOP {
      JoinsMembers(vals, w, n, Entry(x, c), repaired, w');
    } else if w[0].weight < c {
      MovesInMembers(vals, w, n, Entry(x, c), w');
    }
  }

  lemma BumpedMembers(vals: map<string, NodeValue>, w: seq<Entry<NodeValue>>, n: nat, idx: int, x: NodeValue, c: nat)
    requires Members(vals, w, n, null)
    ensures Members(vals, Bumped(w, idx, x, c), n, null)
  {
    if 0 <= idx < |w| && w[idx].elem == x {
      forall s | s in vals ensures Holds(w, vals[s]) ==> Holds(Bumped(w, idx, x, c), vals[s]) {
        HoldsPut(w, idx, Entry(x, c), vals[s]);
      }
    }
  }

  /** With the repairs the heap goes on leading. */
  lemma CountedLeads(vals: map<string, NodeValue>, counts: map<string, nat>, w: seq<Entry<NodeValue>>, n: nat, idx: int,
                     x: NodeValue, c: nat, w': seq<Entry<NodeValue>>)
    requires Members(vals, w, n, x) && Leads(vals, counts, w, x)
    requires idx != -1 ==> Leads(vals, counts, w, null) && Holds(w, x)
    requires x.fqdn in vals && vals[x.fqdn] == x && Apart(w, idx, x) && counts[x.fqdn] + 1 == c
    requires forall s :: s in vals ==> vals[s].fqdn == s
    requires CountStep(w, idx, x, c, true, w')
    ensures Leads(vals, counts[x.fqdn := c], w', null)
  {
    var counts' := counts[x.fqdn := c];
    if idx != -1 {
      assert w[idx].elem == x;
      assert w[idx].weight == counts[x.fqdn];
      NamesApart(vals, w, n, x, idx);
      GrownLeads(vals, counts, w, idx, w');
    } else {
      assert !Holds(w, x);
      LeadsElse(vals, counts, w, n, x, c);
      if |w| < TOP {
        JoinsLeads(vals, counts', w, n, Entry(x, c), w');
      } else if w[0].weight < c {
        MovesInLeads(vals, counts', w, Entry(x, c), w');
      } else {
        StaysOut(vals, counts', w, n, x);
      }
    }
  }

  lemma NamesApart(vals: map<string, NodeValue>, w: seq<Entry<NodeValue>>, n: nat, x: NodeValue, idx: int)
    requires Members(vals, w, n, x) && Apart(w, idx, x)
    ensures forall j, k :: 0 <= j < k < |w| ==> w[j].elem.fqdn != w[k].elem.fqdn
  {
  }

  lemma LeadsElse(vals: map<string, NodeValue>, counts: map<string, nat>, w: seq<Entry<NodeValue>>, n: nat,
                  x: NodeValue, c: nat)
    requires Members(vals, w, n, x) && Leads(vals, counts, w, x) && !Holds(w, x)
    requires x.fqdn in vals && vals[x.fqdn] == x && forall s :: s in vals ==> vals[s].fqdn == s
    ensures Leads(vals, counts[x.fqdn := c], w, x)
  {
    var counts' := counts[x.fqdn := c];
    assert counts'.Keys == counts.Keys;
    forall k | 0 <= k < |w| ensures w[k].weight == counts'[w[k].elem.fqdn] {
      assert w[k].elem != x;
    }
  }

  /** The least of a full heap in order never weighs less afterwards, as written too. */
  lemma CountedLeast(w: seq<Entry<NodeValue>>, idx: int, x: NodeValue, c: nat, repaired: bool,
                     w': seq<Entry<NodeValue>>)
    requires Ordered(w) && |w| == TOP && CountStep(w, idx, x, c, repaired, w')
    requires 0 <= idx < |w| && w[idx].elem == x ==> w[idx].weight <= c
    ensures |w'| == TOP && w[0].weight <= w'[0].weight
  {
    if idx != -1 {
      var w1 := Bumped(w, idx, x, c);
      SiftedSame(w1, idx, w1[idx], w');
      assert w1[idx := w1[idx]] == w1;
      LeastGrows(w, w1, w');
    } else if w[0].weight < c {
      SiftedSame(w, 0, Entry(x, c), w');
      LeastGrows(w, w[0 := Entry(x, c)], w');
    }
  }

  lemma SiftedSame(w: seq<Entry<NodeValue>>, i: nat, e: Entry<NodeValue>, w': seq<Entry<NodeValue>>)
    requires Sifting(w, i, e, w')
    ensures multiset(w') == multiset(w[i := e])
  {
    assert Ask(OfShape, 0);
    SiftPermutes(w, i, e);
  }

  // ---------- the same, folded, for whole insertions ----------

  ghost predicate AllIn(vals: map<string, NodeValue>, w: seq<Entry<NodeValue>>, n: nat) {
    forall u :: Ask(OfTop, u) ==> Members(vals, w, n, null)
  }

  ghost predicate Leading(vals: map<string, NodeValue>, counts: map<string, nat>, w: seq<Entry<NodeValue>>) {
    forall u :: Ask(OfTop, u) ==> Leads(vals, counts, w, null)
  }

  predicate Joined(vals: map<string, NodeValue>, n: nat, x: NodeValue, idx: int, vals': map<string, NodeValue>,
                   n': nat)
  {
    if x.fqdn in vals then vals' == vals && vals[x.fqdn] == x && n' == n
    else vals' == vals[x.fqdn := x] && n' == n + 1 && idx == -1
  }

  lemma AllInStep(vals: map<string, NodeValue>, w: seq<Entry<NodeValue>>, n: nat, x: NodeValue, idx: int, c: nat,
                  repaired: bool, vals': map<string, NodeValue>, w': seq<Entry<NodeValue>>, n': nat)
    requires AllIn(vals, w, n) && Joined(vals, n, x, idx, vals', n') && Apart(w, idx, x)
    requires Counted(w, idx, x, c, repaired, w')
    ensures AllIn(vals', w', n')
  {
    assert Ask(OfTop, 0);
    assert Ask(OfCounting, 0);
    if x.fqdn in vals {
      MembersOut(vals, w, n, x);
    }
    CountedMembers(vals', w, n', idx, x, c, repaired, w');
  }

  lemma LeadingStep(vals: map<string, NodeValue>, counts: map<string, nat>, w: seq<Entry<NodeValue>>, n: nat,
                    x: NodeValue,
                    idx: int, c: nat, vals': map<string, NodeValue>, w': seq<Entry<NodeValue>>, n': nat)
    requires AllIn(vals, w, n) && Leading(vals, counts, w) && Joined(vals, n, x, idx, vals', n') && Apart(w, idx, x)
    requires idx != -1 ==> Holds(w, x)
    requires c == (if x.fqdn in counts then counts[x.fqdn] else 0) + 1
    requires forall s :: s in vals' ==> vals'[s].fqdn == s
    requires Counted(w, idx, x, c, true, w')
    ensures Leading(vals', counts[x.fqdn := c], w')
  {
    assert Ask(OfTop, 0);
    assert Ask(OfCounting, 0);
    var counts' := if x.fqdn in vals then counts else counts[x.fqdn := 0];
    if x.fqdn in vals {
      MembersOut(vals, w, n, x);
    }
    assert counts'[x.fqdn := c] == counts[x.fqdn := c];
    assert Members(vals', w, n', x) && Leads(vals', counts', w, x);
    CountedLeads(vals', counts', w, n', idx, x, c, w');
  }
}
