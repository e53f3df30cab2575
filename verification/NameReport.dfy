/** The reply of src/log_view_stats.c with the names of a tree that count most, and what it is worth. */
module NameReport {
  import opened CountHeap
  import opened HeapOrder
  import opened NameTree
  import opened Sealing
  import opened Sequences
  import opened TopRank

  /** What is shown are the first `topn` names and counts of `ranked`, the heap as the sort leaves it. */
  ghost predicate Shown(s: Snapshot, topn: nat, ranked: seq<Entry<NodeValue>>, names: seq<string>, counts: seq<nat>) {
    && Sorting(s.w, |s.w|, ranked) && |names| == |counts| == Min(topn, |ranked|)
    && forall i :: 0 <= i < |names| ==> names[i] == ranked[i].elem.fqdn && counts[i] == ranked[i].weight
  }

  /** The reported names and counts: the first `topn` of a sorted copy of the heap. `ranked` is
      the whole of that copy. The tree itself stays as it is. */
  method TopNResult(t: NameTree, topn: nat)
    returns (names: seq<string>, counts: seq<nat>, ghost ranked: seq<Entry<NodeValue>>)
    requires t.Whole()
    ensures t.Whole() && t.Now() == old(t.Now()) && Shown(t.Now(), topn, ranked, names, counts)
    ensures multiset(ranked) == multiset(t.Now().w) && (Ordered(t.Now().w) ==> Falling(ranked))
    ensures t.intact ==> Separate(ranked)
  {
    var copy := SortedCopy(t);
    ranked := Weigh(copy.elems);
    names, counts := [], [];
    var n := Min(topn, copy.len);
    for i := 0 to n
      invariant copy.Valid() && |names| == |counts| == i && n <= copy.len && ranked == Weigh(copy.elems)
      invariant forall k :: 0 <= k < i ==> names[k] == ranked[k].elem.fqdn && counts[k] == ranked[k].weight
    {
      var nv := copy.heap[i];
      names := names + [nv.fqdn];
      counts := counts + [nv.count];
    }
  }

  method SortedCopy(t: NameTree) returns (copy: Heap)
    requires t.Whole()
    ensures t.Whole() && t.Now() == old(t.Now())
    ensures copy.Valid() && fresh(copy) && fresh(copy.heap)
    ensures multiset(Weigh(copy.elems)) == multiset(t.Now().w) && (t.intact ==> Separate(Weigh(copy.elems)))
    ensures Ordered(t.Now().w) ==> Falling(Weigh(copy.elems))
    ensures Sorting(t.Now().w, |t.Now().w|, Weigh(copy.elems))
  {
    t.HeapOpen();
    ghost var was := t.heap.elems;
    copy := t.heap.Copy();
    copy.Sort();
    if t.intact {
      DistinctSame(was, copy.elems);
    }
  }

  // ---------- what it says ----------

  /** Where the heap is the top thousand, nobody left out of the report counts more than anybody in it. */
  lemma ReportIsTop(s: Snapshot, ranked: seq<Entry<NodeValue>>, n: nat, i: nat, a: string)
    requires s.Fair() && s.Everyone() && Leading(s.vals, s.counts, s.w) && multiset(ranked) == multiset(s.w)
    requires Falling(ranked) && i < n <= |ranked|
    requires a in s.vals && forall j :: 0 <= j < n ==> ranked[j].elem != s.vals[a]
    ensures s.counts[a] <= ranked[i].weight
  {
    assert Ask(OfTop, 0);
    assert ranked[i] in multiset(s.w);
    var k :| 0 <= k < |s.w| && s.w[k] == ranked[i];
    HoldsSame(s.w, ranked, s.vals[a]);
    if Holds(s.w, s.vals[a]) {
      var j :| 0 <= j < |ranked| && ranked[j].elem == s.vals[a];
      assert ranked[j] in multiset(s.w);
    } else {
      RootIsLeast(s.w, k);
    }
  }

  lemma ReportSize(s: Snapshot, ranked: seq<Entry<NodeValue>>)
    requires s.Fair() && s.Everyone() && multiset(ranked) == multiset(s.w)
    ensures |ranked| == Min(TOP, |s.counts|) && s.n == |s.counts|
  {
    assert Ask(OfTop, 0);
    assert |ranked| == |multiset(ranked)| == |multiset(s.w)| == |s.w|;
    assert |s.counts| == |s.counts.Keys| == |s.vals.Keys| == |s.vals|;
  }

  /** Every name outside the report counts no more than any in it. */
  ghost predicate Dominates(names: seq<string>, counts: seq<nat>, tally: map<string, nat>) {
    forall a, i :: a in tally && a !in names && 0 <= i < |names| && i < |counts| ==> tally[a] <= counts[i]
  }

  /** What is reported are names that were inserted, each once and with its count. */
  ghost predicate Truthful(names: seq<string>, counts: seq<nat>, tally: map<string, nat>) {
    && |names| == |counts| && Distinct(names)
    && forall i :: 0 <= i < |names| ==> names[i] in tally && counts[i] == tally[names[i]]
  }

  /** What a report shows was in the heap, under its name and with its count. */
  lemma RankedIsInside(s: Snapshot, ranked: seq<Entry<NodeValue>>)
    requires s.Fair() && s.Everyone() && multiset(ranked) == multiset(s.w)
    ensures forall i :: 0 <= i < |ranked| ==>
      && ranked[i].elem.fqdn in s.vals && s.vals[ranked[i].elem.fqdn] == ranked[i].elem
      && ranked[i].elem in s.elems && ranked[i].weight == s.counts[ranked[i].elem.fqdn]
    ensures forall a :: a in s.vals && s.vals[a] in s.elems ==>
      exists i :: 0 <= i < |ranked| && ranked[i].elem == s.vals[a]
  {
    assert Ask(OfTop, 0);
    forall i | 0 <= i < |ranked|
      ensures ranked[i].elem.fqdn in s.vals && s.vals[ranked[i].elem.fqdn] == ranked[i].elem
      ensures ranked[i].elem in s.elems && ranked[i].weight == s.counts[ranked[i].elem.fqdn]
    {
      assert ranked[i] in multiset(s.w);
      var k :| 0 <= k < |s.w| && s.w[k] == ranked[i];
      assert s.elems[k] == ranked[i].elem;
    }
    forall a | a in s.vals && s.vals[a] in s.elems
      ensures exists i :: 0 <= i < |ranked| && ranked[i].elem == s.vals[a]
    {
      var k :| 0 <= k < |s.elems| && s.elems[k] == s.vals[a];
      assert s.w[k] in multiset(ranked);
      var i :| 0 <= i < |ranked| && ranked[i] == s.w[k];
    }
  }

  lemma ReportIsTruthful(s: Snapshot, ranked: seq<Entry<NodeValue>>, names: seq<string>, counts: seq<nat>)
    requires s.Fair() && s.Everyone() && Separate(ranked) && multiset(ranked) == multiset(s.w)
    requires |names| == |counts| <= |ranked|
    requires forall i :: 0 <= i < |names| ==> names[i] == ranked[i].elem.fqdn && counts[i] == ranked[i].weight
    ensures Truthful(names, counts, s.counts)
  {
    RankedIsInside(s, ranked);
  }

  lemma ReportDominates(s: Snapshot, ranked: seq<Entry<NodeValue>>, names: seq<string>, counts: seq<nat>)
    requires s.Fair() && s.Everyone() && Leading(s.vals, s.counts, s.w)
    requires multiset(ranked) == multiset(s.w) && Falling(ranked) && |names| == |counts| <= |ranked|
    requires forall i :: 0 <= i < |names| ==> names[i] == ranked[i].elem.fqdn && counts[i] == ranked[i].weight
    ensures Dominates(names, counts, s.counts)
  {
    forall a, i | a in s.counts && a !in names && 0 <= i < |names| ensures s.counts[a] <= counts[i] {
      ReportIsTop(s, ranked, |names|, i, a);
    }
  }

  /** Whoever counts more than a name of the report and is not in it believes wrongly to be in the heap. */
  ghost predicate MissesOnlyStuck(names: seq<string>, counts: seq<nat>, s: Snapshot) {
    forall a, i :: a in s.counts && a !in names && 0 <= i < |names| && i < |counts| && s.counts[a] > counts[i] ==>
      StuckIn(s.vals, s.indices, s.elems, a)
  }

  lemma OnlyStuckMissed(s: Snapshot, ranked: seq<Entry<NodeValue>>, names: seq<string>, counts: seq<nat>)
    requires s.Fair() && s.Everyone() && s.Honest() && Ordered(s.w)
    requires multiset(ranked) == multiset(s.w) && Falling(ranked) && |names| == |counts| <= |ranked|
    requires forall i :: 0 <= i < |names| ==> names[i] == ranked[i].elem.fqdn && counts[i] == ranked[i].weight
    ensures MissesOnlyStuck(names, counts, s)
  {
    forall a, i | a in s.counts && a !in names && 0 <= i < |names| && s.counts[a] > counts[i]
      ensures s.vals[a] !in s.elems && s.indices[a] != -1
    {
      assert ranked[i] in multiset(s.w);
      var k :| 0 <= k < |s.w| && s.w[k] == ranked[i];
      RootIsLeast(s.w, k);
      if s.vals[a] in s.elems {
        InsideIsShown(s, ranked, names, i, a);
      }
    }
  }

  lemma InsideIsShown(s: Snapshot, ranked: seq<Entry<NodeValue>>, names: seq<string>, i: nat, a: string)
    requires s.Fair() && multiset(ranked) == multiset(s.w) && Falling(ranked) && i < |names| <= |ranked|
    requires forall j :: 0 <= j < |names| ==> names[j] == ranked[j].elem.fqdn
    requires a in s.vals && s.vals[a] in s.elems && s.counts[a] > ranked[i].weight
    ensures a in names
  {
    var k :| 0 <= k < |s.elems| && s.elems[k] == s.vals[a];
    assert s.w[k] in multiset(ranked);
    var j :| 0 <= j < |ranked| && ranked[j] == s.w[k];
    assert names[j] == a;
  }

  /** The reply shows as many of the names as asked for, up to a thousand, each once and with its count. */
  ghost predicate Answers(tally: map<string, nat>, topn: nat, shown: seq<string>, counts: seq<nat>) {
    |shown| == Min(topn, Min(1000, |tally|)) && Truthful(shown, counts, tally)
  }

  // ---------- when every report is right ----------

  function FirstNames(ranked: seq<Entry<NodeValue>>, n: nat): (names: seq<string>)
    requires n <= |ranked|
    ensures |names| == n && forall i :: 0 <= i < n ==> names[i] == ranked[i].elem.fqdn
  {
    seq(n, i requires 0 <= i < n => ranked[i].elem.fqdn)
  }

  ghost predicate RightUpTo(s: Snapshot, ranked: seq<Entry<NodeValue>>, n: nat)
    requires n <= |ranked|
  {
    forall a, i :: a in s.counts && a !in FirstNames(ranked, n) && 0 <= i < n ==> s.counts[a] <= ranked[i].weight
  }

  /** Nobody outside counts more than anybody in the heap. */
  ghost predicate NobodyMissing(s: Snapshot, ranked: seq<Entry<NodeValue>>)
    requires s.Fair()
  {
    forall a, i :: a in s.vals && s.vals[a] !in s.elems && 0 <= i < |ranked| ==> s.counts[a] <= ranked[i].weight
  }

  /** The reports of every length show those that count most exactly when the sort came out in
      falling order and nobody outside the heap counts more than anybody in it. */
  lemma ReportsRightIff(s: Snapshot, ranked: seq<Entry<NodeValue>>)
    requires s.Fair() && s.Everyone() && Separate(ranked) && multiset(ranked) == multiset(s.w)
    ensures (forall n :: 0 <= n <= |ranked| ==> RightUpTo(s, ranked, n)) <==>
      Falling(ranked) && NobodyMissing(s, ranked)
  {
    RankedIsInside(s, ranked);
    if Falling(ranked) && NobodyMissing(s, ranked) {
      forall n | 0 <= n <= |ranked| ensures RightUpTo(s, ranked, n) {
        FallingIsRight(s, ranked, n);
      }
    }
    if forall n :: 0 <= n <= |ranked| ==> RightUpTo(s, ranked, n) {
      forall i, j | 0 <= i < j < |ranked| ensures ranked[i].weight >= ranked[j].weight {
        assert RightUpTo(s, ranked, i + 1);
        assert ranked[j].elem.fqdn !in FirstNames(ranked, i + 1);
      }
      assert RightUpTo(s, ranked, |ranked|);
      forall a, i | a in s.vals && s.vals[a] !in s.elems && 0 <= i < |ranked|
        ensures s.counts[a] <= ranked[i].weight
      {
        assert a !in FirstNames(ranked, |ranked|);
      }
    }
  }

  lemma FallingIsRight(s: Snapshot, ranked: seq<Entry<NodeValue>>, n: nat)
    requires s.Fair() && s.Everyone() && multiset(ranked) == multiset(s.w) && n <= |ranked|
    requires Falling(ranked) && NobodyMissing(s, ranked)
    ensures RightUpTo(s, ranked, n)
  {
    RankedIsInside(s, ranked);
    forall a, i | a in s.counts && a !in FirstNames(ranked, n) && 0 <= i < n ensures s.counts[a] <= ranked[i].weight {
      forall k | 0 <= k < n ensures ranked[k].elem.fqdn != a {
        assert FirstNames(ranked, n)[k] in FirstNames(ranked, n);
      }
      if s.vals[a] in s.elems {
        var j :| 0 <= j < |ranked| && ranked[j].elem == s.vals[a];
        assert n <= j;
      }
    }
  }
}
