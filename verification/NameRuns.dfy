/** Whole runs of insertions into a new tree of names: what the counters say in the end, when the
    heap holds the names that count most, and what a report shows. */
module NameRuns {
  import opened CountHeap
  import opened HeapOrder
  import opened NameReport
  import opened NameTree
  import opened RedBlackAlgebra
  import opened RedBlackTree
  import opened Sealing
  import opened Sequences
  import opened TopRank

  predicate AllFit(names: seq<string>) {
    forall k :: 0 <= k < |names| ==> Fits(names[k])
  }

  /** How often each name was inserted. */
  function Tally(names: seq<string>): map<string, nat>
    requires AllFit(names)
  {
    if names == [] then map[]
    else
      var counts, name := Tally(names[..|names| - 1]), names[|names| - 1];
      if |name| >= MAX_NAME_LEN then counts else OneMore(counts, Normal(name))
  }

  /** The names by their last insertion, the latest first. */
  function Recency(names: seq<string>): seq<string>
    requires AllFit(names)
  {
    if names == [] then []
    else
      var order, name := Recency(names[..|names| - 1]), names[|names| - 1];
      if |name| >= MAX_NAME_LEN then order else [Normal(name)] + Removed(order, Normal(name))
  }

  lemma NextName(names: seq<string>, i: nat)
    requires AllFit(names) && i < |names|
    ensures |names[i]| >= MAX_NAME_LEN ==>
      Tally(names[..i + 1]) == Tally(names[..i]) && Recency(names[..i + 1]) == Recency(names[..i])
    ensures |names[i]| < MAX_NAME_LEN ==>
      var (counts, name) := (Tally(names[..i]), Normal(names[i]));
      && Tally(names[..i + 1]) == OneMore(counts, name)
      && Recency(names[..i + 1]) == [name] + Removed(Recency(names[..i]), name)
  {
    assert names[..i + 1][..i] == names[..i];
    assert names[..i + 1][i] == names[i];
  }

  /** Where in the run the name `s` is inserted. */
  function Places(names: seq<string>, s: string): (r: set<nat>)
    requires AllFit(names)
  {
    set k: nat | k < |names| && |names[k]| < MAX_NAME_LEN && Normal(names[k]) == s
  }

  lemma PlacesNext(names: seq<string>, s: string)
    requires AllFit(names) && names != []
    ensures var (before, n) := (Places(names[..|names| - 1], s), |names| - 1);
      && Places(names, s) == before + (if |names[n]| < MAX_NAME_LEN && Normal(names[n]) == s then {n} else {})
      && forall k :: k in before ==> k < n
  {
  }

  /** The tally of a name is the number of its places. */
  lemma {:induction false} TallyMeans(names: seq<string>, s: string)
    requires AllFit(names)
    ensures s in Tally(names) <==> Places(names, s) != {}
    ensures s in Tally(names) ==> Tally(names)[s] == |Places(names, s)|
  {
    if names != [] {
      TallyMeans(names[..|names| - 1], s);
      PlacesNext(names, s);
    }
  }

  /** The last place of `a` is behind all places of `b`. */
  predicate Later(names: seq<string>, a: string, b: string)
    requires AllFit(names)
  {
    exists k :: k in Places(names, a) && forall l :: l in Places(names, b) ==> l < k
  }

  lemma LaterNext(names: seq<string>, a: string, b: string)
    requires AllFit(names) && names != []
    requires |names[|names| - 1]| >= MAX_NAME_LEN || Normal(names[|names| - 1]) != b
    requires Later(names[..|names| - 1], a, b)
    ensures Later(names, a, b)
  {
    PlacesNext(names, a);
    PlacesNext(names, b);
    var before := Places(names[..|names| - 1], b);
    var k :| k in Places(names[..|names| - 1], a) && forall l :: l in before ==> l < k;
    assert k in Places(names, a);
  }

  lemma LastIsLater(names: seq<string>, a: string, b: string)
    requires AllFit(names) && names != [] && a != b
    requires |names[|names| - 1]| < MAX_NAME_LEN && Normal(names[|names| - 1]) == a
    ensures Later(names, a, b)
  {
    PlacesNext(names, a);
    PlacesNext(names, b);
    assert |names| - 1 in Places(names, a);
  }

  /** The list holds each name of the run once, the one inserted last first. */
  lemma {:induction false} RecencyMeans(names: seq<string>)
    requires AllFit(names)
    ensures Distinct(Recency(names)) && forall s :: s in Recency(names) <==> Places(names, s) != {}
    ensures AllLater(names, Recency(names))
  {
    if names != [] {
      var front, name := names[..|names| - 1], names[|names| - 1];
      RecencyMeans(front);
      forall s ensures s in Recency(names) <==> Places(names, s) != {} {
        PlacesNext(names, s);
        if |name| < MAX_NAME_LEN {
          ToFront(Recency(front), Normal(name));
          assert s in Recency(names) <==> s in (set y | y in Recency(front)) + {Normal(name)};
        }
      }
      if |name| < MAX_NAME_LEN {
        ToFront(Recency(front), Normal(name));
        AllLaterNext(names, Recency(front));
      } else {
        AllLaterStay(names, Recency(front));
      }
    }
  }

  predicate AllLater(names: seq<string>, order: seq<string>)
    requires AllFit(names)
  {
    forall i, j :: 0 <= i < j < |order| ==> Later(names, order[i], order[j])
  }

  lemma AllLaterStay(names: seq<string>, order: seq<string>)
    requires AllFit(names) && names != [] && |names[|names| - 1]| >= MAX_NAME_LEN
    requires AllLater(names[..|names| - 1], order)
    ensures AllLater(names, order)
  {
    forall i, j | 0 <= i < j < |order| ensures Later(names, order[i], order[j]) {
      LaterNext(names, order[i], order[j]);
    }
  }

  lemma AllLaterNext(names: seq<string>, order: seq<string>)
    requires AllFit(names) && names != [] && |names[|names| - 1]| < MAX_NAME_LEN && Distinct(order)
    requires AllLater(names[..|names| - 1], order)
    ensures AllLater(names, [Normal(names[|names| - 1])] + Removed(order, Normal(names[|names| - 1])))
  {
    var name := Normal(names[|names| - 1]);
    var rest := Removed(order, name);
    forall j | 0 <= j < |rest| ensures Later(names, name, rest[j]) {
      assert rest[j] in rest;
      LastIsLater(names, name, rest[j]);
    }
    forall i, j | 0 <= i < j < |rest| ensures Later(names, rest[i], rest[j]) {
      assert rest[j] in rest;
      var k, l := RemovedKeepsOrder(order, name, i, j);
      LaterNext(names, order[k], order[l]);
    }
  }

  // ---------- runs as sequences of snapshots ----------

  const NOTHING := Snapshot(map[], map[], map[], [], [], 0)

  /** The insertion of `name` leads from `s` to `s'`. */
  ghost predicate Taken(s: Snapshot, name: string, repaired: bool, s': Snapshot)
    requires Fits(name)
  {
    && s'.Fair()
    && if |name| >= MAX_NAME_LEN then s' == s
       else
         && Normal(name) in s'.vals && s'.vals[Normal(name)].fqdn == Normal(name)
         && InsertStep(s, s'.vals[Normal(name)], repaired, s')
  }

  /** The insertions of `names` into a new tree lead through `trace`. */
  ghost predicate Run(names: seq<string>, repaired: bool, trace: seq<Snapshot>)
    requires AllFit(names)
  {
    && |trace| == |names| + 1 && trace[0] == NOTHING
    && forall i :: 0 <= i < |names| ==> Taken(trace[i], names[i], repaired, trace[i + 1])
  }

  lemma RunNext(names: seq<string>, i: nat, repaired: bool, trace: seq<Snapshot>, s: Snapshot)
    requires AllFit(names) && i < |names| && Run(names[..i], repaired, trace) && Taken(trace[i], names[i], repaired, s)
    ensures Run(names[..i + 1], repaired, trace + [s])
  {
    forall k | 0 <= k < i + 1 ensures Taken((trace + [s])[k], names[..i + 1][k], repaired, (trace + [s])[k + 1]) {
      if k < i {
        assert names[..i][k] == names[k];
      }
    }
  }

  /** After every part of a run the counts are those of the names so far, and the heap holds a
      thousand of them, or all; if repaired, the thousand that count most. */
  lemma {:induction false} RunKeeps(names: seq<string>, repaired: bool, trace: seq<Snapshot>, i: nat)
    requires AllFit(names) && Run(names, repaired, trace) && i <= |names|
    ensures var s := trace[i];
      s.Fair() && s.Everyone() && (repaired ==> s.TopN()) && s.counts == Tally(names[..i])
  {
    if i == 0 {
      EmptyIsTopN(trace[0]);
    } else {
      RunKeeps(names, repaired, trace, i - 1);
      NextName(names, i - 1);
      var s, name, s' := trace[i - 1], names[i - 1], trace[i];
      assert Taken(s, name, repaired, s');
      if |name| < MAX_NAME_LEN {
        StepKeeps(s, Normal(name), s'.vals[Normal(name)], repaired, s');
      }
    }
  }

  // ---------- the eviction as written ----------

  /** The insertion of the name drives a record out of the heap. */
  predicate Drives(s: Snapshot, name: string)
    requires Fits(name)
  {
    |name| < MAX_NAME_LEN && s.Evicts(Normal(name))
  }

  /** As long as none is driven out, every record knows whether it is in the heap. */
  lemma {:induction false} AwareUpTo(names: seq<string>, repaired: bool, trace: seq<Snapshot>, i: nat)
    requires AllFit(names) && Run(names, repaired, trace) && i <= |names|
    requires forall k :: 0 <= k < i ==> !Drives(trace[k], names[k])
    ensures trace[i].Aware()
  {
    RunKeeps(names, repaired, trace, i);
    if i == 0 {
      EmptyIsTopN(trace[0]);
    } else {
      AwareUpTo(names, repaired, trace, i - 1);
      RunKeeps(names, repaired, trace, i - 1);
      var s, name, s' := trace[i - 1], names[i - 1], trace[i];
      assert Taken(s, name, repaired, s') && !Drives(s, name);
      if |name| < MAX_NAME_LEN {
        InsertKeepsAwareIff(s, s'.vals[Normal(name)], repaired, s');
      }
    }
  }

  /** Whoever believes wrongly to be in the heap does so for the rest of the run. */
  lemma {:induction false} StuckUpTo(names: seq<string>, repaired: bool, trace: seq<Snapshot>, i: nat, j: nat,
                                     name: string)
    requires AllFit(names) && Run(names, repaired, trace) && i <= j <= |names|
    requires StuckIn(trace[i].vals, trace[i].indices, trace[i].elems, name)
    ensures StuckIn(trace[j].vals, trace[j].indices, trace[j].elems, name)
  {
    if i < j {
      StuckUpTo(names, repaired, trace, i, j - 1, name);
      RunKeeps(names, repaired, trace, j - 1);
      var s, n, s' := trace[j - 1], names[j - 1], trace[j];
      assert Taken(s, n, repaired, s');
      if |n| < MAX_NAME_LEN {
        InsertKeepsStuck(s, s'.vals[Normal(n)], repaired, s', name);
      }
    }
  }

  lemma StuckIsUnaware(s: Snapshot, name: string)
    requires StuckIn(s.vals, s.indices, s.elems, name)
    ensures !s.Aware()
  {
    assert Ask(OfTop, 0);
  }

  /** In any run as written, every record knows in the end whether it is in the heap exactly when
      no insertion of the run drove a record out. */
  lemma RunKeepsAwareIff(names: seq<string>, trace: seq<Snapshot>)
    requires AllFit(names) && Run(names, false, trace)
    ensures trace[|names|].Aware() <==> forall i :: 0 <= i < |names| ==> !Drives(trace[i], names[i])
  {
    if forall i :: 0 <= i < |names| ==> !Drives(trace[i], names[i]) {
      AwareUpTo(names, false, trace, |names|);
    } else {
      var i :| 0 <= i < |names| && Drives(trace[i], names[i]);
      RunKeeps(names, false, trace, i);
      assert Taken(trace[i], names[i], false, trace[i + 1]);
      var name := EvictionSticks(trace[i], trace[i + 1].vals[Normal(names[i])], trace[i + 1]);
      StuckUpTo(names, false, trace, i + 1, |names|, name);
      StuckIsUnaware(trace[|names|], name);
    }
  }

  // ---------- the order as written ----------

  /** The insertion of the name leaves the heap in order. */
  predicate WellPlaced(s: Snapshot, name: string)
    requires Fits(name)
  {
    |name| < MAX_NAME_LEN ==> s.RiseFits(Normal(name))
  }

  /** All of the first `n` insertions leave the heap in order. */
  ghost predicate AllWellPlaced(names: seq<string>, trace: seq<Snapshot>, n: nat)
    requires AllFit(names) && n <= |names| && n <= |trace|
  {
    forall k :: 0 <= k < n ==> WellPlaced(trace[k], names[k])
  }

  lemma WellPlacedIff(names: seq<string>, trace: seq<Snapshot>, i: nat)
    requires AllFit(names) && Run(names, false, trace) && i < |names| && Ordered(trace[i].w)
    ensures Ordered(trace[i + 1].w) <==> WellPlaced(trace[i], names[i])
  {
    RunKeeps(names, false, trace, i);
    var s, name, s' := trace[i], names[i], trace[i + 1];
    assert Taken(s, name, false, s');
    if |name| < MAX_NAME_LEN {
      InsertKeepsOrderIff(s, s'.vals[Normal(name)], s');
    }
  }

  lemma {:induction false} OrderUpTo(names: seq<string>, trace: seq<Snapshot>, i: nat)
    requires AllFit(names) && Run(names, false, trace) && i <= |names| && AllWellPlaced(names, trace, i)
    ensures Ordered(trace[i].w)
  {
    if i > 0 {
      OrderUpTo(names, trace, i - 1);
      WellPlacedIff(names, trace, i - 1);
    }
  }

  /** A run as written leaves the heap in order throughout exactly when every insertion does. */
  lemma RunKeepsOrderIff(names: seq<string>, trace: seq<Snapshot>)
    requires AllFit(names) && Run(names, false, trace)
    ensures (forall i :: 0 <= i <= |names| ==> Ordered(trace[i].w)) <==> AllWellPlaced(names, trace, |names|)
  {
    if AllWellPlaced(names, trace, |names|) {
      forall i | 0 <= i <= |names| ensures Ordered(trace[i].w) {
        OrderUpTo(names, trace, i);
      }
    } else {
      var k :| 0 <= k < |names| && !WellPlaced(trace[k], names[k]);
      if Ordered(trace[k].w) {
        WellPlacedIff(names, trace, k);
      }
    }
  }

  /** Once full and in order, the heap stays so for the rest of any run as written, and its least never
      weighs less. */
  lemma {:induction false} FullStaysInOrder(names: seq<string>, trace: seq<Snapshot>, i: nat, j: nat)
    requires AllFit(names) && Run(names, false, trace) && i <= j <= |names|
    requires |trace[i].w| == TOP && Ordered(trace[i].w)
    ensures |trace[j].w| == TOP && Ordered(trace[j].w) && trace[i].w[0].weight <= trace[j].w[0].weight
  {
    if i < j {
      FullStaysInOrder(names, trace, i, j - 1);
      RunKeeps(names, false, trace, j - 1);
      var s, name, s' := trace[j - 1], names[j - 1], trace[j];
      assert Taken(s, name, false, s');
      if |name| < MAX_NAME_LEN {
        FullStepKeepsOrder(s, s'.vals[Normal(name)], s');
      }
    }
  }

  /** While the heap is in order: whoever is outside and knows it counts no more than the least inside. */
  lemma {:induction false} HonestUpTo(names: seq<string>, trace: seq<Snapshot>, i: nat)
    requires AllFit(names) && Run(names, false, trace) && i <= |names| && AllWellPlaced(names, trace, i)
    ensures trace[i].Honest()
  {
    if i > 0 {
      HonestUpTo(names, trace, i - 1);
      OrderUpTo(names, trace, i - 1);
      RunKeeps(names, false, trace, i - 1);
      var s, name, s' := trace[i - 1], names[i - 1], trace[i];
      assert Taken(s, name, false, s');
      if |name| < MAX_NAME_LEN {
        InsertKeepsHonest(s, s'.vals[Normal(name)], s');
      }
    }
  }

  // ---------- the top thousand as written ----------

  /** The insertion of the name leaves the heap the top thousand: it drives no record out, and
      its own record need not rise more than one level. */
  predicate Meets(s: Snapshot, name: string)
    requires Fits(name)
  {
    !Drives(s, name) && WellPlaced(s, name)
  }

  ghost predicate AllMeet(names: seq<string>, trace: seq<Snapshot>, n: nat)
    requires AllFit(names) && n <= |names| && n <= |trace|
  {
    forall k :: 0 <= k < n ==> Meets(trace[k], names[k])
  }

  lemma MeetsIff(names: seq<string>, trace: seq<Snapshot>, i: nat)
    requires AllFit(names) && Run(names, false, trace) && i < |names| && trace[i].TopN()
    ensures trace[i + 1].TopN() <==> Meets(trace[i], names[i])
  {
    RunKeeps(names, false, trace, i);
    var s, name, s' := trace[i], names[i], trace[i + 1];
    assert Taken(s, name, false, s');
    if |name| < MAX_NAME_LEN {
      InsertKeepsTopNIff(s, s'.vals[Normal(name)], s');
    }
  }

  lemma {:induction false} TopNUpTo(names: seq<string>, trace: seq<Snapshot>, i: nat)
    requires AllFit(names) && Run(names, false, trace) && i <= |names| && AllMeet(names, trace, i)
    ensures trace[i].TopN()
  {
    if i == 0 {
      EmptyIsTopN(trace[0]);
    } else {
      TopNUpTo(names, trace, i - 1);
      MeetsIff(names, trace, i - 1);
    }
  }

  /** After every part of a run as written the heap is the top thousand exactly when no insertion of
      the run drives a record out or leaves its own too low. */
  lemma RunKeepsTopNIff(names: seq<string>, trace: seq<Snapshot>)
    requires AllFit(names) && Run(names, false, trace)
    ensures (forall i :: 0 <= i <= |names| ==> trace[i].TopN()) <==> AllMeet(names, trace, |names|)
  {
    if AllMeet(names, trace, |names|) {
      forall i | 0 <= i <= |names| ensures trace[i].TopN() {
        TopNUpTo(names, trace, i);
      }
    } else {
      var k :| 0 <= k < |names| && !Meets(trace[k], names[k]);
      if trace[k].TopN() {
        MeetsIff(names, trace, k);
      }
    }
  }

  // ---------- a run that evicts ----------

  function Digit(d: nat): char
    requires d < 10
  {
    "0123456789"[d]
  }

  /** A thousand names of three digits and a dot. */
  function Numbered(i: nat): string
    requires i < TOP
  {
    [Digit(i / 100), Digit(i / 10 % 10), Digit(i % 10), '.']
  }

  lemma DigitsApart(d: nat, e: nat)
    requires d < 10 && e < 10 && Digit(d) == Digit(e)
    ensures d == e
  {
    var digits := "0123456789";
    assert digits[d] == digits[e];
  }

  lemma FromDigits(i: nat)
    ensures i == 100 * (i / 100) + 10 * (i / 10 % 10) + i % 10
  {
  }

  lemma NumberedApart(i: nat, j: nat)
    requires i < TOP && j < TOP && Numbered(i) == Numbered(j)
    ensures i == j
  {
    var a, b := Numbered(i), Numbered(j);
    assert a[0] == b[0] && a[1] == b[1] && a[2] == b[2];
    DigitsApart(i / 100, j / 100);
    DigitsApart(i / 10 % 10, j / 10 % 10);
    DigitsApart(i % 10, j % 10);
    FromDigits(i);
    FromDigits(j);
  }

  const LATECOMER := "x."

  /** Each of the thousand names once, and another one twice. */
  function Crowd(): (names: seq<string>)
    ensures AllFit(names) && |names| == TOP + 2
  {
    seq(TOP, i requires 0 <= i < TOP => Numbered(i)) + [LATECOMER, LATECOMER]
  }

  /** Distinct names in their normal form count one each. */
  lemma {:induction false} TallyOfDistinct(names: seq<string>)
    requires AllFit(names) && Distinct(names) && forall k :: 0 <= k < |names| ==> Proper(names[k])
    ensures Tally(names).Keys == (set s | s in names) && forall s :: s in Tally(names) ==> Tally(names)[s] == 1
  {
    if names != [] {
      var front, last := names[..|names| - 1], names[|names| - 1];
      TallyOfDistinct(front);
      assert (set s | s in names) == (set s | s in front) + {last};
    }
  }

  /** A heap that everyone is in shows one weight where every name counts the same. */
  lemma AllAlike(s: Snapshot, c: nat)
    requires s.Fair() && s.Everyone() && forall a :: a in s.counts ==> s.counts[a] == c
    ensures |s.w| == Min(TOP, s.n) && forall k :: 0 <= k < |s.w| ==> s.w[k].weight == c
  {
    assert Ask(OfTop, 0);
  }

  /** A new name stays out of a full heap whose least record counts one, and does not believe otherwise. */
  lemma NewcomerStaysOut(s: Snapshot, nv: NodeValue, repaired: bool, s': Snapshot)
    requires s.Fair() && s'.Fair() && InsertStep(s, nv, repaired, s') && nv.fqdn !in s.vals
    requires |s.w| == TOP && s.w[0].weight == 1
    ensures s'.w == s.w && s'.IndexOf(nv.fqdn) == -1 && s'.CountOf(nv.fqdn) == 1 && !s.Evicts(nv.fqdn)
  {
    assert Ask(OfStep, 0);
    assert Ask(OfCounting, 0);
    assert Ask(OfIndices, 0);
    assert s'.elems == s.elems by {
      assert forall k :: 0 <= k < |s.w| ==> s'.w[k].elem == s'.elems[k] && s.w[k].elem == s.elems[k];
    }
  }

  /** A thousand distinct names fill the heap, and each counts one. */
  lemma FullHouse(names: seq<string>, repaired: bool, trace: seq<Snapshot>)
    requires AllFit(names) && Run(names, repaired, trace) && |names| >= TOP
    requires Distinct(names[..TOP]) && forall k :: 0 <= k < TOP ==> Proper(names[k])
    ensures var s := trace[TOP];
      s.Fair() && |s.w| == TOP && s.w[0].weight == 1 && s.vals.Keys == set n | n in names[..TOP]
  {
    RunKeeps(names, repaired, trace, TOP);
    TallyOfDistinct(names[..TOP]);
    DistinctCount(names[..TOP]);
    AllAlike(trace[TOP], 1);
  }

  lemma CrowdIsDistinct()
    ensures Distinct(Crowd()[..TOP]) && LATECOMER !in Crowd()[..TOP]
  {
    var front := Crowd()[..TOP];
    forall i, j | 0 <= i < j < TOP ensures front[i] != front[j] {
      if front[i] == front[j] {
        NumberedApart(i, j);
      }
    }
  }

  /** The last insertion of the crowd drives a record out, which goes on believing to be in. */
  lemma CrowdEvicts(trace: seq<Snapshot>)
    requires Run(Crowd(), false, trace)
    ensures trace[TOP + 1].Evicts(LATECOMER) && !trace[TOP + 2].Aware()
  {
    var names := Crowd();
    CrowdIsDistinct();
    FullHouse(names, false, trace);
    assert Taken(trace[TOP], names[TOP], false, trace[TOP + 1]);
    NewcomerStaysOut(trace[TOP], trace[TOP + 1].vals[LATECOMER], false, trace[TOP + 1]);
    assert Drives(trace[TOP + 1], names[TOP + 1]);
    RunKeepsAwareIff(names, trace);
  }

  // ---------- a run that loses the order ----------

  const PAIRS := ["a.", "a.", "b.", "b.", "c.", "c."]

  /** Three names twice each, and a fourth one once. */
  function Disorder(): (names: seq<string>)
    ensures AllFit(names) && |names| == 7 && names[..6] == PAIRS
  {
    PAIRS + ["d."]
  }

  lemma TallyPair(names: seq<string>, a: string)
    requires AllFit(names) && Proper(a) && a !in Tally(names)
    ensures AllFit(names + [a, a]) && Tally(names + [a, a]) == Tally(names)[a := 2]
  {
    var all, n := names + [a, a], |names|;
    assert AllFit(all);
    assert all[..n] == names && all[..n + 1][..n] == names && all[..n + 2] == all;
    NextName(all, n);
    NextName(all, n + 1);
  }

  lemma PairsTally(a: string, b: string, c: string)
    requires Proper(a) && Proper(b) && Proper(c) && a != b && b != c && a != c
    ensures AllFit([a, a, b, b, c, c]) && Tally([a, a, b, b, c, c]) == map[a := 2, b := 2, c := 2]
  {
    TallyPair([], a);
    TallyPair([] + [a, a], b);
    TallyPair([] + [a, a] + [b, b], c);
    assert [] + [a, a] + [b, b] + [c, c] == [a, a, b, b, c, c];
  }

  /** With up to a thousand names no insertion drives a record out. */
  lemma {:induction false} NoneDriven(names: seq<string>, trace: seq<Snapshot>, i: nat)
    requires AllFit(names) && Run(names, false, trace) && i <= |names| < TOP
    ensures trace[i].n <= i && trace[i].Aware()
  {
    RunKeeps(names, false, trace, i);
    if i == 0 {
      EmptyIsTopN(trace[0]);
    } else {
      NoneDriven(names, trace, i - 1);
      RunKeeps(names, false, trace, i - 1);
      var s, name, s' := trace[i - 1], names[i - 1], trace[i];
      assert Taken(s, name, false, s');
      if |name| < MAX_NAME_LEN {
        RoomForAll(s, s'.vals[Normal(name)], s');
      }
    }
  }

  lemma RoomForAll(s: Snapshot, nv: NodeValue, s': Snapshot)
    requires s.Fair() && s'.Fair() && InsertStep(s, nv, false, s') && s.Everyone() && s.Aware() && s.n < TOP
    ensures s'.Aware() && s'.n <= s.n + 1
  {
    InsertKeepsAwareIff(s, nv, false, s');
    assert Ask(OfStep, 0);
    assert Ask(OfTop, 0);
  }

  /** A fourth name rises past its parent but not past the root, which weighs more. */
  lemma FourthLosesOrder(s: Snapshot, nv: NodeValue, s': Snapshot)
    requires s.Fair() && s'.Fair() && InsertStep(s, nv, false, s') && s.Everyone() && s.Aware()
    requires |s.counts| == 3 && nv.fqdn !in s.counts && forall a :: a in s.counts ==> s.counts[a] == 2
    ensures |s.w| == 3 && Ordered(s.w) && !Ordered(s'.w)
    ensures s'.w == [s.w[0], Entry(nv, 1), s.w[2], s.w[1]]
  {
    AllAlike(s, 2);
    assert |s.counts| == |s.counts.Keys| == |s.vals.Keys| == |s.vals|;
    InsertKeepsOrderIff(s, nv, s');
    FourthRises(s, nv, s');
  }

  lemma FourthRises(s: Snapshot, nv: NodeValue, s': Snapshot)
    requires s.Fair() && InsertStep(s, nv, false, s') && nv.fqdn !in s.counts
    requires |s.w| == 3 && Ordered(s.w) && s.w[1].weight == 2
    ensures s'.w == [s.w[0], Entry(nv, 1), s.w[2], s.w[1]]
  {
    assert Ask(OfStep, 0);
    assert Ask(OfCounting, 0);
    assert Ask(OfShape, 0);
    RiseIsShallow(s.w, Entry(nv, 1));
  }

  /** Before the last insertion of that run three names count two each. */
  lemma DisorderSoFar(trace: seq<Snapshot>)
    requires Run(Disorder(), false, trace)
    ensures var s := trace[6];
      && s.Fair() && s.Everyone() && s.Aware() && |s.counts| == 3 && "d." !in s.counts
      && forall a :: a in s.counts ==> s.counts[a] == 2
  {
    RunKeeps(Disorder(), false, trace, 6);
    NoneDriven(Disorder(), trace, 6);
    PairsTally("a.", "b.", "c.");
  }

  lemma DisorderLosesOrder(trace: seq<Snapshot>)
    requires Run(Disorder(), false, trace)
    ensures Ordered(trace[6].w) && !Ordered(trace[7].w)
  {
    DisorderSoFar(trace);
    assert Taken(trace[6], Disorder()[6], false, trace[7]);
    FourthLosesOrder(trace[6], trace[7].vals["d."], trace[7]);
  }

  // ---------- the runs of the tree itself ----------

  /** The first `i` insertions of the run lead to `s`, with the names in `order`. */
  ghost predicate Reached(names: seq<string>, i: nat, repaired: bool, trace: seq<Snapshot>, s: Snapshot,
                          order: seq<string>)
  {
    forall u :: Ask(OfRun, u) ==>
      && AllFit(names) && i <= |names| && Run(names[..i], repaired, trace) && trace[i] == s
      && order == Recency(names[..i])
  }

  method ReplayNext(t: NameTree, names: seq<string>, i: nat, ghost trace: seq<Snapshot>)
    returns (ghost trace': seq<Snapshot>)
    requires i < |names| && t.Whole() && t.intact && Reached(names, i, t.repaired, trace, t.Now(), t.order)
    modifies t.Footprint()
    ensures t.Whole() && t.intact && fresh(t.Footprint() - old(t.Footprint()))
    ensures Reached(names, i + 1, t.repaired, trace', t.Now(), t.order)
  {
    assert Ask(OfRun, 0);
    NextName(names, i);
    var r := t.Insert(names[i]);
    t.NowIsFair();
    RunNext(names, i, t.repaired, trace, t.Now());
    trace' := trace + [t.Now()];
  }

  /** Any run of insertions into a new tree. */
  method Replay(names: seq<string>, nil: Node, repaired: bool) returns (t: NameTree, ghost trace: seq<Snapshot>)
    requires nil.color == Black && nil.parent == nil.left == nil.right == nil && AllFit(names)
    ensures t.Whole() && t.intact && t.repaired == repaired
    ensures Run(names, repaired, trace) && trace[|names|] == t.Now()
    ensures t.Now().counts == Tally(names) && t.order == Recency(names)
    ensures t.Now().Everyone() && (repaired ==> t.Now().TopN())
  {
    t := new NameTree(nil, repaired);
    assert names[..0] == [];
    trace := [t.Now()];
    for i := 0 to |names|
      invariant t.Whole() && t.intact && fresh(t.Footprint())
      invariant Reached(names, i, repaired, trace, t.Now(), t.order)
    {
      trace := ReplayNext(t, names, i, trace);
    }
    assert Ask(OfRun, 0);
    assert names[..|names|] == names;
    RunKeeps(names, repaired, trace, |names|);
  }

  /** The tree as written does get into the state where a record believes wrongly to be in the heap. */
  method ReplayCrowd(nil: Node) returns (t: NameTree)
    requires nil.color == Black && nil.parent == nil.left == nil.right == nil
    ensures t.Whole() && t.intact && !t.repaired && t.Now().counts == Tally(Crowd()) && !t.Now().Aware()
  {
    ghost var trace;
    t, trace := Replay(Crowd(), nil, false);
    CrowdEvicts(trace);
  }

  /** And into one where the heap is out of order. */
  method ReplayDisorder(nil: Node) returns (t: NameTree)
    requires nil.color == Black && nil.parent == nil.left == nil.right == nil
    ensures t.Whole() && t.intact && !t.repaired && t.Now().counts == Tally(Disorder()) && !Ordered(t.Now().w)
  {
    ghost var trace;
    t, trace := Replay(Disorder(), nil, false);
    DisorderLosesOrder(trace);
  }

  // ---------- reports ----------

  /** What a reply shows after a run: the names that were inserted, each once and with its count.
      No other name counts more than any of them, with the repairs in any run, as written if no
      insertion of the run drove a record out or left its own too low. And if none left its own
      too low, only records that believe wrongly to be in the heap can be missing. */
  ghost predicate Ranks(names: seq<string>, repaired: bool, trace: seq<Snapshot>, shown: seq<string>,
                        counts: seq<nat>)
    requires AllFit(names) && |trace| == |names| + 1
  {
    var s := trace[|names|];
    && (repaired || AllMeet(names, trace, |names|) || (|Tally(names)| <= TOP && Ordered(s.w)) ==>
         Dominates(shown, counts, Tally(names)))
    && (!repaired && AllWellPlaced(names, trace, |names|) ==> MissesOnlyStuck(shown, counts, s))
    && (repaired || AllWellPlaced(names, trace, |names|) || Ordered(s.w) ==>
         forall i, j :: 0 <= i < j < |counts| ==> counts[i] >= counts[j])
  }

  lemma ShownRanks(names: seq<string>, repaired: bool, trace: seq<Snapshot>, topn: nat, ranked: seq<Entry<NodeValue>>,
                   shown: seq<string>, counts: seq<nat>)
    requires AllFit(names) && Run(names, repaired, trace) && Separate(ranked)
    requires Shown(trace[|names|], topn, ranked, shown, counts)
    ensures Answers(Tally(names), topn, shown, counts) && Ranks(names, repaired, trace, shown, counts)
  {
    var s, n := trace[|names|], |names|;
    assert names[..n] == names;
    RunKeeps(names, repaired, trace, n);
    SortBegins(s.w);
    SortMeans(s.w, |s.w|, Ordered(s.w), ranked);
    ReportIsTruthful(s, ranked, shown, counts);
    ReportSize(s, ranked);
    LeadingIsOrdered(s);
    if !repaired && AllWellPlaced(names, trace, n) {
      OrderUpTo(names, trace, n);
      HonestUpTo(names, trace, n);
      OnlyStuckMissed(s, ranked, shown, counts);
    }
    if !repaired && AllMeet(names, trace, n) {
      TopNUpTo(names, trace, n);
    }
    if |s.counts| <= TOP && Ordered(s.w) {
      LeadsIffOrdered(s);
    }
    if Leading(s.vals, s.counts, s.w) {
      ReportDominates(s, ranked, shown, counts);
    }
  }

  /** A report after any run. */
  method Report(names: seq<string>, nil: Node, repaired: bool, topn: nat)
    returns (t: NameTree, shown: seq<string>, counts: seq<nat>, ghost trace: seq<Snapshot>,
             ghost ranked: seq<Entry<NodeValue>>)
    requires nil.color == Black && nil.parent == nil.left == nil.right == nil && AllFit(names)
    ensures t.Whole() && t.repaired == repaired && t.Now().counts == Tally(names)
    ensures Run(names, repaired, trace) && trace[|names|] == t.Now() && Shown(t.Now(), topn, ranked, shown, counts)
    ensures Answers(Tally(names), topn, shown, counts) && Ranks(names, repaired, trace, shown, counts)
  {
    t, trace := Replay(names, nil, repaired);
    shown, counts, ranked := TopNResult(t, topn);
    ShownRanks(names, repaired, trace, topn, ranked, shown, counts);
  }

  // ---------- trees that grow one name at a time ----------

  /** The insertions of `log` into a tree as written have led through `trace` to `s`. */
  ghost predicate Ran(log: seq<string>, trace: seq<Snapshot>, s: Snapshot) {
    forall u :: Ask(OfRun, u) ==> AllFit(log) && Run(log, false, trace) && trace[|log|] == s
  }

  lemma NothingRan()
    ensures Ran([], [NOTHING], NOTHING)
  {
  }

  lemma RanNext(log: seq<string>, trace: seq<Snapshot>, s: Snapshot, name: string, s': Snapshot)
    requires Ran(log, trace, s) && Fits(name) && Taken(s, name, false, s')
    ensures Ran(log + [name], trace + [s'], s')
  {
    assert Ask(OfRun, 0);
    var all := log + [name];
    assert all[..|log|] == log && all[..|log| + 1] == all;
    RunNext(all, |log|, false, trace, s');
  }

  /** The reply of such a tree. */
  ghost predicate Replied(log: seq<string>, trace: seq<Snapshot>, topn: nat, shown: seq<string>, counts: seq<nat>) {
    && AllFit(log) && Answers(Tally(log), topn, shown, counts)
    && Run(log, false, trace) && Ranks(log, false, trace, shown, counts)
  }

  method Reply(t: NameTree, ghost log: seq<string>, ghost trace: seq<Snapshot>, topn: nat)
    returns (shown: seq<string>, counts: seq<nat>)
    requires t.Whole() && t.intact && Ran(log, trace, t.Now())
    ensures t.Whole() && t.Now() == old(t.Now()) && Replied(log, trace, topn, shown, counts)
  {
    ghost var ranked;
    shown, counts, ranked := TopNResult(t, topn);
    assert Ask(OfRun, 0);
    ShownRanks(log, false, trace, topn, ranked, shown, counts);
  }

  // ---------- a report that goes wrong ----------

  /** The run that loses the order: of three names that count two one is left out, while the one that
      counts one is shown. */
  lemma DisorderMisreports(trace: seq<Snapshot>, ranked: seq<Entry<NodeValue>>, shown: seq<string>, counts: seq<nat>)
    requires Run(Disorder(), false, trace) && Shown(trace[7], 3, ranked, shown, counts)
    ensures counts == [2, 2, 1] && !Dominates(shown, counts, trace[7].counts)
  {
    DisorderSoFar(trace);
    var s, nv, s' := trace[6], trace[7].vals["d."], trace[7];
    assert Taken(s, Disorder()[6], false, s');
    FourthLosesOrder(s, nv, s');
    FourthMisreports(s, nv, s', ranked, shown, counts);
  }

  lemma FourthMisreports(s: Snapshot, nv: NodeValue, s': Snapshot, ranked: seq<Entry<NodeValue>>,
                         shown: seq<string>, counts: seq<nat>)
    requires s.Fair() && InsertStep(s, nv, false, s') && s.Everyone() && nv.fqdn !in s.counts
    requires (forall a :: a in s.counts ==> s.counts[a] == 2) && |s.w| == 3
    requires s'.w == [s.w[0], Entry(nv, 1), s.w[2], s.w[1]] && Shown(s', 3, ranked, shown, counts)
    ensures counts == [2, 2, 1] && !Dominates(shown, counts, s'.counts)
  {
    AllAlike(s, 2);
    assert Separate(s.w)
      && (forall k :: 0 <= k < 3 ==> s.w[k].elem.fqdn in s.vals && s.vals[s.w[k].elem.fqdn] == s.w[k].elem) by {
      assert Ask(OfStep, 0);
      assert Ask(OfTop, 0);
    }
    SortGoesWrong(s.w[0], Entry(nv, 1), s.w[2], s.w[1], ranked);
    var left := s.w[0].elem.fqdn;
    assert left in s'.counts && s'.counts[left] == 2 && counts[2] == 1;
    assert s.w[0].elem != s.w[1].elem && s.w[0].elem != s.w[2].elem;
    assert shown == [s.w[1].elem.fqdn, s.w[2].elem.fqdn, nv.fqdn];
  }

  /** The tree as written does give that report. */
  method ReportDisorder(nil: Node) returns (shown: seq<string>, counts: seq<nat>)
    requires nil.color == Black && nil.parent == nil.left == nil.right == nil
    ensures counts == [2, 2, 1] && Truthful(shown, counts, Tally(Disorder()))
    ensures !Dominates(shown, counts, Tally(Disorder()))
  {
    var t;
    ghost var trace, ranked;
    t, shown, counts, trace, ranked := Report(Disorder(), nil, false, 3);
    DisorderMisreports(trace, ranked, shown, counts);
  }
}
