/** The counted names of src/log_name_tree.c: a red-black tree and an LRU list over the same
    records, and a heap of the thousand records that count most. */
module NameTree {
  import opened CountHeap
  import opened HeapOrder
  import opened LruList
  import opened NameIndex
  import opened RedBlackAlgebra
  import opened RedBlackTree
  import opened Sealing
  import opened TopRank
  import opened Sequences

  const MAX_NAME_LEN := 32

  /** With the trailing dot. */
  function Normal(name: string): string
    requires name != ""
  {
    if name[|name| - 1] == '.' then name else name + "."
  }

  predicate Dotted(name: string) {
    name != "" && name[|name| - 1] == '.'
  }

  /** Nothing of a name is lost: a dot follows if there is none. */
  lemma NormalMeans(name: string)
    requires name != ""
    ensures name <= Normal(name) && Dotted(Normal(name)) && |Normal(name)| <= |name| + 1
    ensures Dotted(name) ==> Normal(name) == name
  {
  }

  /** Two names are one exactly if they are equal or differ by the final dot alone. */
  lemma SameNormalIff(a: string, b: string)
    requires a != "" && b != ""
    ensures Normal(a) == Normal(b) <==>
      a == b || (a + "." == b && !Dotted(a)) || (b + "." == a && !Dotted(b))
  {
    var n := Normal(a);
    if n == Normal(b) {
      assert a == n || a == n[..|n| - 1];
      assert b == n || b == n[..|n| - 1];
    }
  }

  /** The buffer of a record holds the normalised name and its terminator, or the name is refused. */
  predicate Fits(name: string) {
    |name| >= MAX_NAME_LEN || (name != "" && |Normal(name)| < MAX_NAME_LEN)
  }

  datatype Option<T> = None | Some(value: T)

  function FirstDot(name: string): (i: nat)
    requires name != "" && name[|name| - 1] == '.'
    ensures i < |name| && name[i] == '.' && forall j :: 0 <= j < i ==> name[j] != '.'
  {
    if name[0] == '.' then 0 else 1 + FirstDot(name[1..])
  }

  /** The name without its first label; the parent of a top-level name is the root name. */
  function ParentName(name: string): Option<string>
    requires name != "" && name[|name| - 1] == '.'
  {
    if name == "." then None
    else if FirstDot(name) == |name| - 1 then Some(name[FirstDot(name)..])
    else Some(name[FirstDot(name) + 1..])
  }

  /** The first label goes with its dot; the root name is the parent of what is left then, and has none. */
  lemma {:induction false} ParentOfLabel(first: string, rest: string)
    requires '.' !in first && (rest == "" || Dotted(rest))
    ensures Dotted(first + "." + rest)
    ensures ParentName(first + "." + rest) ==
      if rest != "" then Some(rest) else if first != "" then Some(".") else None
  {
    FirstDotIs(first, rest);
    var name := first + "." + rest;
    assert name[|first| + 1..] == rest && name[|first|..] == "." + rest;
    assert |name| == |first| + 1 + |rest|;
    if rest != "" {
      assert |name| > 1 && ParentName(name) == Some(name[|first| + 1..]);
    } else if first != "" {
      assert |name| > 1 && ParentName(name) == Some(name[|first|..]) && name[|first|..] == ".";
    } else {
      assert name == ".";
    }
  }

  lemma {:induction false} FirstDotIs(first: string, rest: string)
    requires '.' !in first && (rest == "" || Dotted(rest))
    ensures Dotted(first + "." + rest) && FirstDot(first + "." + rest) == |first|
  {
    var name := first + "." + rest;
    assert name[|first|] == '.' && forall j :: 0 <= j < |first| ==> name[j] == first[j];
  }

  /** A suffix starts at a label boundary at `i`: the whole name, what follows a dot, or the root name. */
  predicate AtLabel(name: string, i: nat) {
    i == 0 || (i < |name| && name[i - 1] == '.') || i == |name| - 1
  }

  predicate ClosestAt(name: string, vals: map<string, NodeValue>, i: nat)
    requires i < |name|
  {
    && AtLabel(name, i) && name[i..] in vals
    && forall j :: 0 <= j < i && AtLabel(name, j) ==> name[j..] !in vals
  }

  /** No suffix at a label boundary before `at` is among `vals`. */
  ghost predicate Passed(name: string, vals: map<string, NodeValue>, at: nat, pos: string) {
    && at < |name| && |pos| == |name| - at && pos != "" && pos[|pos| - 1] == '.'
    && forall u :: Ask(OfNames, u) ==>
      && pos == name[at..] && AtLabel(name, at)
      && forall j :: 0 <= j < at && AtLabel(name, j) ==> name[j..] !in vals
  }

  ghost predicate Closest(name: string, vals: map<string, NodeValue>, nv: NodeValue?) {
    forall u :: Ask(OfNames, u) ==>
      if nv == null then forall i :: 0 <= i < |name| && AtLabel(name, i) ==> name[i..] !in vals
      else exists i :: 0 <= i < |name| && ClosestAt(name, vals, i) && nv == vals[name[i..]]
  }

  lemma PassedStart(name: string, vals: map<string, NodeValue>)
    requires name != "" && name[|name| - 1] == '.'
    ensures Passed(name, vals, 0, name)
  {
  }

  lemma PassedFound(name: string, vals: map<string, NodeValue>, at: nat, pos: string)
    requires Passed(name, vals, at, pos) && pos in vals
    ensures Closest(name, vals, vals[pos])
  {
    assert Ask(OfNames, 0);
    assert ClosestAt(name, vals, at);
  }

  lemma PassedOn(name: string, vals: map<string, NodeValue>, at: nat, pos: string)
    requires Passed(name, vals, at, pos) && pos !in vals
    ensures match ParentName(pos)
      case None => Closest(name, vals, null)
      case Some(parent) => |parent| < |pos| <= |name| && Passed(name, vals, |name| - |parent|, parent)
  {
    assert Ask(OfNames, 0);
    ParentIsNext(name, at);
  }

  /** The parent of a suffix is the next suffix at a label boundary. */
  lemma ParentIsNext(name: string, at: nat)
    requires at < |name| && name[|name| - 1] == '.'
    ensures match ParentName(name[at..])
      case None => at == |name| - 1
      case Some(parent) =>
        var next := |name| - |parent|;
        && at < next < |name| && name[next..] == parent && parent[|parent| - 1] == '.'
        && AtLabel(name, next) && forall j :: at < j < next ==> !AtLabel(name, j)
  {
    var s := name[at..];
    if s != "." {
      var dot := FirstDot(s);
      forall k | at <= k < at + dot ensures name[k] != '.' {
        assert name[k] == s[k - at];
      }
    }
  }

  /** A name as the records hold it. */
  predicate Proper(name: string) {
    name != "" && Normal(name) == name && |name| < MAX_NAME_LEN
  }

  ghost predicate Named(vals: map<string, NodeValue>) {
    forall u :: Ask(OfNames, u) ==> forall s :: s in vals ==> vals[s].fqdn == s && Proper(s)
  }

  lemma NamedAdd(vals: map<string, NodeValue>, nv: NodeValue)
    requires Named(vals) && Proper(nv.fqdn)
    ensures Named(vals[nv.fqdn := nv])
  {
    assert Ask(OfNames, 0);
  }

  lemma NamedOf(vals: map<string, NodeValue>, s: string)
    requires Named(vals) && s in vals
    ensures vals[s].fqdn == s && Proper(s)
  {
    assert Ask(OfNames, 0);
  }

  lemma NamedDrop(vals: map<string, NodeValue>, s: string)
    requires Named(vals)
    ensures Named(vals - {s})
  {
    assert Ask(OfNames, 0);
  }

  /** Every record knows its cell. */
  ghost predicate Told(vals: map<string, NodeValue>, order: seq<string>, cells: seq<Cell>)
    reads vals.Values`ptr
  {
    && |order| == |cells|
    && (forall u :: Ask(OfCells, u) ==>
         forall k :: 0 <= k < |order| ==> order[k] in vals && vals[order[k]].ptr == cells[k])
  }

  /** No record knows of a slot that the heap does not have. */
  ghost predicate InRange(vals: map<string, NodeValue>, len: nat)
    reads vals.Values`heapIndex
  {
    forall u :: Ask(OfRange, u) ==> forall s :: s in vals ==> -1 <= vals[s].heapIndex < len
  }

  lemma ToldCell(vals: map<string, NodeValue>, order: seq<string>, cells: seq<Cell>, at: nat)
    requires Told(vals, order, cells) && at < |order|
    ensures order[at] in vals && vals[order[at]].ptr == cells[at]
  {
    assert Ask(OfCells, 0);
  }

  lemma ToldAdd(vals: map<string, NodeValue>, order: seq<string>, cells: seq<Cell>, nv: NodeValue)
    requires Told(vals, order, cells) && nv.fqdn !in vals && nv.ptr != null
    ensures Told(vals[nv.fqdn := nv], [nv.fqdn] + order, [nv.ptr] + cells)
  {
    assert Ask(OfCells, 0);
  }

  lemma ToldTouch(vals: map<string, NodeValue>, order: seq<string>, cells: seq<Cell>, at: nat)
    requires Told(vals, order, cells) && at < |order|
    ensures Told(vals, [order[at]] + Without(order, at), [cells[at]] + Without(cells, at))
  {
    assert Ask(OfCells, 0);
  }

  lemma ToldDrop(vals: map<string, NodeValue>, order: seq<string>, cells: seq<Cell>, at: nat)
    requires Told(vals, order, cells) && at < |order| && order[at] !in Without(order, at)
    ensures Told(vals - {order[at]}, Without(order, at), Without(cells, at))
  {
    assert Ask(OfCells, 0);
    forall k | 0 <= k < |order| - 1 ensures Without(order, at)[k] in vals - {order[at]} {
      assert Without(order, at)[k] in Without(order, at);
    }
  }

  lemma InRangeDrop(vals: map<string, NodeValue>, len: nat, key: string)
    requires InRange(vals, len)
    ensures InRange(vals - {key}, len)
  {
    assert Ask(OfRange, 0);
  }

  lemma InRangeAdd(vals: map<string, NodeValue>, len: nat, nv: NodeValue)
    requires InRange(vals, len) && -1 <= nv.heapIndex < len
    ensures InRange(vals[nv.fqdn := nv], len)
  {
    assert Ask(OfRange, 0);
  }

  lemma InRangeOf(vals: map<string, NodeValue>, len: nat, nv: NodeValue)
    requires InRange(vals, len) && nv.fqdn in vals && vals[nv.fqdn] == nv
    ensures -1 <= nv.heapIndex < len
  {
    assert Ask(OfRange, 0);
  }

  /** Every slot of the heap is known to its element, as long as no name has left the tree. */
  ghost predicate Kept(heap: Heap, intact: bool)
    reads heap, heap.heap, heap.elems`heapIndex
  {
    heap.len == |heap.elems| && forall u :: Ask(OfSlots, u) ==> heap.Valid() && (intact ==> Indexed(heap.elems))
  }

  /** Whoever in `s` has been told a slot since then was told one of the first `n`, or none. */
  twostate predicate Slotted(s: seq<NodeValue>, n: nat)
    reads s`heapIndex
  {
    forall k :: 0 <= k < |s| ==> s[k].heapIndex == old(s[k].heapIndex) || -1 <= s[k].heapIndex < n
  }

  /** `repr` covers the records, those in the tree and those in the heap. */
  ghost predicate Covers(repr: set<object>, vals: map<string, NodeValue>, elems: seq<NodeValue>) {
    forall u :: Ask(OfRecords, u) ==> vals.Values <= repr && (set v | v in elems) <= repr
  }

  lemma CoversMore(repr: set<object>, vals: map<string, NodeValue>, elems: seq<NodeValue>, nv: NodeValue)
    requires Covers(repr, vals, elems)
    ensures Covers(repr + {nv}, vals[nv.fqdn := nv], elems)
  {
    assert Ask(OfRecords, 0);
  }

  /** A record is in the heap exactly when it believes to be. */
  ghost predicate AwareIn(vals: map<string, NodeValue>, indices: map<string, int>, elems: seq<NodeValue>) {
    forall u :: Ask(OfTop, u) ==> forall s :: s in vals ==> s in indices && (indices[s] != -1 <==> vals[s] in elems)
  }

  predicate StuckIn(vals: map<string, NodeValue>, indices: map<string, int>, elems: seq<NodeValue>, s: string) {
    s in vals && s in indices && indices[s] != -1 && vals[s] !in elems
  }

  /** What one count more for `nv` does to who is in the heap and who believes to be. */
  ghost predicate IndexStep(vals: map<string, NodeValue>, was: map<string, int>, elems: seq<NodeValue>, nv: NodeValue,
                            evicting: bool, repaired: bool, now: map<string, int>, elems': seq<NodeValue>)
  {
    forall u :: Ask(OfIndices, u) ==>
      && (forall s :: s in vals ==> s in was && s in now)
      && (forall s :: s in vals && vals[s] in elems' ==> now[s] != -1)
      && (forall s :: s in vals && vals[s] !in elems' ==>
           now[s] == if evicting && elems != [] && vals[s] == elems[0] then (if repaired then -1 else 0) else was[s])
      && (evicting ==> |elems| > 0 && elems[0] !in elems' && Within(elems[1..], elems'))
      && (!evicting ==> Within(elems, elems'))
      && Within(elems', elems + if nv.fqdn in was && was[nv.fqdn] == -1 then [nv] else [])
  }

  lemma AwareStep(vals: map<string, NodeValue>, was: map<string, int>, elems: seq<NodeValue>, nv: NodeValue,
                  evicting: bool, repaired: bool, now: map<string, int>, elems': seq<NodeValue>)
    requires IndexStep(vals, was, elems, nv, evicting, repaired, now, elems')
    requires AwareIn(vals, was, elems) && (repaired || !evicting)
    ensures AwareIn(vals, now, elems')
  {
    assert Ask(OfIndices, 0);
    assert Ask(OfTop, 0);
    forall s | s in vals ensures now[s] != -1 <==> vals[s] in elems' {
      if evicting {
        WithinTail(elems, elems', vals[s]);
      } else {
        WithinOf(elems, elems', vals[s]);
      }
    }
  }

  /** As written, whoever is driven out believes to be in the heap still. */
  lemma EvictedIsStuck(vals: map<string, NodeValue>, was: map<string, int>, elems: seq<NodeValue>, nv: NodeValue,
                       now: map<string, int>, elems': seq<NodeValue>, s: string)
    requires IndexStep(vals, was, elems, nv, true, false, now, elems') && s in vals && |elems| > 0
    requires elems[0] == vals[s]
    ensures StuckIn(vals, now, elems', s)
  {
    assert Ask(OfIndices, 0);
  }

  /** And so it never comes back. */
  lemma StuckStays(vals: map<string, NodeValue>, was: map<string, int>, elems: seq<NodeValue>, nv: NodeValue,
                   evicting: bool, repaired: bool, now: map<string, int>, elems': seq<NodeValue>, s: string)
    requires IndexStep(vals, was, elems, nv, evicting, repaired, now, elems')
    requires StuckIn(vals, was, elems, s) && vals[s].fqdn == s
    ensures StuckIn(vals, now, elems', s)
  {
    assert Ask(OfIndices, 0);
    WithinOf(elems', elems + if nv.fqdn in was && was[nv.fqdn] == -1 then [nv] else [], vals[s]);
  }

  /** Whether one count more for a record that counts `c` and believes to be at `idx` drives the
      least one out of the heap. */
  predicate Evicting(w: seq<Entry<NodeValue>>, idx: int, c: nat) {
    idx == -1 && |w| == TOP && w[0].weight <= c
  }

  /** What the records and the heap say. */
  datatype Page = Page(counts: map<string, nat>, indices: map<string, int>, elems: seq<NodeValue>,
                       w: seq<Entry<NodeValue>>)
  {
    /** With the name on it. */
    function With(key: string): Page {
      if key in counts then this else this.(counts := counts[key := 0], indices := indices[key := -1])
    }
  }

  /** A name tree at one moment: the records by name, their counts, the slots they believe to
      be in, the heap and its weights, and the number of names. */
  datatype Snapshot = Snapshot(vals: map<string, NodeValue>, counts: map<string, nat>, indices: map<string, int>,
                               elems: seq<NodeValue>, w: seq<Entry<NodeValue>>, n: nat)
  {
    ghost predicate Fair() {
      && counts.Keys == vals.Keys == indices.Keys && |w| == |elems|
      && n == |vals| && (forall s :: s in vals ==> vals[s].fqdn == s)
      && (forall k :: 0 <= k < |w| ==> w[k].elem == elems[k])
      && forall k :: 0 <= k < |w| && w[k].elem.fqdn in vals && vals[w[k].elem.fqdn] == w[k].elem ==>
           w[k].weight == counts[w[k].elem.fqdn]
    }

    ghost predicate Everyone() {
      AllIn(vals, w, n)
    }

    ghost predicate Aware() {
      AwareIn(vals, indices, elems)
    }

    ghost predicate TopN() {
      Everyone() && Leading(vals, counts, w) && Aware()
    }

    function CountOf(key: string): nat {
      if key in counts then counts[key] else 0
    }

    function IndexOf(key: string): int {
      if key in indices then indices[key] else -1
    }

    function Said(): Page {
      Page(counts, indices, elems, w)
    }

    /** Whether one count more for the name drives the least record out of the heap. */
    predicate Evicts(key: string) {
      Evicting(w, IndexOf(key), CountOf(key))
    }

    /** Whether the record of the name, should it enter a heap with room, is well placed one
        level up at most. */
    predicate RiseFits(key: string) {
      IndexOf(key) == -1 && |w| < TOP ==> RiseSuffices(w, CountOf(key) + 1)
    }

    /** Whoever is outside the heap, and does not believe otherwise, counts no more than its least. */
    ghost predicate Honest() {
      forall a :: a in vals && a in indices && a in counts && vals[a] !in elems && indices[a] == -1 ==>
        |w| > 0 && counts[a] <= w[0].weight
    }
  }

  /** What it means to be the top thousand. */
  lemma TopNMeans(s: Snapshot)
    requires s.Fair() && s.TopN()
    ensures forall a :: a in s.vals ==> (s.vals[a] in s.elems <==> s.indices[a] != -1)
    ensures |s.elems| == if s.n < 1000 then s.n else 1000
    ensures s.n <= 1000 ==> forall a :: a in s.vals ==> s.vals[a] in s.elems
    ensures forall a, b :: a in s.vals && b in s.vals && s.vals[a] !in s.elems && s.vals[b] in s.elems ==>
      s.counts[a] <= s.counts[b]
  {
    assert Ask(OfTop, 0);
    forall a | a in s.vals && s.vals[a] !in s.elems
      ensures s.n > TOP && forall b :: b in s.vals && s.vals[b] in s.elems ==> s.counts[a] <= s.counts[b]
    {
      assert !Holds(s.w, s.vals[a]);
      forall b | b in s.vals && s.vals[b] in s.elems ensures s.counts[a] <= s.counts[b] {
        var k :| 0 <= k < |s.elems| && s.elems[k] == s.vals[b];
        assert s.w[k].elem == s.vals[b];
        RootIsLeast(s.w, k);
      }
    }
  }

  /** Nothing inserted yet. */
  lemma EmptyIsTopN(s: Snapshot)
    requires s.vals == map[] && s.counts == map[] && s.indices == map[] && s.elems == [] && s.w == [] && s.n == 0
    ensures s.Fair() && s.TopN()
  {
  }

  /** Before any eviction the heap and the tree hold the same records, as written too. */
  lemma EveryoneIsIn(s: Snapshot)
    requires s.Fair() && s.Everyone() && s.n <= TOP
    ensures forall a :: a in s.vals ==> s.vals[a] in s.elems
    ensures forall k :: 0 <= k < |s.elems| ==> s.elems[k].fqdn in s.vals && s.vals[s.elems[k].fqdn] == s.elems[k]
  {
    assert Ask(OfTop, 0);
    forall a | a in s.vals ensures s.vals[a] in s.elems {
      assert Holds(s.w, s.vals[a]);
    }
  }

  function OneMore(counts: map<string, nat>, name: string): map<string, nat> {
    counts[name := (if name in counts then counts[name] else 0) + 1]
  }

  lemma StepKeeps(s: Snapshot, key: string, nv: NodeValue, repaired: bool, s': Snapshot)
    requires s.Fair() && s'.Fair() && InsertStep(s, nv, repaired, s') && nv.fqdn == key
    ensures s'.counts == OneMore(s.counts, key)
    ensures s.Everyone() ==> s'.Everyone()
    ensures repaired && s.TopN() ==> s'.TopN()
  {
    if s.Everyone() {
      InsertKeepsEveryone(s, nv, repaired, s');
    }
    if repaired && s.TopN() {
      InsertKeepsTopN(s, nv, s');
    }
  }

  /** One insertion of the name of `nv`, seen on snapshots. */
  ghost predicate InsertStep(s: Snapshot, nv: NodeValue, repaired: bool, s': Snapshot) {
    && s'.counts == s.counts[nv.fqdn := s.CountOf(nv.fqdn) + 1]
    && forall u :: Ask(OfStep, u) ==> InsertParts(s, nv, repaired, s')
  }

  ghost predicate InsertParts(s: Snapshot, nv: NodeValue, repaired: bool, s': Snapshot) {
    var key := nv.fqdn;
    && Joined(s.vals, s.n, nv, s.IndexOf(key), s'.vals, s'.n)
    && (key !in s.vals ==> nv !in s.elems)
    && Apart(s.w, s.IndexOf(key), nv)
    && Counted(s.w, s.IndexOf(key), nv, s.CountOf(key) + 1, repaired, s'.w)
    && IndexStep(s'.vals, s.indices[key := s.IndexOf(key)], s.elems, nv, s.Evicts(key), repaired, s'.indices, s'.elems)
  }

  /** A step from its parts. */
  lemma MakeStep(s: Snapshot, nv: NodeValue, repaired: bool, s': Snapshot, intact: bool)
    requires Met(s, nv, s'.vals, s'.n) && Stepped(s.Said().With(nv.fqdn), nv, repaired, intact, s')
    ensures s'.counts == OneMore(s.counts, nv.fqdn)
    ensures intact ==> InsertStep(s, nv, repaired, s')
  {
    var key := nv.fqdn;
    assert s.Said().With(key).indices == s.indices[key := s.IndexOf(key)];
    assert s'.counts == s.counts[key := s.CountOf(key) + 1];
  }

  lemma AwareJoin(s: Snapshot, nv: NodeValue, repaired: bool, s': Snapshot)
    requires s.Fair() && InsertStep(s, nv, repaired, s') && s.Aware()
    ensures AwareIn(s'.vals, s.indices[nv.fqdn := s.IndexOf(nv.fqdn)], s.elems)
  {
    assert Ask(OfStep, 0);
    assert Ask(OfTop, 0);
  }

  lemma InsertKeepsEveryone(s: Snapshot, nv: NodeValue, repaired: bool, s': Snapshot)
    requires s.Fair() && s'.Fair() && InsertStep(s, nv, repaired, s') && s.Everyone()
    ensures s'.Everyone()
  {
    assert Ask(OfStep, 0);
    AllInStep(s.vals, s.w, s.n, nv, s.IndexOf(nv.fqdn), s.CountOf(nv.fqdn) + 1, repaired, s'.vals, s'.w, s'.n);
  }

  lemma InsertKeepsTopN(s: Snapshot, nv: NodeValue, s': Snapshot)
    requires s.Fair() && s'.Fair() && InsertStep(s, nv, true, s') && s.TopN()
    ensures s'.TopN()
  {
    assert Ask(OfStep, 0);
    var key := nv.fqdn;
    InsertKeepsEveryone(s, nv, true, s');
    AwareJoin(s, nv, true, s');
    AwareStep(s'.vals, s.indices[key := s.IndexOf(key)], s.elems, nv, s.Evicts(key), true, s'.indices, s'.elems);
    if s.IndexOf(key) != -1 {
      AwareHolds(s, nv);
    }
    LeadingStep(s.vals, s.counts, s.w, s.n, nv, s.IndexOf(key), s.CountOf(key) + 1, s'.vals, s'.w, s'.n);
  }

  lemma AwareHolds(s: Snapshot, nv: NodeValue)
    requires s.Fair() && s.Aware() && nv.fqdn in s.vals && s.vals[nv.fqdn] == nv && s.indices[nv.fqdn] != -1
    ensures Holds(s.w, nv)
  {
    assert Ask(OfTop, 0);
    var k :| 0 <= k < |s.elems| && s.elems[k] == nv;
    assert s.w[k].elem == nv;
  }

  /** As written, every record goes on knowing whether it is in the heap just when the
      insertion drives none out. */
  lemma InsertKeepsAwareIff(s: Snapshot, nv: NodeValue, repaired: bool, s': Snapshot)
    requires s.Fair() && s'.Fair() && InsertStep(s, nv, repaired, s') && s.Everyone() && s.Aware()
    ensures s'.Aware() <==> repaired || !s.Evicts(nv.fqdn)
  {
    assert Ask(OfStep, 0);
    var key := nv.fqdn;
    var was := s.indices[key := s.IndexOf(key)];
    AwareJoin(s, nv, repaired, s');
    if repaired || !s.Evicts(key) {
      AwareStep(s'.vals, was, s.elems, nv, s.Evicts(key), repaired, s'.indices, s'.elems);
    } else {
      var name := EvictionSticks(s, nv, s');
      assert Ask(OfTop, 0);
    }
  }

  /** As written, an eviction leaves a record that believes wrongly to be in the heap. */
  lemma EvictionSticks(s: Snapshot, nv: NodeValue, s': Snapshot) returns (name: string)
    requires s.Fair() && s'.Fair() && InsertStep(s, nv, false, s') && s.Everyone() && s.Evicts(nv.fqdn)
    ensures StuckIn(s'.vals, s'.indices, s'.elems, name)
  {
    assert Ask(OfStep, 0);
    assert Ask(OfTop, 0);
    assert s.w[0].elem == s.elems[0];
    name := s.elems[0].fqdn;
    EvictedIsStuck(s'.vals, s.indices[nv.fqdn := s.IndexOf(nv.fqdn)], s.elems, nv, s'.indices, s'.elems, name);
  }

  /** As written, the heap stays in order exactly when the record does not enter it as it grows, or
      need not rise more than one level. */
  lemma InsertKeepsOrderIff(s: Snapshot, nv: NodeValue, s': Snapshot)
    requires s.Fair() && s'.Fair() && InsertStep(s, nv, false, s') && Ordered(s.w)
    ensures Ordered(s'.w) <==> s.RiseFits(nv.fqdn)
  {
    assert Ask(OfStep, 0);
    assert Ask(OfCounting, 0);
    assert Ask(OfShape, 0);
    var idx, e := s.IndexOf(nv.fqdn), Entry(nv, s.CountOf(nv.fqdn) + 1);
    if idx != -1 {
      if s.w[idx].elem == nv {
        assert Bumped(s.w, idx, nv, e.weight) == s.w[idx := e];
        GrownSifts(s.w, idx, e, s'.w);
      } else {
        assert s.w[idx := s.w[idx]] == s.w;
        GrownSifts(s.w, idx, s.w[idx], s'.w);
      }
    } else if |s.w| < TOP {
      assert s'.w == Rise(s.w + [e], |s.w|, e);
      RiseKeepsOrderIff(s.w, e);
    } else if s.w[0].weight < e.weight {
      SiftOrders(s.w, 0, e);
    }
  }

  /** As written, the heap stays the top thousand exactly when the insertion drives no record out
      and its record need not rise more than one level. */
  lemma InsertKeepsTopNIff(s: Snapshot, nv: NodeValue, s': Snapshot)
    requires s.Fair() && s'.Fair() && InsertStep(s, nv, false, s') && s.TopN()
    ensures s'.TopN() <==> !s.Evicts(nv.fqdn) && s.RiseFits(nv.fqdn)
  {
    LeadingIsOrdered(s);
    LeadingIsOrdered(s');
    InsertKeepsEveryone(s, nv, false, s');
    InsertKeepsAwareIff(s, nv, false, s');
    InsertKeepsOrderIff(s, nv, s');
    if s'.n <= TOP {
      LeadsIffOrdered(s');
    } else if !s.Evicts(nv.fqdn) {
      FullInsertLeads(s, nv, s');
    }
  }

  /** Where the heap is full the insertion as written leads on as the repaired one does. */
  lemma FullInsertLeads(s: Snapshot, nv: NodeValue, s': Snapshot)
    requires s.Fair() && s'.Fair() && InsertStep(s, nv, false, s') && s.TopN() && s'.n > TOP
    ensures Leading(s'.vals, s'.counts, s'.w)
  {
    assert Ask(OfStep, 0);
    var key := nv.fqdn;
    if s.IndexOf(key) != -1 {
      AwareHolds(s, nv);
    }
    assert Counted(s.w, s.IndexOf(key), nv, s.CountOf(key) + 1, true, s'.w) by {
      assert Ask(OfCounting, 0);
      assert Ask(OfTop, 0);
    }
    LeadingStep(s.vals, s.counts, s.w, s.n, nv, s.IndexOf(key), s.CountOf(key) + 1, s'.vals, s'.w, s'.n);
  }

  lemma LeadingIsOrdered(s: Snapshot)
    requires s.Fair()
    ensures Leading(s.vals, s.counts, s.w) ==> Ordered(s.w)
  {
    assert Ask(OfTop, 0);
  }

  /** Up to a thousand names nobody is outside, so that order is all there is to leading. */
  lemma LeadsIffOrdered(s: Snapshot)
    requires s.Fair() && s.Everyone() && s.n <= TOP
    ensures Leading(s.vals, s.counts, s.w) <==> Ordered(s.w)
  {
    assert Ask(OfTop, 0);
  }

  /** As written, while the heap is in order: whoever is outside and knows it counts no more than
      the least inside. */
  lemma InsertKeepsHonest(s: Snapshot, nv: NodeValue, s': Snapshot)
    requires s.Fair() && s'.Fair() && InsertStep(s, nv, false, s') && s.Everyone() && s.Honest() && Ordered(s.w)
    ensures s'.Honest()
  {
    InsertKeepsEveryone(s, nv, false, s');
    if s'.n <= TOP {
      EveryoneIsIn(s');
    } else {
      assert |s.w| == TOP by {
        assert Ask(OfStep, 0);
        assert Ask(OfTop, 0);
      }
      FullInsertHonest(s, nv, s');
    }
  }

  /** As written too, a record that counts more than the least of a full heap gets in. */
  lemma HeavyEnters(s: Snapshot, nv: NodeValue, s': Snapshot)
    requires s.Fair() && s'.Fair() && InsertStep(s, nv, false, s') && s.Evicts(nv.fqdn)
    ensures nv in s'.elems
  {
    assert Ask(OfStep, 0);
    assert Ask(OfCounting, 0);
    var e := Entry(nv, s.CountOf(nv.fqdn) + 1);
    SiftedSame(s.w, 0, e, s'.w);
    assert s.w[0 := e][0] == e;
    assert e in multiset(s'.w);
    var k :| 0 <= k < |s'.w| && s'.w[k] == e;
    assert s'.elems[k] == nv;
  }

  /** Who is outside afterwards and knows it was so before, or is the record that was counted. */
  lemma OutsideBefore(s: Snapshot, nv: NodeValue, s': Snapshot, a: string)
    requires s.Fair() && s'.Fair() && InsertStep(s, nv, false, s') && a in s'.vals && a != nv.fqdn
    requires s'.vals[a] !in s'.elems && s'.indices[a] == -1
    ensures a in s.vals && s.vals[a] !in s.elems && s.indices[a] == -1 && s'.counts[a] == s.counts[a]
  {
    assert Ask(OfStep, 0);
    assert Ask(OfIndices, 0);
    if s.Evicts(nv.fqdn) {
      WithinTail(s.elems, s'.elems, s'.vals[a]);
    } else {
      WithinOf(s.elems, s'.elems, s'.vals[a]);
    }
  }

  lemma FullInsertHonest(s: Snapshot, nv: NodeValue, s': Snapshot)
    requires s.Fair() && s'.Fair() && InsertStep(s, nv, false, s') && s.Honest() && Ordered(s.w) && |s.w| == TOP
    ensures s'.Honest()
  {
    FullInsertLeast(s, nv, s');
    forall a | a in s'.vals && s'.vals[a] !in s'.elems && s'.indices[a] == -1
      ensures |s'.w| > 0 && s'.counts[a] <= s'.w[0].weight
    {
      if a == nv.fqdn {
        assert s'.vals[a] == nv by {
          assert Ask(OfStep, 0);
        }
        NewcomerIsLight(s, nv, s');
      } else {
        OutsideBefore(s, nv, s', a);
      }
    }
  }

  lemma FullInsertLeast(s: Snapshot, nv: NodeValue, s': Snapshot)
    requires s.Fair() && s'.Fair() && InsertStep(s, nv, false, s') && Ordered(s.w) && |s.w| == TOP
    ensures |s'.w| == TOP && s.w[0].weight <= s'.w[0].weight
  {
    assert Ask(OfStep, 0);
    assert Ask(OfCounting, 0);
    CountedLeast(s.w, s.IndexOf(nv.fqdn), nv, s.CountOf(nv.fqdn) + 1, false, s'.w);
  }

  /** As written too, a full heap in order stays so. */
  lemma FullStepKeepsOrder(s: Snapshot, nv: NodeValue, s': Snapshot)
    requires s.Fair() && s'.Fair() && InsertStep(s, nv, false, s') && Ordered(s.w) && |s.w| == TOP
    ensures |s'.w| == TOP && Ordered(s'.w) && s.w[0].weight <= s'.w[0].weight
  {
    InsertKeepsOrderIff(s, nv, s');
    FullInsertLeast(s, nv, s');
  }

  lemma NewcomerIsLight(s: Snapshot, nv: NodeValue, s': Snapshot)
    requires s.Fair() && s'.Fair() && InsertStep(s, nv, false, s') && Ordered(s.w) && |s.w| == TOP == |s'.w|
    requires nv !in s'.elems && nv.fqdn in s'.vals && s'.vals[nv.fqdn] == nv && s'.indices[nv.fqdn] == -1
    ensures s'.counts[nv.fqdn] <= s'.w[0].weight
  {
    assert Ask(OfStep, 0);
    assert Ask(OfIndices, 0);
    assert s.IndexOf(nv.fqdn) == -1;
    if s.Evicts(nv.fqdn) {
      HeavyEnters(s, nv, s');
    } else {
      assert Ask(OfCounting, 0);
    }
  }

  lemma InsertKeepsStuck(s: Snapshot, nv: NodeValue, repaired: bool, s': Snapshot, name: string)
    requires s.Fair() && s'.Fair() && InsertStep(s, nv, repaired, s') && StuckIn(s.vals, s.indices, s.elems, name)
    ensures StuckIn(s'.vals, s'.indices, s'.elems, name)
  {
    assert Ask(OfStep, 0);
    StuckStays(s'.vals, s.indices[nv.fqdn := s.IndexOf(nv.fqdn)], s.elems, nv, s.Evicts(nv.fqdn), repaired,
               s'.indices, s'.elems, name);
  }

  lemma CoversLess(repr: set<object>, vals: map<string, NodeValue>, elems: seq<NodeValue>, key: string)
    requires Covers(repr, vals, elems)
    ensures Covers(repr, vals - {key}, elems)
  {
    assert Ask(OfRecords, 0);
  }

  // ---------- what belongs to a tree of names, and what its records say ----------

  function Extent(repr: set<object>, nodes: set<Node>, cells: seq<Cell>): set<object> {
    repr + nodes + set c | c in cells
  }

  lemma ExtentEmpty(repr: set<object>)
    ensures Extent(repr, {}, []) == repr
  {
  }

  lemma ExtentAdd(repr: set<object>, nodes: set<Node>, cells: seq<Cell>, nv: NodeValue, node: Node, cell: Cell)
    ensures Extent(repr + {nv}, nodes + {node}, [cell] + cells) <= Extent(repr, nodes, cells) + {nv, node, cell}
  {
  }

  lemma ExtentTouch(repr: set<object>, nodes: set<Node>, cells: seq<Cell>, at: nat)
    requires at < |cells|
    ensures Extent(repr, nodes, [cells[at]] + Without(cells, at)) == Extent(repr, nodes, cells)
  {
    assert forall c :: c in [cells[at]] + Without(cells, at) <==> c in cells by {
      assert cells == cells[..at] + [cells[at]] + cells[at + 1..];
    }
  }

  lemma ExtentLess(repr: set<object>, nodes: set<Node>, cells: seq<Cell>, nodes': set<Node>, cells': seq<Cell>)
    requires nodes' <= nodes && forall k :: 0 <= k < |cells'| ==> cells'[k] in cells
    ensures Extent(repr, nodes', cells') <= Extent(repr, nodes, cells)
  {
  }

  ghost function CountsIn(vals: map<string, NodeValue>): map<string, nat>
    reads vals.Values`count
  {
    map s | s in vals :: vals[s].count
  }

  ghost function IndicesIn(vals: map<string, NodeValue>): map<string, int>
    reads vals.Values`heapIndex
  {
    map s | s in vals :: vals[s].heapIndex
  }

  lemma SaidByOneMore(vals: map<string, NodeValue>, nv: NodeValue)
    ensures CountsIn(vals[nv.fqdn := nv]) == CountsIn(vals)[nv.fqdn := nv.count]
    ensures IndicesIn(vals[nv.fqdn := nv]) == IndicesIn(vals)[nv.fqdn := nv.heapIndex]
  {
  }

  lemma SaidByOneLess(vals: map<string, NodeValue>, key: string)
    ensures CountsIn(vals - {key}) == CountsIn(vals) - {key}
  {
  }

  /** The heap and the records are in order and say what `page` says. */
  ghost predicate Ledger(heap: Heap, vals: map<string, NodeValue>, intact: bool, page: Page)
    reads heap, heap.heap, heap.elems`count, heap.elems`heapIndex, vals.Values`count, vals.Values`heapIndex
  {
    forall u :: Ask(OfLedger, u) ==>
      && Kept(heap, intact) && InRange(vals, heap.len)
      && page == Page(CountsIn(vals), IndicesIn(vals), heap.elems, Weigh(heap.elems))
  }

  lemma LedgerSays(heap: Heap, vals: map<string, NodeValue>, intact: bool, page: Page)
    requires Ledger(heap, vals, intact, page)
    ensures Kept(heap, intact) && InRange(vals, heap.len)
    ensures page == Page(CountsIn(vals), IndicesIn(vals), heap.elems, Weigh(heap.elems))
  {
    assert Ask(OfLedger, 0);
  }

  lemma LedgerOf(heap: Heap, vals: map<string, NodeValue>, intact: bool)
    requires Kept(heap, intact) && InRange(vals, heap.len)
    ensures Ledger(heap, vals, intact, Page(CountsIn(vals), IndicesIn(vals), heap.elems, Weigh(heap.elems)))
  {
  }

  lemma LedgerAdd(heap: Heap, vals: map<string, NodeValue>, intact: bool, page: Page, nv: NodeValue)
    requires Ledger(heap, vals, intact, page) && nv.fqdn !in vals && nv.count == 0 && nv.heapIndex == -1
    ensures Ledger(heap, vals[nv.fqdn := nv], intact, page.With(nv.fqdn))
  {
    assert Ask(OfLedger, 0);
    InRangeAdd(vals, heap.len, nv);
    SaidByOneMore(vals, nv);
  }

  lemma CountsAre(vals: map<string, NodeValue>, counts: map<string, nat>)
    requires counts.Keys == vals.Keys && forall s :: s in vals ==> vals[s].count == counts[s]
    ensures CountsIn(vals) == counts
  {
  }

  /** The record `nv` is there, met before or new. */
  ghost predicate Met(s: Snapshot, nv: NodeValue, vals: map<string, NodeValue>, n: nat) {
    && s.counts.Keys == s.indices.Keys == s.vals.Keys && nv.fqdn in vals && vals[nv.fqdn] == nv
    && if nv.fqdn in s.vals then vals == s.vals && n == s.n
       else vals == s.vals[nv.fqdn := nv] && n == s.n + 1 && nv !in s.elems
  }

  /** From what `page` says to `s'` it is one count more for `nv`. */
  ghost predicate Stepped(page: Page, nv: NodeValue, repaired: bool, intact: bool, s': Snapshot) {
    var key := nv.fqdn;
    && key in page.counts && key in page.indices
    && s'.counts == page.counts[key := page.counts[key] + 1]
    && (intact ==>
         && Apart(page.w, page.indices[key], nv)
         && Counted(page.w, page.indices[key], nv, page.counts[key] + 1, repaired, s'.w)
         && IndexStep(s'.vals, page.indices, page.elems, nv, Evicting(page.w, page.indices[key], page.counts[key]),
                      repaired, s'.indices, s'.elems))
  }

  method NewParts(nil: Node) returns (tree: RBTree, heap: Heap, lru: LruList)
    requires nil.color == Black && nil.parent == nil.left == nil.right == nil
    ensures fresh(tree) && fresh(heap) && fresh(heap.heap) && fresh(lru)
    ensures tree.nil == nil && tree.mem == map[] && heap.elems == [] && lru.cells == []
    ensures Tied(tree, lru, map[], []) && Kept(heap, true)
  {
    tree := new RBTree(nil);
    lru := new LruList();
    TiedFromNew(tree, lru);
    heap := new Heap(TOP);
  }

  class NameTree {
    const tree: RBTree
    const heap: Heap
    const lru: LruList
    /** Whether the insertion into the heap and the eviction from it are repaired. */
    const repaired: bool
    var count: nat
    ghost var vals: map<string, NodeValue>
    /** The names, the one inserted last first. */
    ghost var order: seq<string>

    /** The parts and the records, but for the nodes of the tree and the cells of the list. */
    ghost var repr: set<object>

    /** No name has left the tree. A name that leaves gives its record back to a pool, which hands
        it out again for the next new name, while the heap goes on holding it: from then on no
        more is said of the heap than that its slots are filled. */
    ghost var intact: bool

    ghost predicate Owned()
      reads this, heap`elems
    {
      {this, tree, lru, heap, heap.heap} <= repr && tree.nil !in repr && Covers(repr, vals, heap.elems)
    }

    /** Every object this tree of names may change. */
    ghost function Footprint(): set<object>
      reads this, tree`mem, lru`cells
    {
      Extent(repr, tree.mem.Keys, lru.cells)
    }

    ghost predicate Valid()
      reads this, tree, tree.nil, tree.mem.Keys, lru, lru.cells, heap, heap.heap, heap.elems, vals.Values
    {
      && Owned()
      && count == |order| && heap.len <= TOP
      && Tied(tree, lru, vals, order)
      && Named(vals) && Told(vals, order, lru.cells)
      && Kept(heap, intact)
      && InRange(vals, heap.len)
    }

    /** In order, and made of nothing but its footprint and the sentinel. */
    ghost predicate Whole()
      reads this, tree`mem, lru`cells, Footprint(), tree.nil
    {
      && count == |order| && {this, tree, lru} <= repr && tree.nil !in Footprint()
      && forall u :: Ask(OfTree, u) ==> SelfContained()
    }

    ghost predicate SelfContained()
      reads this, tree`mem, lru`cells, Footprint(), tree.nil
    {
      && {this, tree, lru, heap, heap.heap} <= repr
      && vals.Values <= repr && (forall k :: 0 <= k < |heap.elems| ==> heap.elems[k] in repr)
      && Valid()
    }

    lemma Open()
      requires Whole()
      ensures Valid() && this in repr
    {
      assert Ask(OfTree, 0);
    }

    lemma BeWhole()
      requires Valid()
      ensures Whole()
    {
      assert Ask(OfRecords, 0);
      assert Ask(OfIndex, 0);
      assert forall k :: 0 <= k < |heap.elems| ==> heap.elems[k] in (set v | v in heap.elems);
    }

    constructor (nil: Node, repaired: bool)
      requires nil.color == Black && nil.parent == nil.left == nil.right == nil
      ensures Whole() && this.repaired == repaired && tree.nil == nil && intact
      ensures fresh(Footprint())
      ensures order == [] && Now() == Snapshot(map[], map[], map[], [], [], 0)
    {
      var parts, counted, list := NewParts(nil);
      tree, heap, lru := parts, counted, list;
      this.repaired, count, vals, order, intact := repaired, 0, map[], [], true;
      repr := {this, parts, list, counted, counted.heap};
      new;
      ExtentEmpty(repr);
      BeWhole();
    }

    method ExactlyFind(name: string) returns (nv: NodeValue?)
      requires Valid() && Fits(name)
      ensures |name| >= MAX_NAME_LEN ==> nv == null
      ensures |name| < MAX_NAME_LEN ==> nv == if Normal(name) in vals then vals[Normal(name)] else null
      ensures nv != null ==> nv.fqdn == if Dotted(name) then name else name + "."
    {
      if |name| >= MAX_NAME_LEN {
        return null;
      }
      if Normal(name) in vals {
        NamedOf(vals, Normal(name));
      }
      var value: object? := Find(tree, lru, Normal(name), vals, order);
      nv := value as NodeValue?;
    }

    /** A fresh record with count 0, not yet in the tree. */
    method Register(key: string, ghost page: Page)
      returns (nv: NodeValue)
      requires Valid() && key !in vals && Proper(key) && Ledger(heap, vals, intact, page)
      modifies `count, `vals, `order, `repr
      ensures Tied(tree, lru, old(vals), old(order)) && Told(old(vals), old(order), lru.cells)
      ensures Owned() && Named(vals) && count == |order|
      ensures fresh(nv) && nv.count == 0 && nv.heapIndex == -1 && nv.fqdn == key
      ensures vals == old(vals)[key := nv] && order == [key] + old(order) && repr == old(repr) + {nv}
      ensures Ledger(heap, vals, intact, page.With(key))
    {
      nv := new NodeValue(key);
      NamedAdd(vals, nv);
      CoversMore(repr, vals, heap.elems, nv);
      LedgerAdd(heap, vals, intact, page, nv);
      count := count + 1;
      vals := vals[key := nv];
      order := [key] + order;
      repr := repr + {nv};
    }

    /** Puts the record into the tree and at the head of the list, and tells it its cell. */
    method Link(nv: NodeValue, ghost was: map<string, NodeValue>, ghost names: seq<string>)
      returns (cell: Cell, ghost node: Node)
      requires Tied(tree, lru, was, names) && Told(was, names, lru.cells) && nv.fqdn !in was && nv !in was.Values
      modifies tree, tree.mem.Keys, lru, lru.cells, nv`ptr
      ensures Tied(tree, lru, was[nv.fqdn := nv], [nv.fqdn] + names)
      ensures Told(was[nv.fqdn := nv], [nv.fqdn] + names, lru.cells)
      ensures fresh(node) && tree.mem.Keys == old(tree.mem.Keys) + {node}
      ensures fresh(cell) && lru.cells == [cell] + old(lru.cells)
    {
      cell, node := Enroll(tree, lru, nv.fqdn, nv, was, names);
      nv.ptr := cell;
      ToldAdd(was, names, old(lru.cells), nv);
    }

    /** The same, with what it leaves alone. */
    method Enter(nv: NodeValue, ghost was: map<string, NodeValue>, ghost names: seq<string>, ghost room: set<object>,
                 ghost page: Page)
      returns (cell: Cell, ghost node: Node)
      requires Tied(tree, lru, was, names) && Told(was, names, lru.cells) && nv.fqdn !in was && nv !in was.Values
      requires Ledger(heap, vals, intact, page) && heap.len <= TOP
      requires vals == was[nv.fqdn := nv] && order == [nv.fqdn] + names && repr == room + {nv}
      requires Owned() && Named(vals) && count == |order|
      modifies tree, tree.mem.Keys, lru, lru.cells, nv`ptr
      ensures Valid() && Ledger(heap, vals, intact, page)
      ensures fresh(node) && fresh(cell)
      ensures Footprint() <= Extent(room, old(tree.mem.Keys), old(lru.cells)) + {nv, node, cell}
    {
      cell, node := Link(nv, was, names);
      ExtentAdd(room, old(tree.mem.Keys), old(lru.cells), nv, node, cell);
      LedgerSays(heap, vals, intact, page);
    }

    /** A fresh record with count 0. */
    method Add(key: string, ghost page: Page)
      returns (nv: NodeValue)
      requires Valid() && key !in vals && Proper(key) && Ledger(heap, vals, intact, page)
      modifies this, tree, tree.mem.Keys, lru, lru.cells
      ensures Valid() && fresh(nv) && nv.count == 0 && nv.heapIndex == -1 && nv.fqdn == key
      ensures vals == old(vals)[key := nv] && order == [key] + old(order)
      ensures fresh(Footprint() - old(Footprint())) && intact == old(intact)
      ensures Ledger(heap, vals, intact, page.With(key))
    {
      nv := Register(key, page);
      var cell;
      ghost var node;
      cell, node := Enter(nv, old(vals), old(order), old(repr), page.With(key));
    }

    /** A record met again goes to the head of the list. */
    method Again(nv: NodeValue, ghost page: Page)
      requires Valid() && nv.fqdn in vals && vals[nv.fqdn] == nv && Ledger(heap, vals, intact, page)
      modifies this, lru, lru.cells
      ensures Valid() && vals == old(vals) && order == [nv.fqdn] + Removed(old(order), nv.fqdn)
      ensures |order| == |old(order)| && intact == old(intact)
      ensures Footprint() == old(Footprint())
      ensures Ledger(heap, vals, intact, page)
    {
      ghost var at := TwinPlace(tree.mem.Keys, lru.cells, vals, order, nv.fqdn);
      ToldCell(vals, order, lru.cells, at);
      TwinOrder(tree.mem.Keys, lru.cells, vals, order, at);
      ExtentTouch(repr, tree.mem.Keys, lru.cells, at);
      ghost var was := order;
      order := [nv.fqdn] + Without(order, at);
      Advance(nv.ptr, at, was, page);
      LedgerSays(heap, vals, intact, page);
    }

    /** The cell at `at` goes to the head of the list. */
    method Advance(cell: Cell, ghost at: nat, ghost names: seq<string>,
                   ghost page: Page)
      requires Tied(tree, lru, vals, names) && Told(vals, names, lru.cells) && at < |names| && lru.cells[at] == cell
      requires Ledger(heap, vals, intact, page)
      modifies lru, lru.cells
      ensures Tied(tree, lru, vals, [names[at]] + Without(names, at))
      ensures Told(vals, [names[at]] + Without(names, at), lru.cells)
      ensures lru.cells == [cell] + Without(old(lru.cells), at)
      ensures Ledger(heap, vals, intact, page)
    {
      ToldTouch(vals, names, lru.cells, at);
      Touch(tree, lru, cell, at, vals, names);
    }

    /** The least record of the heap leaves it to `nv`; only if repaired does it get to know. */
    method Evict(nv: NodeValue)
      requires heap.Valid() && heap.len > 0 && heap.elems[0].count < nv.count
      requires intact ==> Indexed(heap.elems) && nv !in heap.elems
      modifies nv`heapIndex, heap`elems, heap`len, heap.heap, heap.elems`heapIndex
      ensures heap.Valid() && |heap.elems| == |old(heap.elems)|
      ensures Slotted(old(heap.elems), heap.len) && (nv.heapIndex == old(nv.heapIndex) || -1 <= nv.heapIndex < heap.len)
      ensures Sifting(old(Weigh(heap.elems)), 0, Entry(nv, nv.count), Weigh(heap.elems))
      ensures Within(old(heap.elems)[1..], heap.elems) && Within(heap.elems, old(heap.elems) + [nv]) && nv in heap.elems
      ensures intact ==>
        && Indexed(heap.elems)
        && old(heap.elems)[0].heapIndex == (if repaired then -1 else 0) && old(heap.elems)[0] !in heap.elems
    {
      ghost var was := heap.elems;
      var out := heap.ReplaceLeast(nv, intact);
      ReplacedWithin(was, nv, heap.elems);
      if repaired {
        out.heapIndex := -1;
      }
    }

    /** What becomes of the heap and of its least record when `nv`, which counted `c` and believed
        to be at `idx`, counts one more. */
    ghost predicate Heard(nv: NodeValue, w: seq<Entry<NodeValue>>, elems: seq<NodeValue>, idx: int, c: nat)
      requires |w| == |elems|
      reads heap, heap.elems`count, nv, elems`heapIndex
    {
      && Counted(w, idx, nv, c + 1, repaired, Weigh(heap.elems))
      && (!Evicting(w, idx, c) ==> Within(elems, heap.elems))
      && (Evicting(w, idx, c) ==>
           && elems[0].heapIndex == (if repaired then -1 else 0) && elems[0] !in heap.elems
           && Within(elems[1..], heap.elems))
      && (nv in heap.elems || nv.heapIndex == idx)
    }

    /** The record, which believes to be in the heap, is sifted down. */
    method Resift(nv: NodeValue, ghost w: seq<Entry<NodeValue>>, ghost c: nat)
      requires Kept(heap, intact) && 0 <= nv.heapIndex < heap.len == |w| && nv.count == c + 1
      requires intact ==> Weigh(heap.elems) == Bumped(w, nv.heapIndex, nv, nv.count)
      modifies heap`elems, heap.heap, heap.elems`heapIndex
      ensures Kept(heap, intact) && Slotted(old(heap.elems), heap.len) && -1 <= nv.heapIndex < heap.len
      ensures Within(heap.elems, old(heap.elems))
      ensures intact ==> Heard(nv, w, old(heap.elems), old(nv.heapIndex), c)
    {
      assert Ask(OfSlots, 0);
      ghost var was := heap.elems;
      heap.AdjustSiftdown(nv.heapIndex, intact);
      SameWithin(was, heap.elems);
    }

    /** The record, which believes to be outside the heap, gets in while there is room or if it
        counts more than the least. */
    method Contend(nv: NodeValue, ghost w: seq<Entry<NodeValue>>, ghost c: nat)
      requires Kept(heap, intact) && heap.len <= TOP && nv.heapIndex == -1 && heap.len == |w| && nv.count == c + 1
      requires intact ==> Weigh(heap.elems) == w
      modifies nv`heapIndex, heap`elems, heap`len, heap.heap, heap.elems`heapIndex
      ensures Kept(heap, intact) && heap.len <= TOP && heap.len >= old(heap.len)
      ensures Slotted(old(heap.elems), heap.len) && -1 <= nv.heapIndex < heap.len
      ensures Within(heap.elems, old(heap.elems) + [nv])
      ensures intact ==> Heard(nv, w, old(heap.elems), -1, c)
    {
      assert Ask(OfSlots, 0);
      ghost var was := heap.elems;
      if heap.len >= TOP {
        if heap.heap[0].count < nv.count {
          Evict(nv);
        }
      } else {
        var index := heap.Insert(nv, repaired, intact);
        JoinedWithin(was, nv, heap.elems);
      }
    }

    /** The record counts one more, and the heap hears of it. */
    method Count(nv: NodeValue, ghost w: seq<Entry<NodeValue>>, ghost idx: int, ghost c: nat)
      requires Kept(heap, intact) && heap.len <= TOP && -1 <= nv.heapIndex < heap.len
      requires w == Weigh(heap.elems) && idx == nv.heapIndex && c == nv.count
      modifies nv`count, nv`heapIndex, heap`elems, heap`len, heap.heap, heap.elems`heapIndex
      ensures Kept(heap, intact) && heap.len <= TOP && heap.len >= old(heap.len)
      ensures nv.count == c + 1
      ensures Slotted(old(heap.elems), heap.len) && -1 <= nv.heapIndex < heap.len
      ensures Within(heap.elems, old(heap.elems) + if idx == -1 then [nv] else [])
      ensures intact ==> Heard(nv, w, old(heap.elems), idx, c)
    {
      Grow(nv, w, c);
      if nv.heapIndex != -1 {
        Resift(nv, w, c);
      } else {
        Contend(nv, w, c);
      }
    }

    method Grow(nv: NodeValue, ghost w: seq<Entry<NodeValue>>, ghost c: nat)
      requires Kept(heap, intact) && w == Weigh(heap.elems) && c == nv.count
      modifies nv`count
      ensures Kept(heap, intact) && nv.count == c + 1
      ensures intact ==> Weigh(heap.elems) == Bumped(w, nv.heapIndex, nv, c + 1)
    {
      assert Ask(OfSlots, 0);
      nv.count := nv.count + 1;
    }

    ghost function Indices(): map<string, int>
      reads this`vals, vals.Values`heapIndex
    {
      IndicesIn(vals)
    }

    /** Only the record itself has the count of its name. */
    lemma CountsBut(nv: NodeValue)
      requires Named(vals) && nv.fqdn in vals && vals[nv.fqdn] == nv
      ensures forall s :: s in vals && s != nv.fqdn ==> vals[s] != nv
    {
      assert Ask(OfNames, 0);
    }

    /** No record is told a slot that the heap does not have. */
    twostate lemma StaysInRange(new vals: map<string, NodeValue>, new elems: seq<NodeValue>, new nv: NodeValue)
      requires old(allocated(vals) && allocated(elems) && allocated(nv))
      requires old(InRange(vals, heap.len)) && old(heap.len) <= heap.len
      requires forall k :: 0 <= k < |elems| ==>
        elems[k].heapIndex == old(elems[k].heapIndex) || -1 <= elems[k].heapIndex < heap.len
      requires -1 <= nv.heapIndex < heap.len
      requires forall s :: s in vals && vals[s] != nv && vals[s] !in elems ==>
        vals[s].heapIndex == old(vals[s].heapIndex)
      ensures InRange(vals, heap.len)
    {
      assert Ask(OfRange, 0);
    }

    lemma MakeIndexStep(vals: map<string, NodeValue>, was: map<string, int>, elems: seq<NodeValue>, nv: NodeValue,
                        evicting: bool, now: map<string, int>)
      requires Kept(heap, true) && was.Keys == vals.Keys && now == IndicesIn(vals)
      requires nv.fqdn in vals && vals[nv.fqdn] == nv && forall s :: s in vals && s != nv.fqdn ==> vals[s] != nv
      requires forall s :: s in vals && vals[s] != nv && vals[s] !in elems ==> vals[s].heapIndex == was[s]
      requires !evicting ==> Within(elems, heap.elems)
      requires evicting ==>
        && elems != [] && elems[0].heapIndex == (if repaired then -1 else 0)
        && elems[0] !in heap.elems && Within(elems[1..], heap.elems)
      requires nv in heap.elems || nv.heapIndex == was[nv.fqdn]
      requires Within(heap.elems, elems + if was[nv.fqdn] == -1 then [nv] else [])
      ensures IndexStep(vals, was, elems, nv, evicting, repaired, now, heap.elems)
    {
      assert Ask(OfSlots, 0);
      forall s | s in vals
        ensures vals[s] in heap.elems || (evicting && vals[s] == elems[0]) || vals[s].heapIndex == was[s]
      {
        if evicting {
          WithinTail(elems, heap.elems, vals[s]);
        } else {
          WithinOf(elems, heap.elems, vals[s]);
        }
      }
    }

    lemma CoversStill(elems: seq<NodeValue>, nv: NodeValue, joins: bool)
      requires Covers(repr, vals, elems) && nv.fqdn in vals && vals[nv.fqdn] == nv
      requires Within(heap.elems, elems + if joins then [nv] else [])
      ensures Covers(repr, vals, heap.elems)
    {
      assert Ask(OfRecords, 0);
      assert nv in vals.Values;
    }

    /** One count more for `nv` than `page` says. */
    method CountRecord(nv: NodeValue, ghost page: Page)
      requires Valid() && nv.fqdn in vals && vals[nv.fqdn] == nv && Ledger(heap, vals, intact, page)
      modifies repr
      ensures Valid() && Stepped(page, nv, repaired, intact, State())
      ensures vals == old(vals) && order == old(order) && intact == old(intact) && Footprint() == old(Footprint())
    {
      assert Ask(OfRecords, 0);
      Bump(nv, page);
    }

    /** The same, for what it touches. */
    method Bump(nv: NodeValue, ghost page: Page)
      requires Ledger(heap, vals, intact, page) && Named(vals) && heap.len <= TOP
      requires Covers(repr, vals, heap.elems) && nv.fqdn in vals && vals[nv.fqdn] == nv
      modifies nv`count, nv`heapIndex, heap`elems, heap`len, heap.heap, heap.elems`heapIndex
      ensures Kept(heap, intact) && InRange(vals, heap.len) && heap.len <= TOP && Covers(repr, vals, heap.elems)
      ensures Stepped(page, nv, repaired, intact, State())
    {
      LedgerSays(heap, vals, intact, page);
      CountsBut(nv);
      InRangeOf(vals, heap.len, nv);
      if intact {
        ApartOf(nv);
      }
      ghost var idx, c := nv.heapIndex, nv.count;
      Count(nv, page.w, idx, c);
      StaysInRange(vals, page.elems, nv);
      CountsAre(vals, page.counts[nv.fqdn := c + 1]);
      CoversStill(page.elems, nv, idx == -1);
      if intact {
        MakeIndexStep(vals, page.indices, page.elems, nv, Evicting(page.w, idx, c), Indices());
      }
    }

    ghost function Counts(): map<string, nat>
      reads this`vals, vals.Values`count
    {
      CountsIn(vals)
    }

    /** The record of the name, new or known, at the head of the list. */
    method Meet(name: string, ghost page: Page) returns (nv: NodeValue)
      requires Valid() && Fits(name) && |name| < MAX_NAME_LEN && Ledger(heap, vals, intact, page)
      modifies this, tree, tree.mem.Keys, lru, lru.cells
      ensures Valid() && fresh(Footprint() - old(Footprint())) && intact == old(intact)
      ensures nv.fqdn == Normal(name) && nv.fqdn in vals && vals[nv.fqdn] == nv
      ensures order == [Normal(name)] + Removed(old(order), Normal(name))
      ensures Ledger(heap, vals, intact, page.With(nv.fqdn))
      ensures if nv.fqdn in old(vals) then vals == old(vals) && |order| == |old(order)|
        else vals == old(vals)[nv.fqdn := nv] && |order| == |old(order)| + 1 && fresh(nv)
    {
      var found := ExactlyFind(name);
      if found == null {
        TwinUnlisted(tree.mem.Keys, lru.cells, vals, order, Normal(name));
        nv := Add(Normal(name), page);
      } else {
        nv := found;
        NamedOf(vals, Normal(name));
        Again(nv, page);
      }
    }

    lemma ApartOf(nv: NodeValue)
      requires Kept(heap, true)
      ensures Apart(Weigh(heap.elems), nv.heapIndex, nv)
    {
      assert Ask(OfSlots, 0);
    }

    ghost function State(): Snapshot
      reads this`vals, this`order, heap`elems, heap.elems`count, vals.Values
    {
      Snapshot(vals, Counts(), Indices(), heap.elems, Weigh(heap.elems), |order|)
    }

    /** The same, of a tree on its own. */
    ghost function Now(): Snapshot
      requires Whole()
      reads this, tree`mem, lru`cells, Footprint(), tree.nil
    {
      Open();
      assert Ask(OfTree, 0);
      State()
    }

    lemma HeapOpen()
      requires Whole()
      ensures heap.Valid() && Now().w == Weigh(heap.elems) && (intact ==> Distinct(heap.elems))
    {
      assert Ask(OfTree, 0);
      assert Ask(OfSlots, 0);
    }

    lemma ListLength()
      requires Whole()
      ensures lru.count == count == |order|
    {
      Open();
    }

    lemma NowIsFair()
      requires Whole()
      ensures Now().Fair() && |vals| == |order| == count
    {
      Open();
      StateIsFair();
    }

    lemma StateIsFair()
      requires Valid()
      ensures State().Fair() && |vals| == |order| == count
    {
      TwinSize(tree.mem.Keys, lru.cells, vals, order);
      assert Ask(OfNames, 0);
    }

    /** The insertion but for the length check. */
    method Record(name: string) returns (nv: NodeValue)
      requires Valid() && Fits(name) && |name| < MAX_NAME_LEN
      modifies Footprint()
      ensures Valid() && fresh(Footprint() - old(Footprint()))
      ensures order == [Normal(name)] + Removed(old(order), Normal(name))
      ensures nv.fqdn == Normal(name) && nv.fqdn in vals && vals[nv.fqdn] == nv
      ensures State().counts == OneMore(old(State()).counts, Normal(name)) && intact == old(intact)
      ensures intact ==> InsertStep(old(State()), nv, repaired, State())
    {
      ghost var s := State();
      LedgerOf(heap, vals, intact);
      nv := Meet(name, s.Said());
      assert Met(s, nv, vals, |order|);
      CountRecord(nv, s.Said().With(nv.fqdn));
      MakeStep(s, nv, repaired, State(), intact);
    }

    /** One more sighting of a name. */
    method Insert(name: string) returns (r: int)
      requires Whole() && Fits(name)
      modifies Footprint()
      ensures Whole() && fresh(Footprint() - old(Footprint()))
      ensures r == if |name| < 32 then 0 else -1
      ensures |name| >= MAX_NAME_LEN ==> r == -1 && order == old(order) && Now() == old(Now())
      ensures |name| < MAX_NAME_LEN ==>
        && r == 0
        && order == [Normal(name)] + Removed(old(order), Normal(name))
        && Normal(name) in vals && vals[Normal(name)].fqdn == Normal(name)
        && Normal(name) == (if Dotted(name) then name else name + ".")
        && Now().counts == OneMore(old(Now()).counts, Normal(name))
        && (intact ==> InsertStep(old(Now()), vals[Normal(name)], repaired, Now()))
      ensures intact == old(intact)
    {
      if |name| >= MAX_NAME_LEN {
        return -1;
      }
      Open();
      var nv := Record(name);
      BeWhole();
      r := 0;
    }

    /** Two names share a record exactly if they are equal or differ by the final dot alone. */
    lemma SameRecordIff(a: string, b: string)
      requires Whole() && a != "" && b != "" && Normal(a) in vals && Normal(b) in vals
      ensures vals[Normal(a)] == vals[Normal(b)] <==>
        a == b || (a + "." == b && !Dotted(a)) || (b + "." == a && !Dotted(b))
    {
      Open();
      NamedOf(vals, Normal(a));
      NamedOf(vals, Normal(b));
      SameNormalIff(a, b);
    }

    /** The name leaves the tree and the list; the heap keeps its record. */
    method Remove(name: string) returns (found: bool)
      requires Valid() && Fits(name) && |name| < MAX_NAME_LEN
      modifies Footprint()
      ensures Valid() && Footprint() <= old(Footprint())
      ensures found == (Normal(name) in old(vals))
      ensures !found ==> order == old(order) && State() == old(State()) && intact == old(intact)
      ensures found ==>
        order == Removed(old(order), Normal(name)) && Counts() == old(Counts()) - {Normal(name)}
      ensures heap.elems == old(heap.elems) && Weigh(heap.elems) == old(Weigh(heap.elems))
    {
      var value: object?;
      ghost var node, at;
      value, node, at := Expel(tree, lru, Normal(name), vals, order);
      found := value != null;
      if found {
        ToldCell(vals, order, lru.cells, at);
        var nv := value as NodeValue?;
        Strike(nv.ptr, at);
      }
      ExtentLess(repr, old(tree.mem.Keys), old(lru.cells), tree.mem.Keys, lru.cells);
    }

    method Delete(name: string) returns (r: int)
      requires Whole() && Fits(name)
      modifies Footprint()
      ensures Whole() && Footprint() <= old(Footprint())
      ensures r == (if |name| < MAX_NAME_LEN && Normal(name) in old(vals) then 0 else -1)
      ensures r == -1 ==> order == old(order) && Now() == old(Now()) && intact == old(intact)
      ensures r == 0 ==>
        && order == Removed(old(order), Normal(name)) && Now().counts == old(Now()).counts - {Normal(name)}
        && Now().elems == old(Now()).elems && Now().w == old(Now()).w
    {
      if |name| >= MAX_NAME_LEN {
        return -1;
      }
      Open();
      var found := Remove(name);
      BeWhole();
      r := if found then 0 else -1;
    }

    /** The cell of a record that has left the tree follows it. */
    method Strike(cell: Cell, ghost at: nat)
      requires Owned() && Named(vals) && Told(vals, order, lru.cells) && Kept(heap, intact) && InRange(vals, heap.len)
      requires heap.len <= TOP && count == |order| && Overlisted(tree, lru, vals, order, at) && lru.cells[at] == cell
      requires order[at] !in Without(order, at)
      modifies `count, `vals, `order, `intact, lru, lru.cells
      ensures Valid() && vals == old(vals) - {old(order)[at]} && order == Without(old(order), at)
      ensures Counts() == old(Counts()) - {old(order)[at]}
      ensures heap.elems == old(heap.elems) && lru.cells == Without(old(lru.cells), at)
      ensures Weigh(heap.elems) == old(Weigh(heap.elems))
    {
      DropParts(at);
      ghost var was, names := vals, order;
      SaidByOneLess(vals, order[at]);
      count := count - 1;
      vals := vals - {order[at]};
      order := Without(order, at);
      intact := false;
      Unlist(tree, lru, cell, at, was, names);
    }

    lemma DropParts(at: nat)
      requires at < |order| && Named(vals) && Told(vals, order, lru.cells) && InRange(vals, heap.len)
      requires Covers(repr, vals, heap.elems)
      requires order[at] !in Without(order, at)
      ensures Named(vals - {order[at]}) && Told(vals - {order[at]}, Without(order, at), Without(lru.cells, at))
      ensures InRange(vals - {order[at]}, heap.len) && Covers(repr, vals - {order[at]}, heap.elems)
    {
      ToldDrop(vals, order, lru.cells, at);
      InRangeDrop(vals, heap.len, order[at]);
      CoversLess(repr, vals, heap.elems, order[at]);
      NamedDrop(vals, order[at]);
    }

    method DropLast() returns (dropped: bool)
      requires Valid()
      modifies Footprint()
      ensures Valid() && Footprint() <= old(Footprint())
      ensures dropped == (old(order) != [])
      ensures !dropped ==> State() == old(State()) && intact == old(intact)
      ensures heap.elems == old(heap.elems) && Weigh(heap.elems) == old(Weigh(heap.elems))
      ensures dropped ==>
        var n := |old(order)| - 1;
        && !intact
        && vals == old(vals) - {old(order)[n]} && order == old(order)[..n]
        && Counts() == old(Counts()) - {old(order)[n]}
    {
      ghost var gone;
      LastParts();
      var value: object?;
      value, gone := DropTail(tree, lru, vals, order);
      dropped := value != null;
      if dropped {
        var nv := value as NodeValue?;
        Bury(nv.fqdn, gone);
      }
      ExtentLess(repr, old(tree.mem.Keys), old(lru.cells), tree.mem.Keys, lru.cells);
    }

    /** The node of a record that has left the list follows it. */
    method Bury(fqdn: string, ghost gone: Cell)
      requires Owned() && Overgrown(tree, lru, vals, order, gone) && order[|order| - 1] == fqdn && Proper(fqdn)
      requires heap.len <= TOP && count == |order| && Kept(heap, intact) && order[|order| - 1] in vals
      requires var n := |order| - 1;
        && Named(vals - {order[n]}) && Told(vals - {order[n]}, order[..n], lru.cells)
        && InRange(vals - {order[n]}, heap.len) && Covers(repr, vals - {order[n]}, heap.elems)
      modifies `count, `vals, `order, `intact, tree, tree.mem.Keys
      ensures Valid() && tree.mem.Keys <= old(tree.mem.Keys) && heap.elems == old(heap.elems) && !intact
      ensures Weigh(heap.elems) == old(Weigh(heap.elems))
      ensures var n := |old(order)| - 1;
        && vals == old(vals) - {old(order)[n]} && order == old(order)[..n]
        && Counts() == old(Counts()) - {old(order)[n]}
    {
      ghost var was, names, n := vals, order, |order| - 1;
      SaidByOneLess(vals, order[n]);
      count := count - 1;
      vals := vals - {order[n]};
      order := order[..n];
      intact := false;
      var value := Uproot(tree, lru, Normal(fqdn), was, names, gone);
    }

    /** The least recently inserted name leaves the list and then the tree. */
    method DropOldest() returns (dropped: bool)
      requires Whole()
      modifies Footprint()
      ensures Whole() && Footprint() <= old(Footprint())
      ensures dropped == (old(order) != [])
      ensures !dropped ==> order == old(order) && Now() == old(Now()) && intact == old(intact)
      ensures dropped ==>
        var n := |old(order)| - 1;
        && order == old(order)[..n] && Now().counts == old(Now()).counts - {old(order)[n]}
        && Now().elems == old(Now()).elems && Now().w == old(Now()).w && !intact
    {
      Open();
      dropped := DropLast();
      BeWhole();
    }

    lemma LastParts()
      requires Valid()
      ensures order != [] ==>
        var n := |order| - 1;
        && order[n] in vals && vals[order[n]].fqdn == order[n] && Proper(order[n])
        && Named(vals - {order[n]}) && Told(vals - {order[n]}, order[..n], lru.cells[..n])
        && InRange(vals - {order[n]}, heap.len) && Covers(repr, vals - {order[n]}, heap.elems)
    {
      if order != [] {
        var n := |order| - 1;
        TwinLast(tree.mem.Keys, lru.cells, vals, order);
        NamedOf(vals, order[n]);
        TwinOrder(tree.mem.Keys, lru.cells, vals, order, n);
        DropParts(n);
        assert Without(order, n) == order[..n] && Without(lru.cells, n) == lru.cells[..n];
      }
    }

    /** The record of the longest suffix at a label boundary. */
    method CloselyFind(name: string) returns (nv: NodeValue?)
      requires Whole() && Fits(name)
      ensures |name| >= MAX_NAME_LEN ==> nv == null
      ensures |name| < MAX_NAME_LEN && nv != null ==>
        exists i :: 0 <= i < |Normal(name)| && ClosestAt(Normal(name), vals, i) && nv == vals[Normal(name)[i..]]
      ensures |name| < MAX_NAME_LEN && nv == null ==>
        forall i :: 0 <= i < |Normal(name)| && AtLabel(Normal(name), i) ==> Normal(name)[i..] !in vals
    {
      if |name| >= MAX_NAME_LEN {
        return null;
      }
      Open();
      nv := Climb(Normal(name));
      assert Ask(OfNames, 0);
    }

    method Climb(name: string) returns (nv: NodeValue?)
      requires Valid() && name != "" && name[|name| - 1] == '.' && |name| < MAX_NAME_LEN
      ensures Closest(name, vals, nv)
    {
      var pos := name;
      ghost var at: nat := 0;
      PassedStart(name, vals);
      while true
        invariant Passed(name, vals, at, pos)
        decreases |pos|
      {
        nv := ExactlyFind(pos);
        if nv != null {
          PassedFound(name, vals, at, pos);
          return;
        }
        PassedOn(name, vals, at, pos);
        match ParentName(pos) {
          case None =>
            return;
          case Some(parent) =>
            at := |name| - |parent|;
            pos := parent;
        }
      }
    }
  }
}
