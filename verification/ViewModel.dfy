/** What src/log_view_tree.c and the handler in src/log_topn.c do, on values: the counters of
    each view, and the views by their last use. */
module ViewModel {
  import opened NameTree
  import opened ViewStats
  import opened Sealing
  import opened Sequences

  const STATS_NODE_MAX_SIZE: nat := 128
  const VIEW_TREE_SIZE: nat := 24

  /** A parsed line of the query log. */
  datatype Query = Query(view: string, domain: string, ip: string, rtype: string, rcode: string)

  predicate Loggable(q: Query) {
    Fits(q.domain) && Fits(q.ip)
  }

  function SumSizes(stats: map<string, Stats>, order: seq<string>): nat
    requires forall k :: 0 <= k < |order| ==> order[k] in stats
  {
    if order == [] then 0
    else
      var n := |order| - 1;
      SumSizes(stats, order[..n]) + stats[order[n]].Size() + STATS_NODE_MAX_SIZE
  }

  function CountAll(s: Stats, q: Query): Stats
    requires Loggable(q)
  {
    s.CountName(q.domain).CountIp(q.ip).CountRtype(TableIndex(RTYPES, q.rtype)).CountRcode(TableIndex(RCODES, q.rcode))
  }

  datatype Views = Views(stats: map<string, Stats>, order: seq<string>)
  {
    ghost predicate Fair() {
      Distinct(order) && stats.Keys == (set s | s in order)
    }

    predicate Listed() {
      forall k :: 0 <= k < |order| ==> order[k] in stats
    }

    function Size(): nat
      requires Listed()
    {
      SumSizes(stats, order) + VIEW_TREE_SIZE + CELL_SIZE * |order|
    }

    /** The view comes to the head, as a new one if it was not known. */
    function Meet(view: string): Views {
      if view in stats then Views(stats, [view] + Removed(order, view))
      else Views(stats[view := NewStats()], [view] + order)
    }

    /** Without the view used least recently. */
    function DropLast(): Views
      requires order != []
    {
      var n := |order| - 1;
      Views(stats - {order[n]}, order[..n])
    }

    /** Views go, the least recently used first, while the size is over the limit and one is left. */
    ghost function Evict(limit: nat): Views
      requires Fair()
      decreases |order|
    {
      FairIsListed(this);
      if Size() <= limit || |order| <= 1 then this
      else
        DropLastIsFair(this);
        DropLast().Evict(limit)
    }

    /** A view that is left alone gives up names and addresses. */
    function Squeeze(limit: nat): Views {
      if |order| == 1 && order[0] in stats then Views(stats[order[0] := stats[order[0]].Trim(limit)], order) else this
    }

    ghost function SetMemsize(limit: nat): Views
      requires Fair()
    {
      Evict(limit).Squeeze(limit)
    }

    /** A trim, if the size is over the limit. */
    ghost function MakeRoom(limit: nat): Views
      requires Fair()
    {
      FairIsListed(this);
      if limit < Size() then SetMemsize(limit) else this
    }

    /** A query is counted in its view, after room has been made. */
    ghost function Log(q: Query, limit: nat): Views
      requires Fair() && Loggable(q)
    {
      if q.view !in stats && |q.view| > MAX_VIEW_LENGTH then this
      else
        MeetIsFair(this, q.view);
        var t := Meet(q.view).MakeRoom(limit);
        if q.view in t.stats then Views(t.stats[q.view := CountAll(t.stats[q.view], q)], t.order) else t
    }
  }

  lemma FairIsListed(v: Views)
    requires v.Fair()
    ensures v.Listed()
  {
    forall k | 0 <= k < |v.order| ensures v.order[k] in v.stats {
      assert v.order[k] in (set s | s in v.order);
    }
  }

  lemma DropLastIsFair(v: Views)
    requires v.Fair() && v.order != []
    ensures v.DropLast().Fair()
  {
    var n := |v.order| - 1;
    DistinctWithout(v.order, n);
    assert Without(v.order, n) == v.order[..n];
  }

  lemma MeetIsFair(v: Views, view: string)
    requires v.Fair()
    ensures v.Meet(view).Fair()
  {
    assert view in v.stats <==> view in (set s | s in v.order);
    ToFront(v.order, view);
  }

  lemma {:induction false} SumSizesSame(stats: map<string, Stats>, stats': map<string, Stats>, order: seq<string>)
    requires forall k :: 0 <= k < |order| ==>
      order[k] in stats && order[k] in stats' && stats[order[k]] == stats'[order[k]]
    ensures SumSizes(stats, order) == SumSizes(stats', order)
  {
    if order != [] {
      SumSizesSame(stats, stats', order[..|order| - 1]);
    }
  }

  /** The size with the `k` views used most recently. */
  function FirstSize(v: Views, k: nat): nat
    requires v.Listed() && k <= |v.order|
  {
    Views(v.stats, v.order[..k]).Size()
  }

  lemma DropLastSize(v: Views, k: nat)
    requires v.Fair() && k < |v.order|
    ensures v.Listed() && v.DropLast().Listed() && FirstSize(v.DropLast(), k) == FirstSize(v, k)
  {
    FairIsListed(v);
    DropLastIsFair(v);
    FairIsListed(v.DropLast());
    var n := |v.order| - 1;
    assert v.order[..n][..k] == v.order[..k];
    SumSizesSame(v.DropLast().stats, v.stats, v.order[..k]);
  }

  /** Eviction keeps a prefix of the views by last use, never drops the last one, and drops none
      more than needed. */
  lemma {:induction false} EvictMeans(v: Views, limit: nat)
    requires v.Fair()
    ensures v.Listed() && v.Evict(limit).Fair() && v.Evict(limit).Listed()
    ensures var t := v.Evict(limit);
      && t.order <= v.order && (v.order != [] ==> t.order != [])
      && (forall s :: s in t.stats ==> s in v.stats && t.stats[s] == v.stats[s])
      && (t.Size() <= limit || |t.order| <= 1)
      && forall k :: |t.order| < k <= |v.order| ==> FirstSize(v, k) > limit
    decreases |v.order|
  {
    FairIsListed(v);
    if v.Size() > limit && |v.order| > 1 {
      var w := v.DropLast();
      DropLastIsFair(v);
      EvictMeans(w, limit);
      var t := w.Evict(limit);
      forall k | |t.order| < k <= |v.order| ensures FirstSize(v, k) > limit {
        if k == |v.order| {
          assert v.order[..k] == v.order;
        } else {
          DropLastSize(v, k);
          assert FirstSize(w, k) > limit;
        }
      }
    }
  }

  /** The size of no views, and what each view adds: its own size, its node and its cell. */
  lemma SizeMeans(v: Views)
    requires v.Fair()
    ensures v.Listed() && (v.order == [] ==> v.Size() == 24)
    ensures v.order != [] ==>
      && v.DropLast().Listed() && v.order[|v.order| - 1] in v.stats
      && v.Size() == v.DropLast().Size() + v.stats[v.order[|v.order| - 1]].Size() + 128 + 24
  {
    FairIsListed(v);
    if v.order != [] {
      var n := |v.order| - 1;
      DropLastIsFair(v);
      FairIsListed(v.DropLast());
      assert v.order[n] in v.stats;
      SumSizesSame(v.stats, v.DropLast().stats, v.order[..n]);
    }
  }

  /** From `v` to `t` a most recent part of the views is left, at least one, and none has gone without
      need. If several are left they are as they were and fit the limit; a view left alone has been
      trimmed to the limit. */
  ghost predicate Settled(v: Views, limit: nat, t: Views)
    requires v.Fair()
  {
    && v.Listed() && t.order <= v.order && t.order != [] && t.stats.Keys == (set s | s in t.order)
    && (forall s :: s in t.stats ==> s in v.stats)
    && (|t.order| > 1 ==> FirstSize(v, |t.order|) <= limit && forall s :: s in t.stats ==> t.stats[s] == v.stats[s])
    && (|t.order| == 1 ==> t.order[0] in t.stats && Trimmed(v.stats[t.order[0]], limit, t.stats[t.order[0]]))
    && forall k :: |t.order| < k <= |v.order| ==> FirstSize(v, k) > limit
  }

  lemma FirstSizeIsSize(v: Views, t: Views)
    requires v.Fair() && v.Listed() && t.Listed() && t.order <= v.order
    requires forall s :: s in t.stats ==> s in v.stats && t.stats[s] == v.stats[s]
    ensures FirstSize(v, |t.order|) == t.Size()
  {
    assert v.order[..|t.order|] == t.order;
    SumSizesSame(v.stats, t.stats, t.order);
  }

  /** That is what trimming does. */
  lemma SetMemsizeMeans(v: Views, limit: nat)
    requires v.Fair() && v.order != []
    ensures v.SetMemsize(limit).Fair() && Settled(v, limit, v.SetMemsize(limit))
  {
    EvictMeans(v, limit);
    var e := v.Evict(limit);
    var t := e.Squeeze(limit);
    assert t.stats.Keys == e.stats.Keys;
    if |e.order| == 1 {
      TrimMeans(e.stats[e.order[0]], limit);
      assert Trimmed(e.stats[e.order[0]], limit, t.stats[e.order[0]]);
    } else {
      FirstSizeIsSize(v, e);
    }
  }

  /** And nothing else does it. */
  lemma SettledIsUnique(v: Views, limit: nat, t: Views)
    requires v.Fair() && Settled(v, limit, t)
    ensures t == v.SetMemsize(limit)
  {
    var u := v.SetMemsize(limit);
    SetMemsizeMeans(v, limit);
    SameLength(v, limit, t, u);
    SameLength(v, limit, u, t);
    assert t.order == v.order[..|t.order|] == u.order;
    if |t.order| == 1 {
      TrimMeans(v.stats[t.order[0]], limit);
      assert t.stats[t.order[0]] == u.stats[t.order[0]];
    }
    assert t.stats.Keys == u.stats.Keys;
    forall s | s in t.stats ensures t.stats[s] == u.stats[s] {
      assert s in t.order;
    }
  }

  lemma SameLength(v: Views, limit: nat, t: Views, u: Views)
    requires v.Fair() && Settled(v, limit, t) && Settled(v, limit, u)
    ensures |t.order| >= |u.order|
  {
    var n := FirstSize(v, |u.order|);
  }

  /** The total after trimming fits, or one view is left: then it is over by no more than the fixed
      overhead, or nothing is left in its lists. */
  lemma SettledSize(v: Views, limit: nat, t: Views)
    requires v.Fair() && Settled(v, limit, t)
    ensures t.Listed() && (|t.order| > 1 ==> t.Size() <= limit)
    ensures |t.order| == 1 ==>
      var s := t.stats[t.order[0]];
      t.Size() == s.Size() + 176 && (s.Size() <= limit || (s.nameOrder == [] && s.ipOrder == []))
  {
    forall k | 0 <= k < |t.order| ensures t.order[k] in t.stats {
      assert t.order[k] in (set s | s in t.order);
    }
    if |t.order| == 1 {
      assert t.order[..0] == [];
      assert SumSizes(t.stats, t.order) == t.stats[t.order[0]].Size() + STATS_NODE_MAX_SIZE;
    } else {
      FirstSizeIsSize(v, t);
    }
  }

  /** Whatever a trim keeps it keeps as it was, but for the lists of a view left alone, which
      keep their most recent entries. */
  lemma SetMemsizeKeeps(v: Views, limit: nat, name: string)
    requires v.Fair() && name in v.SetMemsize(limit).stats
    ensures name in v.stats
    ensures var s, t := v.stats[name], v.SetMemsize(limit).stats[name];
      && (|v.SetMemsize(limit).order| > 1 ==> t == s)
      && t.nameOrder <= s.nameOrder && t.ipOrder <= s.ipOrder && t.rcode == s.rcode && t.rtype == s.rtype
  {
    EvictMeans(v, limit);
    TrimMeans(v.stats[name], limit);
    assert Trimmed(v.stats[name], limit, v.stats[name].Trim(limit));
  }

  /** The view at the head survives any trim. */
  lemma RoomKeepsHead(v: Views, limit: nat)
    requires v.Fair() && v.order != []
    ensures var t := v.MakeRoom(limit);
      && t.Fair() && t.order != [] && t.order[0] == v.order[0] && t.order[0] in t.stats && t.order <= v.order
  {
    FairIsListed(v);
    if limit < v.Size() {
      SetMemsizeMeans(v, limit);
    }
    FairIsListed(v.MakeRoom(limit));
  }

  /** A size over the limit is settled, and nothing else is touched. */
  lemma RoomIsSettled(v: Views, limit: nat)
    requires v.Fair() && v.order != []
    ensures v.Listed() && (if v.Size() <= limit then v.MakeRoom(limit) == v else Settled(v, limit, v.MakeRoom(limit)))
  {
    FairIsListed(v);
    if limit < v.Size() {
      SetMemsizeMeans(v, limit);
    }
  }

  /** The handler, step by step: meet the view, make room, count. */
  lemma LogInSteps(v: Views, q: Query, limit: nat, met: Views, room: Views, done: Views)
    requires v.Fair() && Loggable(q) && (q.view in v.stats || |q.view| <= MAX_VIEW_LENGTH)
    requires met == v.Meet(q.view) && met.Fair() && room == met.MakeRoom(limit)
    requires q.view in room.stats && done.order == room.order
    requires done.stats == room.stats[q.view := CountAll(room.stats[q.view], q)]
    ensures done == v.Log(q, limit)
  {
  }

  /** From `met`, where the view of the query is at the head, to `t` there has been a trim if the size
      was over the limit, and then the query has been counted at the head of the list. */
  ghost predicate Served(met: Views, q: Query, limit: nat, t: Views)
    requires met.Fair() && Loggable(q)
  {
    && met.Listed() && met.order != [] && met.order[0] == q.view && t.order != [] && t.order <= met.order
    && t.stats.Keys == (set s | s in t.order) && q.view in t.stats && q.view in met.stats
    && (met.Size() <= limit ==> t.order == met.order)
    && (met.Size() > limit && |t.order| > 1 ==> FirstSize(met, |t.order|) <= limit)
    && (met.Size() > limit ==> forall k :: |t.order| < k <= |met.order| ==> FirstSize(met, k) > limit)
    && (forall s :: s in t.stats && s != q.view ==> s in met.stats && t.stats[s] == met.stats[s])
    && (met.Size() <= limit || |t.order| > 1 ==> t.stats[q.view] == CountAll(met.stats[q.view], q))
    && (met.Size() > limit && |t.order| == 1 ==>
         exists s :: Trimmed(met.stats[q.view], limit, s) && t.stats[q.view] == CountAll(s, q))
  }

  /** The view that a query is counted in has survived the trimming: it is the head of the list. */
  lemma LogMeans(v: Views, q: Query, limit: nat)
    requires v.Fair() && Loggable(q)
    ensures v.Log(q, limit).Fair() && v.Meet(q.view).Fair()
    ensures q.view !in v.stats && |q.view| > 64 ==> v.Log(q, limit) == v
    ensures q.view in v.stats || |q.view| <= 64 ==>
      Served(v.Meet(q.view), q, limit, v.Log(q, limit)) && v.Log(q, limit).order[0] == q.view
  {
    var met := v.Meet(q.view);
    MeetIsFair(v, q.view);
    FairIsListed(met);
    if q.view in v.stats || |q.view| <= MAX_VIEW_LENGTH {
      RoomKeepsHead(met, limit);
      RoomIsSettled(met, limit);
      CountedIsServed(met, q, limit, met.MakeRoom(limit), v.Log(q, limit));
    }
  }

  lemma CountedIsServed(met: Views, q: Query, limit: nat, room: Views, t: Views)
    requires met.Fair() && Loggable(q) && met.Listed() && met.order != [] && met.order[0] == q.view
    requires room.Fair() && room.order != [] && room.order <= met.order && q.view in room.stats
    requires if met.Size() <= limit then room == met else Settled(met, limit, room)
    requires t == Views(room.stats[q.view := CountAll(room.stats[q.view], q)], room.order)
    ensures t.Fair() && Served(met, q, limit, t)
  {
    assert t.stats.Keys == room.stats.Keys;
    assert met.order[0] in (set s | s in met.order);
  }

  /** A sum over the views does not depend on the order they are visited in. */
  lemma {:induction false} SumSizesPerm(stats: map<string, Stats>, a: seq<string>, b: seq<string>)
    requires Distinct(a) && Distinct(b) && |a| == |b|
    requires forall k :: 0 <= k < |a| ==> a[k] in b && a[k] in stats
    requires forall k :: 0 <= k < |b| ==> b[k] in a && b[k] in stats
    ensures SumSizes(stats, a) == SumSizes(stats, b)
    decreases |a|
  {
    if a != [] {
      var n := |a| - 1;
      assert a[n] in b;
      var at :| 0 <= at < |b| && b[at] == a[n];
      assert Without(a, n) == a[..n];
      DistinctWithout(b, at);
      forall k | 0 <= k < n ensures a[..n][k] in Without(b, at) {
        WithoutIn(b, at, a[k]);
      }
      forall k | 0 <= k < |b| - 1 ensures Without(b, at)[k] in a[..n] && Without(b, at)[k] in b {
        var x := Without(b, at)[k];
        assert x in Without(b, at);
        WithoutIn(a, n, x);
      }
      SumSizesPerm(stats, a[..n], Without(b, at));
      SumSizesWithout(stats, b, at);
    }
  }

  lemma {:induction false} SumSizesWithout(stats: map<string, Stats>, b: seq<string>, at: nat)
    requires at < |b| && forall k :: 0 <= k < |b| ==> b[k] in stats
    ensures SumSizes(stats, b) == SumSizes(stats, Without(b, at)) + stats[b[at]].Size() + STATS_NODE_MAX_SIZE
  {
    var n := |b| - 1;
    if at < n {
      SumSizesWithout(stats, b[..n], at);
      assert Without(b, at)[..n - 1] == Without(b[..n], at);
      assert Without(b, at)[n - 1] == b[n];
    } else {
      assert Without(b, at) == b[..n];
    }
  }

  // ---------- the eviction loop, step by step ----------

  /** Eviction from `v` on ends in `goal`. */
  ghost predicate ToEvict(v: Views, limit: nat, goal: Views) {
    forall u :: Ask(OfTrim, u) ==> v.Fair() && v.Evict(limit) == goal
  }

  lemma EvictEnds(v: Views, limit: nat, goal: Views)
    requires ToEvict(v, limit, goal) && v.Listed() && (v.Size() <= limit || |v.order| <= 1)
    ensures goal == v
  {
    assert Ask(OfTrim, 0);
  }

  lemma EvictGoes(v: Views, limit: nat, goal: Views)
    requires ToEvict(v, limit, goal) && v.Listed() && v.Size() > limit && |v.order| > 1
    ensures ToEvict(v.DropLast(), limit, goal)
  {
    assert Ask(OfTrim, 0);
    DropLastIsFair(v);
  }

  // ---------- runs of the handler ----------

  /** Names and addresses are listed once each. */
  predicate Tidy(v: Views) {
    forall s :: s in v.stats ==> Distinct(v.stats[s].nameOrder) && Distinct(v.stats[s].ipOrder)
  }

  lemma CountAllGrows(s: Stats, q: Query)
    requires Loggable(q) && Distinct(s.nameOrder) && Distinct(s.ipOrder)
    ensures var t := CountAll(s, q);
      Distinct(t.nameOrder) && Distinct(t.ipOrder) && t.Size() <= s.Size() + 224
  {
    var t := CountAll(s, q);
    if |q.domain| < MAX_NAME_LEN {
      ToFront(s.nameOrder, Normal(q.domain));
    }
    if |q.ip| < MAX_NAME_LEN {
      ToFront(s.ipOrder, Normal(q.ip));
    }
    SizeGrows(|s.nameOrder|, |s.ipOrder|, |t.nameOrder|, |t.ipOrder|);
  }

  lemma SizeGrows(names: nat, ips: nat, names': nat, ips': nat)
    requires names <= names' <= names + 1 && ips <= ips' <= ips + 1
    ensures StatsSize(names', ips') <= StatsSize(names, ips) + 224
  {
    StatsSizeMeans(names, ips);
    StatsSizeMeans(names', ips');
    RestGrows(320704 + 112 * (names + ips), 112 * (names' - names + (ips' - ips)));
    assert 320704 + 112 * (names + ips) + 112 * (names' - names + (ips' - ips)) == 320704 + 112 * (names' + ips');
  }

  lemma RestGrows(a: nat, d: nat)
    ensures (a + d) % 0x1_0000_0000 <= a % 0x1_0000_0000 + d
  {
  }

  lemma {:induction false} SumSizesChange(stats: map<string, Stats>, order: seq<string>, name: string, s: Stats)
    requires Distinct(order) && (forall k :: 0 <= k < |order| ==> order[k] in stats) && name in stats
    ensures SumSizes(stats[name := s], order) ==
      SumSizes(stats, order) + if name in order then s.Size() - stats[name].Size() else 0
  {
    if order != [] {
      SumSizesChange(stats, order[..|order| - 1], name, s);
    }
  }

  /** No run makes the memory estimate grow over the limit, or the size of an empty view, by more than this. */
  function Cap(limit: nat): nat {
    (if limit > 320704 then limit else 320704) + 400
  }

  /** A view met is at the head, and only a new one adds to the size. */
  lemma MeetSize(v: Views, view: string)
    requires v.Fair()
    ensures v.Meet(view).Fair() && v.Listed() && v.Meet(view).Listed()
    ensures v.Meet(view).Size() == v.Size() + if view in v.stats then 0 else 320704 + 128 + 24
    ensures Tidy(v) ==> Tidy(v.Meet(view))
  {
    MeetIsFair(v, view);
    FairIsListed(v);
    FairIsListed(v.Meet(view));
    assert view in v.stats <==> view in (set s | s in v.order);
    if view in v.stats {
      KnownSize(v.stats, v.order, view);
    } else {
      NewSize(v.stats, v.order, view);
    }
  }

  lemma KnownSize(stats: map<string, Stats>, order: seq<string>, view: string)
    requires Distinct(order) && view in order && forall k :: 0 <= k < |order| ==> order[k] in stats
    ensures var front := [view] + Removed(order, view);
      && |front| == |order| && (forall k :: 0 <= k < |front| ==> front[k] in stats)
      && SumSizes(stats, front) == SumSizes(stats, order)
  {
    var front := [view] + Removed(order, view);
    ToFront(order, view);
    var all := set y | y in order;
    assert (set y | y in front) == all;
    forall k | 0 <= k < |order| ensures order[k] in front {
      assert order[k] in all;
    }
    forall k | 0 <= k < |front| ensures front[k] in order {
      assert front[k] in all;
    }
    SumSizesPerm(stats, front, order);
  }

  lemma NewSize(stats: map<string, Stats>, order: seq<string>, view: string)
    requires view !in order && forall k :: 0 <= k < |order| ==> order[k] in stats
    ensures var more := stats[view := NewStats()];
      && (forall k :: 0 <= k < |[view] + order| ==> ([view] + order)[k] in more)
      && SumSizes(more, [view] + order) == SumSizes(stats, order) + 320704 + 128
  {
    var more := stats[view := NewStats()];
    SumSizesWithout(more, [view] + order, 0);
    assert Without([view] + order, 0) == order;
    SumSizesSame(more, stats, order);
    StatsSizeMeans(0, 0);
  }

  /** Counting adds at most a name and an address. */
  lemma CountedSize(room: Views, q: Query, t: Views)
    requires room.Fair() && room.Listed() && Tidy(room) && Loggable(q) && q.view in room.stats
    requires t == Views(room.stats[q.view := CountAll(room.stats[q.view], q)], room.order)
    ensures t.Listed() && t.Size() <= room.Size() + 224 && Tidy(t)
  {
    CountAllGrows(room.stats[q.view], q);
    SumSizesChange(room.stats, room.order, q.view, CountAll(room.stats[q.view], q));
    assert q.view in (set s | s in room.order);
  }

  /** After a query that is not refused the size is within the bound, whatever it was before. */
  lemma LogIsBounded(v: Views, q: Query, limit: nat)
    requires v.Fair() && Loggable(q) && Tidy(v) && (q.view in v.stats || |q.view| <= MAX_VIEW_LENGTH)
    ensures var t := v.Log(q, limit);
      && t.Fair() && t.Listed() && Tidy(t) && t.Size() <= Cap(limit)
      && (t.Size() <= limit + 400 || t.Size() <= 320704 + 400)
      && v.Meet(q.view).Fair() && v.Meet(q.view).Listed()
      && (v.Meet(q.view).Size() <= limit ==> t.Size() <= v.Meet(q.view).Size() + 224)
  {
    LogMeans(v, q, limit);
    MeetSize(v, q.view);
    var met := v.Meet(q.view);
    var room := met.MakeRoom(limit);
    RoomKeepsHead(met, limit);
    RoomIsSettled(met, limit);
    FairIsListed(room);
    RoomIsTidy(met, limit, room);
    CountedSize(room, q, v.Log(q, limit));
  }

  lemma RoomIsTidy(met: Views, limit: nat, room: Views)
    requires met.Fair() && met.Listed() && Tidy(met) && room.Listed()
    requires if met.Size() <= limit then room == met else Settled(met, limit, room)
    ensures Tidy(room) && room.Size() + 224 <= Cap(limit)
  {
    if met.Size() > limit {
      SettledSize(met, limit, room);
      if |room.order| == 1 {
        var s, t := met.stats[room.order[0]], room.stats[room.order[0]];
        assert t.nameOrder == s.nameOrder[..|t.nameOrder|] && t.ipOrder == s.ipOrder[..|t.ipOrder|];
        StatsSizeMeans(0, 0);
        forall x | x in room.stats ensures x == room.order[0] {
          assert x in (set s | s in room.order);
        }
      }
    }
  }

  predicate AllLoggable(qs: seq<Query>) {
    forall k :: 0 <= k < |qs| ==> Loggable(qs[k])
  }

  ghost function LogAll(v: Views, qs: seq<Query>, limit: nat): Views
    requires v.Fair() && AllLoggable(qs)
    decreases |qs|
  {
    if qs == [] then v
    else
      LogMeans(v, qs[0], limit);
      LogAll(v.Log(qs[0], limit), qs[1..], limit)
  }

  /** After any run the views are listed once each, and the view of the last query that was not
      refused is at the head of the list. */
  lemma {:induction false} LogAllMeans(v: Views, qs: seq<Query>, limit: nat)
    requires v.Fair() && AllLoggable(qs)
    ensures LogAll(v, qs, limit).Fair()
    ensures qs != [] && |qs[|qs| - 1].view| <= MAX_VIEW_LENGTH ==>
      var t := LogAll(v, qs, limit);
      t.order != [] && t.order[0] == qs[|qs| - 1].view && t.order[0] in t.stats
    decreases |qs|
  {
    if qs != [] {
      LogMeans(v, qs[0], limit);
      LogAllMeans(v.Log(qs[0], limit), qs[1..], limit);
    }
  }

  /** And the memory estimate stays within its bound. */
  lemma {:induction false} LogAllIsBounded(v: Views, qs: seq<Query>, limit: nat)
    requires v.Fair() && AllLoggable(qs) && Tidy(v) && v.Listed() && v.Size() <= Cap(limit)
    ensures var t := LogAll(v, qs, limit);
      && t.Fair() && Tidy(t) && t.Listed() && t.Size() <= Cap(limit)
      && (t.Size() <= limit + 400 || t.Size() <= 320704 + 400)
    decreases |qs|
  {
    if qs != [] {
      var q := qs[0];
      LogMeans(v, q, limit);
      if q.view in v.stats || |q.view| <= MAX_VIEW_LENGTH {
        LogIsBounded(v, q, limit);
      }
      LogAllIsBounded(v.Log(q, limit), qs[1..], limit);
    }
  }
}
