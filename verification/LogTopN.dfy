/** The handler of src/log_topn.c: one query at a time, under one lock. */
module LogTopN {
  import opened Fanout
  import opened NameRuns
  import opened NameTree
  import opened RedBlackAlgebra
  import opened RedBlackTree
  import opened TopRank
  import opened ViewModel
  import opened ViewStats
  import opened ViewTree

  const MEM_UPLIMIT: nat := 10 * 1024 * 1024

  /** The name fits the buffers it is copied to; one that is refused need only fit the first. */
  predicate Nameable(view: string) {
    |view| < STATS_NODE_MAX_SIZE && |view| != MAX_VIEW_LENGTH
  }

  class HouseKeeper {
    var views: ViewTree
    const memUplimit: nat
    const nil: Node

    ghost predicate Valid()
      reads this, views, views.rbtree, views.rbtree.nil, views.rbtree.mem.Keys, views.lrulist, views.lrulist.cells
      reads views.views.Values`ptr, views.hall
    {
      views.rbtree.nil == nil && views.Valid() && views.Spares(this)
    }

    constructor (nil: Node)
      requires nil.color == Black && nil.parent == nil.left == nil.right == nil
      ensures Valid() && views.Now() == Views(map[], []) && memUplimit == 10485760
    {
      memUplimit, this.nil := MEM_UPLIMIT, nil;
      views := new ViewTree(nil);
    }

    /** Counts the query in its view, after trimming if there is need. */
    method LogHandle(q: Query) returns (ghost news: set<object>)
      requires Valid() && Loggable(q) && Nameable(q.view)
      modifies views, views.rbtree, views.rbtree.mem.Keys, views.lrulist, views.lrulist.cells, views.hall
      ensures Valid() && views == old(views) && fresh(news)
      ensures Spread(old(views.rbtree.mem.Keys), old(views.lrulist.cells), old(views.hall), news,
                     views.rbtree.mem.Keys, views.lrulist.cells, views.hall)
      ensures old(views.Now()).Fair() && views.Now() == old(views.Now()).Log(q, memUplimit)
    {
      ghost var v := views;
      ghost var nodes, cells, hall := v.rbtree.mem.Keys, v.lrulist.cells, v.hall;
      news := views.Log(q, memUplimit);
      SpreadOpen(nodes, cells, hall, news, v.rbtree.mem.Keys, v.lrulist.cells, v.hall);
    }

    /** Any run of queries. */
    method HandleAll(qs: seq<Query>) returns (ghost news: set<object>)
      requires Valid() && AllLoggable(qs) && forall k :: 0 <= k < |qs| ==> Nameable(qs[k].view)
      modifies views, views.rbtree, views.rbtree.mem.Keys, views.lrulist, views.lrulist.cells, views.hall
      ensures Valid() && views == old(views) && fresh(news)
      ensures Spread(old(views.rbtree.mem.Keys), old(views.lrulist.cells), old(views.hall), news,
                     views.rbtree.mem.Keys, views.lrulist.cells, views.hall)
      ensures old(views.Now()).Fair() && views.Now() == LogAll(old(views.Now()), qs, memUplimit)
      decreases |qs|
    {
      views.NowIsFair();
      ghost var v := views;
      ghost var nodes, cells, hall := v.rbtree.mem.Keys, v.lrulist.cells, v.hall;
      news := {};
      if qs == [] {
        SpreadLess(nodes, cells, hall, {}, nodes, cells, hall);
        return;
      }
      news := LogHandle(qs[0]);
      ghost var nodes', cells', hall' := v.rbtree.mem.Keys, v.lrulist.cells, v.hall;
      SpreadOpen(nodes, cells, hall, news, nodes', cells', hall');
      ghost var more := HandleAll(qs[1..]);
      SpreadOn(nodes, cells, hall, news, nodes', cells', hall', more, v.rbtree.mem.Keys, v.lrulist.cells, v.hall);
      news := news + more;
    }

    /** The lines of the log since the last flush, each counted for its view and for its zone. */
    method HandleLines(lines: seq<Line>) returns (ghost news: set<object>)
      requires Valid() && views.Now() == Views(map[], []) && AllValid(lines)
      modifies views, views.rbtree, views.rbtree.mem.Keys, views.lrulist, views.lrulist.cells, views.hall
      ensures Valid() && views == old(views) && fresh(news) && AllLoggable(Queries(lines)) && Views(map[], []).Fair()
      ensures views.Now() == LogAll(Views(map[], []), Queries(lines), memUplimit)
      ensures Roomy(Views(map[], []), Queries(lines), memUplimit) ==> Conserved(views.Now(), lines)
      ensures Bounded(views.Now(), lines, memUplimit)
    {
      QueriesAreLoggable(lines);
      HandlerKeeps(lines, memUplimit);
      HandlerConserves(lines, memUplimit);
      news := HandleAll(Queries(lines));
    }

    /** The reply to a request for the names, or the addresses, of a view; 0 asks for a thousand. */
    method Reply(view: string, which: Kind, topn: nat)
      returns (found: bool, shown: seq<string>, counts: seq<nat>, ghost trace: seq<Snapshot>)
      requires Valid() && (view in views.stats ==> views.stats[view].HasAll(which))
      ensures Valid() && found == (view in views.stats)
      ensures found && which == Names ==>
        Replied(views.stats[view].nameLog, trace, if topn == 0 then 1000 else topn, shown, counts)
      ensures found && which == Ips ==>
        Replied(views.stats[view].ipLog, trace, if topn == 0 then 1000 else topn, shown, counts)
    {
      found, shown, counts, trace := views.TopN(view, which, if topn == 0 then TOP else topn);
    }

    /** All counters are forgotten. */
    method Flush()
      requires Valid()
      modifies this
      ensures Valid() && fresh(views) && views.Now() == Views(map[], [])
    {
      SentinelIsBlack();
      views := new ViewTree(nil);
    }

    lemma SentinelIsBlack()
      requires Valid()
      ensures nil.color == Black && nil.parent == nil.left == nil.right == nil
    {
      views.SentinelIsBlack();
    }
  }

  /** A reply after any lines, as long as there was no trim: it is that of a tree where the domains,
      or the addresses, of exactly the lines of the view and zone, or of the zone, have been inserted. */
  method ReplyToLines(h: HouseKeeper, lines: seq<Line>, view: string, zone: string, which: Kind, topn: nat)
    returns (found: bool, shown: seq<string>, counts: seq<nat>, ghost trace: seq<Snapshot>)
    requires h.Valid() && h.views.Now() == Views(map[], []) && AllValid(lines) && '$' !in view
    requires AllLoggable(Queries(lines)) && Views(map[], []).Fair()
    requires Roomy(Views(map[], []), Queries(lines), h.memUplimit)
    modifies h.views, h.views.rbtree, h.views.rbtree.mem.Keys, h.views.lrulist, h.views.lrulist.cells, h.views.hall
    ensures h.Valid() && found == (LogOf(lines, view, zone, which) != [])
    ensures found ==>
      Replied(LogOf(lines, view, zone, which), trace, if topn == 0 then 1000 else topn, shown, counts)
  {
    HandlerRun(lines, h.memUplimit);
    RunLogs(lines, view, zone, which);
    ghost var news := h.HandleLines(lines);
    found, shown, counts, trace := h.Reply(view + "$" + zone, which, topn);
  }
}
