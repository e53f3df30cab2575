/** The tree of views, src/log_view_tree.c: a red-black tree and an LRU list over the same view
    nodes, each with counters of its own that no other view can reach. */
module ViewTree {
  import opened LruList
  import opened NameIndex
  import opened NameRuns
  import opened NameTree
  import opened RedBlackAlgebra
  import opened RedBlackTree
  import opened Sealing
  import opened ViewModel
  import opened ViewStats
  import opened Sequences

  class ViewNode {
    const name: string
    const vs: ViewStats
    var ptr: Cell?

    constructor (name: string, vs: ViewStats)
      ensures this.name == name && this.vs == vs && ptr == null
    {
      this.name, this.vs, ptr := name, vs, null;
    }
  }

  /** Every view node knows its cell. */
  ghost predicate Placed(views: map<string, ViewNode>, order: seq<string>, cells: seq<Cell>)
    reads views.Values`ptr
  {
    && |order| == |cells|
    && (forall u :: Ask(OfCells, u) ==> forall s :: s in views ==> views[s].name == s)
    && (forall u :: Ask(OfCells, u) ==>
         forall k :: 0 <= k < |order| ==> order[k] in views && views[order[k]].ptr == cells[k])
  }

  lemma PlacedCell(views: map<string, ViewNode>, order: seq<string>, cells: seq<Cell>, at: nat)
    requires Placed(views, order, cells) && at < |order|
    ensures order[at] in views && views[order[at]].ptr == cells[at] && views[order[at]].name == order[at]
  {
    assert Ask(OfCells, 0);
  }

  lemma PlacedName(views: map<string, ViewNode>, order: seq<string>, cells: seq<Cell>, s: string)
    requires Placed(views, order, cells) && s in views
    ensures views[s].name == s
  {
    assert Ask(OfCells, 0);
  }

  lemma PlacedAdd(views: map<string, ViewNode>, order: seq<string>, cells: seq<Cell>, v: ViewNode)
    requires Placed(views, order, cells) && v.name !in views && v.ptr != null
    ensures Placed(views[v.name := v], [v.name] + order, [v.ptr] + cells)
  {
    assert Ask(OfCells, 0);
  }

  lemma PlacedTouch(views: map<string, ViewNode>, order: seq<string>, cells: seq<Cell>, at: nat)
    requires Placed(views, order, cells) && at < |order|
    ensures Placed(views, [order[at]] + Without(order, at), [cells[at]] + Without(cells, at))
  {
    assert Ask(OfCells, 0);
  }

  lemma PlacedDrop(views: map<string, ViewNode>, order: seq<string>, cells: seq<Cell>, at: nat)
    requires Placed(views, order, cells) && at < |order| && order[at] !in Without(order, at)
    ensures Placed(views - {order[at]}, Without(order, at), Without(cells, at))
  {
    assert Ask(OfCells, 0);
    forall k | 0 <= k < |order| - 1 ensures Without(order, at)[k] in views - {order[at]} {
      assert Without(order, at)[k] in Without(order, at);
    }
  }

  // ---------- the counters of the views, each in a home of its own ----------

  /** `home` is all that the counters of a view are made of. */
  ghost predicate Home(vs: ViewStats, home: set<object>, nil: Node)
    reads home, nil
  {
    nil !in home && forall u :: Ask(OfHome, u) ==> HomeParts(vs, home, nil)
  }

  ghost predicate HomeParts(vs: ViewStats, home: set<object>, nil: Node)
    reads home, nil
  {
    && {vs, vs.nameTree, vs.nameTree.tree, vs.nameTree.lru, vs.ipTree, vs.ipTree.tree, vs.ipTree.lru} <= home
    && vs.nameTree.tree.nil == nil && vs.ipTree.tree.nil == nil && nil !in home
    && vs.Footprint() == home && vs.Whole()
  }

  ghost function StatsIn(vs: ViewStats, home: set<object>, nil: Node): Stats
    requires Home(vs, home, nil)
    reads home, nil
  {
    assert Ask(OfHome, 0);
    vs.Now()
  }

  ghost predicate Apart(homes: map<string, set<object>>) {
    forall s, t :: s in homes && t in homes && s != t ==> homes[s] !! homes[t]
  }

  /** Every view has its home in the hall, apart from the others, and `stats` is what its counters say. */
  ghost predicate Housed(views: map<string, ViewNode>, homes: map<string, set<object>>, hall: set<object>, nil: Node,
                         stats: map<string, Stats>)
    reads hall, nil
  {
    && homes.Keys == views.Keys == stats.Keys && nil !in hall
    && forall u :: Ask(OfHomes, u) ==>
      && Apart(homes)
      && forall s :: s in views ==>
           && homes[s] <= hall && Home(views[s].vs, homes[s], nil)
           && stats[s] == StatsIn(views[s].vs, homes[s], nil)
  }

  lemma HousedAdd(views: map<string, ViewNode>, homes: map<string, set<object>>, hall: set<object>, nil: Node,
                  stats: map<string, Stats>, v: ViewNode, home: set<object>)
    requires Housed(views, homes, hall, nil, stats) && v.name !in views && Home(v.vs, home, nil) && home !! hall
    ensures Housed(views[v.name := v], homes[v.name := home], hall + home, nil,
                   stats[v.name := StatsIn(v.vs, home, nil)])
  {
    assert Ask(OfHomes, 0);
  }

  twostate lemma HousedFrame(new views: map<string, ViewNode>, new homes: map<string, set<object>>,
                             new hall: set<object>, new nil: Node, new stats: map<string, Stats>)
    requires old(allocated(views) && allocated(homes) && allocated(hall) && allocated(nil))
    requires old(Housed(views, homes, hall, nil, stats))
    requires unchanged(hall) && unchanged(nil)
    ensures Housed(views, homes, hall, nil, stats)
  {
  }

  twostate lemma HomeFrame(new vs: ViewStats, new home: set<object>, new nil: Node)
    requires old(allocated(vs) && allocated(home) && allocated(nil))
    requires old(Home(vs, home, nil)) && unchanged(home) && unchanged(nil)
    ensures Home(vs, home, nil) && StatsIn(vs, home, nil) == old(StatsIn(vs, home, nil))
  {
  }

  twostate lemma PlacedFrame(new views: map<string, ViewNode>, new order: seq<string>, new cells: seq<Cell>)
    requires old(allocated(views) && allocated(cells))
    requires old(Placed(views, order, cells)) && unchanged(views.Values)
    ensures Placed(views, order, cells)
  {
  }

  /** `total` is the sum over the first `k` nodes. */
  ghost predicate SummedTo(stats: map<string, Stats>, nodes: seq<Node>, k: nat, total: nat) {
    && k <= |nodes|
    && forall u :: Ask(OfTrim, u) ==>
      && (forall i :: 0 <= i < k ==> nodes[i].key in stats)
      && (forall i :: 0 <= i < k ==> KeysOf(nodes[..k])[i] in stats)
      && total == SumSizes(stats, KeysOf(nodes[..k]))
  }

  lemma SumStart(stats: map<string, Stats>, nodes: seq<Node>)
    ensures SummedTo(stats, nodes, 0, 0)
  {
    assert nodes[..0] == [];
  }

  lemma SumNext(stats: map<string, Stats>, nodes: seq<Node>, k: nat, total: nat)
    requires SummedTo(stats, nodes, k, total) && k < |nodes| && nodes[k].key in stats
    ensures SummedTo(stats, nodes, k + 1, total + stats[nodes[k].key].Size() + STATS_NODE_MAX_SIZE)
  {
    assert Ask(OfTrim, 0);
    var now, next := nodes[..k], nodes[..k + 1];
    assert next[..k] == now && next[k] == nodes[k];
    assert KeysOf(next) == KeysOf(now) + [nodes[k].key];
    assert KeysOf(next)[..k] == KeysOf(now);
  }

  lemma SumEnd(v: Views, nodes: seq<Node>, total: nat)
    requires SummedTo(v.stats, nodes, |nodes|, total)
    requires Distinct(v.order) && Distinct(KeysOf(nodes)) && |nodes| == |v.order|
    requires forall k :: 0 <= k < |v.order| ==> v.order[k] in KeysOf(nodes)
    requires forall k :: 0 <= k < |nodes| ==> nodes[k].key in v.order
    ensures v.Listed() && total + VIEW_TREE_SIZE + CELL_SIZE * |v.order| == v.Size()
  {
    assert Ask(OfTrim, 0);
    assert nodes[..|nodes|] == nodes;
    forall k | 0 <= k < |v.order| ensures v.order[k] in v.stats {
      var i :| 0 <= i < |nodes| && KeysOf(nodes)[i] == v.order[k];
      assert nodes[i].key in v.stats;
    }
    SumSizesPerm(v.stats, KeysOf(nodes), v.order);
  }

  lemma HousedDrop(views: map<string, ViewNode>, homes: map<string, set<object>>, hall: set<object>, nil: Node,
                   stats: map<string, Stats>, s: string)
    requires Housed(views, homes, hall, nil, stats)
    ensures Housed(views - {s}, homes - {s}, hall, nil, stats - {s})
  {
    assert Ask(OfHomes, 0);
  }

  /** A query is counted in the view it belongs to. */
  method CountHome(vs: ViewStats, ghost home: set<object>, ghost nil: Node, q: Query) returns (ghost home': set<object>)
    requires Home(vs, home, nil) && Loggable(q)
    modifies home
    ensures Home(vs, home', nil) && fresh(home' - home)
    ensures StatsIn(vs, home', nil) == CountAll(old(StatsIn(vs, home, nil)), q)
  {
    assert Ask(OfHome, 0);
    vs.CountQuery(q.domain, q.ip, q.rtype, q.rcode);
    home' := vs.Footprint();
  }

  /** The reply of the view. */
  method AnswerHome(vs: ViewStats, ghost home: set<object>, ghost nil: Node, which: Kind, topn: nat)
    returns (shown: seq<string>, counts: seq<nat>, ghost trace: seq<Snapshot>)
    requires Home(vs, home, nil) && StatsIn(vs, home, nil).HasAll(which)
    ensures Home(vs, home, nil) && StatsIn(vs, home, nil) == old(StatsIn(vs, home, nil))
    ensures Replied(StatsIn(vs, home, nil).Log(which), trace, topn, shown, counts)
  {
    assert Ask(OfHome, 0);
    shown, counts, trace := vs.TopN(which, topn);
  }

  method ShrinkHome(vs: ViewStats, ghost home: set<object>, ghost nil: Node, limit: nat)
    returns (ghost home': set<object>)
    requires Home(vs, home, nil)
    modifies home
    ensures Home(vs, home', nil) && home' <= home
    ensures StatsIn(vs, home', nil) == old(StatsIn(vs, home, nil)).Trim(limit)
  {
    assert Ask(OfHome, 0);
    vs.SetMemsize(limit);
    home' := vs.Footprint();
  }

  /** One view has changed, and only that one. */
  twostate lemma HousedChange(new views: map<string, ViewNode>, new homes: map<string, set<object>>,
                              new hall: set<object>,
                              new nil: Node, new stats: map<string, Stats>, new s: string, new home: set<object>)
    requires old(allocated(views) && allocated(homes) && allocated(hall) && allocated(nil))
    requires old(Housed(views, homes, hall, nil, stats)) && s in views && unchanged(nil)
    requires forall o :: o in hall - homes[s] ==> unchanged(o)
    requires Home(views[s].vs, home, nil) && home * hall <= homes[s]
    ensures Housed(views, homes[s := home], hall + home, nil, stats[s := StatsIn(views[s].vs, home, nil)])
  {
    HomesApart(views, homes, hall, nil, stats, s);
    ApartChange(homes, hall, s, home);
    var homes', stats' := homes[s := home], stats[s := StatsIn(views[s].vs, home, nil)];
    forall t | t in views
      ensures Home(views[t].vs, homes'[t], nil) && stats'[t] == StatsIn(views[t].vs, homes'[t], nil)
    {
      if t != s {
        HomeFrame(views[t].vs, homes[t], nil);
      }
    }
    MakeHoused(views, homes', hall + home, nil, stats');
  }

  lemma MakeHoused(views: map<string, ViewNode>, homes: map<string, set<object>>, hall: set<object>, nil: Node,
                   stats: map<string, Stats>)
    requires homes.Keys == views.Keys == stats.Keys && nil !in hall && Apart(homes)
    requires forall s :: s in views ==>
      && homes[s] <= hall && Home(views[s].vs, homes[s], nil) && stats[s] == StatsIn(views[s].vs, homes[s], nil)
    ensures Housed(views, homes, hall, nil, stats)
  {
  }

  lemma ApartChange(homes: map<string, set<object>>, hall: set<object>, s: string, home: set<object>)
    requires s in homes && Apart(homes) && homes[s] <= hall && home * hall <= homes[s]
    requires forall t :: t in homes && t != s ==> homes[t] <= hall - homes[s]
    ensures Apart(homes[s := home]) && forall t :: t in homes ==> homes[s := home][t] <= hall + home
  {
    forall t | t in homes && t != s ensures homes[t] !! home {
      assert homes[t] * home <= homes[t] * homes[s];
    }
  }

  /** What `Housed` says, with each home apart from that of `s`. */
  twostate lemma HomesApart(new views: map<string, ViewNode>, new homes: map<string, set<object>>,
                            new hall: set<object>,
                            new nil: Node, new stats: map<string, Stats>, new s: string)
    requires old(allocated(views) && allocated(homes) && allocated(hall) && allocated(nil))
    requires old(Housed(views, homes, hall, nil, stats)) && s in views
    ensures Apart(homes) && homes[s] <= hall
    ensures forall t :: t in views && t != s ==> homes[t] <= hall - homes[s]
    ensures forall t :: t in views ==>
      old(Home(views[t].vs, homes[t], nil)) && stats[t] == old(StatsIn(views[t].vs, homes[t], nil))
  {
    assert Ask(OfHomes, 0);
    forall t | t in views && t != s ensures homes[t] <= hall - homes[s] {
      assert homes[t] !! homes[s];
    }
  }

  /** Nodes, cells and hall after some steps: what was there before, and `news`. */
  ghost predicate Spread(nodes: set<Node>, cells: seq<Cell>, hall: set<object>, news: set<object>,
                         nodes': set<Node>, cells': seq<Cell>, hall': set<object>)
  {
    forall u :: Ask(OfRange, u) ==>
      && nodes' <= nodes + news && hall' <= hall + news
      && forall k :: 0 <= k < |cells'| ==> cells'[k] in cells || cells'[k] in news
  }

  lemma SpreadOpen(nodes: set<Node>, cells: seq<Cell>, hall: set<object>, news: set<object>,
                   nodes': set<Node>, cells': seq<Cell>, hall': set<object>)
    requires Spread(nodes, cells, hall, news, nodes', cells', hall')
    ensures nodes' <= nodes + news && hall' <= hall + news
    ensures forall k :: 0 <= k < |cells'| ==> cells'[k] in cells || cells'[k] in news
  {
    assert Ask(OfRange, 0);
  }

  lemma SpreadNew(nodes: set<Node>, cells: seq<Cell>, hall: set<object>, n: Node, cell: Cell, home: set<object>)
    ensures Spread(nodes, cells, hall, home + {n, cell}, nodes + {n}, [cell] + cells, hall + home)
  {
  }

  lemma SpreadLess(nodes: set<Node>, cells: seq<Cell>, hall: set<object>, news: set<object>,
                   nodes': set<Node>, cells': seq<Cell>, hall': set<object>)
    requires nodes' <= nodes && cells' <= cells && hall' <= hall + news
    ensures Spread(nodes, cells, hall, news, nodes', cells', hall')
  {
  }

  lemma SpreadOn(nodes: set<Node>, cells: seq<Cell>, hall: set<object>, news: set<object>,
                 nodes': set<Node>, cells': seq<Cell>, hall': set<object>, news': set<object>,
                 nodes'': set<Node>, cells'': seq<Cell>, hall'': set<object>)
    requires Spread(nodes, cells, hall, news, nodes', cells', hall')
    requires Spread(nodes', cells', hall', news', nodes'', cells'', hall'')
    ensures Spread(nodes, cells, hall, news + news', nodes'', cells'', hall'')
  {
    assert Ask(OfRange, 0);
    forall k | 0 <= k < |cells''| ensures cells''[k] in cells || cells''[k] in news + news' {
      if cells''[k] in cells' {
        var j :| 0 <= j < |cells'| && cells'[j] == cells''[k];
      }
    }
  }

  class ViewTree {
    const rbtree: RBTree
    const lrulist: LruList
    var count: nat
    ghost var views: map<string, ViewNode>
    /** The names of the views, the one used last first. */
    ghost var order: seq<string>
    ghost var stats: map<string, Stats>
    ghost var homes: map<string, set<object>>
    /** What the views are made of. */
    ghost var hall: set<object>

    /** Nothing of the tree itself belongs to a view. */
    ghost predicate Owned()
      reads this, rbtree`mem, lrulist`cells
    {
      && {this, rbtree, lrulist} !! hall && rbtree.mem.Keys !! hall && views.Values !! hall
      && rbtree.nil !in rbtree.mem.Keys
      && forall k :: 0 <= k < |lrulist.cells| ==> lrulist.cells[k] !in hall
    }

    ghost predicate Valid()
      reads this, rbtree, rbtree.nil, rbtree.mem.Keys, lrulist, lrulist.cells, views.Values`ptr, hall
    {
      && Owned() && count == |order|
      && Tied(rbtree, lrulist, views, order)
      && Placed(views, order, lrulist.cells)
      && Housed(views, homes, hall, rbtree.nil, stats)
    }

    /** `o` is not among the objects this tree changes. */
    ghost predicate Spares(o: object)
      reads this, rbtree`mem, lrulist`cells
    {
      && o !in {this, rbtree, lrulist} && o !in rbtree.mem.Keys && o !in hall
      && forall k :: 0 <= k < |lrulist.cells| ==> lrulist.cells[k] != o
    }

    ghost function Now(): Views
      reads this
    {
      Views(stats, order)
    }

    constructor (nil: Node)
      requires nil.color == Black && nil.parent == nil.left == nil.right == nil
      ensures Valid() && rbtree.nil == nil && hall == {}
      ensures fresh(rbtree) && fresh(lrulist) && rbtree.mem.Keys == {} && lrulist.cells == []
      ensures Now() == Views(map[], [])
    {
      rbtree := new RBTree(nil);
      lrulist := new LruList();
      count, views, order, stats, homes, hall := 0, map[], [], map[], map[], {};
      new;
      assert rbtree.mem.Keys == {};
      TiedFromNew(rbtree, lrulist);
    }

    method Find(name: string) returns (node: ViewNode?)
      requires Valid()
      ensures Valid() && node == if name in views then views[name] else null
      ensures node != null ==> node.name == name
    {
      label before:
      var value: object? := NameIndex.Find(rbtree, lrulist, name, views, order);
      ValidFrame@before();
      node := value as ViewNode?;
      if node != null {
        PlacedName(views, order, lrulist.cells, name);
      }
    }

    /** The reply with the names, or the addresses, that were counted most in a view, if there is the view. */
    method TopN(name: string, which: Kind, topn: nat)
      returns (found: bool, shown: seq<string>, counts: seq<nat>, ghost trace: seq<Snapshot>)
      requires Valid() && (name in stats ==> stats[name].HasAll(which))
      ensures Valid() && found == (name in stats)
      ensures found ==> Replied(stats[name].Log(which), trace, topn, shown, counts)
    {
      var node := Find(name);
      found, shown, counts, trace := node != null, [], [], [];
      if found {
        HomeOf(name);
        label before:
        shown, counts, trace := AnswerHome(node.vs, homes[name], rbtree.nil, which, topn);
        ValidFrame@before();
      }
    }

    /** A view met again goes to the head of the list. */
    method Again(node: ViewNode)
      requires Valid() && node.name in views && views[node.name] == node
      modifies `order, lrulist, lrulist.cells
      ensures forall k :: 0 <= k < |lrulist.cells| ==> lrulist.cells[k] in old(lrulist.cells)
      ensures Valid() && order == [node.name] + Removed(old(order), node.name)
    {
      ghost var at := TwinPlace(rbtree.mem.Keys, lrulist.cells, views, order, node.name);
      PlacedCell(views, order, lrulist.cells, at);
      PlacedTouch(views, order, lrulist.cells, at);
      TwinOrder(rbtree.mem.Keys, lrulist.cells, views, order, at);
      Move(node.ptr, at);
    }

    /** The cell at `at` becomes the head. */
    method Move(cell: Cell, ghost at: nat)
      requires Valid() && at < |order| && lrulist.cells[at] == cell
      requires Placed(views, [order[at]] + Without(order, at), [cell] + Without(lrulist.cells, at))
      modifies `order, lrulist, lrulist.cells
      ensures Valid() && order == [old(order)[at]] + Without(old(order), at)
      ensures forall k :: 0 <= k < |lrulist.cells| ==> lrulist.cells[k] in old(lrulist.cells)
    {
      label before:
      ghost var was := order;
      order := [order[at]] + Without(order, at);
      Touch(rbtree, lrulist, cell, at, views, was);
      HousedFrame@before(views, homes, hall, rbtree.nil, stats);
    }

    /** The node enters the tree and the head of the list, and hears of its cell. */
    method Link(node: ViewNode, ghost was: map<string, ViewNode>, ghost names: seq<string>)
      returns (cell: Cell, ghost n: Node)
      requires Tied(rbtree, lrulist, was, names) && Placed(was, names, lrulist.cells)
      requires node.name !in was && node !in was.Values
      modifies rbtree, rbtree.mem.Keys, lrulist, lrulist.cells, node`ptr
      ensures Tied(rbtree, lrulist, was[node.name := node], [node.name] + names)
      ensures Placed(was[node.name := node], [node.name] + names, lrulist.cells)
      ensures fresh(n) && rbtree.mem.Keys == old(rbtree.mem.Keys) + {n}
      ensures fresh(cell) && lrulist.cells == [cell] + old(lrulist.cells)
    {
      cell, n := Enroll(rbtree, lrulist, node.name, node, was, names);
      node.ptr := cell;
      PlacedAdd(was, names, old(lrulist.cells), node);
    }

    method Enter(node: ViewNode, ghost was: map<string, ViewNode>, ghost names: seq<string>)
      returns (ghost n: Node, ghost cell: Cell)
      requires Tied(rbtree, lrulist, was, names) && Placed(was, names, lrulist.cells)
      requires node.name !in was && node !in was.Values && Housed(views, homes, hall, rbtree.nil, stats)
      requires Owned() && node !in hall
      modifies rbtree, rbtree.mem.Keys, lrulist, lrulist.cells, node`ptr
      ensures Tied(rbtree, lrulist, was[node.name := node], [node.name] + names)
      ensures Placed(was[node.name := node], [node.name] + names, lrulist.cells)
      ensures Housed(views, homes, hall, rbtree.nil, stats)
      ensures Owned() && fresh(n) && rbtree.mem.Keys == old(rbtree.mem.Keys) + {n}
      ensures fresh(cell) && lrulist.cells == [cell] + old(lrulist.cells)
    {
      var c;
      label before:
      c, n := Link(node, was, names);
      cell := c;
      HousedFrame@before(views, homes, hall, rbtree.nil, stats);
    }

    /** The node of a view not known so far is counted among the views. */
    method Adopt(node: ViewNode, ghost home: set<object>)
      requires Housed(views, homes, hall, rbtree.nil, stats) && node.name !in views && this !in hall
      requires Home(node.vs, home, rbtree.nil) && home !! hall && this !in home
      modifies `count, `views, `order, `stats, `homes, `hall
      ensures views == old(views)[node.name := node] && count == old(count) + 1 && order == [node.name] + old(order)
      ensures hall == old(hall) + home && homes == old(homes)[node.name := home]
      ensures stats == old(stats)[node.name := old(StatsIn(node.vs, home, rbtree.nil))]
      ensures Housed(views, homes, hall, rbtree.nil, stats)
    {
      HousedAdd(views, homes, hall, rbtree.nil, stats, node, home);
      ghost var s := stats[node.name := StatsIn(node.vs, home, rbtree.nil)];
      ghost var v, h, all := views[node.name := node], homes[node.name := home], hall + home;
      label added:
      count, order := count + 1, [node.name] + order;
      views, homes, hall, stats := v, h, all, s;
      HousedFrame@added(v, h, all, rbtree.nil, s);
    }

    /** A node for a view not known so far, not yet in the tree. */
    method Register(name: string, vs: ViewStats, ghost home: set<object>) returns (node: ViewNode)
      requires Housed(views, homes, hall, rbtree.nil, stats) && name !in views && this !in hall
      requires Home(vs, home, rbtree.nil) && home !! hall && this !in home
      modifies `count, `views, `order, `stats, `homes, `hall
      ensures fresh(node) && node.name == name && node.vs == vs
      ensures views == old(views)[name := node] && count == old(count) + 1 && order == [name] + old(order)
      ensures hall == old(hall) + home && homes == old(homes)[name := home]
      ensures stats == old(stats)[name := old(StatsIn(vs, home, rbtree.nil))]
      ensures Housed(views, homes, hall, rbtree.nil, stats)
    {
      label before:
      node := new ViewNode(name, vs);
      HousedFrame@before(views, homes, hall, rbtree.nil, stats);
      HomeFrame@before(vs, home, rbtree.nil);
      Adopt(node, home);
    }

    /** A view not known so far. */
    method Insert(name: string, vs: ViewStats, ghost home: set<object>)
      returns (node: ViewNode, ghost n: Node, ghost cell: Cell)
      requires Valid() && name !in views && Home(vs, home, rbtree.nil) && home !! hall
      requires home !! {this, rbtree, lrulist} && home !! rbtree.mem.Keys && home !! views.Values
      requires forall k :: 0 <= k < |lrulist.cells| ==> lrulist.cells[k] !in home
      modifies this, rbtree, rbtree.mem.Keys, lrulist, lrulist.cells
      ensures Valid() && hall == old(hall) + home
      ensures fresh(node) && node.name == name && node.vs == vs && views == old(views)[name := node]
      ensures order == [name] + old(order) && stats == old(stats)[name := old(StatsIn(vs, home, rbtree.nil))]
      ensures homes == old(homes)[name := home]
      ensures fresh(n) && rbtree.mem.Keys == old(rbtree.mem.Keys) + {n}
      ensures fresh(cell) && lrulist.cells == [cell] + old(lrulist.cells)
    {
      ghost var was, names := views, order;
      label before:
      node := Register(name, vs, home);
      TiedFrame@before(rbtree, lrulist, was, names);
      PlacedFrame@before(was, names, lrulist.cells);
      n, cell := Enter(node, was, names);
    }

    twostate lemma ValidFrame()
      requires old(Valid()) && unchanged(this) && unchanged(rbtree) && unchanged(rbtree.nil)
      requires unchanged(rbtree.mem.Keys)
      requires unchanged(lrulist) && unchanged(lrulist.cells) && unchanged(views.Values) && unchanged(hall)
      ensures Valid()
    {
    }

    lemma HomeOf(s: string)
      requires Valid() && s in views
      ensures s in homes && s in stats && homes[s] <= hall
      ensures Home(views[s].vs, homes[s], rbtree.nil) && stats[s] == StatsIn(views[s].vs, homes[s], rbtree.nil)
    {
      assert Ask(OfHomes, 0);
    }

    /** What the view at a node of the tree takes. */
    function NodeSize(node: Node, ghost k: nat): (size: nat)
      requires Valid() && k < |rbtree.nodes| && rbtree.nodes[k] == node
      reads this, rbtree, rbtree.nil, rbtree.mem.Keys, lrulist, lrulist.cells, views.Values`ptr, hall
      ensures node.key in stats && size == stats[node.key].Size() + STATS_NODE_MAX_SIZE
    {
      WalkMeans(rbtree, lrulist, views, order);
      HomeOf(node.key);
      assert Ask(OfHome, 0);
      var value: object? := node.value;
      (value as ViewNode?).vs.GetSize() + STATS_NODE_MAX_SIZE
    }

    /** The sum over the views, in the order of their names, and over the cells. */
    method GetSize() returns (size: nat)
      requires Valid()
      ensures Valid() && Now().Listed() && size == Now().Size()
    {
      ghost var nodes, k: nat := rbtree.nodes, 0;
      label start:
      var node := FirstNode(rbtree, lrulist, views, order);
      ValidFrame@start();
      var total: nat := 0;
      SumStart(stats, nodes);
      while node != rbtree.nil
        invariant Valid() && rbtree.nodes == nodes && SummedTo(stats, nodes, k, total)
        invariant node == if k < |nodes| then nodes[k] else rbtree.nil
        decreases |nodes| - k
      {
        WalkMeans(rbtree, lrulist, views, order);
        SumNext(stats, nodes, k, total);
        total := total + NodeSize(node, k);
        label next:
        node := NextNode(rbtree, lrulist, views, order, node, k);
        ValidFrame@next();
        k := k + 1;
      }
      NoSentinel();
      WalkMeans(rbtree, lrulist, views, order);
      SumEnd(Now(), nodes, total);
      ListLength();
      size := total + VIEW_TREE_SIZE + CELL_SIZE * lrulist.count;
    }

    lemma NoSentinel()
      requires Valid()
      ensures forall k :: 0 <= k < |rbtree.nodes| ==> rbtree.nodes[k] != rbtree.nil
    {
      assert Ask(OfIndex, 0);
      rbtree.NodesOf();
      forall k | 0 <= k < |rbtree.nodes| ensures rbtree.nodes[k] in rbtree.mem {
        assert rbtree.nodes[k] in (set n | n in rbtree.nodes);
      }
    }

    lemma ListLength()
      requires Valid()
      ensures lrulist.count == |order|
    {
    }

    /** The view used least recently leaves the list and the tree, and its counters with it. */
    method DropLast()
      requires Valid() && order != []
      modifies this, rbtree, rbtree.mem.Keys, lrulist, lrulist.cells
      ensures Valid() && Now() == old(Now()).DropLast()
      ensures views == old(views) - {old(order)[|old(order)| - 1]} && hall == old(hall)
      ensures rbtree.mem.Keys <= old(rbtree.mem.Keys) && lrulist.cells <= old(lrulist.cells)
    {
      LastPlaced();
      ghost var n := |order| - 1;
      label before:
      var value: object?;
      ghost var gone;
      value, gone := DropTail(rbtree, lrulist, views, order);
      HousedFrame@before(views, homes, hall, rbtree.nil, stats);
      var node := value as ViewNode?;
      Delete(node.name, gone);
    }

    lemma LastPlaced()
      requires Valid() && order != []
      ensures var n := |order| - 1;
        && order[n] in views && views[order[n]].name == order[n]
        && Placed(views - {order[n]}, order[..n], lrulist.cells[..n])
    {
      var n := |order| - 1;
      TwinLast(rbtree.mem.Keys, lrulist.cells, views, order);
      TwinOrder(rbtree.mem.Keys, lrulist.cells, views, order, n);
      PlacedName(views, order, lrulist.cells, order[n]);
      PlacedDrop(views, order, lrulist.cells, n);
      assert Without(order, n) == order[..n] && Without(lrulist.cells, n) == lrulist.cells[..n];
    }

    /** The view that has left the list is no longer counted. */
    method Forget(name: string, ghost gone: Cell)
      requires Owned() && Overgrown(rbtree, lrulist, views, order, gone) && count == |order|
      requires order[|order| - 1] == name && name in views && Housed(views, homes, hall, rbtree.nil, stats)
      requires Placed(views - {name}, order[..|order| - 1], lrulist.cells)
      modifies `count, `views, `order, `stats, `homes
      ensures Owned() && Overgrown(rbtree, lrulist, old(views), old(order), gone) && count == |order|
      ensures Placed(views, order, lrulist.cells) && Housed(views, homes, hall, rbtree.nil, stats)
      ensures views == old(views) - {name} && stats == old(stats) - {name} && order == old(order)[..|old(order)| - 1]
    {
      HousedDrop(views, homes, hall, rbtree.nil, stats, name);
      ghost var v, h, s, names := views - {name}, homes - {name}, stats - {name}, order[..|order| - 1];
      label before:
      count := count - 1;
      views, homes, stats, order := v, h, s, names;
      HousedFrame@before(v, h, hall, rbtree.nil, s);
      PlacedFrame@before(v, names, lrulist.cells);
      OvergrownFrame@before(rbtree, lrulist, old(views), old(order), gone);
    }

    /** The node of a view that has left the list follows it. */
    method Delete(name: string, ghost gone: Cell)
      requires Owned() && Overgrown(rbtree, lrulist, views, order, gone) && count == |order|
      requires order[|order| - 1] == name && name in views && Housed(views, homes, hall, rbtree.nil, stats)
      requires Placed(views - {name}, order[..|order| - 1], lrulist.cells)
      modifies this, rbtree, rbtree.mem.Keys
      ensures Valid() && Now() == old(Now()).DropLast() && views == old(views) - {name} && hall == old(hall)
      ensures rbtree.mem.Keys <= old(rbtree.mem.Keys)
    {
      ghost var was, names := views, order;
      Forget(name, gone);
      label before:
      var value := Uproot(rbtree, lrulist, name, was, names, gone);
      HousedFrame@before(views, homes, hall, rbtree.nil, stats);
      PlacedFrame@before(views, order, lrulist.cells);
    }

    /** After the view `s`, and nothing else, has changed, and lives in `home` now. */
    ghost predicate Changed(s: string, home: set<object>)
      reads this, rbtree, rbtree.nil, rbtree.mem.Keys, lrulist, lrulist.cells, views.Values`ptr, hall, home
    {
      && s in views && s in homes && Owned() && count == |order|
      && Tied(rbtree, lrulist, views, order)
      && Placed(views, order, lrulist.cells)
      && Home(views[s].vs, home, rbtree.nil)
      && Housed(views, homes[s := home], hall + home, rbtree.nil, stats[s := StatsIn(views[s].vs, home, rbtree.nil)])
      && {this, rbtree, lrulist} !! home && rbtree.mem.Keys !! home && views.Values !! home
      && forall k :: 0 <= k < |lrulist.cells| ==> lrulist.cells[k] !in home
    }

    /** The new home is entered in the books. */
    ghost method Rehome(s: string, home: set<object>)
      requires Changed(s, home)
      modifies `homes, `hall, `stats
      ensures Valid() && stats == old(stats)[s := old(StatsIn(views[s].vs, home, rbtree.nil))]
      ensures hall == old(hall) + home
    {
      ghost var h, all, t := homes[s := home], hall + home, stats[s := StatsIn(views[s].vs, home, rbtree.nil)];
      label before:
      homes, hall, stats := h, all, t;
      HousedFrame@before(views, h, all, rbtree.nil, t);
      TiedFrame@before(rbtree, lrulist, views, order);
      PlacedFrame@before(views, order, lrulist.cells);
    }

    twostate lemma BeChanged(new s: string, new home: set<object>)
      requires old(Valid()) && s in views && s in homes && unchanged(this) && unchanged(rbtree.nil)
      requires forall o :: o in hall - homes[s] ==> unchanged(o)
      requires unchanged(rbtree) && unchanged(rbtree.mem.Keys) && unchanged(lrulist) && unchanged(lrulist.cells)
      requires unchanged(views.Values)
      requires Home(views[s].vs, home, rbtree.nil)
      requires forall o :: o in home ==> o in homes[s] || !old(allocated(o))
      ensures Changed(s, home)
    {
      HomesApart(views, homes, hall, rbtree.nil, stats, s);
      HousedChange(views, homes, hall, rbtree.nil, stats, s, home);
      TiedFrame(rbtree, lrulist, views, order);
      PlacedFrame(views, order, lrulist.cells);
    }

    lemma NowIsFair()
      requires Valid()
      ensures Now().Fair() && Now().Listed()
    {
      TwinFair(rbtree.mem.Keys, lrulist.cells, views, order);
      FairIsListed(Now());
    }

    /** The view gives up names and addresses, the oldest first, until it fits. */
    method Shrink(node: ViewNode, limit: nat)
      requires Valid() && node.name in views && views[node.name] == node && node.name in homes
      modifies `homes, `hall, `stats, homes[node.name]
      ensures Valid() && stats == old(stats)[node.name := old(stats)[node.name].Trim(limit)] && hall == old(hall)
    {
      HomeOf(node.name);
      label before:
      ghost var home := ShrinkHome(node.vs, homes[node.name], rbtree.nil, limit);
      BeChanged@before(node.name, home);
      Rehome(node.name, home);
    }

    /** The query is counted in the view. */
    method Count(node: ViewNode, q: Query) returns (ghost news: set<object>)
      requires Valid() && node.name in views && views[node.name] == node && node.name in homes && Loggable(q)
      modifies `homes, `hall, `stats, homes[node.name]
      ensures Valid() && stats == old(stats)[node.name := CountAll(old(stats)[node.name], q)]
      ensures fresh(news) && hall <= old(hall) + news
    {
      HomeOf(node.name);
      ghost var was := homes[node.name];
      label before:
      ghost var home := CountHome(node.vs, was, rbtree.nil, q);
      news := home - was;
      BeChanged@before(node.name, home);
      Rehome(node.name, home);
    }

    lemma ViewAt(k: nat)
      requires Valid() && k < |rbtree.nodes|
      ensures var key, value := rbtree.nodes[k].key, rbtree.nodes[k].value;
        && key in views && value == views[key] && views[key].name == key && key in order
        && |rbtree.nodes| == |order|
    {
      WalkMeans(rbtree, lrulist, views, order);
      PlacedName(views, order, lrulist.cells, rbtree.nodes[k].key);
    }

    /** The view that a walk over the tree meets last. */
    method TheOnlyOne() returns (node: ViewNode?)
      requires Valid()
      ensures Valid()
      ensures |order| == 1 ==>
        && node != null && node.name in views && views[node.name] == node && order == [node.name]
    {
      ghost var nodes, k: nat := rbtree.nodes, 0;
      label start:
      var n := FirstNode(rbtree, lrulist, views, order);
      ValidFrame@start();
      node := null;
      while n != rbtree.nil
        invariant Valid() && rbtree.nodes == nodes && k <= |nodes|
        invariant n == if k < |nodes| then nodes[k] else rbtree.nil
        invariant k > 0 ==>
          node != null && node.name in views && views[node.name] == node && node.name == nodes[k - 1].key
        decreases |nodes| - k
      {
        ViewAt(k);
        var value: object? := n.value;
        node := value as ViewNode?;
        label next:
        n := NextNode(rbtree, lrulist, views, order, n, k);
        ValidFrame@next();
        k := k + 1;
      }
      NoSentinel();
      WalkMeans(rbtree, lrulist, views, order);
    }

    /** Views go until the rest fits or one is left, and then that one shrinks. */
    method SetMemsize(limit: nat)
      requires Valid()
      modifies this, rbtree, rbtree.mem.Keys, lrulist, lrulist.cells, hall
      ensures Valid() && hall == old(hall) && rbtree.mem.Keys <= old(rbtree.mem.Keys)
      ensures lrulist.cells <= old(lrulist.cells) && old(Now()).Fair() && Now() == old(Now()).SetMemsize(limit)
      ensures forall s :: s in views ==> s in old(views) && views[s] == old(views)[s]
    {
      NowIsFair();
      Trim(limit, Now().Evict(limit));
      Squeeze(limit);
    }

    /** A view that is left alone shrinks. */
    method Squeeze(limit: nat)
      requires Valid()
      modifies `homes, `hall, `stats, hall
      ensures Valid() && hall == old(hall) && Now() == old(Now()).Squeeze(limit)
    {
      if count == 1 {
        var node := TheOnlyOne();
        HomeOf(node.name);
        Shrink(node, limit);
      }
    }

    method Trim(limit: nat, ghost goal: Views)
      requires Valid() && ToEvict(Now(), limit, goal)
      modifies this, rbtree, rbtree.mem.Keys, lrulist, lrulist.cells
      ensures Valid() && Now() == goal && hall == old(hall) && rbtree.mem.Keys <= old(rbtree.mem.Keys)
      ensures lrulist.cells <= old(lrulist.cells)
      ensures forall s :: s in views ==> s in old(views) && views[s] == old(views)[s]
    {
      var size := GetSize();
      while size > limit && count > 1
        invariant Valid() && ToEvict(Now(), limit, goal) && Now().Listed() && size == Now().Size()
        invariant hall == old(hall) && rbtree.mem.Keys <= old(rbtree.mem.Keys) && lrulist.cells <= old(lrulist.cells)
        invariant forall s :: s in views ==> s in old(views) && views[s] == old(views)[s]
        decreases count
      {
        size := TrimOnce(limit, goal);
      }
      EvictEnds(Now(), limit, goal);
    }

    method TrimOnce(limit: nat, ghost goal: Views) returns (size: nat)
      requires Valid() && ToEvict(Now(), limit, goal) && Now().Listed() && Now().Size() > limit && count > 1
      modifies this, rbtree, rbtree.mem.Keys, lrulist, lrulist.cells
      ensures Valid() && ToEvict(Now(), limit, goal) && Now().Listed() && size == Now().Size()
      ensures hall == old(hall) && rbtree.mem.Keys <= old(rbtree.mem.Keys) && lrulist.cells <= old(lrulist.cells)
      ensures count < old(count) && forall s :: s in views ==> s in old(views) && views[s] == old(views)[s]
    {
      EvictGoes(Now(), limit, goal);
      DropLast();
      size := GetSize();
    }

    /** A view of this name, with new counters. */
    method NewView(name: string) returns (node: ViewNode, ghost news: set<object>)
      requires Valid() && name !in views && |name| < MAX_VIEW_LENGTH
      modifies this, rbtree, rbtree.mem.Keys, lrulist, lrulist.cells
      ensures Valid() && fresh(news)
      ensures Spread(old(rbtree.mem.Keys), old(lrulist.cells), old(hall), news, rbtree.mem.Keys, lrulist.cells, hall)
      ensures name in views && views[name] == node && node.name == name && views == old(views)[name := node]
      ensures Now() == old(Now()).Meet(name)
    {
      var vs;
      ghost var home, n, cell;
      vs, home := NewHome(name);
      node, n, cell := Insert(name, vs, home);
      news := home + {n, cell};
      SpreadNew(old(rbtree.mem.Keys), old(lrulist.cells), old(hall), n, cell, home);
    }

    /** New counters, and their home apart from everything else. */
    method NewHome(name: string) returns (vs: ViewStats, ghost home: set<object>)
      requires Valid() && |name| < MAX_VIEW_LENGTH
      ensures Valid() && fresh(home) && Home(vs, home, rbtree.nil) && StatsIn(vs, home, rbtree.nil) == NewStats()
      ensures home !! hall && home !! {this, rbtree, lrulist} && home !! rbtree.mem.Keys && home !! views.Values
      ensures forall k :: 0 <= k < |lrulist.cells| ==> lrulist.cells[k] !in home
    {
      SentinelIsBlack();
      label before:
      vs := new ViewStats(name, rbtree.nil);
      home := vs.Footprint();
      ValidFrame@before();
    }

    lemma SentinelIsBlack()
      requires Valid()
      ensures var nil := rbtree.nil; nil.color == Black && nil.parent == nil.left == nil.right == nil
    {
      assert Ask(OfIndex, 0);
    }

    /** The view comes to the head of the list, as a new one if need be. */
    method Meet(view: string) returns (node: ViewNode?, ghost news: set<object>)
      requires Valid() && |view| != MAX_VIEW_LENGTH
      modifies this, rbtree, rbtree.mem.Keys, lrulist, lrulist.cells
      ensures Valid() && fresh(news)
      ensures Spread(old(rbtree.mem.Keys), old(lrulist.cells), old(hall), news, rbtree.mem.Keys, lrulist.cells, hall)
      ensures node == null <==> view !in old(stats) && |view| > MAX_VIEW_LENGTH
      ensures node == null ==> Now() == old(Now())
      ensures node != null ==>
        && node.name == view && view in views && views[view] == node && Now() == old(Now()).Meet(view)
    {
      node := Find(view);
      news := {};
      if node != null {
        Again(node);
      } else if |view| <= MAX_VIEW_LENGTH {
        node, news := NewView(view);
      }
    }

    /** A trim, if there is need. */
    method MakeRoom(limit: nat)
      requires Valid() && order != []
      modifies this, rbtree, rbtree.mem.Keys, lrulist, lrulist.cells, hall
      ensures Valid() && hall == old(hall) && rbtree.mem.Keys <= old(rbtree.mem.Keys)
      ensures lrulist.cells <= old(lrulist.cells)
      ensures old(Now()).Fair() && Now() == old(Now()).MakeRoom(limit)
      ensures forall s :: s in views ==> s in old(views) && views[s] == old(views)[s]
    {
      NowIsFair();
      var size := GetSize();
      if limit < size {
        SetMemsize(limit);
      }
    }

    /** Trims if there is need, and then counts the query in the view, which is still there. */
    method CountWithin(node: ViewNode, q: Query, limit: nat) returns (ghost news: set<object>)
      requires Valid() && order != [] && order[0] == q.view == node.name && Loggable(q)
      requires node.name in views && views[node.name] == node
      modifies this, rbtree, rbtree.mem.Keys, lrulist, lrulist.cells, hall
      ensures Valid() && fresh(news)
      ensures Spread(old(rbtree.mem.Keys), old(lrulist.cells), old(hall), news, rbtree.mem.Keys, lrulist.cells, hall)
      ensures old(Now()).Fair()
      ensures var room := old(Now()).MakeRoom(limit);
        && q.view in room.stats && order == room.order
        && stats == room.stats[q.view := CountAll(room.stats[q.view], q)]
    {
      NowIsFair();
      RoomKeepsHead(Now(), limit);
      MakeRoom(limit);
      HomeOf(q.view);
      news := Count(node, q);
      SpreadLess(old(rbtree.mem.Keys), old(lrulist.cells), old(hall), news, rbtree.mem.Keys, lrulist.cells, hall);
    }

    /** The query is counted in the view at the head of the list. */
    method LogMet(node: ViewNode, q: Query, limit: nat, ghost v: Views) returns (ghost news: set<object>)
      requires Valid() && v.Fair() && Loggable(q) && Now() == v.Meet(q.view) && node.name == q.view
      requires q.view in v.stats || |q.view| <= MAX_VIEW_LENGTH
      requires node.name in views && views[node.name] == node
      modifies this, rbtree, rbtree.mem.Keys, lrulist, lrulist.cells, hall
      ensures Valid() && fresh(news) && Now() == v.Log(q, limit)
      ensures Spread(old(rbtree.mem.Keys), old(lrulist.cells), old(hall), news, rbtree.mem.Keys, lrulist.cells, hall)
    {
      NowIsFair();
      ghost var met := Now();
      news := CountWithin(node, q, limit);
      LogInSteps(v, q, limit, met, met.MakeRoom(limit), Now());
    }

    /** Counts the query in its view, after trimming if there is need. The view is never one
        that the trimming destroyed. */
    method Log(q: Query, limit: nat) returns (ghost news: set<object>)
      requires Valid() && Loggable(q) && |q.view| != MAX_VIEW_LENGTH
      modifies this, rbtree, rbtree.mem.Keys, lrulist, lrulist.cells, hall
      ensures Valid() && fresh(news)
      ensures Spread(old(rbtree.mem.Keys), old(lrulist.cells), old(hall), news, rbtree.mem.Keys, lrulist.cells, hall)
      ensures old(Now()).Fair() && Now() == old(Now()).Log(q, limit)
    {
      NowIsFair();
      var node;
      node, news := Meet(q.view);
      if node == null {
        return;
      }
      ghost var nodes, cells, all := rbtree.mem.Keys, lrulist.cells, hall;
      SpreadOpen(old(rbtree.mem.Keys), old(lrulist.cells), old(hall), news, nodes, cells, all);
      ghost var more := LogMet(node, q, limit, old(Now()));
      SpreadOn(old(rbtree.mem.Keys), old(lrulist.cells), old(hall), news, nodes, cells, all, more,
               rbtree.mem.Keys, lrulist.cells, hall);
      news := news + more;
    }
  }
}
