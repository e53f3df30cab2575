/** What ties the nodes of a red-black tree to the cells of an LRU list when both hold the
    same records: src/log_name_tree.c and src/log_view_tree.c keep such pairs. */
module NameIndex {
  import opened LruList
  import opened RedBlackTree
  import opened Sealing
  import opened Sequences

  /** The nodes and the cells hold exactly the records of `vals`, in the list in this order. */
  ghost predicate Twin(nodes: set<Node>, cells: seq<Cell>, vals: map<string, object>, order: seq<string>) {
    |cells| == |order| && forall u :: Ask(OfShape, u) ==> Paired(nodes, cells, vals, order)
  }

  ghost predicate Paired(nodes: set<Node>, cells: seq<Cell>, vals: map<string, object>, order: seq<string>)
    requires |cells| == |order|
  {
    && (forall n :: n in nodes ==> n.key in vals && n.value == vals[n.key])
    && vals.Keys == (set n | n in nodes :: n.key)
    && vals.Keys == (set s | s in order)
    && Distinct(order)
    && forall k :: 0 <= k < |cells| ==> cells[k].data == vals[order[k]]
  }

  lemma TwinAdd(nodes: set<Node>, cells: seq<Cell>, vals: map<string, object>, order: seq<string>, n: Node, c: Cell)
    requires Twin(nodes, cells, vals, order) && n.key !in vals && n.value == c.data
    ensures Twin(nodes + {n}, [c] + cells, vals[n.key := c.data], [n.key] + order)
  {
    assert Ask(OfShape, 0);
    var nodes', vals', order' := nodes + {n}, vals[n.key := c.data], [n.key] + order;
    forall s | s in vals'.Keys ensures s in (set m | m in nodes' :: m.key) {
      if s == n.key {
        assert n in nodes';
      } else {
        var m :| m in nodes && m.key == s;
        assert m in nodes';
      }
    }
    assert forall s :: s in order' <==> s == n.key || s in order;
  }

  lemma TwinTouch(nodes: set<Node>, cells: seq<Cell>, vals: map<string, object>, order: seq<string>, at: nat)
    requires Twin(nodes, cells, vals, order) && at < |order|
    ensures Twin(nodes, [cells[at]] + Without(cells, at), vals, [order[at]] + Without(order, at))
  {
    assert Ask(OfShape, 0);
    DistinctWithout(order, at);
    assert Distinct([order[at]] + Without(order, at));
    assert (set s | s in [order[at]] + Without(order, at)) == {order[at]} + set s | s in Without(order, at);
  }

  lemma TwinOrder(nodes: set<Node>, cells: seq<Cell>, vals: map<string, object>, order: seq<string>, at: nat)
    requires Twin(nodes, cells, vals, order) && at < |order|
    ensures Without(order, at) == Removed(order, order[at])
  {
    assert Ask(OfShape, 0);
    RemovedWithout(order, at);
  }

  lemma TwinDrop(nodes: set<Node>, cells: seq<Cell>, vals: map<string, object>, order: seq<string>, n: Node, at: nat)
    requires Twin(nodes, cells, vals, order) && n in nodes && at < |order| && order[at] == n.key
    requires forall m :: m in nodes && m != n ==> m.key != n.key
    ensures Twin(nodes - {n}, Without(cells, at), vals - {n.key}, Without(order, at))
  {
    assert Ask(OfShape, 0);
    var nodes', vals' := nodes - {n}, vals - {n.key};
    DistinctWithout(order, at);
    forall s | s in vals'.Keys ensures s in (set m | m in nodes' :: m.key) {
      var m :| m in nodes && m.key == s;
      assert m in nodes';
    }
  }

  /** A record found in the tree stands at one place in the list. */
  lemma TwinPlace(nodes: set<Node>, cells: seq<Cell>, vals: map<string, object>, order: seq<string>, key: string)
    returns (at: nat)
    requires Twin(nodes, cells, vals, order) && key in vals
    ensures at < |order| && order[at] == key && cells[at].data == vals[key]
  {
    assert Ask(OfShape, 0);
    assert key in (set s | s in order);
    at :| at < |order| && order[at] == key;
  }

  /** The tree finds exactly the keys of `vals`. */
  lemma TwinFinds(nodes: set<Node>, cells: seq<Cell>, vals: map<string, object>, order: seq<string>, key: string,
                  n: Node?)
    requires Twin(nodes, cells, vals, order)
    requires if n != null then n in nodes && n.key == key else forall m :: m in nodes ==> m.key != key
    ensures key in vals <==> n != null
    ensures n != null ==> n.value == vals[key]
  {
    assert Ask(OfShape, 0);
    assert key in vals <==> key in (set m | m in nodes :: m.key);
  }

  lemma TwinLacks(nodes: set<Node>, cells: seq<Cell>, vals: map<string, object>, order: seq<string>, key: string)
    requires Twin(nodes, cells, vals, order) && key !in vals
    ensures forall m :: m in nodes ==> m.key != key
  {
    assert Ask(OfShape, 0);
  }

  lemma TwinUnlisted(nodes: set<Node>, cells: seq<Cell>, vals: map<string, object>, order: seq<string>, key: string)
    requires Twin(nodes, cells, vals, order) && key !in vals
    ensures key !in order
  {
    assert Ask(OfShape, 0);
    assert key in order ==> key in (set s | s in order);
  }

  /** No name is listed twice, and the listed names are those of the records. */
  lemma TwinFair(nodes: set<Node>, cells: seq<Cell>, vals: map<string, object>, order: seq<string>)
    requires Twin(nodes, cells, vals, order)
    ensures Distinct(order) && vals.Keys == set s | s in order
  {
    assert Ask(OfShape, 0);
  }

  lemma TwinSize(nodes: set<Node>, cells: seq<Cell>, vals: map<string, object>, order: seq<string>)
    requires Twin(nodes, cells, vals, order)
    ensures |vals| == |order|
  {
    assert Ask(OfShape, 0);
    DistinctCount(order);
    assert |vals| == |vals.Keys|;
  }

  /** Nobody has no place. */
  lemma TwinEmpty()
    ensures Twin({}, [], map[], [])
  {
  }

  // ---------- the tree and the list themselves ----------

  ghost predicate Sound(tree: RBTree, lru: LruList)
    reads tree, tree.nil, tree.mem.Keys, lru, lru.cells
  {
    tree.Valid() && lru.Valid()
  }

  /** Tree and list are in order and hold the records of `vals`. */
  ghost predicate Tied(tree: RBTree, lru: LruList, vals: map<string, object>, order: seq<string>)
    reads tree, tree.nil, tree.mem.Keys, lru, lru.cells
  {
    && tree.count == lru.count == |order|
    && (forall u :: Ask(OfIndex, u) ==> Sound(tree, lru))
    && Twin(tree.mem.Keys, lru.cells, vals, order)
  }

  twostate lemma TiedFrame(new tree: RBTree, new lru: LruList, new vals: map<string, object>, new order: seq<string>)
    requires old(allocated(tree) && allocated(lru) && allocated(vals))
    requires old(Tied(tree, lru, vals, order))
    requires unchanged(tree) && unchanged(tree.nil) && unchanged(tree.mem.Keys) && unchanged(lru)
    requires unchanged(lru.cells)
    ensures Tied(tree, lru, vals, order)
  {
  }

  lemma TiedFromNew(tree: RBTree, lru: LruList)
    requires tree.Valid() && lru.Valid() && tree.mem == map[] && lru.cells == []
    ensures Tied(tree, lru, map[], [])
  {
    tree.NodesOf();
    TwinEmpty();
  }

  /** The record named `key`, if there is one. */
  method Find(tree: RBTree, ghost lru: LruList, key: string, ghost vals: map<string, object>, ghost order: seq<string>)
    returns (value: object?)
    requires Tied(tree, lru, vals, order)
    ensures value == if key in vals then vals[key] else null
  {
    assert Ask(OfIndex, 0);
    var node := tree.Search(key);
    TwinFinds(tree.mem.Keys, lru.cells, vals, order, key, node);
    value := if node == null then null else node.value;
  }

  /** A new record enters both, at the head of the list. */
  method Enroll(tree: RBTree, lru: LruList, key: string, value: object, ghost vals: map<string, object>,
                ghost order: seq<string>)
    returns (cell: Cell, ghost node: Node)
    requires Tied(tree, lru, vals, order) && key !in vals
    modifies tree, tree.mem.Keys, lru, lru.cells
    ensures Tied(tree, lru, vals[key := value], [key] + order)
    ensures fresh(node) && tree.mem.Keys == old(tree.mem.Keys) + {node}
    ensures fresh(cell) && lru.cells == [cell] + old(lru.cells)
  {
    assert Ask(OfIndex, 0);
    TwinLacks(tree.mem.Keys, lru.cells, vals, order, key);
    cell, node := EnrollBoth(tree, lru, key, value);
    TwinAdd(old(tree.mem.Keys), old(lru.cells), vals, order, node, cell);
  }

  method EnrollBoth(tree: RBTree, lru: LruList, key: string, value: object) returns (cell: Cell, ghost node: Node)
    requires tree.Valid() && lru.Valid() && forall n :: n in tree.mem.Keys ==> n.key != key
    modifies tree, tree.mem.Keys, lru, lru.cells
    ensures tree.Valid() && tree.count == old(tree.count) + 1
    ensures fresh(node) && node.key == key && node.value == value
    ensures tree.mem.Keys == old(tree.mem.Keys) + {node}
    ensures lru.Valid() && lru.count == old(lru.count) + 1
    ensures fresh(cell) && cell.data == value && lru.cells == [cell] + old(lru.cells)
  {
    var data := new Node(key, value, tree.nil);
    node := data;
    var inserted;
    ghost var at;
    inserted, at := tree.Insert(data);
    cell := lru.Insert(value);
  }

  /** A record met again goes to the head of the list. */
  method Touch(ghost tree: RBTree, lru: LruList, cell: Cell, ghost at: nat, ghost vals: map<string, object>,
               ghost order: seq<string>)
    requires Tied(tree, lru, vals, order) && at < |order| && lru.cells[at] == cell
    modifies lru, lru.cells
    ensures Tied(tree, lru, vals, [order[at]] + Without(order, at))
    ensures lru.cells == [cell] + Without(old(lru.cells), at)
  {
    assert Ask(OfIndex, 0);
    lru.MoveToFirst(cell, at);
    TwinTouch(tree.mem.Keys, old(lru.cells), vals, order, at);
  }

  /** The list has one cell too many, at `at`. */
  ghost predicate Overlisted(tree: RBTree, lru: LruList, vals: map<string, object>, order: seq<string>, at: nat)
    reads tree, tree.nil, tree.mem.Keys, lru, lru.cells
  {
    && at < |order| == lru.count && tree.count == |order| - 1 && |lru.cells| == |order|
    && (forall u :: Ask(OfIndex, u) ==> Sound(tree, lru))
    && Twin(tree.mem.Keys, Without(lru.cells, at), vals - {order[at]}, Without(order, at))
  }

  /** The record named `key` leaves the tree, if it is there; its cell stays behind. */
  method Expel(tree: RBTree, lru: LruList, key: string, ghost vals: map<string, object>, ghost order: seq<string>)
    returns (value: object?, ghost node: Node?, ghost at: nat)
    requires Tied(tree, lru, vals, order)
    modifies tree, tree.mem.Keys
    ensures key !in vals ==> value == null && Tied(tree, lru, vals, order) && tree.mem.Keys == old(tree.mem.Keys)
    ensures key in vals ==>
      && node != null && value == vals[key] && tree.mem.Keys == old(tree.mem.Keys) - {node}
      && at < |order| && order[at] == key && lru.cells[at].data == value && Without(order, at) == Removed(order, key)
      && Overlisted(tree, lru, vals, order, at)
    ensures unchanged(lru) && forall c :: c in lru.cells ==> unchanged(c)
  {
    assert Ask(OfIndex, 0);
    ghost var i;
    at := 0;
    var found;
    tree.KeysApart(key);
    found, i := tree.Delete(key);
    TwinFinds(old(tree.mem.Keys), lru.cells, vals, order, key, found);
    node := found;
    if found == null {
      return null, null, 0;
    }
    value := found.value;
    at := TwinPlace(old(tree.mem.Keys), lru.cells, vals, order, key);
    TwinOrder(old(tree.mem.Keys), lru.cells, vals, order, at);
    TwinDrop(old(tree.mem.Keys), lru.cells, vals, order, found, at);
  }

  /** The cell left behind leaves the list. */
  method Unlist(ghost tree: RBTree, lru: LruList, cell: Cell, ghost at: nat, ghost vals: map<string, object>,
                ghost order: seq<string>)
    requires Overlisted(tree, lru, vals, order, at) && lru.cells[at] == cell
    modifies lru, lru.cells
    ensures Tied(tree, lru, vals - {order[at]}, Without(order, at))
    ensures lru.cells == Without(old(lru.cells), at)
  {
    assert Ask(OfIndex, 0);
    lru.Delete(cell, at);
  }

  /** The tree has one node too many, that of the last cell `gone` from the list. */
  ghost predicate Overgrown(tree: RBTree, lru: LruList, vals: map<string, object>, order: seq<string>, gone: Cell)
    reads tree, tree.nil, tree.mem.Keys, lru, lru.cells
  {
    && |order| > 0 && lru.count == |order| - 1 && tree.count == |order| && |lru.cells| == |order| - 1
    && (forall u :: Ask(OfIndex, u) ==> Sound(tree, lru))
    && Twin(tree.mem.Keys, lru.cells + [gone], vals, order)
  }

  twostate lemma OvergrownFrame(new tree: RBTree, new lru: LruList, new vals: map<string, object>,
                                new order: seq<string>,
                                new gone: Cell)
    requires old(allocated(tree) && allocated(lru) && allocated(vals) && allocated(gone))
    requires old(Overgrown(tree, lru, vals, order, gone))
    requires unchanged(tree) && unchanged(tree.nil) && unchanged(tree.mem.Keys) && unchanged(lru)
    requires unchanged(lru.cells)
    ensures Overgrown(tree, lru, vals, order, gone)
  {
  }

  /** The least recently used record leaves the list; its node stays behind. */
  method DropTail(ghost tree: RBTree, lru: LruList, ghost vals: map<string, object>, ghost order: seq<string>)
    returns (value: object?, ghost gone: Cell?)
    requires Tied(tree, lru, vals, order)
    modifies lru, lru.cells
    ensures order == [] ==> value == null && Tied(tree, lru, vals, order) && lru.cells == old(lru.cells)
    ensures order != [] ==>
      && order[|order| - 1] in vals && value == vals[order[|order| - 1]]
      && lru.cells == old(lru.cells)[..|order| - 1]
      && gone != null && Overgrown(tree, lru, vals, order, gone)
  {
    assert Ask(OfIndex, 0);
    gone := null;
    TwinLast(tree.mem.Keys, lru.cells, vals, order);
    value := lru.RemoveTail();
    if order != [] {
      gone := old(lru.cells)[|order| - 1];
      assert lru.cells + [gone] == old(lru.cells);
    }
  }

  lemma TwinLast(nodes: set<Node>, cells: seq<Cell>, vals: map<string, object>, order: seq<string>)
    requires Twin(nodes, cells, vals, order)
    ensures order != [] ==> order[|order| - 1] in vals && cells[|order| - 1].data == vals[order[|order| - 1]]
  {
    assert Ask(OfShape, 0);
    assert order != [] ==> order[|order| - 1] in (set s | s in order);
  }

  /** The node left behind leaves the tree. */
  method Uproot(tree: RBTree, lru: LruList, key: string, ghost vals: map<string, object>, ghost order: seq<string>,
                ghost gone: Cell)
    returns (value: object?)
    requires Overgrown(tree, lru, vals, order, gone) && order[|order| - 1] == key
    modifies tree, tree.mem.Keys
    ensures key in vals && value == vals[key] && tree.mem.Keys <= old(tree.mem.Keys)
    ensures Tied(tree, lru, vals - {key}, order[..|order| - 1])
    ensures unchanged(lru) && forall c :: c in lru.cells ==> unchanged(c)
  {
    assert Ask(OfIndex, 0);
    ghost var i;
    var found;
    tree.KeysApart(key);
    TwinLast(tree.mem.Keys, lru.cells + [gone], vals, order);
    found, i := tree.Delete(key);
    TwinFinds(old(tree.mem.Keys), lru.cells + [gone], vals, order, key, found);
    value := found.value;
    TwinDrop(old(tree.mem.Keys), lru.cells + [gone], vals, order, found, |order| - 1);
    assert Without(lru.cells + [gone], |order| - 1) == lru.cells;
    assert Without(order, |order| - 1) == order[..|order| - 1];
  }

  // ---------- walking the tree ----------

  function KeysOf(nodes: seq<Node>): (r: seq<string>)
    ensures |r| == |nodes| && forall k :: 0 <= k < |nodes| ==> r[k] == nodes[k].key
  {
    if nodes == [] then [] else KeysOf(nodes[..|nodes| - 1]) + [nodes[|nodes| - 1].key]
  }

  /** The tree holds the listed names, each once, and each node its record. */
  lemma WalkMeans(tree: RBTree, lru: LruList, vals: map<string, object>, order: seq<string>)
    requires Tied(tree, lru, vals, order)
    ensures |tree.nodes| == |order| && Distinct(order) && Distinct(KeysOf(tree.nodes))
    ensures forall k :: 0 <= k < |order| ==> order[k] in KeysOf(tree.nodes) && order[k] in vals
    ensures forall k :: 0 <= k < |tree.nodes| ==>
      tree.nodes[k].key in order && tree.nodes[k].key in vals && tree.nodes[k].value == vals[tree.nodes[k].key]
  {
    assert Ask(OfIndex, 0);
    tree.NodesOf();
    forall i, j | 0 <= i < j < |tree.nodes| ensures KeysOf(tree.nodes)[i] != KeysOf(tree.nodes)[j] {
      tree.KeysDiffer(i, j);
    }
    WalkPairs(tree.nodes, tree.mem.Keys, lru.cells, vals, order);
  }

  lemma WalkPairs(nodes: seq<Node>, keys: set<Node>, cells: seq<Cell>, vals: map<string, object>, order: seq<string>)
    requires Twin(keys, cells, vals, order) && keys == set n | n in nodes
    ensures Distinct(order)
    ensures forall k :: 0 <= k < |order| ==> order[k] in KeysOf(nodes) && order[k] in vals
    ensures forall k :: 0 <= k < |nodes| ==>
      nodes[k].key in order && nodes[k].key in vals && nodes[k].value == vals[nodes[k].key]
  {
    assert Ask(OfShape, 0);
    forall k | 0 <= k < |order| ensures order[k] in KeysOf(nodes) && order[k] in vals {
      assert order[k] in (set s | s in order);
      assert order[k] in (set n | n in keys :: n.key);
      var n :| n in keys && n.key == order[k];
      var j :| 0 <= j < |nodes| && nodes[j] == n;
      assert KeysOf(nodes)[j] == order[k];
    }
    forall k | 0 <= k < |nodes|
      ensures nodes[k].key in order && nodes[k].key in vals && nodes[k].value == vals[nodes[k].key]
    {
      assert nodes[k] in keys;
      assert nodes[k].key in (set s | s in order);
    }
  }

  method FirstNode(tree: RBTree, ghost lru: LruList, ghost vals: map<string, object>, ghost order: seq<string>)
    returns (node: Node)
    requires Tied(tree, lru, vals, order)
    ensures node == if |tree.nodes| > 0 then tree.nodes[0] else tree.nil
  {
    assert Ask(OfIndex, 0);
    node := tree.First();
  }

  method NextNode(tree: RBTree, ghost lru: LruList, ghost vals: map<string, object>, ghost order: seq<string>,
                  node: Node, ghost at: nat)
    returns (next: Node)
    requires Tied(tree, lru, vals, order) && at < |tree.nodes| && tree.nodes[at] == node
    ensures next == if at + 1 < |tree.nodes| then tree.nodes[at + 1] else tree.nil
  {
    assert Ask(OfIndex, 0);
    next := tree.Next(node, at);
  }
}
