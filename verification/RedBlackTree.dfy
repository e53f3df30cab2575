/** The red-black tree of src/dig_rb_tree.c on the heap: node objects with parent links
    and a sentinel object that stands for every missing node. */
module RedBlackTree {
  import opened RedBlackAlgebra
  import opened RedBlackMemory
  import opened RedBlackFixup
  import opened RedBlackDelete
  import opened Names
  import opened Powers
  import opened Sealing

  class Node {
    var parent: Node
    var left: Node
    var right: Node
    var color: Color
    const key: string
    const value: object?

    /** The sentinel: its links point back at itself. */
    constructor Sentinel()
      ensures parent == left == right == this && color == Black
    {
      parent, left, right, color := this, this, this, Black;
    }

    constructor (key: string, value: object?, nil: Node)
      ensures this.key == key && this.value == value
    {
      this.key, this.value := key, value;
      parent, left, right, color := nil, nil, nil, Red;
    }
  }

  ghost predicate Sorted(s: seq<Node>) {
    forall i, j :: 0 <= i < j < |s| ==> Lt(s[i].key, s[j].key)
  }

  ghost predicate Lawful(t: Tree<Node>, s: seq<Node>) {
    && Good(t, s)
    && forall u :: Ask(OfShape, u) ==> Sorted(s)
  }

  ghost predicate AllBelow(s: seq<Node>, key: string) {
    forall i :: 0 <= i < |s| ==> Lt(s[i].key, key)
  }

  ghost predicate AllAbove(key: string, s: seq<Node>) {
    forall i :: 0 <= i < |s| ==> Lt(key, s[i].key)
  }

  lemma SortedParts(a: seq<Node>, l: seq<Node>, e: Node, r: seq<Node>, b: seq<Node>, key: string)
    requires Sorted(a + (l + [e] + r) + b)
    ensures AllBelow(a, key) && Lt(e.key, key) ==> AllBelow(a + l + [e], key)
    ensures AllAbove(key, b) && Lt(key, e.key) ==> AllAbove(key, [e] + r + b)
  {
    var s, n := a + (l + [e] + r) + b, |a| + |l|;
    assert s[n] == e;
    if Lt(e.key, key) {
      forall i | 0 <= i < |l| ensures Lt(l[i].key, key) {
        assert s[|a| + i] == l[i];
        LtTrans(l[i].key, e.key, key);
      }
    }
    if Lt(key, e.key) {
      forall i | 0 <= i < |r| ensures Lt(key, r[i].key) {
        assert s[n + 1 + i] == r[i];
        LtTrans(key, e.key, r[i].key);
      }
    }
  }

  lemma InsertedAt(s: seq<Node>, a: seq<Node>, d: Node, b: seq<Node>)
    requires s == a + [] + b
    ensures |a| <= |s| && s[..|a|] + [d] + s[|a|..] == a + [d] + b
  {
  }

  lemma AbsentKey(nodes: set<Node>, a: seq<Node>, b: seq<Node>, key: string)
    requires nodes == set n | n in a + [] + b
    requires AllBelow(a, key) && AllAbove(key, b)
    ensures forall n :: n in nodes ==> n.key != key
  {
    StrcmpZero(key, key);
  }

  lemma SortedInsert(a: seq<Node>, d: Node, b: seq<Node>)
    requires Sorted(a + b) && AllBelow(a, d.key) && AllAbove(d.key, b)
    ensures Sorted(a + [d] + b)
  {
    var s := a + b;
    assert forall i :: 0 <= i < |b| ==> b[i] == s[|a| + i];
    assert forall i :: 0 <= i < |a| ==> a[i] == s[i];
  }

  lemma AddLeafLawful(t: Tree<Node>, s: seq<Node>, c: Ctx<Node>, d: Node)
    requires Lawful(t, s) && t == Plug(c, Leaf) && AllBelow(Before(c), d.key) && AllAbove(d.key, After(c))
    ensures forall u :: Ask(OfShape, u) ==> Sorted(Before(c) + [d] + After(c))
    ensures Pending(c, Br(Red, Leaf, d, Leaf), 0, Before(c) + [d] + After(c))
    ensures |s| == |Before(c)| + |After(c)|
  {
    assert Ask(OfShape, 0);
    PlugInorder(c, Leaf);
    LeafPending(c, d, s);
    assert Before(c) + [] + After(c) == Before(c) + After(c);
    SortedInsert(Before(c), d, After(c));
  }

  lemma SortedWithout(s: seq<Node>, at: nat)
    requires Sorted(s) && at < |s|
    ensures Sorted(s[..at] + s[at + 1..])
  {
    var r := s[..at] + s[at + 1..];
    assert forall i :: 0 <= i < |r| ==> r[i] == if i < at then s[i] else s[i + 1];
  }

  function FloorOf(a: seq<Node>): Node
    requires a != []
  {
    a[|a| - 1]
  }

  lemma FloorIs(nodes: set<Node>, a: seq<Node>, b: seq<Node>, key: string)
    requires nodes == set n | n in a + [] + b
    requires Sorted(a + [] + b) && AllBelow(a, key) && AllAbove(key, b)
    ensures a == [] ==> forall n :: n in nodes ==> Lt(key, n.key)
    ensures a != [] ==> a[|a| - 1] in nodes
    ensures a != [] ==> forall n :: n in nodes ==> n == a[|a| - 1] || Lt(n.key, a[|a| - 1].key) || Lt(key, n.key)
  {
    var s := a + [] + b;
    assert forall i :: 0 <= i < |a| ==> s[i] == a[i];
    assert forall i :: 0 <= i < |b| ==> s[|a| + i] == b[i];
    if a != [] {
      assert s[|a| - 1] == a[|a| - 1];
    }
  }

  lemma FloorStep(a: seq<Node>, l: seq<Node>, e: Node)
    ensures FloorOf(a + l + [e]) == e
  {
  }

  class RBTree {
    var root: Node
    var count: nat
    const nil: Node
    ghost var mem: Mem<Node>
    ghost var tree: Tree<Node>
    /** The nodes in key order. */
    ghost var nodes: seq<Node>

    /** `mem` holds exactly what the fields of its nodes hold, and the sentinel is intact. */
    ghost predicate Synced()
      reads this`mem, nil, mem.Keys
    {
      && nil !in mem
      && nil.color == Black && nil.parent == nil.left == nil.right == nil
      && forall n :: n in mem ==> mem[n] == Links(n.parent, n.left, n.right, n.color)
    }

    ghost predicate Valid()
      reads this, nil, mem.Keys
    {
      && Synced()
      && Focus(mem, nil, root, Top, tree, root, nil)
      && Lawful(tree, nodes)
      && count == |nodes|
    }

    constructor (nil: Node)
      requires nil.color == Black && nil.parent == nil.left == nil.right == nil
      ensures Valid() && mem == map[] && this.nil == nil
    {
      root, this.nil, count, tree, mem, nodes := nil, nil, 0, Leaf, map[], [];
    }

    /** The ghost view of the tree is brought up to date. */
    ghost method Commit(T: Tree<Node>, s: seq<Node>)
      requires Synced() && Focus(mem, nil, root, Top, T, root, nil) && Lawful(T, s) && count == |s|
      modifies this`tree, this`nodes
      ensures Valid() && nodes == s
    {
      tree, nodes := T, s;
    }

    // ---------- single assignments, mirrored in `mem` ----------

    method SetParent(n: Node, v: Node)
      requires Synced() && n in mem
      modifies this`mem, n`parent
      ensures mem.Keys == old(mem.Keys)
      ensures Synced() && mem == old(mem)[n := old(mem)[n].(parent := v)]
    {
      n.parent := v;
      mem := mem[n := mem[n].(parent := v)];
    }

    method SetLeft(n: Node, v: Node)
      requires Synced() && n in mem
      modifies this`mem, n`left
      ensures mem.Keys == old(mem.Keys)
      ensures Synced() && mem == old(mem)[n := old(mem)[n].(left := v)]
    {
      n.left := v;
      mem := mem[n := mem[n].(left := v)];
    }

    method SetRight(n: Node, v: Node)
      requires Synced() && n in mem
      modifies this`mem, n`right
      ensures mem.Keys == old(mem.Keys)
      ensures Synced() && mem == old(mem)[n := old(mem)[n].(right := v)]
    {
      n.right := v;
      mem := mem[n := mem[n].(right := v)];
    }

    method SetColor(n: Node, k: Color)
      requires Synced() && n in mem
      modifies this`mem, n`color
      ensures mem.Keys == old(mem.Keys)
      ensures Synced() && mem == Painted(old(mem), n, k)
    {
      n.color := k;
      mem := mem[n := mem[n].(color := k)];
    }

    // ---------- rotations ----------

    /** The parent of `node`, or the root pointer, is told that `right` takes its place. */
    method ReplaceLeft(node: Node, right: Node)
      requires Synced() && node in mem
      requires node.parent == nil || (node.parent in mem && (node.parent.left == node <==> node.parent.right != node))
      modifies this`root, this`mem, mem.Keys
      ensures Synced() && mem == Relinked(old(mem), old(node.parent), node, right)
      ensures root == if old(node.parent) == nil then right else old(root)
    {
      if node.parent != nil {
        if node == node.parent.left {
          SetLeft(node.parent, right);
        } else {
          SetRight(node.parent, right);
        }
      } else {
        root := right;
      }
    }

    /** The parent of `node`, or the root pointer, is told that `left` takes its place. */
    method ReplaceRight(node: Node, left: Node)
      requires Synced() && node in mem
      requires node.parent == nil || (node.parent in mem && (node.parent.right == node <==> node.parent.left != node))
      modifies this`root, this`mem, mem.Keys
      ensures Synced() && mem == Relinked(old(mem), old(node.parent), node, left)
      ensures root == if old(node.parent) == nil then left else old(root)
    {
      if node.parent != nil {
        if node == node.parent.right {
          SetRight(node.parent, left);
        } else {
          SetLeft(node.parent, left);
        }
      } else {
        root := left;
      }
    }

    /** The first half of the assignments of a left rotation. */
    method BeginLeft(node: Node, right: Node)
      requires Synced() && CanRotateLeft(mem, nil, node) && right == node.right
      modifies this`mem, mem.Keys`right, mem.Keys`parent
      ensures Synced() && mem == BeginLeftMem(old(mem), nil, node)
    {
      SetRight(node, right.left);
      if right.left != nil {
        SetParent(right.left, node);
      }
      SetParent(right, node.parent);
    }

    /** The second half. */
    method EndLeft(node: Node, right: Node)
      requires Synced() && node in mem && right in mem && node != right
      requires node.parent == nil || (node.parent in mem && (node.parent.left == node <==> node.parent.right != node))
      modifies this`root, this`mem, mem.Keys
      ensures Synced() && mem == EndLeftMem(old(mem), node, right)
      ensures root == if old(node.parent) == nil then right else old(root)
    {
      ReplaceLeft(node, right);
      SetLeft(right, node);
      SetParent(node, right);
    }

    /** The assignments of a left rotation. */
    method RotateLinksLeft(node: Node)
      requires Synced() && CanRotateLeft(mem, nil, node)
      modifies this`root, this`mem, mem.Keys
      ensures Synced() && mem == RotateLeftMem(old(mem), nil, node)
      ensures root == if old(node.parent) == nil then old(node.right) else old(root)
    {
      BeginLeftKeeps(mem, nil, node);
      var right := node.right;
      BeginLeft(node, right);
      EndLeft(node, right);
    }

    method RotateLeft(node: Node, ghost c: Ctx<Node>, ghost t: Tree<Node>)
      requires Synced() && Focus(mem, nil, root, c, t, node, node.parent)
      requires t.Br? && t.right.Br?
      modifies this`root, this`mem, mem.Keys
      ensures Synced() && mem.Keys == old(mem.Keys)
      ensures Focus(mem, nil, root, c, RotatedLeft(t), t.right.elem, t.right.elem.parent)
    {
      RotateLeftFocus(mem, nil, root, c, t, node, node.parent);
      RotateLinksLeft(node);
    }

    /** The first half of the assignments of a right rotation. */
    method BeginRight(node: Node, left: Node)
      requires Synced() && CanRotateRight(mem, nil, node) && left == node.left
      modifies this`mem, mem.Keys`left, mem.Keys`parent
      ensures Synced() && mem == BeginRightMem(old(mem), nil, node)
    {
      SetLeft(node, left.right);
      if left.right != nil {
        SetParent(left.right, node);
      }
      SetParent(left, node.parent);
    }

    /** The second half. */
    method EndRight(node: Node, left: Node)
      requires Synced() && node in mem && left in mem && node != left
      requires node.parent == nil || (node.parent in mem && (node.parent.right == node <==> node.parent.left != node))
      modifies this`root, this`mem, mem.Keys
      ensures Synced() && mem == EndRightMem(old(mem), node, left)
      ensures root == if old(node.parent) == nil then left else old(root)
    {
      ReplaceRight(node, left);
      SetRight(left, node);
      SetParent(node, left);
    }

    /** The assignments of a right rotation. */
    method RotateLinksRight(node: Node)
      requires Synced() && CanRotateRight(mem, nil, node)
      modifies this`root, this`mem, mem.Keys
      ensures Synced() && mem == RotateRightMem(old(mem), nil, node)
      ensures root == if old(node.parent) == nil then old(node.left) else old(root)
    {
      BeginRightKeeps(mem, nil, node);
      var left := node.left;
      BeginRight(node, left);
      EndRight(node, left);
    }

    method RotateRight(node: Node, ghost c: Ctx<Node>, ghost t: Tree<Node>)
      requires Synced() && Focus(mem, nil, root, c, t, node, node.parent)
      requires t.Br? && t.left.Br?
      modifies this`root, this`mem, mem.Keys
      ensures Synced() && mem.Keys == old(mem.Keys)
      ensures Focus(mem, nil, root, c, RotatedRight(t), t.left.elem, t.left.elem.parent)
    {
      RotateRightFocus(mem, nil, root, c, t, node, node.parent);
      RotateLinksRight(node);
    }

    /** Paint the node beside the focus. */
    method PaintBeside(node: Node, k: Color, ghost c: Ctx<Node>, ghost t: Tree<Node>, ghost x: Node, ghost p: Node)
      requires Synced() && Focus(mem, nil, root, c, t, x, p) && c != Top && Sibling(c).Br?
      requires node == SiblingPtr(mem, c, p)
      modifies this`mem, node`color
      ensures Synced() && mem.Keys == old(mem.Keys)
      ensures node in mem && mem == Painted(old(mem), node, k)
      ensures Focus(mem, nil, root, WithSibling(c, Sibling(c).(color := k)), t, x, p)
    {
      PaintSibling(mem, nil, root, c, t, x, p, k);
      SetColor(node, k);
    }

    /** Paint the node above the focus. */
    method PaintAbove(node: Node, k: Color, ghost c: Ctx<Node>, ghost t: Tree<Node>, ghost x: Node)
      requires Synced() && Focus(mem, nil, root, c, t, x, node) && c != Top
      modifies this`mem, node`color
      ensures Synced() && mem.Keys == old(mem.Keys)
      ensures node in mem && mem == Painted(old(mem), node, k)
      ensures Focus(mem, nil, root, FrameColored(c, k), t, x, node)
    {
      PaintParent(mem, nil, root, c, t, x, node, k);
      SetColor(node, k);
    }

    /** Paint the node `x` of the focus black and its parent `p` red. */
    method PaintPair(x: Node, p: Node, ghost c: Ctx<Node>, ghost t: Tree<Node>)
      requires Synced() && Focus(mem, nil, root, c, t, x, p) && t.Br? && c != Top
      modifies this`mem, x`color, p`color
      ensures Synced() && mem.Keys == old(mem.Keys)
      ensures Focus(mem, nil, root, c.up, Wrap(FrameColored(c, Red), Blacken(t)), p, p.parent)
    {
      Paint(x, Black, c, t);
      FocusUp(mem, nil, root, c, Blacken(t), x, p);
      Paint(p, Red, c.up, Wrap(c, Blacken(t)));
    }

    // ---------- insert ----------

    method Paint(node: Node, k: Color, ghost c: Ctx<Node>, ghost t: Tree<Node>)
      requires Synced() && Focus(mem, nil, root, c, t, node, node.parent) && t.Br?
      modifies this`mem, node`color
      ensures Synced() && mem.Keys == old(mem.Keys)
      ensures mem == Painted(old(mem), node, k)
      ensures Focus(mem, nil, root, c, t.(color := k), node, node.parent)
    {
      PaintFocus(mem, nil, root, c, t, node, node.parent, k);
      SetColor(node, k);
    }

    /** A right child under a left child is rotated to the outside. */
    method TurnOutLeft(node0: Node, ghost c: Ctx<Node>, ghost t: Tree<Node>)
      returns (ghost c': Ctx<Node>, ghost t': Tree<Node>, node: Node)
      requires Synced() && Focus(mem, nil, root, c, t, node0, node0.parent)
      requires t.Br? && c != Top && c.color == Red
      modifies this`root, this`mem, mem.Keys
      ensures Synced() && mem.Keys == old(mem.Keys)
      ensures Focus(mem, nil, root, c', t', node, node.parent)
      ensures c' == OutLeft(c, t).0 && t' == OutLeft(c, t).1 && t'.Br? && c'.InLeft? && c'.up == c.up
    {
      node := node0;
      c', t' := c, t;
      FocusSide(mem, nil, root, c, t, node, node.parent);
      if node == node.parent.right {
        FocusUp(mem, nil, root, c, t, node, node.parent);
        ghost var w := Wrap(c, t);
        node := node.parent;
        RotateLeft(node, c.up, w);
        FocusLeft(mem, nil, root, c.up, RotatedLeft(w), t.elem, t.elem.parent);
        c', t' := InLeft(t.color, t.elem, t.right, c.up), RotatedLeft(w).left;
      }
    }

    /** The grandparent `g`, red by now, is rotated over the parent, black by now. */
    method SettleLeft(g: Node, ghost c: Ctx<Node>, ghost t: Tree<Node>)
      requires c.InLeft? && c.up.InLeft? && t.Br?
      requires Synced()
      requires Focus(mem, nil, root, c.up.up, Wrap(FrameColored(c.up, Red), Blacken(Wrap(c, t))), g, g.parent)
      modifies this`root, this`mem, mem.Keys
      ensures Synced() && mem.Keys == old(mem.Keys)
      ensures t.elem in mem && Focus(mem, nil, root, Settled(c.up, Blacken(Wrap(c, t))), t, t.elem, t.elem.parent)
    {
      ghost var w := Br(Black, t, c.elem, c.right);
      ghost var v := Br(Red, w, c.up.elem, c.up.right);
      RotateRight(g, c.up.up, v);
      FocusLeft(mem, nil, root, c.up.up, Br(Black, t, c.elem, Br(Red, c.right, c.up.elem, c.up.right)), c.elem,
        c.elem.parent);
    }

    method PaintAndSettleLeft(node: Node, ghost c: Ctx<Node>, ghost t: Tree<Node>)
      requires c.InLeft? && c.up.InLeft? && t.Br?
      requires Synced() && Focus(mem, nil, root, c, t, node, node.parent)
      modifies this`root, this`mem, mem.Keys
      ensures Synced() && mem.Keys == old(mem.Keys)
      ensures Focus(mem, nil, root, Settled(c.up, Blacken(Wrap(c, t))), t, node, node.parent)
    {
      FocusUp(mem, nil, root, c, t, node, node.parent);
      var g := node.parent.parent;
      PaintPair(node.parent, g, c.up, Wrap(c, t));
      SettleLeft(g, c, t);
    }

    /** Black uncle on the right: one or two rotations, and the loop is done. */
    method InsertRotateLeft(node0: Node, ghost c0: Ctx<Node>, ghost t0: Tree<Node>, ghost h: nat, ghost s: seq<Node>)
      returns (ghost c': Ctx<Node>, ghost t: Tree<Node>, node: Node)
      requires Synced() && Focus(mem, nil, root, c0, t0, node0, node0.parent)
      requires Pending(c0, t0, h, s) && IsRedFrame(c0) && c0.up.InLeft? && !IsRed(c0.up.right)
      modifies this`root, this`mem, mem.Keys
      ensures Synced() && mem.Keys == old(mem.Keys)
      ensures Focus(mem, nil, root, c', t, node, node.parent)
      ensures Pending(c', t, h, s) && !IsRedFrame(c')
    {
      ghost var c;
      OutLeftPending(c0, t0, h, s);
      c, t, node := TurnOutLeft(node0, c0, t0);
      SettledPending(c, t, h, s);
      c' := Settled(c.up, Blacken(Wrap(c, t)));
      PaintAndSettleLeft(node, c, t);
    }

    /** A left child under a right child is rotated to the outside. */
    method TurnOutRight(node0: Node, ghost c: Ctx<Node>, ghost t: Tree<Node>)
      returns (ghost c': Ctx<Node>, ghost t': Tree<Node>, node: Node)
      requires Synced() && Focus(mem, nil, root, c, t, node0, node0.parent)
      requires t.Br? && c != Top && c.color == Red
      modifies this`root, this`mem, mem.Keys
      ensures Synced() && mem.Keys == old(mem.Keys)
      ensures Focus(mem, nil, root, c', t', node, node.parent)
      ensures c' == OutRight(c, t).0 && t' == OutRight(c, t).1 && t'.Br? && c'.InRight? && c'.up == c.up
    {
      node := node0;
      c', t' := c, t;
      FocusSide(mem, nil, root, c, t, node, node.parent);
      if node == node.parent.left {
        FocusUp(mem, nil, root, c, t, node, node.parent);
        ghost var w := Wrap(c, t);
        node := node.parent;
        RotateRight(node, c.up, w);
        FocusRight(mem, nil, root, c.up, RotatedRight(w), t.elem, t.elem.parent);
        c', t' := InRight(t.color, t.left, t.elem, c.up), RotatedRight(w).right;
      }
    }

    /** The grandparent `g`, red by now, is rotated over the parent, black by now. */
    method SettleRight(g: Node, ghost c: Ctx<Node>, ghost t: Tree<Node>)
      requires c.InRight? && c.up.InRight? && t.Br?
      requires Synced()
      requires Focus(mem, nil, root, c.up.up, Wrap(FrameColored(c.up, Red), Blacken(Wrap(c, t))), g, g.parent)
      modifies this`root, this`mem, mem.Keys
      ensures Synced() && mem.Keys == old(mem.Keys)
      ensures t.elem in mem && Focus(mem, nil, root, Settled(c.up, Blacken(Wrap(c, t))), t, t.elem, t.elem.parent)
    {
      ghost var w := Br(Black, c.left, c.elem, t);
      ghost var v := Br(Red, c.up.left, c.up.elem, w);
      RotateLeft(g, c.up.up, v);
      FocusRight(mem, nil, root, c.up.up, Br(Black, Br(Red, c.up.left, c.up.elem, c.left), c.elem, t), c.elem,
        c.elem.parent);
    }

    method PaintAndSettleRight(node: Node, ghost c: Ctx<Node>, ghost t: Tree<Node>)
      requires c.InRight? && c.up.InRight? && t.Br?
      requires Synced() && Focus(mem, nil, root, c, t, node, node.parent)
      modifies this`root, this`mem, mem.Keys
      ensures Synced() && mem.Keys == old(mem.Keys)
      ensures Focus(mem, nil, root, Settled(c.up, Blacken(Wrap(c, t))), t, node, node.parent)
    {
      FocusUp(mem, nil, root, c, t, node, node.parent);
      var g := node.parent.parent;
      PaintPair(node.parent, g, c.up, Wrap(c, t));
      SettleRight(g, c, t);
    }

    /** Black uncle on the left: one or two rotations, and the loop is done. */
    method InsertRotateRight(node0: Node, ghost c0: Ctx<Node>, ghost t0: Tree<Node>, ghost h: nat, ghost s: seq<Node>)
      returns (ghost c': Ctx<Node>, ghost t: Tree<Node>, node: Node)
      requires Synced() && Focus(mem, nil, root, c0, t0, node0, node0.parent)
      requires Pending(c0, t0, h, s) && IsRedFrame(c0) && c0.up.InRight? && !IsRed(c0.up.left)
      modifies this`root, this`mem, mem.Keys
      ensures Synced() && mem.Keys == old(mem.Keys)
      ensures Focus(mem, nil, root, c', t, node, node.parent)
      ensures Pending(c', t, h, s) && !IsRedFrame(c')
    {
      ghost var c;
      OutRightPending(c0, t0, h, s);
      c, t, node := TurnOutRight(node0, c0, t0);
      SettledPending(c, t, h, s);
      c' := Settled(c.up, Blacken(Wrap(c, t)));
      PaintAndSettleRight(node, c, t);
    }

    /** The side of the grandparent the parent is on, and the uncle on the other side. */
    method FindUncle(node: Node, ghost c: Ctx<Node>, ghost t: Tree<Node>) returns (left: bool, uncle: Node)
      requires Synced() && Focus(mem, nil, root, c, t, node, node.parent) && c != Top && c.up != Top
      ensures node.parent in mem && node.parent.parent in mem
      ensures left == c.up.InLeft? && uncle == SiblingPtr(mem, c.up, node.parent.parent)
      ensures uncle.color == Red <==> IsRed(Sibling(c.up))
      ensures uncle.color == Red ==> uncle in mem
    {
      FocusUp(mem, nil, root, c, t, node, node.parent);
      FocusSide(mem, nil, root, c.up, Wrap(c, t), node.parent, node.parent.parent);
      FocusBeside(mem, nil, root, c.up, Wrap(c, t), node.parent, node.parent.parent);
      left := node.parent == node.parent.parent.left;
      uncle := if left then node.parent.parent.right else node.parent.parent.left;
    }

    /** Red uncle: three nodes change colour and the grandparent is next. */
    method InsertRecolor(node: Node, uncle: Node, ghost c: Ctx<Node>, ghost t: Tree<Node>) returns (node': Node)
      requires Synced() && Focus(mem, nil, root, c, t, node, node.parent)
      requires c != Top && c.up != Top && Sibling(c.up).Br? && node.parent in mem && node.parent.parent in mem
      requires uncle in mem && uncle == SiblingPtr(mem, c.up, node.parent.parent)
      modifies this`mem, mem.Keys`color
      ensures Synced() && mem.Keys == old(mem.Keys)
      ensures Focus(mem, nil, root, c.up.up, Recolored(c, t), node', node'.parent)
    {
      node' := node.parent.parent;
      PaintAbove(node.parent, Black, c, t, node);
      ghost var p, c1 := node.parent, FrameColored(c, Black);
      FocusUp(mem, nil, root, c1, t, node, p);
      PaintUncle(uncle, p, node', c.up, Wrap(c1, t));
    }

    method PaintUncle(uncle: Node, ghost p: Node, g: Node, ghost c: Ctx<Node>, ghost w: Tree<Node>)
      requires Synced() && Focus(mem, nil, root, c, w, p, g) && c != Top && Sibling(c).Br?
      requires g in mem && uncle in mem && uncle == SiblingPtr(mem, c, g)
      modifies this`mem, mem.Keys`color
      ensures Synced() && mem.Keys == old(mem.Keys)
      ensures Focus(mem, nil, root, c.up, Wrap(FrameColored(WithSibling(c, Sibling(c).(color := Black)), Red), w), g,
                    g.parent)
    {
      PaintBeside(uncle, Black, c, w, p, g);
      ghost var c1 := WithSibling(c, Sibling(c).(color := Black));
      PaintAbove(g, Red, c1, w, p);
      FocusUp(mem, nil, root, FrameColored(c1, Red), w, p, g);
    }

    /** One turn of the loop of the insert fixup. */
    method InsertStep(node: Node, ghost c: Ctx<Node>, ghost t: Tree<Node>, ghost h: nat, ghost s: seq<Node>)
      returns (ghost c': Ctx<Node>, ghost t': Tree<Node>, ghost h': nat, node': Node)
      requires Synced() && Focus(mem, nil, root, c, t, node, node.parent)
      requires Pending(c, t, h, s) && IsRedFrame(c)
      modifies this`root, this`mem, mem.Keys
      ensures Synced() && mem.Keys == old(mem.Keys)
      ensures Focus(mem, nil, root, c', t', node', node'.parent)
      ensures Pending(c', t', h', s)
      ensures IsRedFrame(c') ==> Depth(c') < Depth(c)
    {
      var left, uncle := FindUncle(node, c, t);
      h' := h;
      if uncle.color == Red {
        RecoloredPending(c, t, h, s);
        node' := InsertRecolor(node, uncle, c, t);
        c', t', h' := c.up.up, Recolored(c, t), h + 1;
      } else if left {
        c', t', node' := InsertRotateLeft(node, c, t, h, s);
      } else {
        c', t', node' := InsertRotateRight(node, c, t, h, s);
      }
    }

    method InsertFixup(node0: Node, ghost c0: Ctx<Node>, ghost t0: Tree<Node>, ghost h0: nat, ghost s: seq<Node>)
      returns (ghost T: Tree<Node>)
      requires Synced() && Focus(mem, nil, root, c0, t0, node0, node0.parent)
      requires Pending(c0, t0, h0, s)
      modifies this`root, this`mem, mem.Keys
      ensures Synced() && mem.Keys == old(mem.Keys)
      ensures Focus(mem, nil, root, Top, T, root, nil) && Good(T, s)
    {
      var node := node0;
      ghost var c, t, h := c0, t0, h0;
      while node != root && node.parent.color == Red
        invariant Synced() && mem.Keys == old(mem.Keys)
        invariant Focus(mem, nil, root, c, t, node, node.parent)
        invariant Pending(c, t, h, s)
        decreases if IsRedFrame(c) then Depth(c) + 1 else 0
      {
        c, t, h, node := InsertStep(node, c, t, h, s);
      }
      T := InsertEnd(node, c, t, h, s);
    }

    method InsertEnd(ghost node: Node, ghost c: Ctx<Node>, ghost t: Tree<Node>, ghost h: nat, ghost s: seq<Node>)
      returns (ghost T: Tree<Node>)
      requires Synced() && Focus(mem, nil, root, c, t, node, node.parent)
      requires Pending(c, t, h, s) && !IsRedFrame(c)
      modifies this`mem, mem.Keys`color
      ensures Synced() && mem.Keys == old(mem.Keys)
      ensures Focus(mem, nil, root, Top, T, root, nil) && Good(T, s)
    {
      InsertDone(mem, nil, root, c, t, node, node.parent, h, s);
      SetColor(root, Black);
      T := Blacken(Plug(c, t));
    }

    /** Walks down to where `key` is or would go; `r` is the last comparison made.
        It takes at most 2 log2 (count + 1) turns. */
    method Descend(key: string)
      returns (node: Node, parent: Node, r: int, ghost c: Ctx<Node>, ghost t: Tree<Node>, ghost steps: nat)
      requires Valid()
      ensures Focus(mem, nil, root, c, t, node, parent) && Plug(c, t) == tree
      ensures node != nil ==> node.key == key
      ensures AllBelow(Before(c), key) && AllAbove(key, After(c))
      ensures nodes == Before(c) + Inorder(t) + After(c)
      ensures node == nil && c != Top ==> (r < 0 <==> c.InLeft?)
      ensures Pow2(steps) <= (count + 1) * (count + 1)
    {
      node, parent, r := root, nil, 0;
      c, t, steps := Top, tree, 0;
      while node != nil
        invariant Focus(mem, nil, root, c, t, node, parent) && Plug(c, t) == tree
        invariant AllBelow(Before(c), key) && AllAbove(key, After(c))
        invariant c != Top ==> (r < 0 <==> c.InLeft?)
        invariant steps + Height(t) <= Height(tree)
        decreases t
      {
        steps := steps + 1;
        r := Strcmp(key, node.key);
        StepDown(key, c, t, node);
        if r == 0 {
          break;
        }
        parent := node;
        if r < 0 {
          FocusLeft(mem, nil, root, c, t, node, if c == Top then nil else c.elem);
          node := node.left;
          c, t := InLeft(t.color, t.elem, t.right, c), t.left;
        } else {
          FocusRight(mem, nil, root, c, t, node, if c == Top then nil else c.elem);
          node := node.right;
          c, t := InRight(t.color, t.left, t.elem, c), t.right;
        }
      }
      StepsBound(steps);
      WholeOrder(c, t);
    }

    lemma WholeOrder(c: Ctx<Node>, t: Tree<Node>)
      requires Valid() && Plug(c, t) == tree
      ensures nodes == Before(c) + Inorder(t) + After(c)
    {
      assert Ask(OfShape, 0);
      PlugInorder(c, t);
    }

    /** One comparison on the way down: which side the key can be on. */
    lemma StepDown(key: string, c: Ctx<Node>, t: Tree<Node>, node: Node)
      requires Valid() && Plug(c, t) == tree && t.Br? && t.elem == node
      requires AllBelow(Before(c), key) && AllAbove(key, After(c))
      ensures var r := Strcmp(key, node.key);
        && (r == 0 ==> node.key == key)
        && (r < 0 ==> AllAbove(key, After(InLeft(t.color, t.elem, t.right, c))))
        && (r > 0 ==> AllBelow(Before(InRight(t.color, t.left, t.elem, c)), key))
      ensures var b := Before(InRight(t.color, t.left, t.elem, c));
        b != [] && FloorOf(b) == node
    {
      assert Ask(OfShape, 0);
      StrcmpZero(key, node.key);
      StrcmpFlip(key, node.key);
      PlugInorder(c, t);
      SortedParts(Before(c), Inorder(t.left), node, Inorder(t.right), After(c), key);
      FloorStep(Before(c), Inorder(t.left), node);
    }

    /** A walk down the tree of `n` nodes takes at most 2 log2 (n + 1) turns. */
    lemma StepsBound(steps: nat)
      requires Valid() && steps <= Height(tree)
      ensures Pow2(steps) <= (count + 1) * (count + 1)
    {
      assert Ask(OfShape, 0);
      HeightBound(tree);
      SizeInorder(tree);
      Pow2Mono(steps, Height(tree));
    }

    /** Links the fresh leaf `data` under `parent`. */
    method Attach(data: Node, parent: Node, r: int, ghost c: Ctx<Node>)
      requires Synced() && Focus(mem, nil, root, c, Leaf, nil, parent)
      requires data != nil && data !in mem && (c != Top ==> (r < 0 <==> c.InLeft?))
      modifies this`root, this`mem, mem.Keys, data
      ensures Synced() && mem.Keys == old(mem.Keys) + {data}
      ensures Focus(mem, nil, root, c, Br(Red, Leaf, data, Leaf), data, data.parent)
    {
      ghost var m := mem;
      WriteLeaf(data, parent);
      HangLeaf(data, parent, r);
      AttachFocus(m, mem, nil, old(root), c, parent, data);
    }

    method WriteLeaf(data: Node, parent: Node)
      requires Synced() && data != nil && data !in mem
      modifies this`mem, data
      ensures Synced() && mem == old(mem)[data := Links(parent, nil, nil, Red)]
    {
      data.parent := parent;
      data.left, data.right := nil, nil;
      data.color := Red;
      mem := mem[data := Links(parent, nil, nil, Red)];
    }

    method HangLeaf(data: Node, parent: Node, r: int)
      requires Synced() && (parent == nil || parent in mem)
      modifies this`root, this`mem, mem.Keys
      ensures Synced() && mem.Keys == old(mem.Keys)
      ensures parent == nil ==> root == data && mem == old(mem)
      ensures parent != nil && r < 0 ==> root == old(root) && mem == old(mem)[parent := old(mem)[parent].(left := data)]
      ensures parent != nil && r >= 0 ==>
        root == old(root) && mem == old(mem)[parent := old(mem)[parent].(right := data)]
    {
      if parent != nil {
        if r < 0 {
          SetLeft(parent, data);
        } else {
          SetRight(parent, data);
        }
      } else {
        root := data;
      }
    }

    /** Links `data` into an empty hole of the tree and restores the laws. */
    method AddLeaf(data: Node, parent: Node, r: int, ghost c: Ctx<Node>)
      requires Valid() && data != nil && data !in mem
      requires Focus(mem, nil, root, c, Leaf, nil, parent) && Plug(c, Leaf) == tree
      requires AllBelow(Before(c), data.key) && AllAbove(data.key, After(c))
      requires c != Top ==> (r < 0 <==> c.InLeft?)
      modifies this, mem.Keys, data
      ensures Valid() && count == old(count) + 1
      ensures mem.Keys == old(mem.Keys) + {data} && nodes == Before(c) + [data] + After(c)
    {
      AddLeafLawful(tree, nodes, c, data);
      count := count + 1;
      ghost var T := LinkLeaf(data, parent, r, c, Before(c) + [data] + After(c));
      Commit(T, Before(c) + [data] + After(c));
    }

    method LinkLeaf(data: Node, parent: Node, r: int, ghost c: Ctx<Node>, ghost s: seq<Node>)
      returns (ghost T: Tree<Node>)
      requires Synced() && Focus(mem, nil, root, c, Leaf, nil, parent) && data != nil && data !in mem
      requires c != Top ==> (r < 0 <==> c.InLeft?)
      requires Pending(c, Br(Red, Leaf, data, Leaf), 0, s)
      modifies this`root, this`mem, mem.Keys, data
      ensures Synced() && mem.Keys == old(mem.Keys) + {data}
      ensures Focus(mem, nil, root, Top, T, root, nil) && Good(T, s)
    {
      Attach(data, parent, r, c);
      T := InsertFixup(data, c, Br(Red, Leaf, data, Leaf), 0, s);
    }

    /** Adds `data` unless its key is there already; then the node that has the key is returned. */
    method Insert(data: Node) returns (node: Node, ghost at: nat)
      requires Valid() && data != nil && data !in mem
      modifies this, mem.Keys, data
      ensures Valid()
      ensures node != data ==>
        && node in mem && node.key == data.key
        && unchanged(this) && unchanged(data) && forall n :: n in mem ==> unchanged(n)
      ensures node == data ==>
        && (forall n :: n in old(mem) ==> n.key != data.key)
        && count == old(count) + 1
        && mem.Keys == old(mem.Keys) + {data}
        && at <= |old(nodes)|
        && nodes == old(nodes)[..at] + [data] + old(nodes)[at..]
    {
      var parent, r;
      ghost var c, t, steps;
      node, parent, r, c, t, steps := Descend(data.key);
      at := |Before(c)|;
      if node != nil {
        return;
      }
      FocusKeys(mem, nil, root, tree, nodes);
      AbsentKey(mem.Keys, Before(c), After(c), data.key);
      InsertedAt(nodes, Before(c), data, After(c));
      AddLeaf(data, parent, r, c);
      node := data;
    }

    // ---------- delete ----------

    /** The sibling, told by comparing pointers. */
    method FindSibling(child: Node, childParent: Node, ghost c: Ctx<Node>, ghost t: Tree<Node>) returns (sibling: Node)
      requires Synced() && Focus(mem, nil, root, c, t, child, childParent)
      requires c != Top ==> Sibling(c).Br?
      ensures c != Top ==> childParent in mem && sibling in mem && sibling == SiblingPtr(mem, c, childParent)
    {
      if c != Top {
        FocusBeside(mem, nil, root, c, t, child, childParent);
        FocusSide(mem, nil, root, c, t, child, childParent);
      }
      if childParent.right == child {
        sibling := childParent.left;
      } else {
        sibling := childParent.right;
      }
    }

    /** Reading the colours around the sibling. */
    lemma SiblingColors(child: Node, p: Node, c: Ctx<Node>, t: Tree<Node>)
      requires Synced() && Focus(mem, nil, root, c, t, child, p) && c != Top && Sibling(c).Br?
      ensures p in mem && SiblingPtr(mem, c, p) in mem
      ensures var s := SiblingPtr(mem, c, p);
        && s.color == Sibling(c).color
        && (s.left.color == Red <==> IsRed(Sibling(c).left)) && (IsRed(Sibling(c).left) ==> s.left in mem)
        && (s.right.color == Red <==> IsRed(Sibling(c).right)) && (IsRed(Sibling(c).right) ==> s.right in mem)
    {
      FocusBeside(mem, nil, root, c, t, child, p);
      ChildColors(mem, nil, root, Beside(c, t), Sibling(c), SiblingPtr(mem, c, p), p);
    }

    /** A red sibling on the right is rotated up. */
    method RotateRedSiblingLeft(child: Node, childParent: Node, sibling: Node, ghost c: Ctx<Node>, ghost t: Tree<Node>)
      requires Synced() && Focus(mem, nil, root, c, t, child, childParent)
      requires c.InLeft? && c.right.Br? && sibling in mem && sibling == SiblingPtr(mem, c, childParent)
      modifies this`root, this`mem, mem.Keys
      ensures Synced() && mem.Keys == old(mem.Keys)
      ensures Focus(mem, nil, root, RedSiblingLeft(c), t, child, childParent)
    {
      PaintAbove(childParent, Red, c, t, child);
      ghost var c1 := InLeft(Red, c.elem, c.right, c.up);
      PaintBeside(sibling, Black, c1, t, child, childParent);
      ghost var c2 := InLeft(Red, c.elem, c.right.(color := Black), c.up);
      FocusUp(mem, nil, root, c2, t, child, childParent);
      RotateUnderLeft(childParent, c2, t, child);
    }

    method RotateUnderLeft(childParent: Node, ghost c: Ctx<Node>, ghost t: Tree<Node>, ghost child: Node)
      requires c.InLeft? && c.right.Br?
      requires Synced() && Focus(mem, nil, root, c.up, Wrap(c, t), childParent, childParent.parent)
      requires childParent.left == child
      modifies this`root, this`mem, mem.Keys
      ensures Synced() && mem.Keys == old(mem.Keys)
      ensures Focus(mem, nil, root,
        InLeft(c.color, c.elem, c.right.left, InLeft(c.right.color, c.right.elem, c.right.right, c.up)),
        t, child, childParent)
    {
      ghost var w := Br(c.color, t, c.elem, c.right);
      FocusLeft(mem, nil, root, c.up, w, childParent, childParent.parent);
      RotateLeft(childParent, c.up, w);
      ghost var s := c.right.elem;
      FocusLeft(mem, nil, root, c.up, RotatedLeft(w), s, s.parent);
      ghost var c1 := InLeft(c.right.color, c.right.elem, c.right.right, c.up);
      FocusLeft(mem, nil, root, c1, RotatedLeft(w).left, s.left, s);
      assert t.Br? ==> t.elem == child;
    }

    /** A red sibling on the left is rotated up. */
    method RotateRedSiblingRight(child: Node, childParent: Node, sibling: Node, ghost c: Ctx<Node>, ghost t: Tree<Node>)
      requires Synced() && Focus(mem, nil, root, c, t, child, childParent)
      requires c.InRight? && c.left.Br? && sibling in mem && sibling == SiblingPtr(mem, c, childParent)
      modifies this`root, this`mem, mem.Keys
      ensures Synced() && mem.Keys == old(mem.Keys)
      ensures Focus(mem, nil, root, RedSiblingRight(c), t, child, childParent)
    {
      PaintAbove(childParent, Red, c, t, child);
      ghost var c1 := InRight(Red, c.left, c.elem, c.up);
      PaintBeside(sibling, Black, c1, t, child, childParent);
      ghost var c2 := InRight(Red, c.left.(color := Black), c.elem, c.up);
      FocusUp(mem, nil, root, c2, t, child, childParent);
      RotateUnderRight(childParent, c2, t, child);
    }

    method RotateUnderRight(childParent: Node, ghost c: Ctx<Node>, ghost t: Tree<Node>, ghost child: Node)
      requires c.InRight? && c.left.Br?
      requires Synced() && Focus(mem, nil, root, c.up, Wrap(c, t), childParent, childParent.parent)
      requires childParent.right == child
      modifies this`root, this`mem, mem.Keys
      ensures Synced() && mem.Keys == old(mem.Keys)
      ensures Focus(mem, nil, root,
        InRight(c.color, c.left.right, c.elem, InRight(c.left.color, c.left.left, c.left.elem, c.up)),
        t, child, childParent)
    {
      ghost var w := Br(c.color, c.left, c.elem, t);
      FocusRight(mem, nil, root, c.up, w, childParent, childParent.parent);
      RotateRight(childParent, c.up, w);
      ghost var s := c.left.elem;
      FocusRight(mem, nil, root, c.up, RotatedRight(w), s, s.parent);
      ghost var c1 := InRight(c.left.color, c.left.left, c.left.elem, c.up);
      FocusRight(mem, nil, root, c1, RotatedRight(w).right, s.right, s);
      assert t.Br? ==> t.elem == child;
    }

    /** Near nephew red, far nephew black: the rotation at the sibling. */
    method RotateNearNephewLeft(child: Node, childParent: Node, sibling: Node, ghost c: Ctx<Node>, ghost t: Tree<Node>)
      requires Synced() && Focus(mem, nil, root, c, t, child, childParent)
      requires c.InLeft? && c.right.Br? && c.right.left.Br? && sibling in mem
      requires sibling == SiblingPtr(mem, c, childParent)
      modifies this`root, this`mem, mem.Keys
      ensures Synced() && mem.Keys == old(mem.Keys)
      ensures Focus(mem, nil, root, NearNephewLeft(c), t, child, childParent)
    {
      PaintBeside(sibling, Red, c, t, child, childParent);
      ghost var z := c.right.(color := Red);
      ghost var c1 := WithSibling(c, z);
      FocusBeside(mem, nil, root, c1, t, child, childParent);
      FocusLeft(mem, nil, root, Beside(c1, t), z, sibling, childParent);
      ghost var l := sibling.left;
      Paint(sibling.left, Black, InLeft(z.color, z.elem, z.right, Beside(c1, t)), z.left);
      FocusUp(mem, nil, root, InLeft(z.color, z.elem, z.right, Beside(c1, t)), z.left.(color := Black), l, sibling);
      RotateSiblingLeft(sibling, c1, t, z.(left := z.left.(color := Black)), child);
    }

    method RotateSiblingLeft(sibling: Node, ghost c: Ctx<Node>, ghost t: Tree<Node>, ghost z: Tree<Node>,
                             ghost child: Node)
      requires c.InLeft? && z.Br? && z.left.Br?
      requires Synced() && Focus(mem, nil, root, Beside(c, t), z, sibling, c.elem) && sibling.parent == c.elem
      requires c.elem in mem && c.elem.left == child
      modifies this`root, this`mem, mem.Keys
      ensures Synced() && mem.Keys == old(mem.Keys)
      ensures Focus(mem, nil, root, c.(right := RotatedRight(z)), t, child, c.elem)
    {
      FocusBeside(mem, nil, root, Beside(c, t), z, sibling, c.elem);
      RotateRight(sibling, Beside(c, t), z);
      FocusBeside(mem, nil, root, Beside(c, t), RotatedRight(z), z.left.elem, c.elem);
    }

    /** Far nephew red: the sibling takes the parent's colour, parent and nephew turn black. */
    method PaintFarNephewLeft(child: Node, childParent: Node, sibling: Node, ghost c: Ctx<Node>, ghost t: Tree<Node>)
      requires Synced() && Focus(mem, nil, root, c, t, child, childParent)
      requires c.InLeft? && c.right.Br? && c.right.right.Br? && sibling in mem
      requires sibling == SiblingPtr(mem, c, childParent)
      modifies this`mem, mem.Keys`color
      ensures Synced() && mem.Keys == old(mem.Keys)
      ensures Focus(mem, nil, root,
        InLeft(Black, c.elem, Br(c.color, c.right.left, c.right.elem, c.right.right.(color := Black)), c.up),
        t, child, childParent)
    {
      PaintBeside(sibling, childParent.color, c, t, child, childParent);
      ghost var z := c.right.(color := c.color);
      ghost var c1 := WithSibling(c, z);
      PaintAbove(childParent, Black, c1, t, child);
      ghost var c2 := InLeft(Black, c.elem, z, c.up);
      FocusBeside(mem, nil, root, c2, t, child, childParent);
      FocusRight(mem, nil, root, Beside(c2, t), z, sibling, childParent);
      PaintOuterLeft(child, childParent, sibling, c2, t, z);
    }

    method PaintOuterLeft(ghost child: Node, ghost childParent: Node, sibling: Node, ghost c: Ctx<Node>,
                          ghost t: Tree<Node>, ghost z: Tree<Node>)
      requires Synced() && c.InLeft? && z.Br? && z.right.Br? && sibling in mem && childParent in mem
      requires mem[childParent].left == child
      requires Focus(mem, nil, root, InRight(z.color, z.left, z.elem, Beside(c, t)), z.right, sibling.right, sibling)
      requires sibling.parent == childParent
      modifies this`mem, mem.Keys`color
      ensures Synced() && mem.Keys == old(mem.Keys)
      ensures Focus(mem, nil, root, c.(right := z.(right := z.right.(color := Black))), t, child, childParent)
    {
      ghost var b := InRight(z.color, z.left, z.elem, Beside(c, t));
      Paint(sibling.right, Black, b, z.right);
      FocusUp(mem, nil, root, b, z.right.(color := Black), sibling.right, sibling);
      FocusBeside(mem, nil, root, Beside(c, t), z.(right := z.right.(color := Black)), sibling, childParent);
    }

    /** The sibling is black and has a red child, on the right of the parent. */
    method RotateOutLeft(child: Node, childParent: Node, sibling0: Node, ghost c0: Ctx<Node>, ghost t: Tree<Node>,
                         ghost h: nat, ghost s: seq<Node>)
      returns (ghost T: Tree<Node>)
      requires Synced() && Focus(mem, nil, root, c0, t, child, childParent)
      requires Short(c0, t, h, s) && c0.InLeft? && !IsRed(c0.right) && !BlackSibling(c0)
      requires sibling0 in mem && sibling0 == SiblingPtr(mem, c0, childParent)
      modifies this`root, this`mem, mem.Keys
      ensures Synced() && mem.Keys == old(mem.Keys)
      ensures Focus(mem, nil, root, Top, T, root, nil) && Good(T, s)
    {
      var sibling := sibling0;
      ghost var c := c0;
      SiblingColors(child, childParent, c, t);
      if sibling.color == Black && sibling.left.color == Red && sibling.right.color == Black {
        NearNephewLeftShort(c, t, h, s);
        RotateNearNephewLeft(child, childParent, sibling, c, t);
        c := NearNephewLeft(c);
        sibling := FindSibling(child, childParent, c, t);
      }
      T := FinishFarLeft(child, childParent, sibling, c, t, h, s);
    }

    method FinishFarLeft(child: Node, childParent: Node, sibling: Node, ghost c: Ctx<Node>, ghost t: Tree<Node>,
                         ghost h: nat, ghost s: seq<Node>)
      returns (ghost T: Tree<Node>)
      requires Synced() && Focus(mem, nil, root, c, t, child, childParent)
      requires Short(c, t, h, s) && c.InLeft? && !IsRed(c.right) && IsRed(c.right.right)
      requires sibling in mem && sibling == SiblingPtr(mem, c, childParent)
      modifies this`root, this`mem, mem.Keys
      ensures Synced() && mem.Keys == old(mem.Keys)
      ensures Focus(mem, nil, root, Top, T, root, nil) && Good(T, s)
    {
      FarNephewLeftDone(c, t, h, s);
      PaintFarNephewLeft(child, childParent, sibling, c, t);
      ghost var z := Br(c.color, c.right.left, c.right.elem, c.right.right.(color := Black));
      ghost var c1 := InLeft(Black, c.elem, z, c.up);
      FocusUp(mem, nil, root, c1, t, child, childParent);
      ghost var w := Br(Black, t, c.elem, z);
      RotateLeft(childParent, c.up, w);
      FocusTop(mem, nil, root, c.up, RotatedLeft(w), z.elem, z.elem.parent);
      T := Plug(c.up, FarNephewLeft(c, t));
    }

    /** Near nephew red, far nephew black: the rotation at the sibling. */
    method RotateNearNephewRight(child: Node, childParent: Node, sibling: Node, ghost c: Ctx<Node>, ghost t: Tree<Node>)
      requires Synced() && Focus(mem, nil, root, c, t, child, childParent)
      requires c.InRight? && c.left.Br? && c.left.right.Br? && sibling in mem
      requires sibling == SiblingPtr(mem, c, childParent)
      modifies this`root, this`mem, mem.Keys
      ensures Synced() && mem.Keys == old(mem.Keys)
      ensures Focus(mem, nil, root, NearNephewRight(c), t, child, childParent)
    {
      PaintBeside(sibling, Red, c, t, child, childParent);
      ghost var z := c.left.(color := Red);
      ghost var c1 := WithSibling(c, z);
      FocusBeside(mem, nil, root, c1, t, child, childParent);
      FocusRight(mem, nil, root, Beside(c1, t), z, sibling, childParent);
      ghost var l := sibling.right;
      Paint(sibling.right, Black, InRight(z.color, z.left, z.elem, Beside(c1, t)), z.right);
      FocusUp(mem, nil, root, InRight(z.color, z.left, z.elem, Beside(c1, t)), z.right.(color := Black), l, sibling);
      RotateSiblingRight(sibling, c1, t, z.(right := z.right.(color := Black)), child);
    }

    method RotateSiblingRight(sibling: Node, ghost c: Ctx<Node>, ghost t: Tree<Node>, ghost z: Tree<Node>,
                              ghost child: Node)
      requires c.InRight? && z.Br? && z.right.Br?
      requires Synced() && Focus(mem, nil, root, Beside(c, t), z, sibling, c.elem) && sibling.parent == c.elem
      requires c.elem in mem && c.elem.right == child
      modifies this`root, this`mem, mem.Keys
      ensures Synced() && mem.Keys == old(mem.Keys)
      ensures Focus(mem, nil, root, c.(left := RotatedLeft(z)), t, child, c.elem)
    {
      FocusBeside(mem, nil, root, Beside(c, t), z, sibling, c.elem);
      RotateLeft(sibling, Beside(c, t), z);
      FocusBeside(mem, nil, root, Beside(c, t), RotatedLeft(z), z.right.elem, c.elem);
    }

    /** Far nephew red: the sibling takes the parent's colour, parent and nephew turn black. */
    method PaintFarNephewRight(child: Node, childParent: Node, sibling: Node, ghost c: Ctx<Node>, ghost t: Tree<Node>)
      requires Synced() && Focus(mem, nil, root, c, t, child, childParent)
      requires c.InRight? && c.left.Br? && c.left.left.Br? && sibling in mem
      requires sibling == SiblingPtr(mem, c, childParent)
      modifies this`mem, mem.Keys`color
      ensures Synced() && mem.Keys == old(mem.Keys)
      ensures Focus(mem, nil, root,
        InRight(Black, Br(c.color, c.left.left.(color := Black), c.left.elem, c.left.right), c.elem, c.up),
        t, child, childParent)
    {
      PaintBeside(sibling, childParent.color, c, t, child, childParent);
      ghost var z := c.left.(color := c.color);
      ghost var c1 := WithSibling(c, z);
      PaintAbove(childParent, Black, c1, t, child);
      ghost var c2 := InRight(Black, z, c.elem, c.up);
      FocusBeside(mem, nil, root, c2, t, child, childParent);
      FocusLeft(mem, nil, root, Beside(c2, t), z, sibling, childParent);
      PaintOuterRight(child, childParent, sibling, c2, t, z);
    }

    method PaintOuterRight(ghost child: Node, ghost childParent: Node, sibling: Node, ghost c: Ctx<Node>,
                           ghost t: Tree<Node>, ghost z: Tree<Node>)
      requires Synced() && c.InRight? && z.Br? && z.left.Br? && sibling in mem && childParent in mem
      requires mem[childParent].right == child
      requires Focus(mem, nil, root, InLeft(z.color, z.elem, z.right, Beside(c, t)), z.left, sibling.left, sibling)
      requires sibling.parent == childParent
      modifies this`mem, mem.Keys`color
      ensures Synced() && mem.Keys == old(mem.Keys)
      ensures Focus(mem, nil, root, c.(left := z.(left := z.left.(color := Black))), t, child, childParent)
    {
      ghost var b := InLeft(z.color, z.elem, z.right, Beside(c, t));
      Paint(sibling.left, Black, b, z.left);
      FocusUp(mem, nil, root, b, z.left.(color := Black), sibling.left, sibling);
      FocusBeside(mem, nil, root, Beside(c, t), z.(left := z.left.(color := Black)), sibling, childParent);
    }

    /** The sibling is black and has a red child, on the left of the parent. */
    method RotateOutRight(child: Node, childParent: Node, sibling0: Node, ghost c0: Ctx<Node>, ghost t: Tree<Node>,
                          ghost h: nat, ghost s: seq<Node>)
      returns (ghost T: Tree<Node>)
      requires Synced() && Focus(mem, nil, root, c0, t, child, childParent)
      requires Short(c0, t, h, s) && c0.InRight? && !IsRed(c0.left) && !BlackSibling(c0)
      requires sibling0 in mem && sibling0 == SiblingPtr(mem, c0, childParent)
      modifies this`root, this`mem, mem.Keys
      ensures Synced() && mem.Keys == old(mem.Keys)
      ensures Focus(mem, nil, root, Top, T, root, nil) && Good(T, s)
    {
      var sibling := sibling0;
      ghost var c := c0;
      SiblingColors(child, childParent, c, t);
      if sibling.color == Black && sibling.right.color == Red && sibling.left.color == Black {
        NearNephewRightShort(c, t, h, s);
        RotateNearNephewRight(child, childParent, sibling, c, t);
        c := NearNephewRight(c);
        sibling := FindSibling(child, childParent, c, t);
      }
      T := FinishFarRight(child, childParent, sibling, c, t, h, s);
    }

    method FinishFarRight(child: Node, childParent: Node, sibling: Node, ghost c: Ctx<Node>, ghost t: Tree<Node>,
                          ghost h: nat, ghost s: seq<Node>)
      returns (ghost T: Tree<Node>)
      requires Synced() && Focus(mem, nil, root, c, t, child, childParent)
      requires Short(c, t, h, s) && c.InRight? && !IsRed(c.left) && IsRed(c.left.left)
      requires sibling in mem && sibling == SiblingPtr(mem, c, childParent)
      modifies this`root, this`mem, mem.Keys
      ensures Synced() && mem.Keys == old(mem.Keys)
      ensures Focus(mem, nil, root, Top, T, root, nil) && Good(T, s)
    {
      FarNephewRightDone(c, t, h, s);
      PaintFarNephewRight(child, childParent, sibling, c, t);
      ghost var z := Br(c.color, c.left.left.(color := Black), c.left.elem, c.left.right);
      ghost var c1 := InRight(Black, z, c.elem, c.up);
      FocusUp(mem, nil, root, c1, t, child, childParent);
      ghost var w := Br(Black, z, c.elem, t);
      RotateRight(childParent, c.up, w);
      FocusTop(mem, nil, root, c.up, RotatedRight(w), z.elem, z.elem.parent);
      T := Plug(c.up, FarNephewRight(c, t));
    }

    /** A red sibling is rotated up; then the sibling is black. */
    method MakeSiblingBlack(child: Node, childParent: Node, sibling0: Node, ghost c0: Ctx<Node>, ghost t: Tree<Node>,
                            ghost h: nat, ghost s: seq<Node>)
      returns (sibling: Node, ghost c: Ctx<Node>)
      requires Synced() && Focus(mem, nil, root, c0, t, child, childParent)
      requires Short(c0, t, h, s) && c0 != Top && sibling0 in mem && sibling0 == SiblingPtr(mem, c0, childParent)
      modifies this`root, this`mem, mem.Keys
      ensures Synced() && mem.Keys == old(mem.Keys)
      ensures Focus(mem, nil, root, c, t, child, childParent)
      ensures Short(c, t, h, s) && c != Top && !IsRed(Sibling(c)) && (c == c0 || c.color == Red)
      ensures sibling in mem && sibling == SiblingPtr(mem, c, childParent)
    {
      sibling, c := sibling0, c0;
      SiblingColors(child, childParent, c, t);
      if sibling.color == Red {
        FocusSide(mem, nil, root, c, t, child, childParent);
        if childParent.right == child {
          RedSiblingRightShort(c, t, h, s);
          RotateRedSiblingRight(child, childParent, sibling, c, t);
          c := RedSiblingRight(c);
        } else {
          RedSiblingLeftShort(c, t, h, s);
          RotateRedSiblingLeft(child, childParent, sibling, c, t);
          c := RedSiblingLeft(c);
        }
        sibling := FindSibling(child, childParent, c, t);
      }
    }

    /** The parent's colour, and whether the sibling and its children are all black. */
    method AllBlack(sibling: Node, ghost child: Node, ghost p: Node, ghost c: Ctx<Node>, ghost t: Tree<Node>)
      returns (b: bool)
      requires Synced() && Focus(mem, nil, root, c, t, child, p) && c != Top && Sibling(c).Br?
      requires sibling == SiblingPtr(mem, c, p)
      ensures b == BlackSibling(c)
    {
      SiblingColors(child, p, c, t);
      b := sibling.color == Black && sibling.left.color == Black && sibling.right.color == Black;
    }

    /** One turn of the loop of the delete fixup. */
    method DeleteStep(child0: Node, childParent0: Node, sibling0: Node, ghost c0: Ctx<Node>, ghost t0: Tree<Node>,
                      ghost h0: nat, ghost s: seq<Node>)
      returns (goUp: bool, child: Node, childParent: Node, sibling: Node,
               ghost c: Ctx<Node>, ghost t: Tree<Node>, ghost h: nat)
      requires Synced() && Focus(mem, nil, root, c0, t0, child0, childParent0)
      requires Short(c0, t0, h0, s) && c0 != Top && sibling0 in mem && sibling0 == SiblingPtr(mem, c0, childParent0)
      modifies this`root, this`mem, mem.Keys
      ensures Synced() && mem.Keys == old(mem.Keys)
      ensures Focus(mem, nil, root, c, t, child, childParent) && Short(c, t, h, s)
      ensures c != Top ==> childParent in mem && sibling in mem && sibling == SiblingPtr(mem, c, childParent)
      ensures if goUp then Depth(c) < Depth(c0)
        else c != Top && !IsRed(Sibling(c)) && (c.color == Red || !BlackSibling(c))
    {
      child, childParent, t, h := child0, childParent0, t0, h0;
      sibling, c := MakeSiblingBlack(child, childParent, sibling0, c0, t, h, s);
      goUp := AllBlack(sibling, child, childParent, c, t);
      goUp := childParent.color == Black && goUp;
      if goUp {
        if sibling != nil {
          PaintBeside(sibling, Red, c, t, child, childParent);
        }
        ghost var c1 := WithSibling(c, Sibling(c).(color := Red));
        FocusUp(mem, nil, root, c1, t, child, childParent);
        ShortMovesUp(c, t, h, s);
        t, c, h := ShortUp(c, t), c.up, h + 1;
        child := childParent;
        childParent := childParent.parent;
        sibling := FindSibling(child, childParent, c, t);
      }
    }

    /** What is left to do once the shortage need not go further up. */
    method DeleteEnd(child: Node, childParent: Node, sibling: Node, ghost c: Ctx<Node>, ghost t: Tree<Node>,
                     ghost h: nat, ghost s: seq<Node>)
      returns (ghost T: Tree<Node>)
      requires Synced() && Focus(mem, nil, root, c, t, child, childParent)
      requires Short(c, t, h, s) && c != Top && !IsRed(Sibling(c)) && (c.color == Red || !BlackSibling(c))
      requires sibling in mem && sibling == SiblingPtr(mem, c, childParent)
      modifies this`root, this`mem, mem.Keys
      ensures Synced() && mem.Keys == old(mem.Keys)
      ensures Focus(mem, nil, root, Top, T, root, nil) && Good(T, s)
    {
      var black := AllBlack(sibling, child, childParent, c, t);
      if childParent.color == Red && black {
        if sibling != nil {
          PaintBeside(sibling, Red, c, t, child, childParent);
        }
        ghost var c1 := WithSibling(c, Sibling(c).(color := Red));
        PaintAbove(childParent, Black, c1, t, child);
        ShortRedParent(c, t, h, s);
        FocusTop(mem, nil, root, FrameColored(c1, Black), t, child, childParent);
        T := Plug(FrameColored(c1, Black), t);
        return;
      }
      assert sibling != nil;
      FocusSide(mem, nil, root, c, t, child, childParent);
      if childParent.right == child {
        T := RotateOutRight(child, childParent, sibling, c, t, h, s);
      } else {
        T := RotateOutLeft(child, childParent, sibling, c, t, h, s);
      }
    }

    method DeleteFixup(child0: Node, childParent0: Node, ghost c0: Ctx<Node>, ghost t0: Tree<Node>, ghost h0: nat,
                       ghost s: seq<Node>)
      returns (ghost T: Tree<Node>)
      requires Synced() && Focus(mem, nil, root, c0, t0, child0, childParent0)
      requires Short(c0, t0, h0, s)
      modifies this`root, this`mem, mem.Keys
      ensures Synced() && mem.Keys == old(mem.Keys)
      ensures Focus(mem, nil, root, Top, T, root, nil) && Good(T, s)
    {
      var child, childParent := child0, childParent0;
      ghost var c, t, h := c0, t0, h0;
      var goUp := true;
      var sibling := FindSibling(child, childParent, c, t);
      while goUp
        invariant Synced() && mem.Keys == old(mem.Keys)
        invariant Focus(mem, nil, root, c, t, child, childParent) && Short(c, t, h, s)
        invariant c != Top ==> childParent in mem && sibling in mem && sibling == SiblingPtr(mem, c, childParent)
        invariant !goUp ==> c != Top && !IsRed(Sibling(c)) && (c.color == Red || !BlackSibling(c))
        decreases if goUp then Depth(c) + 1 else 0
      {
        if childParent == nil {
          ShortTop(t, h, s);
          T := t;
          return;
        }
        goUp, child, childParent, sibling, c, t, h := DeleteStep(child, childParent, sibling, c, t, h, s);
      }
      T := DeleteEnd(child, childParent, sibling, c, t, h, s);
    }

    method ChangeParent(parent: Node, was: Node, now: Node)
      requires Synced()
      requires if parent == nil then root == was
        else parent in mem && (parent.left == was || parent.right == was || parent.left == now || parent.right == now)
      modifies this`root, this`mem, if parent == nil then {} else {parent}
      ensures Synced() && mem == ChangeParentPtr(old(mem), parent, was, now)
      ensures root == if parent == nil then now else old(root)
    {
      if parent == nil {
        assert root == was;
        if root == was {
          root := now;
        }
        return;
      }
      assert parent.left == was || parent.right == was || parent.left == now || parent.right == now;
      if parent.left == was {
        SetLeft(parent, now);
      }
      if parent.right == was {
        SetRight(parent, now);
      }
    }

    method ChangeChild(child: Node, was: Node, now: Node)
      requires Synced()
      requires child != nil ==> child in mem && (child.parent == was || child.parent == now)
      modifies this`mem, (if child == nil then {} else {child})`parent
      ensures Synced() && mem == ChangeChildPtr(old(mem), child, was, now)
    {
      if child == nil {
        return;
      }
      assert child.parent == was || child.parent == now;
      if child.parent == was {
        SetParent(child, now);
      }
    }

    method SwapNodeColors(d: Node, s: Node)
      requires Synced() && d in mem && s in mem && d != s
      modifies this`mem, mem.Keys`color
      ensures Synced() && mem == SwapColors(old(mem), d, s)
    {
      var k := d.color;
      SetColor(d, s.color);
      SetColor(s, k);
    }

    /** The pointers to `d` and `s` held by their parents. */
    method SwapParentPointers(d: Node, s: Node)
      requires Synced() && Swappable(mem, nil, d, s) && (d.parent == nil ==> root == d)
      modifies this`root, this`mem, mem.Keys
      ensures Synced() && mem == SwapAbove(old(mem), d, s)
      ensures root == if old(d.parent) == nil then s else old(root)
    {
      ChangeParent(d.parent, d, s);
      if d.right != s {
        ChangeParent(s.parent, s, d);
      }
    }

    /** The parent links of the children of `s` and `d`. */
    method SwapChildPointers(d: Node, s: Node)
      requires Synced() && ChildrenTied(mem, nil, d, s)
      modifies this`mem, mem.Keys`parent
      ensures Synced() && mem == SwapBelow(old(mem), d, s)
    {
      ChangeChild(s.left, s, d);
      ChangeChild(s.left, s, d);
      ChangeChild(s.right, s, d);
      ghost var m4 := mem;
      ChangeChild(s.right, s, d);
      assert mem == m4;
      ChangeChildren(d, s);
    }

    method ChangeChildren(d: Node, s: Node)
      requires Synced() && d in mem && s in mem
      requires d.left in mem && d.left.parent == d && d.left != d && d.left != s && d.left != d.right
      requires d.right != s ==> d.right in mem && d.right.parent == d && d.right != d
      modifies this`mem, mem.Keys`parent
      ensures Synced()
      ensures var m5 := ChangeChildPtr(old(mem), old(mem[d].left), d, s);
        mem == if m5[d].right != s then ChangeChildPtr(m5, m5[d].right, d, s) else m5
    {
      ChangeChild(d.left, d, s);
      if d.right != s {
        ChangeChild(d.right, d, s);
      }
    }

    method SwapParents(d: Node, s: Node)
      requires Synced() && d in mem && s in mem && d != s
      modifies this`mem, d`parent, s`parent
      ensures Synced() && mem == SwapParentLinks(old(mem), d, s)
    {
      var t := d.parent;
      SetParent(d, s.parent);
      SetParent(s, t);
    }

    method SwapLefts(d: Node, s: Node)
      requires Synced() && d in mem && s in mem && d != s
      modifies this`mem, d`left, s`left
      ensures Synced() && mem == SwapLeftLinks(old(mem), d, s)
    {
      var t := d.left;
      SetLeft(d, s.left);
      SetLeft(s, t);
    }

    method SwapRights(d: Node, s: Node)
      requires Synced() && d in mem && s in mem && d != s
      modifies this`mem, d`right, s`right
      ensures Synced() && mem == SwapRightLinks(old(mem), d, s)
    {
      var t := d.right;
      SetRight(d, s.right);
      SetRight(s, t);
    }

    /** The pointers that `d` and `s` hold themselves. */
    method SwapOwnPointers(d: Node, s: Node)
      requires Synced() && d in mem && s in mem && d != s
      modifies this`mem, d`parent, d`left, d`right, s`parent, s`left, s`right
      ensures Synced() && mem == SwapLinks(old(mem), d, s)
    {
      SwapParents(d, s);
      SwapLefts(d, s);
      SwapRights(d, s);
    }

    method TieNeighbours(d: Node, s: Node)
      requires Synced() && d in mem && s in mem && d != s
      modifies this`mem, d`right, s`parent
      ensures Synced() && mem == TieOff(old(mem), d, s)
    {
      if d.right == s {
        SetRight(d, d);
        SetParent(s, s);
      }
    }

    method SwapFromAbove(d: Node, s: Node)
      requires Synced() && CanSwap(mem, nil, d, s) && (d.parent == nil ==> root == d)
      modifies this`root, this`mem, mem.Keys
      ensures Synced() && FirstHalf(old(mem), mem, d, s) && ChildrenTied(mem, nil, d, s)
      ensures root == if old(d.parent) == nil then s else old(root)
    {
      assert Ask(OfShape, 0);
      SwapSteps(mem, nil, d, s);
      SwapNodeColors(d, s);
      SwapParentPointers(d, s);
    }

    method SwapFromBelow(d: Node, s: Node)
      requires Synced() && ChildrenTied(mem, nil, d, s) && d != s
      modifies this`mem, mem.Keys
      ensures Synced() && SecondHalf(old(mem), mem, d, s)
    {
      SwapChildPointers(d, s);
      TieNeighbours(d, s);
      SwapOwnPointers(d, s);
    }

    /** The two nodes change places in the tree; their objects stay what they are. */
    method SwapNodes(d: Node, s: Node, ghost goal: Mem<Node>)
      requires Synced() && CanSwap(mem, nil, d, s) && (d.parent == nil ==> root == d) && SwapsTo(mem, goal, d, s)
      modifies this`root, this`mem, mem.Keys
      ensures Synced() && mem == goal
      ensures root == if old(d.parent) == nil then s else old(root)
    {
      SwapFromAbove(d, s);
      ghost var middle := mem;
      SwapFromBelow(d, s);
      HalvesMeet(old(mem), middle, mem, goal, d, s);
    }

    /** The smallest node of the right subtree of `d`. */
    method FindSuccessor(d: Node, ghost c: Ctx<Node>, ghost t: Tree<Node>)
      returns (s: Node, ghost seg: Ctx<Node>, ghost ts: Tree<Node>)
      requires Synced() && Focus(mem, nil, root, c, t, d, d.parent) && t.Br? && t.right.Br?
      ensures Spine(mem, nil, d, t.right, seg, ts, s) && ts.left == Leaf
    {
      SpineStart(mem, nil, root, c, t, d, d.parent);
      s := d.right;
      seg, ts := Top, t.right;
      while s.left != nil
        invariant Spine(mem, nil, d, t.right, seg, ts, s)
        decreases ts
      {
        SpineStep(mem, nil, d, t.right, seg, ts, s);
        seg, ts := InLeft(ts.color, ts.elem, ts.right, seg), ts.left;
        s := s.left;
      }
    }

    /** A node with two children changes places with its successor, which has one at most. */
    method Relocate(d: Node, ghost c: Ctx<Node>, ghost t: Tree<Node>, ghost all: seq<Node>)
      returns (ghost c': Ctx<Node>, ghost t': Tree<Node>)
      requires Synced() && Focus(mem, nil, root, c, t, d, d.parent) && t.Br? && t.left.Br? && t.right.Br?
      requires Good(Plug(c, t), all)
      modifies this`root, this`mem, mem.Keys
      ensures Synced() && mem.Keys == old(mem.Keys)
      ensures Focus(mem, nil, root, c', t', d, d.parent) && Cut(c', t', Rest(c, t))
    {
      var s;
      ghost var seg, ts;
      s, seg, ts := FindSuccessor(d, c, t);
      SwapFocus(mem, nil, root, c, t, d, d.parent, seg, ts, s);
      CutSwapped(mem, nil, d, c, t, seg, ts, s, all);
      SwapNodes(d, s, SwapMem(mem, d, s));
      c', t' := SwappedCtx(c, t, seg, s), Br(ts.color, Leaf, d, ts.right);
    }

    /** The node, which has one child at most, is replaced by that child. */
    method Unlink(d: Node, ghost c: Ctx<Node>, ghost t: Tree<Node>) returns (child: Node)
      requires Synced() && Focus(mem, nil, root, c, t, d, d.parent) && t.Br? && (t.left == Leaf || t.right == Leaf)
      modifies this`root, this`mem, mem.Keys - {d}
      ensures Synced() && mem.Keys == old(mem.Keys) - {d}
      ensures Focus(mem, nil, root, c, OnlyChild(t), child, d.parent)
    {
      UnlinkFocus(mem, nil, root, c, t, d, d.parent);
      child := if d.left != nil then d.left else d.right;
      ChangeParent(d.parent, d, child);
      ChangeChild(child, d, d.parent);
      mem := mem - {d};
    }

    /** The node gets into a place where it has one child at most. */
    method MakeCut(d: Node, ghost c: Ctx<Node>, ghost t: Tree<Node>, ghost all: seq<Node>)
      returns (ghost c': Ctx<Node>, ghost t': Tree<Node>)
      requires Synced() && Focus(mem, nil, root, c, t, d, d.parent) && t.Br? && Good(Plug(c, t), all)
      modifies this`root, this`mem, mem.Keys
      ensures Synced() && mem.Keys == old(mem.Keys)
      ensures Focus(mem, nil, root, c', t', d, d.parent) && Cut(c', t', Rest(c, t))
    {
      c', t' := c, t;
      ChildColors(mem, nil, root, c, t, d, d.parent);
      if d.left != nil && d.right != nil {
        c', t' := Relocate(d, c, t, all);
      } else {
        CutPlain(c, t, all);
      }
    }

    /** `d`, a node of the tree, is taken out of it. */
    method DeleteNode(d: Node, ghost c: Ctx<Node>, ghost t: Tree<Node>, ghost all: seq<Node>)
      returns (ghost T: Tree<Node>)
      requires Synced() && Focus(mem, nil, root, c, t, d, d.parent) && t.Br? && Good(Plug(c, t), all)
      modifies this`root, this`mem, mem.Keys
      ensures Synced() && mem.Keys == old(mem.Keys) - {d} && d in old(mem)
      ensures Focus(mem, nil, root, Top, T, root, nil) && Good(T, Rest(c, t))
      ensures d.parent == d.left == d.right == nil && d.color == Black
    {
      ghost var c1, t1 := MakeCut(d, c, t, all);
      T := RemoveCut(d, c1, t1, Rest(c, t));
    }

    method RemoveCut(d: Node, ghost c: Ctx<Node>, ghost t: Tree<Node>, ghost s: seq<Node>) returns (ghost T: Tree<Node>)
      requires Synced() && Focus(mem, nil, root, c, t, d, d.parent) && Cut(c, t, s)
      modifies this`root, this`mem, mem.Keys
      ensures Synced() && mem.Keys == old(mem.Keys) - {d}
      ensures Focus(mem, nil, root, Top, T, root, nil) && Good(T, s)
      ensures d.parent == d.left == d.right == nil && d.color == Black
    {
      T := DeleteCut(d, c, t, s);
      ClearLinks(d);
    }

    method ClearLinks(d: Node)
      requires Synced() && d !in mem && d != nil
      modifies d
      ensures Synced()
      ensures d.parent == d.left == d.right == nil && d.color == Black
    {
      d.parent := nil;
      d.left := nil;
      d.right := nil;
      d.color := Black;
    }

    method DeleteCut(d: Node, ghost c: Ctx<Node>, ghost t: Tree<Node>, ghost s: seq<Node>) returns (ghost T: Tree<Node>)
      requires Synced() && Focus(mem, nil, root, c, t, d, d.parent) && Cut(c, t, s)
      modifies this`root, this`mem, mem.Keys - {d}
      ensures Synced() && mem.Keys == old(mem.Keys) - {d}
      ensures Focus(mem, nil, root, Top, T, root, nil) && Good(T, s)
    {
      CutCases(c, t, s);
      var child := Unlink(d, c, t);
      if d.color == Red {
        FocusTop(mem, nil, root, c, OnlyChild(t), child, d.parent);
        T := Plug(c, OnlyChild(t));
      } else {
        T := DeleteBlack(child, d.parent, c, OnlyChild(t), s);
      }
    }

    /** A black node is gone from above `child`. */
    method DeleteBlack(child: Node, childParent: Node, ghost c: Ctx<Node>, ghost t: Tree<Node>, ghost s: seq<Node>)
      returns (ghost T: Tree<Node>)
      requires Synced() && Focus(mem, nil, root, c, t, child, childParent)
      requires if IsRed(t) then Good(Plug(c, Blacken(t)), s) else Short(c, t, BlackHeight(t), s)
      modifies this`root, this`mem, mem.Keys
      ensures Synced() && mem.Keys == old(mem.Keys)
      ensures Focus(mem, nil, root, Top, T, root, nil) && Good(T, s)
    {
      if child.color == Red {
        PaintChild(child, childParent, c, t);
        T := Plug(c, Blacken(t));
      } else {
        T := DeleteFixup(child, childParent, c, t, BlackHeight(t), s);
      }
    }

    method PaintChild(child: Node, ghost p: Node, ghost c: Ctx<Node>, ghost t: Tree<Node>)
      requires Synced() && Focus(mem, nil, root, c, t, child, p)
      modifies this`mem, (if child == nil then {} else {child})`color
      ensures Synced() && mem.Keys == old(mem.Keys)
      ensures Focus(mem, nil, root, Top, Plug(c, Blacken(t)), root, nil)
    {
      if child != nil {
        PaintFocus(mem, nil, root, c, t, child, p, Black);
        SetColor(child, Black);
      }
      FocusTop(mem, nil, root, c, Blacken(t), child, p);
    }

    /** The node with the greatest key not above `key`, and whether it has that very key. */
    method FindLessEqual(key: string) returns (exact: bool, result: Node?, ghost steps: nat)
      requires Valid()
      ensures exact ==> result != null && result in mem && result.key == key
      ensures !exact ==> forall n :: n in mem ==> n.key != key
      ensures !exact && result == null ==> forall n :: n in mem ==> Lt(key, n.key)
      ensures !exact && result != null ==> result in mem && Lt(result.key, key)
      ensures !exact && result != null ==>
        forall n :: n in mem ==> n == result || Lt(n.key, result.key) || Lt(key, n.key)
      ensures Pow2(steps) <= (count + 1) * (count + 1)
    {
      var node := root;
      result, steps := null, 0;
      ghost var c, t := Top, tree;
      while node != nil
        invariant Focus(mem, nil, root, c, t, node, if c == Top then nil else c.elem) && Plug(c, t) == tree
        invariant AllBelow(Before(c), key) && AllAbove(key, After(c))
        invariant if Before(c) == [] then result == null else result == FloorOf(Before(c))
        invariant steps + Height(t) <= Height(tree)
        decreases t
      {
        steps := steps + 1;
        var r := Strcmp(key, node.key);
        StepDown(key, c, t, node);
        if r == 0 {
          StepsBound(steps);
          return true, node, steps;
        }
        if r < 0 {
          FocusLeft(mem, nil, root, c, t, node, if c == Top then nil else c.elem);
          node := node.left;
          c, t := InLeft(t.color, t.elem, t.right, c), t.left;
        } else {
          FocusRight(mem, nil, root, c, t, node, if c == Top then nil else c.elem);
          result := node;
          node := node.right;
          c, t := InRight(t.color, t.left, t.elem, c), t.right;
        }
      }
      exact := false;
      StepsBound(steps);
      FloorFacts(key, c);
    }

    lemma FloorFacts(key: string, c: Ctx<Node>)
      requires Valid() && Plug(c, Leaf) == tree && AllBelow(Before(c), key) && AllAbove(key, After(c))
      ensures forall n :: n in mem ==> n.key != key
      ensures Before(c) == [] ==> forall n :: n in mem ==> Lt(key, n.key)
      ensures Before(c) != [] ==> FloorOf(Before(c)) in mem
      ensures Before(c) != [] ==> forall n :: n in mem ==>
        n == FloorOf(Before(c)) || Lt(n.key, FloorOf(Before(c)).key) || Lt(key, n.key)
    {
      assert Ask(OfShape, 0);
      PlugInorder(c, Leaf);
      FocusKeys(mem, nil, root, tree, nodes);
      AbsentKey(mem.Keys, Before(c), After(c), key);
      FloorIs(mem.Keys, Before(c), After(c), key);
    }

    method Search(key: string) returns (node: Node?)
      requires Valid()
      ensures node != null ==> node in mem && node.key == key
      ensures node == null ==> forall n :: n in mem ==> n.key != key
    {
      var exact, found;
      ghost var steps;
      exact, found, steps := FindLessEqual(key);
      if exact {
        node := found;
      } else {
        node := null;
      }
    }

    /** Takes the node with key `key` out of the tree and returns it, or changes nothing. */
    method Delete(key: string) returns (d: Node?, ghost at: nat)
      requires Valid()
      modifies this, mem.Keys
      ensures Valid()
      ensures d == null ==>
        && (forall n :: n in mem ==> n.key != key)
        && unchanged(this) && forall n :: n in mem ==> unchanged(n)
      ensures d != null ==>
        && d in old(mem) && d.key == key
        && mem.Keys == old(mem.Keys) - {d} && count == old(count) - 1
        && at < |old(nodes)| && old(nodes)[at] == d && nodes == old(nodes)[..at] + old(nodes)[at + 1..]
        && d.parent == d.left == d.right == nil && d.color == Black
    {
      at := 0;
      d := Search(key);
      if d == null {
        return;
      }
      at := DeleteFound(d);
    }

    method DeleteFound(d: Node) returns (ghost at: nat)
      requires Valid() && d in mem
      modifies this, mem.Keys
      ensures Valid()
      ensures mem.Keys == old(mem.Keys) - {d} && count == old(count) - 1
      ensures at < |old(nodes)| && old(nodes)[at] == d && nodes == old(nodes)[..at] + old(nodes)[at + 1..]
      ensures d.parent == d.left == d.right == nil && d.color == Black
    {
      ghost var c, t;
      c, t, at := LocateNode(d);
      count := count - 1;
      ghost var rest := Rest(c, t);
      ghost var T := DeleteNode(d, c, t, nodes);
      Commit(T, rest);
    }

    ghost method LocateNode(d: Node) returns (c: Ctx<Node>, t: Tree<Node>, at: nat)
      requires Valid() && d in mem
      ensures t.Br? && Focus(mem, nil, root, c, t, d, d.parent) && Plug(c, t) == tree
      ensures at < |nodes| && nodes[at] == d && Rest(c, t) == nodes[..at] + nodes[at + 1..]
      ensures forall u :: Ask(OfShape, u) ==> Sorted(Rest(c, t))
      ensures at == |Before(c)| + |Inorder(t.left)|
    {
      assert Ask(OfShape, 0);
      c, t := Locate(mem, nil, root, Top, tree, root, nil, d);
      RestOf(c, t, nodes);
      at := |Before(c)| + |Inorder(t.left)|;
      SortedWithout(nodes, at);
    }

    // ---------- walking in key order ----------

    lemma NodeIn(at: nat)
      requires Valid() && at < |nodes|
      ensures nodes[at] in mem && mem.Keys == set n | n in nodes
    {
      FocusKeys(mem, nil, root, tree, nodes);
    }

    lemma NodesOf()
      requires Valid()
      ensures mem.Keys == (set n | n in nodes) && (mem == map[] ==> count == 0)
    {
      FocusKeys(mem, nil, root, tree, nodes);
      assert nodes != [] ==> nodes[0] in mem;
    }

    lemma SamePlace(i: nat, j: nat)
      requires Valid() && i < |nodes| && j < |nodes| && nodes[i] == nodes[j]
      ensures i == j
    {
      assert Ask(OfShape, 0);
      StrcmpZero(nodes[i].key, nodes[j].key);
    }

    /** Different nodes have different keys. */
    lemma KeysApart(key: string)
      requires Valid()
      ensures forall m, n :: m in mem && n in mem && m.key == key && n.key == key ==> m == n
    {
      assert Ask(OfShape, 0);
      NodesOf();
      forall m, n | m in mem && n in mem && m.key == key && n.key == key ensures m == n {
        var i :| 0 <= i < |nodes| && nodes[i] == m;
        var j :| 0 <= j < |nodes| && nodes[j] == n;
        StrcmpZero(key, key);
      }
    }

    lemma KeysDiffer(i: nat, j: nat)
      requires Valid() && i < j < |nodes|
      ensures nodes[i].key != nodes[j].key
    {
      assert Ask(OfShape, 0);
      StrcmpZero(nodes[i].key, nodes[j].key);
    }

    lemma RootParent()
      requires Valid()
      ensures root.parent == nil
    {
    }

    method First() returns (node: Node)
      requires Valid()
      ensures node == if |nodes| > 0 then nodes[0] else nil
    {
      Spot(Top, tree, tree, nodes);
      RootParent();
      node := LeftmostFrom(root, Top, tree);
    }

    method Last() returns (node: Node)
      requires Valid()
      ensures node == if |nodes| > 0 then nodes[|nodes| - 1] else nil
    {
      Spot(Top, tree, tree, nodes);
      RootParent();
      node := RightmostFrom(root, Top, tree);
    }

    /** The node after `node` in key order, or the sentinel. */
    method Next(node0: Node, ghost at: nat) returns (node: Node)
      requires Valid() && at < |nodes| && nodes[at] == node0
      ensures node == if at + 1 < |nodes| then nodes[at + 1] else nil
    {
      ghost var c, t, at';
      NodeIn(at);
      c, t, at' := LocateNode(node0);
      SamePlace(at, at');
      Spot(c, t, tree, nodes);
      if node0.right != nil {
        FocusRight(mem, nil, root, c, t, node0, node0.parent);
        node := LeftmostFrom(node0.right, InRight(t.color, t.left, t.elem, c), t.right);
      } else {
        FocusRight(mem, nil, root, c, t, node0, node0.parent);
        node := ClimbLeft(node0, c, t);
      }
    }

    /** From `node0` on, left children until there is none. */
    method LeftmostFrom(node0: Node, ghost c0: Ctx<Node>, ghost t0: Tree<Node>) returns (node: Node)
      requires Valid() && Focus(mem, nil, root, c0, t0, node0, node0.parent) && Plug(c0, t0) == tree
      ensures if t0 == Leaf then node == nil else |Before(c0)| < |nodes| && node == nodes[|Before(c0)|]
    {
      node := node0;
      ghost var c, t := c0, t0;
      Spot(c, t, tree, nodes);
      if t.Br? {
        ChildColors(mem, nil, root, c, t, node, node.parent);
      }
      while node.left != nil
        invariant Focus(mem, nil, root, c, t, node, node.parent) && Plug(c, t) == tree
        invariant t.Br? == t0.Br? && Before(c) == Before(c0)
        invariant t.Br? ==> (t.left == Leaf <==> node.left == nil)
        decreases t
      {
        FocusLeft(mem, nil, root, c, t, node, node.parent);
        node := node.left;
        c, t := InLeft(t.color, t.elem, t.right, c), t.left;
        ChildColors(mem, nil, root, c, t, node, node.parent);
      }
      Spot(c, t, tree, nodes);
    }

    /** From `node0` up to the first parent of which it is not the right child. */
    method ClimbLeft(node0: Node, ghost c0: Ctx<Node>, ghost t0: Tree<Node>) returns (parent: Node)
      requires Valid() && Focus(mem, nil, root, c0, t0, node0, node0.parent) && t0.Br? && Plug(c0, t0) == tree
      ensures var at := |Before(c0)| + |Inorder(t0)|;
        parent == if at < |nodes| then nodes[at] else nil
    {
      var node := node0;
      parent := node.parent;
      ghost var c, t := c0, t0;
      if c != Top { FocusSide(mem, nil, root, c, t, node, parent); }
      while parent != nil && node == parent.right
        invariant Focus(mem, nil, root, c, t, node, parent) && t.Br? && Plug(c, t) == tree
        invariant |Before(c)| + |Inorder(t)| == |Before(c0)| + |Inorder(t0)|
        invariant c != Top ==> (c.InRight? <==> node == parent.right)
        decreases c
      {
        FocusUp(mem, nil, root, c, t, node, parent);
        Spot(c, t, tree, nodes);
        node := parent;
        parent := parent.parent;
        c, t := c.up, Wrap(c, t);
        if c != Top { FocusSide(mem, nil, root, c, t, node, parent); }
      }
      Spot(c, t, tree, nodes);
    }

    /** The node before `node` in key order, or the sentinel. */
    method Previous(node0: Node, ghost at: nat) returns (node: Node)
      requires Valid() && at < |nodes| && nodes[at] == node0
      ensures node == if at > 0 then nodes[at - 1] else nil
    {
      ghost var c, t, at';
      NodeIn(at);
      c, t, at' := LocateNode(node0);
      SamePlace(at, at');
      Spot(c, t, tree, nodes);
      FocusLeft(mem, nil, root, c, t, node0, node0.parent);
      if node0.left != nil {
        node := RightmostFrom(node0.left, InLeft(t.color, t.elem, t.right, c), t.left);
      } else {
        node := ClimbRight(node0, c, t);
      }
    }

    /** From `node0` on, right children until there is none. */
    method RightmostFrom(node0: Node, ghost c0: Ctx<Node>, ghost t0: Tree<Node>) returns (node: Node)
      requires Valid() && Focus(mem, nil, root, c0, t0, node0, node0.parent) && Plug(c0, t0) == tree
      ensures var at := |Before(c0)| + |Inorder(t0)|;
        if t0 == Leaf then node == nil else 0 < at <= |nodes| && node == nodes[at - 1]
    {
      node := node0;
      ghost var c, t := c0, t0;
      Spot(c, t, tree, nodes);
      if t.Br? {
        ChildColors(mem, nil, root, c, t, node, node.parent);
      }
      while node.right != nil
        invariant Focus(mem, nil, root, c, t, node, node.parent) && Plug(c, t) == tree
        invariant t.Br? == t0.Br? && |Before(c)| + |Inorder(t)| == |Before(c0)| + |Inorder(t0)|
        invariant t.Br? ==> (t.right == Leaf <==> node.right == nil)
        decreases t
      {
        Spot(c, t, tree, nodes);
        FocusRight(mem, nil, root, c, t, node, node.parent);
        node := node.right;
        c, t := InRight(t.color, t.left, t.elem, c), t.right;
        ChildColors(mem, nil, root, c, t, node, node.parent);
      }
      Spot(c, t, tree, nodes);
    }

    /** From `node0` up to the first parent of which it is not the left child. */
    method ClimbRight(node0: Node, ghost c0: Ctx<Node>, ghost t0: Tree<Node>) returns (parent: Node)
      requires Valid() && Focus(mem, nil, root, c0, t0, node0, node0.parent) && t0.Br? && Plug(c0, t0) == tree
      ensures |Before(c0)| <= |nodes|
      ensures parent == if |Before(c0)| > 0 then nodes[|Before(c0)| - 1] else nil
    {
      var node := node0;
      parent := node.parent;
      ghost var c, t := c0, t0;
      if c != Top { FocusSide(mem, nil, root, c, t, node, parent); }
      while parent != nil && node == parent.left
        invariant Focus(mem, nil, root, c, t, node, parent) && t.Br? && Plug(c, t) == tree
        invariant Before(c) == Before(c0)
        invariant c != Top ==> (c.InLeft? <==> node == parent.left)
        decreases c
      {
        FocusUp(mem, nil, root, c, t, node, parent);
        Spot(c, t, tree, nodes);
        node := parent;
        parent := parent.parent;
        c, t := c.up, Wrap(c, t);
        if c != Top { FocusSide(mem, nil, root, c, t, node, parent); }
      }
      Spot(c, t, tree, nodes);
    }
  }
}
