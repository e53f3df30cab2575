/** What the links of a set of nodes say, as a value: a map from each node to its links.
    The class in RedBlackTree.dfy keeps such a map equal to the fields of its node objects;
    here trees and contexts are read off it, and the effect of a rotation is worked out. */
module RedBlackMemory {
  import opened RedBlackAlgebra
  import opened Sealing

  datatype Links<N> = Links(parent: N, left: N, right: N, color: Color)

  type Mem<N(==)> = map<N, Links<N>>

  /** Below `x`, whose parent is `p`, the links spell out `t`. */
  predicate Rep<N(==)>(m: Mem<N>, nil: N, t: Tree<N>, x: N, p: N)
    ensures Rep(m, nil, t, x, p) ==>
      if t == Leaf then x == nil
      else x == t.elem && x != nil && x in Elems(t) && x in m && m[x].parent == p && m[x].color == t.color
  {
    match t
    case Leaf => x == nil
    case Br(k, l, e, r) =>
      && x == e && e != nil && e in m
      && m[e].parent == p && m[e].color == k
      && Rep(m, nil, l, m[e].left, e)
      && Rep(m, nil, r, m[e].right, e)
  }

  /** Above a hole the links spell out `c`: the hole's pointer holds `x`, its parent is `p`,
      and the topmost node is `top` with parent `q`. */
  predicate RepCtx<N(==)>(m: Mem<N>, nil: N, c: Ctx<N>, x: N, p: N, top: N, q: N)
    ensures RepCtx(m, nil, c, x, p, top, q) ==>
      if c == Top then x == top && p == q
      else p == c.elem && p != nil && p in CtxElems(c) && p in m && m[p].color == c.color && top in CtxElems(c)
    decreases c
  {
    match c
    case Top => x == top && p == q
    case InLeft(k, e, r, up) =>
      && p == e && e != nil && e in m
      && m[e].left == x && m[e].color == k
      && Rep(m, nil, r, m[e].right, e)
      && RepCtx(m, nil, up, e, m[e].parent, top, q)
    case InRight(k, l, e, up) =>
      && p == e && e != nil && e in m
      && m[e].right == x && m[e].color == k
      && Rep(m, nil, l, m[e].left, e)
      && RepCtx(m, nil, up, e, m[e].parent, top, q)
  }

  predicate SameOn<N(==)>(m: Mem<N>, m': Mem<N>, s: set<N>) {
    forall e :: e in s && e in m ==> e in m' && m'[e] == m[e]
  }

  lemma {:induction false} RepFrame<N>(m: Mem<N>, m': Mem<N>, nil: N, t: Tree<N>, x: N, p: N)
    requires Rep(m, nil, t, x, p) && SameOn(m, m', Elems(t))
    ensures Rep(m', nil, t, x, p)
  {
    match t
    case Leaf =>
    case Br(_, l, e, r) =>
      RepFrame(m, m', nil, l, m[e].left, e);
      RepFrame(m, m', nil, r, m[e].right, e);
  }

  lemma {:induction false} RepCtxFrame<N>(m: Mem<N>, m': Mem<N>, nil: N, c: Ctx<N>, x: N, p: N, top: N, q: N)
    requires RepCtx(m, nil, c, x, p, top, q) && SameOn(m, m', CtxElems(c))
    ensures RepCtx(m', nil, c, x, p, top, q)
    decreases c
  {
    match c
    case Top =>
    case InLeft(_, e, s, up) =>
      RepFrame(m, m', nil, s, m[e].right, e);
      RepCtxFrame(m, m', nil, up, e, m[e].parent, top, q);
    case InRight(_, s, e, up) =>
      RepFrame(m, m', nil, s, m[e].left, e);
      RepCtxFrame(m, m', nil, up, e, m[e].parent, top, q);
  }

  lemma {:induction false} RepAppend<N>(m: Mem<N>, nil: N, inner: Ctx<N>, outer: Ctx<N>,
                                        x: N, p: N, mid: N, r: N, top: N, q: N)
    requires RepCtx(m, nil, inner, x, p, mid, r) && RepCtx(m, nil, outer, mid, r, top, q)
    ensures RepCtx(m, nil, Append(inner, outer), x, p, top, q)
    decreases inner
  {
    if inner != Top {
      RepAppend(m, nil, inner.up, outer, p, m[p].parent, mid, r, top, q);
    }
  }

  /** Only the parent link of the topmost node changes. */
  lemma RepAdopt<N>(m: Mem<N>, m': Mem<N>, nil: N, t: Tree<N>, x: N, p: N, p': N)
    requires Rep(m, nil, t, x, p) && Unique(t)
    requires SameOn(m, m', Elems(t) - {x})
    requires x != nil ==> x in m && x in m' && m'[x] == m[x].(parent := p')
    ensures Rep(m', nil, t, x, p')
  {
    if t.Br? {
      RepFrame(m, m', nil, t.left, m[x].left, x);
      RepFrame(m, m', nil, t.right, m[x].right, x);
    }
  }

  /** The links with the link of `p` to `x` leading to `x'`. */
  function Relinked<N(==)>(m: Mem<N>, p: N, x: N, x': N): Mem<N> {
    if p !in m then m
    else if m[p].left == x then m[p := m[p].(left := x')]
    else m[p := m[p].(right := x')]
  }

  lemma RepRelink<N>(m: Mem<N>, m': Mem<N>, nil: N, c: Ctx<N>, x: N, p: N, x': N, root: N)
    requires RepCtx(m, nil, c, x, p, root, nil) && CtxUnique(c) && nil !in m
    requires x != nil && x !in CtxElems(c)
    requires SameOn(Relinked(m, p, x, x'), m', CtxElems(c))
    ensures RepCtx(m', nil, c, x', p, if p == nil then x' else root, nil)
  {
    if c != Top {
      assert p == c.elem;
      var y := if c.InLeft? then m[p].right else m[p].left;
      assert y != nil ==> y == Sibling(c).elem;
      RepFrame(m, m', nil, Sibling(c), y, p);
      RepCtxFrame(m, m', nil, c.up, p, m[p].parent, root, nil);
    }
  }

  /** The links are those of `t` in the hole of `c`, and nothing else. */
  ghost predicate Linked<N>(m: Mem<N>, nil: N, root: N, c: Ctx<N>, t: Tree<N>, x: N, p: N) {
    forall u :: Ask(OfShape, u) ==>
      && m.Keys == Elems(t) + CtxElems(c)
      && Rep(m, nil, t, x, p) && RepCtx(m, nil, c, x, p, root, nil)
      && Unique(t) && CtxUnique(c) && Elems(t) !! CtxElems(c)
  }

  /** The focus is at subtree `t` below context `c`; `x` is its node and `p` its parent. */
  ghost predicate Focus<N>(m: Mem<N>, nil: N, root: N, c: Ctx<N>, t: Tree<N>, x: N, p: N) {
    && nil !in m
    && (if t == Leaf then x == nil else x == t.elem && x in m && m[x].parent == p && m[x].color == t.color)
    && (if c == Top then x == root && p == nil
        else p == c.elem && p in m && m[p].color == c.color && root in m && x != root && x != p
             && x == if c.InLeft? then m[p].left else m[p].right)
    && Linked(m, nil, root, c, t, x, p)
  }

  /** Which side of its parent the focus is on can be told by comparing pointers. */
  lemma FocusSide<N>(m: Mem<N>, nil: N, root: N, c: Ctx<N>, t: Tree<N>, x: N, p: N)
    requires Focus(m, nil, root, c, t, x, p) && c != Top
    requires t.Br? || Sibling(c).Br?
    ensures p in m
    ensures if c.InLeft? then m[p].left == x && m[p].right != x else m[p].right == x && m[p].left != x
  {
    assert Ask(OfShape, 0);
    var y := if c.InLeft? then m[p].right else m[p].left;
    assert Rep(m, nil, Sibling(c), y, p);
    assert y != nil ==> y in Elems(Sibling(c));
  }

  predicate CanRotateLeft<N(==)>(m: Mem<N>, nil: N, x: N) {
    && nil !in m && x in m && m[x].right in m
    && var y, p := m[x].right, m[x].parent;
    && var z := m[y].left;
    && (z == nil || z in m)
    && (p == nil || (p in m && (m[p].left == x <==> m[p].right != x)))
    && x != y && x != z && y != z && p != x && p != y && (p == z ==> p == nil)
  }

  /** The links after the first half of the assignments of a left rotation at `x`. */
  function BeginLeftMem<N(==)>(m: Mem<N>, nil: N, x: N): (m': Mem<N>)
    requires CanRotateLeft(m, nil, x)
    ensures m'.Keys == m.Keys
  {
    var y := m[x].right;
    var z := m[y].left;
    var m1 := m[x := m[x].(right := z)];
    var m2 := if z in m1 then m1[z := m1[z].(parent := x)] else m1;
    m2[y := m2[y].(parent := m2[x].parent)]
  }

  lemma BeginLeftKeeps<N>(m: Mem<N>, nil: N, x: N)
    requires CanRotateLeft(m, nil, x)
    ensures var (m', p) := (BeginLeftMem(m, nil, x), m[x].parent);
      && m'[x].parent == p && (p in m ==> m'[p].left == m[p].left && m'[p].right == m[p].right)
  {
  }

  /** The second half: `y` takes the place of `x`, and `x` goes below it. */
  function EndLeftMem<N(==)>(m: Mem<N>, x: N, y: N): (m': Mem<N>)
    requires x in m && y in m
    ensures m'.Keys == m.Keys
  {
    var m1 := Relinked(m, m[x].parent, x, y);
    var m2 := m1[y := m1[y].(left := x)];
    m2[x := m2[x].(parent := y)]
  }

  /** The links after the assignments of a left rotation at `x`. */
  function RotateLeftMem<N(==)>(m: Mem<N>, nil: N, x: N): (m': Mem<N>)
    requires CanRotateLeft(m, nil, x)
    ensures m'.Keys == m.Keys
  {
    EndLeftMem(BeginLeftMem(m, nil, x), x, m[x].right)
  }

  lemma RotateLeftEffect<N>(m: Mem<N>, nil: N, x: N)
    requires CanRotateLeft(m, nil, x)
    ensures var m', y, p := RotateLeftMem(m, nil, x), m[x].right, m[x].parent; var z := m[y].left;
      && m'.Keys == m.Keys
      && m'[x] == m[x].(parent := y, right := z)
      && m'[y] == m[y].(parent := p, left := x)
      && (z in m ==> m'[z] == m[z].(parent := x))
      && (p in m ==> m'[p] == Relinked(m, p, x, y)[p])
      && forall e :: e in m && e != x && e != y && e != z && e != p ==> m'[e] == m[e]
  {
  }

  lemma RotateLeftRep<N>(m: Mem<N>, m': Mem<N>, nil: N, t: Tree<N>, x: N, p: N)
    requires Rep(m, nil, t, x, p) && t.Br? && t.right.Br? && Unique(t) && m'.Keys == m.Keys && nil !in m
    requires var y := m[x].right;
      && m'[x] == m[x].(parent := y, right := m[y].left)
      && m'[y] == m[y].(parent := p, left := x)
      && (m[y].left in m ==> m'[m[y].left] == m[m[y].left].(parent := x))
      && SameOn(m, m', Elems(t) - {x, y, m[y].left})
    ensures Rep(m', nil, RotatedLeft(t), m[x].right, p)
  {
    var Br(k, a, _, Br(k', b, _, d)) := t;
    RotatedLeftUnique(t);
    var y := m[x].right;
    assert Rep(m, nil, t.right, y, x);
    RepFrame(m, m', nil, a, m[x].left, x);
    RepAdopt(m, m', nil, b, m[y].left, y, x);
    RepFrame(m, m', nil, d, m[y].right, y);
  }

  lemma RotateLeftCan<N>(m: Mem<N>, nil: N, root: N, c: Ctx<N>, t: Tree<N>, x: N, p: N)
    requires Focus(m, nil, root, c, t, x, p) && t.Br? && t.right.Br?
    ensures CanRotateLeft(m, nil, x) && Unique(t) && Elems(t) !! CtxElems(c)
    ensures m[x].right in Elems(t) && (m[m[x].right].left in m ==> m[m[x].right].left in Elems(t))
    ensures p != nil ==> p in CtxElems(c)
  {
    assert Ask(OfShape, 0);
    RotatedLeftUnique(t);
    assert Rep(m, nil, t.right, m[x].right, x);
    assert Rep(m, nil, t.right.left, m[m[x].right].left, m[x].right);
    if c != Top { FocusSide(m, nil, root, c, t, x, p); }
  }

  lemma RotateLeftFocus<N>(m: Mem<N>, nil: N, root: N, c: Ctx<N>, t: Tree<N>, x: N, p: N)
    requires Focus(m, nil, root, c, t, x, p) && t.Br? && t.right.Br?
    ensures CanRotateLeft(m, nil, x)
    ensures var y := m[x].right;
      Focus(RotateLeftMem(m, nil, x), nil, if p == nil then y else root, c, RotatedLeft(t), y, p)
  {
    assert Ask(OfShape, 0);
    RotateLeftCan(m, nil, root, c, t, x, p);
    RotateLeftEffect(m, nil, x);
    RotatedLeftUnique(t);
    RotateLeftRep(m, RotateLeftMem(m, nil, x), nil, t, x, p);
    RepRelink(m, RotateLeftMem(m, nil, x), nil, c, x, p, m[x].right, root);
  }

  predicate CanRotateRight<N(==)>(m: Mem<N>, nil: N, x: N) {
    && nil !in m && x in m && m[x].left in m
    && var y, p := m[x].left, m[x].parent;
    && var z := m[y].right;
    && (z == nil || z in m)
    && (p == nil || (p in m && (m[p].right == x <==> m[p].left != x)))
    && x != y && x != z && y != z && p != x && p != y && (p == z ==> p == nil)
  }

  /** The links after the first half of the assignments of a right rotation at `x`. */
  function BeginRightMem<N(==)>(m: Mem<N>, nil: N, x: N): (m': Mem<N>)
    requires CanRotateRight(m, nil, x)
    ensures m'.Keys == m.Keys
  {
    var y := m[x].left;
    var z := m[y].right;
    var m1 := m[x := m[x].(left := z)];
    var m2 := if z in m1 then m1[z := m1[z].(parent := x)] else m1;
    m2[y := m2[y].(parent := m2[x].parent)]
  }

  lemma BeginRightKeeps<N>(m: Mem<N>, nil: N, x: N)
    requires CanRotateRight(m, nil, x)
    ensures var (m', p) := (BeginRightMem(m, nil, x), m[x].parent);
      && m'[x].parent == p && (p in m ==> m'[p].left == m[p].left && m'[p].right == m[p].right)
  {
  }

  /** The second half: `y` takes the place of `x`, and `x` goes below it. */
  function EndRightMem<N(==)>(m: Mem<N>, x: N, y: N): (m': Mem<N>)
    requires x in m && y in m
    ensures m'.Keys == m.Keys
  {
    var m1 := Relinked(m, m[x].parent, x, y);
    var m2 := m1[y := m1[y].(right := x)];
    m2[x := m2[x].(parent := y)]
  }

  /** The links after the assignments of a right rotation at `x`. */
  function RotateRightMem<N(==)>(m: Mem<N>, nil: N, x: N): (m': Mem<N>)
    requires CanRotateRight(m, nil, x)
    ensures m'.Keys == m.Keys
  {
    EndRightMem(BeginRightMem(m, nil, x), x, m[x].left)
  }

  lemma RotateRightEffect<N>(m: Mem<N>, nil: N, x: N)
    requires CanRotateRight(m, nil, x)
    ensures var m', y, p := RotateRightMem(m, nil, x), m[x].left, m[x].parent; var z := m[y].right;
      && m'.Keys == m.Keys
      && m'[x] == m[x].(parent := y, left := z)
      && m'[y] == m[y].(parent := p, right := x)
      && (z in m ==> m'[z] == m[z].(parent := x))
      && (p in m ==> m'[p] == Relinked(m, p, x, y)[p])
      && forall e :: e in m && e != x && e != y && e != z && e != p ==> m'[e] == m[e]
  {
  }

  lemma RotateRightRep<N>(m: Mem<N>, m': Mem<N>, nil: N, t: Tree<N>, x: N, p: N)
    requires Rep(m, nil, t, x, p) && t.Br? && t.left.Br? && Unique(t) && m'.Keys == m.Keys && nil !in m
    requires var y := m[x].left;
      && m'[x] == m[x].(parent := y, left := m[y].right)
      && m'[y] == m[y].(parent := p, right := x)
      && (m[y].right in m ==> m'[m[y].right] == m[m[y].right].(parent := x))
      && SameOn(m, m', Elems(t) - {x, y, m[y].right})
    ensures Rep(m', nil, RotatedRight(t), m[x].left, p)
  {
    var Br(k, Br(k', d, _, b), _, a) := t;
    RotatedRightUnique(t);
    var y := m[x].left;
    assert Rep(m, nil, t.left, y, x);
    RepFrame(m, m', nil, a, m[x].right, x);
    RepAdopt(m, m', nil, b, m[y].right, y, x);
    RepFrame(m, m', nil, d, m[y].left, y);
  }

  lemma RotateRightCan<N>(m: Mem<N>, nil: N, root: N, c: Ctx<N>, t: Tree<N>, x: N, p: N)
    requires Focus(m, nil, root, c, t, x, p) && t.Br? && t.left.Br?
    ensures CanRotateRight(m, nil, x) && Unique(t) && Elems(t) !! CtxElems(c)
    ensures m[x].left in Elems(t) && (m[m[x].left].right in m ==> m[m[x].left].right in Elems(t))
    ensures p != nil ==> p in CtxElems(c)
  {
    assert Ask(OfShape, 0);
    RotatedRightUnique(t);
    assert Rep(m, nil, t.left, m[x].left, x);
    assert Rep(m, nil, t.left.right, m[m[x].left].right, m[x].left);
    if c != Top { FocusSide(m, nil, root, c, t, x, p); }
  }

  lemma RotateRightFocus<N>(m: Mem<N>, nil: N, root: N, c: Ctx<N>, t: Tree<N>, x: N, p: N)
    requires Focus(m, nil, root, c, t, x, p) && t.Br? && t.left.Br?
    ensures CanRotateRight(m, nil, x)
    ensures var y := m[x].left;
      Focus(RotateRightMem(m, nil, x), nil, if p == nil then y else root, c, RotatedRight(t), y, p)
  {
    assert Ask(OfShape, 0);
    RotateRightCan(m, nil, root, c, t, x, p);
    RotateRightEffect(m, nil, x);
    RotatedRightUnique(t);
    RotateRightRep(m, RotateRightMem(m, nil, x), nil, t, x, p);
    RepRelink(m, RotateRightMem(m, nil, x), nil, c, x, p, m[x].left, root);
  }
  // ---------- moving and painting the focus ----------

  lemma FocusUp<N>(m: Mem<N>, nil: N, root: N, c: Ctx<N>, t: Tree<N>, x: N, p: N)
    requires Focus(m, nil, root, c, t, x, p) && c != Top
    ensures p in m && Focus(m, nil, root, c.up, Wrap(c, t), p, m[p].parent)
  {
    assert Ask(OfShape, 0);
    assert RepCtx(m, nil, c.up, p, m[p].parent, root, nil);
  }

  lemma FocusLeft<N>(m: Mem<N>, nil: N, root: N, c: Ctx<N>, t: Tree<N>, x: N, p: N)
    requires Focus(m, nil, root, c, t, x, p) && t.Br?
    ensures x in m && Focus(m, nil, root, InLeft(t.color, t.elem, t.right, c), t.left, m[x].left, x)
  {
    assert Ask(OfShape, 0);
  }

  lemma FocusRight<N>(m: Mem<N>, nil: N, root: N, c: Ctx<N>, t: Tree<N>, x: N, p: N)
    requires Focus(m, nil, root, c, t, x, p) && t.Br?
    ensures x in m && Focus(m, nil, root, InRight(t.color, t.left, t.elem, c), t.right, m[x].right, x)
  {
    assert Ask(OfShape, 0);
  }

  function Painted<N(==)>(m: Mem<N>, x: N, k: Color): Mem<N>
    requires x in m
  {
    m[x := m[x].(color := k)]
  }

  lemma PaintFocus<N>(m: Mem<N>, nil: N, root: N, c: Ctx<N>, t: Tree<N>, x: N, p: N, k: Color)
    requires Focus(m, nil, root, c, t, x, p) && t.Br?
    ensures x in m && Focus(Painted(m, x, k), nil, root, c, t.(color := k), x, p)
  {
    assert Ask(OfShape, 0);
    var m' := Painted(m, x, k);
    RepFrame(m, m', nil, t.left, m[x].left, x);
    RepFrame(m, m', nil, t.right, m[x].right, x);
    RepCtxFrame(m, m', nil, c, x, p, root, nil);
  }

  /** The pointer beside the hole. */
  function SiblingPtr<N(==)>(m: Mem<N>, c: Ctx<N>, p: N): N
    requires p in m
  {
    if c.InLeft? then m[p].right else m[p].left
  }

  function WithSibling<N>(c: Ctx<N>, s: Tree<N>): Ctx<N>
    requires c != Top
  {
    if c.InLeft? then c.(right := s) else c.(left := s)
  }

  /** The focus on the subtree beside the hole. */
  function Beside<N>(c: Ctx<N>, t: Tree<N>): Ctx<N>
    requires c != Top
  {
    if c.InLeft? then InRight(c.color, t, c.elem, c.up) else InLeft(c.color, c.elem, t, c.up)
  }

  lemma FocusBeside<N>(m: Mem<N>, nil: N, root: N, c: Ctx<N>, t: Tree<N>, x: N, p: N)
    requires Focus(m, nil, root, c, t, x, p) && c != Top
    ensures p in m && Focus(m, nil, root, Beside(c, t), Sibling(c), SiblingPtr(m, c, p), p)
  {
    assert Ask(OfShape, 0);
    var y := if c.InLeft? then m[p].right else m[p].left;
    assert Rep(m, nil, Sibling(c), y, p);
  }

  lemma PaintSibling<N>(m: Mem<N>, nil: N, root: N, c: Ctx<N>, t: Tree<N>, x: N, p: N, k: Color)
    requires Focus(m, nil, root, c, t, x, p) && c != Top && Sibling(c).Br?
    ensures p in m && SiblingPtr(m, c, p) in m && SiblingPtr(m, c, p) != p
    ensures Focus(Painted(m, SiblingPtr(m, c, p), k), nil, root, WithSibling(c, Sibling(c).(color := k)), t, x, p)
  {
    FocusBeside(m, nil, root, c, t, x, p);
    var b, s := Beside(c, t), SiblingPtr(m, c, p);
    PaintFocus(m, nil, root, b, Sibling(c), s, p, k);
    FocusBeside(Painted(m, s, k), nil, root, b, Sibling(c).(color := k), s, p);
  }

  lemma PaintParent<N>(m: Mem<N>, nil: N, root: N, c: Ctx<N>, t: Tree<N>, x: N, p: N, k: Color)
    requires Focus(m, nil, root, c, t, x, p) && c != Top
    ensures p in m && Focus(Painted(m, p, k), nil, root, FrameColored(c, k), t, x, p)
  {
    FocusUp(m, nil, root, c, t, x, p);
    PaintFocus(m, nil, root, c.up, Wrap(c, t), p, m[p].parent, k);
    if c.InLeft? {
      FocusLeft(Painted(m, p, k), nil, root, c.up, Wrap(c, t).(color := k), p, m[p].parent);
    } else {
      FocusRight(Painted(m, p, k), nil, root, c.up, Wrap(c, t).(color := k), p, m[p].parent);
    }
  }

  /** The colours read through the pointers of the focus are the colours of its subtrees;
      the sentinel counts as black. */
  lemma ChildColors<N>(m: Mem<N>, nil: N, root: N, c: Ctx<N>, t: Tree<N>, x: N, p: N)
    requires Focus(m, nil, root, c, t, x, p) && t.Br?
    ensures if t.left == Leaf then m[x].left == nil else m[x].left in m && m[m[x].left].color == t.left.color
    ensures if t.right == Leaf then m[x].right == nil else m[x].right in m && m[m[x].right].color == t.right.color
  {
    FocusLeft(m, nil, root, c, t, x, p);
    FocusRight(m, nil, root, c, t, x, p);
  }

  lemma {:induction false} FocusTop<N>(m: Mem<N>, nil: N, root: N, c: Ctx<N>, t: Tree<N>, x: N, p: N)
    requires Focus(m, nil, root, c, t, x, p)
    ensures Focus(m, nil, root, Top, Plug(c, t), root, nil)
    decreases c
  {
    if c != Top {
      FocusUp(m, nil, root, c, t, x, p);
      FocusTop(m, nil, root, c.up, Wrap(c, t), p, m[p].parent);
    }
  }

  /** The focus on a given node. */
  lemma {:induction false} Locate<N>(m: Mem<N>, nil: N, root: N, c0: Ctx<N>, t0: Tree<N>, x: N, p: N, d: N)
    returns (c: Ctx<N>, t: Tree<N>)
    requires Focus(m, nil, root, c0, t0, x, p) && d in Elems(t0)
    ensures t.Br? && t.elem == d && d in m && Plug(c, t) == Plug(c0, t0)
    ensures Focus(m, nil, root, c, t, d, m[d].parent)
    decreases t0
  {
    if d == t0.elem {
      c, t := c0, t0;
    } else if d in Elems(t0.left) {
      FocusLeft(m, nil, root, c0, t0, x, p);
      c, t := Locate(m, nil, root, InLeft(t0.color, t0.elem, t0.right, c0), t0.left, m[x].left, x, d);
    } else {
      FocusRight(m, nil, root, c0, t0, x, p);
      c, t := Locate(m, nil, root, InRight(t0.color, t0.left, t0.elem, c0), t0.right, m[x].right, x, d);
    }
  }

  /** A new red leaf `d` goes into the empty hole under `p`. */
  lemma AttachFocus<N>(m: Mem<N>, m': Mem<N>, nil: N, root: N, c: Ctx<N>, p: N, d: N)
    requires Focus(m, nil, root, c, Leaf, nil, p) && d !in m && d != nil
    requires m'.Keys == m.Keys + {d} && m'[d] == Links(p, nil, nil, Red)
    requires c != Top ==> m'[p] == if c.InLeft? then m[p].(left := d) else m[p].(right := d)
    requires forall e :: e in m && e != p ==> m'[e] == m[e]
    ensures Focus(m', nil, if c == Top then d else root, c, Br(Red, Leaf, d, Leaf), d, p)
  {
    assert Ask(OfShape, 0);
    assert Rep(m', nil, Br(Red, Leaf, d, Leaf), d, p);
    if c != Top {
      RepFrame(m, m', nil, Sibling(c), SiblingPtr(m, c, p), p);
      RepCtxFrame(m, m', nil, c.up, p, m[p].parent, root, nil);
    }
  }
}
