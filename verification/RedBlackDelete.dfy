/** Deletion from a red-black tree by moving node objects: the node to delete and its in-order
    successor change places, links and colours, and then the node is unlinked. */
module RedBlackDelete {
  import opened RedBlackAlgebra
  import opened RedBlackMemory
  import opened RedBlackFixup
  import opened Sealing

  // ---------- pieces of contexts ----------

  lemma {:induction false} AppendOrder<T>(inner: Ctx<T>, outer: Ctx<T>)
    ensures Before(Append(inner, outer)) == Before(outer) + Before(inner)
    ensures After(Append(inner, outer)) == After(inner) + After(outer)
  {
    match inner
    case Top =>
    case InLeft(_, e, r, up) =>
      AppendOrder(up, outer);
      assert [e] + Inorder(r) + (After(up) + After(outer)) == ([e] + Inorder(r) + After(up)) + After(outer);
    case InRight(_, l, e, up) =>
      AppendOrder(up, outer);
      assert (Before(outer) + Before(up)) + Inorder(l) + [e] == Before(outer) + (Before(up) + Inorder(l) + [e]);
  }

  lemma {:induction false} AppendUnique<T>(inner: Ctx<T>, outer: Ctx<T>)
    requires CtxUnique(inner) && CtxUnique(outer) && CtxElems(inner) !! CtxElems(outer)
    ensures CtxUnique(Append(inner, outer))
  {
    if inner != Top {
      AppendUnique(inner.up, outer);
      AppendElems(inner.up, outer);
    }
  }

  /** The laws do not look at the elements. */
  lemma {:induction false} AppendRB<T>(inner: Ctx<T>, k: Color, l: Tree<T>, d: T, s: T, outer: Ctx<T>, h: nat)
    requires CtxRB(Append(inner, InRight(k, l, d, outer)), h)
    ensures CtxRB(Append(inner, InRight(k, l, s, outer)), h)
    decreases inner
  {
    if inner != Top {
      AppendRB(inner.up, k, l, d, s, outer, if inner.color == Red then h else h + 1);
    }
  }

  // ---------- the links after the two nodes have changed places ----------

  function ChangeParentPtr<N(==)>(m: Mem<N>, p: N, was: N, now: N): (m': Mem<N>)
    ensures m'.Keys == m.Keys
  {
    if p !in m then m
    else
      var m1 := if m[p].left == was then m[p := m[p].(left := now)] else m;
      if m1[p].right == was then m1[p := m1[p].(right := now)] else m1
  }

  function ChangeChildPtr<N(==)>(m: Mem<N>, ch: N, was: N, now: N): (m': Mem<N>)
    ensures m'.Keys == m.Keys
  {
    if ch in m && m[ch].parent == was then m[ch := m[ch].(parent := now)] else m
  }

  function SwapColors<N(==)>(m: Mem<N>, d: N, s: N): (m': Mem<N>)
    requires d in m && s in m
    ensures m'.Keys == m.Keys
  {
    Painted(Painted(m, d, m[s].color), s, m[d].color)
  }

  /** The pointers to the two nodes held by their parents are exchanged. */
  function SwapAbove<N(==)>(m: Mem<N>, d: N, s: N): (m': Mem<N>)
    requires d in m && s in m
    ensures m'.Keys == m.Keys
  {
    var m2 := ChangeParentPtr(m, m[d].parent, d, s);
    if m2[d].right != s then ChangeParentPtr(m2, m2[s].parent, s, d) else m2
  }

  /** The pointers to the two nodes held by their children are exchanged. */
  function SwapBelow<N(==)>(m: Mem<N>, d: N, s: N): (m': Mem<N>)
    requires d in m && s in m
    ensures m'.Keys == m.Keys
  {
    var m4 := ChangeChildPtr(m, m[s].right, s, d);
    var m5 := ChangeChildPtr(m4, m4[d].left, d, s);
    if m5[d].right != s then ChangeChildPtr(m5, m5[d].right, d, s) else m5
  }

  function SwapParentLinks<N(==)>(m: Mem<N>, d: N, s: N): (m': Mem<N>)
    requires d in m && s in m
    ensures m'.Keys == m.Keys
  {
    m[d := m[d].(parent := m[s].parent)][s := m[s].(parent := m[d].parent)]
  }

  function SwapLeftLinks<N(==)>(m: Mem<N>, d: N, s: N): (m': Mem<N>)
    requires d in m && s in m
    ensures m'.Keys == m.Keys
  {
    m[d := m[d].(left := m[s].left)][s := m[s].(left := m[d].left)]
  }

  function SwapRightLinks<N(==)>(m: Mem<N>, d: N, s: N): (m': Mem<N>)
    requires d in m && s in m
    ensures m'.Keys == m.Keys
  {
    m[d := m[d].(right := m[s].right)][s := m[s].(right := m[d].right)]
  }

  /** The links of the two nodes themselves are exchanged; the colours stay. */
  function SwapLinks<N(==)>(m: Mem<N>, d: N, s: N): (m': Mem<N>)
    requires d in m && s in m
    ensures m'.Keys == m.Keys
  {
    SwapRightLinks(SwapLeftLinks(SwapParentLinks(m, d, s), d, s), d, s)
  }

  /** If the two nodes are neighbours, each points at itself before the links are exchanged. */
  function TieOff<N(==)>(m: Mem<N>, d: N, s: N): (m': Mem<N>)
    requires d in m && s in m
    ensures m'.Keys == m.Keys
  {
    if m[d].right == s then m[d := m[d].(right := d)][s := m[s].(parent := s)] else m
  }

  function SwapMem<N(==)>(m: Mem<N>, d: N, s: N): (m': Mem<N>)
    requires d in m && s in m
    ensures m'.Keys == m.Keys
  {
    SwapLinks(TieOff(SwapBelow(SwapAbove(SwapColors(m, d, s), d, s), d, s), d, s), d, s)
  }

  /** `s` is the leftmost node below `d`, on the right; both children of `d` are there. */
  predicate Swappable<N(==)>(m: Mem<N>, nil: N, d: N, s: N) {
    && nil !in m && d in m && s in m && d != s
    && m[d].left in m && m[d].right in m && m[d].left != s && m[d].left != d && m[d].right != d
    && m[m[d].left].parent == d && m[m[d].right].parent == d
    && m[s].left == nil
    && (m[s].right == nil || (m[s].right in m && m[m[s].right].parent == s && m[s].right != d && m[s].right != s))
    && (m[d].parent == nil || (m[d].parent in m && m[d].parent != d && m[d].parent != s && m[d].parent != m[s].parent
        && (m[m[d].parent].left == d <==> m[m[d].parent].right != d)))
    && m[d].left != m[d].right && m[d].left != m[s].right && m[d].left != m[s].parent && m[d].left != m[d].parent
    && m[s].right != m[d].right && (m[s].right != nil ==> m[s].right != m[s].parent && m[s].right != m[d].parent)
    && m[d].right != m[d].parent
    && (if m[d].right == s then m[s].parent == d
        else m[s].parent in m && m[s].parent != d && m[s].parent != s
             && m[m[s].parent].left == s && m[m[s].parent].right != s)
  }

  ghost predicate CanSwap<N>(m: Mem<N>, nil: N, d: N, s: N) {
    && d in m && s in m && d != s && m[d].left in m && m[d].right in m && (m[d].right != s ==> m[s].parent in m)
    && forall u :: Ask(OfShape, u) ==> Swappable(m, nil, d, s)
  }

  /** The two halves of the swap lead from `m` to `m1` and from `m1` to `m2`. */
  ghost predicate FirstHalf<N>(m: Mem<N>, m1: Mem<N>, d: N, s: N) {
    d in m && s in m && m1.Keys == m.Keys && forall u :: Ask(OfStep, u) ==> m1 == SwapAbove(SwapColors(m, d, s), d, s)
  }

  ghost predicate SecondHalf<N>(m1: Mem<N>, m2: Mem<N>, d: N, s: N) {
    && d in m1 && s in m1
    && forall u :: Ask(OfStep, u) ==> m2 == SwapLinks(TieOff(SwapBelow(m1, d, s), d, s), d, s)
  }

  ghost predicate SwapsTo<N>(m: Mem<N>, goal: Mem<N>, d: N, s: N) {
    d in m && s in m && forall u :: Ask(OfStep, u) ==> goal == SwapMem(m, d, s)
  }

  lemma HalvesMeet<N>(m: Mem<N>, m1: Mem<N>, m2: Mem<N>, goal: Mem<N>, d: N, s: N)
    requires FirstHalf(m, m1, d, s) && SecondHalf(m1, m2, d, s) && SwapsTo(m, goal, d, s)
    ensures m2 == goal
  {
    assert Ask(OfStep, 0);
  }

  /** The parent links of the children of `d` and `s` still lead to `d` and `s`. */
  predicate ChildrenTied<N(==)>(m: Mem<N>, nil: N, d: N, s: N) {
    && nil !in m && d in m && s in m && m[s].left == nil
    && (m[s].right != nil ==> m[s].right in m && m[m[s].right].parent == s && m[s].right != d && m[s].right != s)
    && m[d].left in m && m[m[d].left].parent == d && m[d].left != s && m[d].left != d
    && m[d].left != m[s].right && m[d].left != m[d].right
    && (m[d].right != s ==> m[d].right in m && m[m[d].right].parent == d && m[d].right != d && m[d].right != m[s].right)
  }

  lemma SwapSteps<N>(m: Mem<N>, nil: N, d: N, s: N)
    requires Swappable(m, nil, d, s)
    ensures var m1 := SwapColors(m, d, s); Swappable(m1, nil, d, s) && ChildrenTied(SwapAbove(m1, d, s), nil, d, s)
    ensures SwapColors(m, d, s)[d].parent == m[d].parent
  {
  }

  lemma SwapOuterEffect<N>(m: Mem<N>, nil: N, d: N, s: N)
    requires Swappable(m, nil, d, s)
    ensures var m' := SwapBelow(SwapAbove(m, d, s), d, s);
      var p, q, l, r, z := m[d].parent, m[s].parent, m[d].left, m[d].right, m[s].right;
      && m'[l] == m[l].(parent := s)
      && (z in m ==> m'[z] == m[z].(parent := d))
      && (p in m ==> m'[p] == Relinked(m, p, d, s)[p])
      && (r == s ==> m'[d] == m[d] && m'[s] == m[s])
      && (r != s ==> m'[d] == m[d] && m'[s] == m[s])
      && (r != s ==> m'[q] == (if q == r then m[q].(left := d, parent := s) else m[q].(left := d)))
      && (r != s && q != r ==> m'[r] == m[r].(parent := s))
      && forall e :: e in m && e != d && e != s && e != l && e != z && e != p && e != q && e != r ==> m'[e] == m[e]
  {
  }

  lemma SwapEffect<N>(m: Mem<N>, nil: N, d: N, s: N)
    requires CanSwap(m, nil, d, s)
    ensures var m', p, q, l, r, z := SwapMem(m, d, s), m[d].parent, m[s].parent, m[d].left, m[d].right, m[s].right;
      && m'[d] == Links(if r == s then s else q, nil, z, m[s].color)
      && m'[s] == Links(p, l, if r == s then d else r, m[d].color)
      && m'[l] == m[l].(parent := s)
      && (z in m ==> m'[z] == m[z].(parent := d))
      && (p in m ==> m'[p] == Relinked(m, p, d, s)[p])
      && (r != s ==> m'[q] == (if q == r then m[q].(left := d, parent := s) else m[q].(left := d)))
      && (r != s && q != r ==> m'[r] == m[r].(parent := s))
      && forall e :: e in m && e != d && e != s && e != l && e != z && e != p && e != q && e != r ==> m'[e] == m[e]
  {
    assert Ask(OfShape, 0);
    var m1 := SwapColors(m, d, s);
    assert forall e :: e in m && e != d && e != s ==> m1[e] == m[e];
    SwapOuterEffect(m1, nil, d, s);
  }

  /** Nothing changes away from `d`, `s` and the nodes around them. */
  lemma SwapKeeps<N>(m: Mem<N>, nil: N, d: N, s: N, rest: set<N>)
    requires CanSwap(m, nil, d, s)
    requires rest !! {d, s, m[d].left, m[d].right, m[d].parent, m[s].parent, m[s].right}
    ensures SameOn(m, SwapMem(m, d, s), rest)
  {
    SwapEffect(m, nil, d, s);
  }

  /** Above `d` only the link to it changes. */
  lemma SwapKeepsAbove<N>(m: Mem<N>, nil: N, d: N, s: N, rest: set<N>)
    requires CanSwap(m, nil, d, s) && rest <= m.Keys
    requires rest !! {d, s, m[d].left, m[d].right, m[s].parent, m[s].right}
    ensures SameOn(Relinked(m, m[d].parent, d, s), SwapMem(m, d, s), rest)
  {
    SwapEffect(m, nil, d, s);
  }

  // ---------- the walk to the successor ----------

  predicate LeftSpine<T>(c: Ctx<T>) {
    c != Top ==> c.InLeft? && LeftSpine(c.up)
  }

  /** `x` is reached from the right child of `d` by going left; `r` is the right subtree of `d`
      and `ts` what is left of it below `x`. */
  ghost predicate Spine<N>(m: Mem<N>, nil: N, d: N, r: Tree<N>, seg: Ctx<N>, ts: Tree<N>, x: N) {
    && nil !in m && d in m && ts.Br? && x == ts.elem && x in m
    && (if ts.left == Leaf then m[x].left == nil else m[x].left in m && m[x].left == ts.left.elem)
    && forall u :: Ask(OfShape, u) ==>
         && RepCtx(m, nil, seg, x, m[x].parent, m[d].right, d) && Rep(m, nil, ts, x, m[x].parent)
         && Plug(seg, ts) == r && LeftSpine(seg) && Unique(r)
  }

  lemma SpineStart<N>(m: Mem<N>, nil: N, root: N, c: Ctx<N>, t: Tree<N>, d: N, p: N)
    requires Focus(m, nil, root, c, t, d, p) && t.Br? && t.right.Br?
    ensures Spine(m, nil, d, t.right, Top, t.right, m[d].right)
  {
    assert Ask(OfShape, 0);
    assert Rep(m, nil, t.right, m[d].right, d);
  }

  lemma SpineStep<N>(m: Mem<N>, nil: N, d: N, r: Tree<N>, seg: Ctx<N>, ts: Tree<N>, x: N)
    requires Spine(m, nil, d, r, seg, ts, x) && ts.left.Br?
    ensures Spine(m, nil, d, r, InLeft(ts.color, ts.elem, ts.right, seg), ts.left, m[x].left)
  {
    assert Ask(OfShape, 0);
    assert Rep(m, nil, ts.left, m[x].left, x);
  }

  /** Where the nodes around `d` and its successor `s` are. */
  lemma SpinePlaces<N>(m: Mem<N>, nil: N, root: N, c: Ctx<N>, t: Tree<N>, d: N, p: N, seg: Ctx<N>, ts: Tree<N>, s: N)
    requires Focus(m, nil, root, c, t, d, p) && t.Br? && t.left.Br? && t.right.Br?
    requires Spine(m, nil, d, t.right, seg, ts, s) && ts.left == Leaf
    ensures Rep(m, nil, t.left, m[d].left, d) && Rep(m, nil, ts.right, m[s].right, s) && m[s].color == ts.color
    ensures Elems(t.right) == CtxElems(seg) + {s} + Elems(ts.right)
    ensures Unique(t.left) && Unique(ts.right) && CtxUnique(seg) && CtxElems(seg) !! Elems(ts.right)
    ensures s !in CtxElems(seg) && s !in Elems(ts.right)
    ensures d !in Elems(t.left) && d !in Elems(t.right) && Elems(t.left) !! Elems(t.right)
    ensures CtxElems(c) !! Elems(t.left) && CtxElems(c) !! Elems(t.right) && d !in CtxElems(c)
    ensures m[d].left in Elems(t.left) && m[m[d].left].parent == d
    ensures m[d].right in m && m[m[d].right].parent == d
    ensures if seg == Top then m[d].right == s && m[s].parent == d
            else m[d].right in CtxElems(seg) && m[s].parent in CtxElems(seg) && seg.InLeft?
    ensures m[s].right != nil ==> m[s].right in Elems(ts.right) && m[m[s].right].parent == s
    ensures p != nil ==> p in CtxElems(c)
    ensures m.Keys == Elems(t.left) + {d} + Elems(t.right) + CtxElems(c)
  {
    assert Ask(OfShape, 0);
    PlugElems(seg, ts);
    UnplugUnique(seg, ts);
    assert Rep(m, nil, t.left, m[d].left, d);
    assert Rep(m, nil, t.right, m[d].right, d);
    assert Rep(m, nil, ts.right, m[s].right, s);
  }

  /** The node beside the hole differs from what the hole's pointer holds. */
  lemma HoleSide<N>(m: Mem<N>, nil: N, c: Ctx<N>, x: N, p: N, top: N, q: N)
    requires RepCtx(m, nil, c, x, p, top, q) && c.InLeft? && x != nil && x !in CtxElems(c)
    ensures p in m && m[p].left == x && m[p].right != x
  {
    assert Rep(m, nil, c.right, m[p].right, p);
  }

  lemma SpineSwappable<N>(m: Mem<N>, nil: N, root: N, c: Ctx<N>, t: Tree<N>, d: N, p: N, seg: Ctx<N>, ts: Tree<N>, s: N)
    requires Focus(m, nil, root, c, t, d, p) && t.Br? && t.left.Br? && t.right.Br?
    requires Spine(m, nil, d, t.right, seg, ts, s) && ts.left == Leaf
    ensures CanSwap(m, nil, d, s)
  {
    SpinePlaces(m, nil, root, c, t, d, p, seg, ts, s);
    if c != Top {
      FocusSide(m, nil, root, c, t, d, p);
    }
    assert RepCtx(m, nil, seg, s, m[s].parent, m[d].right, d) by { assert Ask(OfShape, 0); }
    if seg != Top {
      HoleSide(m, nil, seg, s, m[s].parent, m[d].right, d);
    }
  }

  /** Only the parent link of the topmost node of a context changes. */
  lemma {:induction false} CtxAdopt<N>(m: Mem<N>, m': Mem<N>, nil: N, c: Ctx<N>, x: N, p: N, top: N, q: N, q': N)
    requires RepCtx(m, nil, c, x, p, top, q) && c != Top && CtxUnique(c)
    requires SameOn(m, m', CtxElems(c) - {top})
    requires top in m && top in m' && m'[top] == m[top].(parent := q')
    ensures RepCtx(m', nil, c, x, p, top, q')
    decreases c
  {
    var y := SiblingPtr(m, c, p);
    assert Rep(m, nil, Sibling(c), y, p);
    if c.up == Top {
      RepFrame(m, m', nil, Sibling(c), y, p);
    } else {
      RepFrame(m, m', nil, Sibling(c), y, p);
      CtxAdopt(m, m', nil, c.up, p, m[p].parent, top, q, q');
    }
  }

  /** The hole's pointer changes, and the parent link of the topmost node. */
  lemma SegmentMoved<N>(m: Mem<N>, m': Mem<N>, nil: N, c: Ctx<N>, x: N, p: N, x': N, top: N, q: N, q': N)
    requires RepCtx(m, nil, c, x, p, top, q) && c.InLeft? && CtxUnique(c)
    requires CtxElems(c) <= m.Keys && CtxElems(c) <= m'.Keys
    requires m'[p] == if p == top then m[p].(left := x', parent := q') else m[p].(left := x')
    requires p != top ==> m'[top] == m[top].(parent := q')
    requires forall e :: e in CtxElems(c) && e in m && e != p && e != top ==> m'[e] == m[e]
    ensures RepCtx(m', nil, c, x', p, top, q')
  {
    var m1 := m[p := m[p].(left := x')];
    RepFrame(m, m1, nil, c.right, m[p].right, p);
    RepCtxFrame(m, m1, nil, c.up, p, m[p].parent, top, q);
    CtxAdopt(m1, m', nil, c, x', p, top, q, q');
  }

  /** The focus after `d` and `s` have changed places. */
  function SwappedCtx<N>(c: Ctx<N>, t: Tree<N>, seg: Ctx<N>, s: N): Ctx<N>
    requires t.Br?
  {
    Append(seg, InRight(t.color, t.left, s, c))
  }

  /** What stays as it was. */
  lemma SwappedSame<N>(m: Mem<N>, nil: N, root: N, c: Ctx<N>, t: Tree<N>, d: N, p: N, seg: Ctx<N>, ts: Tree<N>, s: N)
    requires Focus(m, nil, root, c, t, d, p) && t.Br? && t.left.Br? && t.right.Br?
    requires Spine(m, nil, d, t.right, seg, ts, s) && ts.left == Leaf && CanSwap(m, nil, d, s)
    ensures SameOn(m, SwapMem(m, d, s), Elems(t.left) - {m[d].left})
  {
    SpinePlaces(m, nil, root, c, t, d, p, seg, ts, s);
    SwapKeeps(m, nil, d, s, Elems(t.left) - {m[d].left});
  }

  lemma SwappedSameRight<N>(m: Mem<N>, nil: N, root: N, c: Ctx<N>, t: Tree<N>, d: N, p: N, seg: Ctx<N>, ts: Tree<N>,
                            s: N)
    requires Focus(m, nil, root, c, t, d, p) && t.Br? && t.left.Br? && t.right.Br?
    requires Spine(m, nil, d, t.right, seg, ts, s) && ts.left == Leaf && CanSwap(m, nil, d, s)
    ensures SameOn(m, SwapMem(m, d, s), Elems(ts.right) - {m[s].right})
  {
    SpinePlaces(m, nil, root, c, t, d, p, seg, ts, s);
    SwapKeeps(m, nil, d, s, Elems(ts.right) - {m[s].right});
  }

  lemma SwappedSameAbove<N>(m: Mem<N>, nil: N, root: N, c: Ctx<N>, t: Tree<N>, d: N, p: N, seg: Ctx<N>, ts: Tree<N>,
                            s: N)
    requires Focus(m, nil, root, c, t, d, p) && t.Br? && t.left.Br? && t.right.Br?
    requires Spine(m, nil, d, t.right, seg, ts, s) && ts.left == Leaf && CanSwap(m, nil, d, s)
    ensures SameOn(Relinked(m, p, d, s), SwapMem(m, d, s), CtxElems(c))
  {
    SpinePlaces(m, nil, root, c, t, d, p, seg, ts, s);
    SwapKeepsAbove(m, nil, d, s, CtxElems(c));
  }

  lemma SwappedBelow<N>(m: Mem<N>, nil: N, root: N, c: Ctx<N>, t: Tree<N>, d: N, p: N, seg: Ctx<N>, ts: Tree<N>, s: N)
    requires Focus(m, nil, root, c, t, d, p) && t.Br? && t.left.Br? && t.right.Br?
    requires Spine(m, nil, d, t.right, seg, ts, s) && ts.left == Leaf && CanSwap(m, nil, d, s)
    ensures var m' := SwapMem(m, d, s);
      && Rep(m', nil, t.left, m'[s].left, s) && m'[s].color == t.color && m'[s].parent == p
      && Rep(m', nil, Br(ts.color, Leaf, d, ts.right), d, m'[d].parent)
  {
    SwappedSame(m, nil, root, c, t, d, p, seg, ts, s);
    SwappedSameRight(m, nil, root, c, t, d, p, seg, ts, s);
    SwapEffect(m, nil, d, s);
    var m' := SwapMem(m, d, s);
    assert Rep(m, nil, t.left, m[d].left, d) && Unique(t.left) by { assert Ask(OfShape, 0); }
    assert Rep(m, nil, ts.right, m[s].right, s) && Unique(ts.right) && m[s].color == ts.color by {
      SpinePlaces(m, nil, root, c, t, d, p, seg, ts, s);
    }
    RepAdopt(m, m', nil, t.left, m[d].left, d, s);
    RepAdopt(m, m', nil, ts.right, m[s].right, s, d);
  }

  lemma SwappedAbove<N>(m: Mem<N>, nil: N, root: N, c: Ctx<N>, t: Tree<N>, d: N, p: N, seg: Ctx<N>, ts: Tree<N>, s: N)
    requires Focus(m, nil, root, c, t, d, p) && t.Br? && t.left.Br? && t.right.Br?
    requires Spine(m, nil, d, t.right, seg, ts, s) && ts.left == Leaf && CanSwap(m, nil, d, s)
    ensures RepCtx(SwapMem(m, d, s), nil, c, s, p, if p == nil then s else root, nil)
  {
    SwappedSameAbove(m, nil, root, c, t, d, p, seg, ts, s);
    assert RepCtx(m, nil, c, d, p, root, nil) && CtxUnique(c) && d !in CtxElems(c) by { assert Ask(OfShape, 0); }
    RepRelink(m, SwapMem(m, d, s), nil, c, d, p, s, root);
  }

  lemma SwappedSegment<N>(m: Mem<N>, nil: N, root: N, c: Ctx<N>, t: Tree<N>, d: N, p: N, seg: Ctx<N>, ts: Tree<N>, s: N)
    requires Focus(m, nil, root, c, t, d, p) && t.Br? && t.left.Br? && t.right.Br?
    requires Spine(m, nil, d, t.right, seg, ts, s) && ts.left == Leaf && CanSwap(m, nil, d, s)
    ensures var m' := SwapMem(m, d, s);
      RepCtx(m', nil, seg, d, m'[d].parent, m'[s].right, s)
  {
    SpinePlaces(m, nil, root, c, t, d, p, seg, ts, s);
    SwapEffect(m, nil, d, s);
    assert RepCtx(m, nil, seg, s, m[s].parent, m[d].right, d) by { assert Ask(OfShape, 0); }
    if seg != Top {
      SegmentMoved(m, SwapMem(m, d, s), nil, seg, s, m[s].parent, d, m[d].right, d, s);
    }
  }

  lemma SwapFocus<N>(m: Mem<N>, nil: N, root: N, c: Ctx<N>, t: Tree<N>, d: N, p: N, seg: Ctx<N>, ts: Tree<N>, s: N)
    requires Focus(m, nil, root, c, t, d, p) && t.Br? && t.left.Br? && t.right.Br?
    requires Spine(m, nil, d, t.right, seg, ts, s) && ts.left == Leaf
    ensures CanSwap(m, nil, d, s)
    ensures var m', root' := SwapMem(m, d, s), if p == nil then s else root;
      Focus(m', nil, root', SwappedCtx(c, t, seg, s), Br(ts.color, Leaf, d, ts.right), d, m'[d].parent)
  {
    SpineSwappable(m, nil, root, c, t, d, p, seg, ts, s);
    SwappedBelow(m, nil, root, c, t, d, p, seg, ts, s);
    SwappedAbove(m, nil, root, c, t, d, p, seg, ts, s);
    SwappedSegment(m, nil, root, c, t, d, p, seg, ts, s);
    var m', outer := SwapMem(m, d, s), InRight(t.color, t.left, s, c);
    RepAppend(m', nil, seg, outer, d, m'[d].parent, m'[s].right, s, if p == nil then s else root, nil);
    SwappedUnique(m, nil, root, c, t, d, p, seg, ts, s);
    assert SwappedCtx(c, t, seg, s) != Top;
  }

  lemma SwappedUnique<N>(m: Mem<N>, nil: N, root: N, c: Ctx<N>, t: Tree<N>, d: N, p: N, seg: Ctx<N>, ts: Tree<N>, s: N)
    requires Focus(m, nil, root, c, t, d, p) && t.Br? && t.left.Br? && t.right.Br?
    requires Spine(m, nil, d, t.right, seg, ts, s) && ts.left == Leaf
    ensures var c', t' := SwappedCtx(c, t, seg, s), Br(ts.color, Leaf, d, ts.right);
      Unique(t') && CtxUnique(c') && Elems(t') !! CtxElems(c') && m.Keys == Elems(t') + CtxElems(c')
  {
    SpinePlaces(m, nil, root, c, t, d, p, seg, ts, s);
    var outer := InRight(t.color, t.left, s, c);
    assert CtxUnique(c) by { assert Ask(OfShape, 0); }
    AppendUnique(seg, outer);
    AppendElems(seg, outer);
  }

  // ---------- unlinking ----------

  /** The links once `d` is gone and its only child `x`, or the sentinel, is in its place. */
  function Unlinked<N(==)>(m: Mem<N>, d: N, x: N): Mem<N>
    requires d in m
  {
    var p := m[d].parent;
    ChangeChildPtr(ChangeParentPtr(m, p, d, x), x, d, p) - {d}
  }

  function OnlyChild<T>(t: Tree<T>): Tree<T>
    requires t.Br?
  {
    if t.left != Leaf then t.left else t.right
  }

  lemma UnlinkRep<N>(m: Mem<N>, nil: N, root: N, c: Ctx<N>, t: Tree<N>, d: N, p: N, x: N)
    requires Focus(m, nil, root, c, t, d, p) && t.Br? && (t.left == Leaf || t.right == Leaf)
    requires x == if m[d].left != nil then m[d].left else m[d].right
    ensures Rep(Unlinked(m, d, x), nil, OnlyChild(t), x, p)
    ensures RepCtx(Unlinked(m, d, x), nil, c, x, p, if p == nil then x else root, nil)
  {
    assert Ask(OfShape, 0);
    var m' := Unlinked(m, d, x);
    if c != Top {
      FocusSide(m, nil, root, c, t, d, p);
    }
    assert Rep(m, nil, OnlyChild(t), x, d);
    assert x != nil ==> x in Elems(OnlyChild(t));
    assert p != nil ==> p in CtxElems(c);
    RepAdopt(m, m', nil, OnlyChild(t), x, d, p);
    RepRelink(m, m', nil, c, d, p, x, root);
  }

  lemma UnlinkFocus<N>(m: Mem<N>, nil: N, root: N, c: Ctx<N>, t: Tree<N>, d: N, p: N)
    requires Focus(m, nil, root, c, t, d, p) && t.Br? && (t.left == Leaf || t.right == Leaf)
    ensures var x := if m[d].left != nil then m[d].left else m[d].right;
      x == nil || (x in m && m[x].parent == d && x != d && x != p)
    ensures p == nil || (p in m && p != d && (m[p].left == d || m[p].right == d))
    ensures p == nil <==> c == Top
    ensures var x := if m[d].left != nil then m[d].left else m[d].right;
      Focus(Unlinked(m, d, x), nil, if p == nil then x else root, c, OnlyChild(t), x, p)
  {
    assert Ask(OfShape, 0);
    UnlinkRep(m, nil, root, c, t, d, p, if m[d].left != nil then m[d].left else m[d].right);
    assert d !in CtxElems(c) && d !in Elems(OnlyChild(t));
    assert Rep(m, nil, OnlyChild(t), if m[d].left != nil then m[d].left else m[d].right, d);
  }

  // ---------- the laws around the node to be unlinked ----------

  /** The elements without that of the focus. */
  function Rest<T>(c: Ctx<T>, t: Tree<T>): seq<T>
    requires t.Br?
  {
    Before(c) + (Inorder(t.left) + Inorder(t.right)) + After(c)
  }

  /** The tree obeys the laws, the node of the focus has at most one child, and `s` is the rest. */
  ghost predicate Cut<T>(c: Ctx<T>, t: Tree<T>, s: seq<T>) {
    && t.Br? && (t.left == Leaf || t.right == Leaf)
    && forall u :: Ask(OfShape, u) ==>
         RB(t, BlackHeight(t)) && CtxRB(c, BlackHeight(t)) && ColorFits(c, t) && Rest(c, t) == s
  }

  lemma CutPlain<T>(c: Ctx<T>, t: Tree<T>, s: seq<T>)
    requires Good(Plug(c, t), s) && t.Br? && (t.left == Leaf || t.right == Leaf)
    ensures Cut(c, t, Rest(c, t))
  {
    assert Ask(OfShape, 0);
    UnplugRB(c, t);
  }

  lemma {:induction false} SpineOrder<T>(c: Ctx<T>)
    requires LeftSpine(c)
    ensures Before(c) == []
  {
    if c != Top {
      SpineOrder(c.up);
    }
  }

  lemma SwappedOrder<T>(a: seq<T>, l: seq<T>, s: T, r: seq<T>, b: seq<T>, e: seq<T>)
    ensures (a + l + [s] + []) + ([] + r) + (b + e) == a + (l + ([] + ([] + [s] + r) + b)) + e
  {
    assert (a + l + [s] + []) + ([] + r) + (b + e) == a + l + [s] + r + b + e;
    assert a + (l + ([] + ([] + [s] + r) + b)) + e == a + l + [s] + r + b + e;
  }

  lemma CutSwapped<N>(m: Mem<N>, nil: N, d: N, c: Ctx<N>, t: Tree<N>, seg: Ctx<N>, ts: Tree<N>, s: N, all: seq<N>)
    requires Good(Plug(c, t), all) && t.Br? && t.elem == d
    requires Spine(m, nil, d, t.right, seg, ts, s) && ts.left == Leaf
    ensures Cut(SwappedCtx(c, t, seg, s), Br(ts.color, Leaf, d, ts.right), Rest(c, t))
  {
    assert Ask(OfShape, 0);
    var outer := InRight(t.color, t.left, d, c);
    PlugAppend(seg, outer, ts);
    UnplugRB(Append(seg, outer), ts);
    AppendRB(seg, t.color, t.left, d, s, c, BlackHeight(ts));
    var c' := SwappedCtx(c, t, seg, s);
    AppendOrder(seg, InRight(t.color, t.left, s, c));
    SpineOrder(seg);
    PlugInorder(seg, ts);
    SwappedOrder(Before(c), Inorder(t.left), s, Inorder(ts.right), After(seg), After(c));
    AppendColor(seg, outer, InRight(t.color, t.left, s, c));
  }

  lemma AppendColor<T>(inner: Ctx<T>, outer: Ctx<T>, outer': Ctx<T>)
    requires outer != Top && outer' != Top && outer.color == outer'.color
    ensures Append(inner, outer) != Top && Append(inner, outer') != Top
    ensures Append(inner, outer).color == Append(inner, outer').color
  {
  }

  lemma CutCases<T>(c: Ctx<T>, t: Tree<T>, s: seq<T>)
    requires Cut(c, t, s)
    ensures var ct := OnlyChild(t);
      if t.color == Red then Good(Plug(c, ct), s)
      else if IsRed(ct) then Good(Plug(c, Blacken(ct)), s)
      else Short(c, ct, BlackHeight(ct), s)
  {
    assert Ask(OfShape, 0);
    var ct := OnlyChild(t);
    assert Inorder(t.left) + Inorder(t.right) == Inorder(ct);
    PlugInorder(c, ct);
    PlugSame(c, ct, Blacken(ct));
    var h: nat := if t.color == Red then BlackHeight(t) else BlackHeight(t) - 1;
    assert RB(ct, h);
    RBHeight(ct, h);
    if t.color == Red {
      PlugRB(c, ct, h);
    } else if IsRed(ct) {
      assert RB(Blacken(ct), h + 1);
      PlugRB(c, Blacken(ct), h + 1);
    }
  }

  /** The rest of the tree is the tree without one element. */
  lemma RestOf<T>(c: Ctx<T>, t: Tree<T>, s: seq<T>)
    requires t.Br? && s == Inorder(Plug(c, t))
    ensures var at := |Before(c)| + |Inorder(t.left)|;
      at < |s| && s[at] == t.elem && Rest(c, t) == s[..at] + s[at + 1..]
  {
    PlugParts(c, t);
    RestSeq(Before(c), Inorder(t.left), t.elem, Inorder(t.right), After(c), s);
  }

  lemma PlugParts<T>(c: Ctx<T>, t: Tree<T>)
    requires t.Br?
    ensures Inorder(Plug(c, t)) == Before(c) + (Inorder(t.left) + [t.elem] + Inorder(t.right)) + After(c)
  {
    PlugInorder(c, t);
  }

  lemma RestSeq<T>(a: seq<T>, l: seq<T>, e: T, r: seq<T>, b: seq<T>, s: seq<T>)
    requires s == a + (l + [e] + r) + b
    ensures var at := |a| + |l|;
      at < |s| && s[at] == e && a + (l + r) + b == s[..at] + s[at + 1..]
  {
    assert s == (a + l) + [e] + (r + b);
  }
}
