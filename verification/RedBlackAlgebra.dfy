/** Red-black trees as values: trees, one-hole contexts, rotations and colour algebra.
    The heap model in RedBlackTree.dfy moves a focus (context, subtree) over these values;
    the element type is arbitrary here and is the node object there. */
module RedBlackAlgebra {
  import opened Powers

  datatype Color = Red | Black

  datatype Tree<T> =
    | Leaf
    | Br(color: Color, left: Tree<T>, elem: T, right: Tree<T>)

  /** A tree with a hole. The first frame is the one directly above the hole. */
  datatype Ctx<T> =
    | Top
    | InLeft(color: Color, elem: T, right: Tree<T>, up: Ctx<T>)
    | InRight(color: Color, left: Tree<T>, elem: T, up: Ctx<T>)

  function Inorder<T>(t: Tree<T>): seq<T> {
    match t
    case Leaf => []
    case Br(_, l, e, r) => Inorder(l) + [e] + Inorder(r)
  }

  /** The elements in front of the hole, in order. */
  function Before<T>(c: Ctx<T>): seq<T> {
    match c
    case Top => []
    case InLeft(_, _, _, up) => Before(up)
    case InRight(_, l, e, up) => Before(up) + Inorder(l) + [e]
  }

  /** The elements behind the hole, in order. */
  function After<T>(c: Ctx<T>): seq<T> {
    match c
    case Top => []
    case InLeft(_, e, r, up) => [e] + Inorder(r) + After(up)
    case InRight(_, _, _, up) => After(up)
  }

  function Elems<T>(t: Tree<T>): set<T> {
    match t
    case Leaf => {}
    case Br(_, l, e, r) => Elems(l) + {e} + Elems(r)
  }

  function CtxElems<T>(c: Ctx<T>): set<T> {
    match c
    case Top => {}
    case InLeft(_, e, r, up) => {e} + Elems(r) + CtxElems(up)
    case InRight(_, l, e, up) => Elems(l) + {e} + CtxElems(up)
  }

  /** The left rotation: every node keeps its own colour. */
  function RotatedLeft<T>(t: Tree<T>): Tree<T>
    requires t.Br? && t.right.Br?
  {
    var Br(k, a, x, Br(k', b, y, d)) := t;
    Br(k', Br(k, a, x, b), y, d)
  }

  function RotatedRight<T>(t: Tree<T>): Tree<T>
    requires t.Br? && t.left.Br?
  {
    var Br(k', Br(k, a, x, b), y, d) := t;
    Br(k, a, x, Br(k', b, y, d))
  }

  /** One frame of context put back on the subtree. */
  function Wrap<T>(c: Ctx<T>, t: Tree<T>): (w: Tree<T>)
    requires c != Top
    ensures w.Br? && w.color == c.color && w.elem == c.elem
  {
    match c
    case InLeft(k, e, r, _) => Br(k, t, e, r)
    case InRight(k, l, e, _) => Br(k, l, e, t)
  }

  function Depth<T>(c: Ctx<T>): nat {
    if c == Top then 0 else 1 + Depth(c.up)
  }

  /** The nearest frame in another colour. */
  function FrameColored<T>(c: Ctx<T>, k: Color): Ctx<T>
    requires c != Top
  {
    match c
    case InLeft(_, e, r, up) => InLeft(k, e, r, up)
    case InRight(_, l, e, up) => InRight(k, l, e, up)
  }

  function Plug<T>(c: Ctx<T>, t: Tree<T>): Tree<T>
    decreases c
  {
    if c == Top then t else Plug(c.up, Wrap(c, t))
  }

  /** The frames of `inner`, whose hole is kept, under those of `outer`. */
  function Append<T>(inner: Ctx<T>, outer: Ctx<T>): Ctx<T> {
    match inner
    case Top => outer
    case InLeft(k, e, r, up) => InLeft(k, e, r, Append(up, outer))
    case InRight(k, l, e, up) => InRight(k, l, e, Append(up, outer))
  }

  lemma Regroup<T>(a: seq<T>, b: seq<T>, m: seq<T>, c: seq<T>, d: seq<T>)
    ensures a + (b + m + c) + d == a + b + (m + c + d)
    ensures a + (b + m + c) + d == (a + b + m) + c + d
  {
  }

  lemma {:induction false} PlugInorder<T>(c: Ctx<T>, t: Tree<T>)
    ensures Inorder(Plug(c, t)) == Before(c) + Inorder(t) + After(c)
    decreases c
  {
    match c
    case Top =>
    case InLeft(_, e, r, up) =>
      PlugInorder(up, Wrap(c, t));
      Regroup(Before(up), Inorder(t), [e], Inorder(r), After(up));
    case InRight(_, l, e, up) =>
      PlugInorder(up, Wrap(c, t));
      Regroup(Before(up), Inorder(l), [e], Inorder(t), After(up));
  }

  lemma {:induction false} PlugElems<T>(c: Ctx<T>, t: Tree<T>)
    ensures Elems(Plug(c, t)) == CtxElems(c) + Elems(t)
    decreases c
  {
    if c != Top {
      PlugElems(c.up, Wrap(c, t));
    }
  }

  lemma {:induction false} PlugAppend<T>(inner: Ctx<T>, outer: Ctx<T>, t: Tree<T>)
    ensures Plug(Append(inner, outer), t) == Plug(outer, Plug(inner, t))
    decreases inner
  {
    if inner != Top {
      PlugAppend(inner.up, outer, Wrap(inner, t));
    }
  }

  lemma {:induction false} AppendElems<T>(inner: Ctx<T>, outer: Ctx<T>)
    ensures CtxElems(Append(inner, outer)) == CtxElems(inner) + CtxElems(outer)
  {
    if inner != Top {
      AppendElems(inner.up, outer);
    }
  }

  lemma {:induction false} ElemsInorder<T>(t: Tree<T>)
    ensures Elems(t) == set x | x in Inorder(t)
  {
    match t
    case Leaf =>
    case Br(_, l, _, r) => ElemsInorder(l); ElemsInorder(r);
  }

  lemma Reassociate<T>(a: seq<T>, x: seq<T>, b: seq<T>, y: seq<T>, d: seq<T>)
    ensures a + x + (b + y + d) == (a + x + b) + y + d
  {
  }

  lemma RotatedInorder<T>(t: Tree<T>)
    ensures t.Br? && t.right.Br? ==> Inorder(RotatedLeft(t)) == Inorder(t)
    ensures t.Br? && t.left.Br? ==> Inorder(RotatedRight(t)) == Inorder(t)
  {
    if t.Br? && t.right.Br? {
      Reassociate(Inorder(t.left), [t.elem], Inorder(t.right.left), [t.right.elem], Inorder(t.right.right));
    }
    if t.Br? && t.left.Br? {
      Reassociate(Inorder(t.left.left), [t.left.elem], Inorder(t.left.right), [t.elem], Inorder(t.right));
    }
  }

  lemma PlugSame<T>(c: Ctx<T>, t: Tree<T>, t': Tree<T>)
    requires Inorder(t) == Inorder(t')
    ensures Inorder(Plug(c, t)) == Inorder(Plug(c, t'))
  {
    PlugInorder(c, t);
    PlugInorder(c, t');
  }

  /** No element occurs twice. */
  predicate Unique<T(==)>(t: Tree<T>) {
    match t
    case Leaf => true
    case Br(_, l, e, r) =>
      && Unique(l) && Unique(r)
      && e !in Elems(l) && e !in Elems(r) && Elems(l) !! Elems(r)
  }

  predicate CtxUnique<T(==)>(c: Ctx<T>) {
    match c
    case Top => true
    case InLeft(_, e, s, up) =>
      && Unique(s) && CtxUnique(up)
      && e !in Elems(s) && e !in CtxElems(up) && Elems(s) !! CtxElems(up)
    case InRight(_, s, e, up) =>
      && Unique(s) && CtxUnique(up)
      && e !in Elems(s) && e !in CtxElems(up) && Elems(s) !! CtxElems(up)
  }

  lemma RotatedLeftUnique<T>(t: Tree<T>)
    requires t.Br? && t.right.Br? && Unique(t)
    ensures Unique(RotatedLeft(t)) && Elems(RotatedLeft(t)) == Elems(t)
    ensures Unique(t.left) && Unique(t.right.left) && Unique(t.right.right)
    ensures Elems(t) == Elems(t.left) + {t.elem} + Elems(t.right.left) + {t.right.elem} + Elems(t.right.right)
    ensures t.elem != t.right.elem
    ensures t.elem !in Elems(t.left) && t.elem !in Elems(t.right.left) && t.elem !in Elems(t.right.right)
    ensures t.right.elem !in Elems(t.left) && t.right.elem !in Elems(t.right.left)
    ensures t.right.elem !in Elems(t.right.right)
    ensures Elems(t.left) !! Elems(t.right.left) && Elems(t.right.left) !! Elems(t.right.right)
  {
    var Br(k, a, x, Br(k', b, y, d)) := t;
    assert Elems(t.right) == Elems(b) + {y} + Elems(d);
    assert Elems(RotatedLeft(t).left) == Elems(a) + {x} + Elems(b);
  }

  lemma RotatedRightUnique<T>(t: Tree<T>)
    requires t.Br? && t.left.Br? && Unique(t)
    ensures Unique(RotatedRight(t)) && Elems(RotatedRight(t)) == Elems(t)
    ensures Unique(t.right) && Unique(t.left.left) && Unique(t.left.right)
    ensures Elems(t) == Elems(t.left.left) + {t.left.elem} + Elems(t.left.right) + {t.elem} + Elems(t.right)
    ensures t.elem != t.left.elem
    ensures t.elem !in Elems(t.right) && t.elem !in Elems(t.left.left) && t.elem !in Elems(t.left.right)
    ensures t.left.elem !in Elems(t.right) && t.left.elem !in Elems(t.left.left) && t.left.elem !in Elems(t.left.right)
    ensures Elems(t.left.right) !! Elems(t.right) && Elems(t.left.left) !! Elems(t.left.right)
  {
    var Br(k', Br(k, a, x, b), y, d) := t;
    assert Elems(t.left) == Elems(a) + {x} + Elems(b);
    assert Elems(RotatedRight(t).right) == Elems(b) + {y} + Elems(d);
  }

  lemma {:induction false} UnplugUnique<T>(c: Ctx<T>, t: Tree<T>)
    requires Unique(Plug(c, t))
    ensures Unique(t) && CtxUnique(c) && Elems(t) !! CtxElems(c)
    decreases c
  {
    if c != Top {
      UnplugUnique(c.up, Wrap(c, t));
    }
  }

  // ---------- the red-black laws ----------

  predicate IsRed<T>(t: Tree<T>) {
    t.Br? && t.color == Red
  }

  /** No red node has a red child, and every path down crosses `h` black nodes. */
  predicate RB<T>(t: Tree<T>, h: nat) {
    match t
    case Leaf => h == 0
    case Br(Red, l, _, r) => !IsRed(l) && !IsRed(r) && RB(l, h) && RB(r, h)
    case Br(Black, l, _, r) => h > 0 && RB(l, h - 1) && RB(r, h - 1)
  }

  predicate IsRedFrame<T>(c: Ctx<T>) {
    c != Top && c.color == Red
  }

  function Sibling<T>(c: Ctx<T>): Tree<T>
    requires c != Top
  {
    if c.InLeft? then c.right else c.left
  }

  /** Plugging a tree of black height `h` keeps the laws, up to the colour of its root. */
  predicate CtxRB<T>(c: Ctx<T>, h: nat)
    decreases c
  {
    c != Top ==>
      && RB(Sibling(c), h)
      && (c.color == Red ==> !IsRed(Sibling(c)) && c.up != Top && c.up.color == Black)
      && CtxRB(c.up, if c.color == Red then h else h + 1)
  }

  function BlackHeight<T>(t: Tree<T>): nat {
    match t
    case Leaf => 0
    case Br(k, l, _, _) => BlackHeight(l) + if k == Black then 1 else 0
  }

  /** A whole tree: the laws, and a black root. */
  predicate RedBlack<T>(t: Tree<T>) {
    !IsRed(t) && RB(t, BlackHeight(t))
  }

  /** The colour of `t` fits under the frame above it. */
  predicate ColorFits<T>(c: Ctx<T>, t: Tree<T>) {
    IsRed(t) ==> c != Top && c.color == Black
  }

  function Blacken<T>(t: Tree<T>): Tree<T> {
    if t == Leaf then Leaf else t.(color := Black)
  }

  lemma {:induction false} RBHeight<T>(t: Tree<T>, h: nat)
    requires RB(t, h)
    ensures h == BlackHeight(t)
  {
    match t
    case Leaf =>
    case Br(k, l, _, _) => RBHeight(l, if k == Red then h else h - 1);
  }

  lemma {:induction false} PlugRB<T>(c: Ctx<T>, t: Tree<T>, h: nat)
    requires RB(t, h) && CtxRB(c, h) && ColorFits(c, t)
    ensures RedBlack(Plug(c, t))
    decreases c
  {
    if c == Top {
      RBHeight(t, h);
    } else {
      PlugRB(c.up, Wrap(c, t), if c.color == Red then h else h + 1);
    }
  }

  lemma {:induction false} UnplugRB<T>(c: Ctx<T>, t: Tree<T>)
    requires RedBlack(Plug(c, t))
    ensures RB(t, BlackHeight(t)) && CtxRB(c, BlackHeight(t)) && ColorFits(c, t)
    decreases c
  {
    if c != Top {
      var w := Wrap(c, t);
      UnplugRB(c.up, w);
      RBHeight(t, if c.color == Red then BlackHeight(w) else BlackHeight(w) - 1);
    }
  }

  // ---------- height ----------

  function Max(a: nat, b: nat): nat { if a < b then b else a }

  function Height<T>(t: Tree<T>): nat {
    match t
    case Leaf => 0
    case Br(_, l, _, r) => 1 + Max(Height(l), Height(r))
  }

  function Size<T>(t: Tree<T>): nat {
    match t
    case Leaf => 0
    case Br(_, l, _, r) => Size(l) + 1 + Size(r)
  }

  lemma {:induction false} BlackHeightBounds<T>(t: Tree<T>, h: nat)
    requires RB(t, h)
    ensures Pow2(h) <= Size(t) + 1
    ensures Height(t) <= 2 * h + if IsRed(t) then 1 else 0
  {
    match t
    case Leaf =>
    case Br(k, l, _, r) =>
      var g: nat := if k == Red then h else h - 1;
      BlackHeightBounds(l, g);
      BlackHeightBounds(r, g);
  }

  /** Height is at most 2 log2 (n + 1), written without the logarithm. */
  lemma HeightBound<T>(t: Tree<T>)
    requires RedBlack(t)
    ensures Pow2(Height(t)) <= (Size(t) + 1) * (Size(t) + 1)
  {
    var h := BlackHeight(t);
    BlackHeightBounds(t, h);
    Pow2Mono(Height(t), h + h);
    PowersAdd(h, h);
    SquareMono(Pow2(h), Size(t) + 1);
  }

  lemma SquareMono(p: nat, n: nat)
    requires p <= n
    ensures p * p <= n * n
  {
    assert p * p <= p * n;
    assert p * n <= n * n;
  }

  lemma {:induction false} SizeInorder<T>(t: Tree<T>)
    ensures |Inorder(t)| == Size(t)
  {
    match t
    case Leaf =>
    case Br(_, l, _, r) => SizeInorder(l); SizeInorder(r);
  }
}
