/** The steps of the insert and delete fixups, on contexts and trees and on the link map. */
module RedBlackFixup {
  import opened RedBlackAlgebra
  import opened RedBlackMemory
  import opened Sealing

  // ---------- insert: red node `t` under a red parent ----------

  /** A whole tree that obeys the laws and whose elements, in order, are `s`. */
  ghost predicate Good<T>(t: Tree<T>, s: seq<T>) {
    forall u :: Ask(OfShape, u) ==> RedBlack(t) && Inorder(t) == s
  }

  lemma FocusKeys<N>(m: Mem<N>, nil: N, root: N, t: Tree<N>, s: seq<N>)
    requires Focus(m, nil, root, Top, t, root, nil) && Good(t, s)
    ensures m.Keys == set n | n in s
  {
    assert Ask(OfShape, 0);
    ElemsInorder(t);
  }

  /** Where the focus is in the order of the elements. */
  lemma Spot<T>(c: Ctx<T>, t: Tree<T>, tree: Tree<T>, s: seq<T>)
    requires Good(tree, s) && Plug(c, t) == tree
    ensures |Before(c)| + |Inorder(t)| + |After(c)| == |s|
    ensures t.Br? ==> |Inorder(t)| == |Inorder(t.left)| + 1 + |Inorder(t.right)|
    ensures t.Br? ==> s[|Before(c)| + |Inorder(t.left)|] == t.elem
    ensures c.InLeft? ==> |After(c)| > 0 && s[|Before(c)| + |Inorder(t)|] == c.elem
    ensures c.InRight? ==> |Before(c)| > 0 && s[|Before(c)| - 1] == c.elem
    ensures c != Top ==> |Before(c.up)| + |Inorder(Wrap(c, t))| + |After(c.up)| == |s|
    ensures c.InLeft? ==> Before(c.up) == Before(c)
    ensures c.InRight? ==> After(c.up) == After(c)
  {
    assert Ask(OfShape, 0);
    PlugInorder(c, t);
    if c != Top {
      PlugInorder(c.up, Wrap(c, t));
    }
  }

  /** A red node `t` may sit under a red parent; apart from that the whole tree obeys the laws,
      and its elements are `s`. */
  ghost predicate Pending<T>(c: Ctx<T>, t: Tree<T>, h: nat, s: seq<T>) {
    && IsRed(t) && (IsRedFrame(c) ==> c.up != Top && c.up.color == Black)
    && forall u :: Ask(OfShape, u) ==> RB(t, h) && CtxRB(c, h) && Inorder(Plug(c, t)) == s
  }

  lemma LeafPending<T>(c: Ctx<T>, d: T, s: seq<T>)
    requires Good(Plug(c, Leaf), s)
    ensures Pending(c, Br(Red, Leaf, d, Leaf), 0, Before(c) + [d] + After(c))
  {
    assert Ask(OfShape, 0);
    UnplugRB(c, Leaf);
    PlugInorder(c, Br(Red, Leaf, d, Leaf));
  }

  /** The parent and the uncle turn black and the grandparent red. */
  function Recolored<T>(c: Ctx<T>, t: Tree<T>): Tree<T>
    requires c != Top && c.up != Top && Sibling(c.up).Br?
  {
    var u := Sibling(c.up).(color := Black);
    Wrap(FrameColored(WithSibling(c.up, u), Red), Wrap(FrameColored(c, Black), t))
  }

  lemma RecoloredPending<T>(c: Ctx<T>, t: Tree<T>, h: nat, s: seq<T>)
    requires Pending(c, t, h, s) && IsRedFrame(c) && IsRed(Sibling(c.up))
    ensures Pending(c.up.up, Recolored(c, t), h + 1, s)
  {
    assert Ask(OfShape, 0);
    assert CtxRB(c.up, h) && CtxRB(c.up.up, h + 1);
    assert RB(Blacken(Sibling(c.up)), h + 1);
    assert RB(Wrap(FrameColored(c, Black), t), h + 1);
    assert Plug(c, t) == Plug(c.up.up, Wrap(c.up, Wrap(c, t)));
    PlugSame(c.up.up, Recolored(c, t), Wrap(c.up, Wrap(c, t)));
  }

  /** The context of the red node after the last rotation of an insert. */
  function Settled<T>(c: Ctx<T>, t: Tree<T>): Ctx<T>
    requires c != Top && t.Br?
  {
    if c.InLeft? then InLeft(Black, t.elem, Br(Red, t.right, c.elem, c.right), c.up)
    else InRight(Black, Br(Red, c.left, c.elem, t.left), t.elem, c.up)
  }

  lemma SettledPending<T>(c: Ctx<T>, t: Tree<T>, h: nat, s: seq<T>)
    requires Pending(c, t, h, s) && IsRedFrame(c) && c.InLeft? == c.up.InLeft? && !IsRed(Sibling(c.up))
    ensures Pending(Settled(c.up, Blacken(Wrap(c, t))), t, h, s)
    ensures !IsRedFrame(Settled(c.up, Blacken(Wrap(c, t))))
  {
    assert Ask(OfShape, 0);
    var w := Blacken(Wrap(c, t));
    var v := Wrap(c.up, w);
    assert CtxRB(c.up, h);
    RotatedInorder(v);
    PlugSame(c.up.up, Wrap(c.up, Wrap(c, t)), Wrap(Settled(c.up, w), t));
    assert Plug(c, t) == Plug(c.up.up, Wrap(c.up, Wrap(c, t)));
  }

  /** A red node that is a right child is made the parent of its red parent. */
  function OutLeft<T>(c: Ctx<T>, t: Tree<T>): (Ctx<T>, Tree<T>)
    requires c != Top && t.Br?
  {
    if c.InLeft? then (c, t)
    else (InLeft(t.color, t.elem, t.right, c.up), Br(c.color, c.left, c.elem, t.left))
  }

  lemma OutLeftPending<T>(c: Ctx<T>, t: Tree<T>, h: nat, s: seq<T>)
    requires Pending(c, t, h, s) && IsRedFrame(c)
    ensures Pending(OutLeft(c, t).0, OutLeft(c, t).1, h, s)
  {
    assert Ask(OfShape, 0);
    if c.InRight? {
      RotatedInorder(Wrap(c, t));
      PlugSame(c.up, Wrap(c, t), RotatedLeft(Wrap(c, t)));
    }
  }

  /** A red node that is a left child is made the parent of its red parent. */
  function OutRight<T>(c: Ctx<T>, t: Tree<T>): (Ctx<T>, Tree<T>)
    requires c != Top && t.Br?
  {
    if c.InRight? then (c, t)
    else (InRight(t.color, t.left, t.elem, c.up), Br(c.color, t.right, c.elem, c.right))
  }

  lemma OutRightPending<T>(c: Ctx<T>, t: Tree<T>, h: nat, s: seq<T>)
    requires Pending(c, t, h, s) && IsRedFrame(c)
    ensures Pending(OutRight(c, t).0, OutRight(c, t).1, h, s)
  {
    assert Ask(OfShape, 0);
    if c.InLeft? {
      RotatedInorder(Wrap(c, t));
      PlugSame(c.up, Wrap(c, t), RotatedRight(Wrap(c, t)));
    }
  }

  /** After the insert loop the root is painted black. */
  lemma InsertDone<N>(m: Mem<N>, nil: N, root: N, c: Ctx<N>, t: Tree<N>, x: N, p: N, h: nat, s: seq<N>)
    requires Focus(m, nil, root, c, t, x, p)
    requires Pending(c, t, h, s) && !IsRedFrame(c)
    ensures root in m && Plug(c, t).Br?
    ensures Focus(Painted(m, root, Black), nil, root, Top, Blacken(Plug(c, t)), root, nil)
    ensures Good(Blacken(Plug(c, t)), s)
  {
    assert Ask(OfShape, 0);
    FocusTop(m, nil, root, c, t, x, p);
    if c == Top {
      RBHeight(Blacken(t), h + 1);
    } else {
      PlugRB(c, t, h);
    }
    PlugElems(c, t);
    PaintFocus(m, nil, root, Top, Plug(c, t), root, nil, Black);
  }

  // ---------- delete: the subtree `t` is one black node short ----------

  /** The whole tree would obey the laws, and hold `s`, if `t` were one black node higher. */
  ghost predicate Short<T>(c: Ctx<T>, t: Tree<T>, h: nat, s: seq<T>) {
    && !IsRed(t)
    && (c != Top ==> Sibling(c).Br? && (IsRed(Sibling(c)) ==> c.color == Black))
    && forall u :: Ask(OfShape, u) ==> RB(t, h) && CtxRB(c, h + 1) && Inorder(Plug(c, t)) == s
  }

  lemma ShortTop<T>(t: Tree<T>, h: nat, s: seq<T>)
    requires Short(Top, t, h, s)
    ensures Good(t, s)
  {
    assert Ask(OfShape, 0);
    RBHeight(t, h);
  }

  /** Everything around is black: the sibling turns red and the shortage moves up. */
  function ShortUp<T>(c: Ctx<T>, t: Tree<T>): Tree<T>
    requires c != Top && Sibling(c).Br?
  {
    Wrap(WithSibling(c, Sibling(c).(color := Red)), t)
  }

  predicate BlackSibling<T>(c: Ctx<T>) {
    c != Top && Sibling(c).Br? && !IsRed(Sibling(c)) && !IsRed(Sibling(c).left) && !IsRed(Sibling(c).right)
  }

  lemma ShortMovesUp<T>(c: Ctx<T>, t: Tree<T>, h: nat, s: seq<T>)
    requires Short(c, t, h, s) && BlackSibling(c) && c.color == Black
    ensures Short(c.up, ShortUp(c, t), h + 1, s)
  {
    assert Ask(OfShape, 0);
    assert CtxRB(c.up, h + 2);
    assert RB(Sibling(c).(color := Red), h);
    assert RB(ShortUp(c, t), h + 1);
    PlugSame(c.up, Wrap(c, t), ShortUp(c, t));
  }

  /** The parent is red and the rest black: parent and sibling exchange colours. */
  lemma ShortRedParent<T>(c: Ctx<T>, t: Tree<T>, h: nat, s: seq<T>)
    requires Short(c, t, h, s) && BlackSibling(c) && c.color == Red
    ensures var c' := FrameColored(WithSibling(c, Sibling(c).(color := Red)), Black);
      Good(Plug(c', t), s)
  {
    assert Ask(OfShape, 0);
    var c' := FrameColored(WithSibling(c, Sibling(c).(color := Red)), Black);
    assert RB(Sibling(c), h + 1) && CtxRB(c.up, h + 1);
    assert RB(Sibling(c'), h);
    PlugRB(c', t, h);
    PlugSame(c.up, Wrap(c, t), Wrap(c', t));
  }

  // ---------- the short subtree is on the left ----------

  /** Red sibling: rotate it up, which leaves a black sibling under a red parent. */
  function RedSiblingLeft<T>(c: Ctx<T>): Ctx<T>
    requires c.InLeft? && c.right.Br?
  {
    InLeft(Red, c.elem, c.right.left, InLeft(Black, c.right.elem, c.right.right, c.up))
  }

  lemma RedSiblingLeftShort<T>(c: Ctx<T>, t: Tree<T>, h: nat, s: seq<T>)
    requires Short(c, t, h, s) && c.InLeft? && IsRed(c.right)
    ensures Short(RedSiblingLeft(c), t, h, s) && !IsRed(RedSiblingLeft(c).right)
  {
    assert Ask(OfShape, 0);
    var w := Br(Red, t, c.elem, c.right.(color := Black));
    assert RB(c.right.left, h + 1) && CtxRB(c.up, h + 2);
    RotatedInorder(w);
    PlugSame(c.up, Wrap(c, t), RotatedLeft(w));
    assert Plug(RedSiblingLeft(c), t) == Plug(c.up, RotatedLeft(w)) by {
      assert Plug(RedSiblingLeft(c), t) == Plug(RedSiblingLeft(c).up, Wrap(RedSiblingLeft(c), t));
    }
  }

  /** Near nephew red, far nephew black: rotate at the sibling. */
  function NearNephewLeft<T>(c: Ctx<T>): Ctx<T>
    requires c.InLeft? && c.right.Br? && c.right.left.Br?
  {
    var Br(_, Br(_, a, n, b), s, r) := c.right;
    c.(right := Br(Black, a, n, Br(Red, b, s, r)))
  }

  lemma NearNephewLeftShort<T>(c: Ctx<T>, t: Tree<T>, h: nat, s: seq<T>)
    requires Short(c, t, h, s) && c.InLeft? && !IsRed(c.right) && IsRed(c.right.left) && !IsRed(c.right.right)
    ensures Short(NearNephewLeft(c), t, h, s)
    ensures !IsRed(NearNephewLeft(c).right) && IsRed(NearNephewLeft(c).right.right)
  {
    assert Ask(OfShape, 0);
    assert RB(c.right, h + 1) && RB(c.right.left, h);
    RotatedInorder(c.right);
    assert Inorder(NearNephewLeft(c).right) == Inorder(RotatedRight(c.right));
    assert RB(NearNephewLeft(c).right, h + 1) && CtxRB(NearNephewLeft(c), h + 1);
    PlugSame(c.up, Wrap(c, t), Wrap(NearNephewLeft(c), t));
  }

  /** Far nephew red: the last rotation, at the parent. */
  function FarNephewLeft<T>(c: Ctx<T>, t: Tree<T>): Tree<T>
    requires c.InLeft? && c.right.Br?
  {
    Br(c.color, Br(Black, t, c.elem, c.right.left), c.right.elem, Blacken(c.right.right))
  }

  lemma FarNephewLeftDone<T>(c: Ctx<T>, t: Tree<T>, h: nat, s: seq<T>)
    requires Short(c, t, h, s) && c.InLeft? && !IsRed(c.right) && IsRed(c.right.right)
    ensures Good(Plug(c.up, FarNephewLeft(c, t)), s)
  {
    assert Ask(OfShape, 0);
    var w := Br(c.color, t, c.elem, c.right);
    RotatedInorder(w);
    PlugSame(c.up, Wrap(c, t), FarNephewLeft(c, t));
    assert RB(Br(Black, t, c.elem, c.right.left), h + 1);
    assert RB(c.right.right, h);
    PlugRB(c.up, FarNephewLeft(c, t), if c.color == Red then h + 1 else h + 2);
  }

  // ---------- the short subtree is on the right ----------

  /** Red sibling: rotate it up, which leaves a black sibling under a red parent. */
  function RedSiblingRight<T>(c: Ctx<T>): Ctx<T>
    requires c.InRight? && c.left.Br?
  {
    InRight(Red, c.left.right, c.elem, InRight(Black, c.left.left, c.left.elem, c.up))
  }

  lemma RedSiblingRightShort<T>(c: Ctx<T>, t: Tree<T>, h: nat, s: seq<T>)
    requires Short(c, t, h, s) && c.InRight? && IsRed(c.left)
    ensures Short(RedSiblingRight(c), t, h, s) && !IsRed(RedSiblingRight(c).left)
  {
    assert Ask(OfShape, 0);
    var w := Br(Red, c.left.(color := Black), c.elem, t);
    assert RB(c.left.right, h + 1) && CtxRB(c.up, h + 2);
    RotatedInorder(w);
    PlugSame(c.up, Wrap(c, t), RotatedRight(w));
    assert Plug(RedSiblingRight(c), t) == Plug(c.up, RotatedRight(w)) by {
      assert Plug(RedSiblingRight(c), t) == Plug(RedSiblingRight(c).up, Wrap(RedSiblingRight(c), t));
    }
  }

  /** Near nephew red, far nephew black: rotate at the sibling. */
  function NearNephewRight<T>(c: Ctx<T>): Ctx<T>
    requires c.InRight? && c.left.Br? && c.left.right.Br?
  {
    var Br(_, r, s, Br(_, b, n, a)) := c.left;
    c.(left := Br(Black, Br(Red, r, s, b), n, a))
  }

  lemma NearNephewRightShort<T>(c: Ctx<T>, t: Tree<T>, h: nat, s: seq<T>)
    requires Short(c, t, h, s) && c.InRight? && !IsRed(c.left) && IsRed(c.left.right) && !IsRed(c.left.left)
    ensures Short(NearNephewRight(c), t, h, s)
    ensures !IsRed(NearNephewRight(c).left) && IsRed(NearNephewRight(c).left.left)
  {
    assert Ask(OfShape, 0);
    assert RB(c.left, h + 1) && RB(c.left.right, h);
    RotatedInorder(c.left);
    assert Inorder(NearNephewRight(c).left) == Inorder(RotatedLeft(c.left));
    assert RB(NearNephewRight(c).left, h + 1) && CtxRB(NearNephewRight(c), h + 1);
    PlugSame(c.up, Wrap(c, t), Wrap(NearNephewRight(c), t));
  }

  /** Far nephew red: the last rotation, at the parent. */
  function FarNephewRight<T>(c: Ctx<T>, t: Tree<T>): Tree<T>
    requires c.InRight? && c.left.Br?
  {
    Br(c.color, Blacken(c.left.left), c.left.elem, Br(Black, c.left.right, c.elem, t))
  }

  lemma FarNephewRightDone<T>(c: Ctx<T>, t: Tree<T>, h: nat, s: seq<T>)
    requires Short(c, t, h, s) && c.InRight? && !IsRed(c.left) && IsRed(c.left.left)
    ensures Good(Plug(c.up, FarNephewRight(c, t)), s)
  {
    assert Ask(OfShape, 0);
    var w := Br(c.color, c.left, c.elem, t);
    RotatedInorder(w);
    PlugSame(c.up, Wrap(c, t), FarNephewRight(c, t));
    assert RB(Br(Black, c.left.right, c.elem, t), h + 1);
    assert RB(c.left.left, h);
    PlugRB(c.up, FarNephewRight(c, t), if c.color == Red then h + 1 else h + 2);
  }

}
