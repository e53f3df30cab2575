/** The tree of address prefixes of src/dig_radix_tree.c, with its list of free nodes. */
module RadixTree {
  import opened PrefixCode
  import opened PrefixShape
  import opened Sealing
  import opened Sequences

  datatype Outcome = Succeed | DupKey | Failed

  class RadixNode {
    var right: RadixNode?
    var left: RadixNode?
    var parent: RadixNode?
    var value: object?
    /** The prefix the node stands for; 0 while it is free. */
    ghost var code: nat

    constructor ()
      ensures right == left == parent == null && value == null && code == 0
    {
      right, left, parent, value, code := null, null, null, null, 0;
    }
  }

  /** What is left of `all` after some have been taken off the front. */
  predicate Rest<T(==)>(rest: seq<T>, all: seq<T>) {
    |rest| <= |all| && rest == all[|all| - |rest|..]
  }

  /** Every prefix of `live` has the same node in `more`. */
  predicate Part(live: map<nat, RadixNode>, more: map<nat, RadixNode>) {
    forall c :: c in live ==> c in more && more[c] == live[c]
  }

  /** The nodes of `was` that are not in the tree any more stand in front of those that were free. */
  ghost predicate Freed(was: map<nat, RadixNode>, free: seq<RadixNode>, live: map<nat, RadixNode>,
                        spare: seq<RadixNode>)
  {
    forall u :: Ask(OfRecords, u) ==>
      && Part(live, was) && Rest(free, spare)
      && forall c :: c in was && c !in live ==> was[c] in spare
  }

  lemma OneMoreFreed(was: map<nat, RadixNode>, free: seq<RadixNode>, live: map<nat, RadixNode>, spare: seq<RadixNode>,
                     c: nat)
    requires Freed(was, free, live, spare) && c in live
    ensures Freed(was, free, live - {c}, [live[c]] + spare)
  {
    assert Ask(OfRecords, 0);
  }

  lemma OneNodeLess(live: map<nat, RadixNode>, c: nat)
    requires c in live
    ensures |live - {c}| == |live| - 1
  {
    assert (live - {c}).Keys == live.Keys - {c};
  }

  lemma OneNodeMore(live: map<nat, RadixNode>, c: nat, node: RadixNode)
    requires c !in live
    ensures |live[c := node]| == |live| + 1
  {
    assert live[c := node].Keys == live.Keys + {c};
  }

  /** As many nodes as prefixes. */
  lemma {:induction false} ValuesCount(live: map<nat, RadixNode>)
    requires forall c, d :: c in live && d in live && c != d ==> live[c] != live[d]
    ensures |live.Values| == |live|
  {
    if live != map[] {
      var c :| c in live;
      ValuesCount(live - {c});
      OneNodeLess(live, c);
      forall n | n in live.Values ensures n in (live - {c}).Values + {live[c]} {
        var d :| d in live && live[d] == n;
        assert d != c ==> (live - {c})[d] == n;
      }
      assert live.Values == (live - {c}).Values + {live[c]};
    }
  }

  /** If there are no more nodes than these, every one is among them. */
  lemma AllAccounted(live: map<nat, RadixNode>, spare: seq<RadixNode>, repr: set<RadixNode>)
    requires forall c, d :: c in live && d in live && c != d ==> live[c] != live[d]
    requires Distinct(spare) && forall i, c :: 0 <= i < |spare| && c in live ==> spare[i] != live[c]
    requires (forall c :: c in live ==> live[c] in repr) && (forall n :: n in spare ==> n in repr)
    requires |live| + |spare| == |repr|
    ensures repr == live.Values + set n | n in spare
  {
    var free := set n | n in spare;
    ValuesCount(live);
    DistinctCount(spare);
    assert live.Values !! free;
    SubsetIsAll(live.Values + free, repr);
  }

  class RadixTree {
    const root: RadixNode
    /** The free nodes hang together by their right pointers. */
    var free: RadixNode?
    var count: nat
    ghost var live: map<nat, RadixNode>
    ghost var stored: map<nat, object>
    ghost var spare: seq<RadixNode>
    ghost var repr: set<RadixNode>

    ghost function At(c: nat): RadixNode?
      reads `live
    {
      if c in live then live[c] else null
    }

    ghost function ValueAt(c: nat): object?
      reads `stored
    {
      if c in stored then stored[c] else null
    }

    /** Every node of the tree knows its children, its parent and its value. */
    ghost predicate Linked()
      reads `live, `stored, `repr, repr
    {
      && (forall c :: c in live ==> live[c] in repr)
      && (forall c {:trigger live[c].code} :: c in live ==> live[c].code == c)
      && (forall c {:trigger live[c].left} :: c in live ==> live[c].left == At(2 * c))
      && (forall c {:trigger live[c].right} :: c in live ==> live[c].right == At(2 * c + 1))
      && (forall c {:trigger live[c].parent} :: c in live ==> live[c].parent == if c == 1 then null else At(Up(c)))
      && (forall c {:trigger live[c].value} :: c in live ==> live[c].value == ValueAt(c))
    }

    ghost function Spare(i: int): RadixNode?
      reads `spare
    {
      if 0 <= i < |spare| then spare[i] else null
    }

    /** The list of free nodes runs through exactly `spare`. */
    ghost predicate Chained()
      reads `free, `spare, `repr, repr
    {
      && free == Spare(0) && Distinct(spare)
      && (forall i :: 0 <= i < |spare| ==> spare[i] in repr)
      && (forall i {:trigger spare[i].code} :: 0 <= i < |spare| ==> spare[i].code == 0)
      && (forall i {:trigger spare[i].right} :: 0 <= i < |spare| ==> spare[i].right == Spare(i + 1))
    }

    /** In order but for the count and the node at `but`, which may be bare. */
    ghost predicate Sound(but: nat)
      reads `live, `stored, `free, `spare, `repr, repr
    {
      && (forall u :: Ask(OfTree, u) ==> Linked() && Chained())
      && Closed(live.Keys) && Pruned(live.Keys, stored.Keys, but) && stored.Keys <= live.Keys
      && live[1] == root
    }

    /** What a node of the tree knows. */
    lemma NodeSays(node: RadixNode, c: nat, but: nat)
      requires Sound(but) && c in live && live[c] == node
      ensures node.left == At(2 * c) && node.right == At(2 * c + 1) && node.value == ValueAt(c)
      ensures node.parent == (if c == 1 then null else At(Up(c))) && node in repr
    {
      assert Ask(OfTree, 0);
    }

    /** How many nodes are neither in the tree nor free. */
    ghost function Astray(): int
      reads `live, `spare, `repr
    {
      |repr| - |live| - |spare|
    }

    /** In order, and no node is lost. */
    ghost predicate Valid()
      reads this, repr
    {
      Sound(0) && count == |stored| && Astray() == 0
    }

    constructor ()
      ensures Valid() && fresh(repr) && stored == map[] && live.Keys == {1} && spare == []
    {
      var node := new RadixNode();
      root, free, count := node, null, 0;
      live, stored, spare, repr := map[1 := node], map[], [], {node};
      new;
      root.code := 1;
    }

    lemma NotLive(node: RadixNode)
      requires Linked() && 0 !in live && node.code == 0
      ensures forall c :: c in live ==> live[c] != node
    {
      forall c | c in live ensures live[c] != node {
        assert live[c].code == c;
      }
    }

    /** A node from the list of free nodes, or a new one if there is none. */
    method Alloc(ghost but: nat) returns (node: RadixNode)
      requires Sound(but)
      modifies `free, `spare, `repr, repr
      ensures Sound(but) && fresh(repr - old(repr)) && node in repr
      ensures node.right == node.left == node.parent == null && node.value == null && node.code == 0
      ensures forall c :: c in live ==> live[c] != node
      ensures node !in spare && spare == (if old(spare) == [] then [] else old(spare)[1..])
      ensures old(spare) != [] ==> node == old(spare)[0] && repr == old(repr)
      ensures Astray() == old(Astray()) + 1
    {
      assert Ask(OfTree, 0);
      if free != null {
        node := free;
        NotLive(node);
        free := free.right;
        spare := spare[1..];
        node.left, node.right, node.parent := null, null, null;
        node.value := null;
        return;
      }
      node := new RadixNode();
      repr := repr + {node};
    }

    // ---------- insertion ----------

    lemma OnlyLive(node: RadixNode, c: nat)
      requires Linked() && Chained() && c in live && c > 0 && live[c] == node
      ensures node !in spare
      ensures forall e :: e in live && e != c ==> live[e] != node
    {
      assert live[c].code == c;
      forall i | 0 <= i < |spare| ensures spare[i] != node {
        assert spare[i].code == 0;
      }
      forall e | e in live && e != c ensures live[e] != node {
        assert live[e].code == e;
      }
    }

    /** A node outside the tree is made ready for its place. */
    method Prepare(node: RadixNode, next: RadixNode, ghost c: nat, ghost d: nat)
      requires Sound(c) && next in repr && next !in spare && forall e :: e in live ==> live[e] != next
      modifies next
      ensures Sound(c) && next.right == next.left == null && next.parent == node && next.value == null && next.code == d
    {
      assert Ask(OfTree, 0);
      next.right, next.left, next.parent := null, null, node;
      next.value := null;
      next.code := d;
    }

    /** It gets its place on the left. */
    method LinkLeft(node: RadixNode, next: RadixNode, ghost c: nat)
      requires Sound(c) && c in live && live[c] == node && 2 * c !in live
      requires Closed(live.Keys + {2 * c}) && Pruned(live.Keys + {2 * c}, stored.Keys, 2 * c)
      requires next in repr && next !in spare && next.code == 2 * c
      requires next.right == next.left == null && next.parent == node && next.value == null
      modifies `live, node`left
      ensures Sound(2 * c) && live == old(live)[2 * c := next]
    {
      assert Ask(OfTree, 0);
      OnlyLive(node, c);
      ChildIsNew(live.Keys, 2 * c);
      node.left := next;
      live := live[2 * c := next];
      assert live.Keys == old(live).Keys + {2 * c};
    }

    /** It gets its place on the right. */
    method LinkRight(node: RadixNode, next: RadixNode, ghost c: nat)
      requires Sound(c) && c in live && live[c] == node && 2 * c + 1 !in live
      requires Closed(live.Keys + {2 * c + 1}) && Pruned(live.Keys + {2 * c + 1}, stored.Keys, 2 * c + 1)
      requires next in repr && next !in spare && next.code == 2 * c + 1
      requires next.right == next.left == null && next.parent == node && next.value == null
      modifies `live, node`right
      ensures Sound(2 * c + 1) && live == old(live)[2 * c + 1 := next]
    {
      assert Ask(OfTree, 0);
      OnlyLive(node, c);
      ChildIsNew(live.Keys, 2 * c + 1);
      node.right := next;
      live := live[2 * c + 1 := next];
      assert live.Keys == old(live).Keys + {2 * c + 1};
    }

    /** A new node below `node`, on the side where there is none. */
    method AddChild(node: RadixNode, right: bool, ghost c: nat) returns (next: RadixNode)
      requires Sound(c) && c in live && live[c] == node && Child(c, right) !in live
      modifies `free, `spare, `repr, `live, repr
      ensures Sound(Child(c, right)) && fresh(repr - old(repr))
      ensures live == old(live)[Child(c, right) := next] && Astray() == old(Astray())
      ensures spare == (if old(spare) == [] then [] else old(spare)[1..])
      ensures old(spare) != [] ==> repr == old(repr)
    {
      NodeSays(node, c, c);
      next := Alloc(c);
      Prepare(node, next, c, Child(c, right));
      GrowShape(live.Keys, stored.Keys, c, Child(c, right));
      if right {
        LinkRight(node, next, c);
      } else {
        LinkLeft(node, next, c);
      }
      OneNodeMore(old(live), Child(c, right), next);
    }

    /** As far down towards the prefix as there are nodes. */
    method Descend(key: nat, mask: nat) returns (node: RadixNode, left: nat, bit: nat)
      requires Valid()
      ensures left <= mask && bit == BitAt(mask - left)
      ensures Code(key, mask - left) in live && live[Code(key, mask - left)] == node
      ensures left > 0 ==> Code(key, mask - left + 1) !in live
    {
      node, left, bit := root, mask, 0x8000_0000;
      while left > 0
        invariant left <= mask && bit == BitAt(mask - left)
        invariant Code(key, mask - left) in live && live[Code(key, mask - left)] == node
      {
        NodeSays(node, Code(key, mask - left), 0);
        var next := if HasBit(key, bit) then node.right else node.left;
        if next == null {
          break;
        }
        bit := bit / 2;
        node := next;
        left := left - 1;
      }
    }

    /** Nodes for the rest of the prefix. */
    method Extend(key: nat, mask: nat, start: RadixNode, togo: nat, first: nat) returns (node: RadixNode)
      requires Valid() && 0 < togo <= mask && first == BitAt(mask - togo)
      requires Code(key, mask - togo) in live && live[Code(key, mask - togo)] == start
      requires Code(key, mask - togo + 1) !in live
      modifies `free, `spare, `repr, `live, repr
      ensures Sound(Code(key, mask)) && fresh(repr - old(repr))
      ensures Code(key, mask) in live && live[Code(key, mask)] == node && Code(key, mask) !in stored
      ensures stored == old(stored) && Astray() == old(Astray()) && Rest(spare, old(spare)) && Part(old(live), live)
      ensures spare != [] ==> repr == old(repr)
    {
      node := start;
      var left, bit := togo, first;
      ghost var was := live.Keys;
      while left > 0
        invariant left <= togo && bit == BitAt(mask - left) && stored == old(stored) && fresh(repr - old(repr))
        invariant Sound(Code(key, mask - left))
        invariant Code(key, mask - left) in live && live[Code(key, mask - left)] == node
        invariant left > 0 ==> Code(key, mask - left + 1) !in live
        invariant left < togo ==> Code(key, mask - left) !in stored
        invariant Astray() == old(Astray()) && Rest(spare, old(spare)) && Part(old(live), live)
        invariant spare != [] ==> repr == old(repr)
      {
        ghost var c := Code(key, mask - left);
        ghost var d := Child(c, HasBit(key, bit));
        ChildIsNew(live.Keys, d);
        node := AddChild(node, HasBit(key, bit), c);
        bit := bit / 2;
        left := left - 1;
      }
    }

    method Put(node: RadixNode, value: object, ghost c: nat)
      requires Sound(c) && c in live && live[c] == node
      modifies `stored, node`value
      ensures Sound(0) && stored == old(stored)[c := value]
    {
      assert Ask(OfTree, 0);
      OnlyLive(node, c);
      StoreShape(live.Keys, stored.Keys, c);
      node.value := value;
      stored := stored[c := value];
      assert stored.Keys == old(stored).Keys + {c};
    }

    /** The prefix, which has no node, gets one, with the value. */
    method Grow(key: nat, mask: nat, start: RadixNode, left: nat, bit: nat, value: object)
      requires Valid() && 0 < left <= mask && bit == BitAt(mask - left)
      requires Code(key, mask - left) in live && live[Code(key, mask - left)] == start
      requires Code(key, mask - left + 1) !in live
      modifies `free, `spare, `repr, `live, `stored, repr
      ensures Sound(0) && fresh(repr - old(repr)) && Code(key, mask) !in old(stored)
      ensures stored == old(stored)[Code(key, mask) := value]
      ensures Astray() == old(Astray()) && Rest(spare, old(spare)) && Part(old(live), live)
      ensures spare != [] ==> repr == old(repr)
    {
      var node := Extend(key, mask, start, left, bit);
      NodeSays(node, Code(key, mask), Code(key, mask));
      Put(node, value, Code(key, mask));
    }

    /** The prefix gets the value, unless it has one. The nodes it takes are free ones as long as
        there are any. */
    method Insert(key: nat, mask: nat, value: object) returns (r: Outcome)
      requires Valid()
      modifies this, repr
      ensures Valid() && fresh(repr - old(repr))
      ensures r == if Code(key, mask) in old(stored) then DupKey else Succeed
      ensures stored == if r == DupKey then old(stored) else old(stored)[Code(key, mask) := value]
      ensures r == DupKey ==> live == old(live) && spare == old(spare)
      ensures Part(old(live), live) && Rest(spare, old(spare)) && (spare != [] ==> repr == old(repr))
    {
      var node, left, bit := Descend(key, mask);
      NodeSays(node, Code(key, mask - left), 0);
      if left == 0 {
        if node.value != null {
          return DupKey;
        }
        Put(node, value, Code(key, mask));
      } else {
        Grow(key, mask, node, left, bit, value);
      }
      count := count + 1;
      return Succeed;
    }

    // ---------- deletion ----------

    /** The node of the prefix, if there is one. */
    method Seek(key: nat, mask: nat) returns (node: RadixNode?)
      requires Valid()
      ensures node == At(Code(key, mask))
    {
      node := root;
      var left, bit := mask, 0x8000_0000;
      while node != null && left > 0
        invariant 0 <= left <= mask && bit == BitAt(mask - left) && node == At(Code(key, mask - left))
      {
        NodeSays(node, Code(key, mask - left), 0);
        node := if HasBit(key, bit) then node.right else node.left;
        bit := bit / 2;
        left := left - 1;
      }
      if node == null {
        PathEnds(live.Keys, key, mask - left, mask);
      }
    }

    /** A node without children leaves the tree for the list of free nodes. */
    method Cut(node: RadixNode, ghost c: nat)
      requires Sound(c) && c > 1 && c in live && live[c] == node && 2 * c !in live && 2 * c + 1 !in live
      modifies `live, `stored, `spare, `free, repr
      ensures Sound(Up(c)) && live == old(live) - {c} && stored == old(stored) - {c} && spare == [node] + old(spare)
      ensures Up(c) in live && node.parent == live[Up(c)] && Astray() == old(Astray())
    {
      assert Ask(OfTree, 0);
      CutShape(live.Keys, stored.Keys, c);
      OnlyLive(node, c);
      OneNodeLess(live, c);
      Loosen(node, c);
      node.right := free;
      free := node;
      spare := [node] + spare;
    }

    /** The parent forgets the node, which stands for no prefix any more. */
    method Loosen(node: RadixNode, ghost c: nat)
      requires Sound(c) && c > 1 && c in live && live[c] == node && 2 * c !in live && 2 * c + 1 !in live
      modifies `live, `stored, repr
      ensures Sound(Up(c)) && live == old(live) - {c} && stored == old(stored) - {c}
      ensures node in repr && node !in spare && node.code == 0 && forall e :: e in live ==> live[e] != node
      ensures Up(c) in live && node.parent == live[Up(c)]
    {
      assert Ask(OfTree, 0);
      CutShape(live.Keys, stored.Keys, c);
      OnlyLive(node, c);
      assert node.parent == At(Up(c));
      Unlink(node, node.parent, c);
      node.code := 0;
    }

    method Unlink(node: RadixNode, parent: RadixNode, ghost c: nat)
      requires Sound(c) && c > 1 && c in live && live[c] == node && Up(c) in live && live[Up(c)] == parent
      requires Closed(live.Keys - {c}) && Pruned(live.Keys - {c}, stored.Keys - {c}, Up(c))
      modifies `live, `stored, parent`left, parent`right
      ensures Sound(Up(c)) && live == old(live) - {c} && stored == old(stored) - {c}
    {
      assert Ask(OfTree, 0);
      OnlyLive(node, c);
      OnlyLive(parent, Up(c));
      assert c == 2 * Up(c) || c == 2 * Up(c) + 1;
      if parent.right == node {
        parent.right := null;
      } else {
        parent.left := null;
      }
      live, stored := live - {c}, stored - {c};
      assert live.Keys == old(live).Keys - {c} && stored.Keys == old(stored).Keys - {c};
    }

    /** From a childless node on, whatever is bare goes to the list of free nodes. */
    method Prune(start: RadixNode, ghost first: nat)
      requires Sound(0) && first > 1 && first in live && live[first] == start && start.left == start.right == null
      modifies `live, `stored, `spare, `free, repr
      ensures Sound(0) && stored == old(stored) - {first} && Astray() == old(Astray())
      ensures Freed(old(live), old(spare), live, spare)
    {
      var node := start;
      ghost var c := first;
      NodeSays(node, c, 0);
      while true
        invariant Sound(c) && c > 1 && c in live && live[c] == node && 2 * c !in live && 2 * c + 1 !in live
        invariant stored - {c} == old(stored) - {first} && repr == old(repr) && Astray() == old(Astray())
        invariant Freed(old(live), old(spare), live, spare)
        decreases c
      {
        OneMoreFreed(old(live), old(spare), live, spare, c);
        Cut(node, c);
        node := node.parent;
        c := Up(c);
        NodeSays(node, c, c);
        if node.right != null || node.left != null {
          break;
        }
        if node.value != null {
          break;
        }
        if node.parent == null {
          break;
        }
      }
      NoException(live.Keys, stored.Keys, c);
    }

    method Forget(node: RadixNode, ghost c: nat)
      requires Sound(0) && c in live && live[c] == node && (2 * c in live || 2 * c + 1 in live)
      modifies `stored, node`value
      ensures Sound(0) && stored == old(stored) - {c}
    {
      assert Ask(OfTree, 0);
      OnlyLive(node, c);
      ForgetShape(live.Keys, stored.Keys, c);
      node.value := null;
      stored := stored - {c};
      assert stored.Keys == old(stored).Keys - {c};
    }

    /** No childless node stands in vain. */
    lemma LeafIsStored(node: RadixNode, c: nat)
      requires Sound(0) && c in live && c > 1 && live[c] == node && node.left == node.right == null
      ensures c in stored && node.value == stored[c]
    {
      assert Ask(OfTree, 0);
      assert !Bare(live.Keys, stored.Keys, c);
    }

    /** The prefix loses its value, and the tree every node that has become bare: it goes in front
        of the free ones. */
    method Delete(key: nat, mask: nat) returns (r: Outcome)
      requires Valid() && (mask > 0 || root.left != null || root.right != null)
      modifies this, repr
      ensures Valid() && repr == old(repr)
      ensures r == if Code(key, mask) in old(stored) then Succeed else Failed
      ensures stored == old(stored) - {Code(key, mask)}
      ensures r == Failed ==> live == old(live) && spare == old(spare)
      ensures Part(live, old(live)) && Rest(old(spare), spare)
      ensures forall c :: c in old(live) && c !in live ==> old(live)[c] in spare
    {
      assert Ask(OfRecords, 0);
      var node := Seek(key, mask);
      if node == null {
        return Failed;
      }
      assert mask > 0 ==> Code(key, mask) > 1;
      OneLess(Code(key, mask));
      var erased := Erase(node, Code(key, mask));
      if !erased {
        return Failed;
      }
      count := count - 1;
      return Succeed;
    }

    method Erase(node: RadixNode, ghost c: nat) returns (erased: bool)
      requires Sound(0) && c in live && live[c] == node && (c > 1 || root.left != null || root.right != null)
      modifies `live, `stored, `spare, `free, repr
      ensures Sound(0) && erased == (c in old(stored)) && stored == old(stored) - {c}
      ensures !erased ==> stored == old(stored) && live == old(live) && spare == old(spare)
      ensures Astray() == old(Astray()) && Freed(old(live), old(spare), live, spare)
    {
      erased := true;
      NodeSays(node, c, 0);
      if node.right != null || node.left != null {
        if node.value == null {
          return false;
        }
        Forget(node, c);
      } else {
        LeafIsStored(node, c);
        Prune(node, c);
      }
    }

    lemma OneLess(c: nat)
      ensures c in stored ==> |stored - {c}| == |stored| - 1
    {
      assert (stored - {c}).Keys == stored.Keys - {c};
      assert c in stored ==> |stored.Keys - {c}| == |stored.Keys| - 1;
    }

    // ---------- lookup ----------

    /** The value of the longest stored prefix of the key. */
    method Find(key: nat) returns (value: object?)
      requires Valid()
      ensures value == null ==> forall n: nat :: Code(key, n) !in stored
      ensures value != null ==> exists n: nat :: Longest(stored.Keys, key, n) && value == stored[Code(key, n)]
    {
      ghost var top := Bound(live.Keys);
      value := null;
      var node, bit := root, 0x8000_0000;
      ghost var depth: nat, best: int := 0, -1;
      while node != null
        invariant node == At(Code(key, depth)) && bit == BitAt(depth)
        invariant LongestSoFar(stored.Keys, key, depth, best)
        invariant value == if best < 0 then null else stored[Code(key, best)]
        decreases if node == null then 0 else top + 1 - Code(key, depth)
      {
        NodeSays(node, Code(key, depth), 0);
        if node.value != null {
          value := node.value;
          best := depth;
        }
        node := if HasBit(key, bit) then node.right else node.left;
        bit := bit / 2;
        depth := depth + 1;
      }
      LongestInAll(live.Keys, stored.Keys, key, depth, best);
    }

    // ---------- walking the tree ----------

    /** The values below the node, in the order of their prefixes. */
    method WalkHelper(node: RadixNode, ghost c: nat, ghost top: nat) returns (values: seq<object>)
      requires Sound(0) && c in live && live[c] == node && c <= top
      requires forall d :: d in live ==> d <= top
      ensures Values(Visit(live.Keys, stored.Keys, c, top, false), values)
      decreases top - c
    {
      NodeSays(node, c, 0);
      values := [];
      ghost var codes := [];
      if node.left != null {
        values := WalkHelper(node.left, 2 * c, top);
        codes := Visit(live.Keys, stored.Keys, 2 * c, top, false);
      }
      if node.value != null {
        ValuesJoin(codes, values, [c], [node.value]);
        values, codes := values + [node.value], codes + [c];
      }
      if node.right != null {
        var rest := WalkHelper(node.right, 2 * c + 1, top);
        ghost var right := Visit(live.Keys, stored.Keys, 2 * c + 1, top, false);
        ValuesJoin(codes, values, right, rest);
        values, codes := values + rest, codes + right;
      }
      assert codes == Visit(live.Keys, stored.Keys, c, top, false);
    }

    lemma ValuesJoin(codes: seq<nat>, values: seq<object>, codes': seq<nat>, values': seq<object>)
      requires Values(codes, values) && Values(codes', values')
      ensures Values(codes + codes', values + values')
    {
    }

    ghost predicate Values(codes: seq<nat>, values: seq<object>)
      reads `stored
    {
      |values| == |codes| && forall i :: 0 <= i < |codes| ==> codes[i] in stored && values[i] == stored[codes[i]]
    }

    /** The stored prefixes, each once. */
    ghost predicate AllStored(codes: seq<nat>)
      reads `stored
    {
      Distinct(codes) && forall c :: c in codes <==> c in stored
    }

    /** Every stored value is visited exactly once, and in the order of the prefixes. */
    method Walk() returns (values: seq<object>)
      requires Valid()
      ensures exists codes: seq<nat> :: AllStored(codes) && InTurn(codes, false) && Values(codes, values)
    {
      ghost var top := Bound(live.Keys);
      values := WalkHelper(root, 1, top);
      AllVisited(top, false);
    }

    lemma AllVisited(top: nat, first: bool)
      requires Sound(0) && forall d :: d in live ==> d <= top
      ensures AllStored(Visit(live.Keys, stored.Keys, 1, top, first))
      ensures InTurn(Visit(live.Keys, stored.Keys, 1, top, first), first)
    {
      VisitInTurn(live.Keys, stored.Keys, 1, top, first);
      VisitMeans(live.Keys, stored.Keys, 1, top, first);
      forall c | c in stored ensures Above(1, c) {
        RootIsAbove(c);
      }
    }

    /** The addresses, masks and values below the node, whose address is `ip`. */
    method PrintHelper(node: RadixNode, ip: int, mask: nat, ghost c: nat, ghost top: nat) returns (rows: seq<Row>)
      requires Sound(0) && c in live && live[c] == node && c <= top
      requires forall d :: d in live ==> d <= top && Length(d) <= 32
      requires ip == Address(c) && mask == Length(c)
      ensures Printed(Visit(live.Keys, stored.Keys, c, top, true), rows)
      decreases top - c
    {
      NodeSays(node, c, 0);
      AddressHasPrefix(c);
      BelowPrefix(c);
      ghost var here := if c in stored then [c] else [];
      var base := ip;
      rows := [];
      if node.value != null {
        base := ClearLast(ip, 32 - mask);
        rows := [Row(base, mask, node.value)];
      }
      assert Printed(here, rows);
      ghost var left, right := [], [];
      if node.left != null {
        var rest := PrintHelper(node.left, base, mask + 1, 2 * c, top);
        left := Visit(live.Keys, stored.Keys, 2 * c, top, true);
        PrintedJoin(here, rows, left, rest);
        rows := rows + rest;
      }
      if node.right != null {
        var rest := PrintHelper(node.right, SetBit(base, BitAt(mask)), mask + 1, 2 * c + 1, top);
        right := Visit(live.Keys, stored.Keys, 2 * c + 1, top, true);
        PrintedJoin(here + left, rows, right, rest);
        rows := rows + rest;
      }
      assert Visit(live.Keys, stored.Keys, c, top, true) == here + left + right;
    }

    lemma PrintedJoin(codes: seq<nat>, rows: seq<Row>, codes': seq<nat>, rows': seq<Row>)
      requires Printed(codes, rows) && Printed(codes', rows')
      ensures Printed(codes + codes', rows + rows')
    {
    }

    ghost predicate Printed(codes: seq<nat>, rows: seq<Row>)
      reads `stored
    {
      && |rows| == |codes|
      && forall i :: 0 <= i < |codes| ==>
           codes[i] in stored && rows[i] == Row(Address(codes[i]), Length(codes[i]), stored[codes[i]])
    }

    /** The addresses go up, and of equal ones the shorter prefix comes first. */
    lemma PrintedAscends(codes: seq<nat>, rows: seq<Row>)
      requires AllStored(codes) && InTurn(codes, true) && Printed(codes, rows)
      requires forall c :: c in stored ==> c >= 1 && Length(c) <= 32
      ensures Ascending(rows)
    {
      forall i, j | 0 <= i < j < |rows|
        ensures rows[i].ip < rows[j].ip || (rows[i].ip == rows[j].ip && rows[i].mask < rows[j].mask)
      {
        PrecedesByAddress(codes[i], codes[j]);
      }
    }

    lemma AllPrinted(top: nat, rows: seq<Row>)
      requires Sound(0) && (forall d :: d in live ==> d <= top) && forall c :: c in stored ==> Length(c) <= 32
      requires Printed(Visit(live.Keys, stored.Keys, 1, top, true), rows)
      ensures exists codes: seq<nat> :: AllStored(codes) && Printed(codes, rows)
      ensures Ascending(rows)
    {
      AllVisited(top, true);
      assert 0 !in stored;
      PrintedAscends(Visit(live.Keys, stored.Keys, 1, top, true), rows);
    }

    /** What is printed are exactly the stored prefixes, in ascending order. */
    method Print() returns (rows: seq<Row>)
      requires Valid() && forall c :: c in stored ==> Length(c) <= 32
      ensures exists codes: seq<nat> :: AllStored(codes) && Printed(codes, rows)
      ensures Ascending(rows)
    {
      ghost var top := Bound(live.Keys);
      NoLonger(live.Keys, stored.Keys, 32);
      rows := PrintHelper(root, 0, 0, 1, top);
      AllPrinted(top, rows);
    }

    /** The prefixes that have been printed. */
    lemma CodesOf(rows: seq<Row>) returns (codes: seq<nat>)
      requires forall c :: c in stored ==> c >= 1 && Length(c) <= 32
      requires exists codes: seq<nat> :: AllStored(codes) && Printed(codes, rows)
      ensures |codes| == |rows| && AllStored(codes)
      ensures forall i :: 0 <= i < |rows| ==> Codes(rows[i], codes[i]) && rows[i].value == stored[codes[i]]
    {
      codes :| AllStored(codes) && Printed(codes, rows);
      forall i | 0 <= i < |rows| ensures Codes(rows[i], codes[i]) {
        AddressHasPrefix(codes[i]);
      }
    }

    // ---------- what the tree amounts to ----------

    /** The nodes are the root and the prefixes of what is stored. */
    lemma LiveMeans(c: nat)
      requires Valid()
      ensures c in live <==> c == 1 || (c > 1 && exists s :: s in stored && Above(c, s))
    {
      LiveIff(live.Keys, stored.Keys, c);
    }

    /** No node is lost: whatever was allocated is in the tree or free. */
    lemma NoneIsLost(node: RadixNode)
      requires Valid() && node in repr
      ensures node in spare || (node.code in live && live[node.code] == node)
    {
      FreeIsApart();
      forall c, d | c in live && d in live && c != d ensures live[c] != live[d] {
        NodeCode(c);
        NodeCode(d);
      }
      assert (forall c :: c in live ==> live[c] in repr) && (forall n :: n in spare ==> n in repr) by {
        assert Ask(OfTree, 0);
      }
      AllAccounted(live, spare, repr);
      if node !in spare {
        var c :| c in live && live[c] == node;
        NodeCode(c);
      }
    }

    lemma NodeCode(c: nat)
      requires Valid() && c in live
      ensures live[c].code == c
    {
      assert Ask(OfTree, 0);
    }

    /** No node is free twice, and none is free and in the tree. */
    lemma FreeIsApart()
      requires Valid()
      ensures Distinct(spare) && forall i, c :: 0 <= i < |spare| && c in live ==> spare[i] != live[c]
    {
      assert Ask(OfTree, 0);
      forall i, c | 0 <= i < |spare| && c in live ensures spare[i] != live[c] {
        assert spare[i].code == 0 && live[c].code == c;
      }
    }
  }

  /** Inserting a new prefix and deleting it again leaves no trace in the tree. */
  method InsertThenDelete(t: RadixTree, key: nat, mask: nat, value: object)
    requires t.Valid() && mask > 0 && Code(key, mask) !in t.stored
    modifies t, t.repr
    ensures t.Valid() && t.stored == old(t.stored) && t.live.Keys == old(t.live.Keys) && t.count == old(t.count)
  {
    ghost var live := t.live.Keys;
    var r := t.Insert(key, mask, value);
    r := t.Delete(key, mask);
    assert t.stored == old(t.stored);
    ShapeIsUnique(live, t.live.Keys, t.stored.Keys);
  }

  /** A line of the printout: an address, the length of its prefix, and the value. */
  datatype Row = Row(ip: int, mask: nat, value: object)

  predicate Ascending(rows: seq<Row>) {
    forall i, j :: 0 <= i < j < |rows| ==>
      rows[i].ip < rows[j].ip || (rows[i].ip == rows[j].ip && rows[i].mask < rows[j].mask)
  }

  /** `stored` holds what the first `n` rows say, and no more. */
  ghost predicate Holds(stored: map<nat, object>, codes: seq<nat>, rows: seq<Row>, n: nat)
    requires n <= |codes| == |rows|
  {
    && (forall c :: c in stored <==> c in codes[..n])
    && forall i :: 0 <= i < n ==> codes[i] in stored && stored[codes[i]] == rows[i].value
  }

  lemma HoldsNext(stored: map<nat, object>, codes: seq<nat>, rows: seq<Row>, n: nat)
    requires n < |codes| == |rows| && Distinct(codes) && Holds(stored, codes, rows, n)
    ensures codes[n] !in stored && Holds(stored[codes[n] := rows[n].value], codes, rows, n + 1)
  {
    assert codes[..n + 1] == codes[..n] + [codes[n]];
  }

  /** What is printed, inserted into a new tree, gives a tree that holds the same and has the same shape. */
  method Rebuild(t: RadixTree) returns (t': RadixTree)
    requires t.Valid() && forall c :: c in t.stored ==> Length(c) <= 32
    ensures t'.Valid() && t'.stored == t.stored && t'.live.Keys == t.live.Keys && t'.count == t.count
  {
    ghost var live, stored := t.live.Keys, t.stored;
    var rows := t.Print();
    ghost var codes := t.CodesOf(rows);
    t' := Refill(rows, codes, stored);
    ShapeIsUnique(live, t'.live.Keys, stored.Keys);
  }

  method Refill(rows: seq<Row>, ghost codes: seq<nat>, ghost stored: map<nat, object>) returns (t: RadixTree)
    requires |codes| == |rows| && Distinct(codes) && forall c :: c in codes <==> c in stored
    requires forall i :: 0 <= i < |rows| ==> Codes(rows[i], codes[i]) && rows[i].value == stored[codes[i]]
    ensures fresh(t) && t.Valid() && t.stored == stored
  {
    t := new RadixTree();
    for i := 0 to |rows|
      invariant t.Valid() && fresh(t) && fresh(t.repr) && Holds(t.stored, codes, rows, i)
    {
      HoldsNext(t.stored, codes, rows, i);
      var r := t.Insert(rows[i].ip, rows[i].mask, rows[i].value);
    }
    HoldsAll(t.stored, codes, rows, stored);
  }

  lemma HoldsAll(stored: map<nat, object>, codes: seq<nat>, rows: seq<Row>, goal: map<nat, object>)
    requires |codes| == |rows| && Holds(stored, codes, rows, |rows|) && forall c :: c in codes <==> c in goal
    requires forall i :: 0 <= i < |rows| ==> rows[i].value == goal[codes[i]]
    ensures stored == goal
  {
    assert codes[..|rows|] == codes;
    forall c | c in codes ensures c in stored && stored[c] == goal[c] {
      var i :| 0 <= i < |codes| && codes[i] == c;
    }
  }

  /** The address and mask of the row stand for the prefix `c`. */
  predicate Codes(row: Row, c: nat) {
    row.ip >= 0 && Code(row.ip, row.mask) == c
  }
}
