/** Which prefixes have a node in a tree of prefixes that holds no node in vain. */
module PrefixShape {
  import opened Powers
  import opened PrefixCode
  import opened Sequences

  function Up(c: nat): nat {
    c / 2
  }

  /** The root is there, and above every node all the way up to it. */
  predicate Closed(live: set<nat>) {
    && 1 in live && 0 !in live
    && forall c {:trigger Up(c)} :: c in live && c > 1 ==> Up(c) in live
  }

  /** A node without a value and without children. */
  predicate Bare(live: set<nat>, stored: set<nat>, c: nat) {
    c !in stored && 2 * c !in live && 2 * c + 1 !in live
  }

  /** Below the root no node is bare, except perhaps `but`. */
  predicate Pruned(live: set<nat>, stored: set<nat>, but: nat) {
    forall c {:trigger Bare(live, stored, c)} :: c in live && c > 1 && c != but ==> !Bare(live, stored, c)
  }

  /** `c` is a prefix of `s`. */
  predicate Above(c: nat, s: nat)
    decreases s
  {
    c == s || (s > 1 && Above(c, Up(s)))
  }

  lemma {:induction false} AboveStep(c: nat, s: nat)
    requires c > 1 && Above(c, s)
    ensures Above(Up(c), s)
    decreases s
  {
    if c != s {
      AboveStep(c, Up(s));
    }
  }

  lemma {:induction false} AboveIsLive(live: set<nat>, c: nat, s: nat)
    requires Closed(live) && s in live && c >= 1 && Above(c, s)
    ensures c in live
    decreases s
  {
    if c != s {
      AboveIsLive(live, c, Up(s));
    }
  }

  lemma {:induction false} Bound(live: set<nat>) returns (top: nat)
    ensures forall c :: c in live ==> c <= top
  {
    if live == {} {
      top := 0;
    } else {
      var c :| c in live;
      top := Bound(live - {c});
      assert forall d :: d in live ==> d == c || d in live - {c};
      top := if c > top then c else top;
    }
  }

  /** Below a node there is a stored prefix. */
  lemma {:induction false} StoredBelow(live: set<nat>, stored: set<nat>, c: nat, top: nat) returns (s: nat)
    requires Pruned(live, stored, 0) && c in live && c > 1 && forall d :: d in live ==> d <= top
    ensures s in stored && Above(c, s)
    decreases top - c
  {
    assert !Bare(live, stored, c);
    if c in stored {
      s := c;
    } else {
      var d := if 2 * c in live then 2 * c else 2 * c + 1;
      s := StoredBelow(live, stored, d, top);
      AboveStep(d, s);
    }
  }

  /** The nodes are the root and the prefixes of what is stored. */
  lemma LiveIff(live: set<nat>, stored: set<nat>, c: nat)
    requires Closed(live) && Pruned(live, stored, 0) && stored <= live
    ensures c in live <==> c == 1 || (c > 1 && exists s :: s in stored && Above(c, s))
  {
    if c in live && c > 1 {
      var top := Bound(live);
      var s := StoredBelow(live, stored, c, top);
    }
    if c > 1 && exists s :: s in stored && Above(c, s) {
      var s :| s in stored && Above(c, s);
      AboveIsLive(live, c, s);
    }
  }

  lemma {:induction false} AboveIsShorter(c: nat, s: nat)
    requires c >= 1 && Above(c, s)
    ensures Length(c) <= Length(s)
    decreases s
  {
    if c != s {
      AboveIsShorter(c, Up(s));
    }
  }

  /** No node stands for a longer prefix than the stored ones. */
  lemma NoLonger(live: set<nat>, stored: set<nat>, most: nat)
    requires Closed(live) && Pruned(live, stored, 0) && stored <= live
    requires forall s :: s in stored ==> Length(s) <= most
    ensures forall c :: c in live ==> Length(c) <= most
  {
    forall c | c in live ensures Length(c) <= most {
      LiveIff(live, stored, c);
      if c > 1 {
        var s :| s in stored && Above(c, s);
        AboveIsShorter(c, s);
      }
    }
  }

  /** What is stored decides which nodes there are. */
  lemma ShapeIsUnique(live: set<nat>, live': set<nat>, stored: set<nat>)
    requires Closed(live) && Pruned(live, stored, 0) && stored <= live
    requires Closed(live') && Pruned(live', stored, 0) && stored <= live'
    ensures live == live'
  {
    forall c ensures c in live <==> c in live' {
      LiveIff(live, stored, c);
      LiveIff(live', stored, c);
    }
  }

  // ---------- what the operations do to the shape ----------

  lemma ChildIsNew(live: set<nat>, c: nat)
    requires Closed(live) && c !in live && c >= 1
    ensures 2 * c !in live && 2 * c + 1 !in live
  {
    assert Up(2 * c) == c && Up(2 * c + 1) == c;
  }

  /** A new bare node below `c`. */
  lemma GrowShape(live: set<nat>, stored: set<nat>, c: nat, d: nat)
    requires Closed(live) && Pruned(live, stored, c) && c in live && d !in live && stored <= live && d > 1 && Up(d) == c
    ensures Closed(live + {d}) && Pruned(live + {d}, stored, d)
  {
    var live' := live + {d};
    forall e {:trigger Bare(live', stored, e)} | e in live' && e > 1 && e != d ensures !Bare(live', stored, e) {
      assert e != c ==> !Bare(live, stored, e);
    }
  }

  /** A value for the one bare node, or for any other. */
  lemma StoreShape(live: set<nat>, stored: set<nat>, c: nat)
    requires Pruned(live, stored, c)
    ensures Pruned(live, stored + {c}, 0)
  {
    forall e {:trigger Bare(live, stored + {c}, e)} | e in live && e > 1 ensures !Bare(live, stored + {c}, e) {
      assert e != c ==> !Bare(live, stored, e);
    }
  }

  /** A node with children loses its value. */
  lemma ForgetShape(live: set<nat>, stored: set<nat>, c: nat)
    requires Pruned(live, stored, 0) && (2 * c in live || 2 * c + 1 in live)
    ensures Pruned(live, stored - {c}, 0)
  {
    forall e {:trigger Bare(live, stored - {c}, e)} | e in live && e > 1 ensures !Bare(live, stored - {c}, e) {
      assert !Bare(live, stored, e);
    }
  }

  /** A childless node goes. */
  lemma CutShape(live: set<nat>, stored: set<nat>, c: nat)
    requires Closed(live) && Pruned(live, stored, c) && c in live && c > 1 && 2 * c !in live && 2 * c + 1 !in live
    ensures Closed(live - {c}) && Pruned(live - {c}, stored - {c}, Up(c))
  {
    var live', stored' := live - {c}, stored - {c};
    forall e {:trigger Up(e)} | e in live' && e > 1 ensures Up(e) in live' {
      assert Up(e) == c ==> e == 2 * c || e == 2 * c + 1;
    }
    forall e {:trigger Bare(live', stored', e)} | e in live' && e > 1 && e != Up(c) ensures !Bare(live', stored', e) {
      assert !Bare(live, stored, e);
    }
  }

  /** The exception is none. */
  lemma NoException(live: set<nat>, stored: set<nat>, c: nat)
    requires Pruned(live, stored, c) && (c <= 1 || !Bare(live, stored, c))
    ensures Pruned(live, stored, 0)
  {
    forall e {:trigger Bare(live, stored, e)} | e in live && e > 1 ensures !Bare(live, stored, e) {
    }
  }

  // ---------- the longest stored prefix ----------

  /** The longest prefix of `key` among `stored` has length `n`. */
  ghost predicate Longest(stored: set<nat>, key: nat, n: nat) {
    Code(key, n) in stored && forall m: nat :: m > n ==> Code(key, m) !in stored
  }

  /** Of the prefixes of `key` shorter than `len`, the longest stored one has length `best`, if that is not -1. */
  predicate LongestSoFar(stored: set<nat>, key: nat, len: nat, best: int) {
    && -1 <= best < len && (best >= 0 ==> Code(key, best) in stored)
    && forall m: nat :: best < m < len ==> Code(key, m) !in stored
  }

  lemma LongestInAll(live: set<nat>, stored: set<nat>, key: nat, len: nat, best: int)
    requires Closed(live) && stored <= live && Code(key, len) !in live && LongestSoFar(stored, key, len, best)
    ensures best >= 0 ==> Longest(stored, key, best)
    ensures best < 0 ==> forall m: nat :: Code(key, m) !in stored
  {
    forall m: nat | m > best ensures Code(key, m) !in stored {
      if m >= len {
        PathEnds(live, key, len, m);
      }
    }
  }

  /** Where the path ends, no longer prefix has a node. */
  lemma {:induction false} PathEnds(live: set<nat>, key: nat, len: nat, m: nat)
    requires Closed(live) && Code(key, len) !in live && len <= m
    ensures Code(key, m) !in live
    decreases m
  {
    if len < m {
      PathEnds(live, key, len, m - 1);
      ChildIsNew(live, Code(key, m - 1));
    }
  }

  // ---------- walking the tree ----------

  /** The stored prefixes below `c`, a node before its children if `first`, else between them. */
  function Visit(live: set<nat>, stored: set<nat>, c: nat, top: nat, first: bool): seq<nat>
    requires c >= 1
    decreases top + 1 - c
  {
    if c !in live || c > top then []
    else
      var here := if c in stored then [c] else [];
      var left, right := Visit(live, stored, 2 * c, top, first), Visit(live, stored, 2 * c + 1, top, first);
      if first then here + left + right else left + here + right
  }

  lemma {:induction false} AboveIsLess(c: nat, s: nat)
    requires Above(c, s)
    ensures c <= s
    decreases s
  {
    if c != s {
      AboveIsLess(c, Up(s));
    }
  }

  lemma {:induction false} SiblingsApart(c: nat, s: nat)
    requires c >= 1 && Above(2 * c, s)
    ensures !Above(2 * c + 1, s)
    decreases s
  {
    AboveIsLess(2 * c, s);
    if Above(2 * c + 1, s) {
      AboveIsLess(2 * c + 1, s);
      if s == 2 * c + 1 {
        AboveIsLess(2 * c, Up(s));
      } else {
        SiblingsApart(c, Up(s));
      }
    }
  }

  lemma {:induction false} AboveSplits(c: nat, s: nat)
    requires c >= 1
    ensures Above(c, s) <==> s == c || Above(2 * c, s) || Above(2 * c + 1, s)
    decreases s
  {
    if s > 1 && s != c && s != 2 * c && s != 2 * c + 1 {
      AboveSplits(c, Up(s));
      assert Up(s) != c;
    }
    if s == 2 * c || s == 2 * c + 1 {
      assert Up(s) == c;
    }
  }

  lemma {:induction false} RootIsAbove(s: nat)
    requires s >= 1
    ensures Above(1, s)
    decreases s
  {
    if s > 1 {
      RootIsAbove(Up(s));
    }
  }

  predicate Distinct3(a: seq<nat>, b: seq<nat>, c: seq<nat>) {
    && Distinct(a) && Distinct(b) && Distinct(c)
    && (forall x :: x in a ==> x !in b && x !in c)
    && forall x :: x in b ==> x !in c
  }

  lemma JoinDistinct(a: seq<nat>, b: seq<nat>, c: seq<nat>)
    requires Distinct3(a, b, c)
    ensures Distinct(a + b + c) && forall x :: x in a + b + c <==> x in a || x in b || x in c
  {
    var s := a + b + c;
    forall i, j | 0 <= i < j < |s| ensures s[i] != s[j] {
      assert s[i] in (if i < |a| then a else if i < |a| + |b| then b else c);
      assert s[j] in (if j < |a| then a else if j < |a| + |b| then b else c);
    }
    forall x | x in a || x in b || x in c ensures x in s {
      if x in a {
        var i :| 0 <= i < |a| && a[i] == x;
        assert s[i] == x;
      } else if x in b {
        var i :| 0 <= i < |b| && b[i] == x;
        assert s[|a| + i] == x;
      } else {
        var i :| 0 <= i < |c| && c[i] == x;
        assert s[|a| + |b| + i] == x;
      }
    }
  }

  /** A walk visits exactly the stored prefixes below its start, each once. */
  lemma {:induction false} VisitMeans(live: set<nat>, stored: set<nat>, c: nat, top: nat, first: bool)
    requires c >= 1 && Closed(live) && stored <= live && forall d :: d in live ==> d <= top
    ensures Distinct(Visit(live, stored, c, top, first))
    ensures forall s :: s in Visit(live, stored, c, top, first) <==> s in stored && Above(c, s)
    decreases top + 1 - c
  {
    if c !in live {
      forall s | s in stored ensures !Above(c, s) {
        if Above(c, s) {
          AboveIsLive(live, c, s);
        }
      }
    } else {
      VisitMeans(live, stored, 2 * c, top, first);
      VisitMeans(live, stored, 2 * c + 1, top, first);
      var here := if c in stored then [c] else [];
      var left, right := Visit(live, stored, 2 * c, top, first), Visit(live, stored, 2 * c + 1, top, first);
      VisitJoins(stored, c, here, left, right);
      if first {
        JoinDistinct(here, left, right);
      } else {
        JoinDistinct(left, here, right);
      }
    }
  }

  lemma VisitJoins(stored: set<nat>, c: nat, here: seq<nat>, left: seq<nat>, right: seq<nat>)
    requires c >= 1 && here == (if c in stored then [c] else []) && Distinct(left) && Distinct(right)
    requires forall s :: s in left <==> s in stored && Above(2 * c, s)
    requires forall s :: s in right <==> s in stored && Above(2 * c + 1, s)
    ensures Distinct3(here, left, right) && Distinct3(left, here, right)
    ensures forall s :: s in here || s in left || s in right <==> s in stored && Above(c, s)
  {
    forall s ensures s in here || s in left || s in right <==> s in stored && Above(c, s) {
      AboveSplits(c, s);
    }
    forall s | s in left ensures s !in right && s !in here {
      SiblingsApart(c, s);
      AboveIsLess(2 * c, s);
    }
    forall s | s in right ensures s !in here {
      AboveIsLess(2 * c + 1, s);
    }
  }

  // ---------- the order of a walk ----------

  /** Somewhere above both, `c` goes left and `d` goes right. */
  predicate Parts(a: nat, c: nat, d: nat) {
    a >= 1 && Above(2 * a, c) && Above(2 * a + 1, d)
  }

  /** A walk comes to `c` before `d`: `c` is further left; or, if nodes come first, above `d`; or else
      on the left below `d`, or `d` on the right below `c`. */
  ghost predicate Precedes(c: nat, d: nat, first: bool) {
    || (exists a: nat :: Parts(a, c, d))
    || (if first then c != d && Above(c, d) else Above(2 * d, c) || Above(2 * c + 1, d))
  }

  ghost predicate InTurn(codes: seq<nat>, first: bool) {
    forall i, j :: 0 <= i < j < |codes| ==> Precedes(codes[i], codes[j], first)
  }

  lemma JoinTurns(a: seq<nat>, b: seq<nat>, c: seq<nat>, first: bool)
    requires InTurn(a, first) && InTurn(b, first) && InTurn(c, first)
    requires forall x, y :: x in a && y in b ==> Precedes(x, y, first)
    requires forall x, y :: (x in a || x in b) && y in c ==> Precedes(x, y, first)
    ensures InTurn(a + b + c, first)
  {
    var s, n, m := a + b + c, |a|, |a| + |b|;
    assert forall i :: 0 <= i < n ==> s[i] == a[i] && s[i] in a;
    assert forall i :: n <= i < m ==> s[i] == b[i - n] && s[i] in b;
    assert forall i :: m <= i < |s| ==> s[i] == c[i - m] && s[i] in c;
  }

  /** Either walk visits the prefixes in its order. */
  lemma {:induction false} VisitInTurn(live: set<nat>, stored: set<nat>, c: nat, top: nat, first: bool)
    requires c >= 1 && Closed(live) && stored <= live && forall d :: d in live ==> d <= top
    ensures InTurn(Visit(live, stored, c, top, first), first)
    decreases top + 1 - c
  {
    if c in live && c <= top {
      VisitInTurn(live, stored, 2 * c, top, first);
      VisitInTurn(live, stored, 2 * c + 1, top, first);
      VisitMeans(live, stored, 2 * c, top, first);
      VisitMeans(live, stored, 2 * c + 1, top, first);
      var here := if c in stored then [c] else [];
      var left, right := Visit(live, stored, 2 * c, top, first), Visit(live, stored, 2 * c + 1, top, first);
      forall x, y | x in left && y in right ensures Precedes(x, y, first) {
        assert Parts(c, x, y);
      }
      BelowFollows(c, here, left, right);
      if first {
        JoinTurns(here, left, right, first);
      } else {
        JoinTurns(left, here, right, first);
      }
    }
  }

  lemma BelowFollows(c: nat, here: seq<nat>, left: seq<nat>, right: seq<nat>)
    requires c >= 1 && forall x :: x in here ==> x == c
    requires forall s :: s in left ==> Above(2 * c, s)
    requires forall s :: s in right ==> Above(2 * c + 1, s)
    ensures forall x, y :: x in here && (y in left || y in right) ==> Precedes(x, y, true)
    ensures forall x, y :: x in left && y in here ==> Precedes(x, y, false)
    ensures forall x, y :: x in here && y in right ==> Precedes(x, y, false)
  {
    forall x, y | x in here && (y in left || y in right) ensures Precedes(x, y, true) {
      AboveSplits(c, y);
      AboveIsLess(if y in left then 2 * c else 2 * c + 1, y);
    }
  }

  /** The addresses with a prefix lie among those with a shorter one. */
  lemma {:induction false} AboveAddress(c: nat, s: nat)
    requires c >= 1 && Above(c, s) && Length(s) <= 32
    ensures Length(c) <= Length(s) && Address(c) <= Address(s)
    ensures Address(s) + Pow2(32 - Length(s)) <= Address(c) + Pow2(32 - Length(c))
    decreases s
  {
    if c != s {
      AboveIsLess(c, Up(s));
      ChildAddress(Up(s), s);
      AboveAddress(c, Up(s));
    }
  }

  lemma ChildAddress(c: nat, s: nat)
    requires c >= 1 && Up(s) == c && Length(s) <= 32
    ensures Length(s) == Length(c) + 1 && Pow2(32 - Length(c)) == 2 * Pow2(32 - Length(s))
    ensures Address(s) == Address(c) + if s == 2 * c then 0 else Pow2(32 - Length(s))
  {
    BelowPrefix(c);
    BitIsClear(c);
    BitIsPow2(Length(c));
  }

  lemma PartsByAddress(a: nat, c: nat, d: nat)
    requires Parts(a, c, d) && Length(c) <= 32 && Length(d) <= 32
    ensures Address(c) < Address(d)
  {
    AboveIsShorter(2 * a, c);
    ChildAddress(a, 2 * a);
    ChildAddress(a, 2 * a + 1);
    AboveAddress(2 * a, c);
    AboveAddress(2 * a + 1, d);
  }

  /** In the walk where nodes come first the addresses go up, and of equal ones the shorter prefix comes first. */
  lemma PrecedesByAddress(c: nat, d: nat)
    requires c >= 1 && Precedes(c, d, true) && Length(c) <= 32 && Length(d) <= 32
    ensures Address(c) < Address(d) || (Address(c) == Address(d) && Length(c) < Length(d))
  {
    if a: nat :| Parts(a, c, d) {
      PartsByAddress(a, c, d);
    } else {
      AboveIsShorter(c, Up(d));
      AboveAddress(c, d);
    }
  }
}
