/** Sequences without repetition, and with one element less. */
module Sequences {

  predicate Distinct<T(==)>(s: seq<T>) {
    forall i, j :: 0 <= i < j < |s| ==> s[i] != s[j]
  }

  /** What is left of `s` without its element at `at`. */
  function Without<T>(s: seq<T>, at: nat): (r: seq<T>)
    requires at < |s|
    ensures |r| == |s| - 1
    ensures forall k :: 0 <= k < at ==> r[k] == s[k]
    ensures forall k :: at <= k < |r| ==> r[k] == s[k + 1]
  {
    s[..at] + s[at + 1..]
  }

  /** `r` is `s` without `x`. */
  function Removed<T(==)>(s: seq<T>, x: T): (r: seq<T>)
    ensures x !in r && (x !in s ==> r == s)
    ensures forall y :: y in r ==> y in s
  {
    if s == [] then [] else if s[0] == x then Removed(s[1..], x) else [s[0]] + Removed(s[1..], x)
  }

  lemma {:induction false} RemovedWithout<T>(s: seq<T>, at: nat)
    requires Distinct(s) && at < |s|
    ensures Removed(s, s[at]) == Without(s, at)
  {
    var rest := s[1..];
    assert s == [s[0]] + rest;
    assert Distinct(rest);
    if at > 0 {
      assert rest[at - 1] == s[at];
      RemovedWithout(rest, at - 1);
      assert Without(s, at) == [s[0]] + Without(rest, at - 1);
    } else {
      assert s[0] !in rest;
      assert Without(s, at) == rest;
    }
  }

  /** What is left keeps its order. */
  lemma RemovedKeepsOrder<T>(s: seq<T>, x: T, i: nat, j: nat) returns (k: nat, l: nat)
    requires Distinct(s) && i < j < |Removed(s, x)|
    ensures k < l < |s| && s[k] == Removed(s, x)[i] && s[l] == Removed(s, x)[j]
  {
    k, l := i, j;
    if x in s {
      var at :| 0 <= at < |s| && s[at] == x;
      RemovedWithout(s, at);
      k, l := if i < at then i else i + 1, if j < at then j else j + 1;
    }
  }

  lemma DistinctSame<T>(s: seq<T>, t: seq<T>)
    requires Distinct(s) && multiset(s) == multiset(t)
    ensures Distinct(t)
  {
    forall i, j | 0 <= i < j < |t| ensures t[i] != t[j] {
      if t[i] == t[j] {
        assert t == t[..i] + [t[i]] + t[i + 1..j] + [t[j]] + t[j + 1..];
        assert multiset(t)[t[i]] >= 2;
        DistinctOnce(s, t[i]);
      }
    }
  }

  lemma {:induction false} DistinctOnce<T>(s: seq<T>, x: T)
    requires Distinct(s)
    ensures multiset(s)[x] <= 1
  {
    if s != [] {
      var front, last := s[..|s| - 1], s[|s| - 1];
      assert s == front + [last];
      DistinctOnce(front, x);
    }
  }

  lemma DistinctWithout<T>(s: seq<T>, at: nat)
    requires Distinct(s) && at < |s|
    ensures Distinct(Without(s, at)) && s[at] !in Without(s, at)
    ensures (set x | x in Without(s, at)) == (set x | x in s) - {s[at]}
  {
    forall x | x in s && x != s[at] ensures x in Without(s, at) {
      WithoutIn(s, at, x);
    }
  }

  lemma WithoutIn<T>(s: seq<T>, at: nat, x: T)
    requires at < |s| && x in s && x != s[at]
    ensures x in Without(s, at)
  {
    var i :| 0 <= i < |s| && s[i] == x;
    assert Without(s, at)[if i < at then i else i - 1] == x;
  }

  lemma {:induction false} DistinctCount<T>(s: seq<T>)
    requires Distinct(s)
    ensures |set x | x in s| == |s|
  {
    if s != [] {
      var front, last := s[..|s| - 1], s[|s| - 1];
      DistinctCount(front);
      assert (set x | x in s) == (set x | x in front) + {last};
    }
  }

  /** To the front, or put there as new. */
  lemma ToFront<T>(s: seq<T>, x: T)
    requires Distinct(s)
    ensures Distinct([x] + Removed(s, x)) && (set y | y in [x] + Removed(s, x)) == (set y | y in s) + {x}
    ensures |Removed(s, x)| == if x in s then |s| - 1 else |s|
  {
    if x in s {
      var at :| 0 <= at < |s| && s[at] == x;
      RemovedWithout(s, at);
      DistinctWithout(s, at);
    }
  }

  lemma SubsetIsAll<T>(a: set<T>, b: set<T>)
    requires a <= b && |a| >= |b|
    ensures a == b
  {
    assert b == a + (b - a) && |b| == |a| + |b - a|;
  }

  // ---------- taking a sequence apart ----------

  lemma FrontLast<T>(s: seq<T>)
    requires s != []
    ensures s[..|s| - 1] + [s[|s| - 1]] == s
  {
  }

  lemma FrontAt<T>(s: seq<T>, k: nat)
    requires k + 1 < |s|
    ensures s[..|s| - 1][k] == s[k]
  {
  }

  lemma HeadTail<T>(s: seq<T>)
    requires s != []
    ensures [s[0]] + s[1..] == s
  {
  }

  lemma ConsFront<T>(a: T, s: seq<T>)
    requires s != []
    ensures [a] + s[..|s| - 1] + [s[|s| - 1]] == [a] + s
  {
  }
}
