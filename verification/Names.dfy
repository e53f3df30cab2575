/** Names and the order strcmp puts them in. */
module Names {

  /** The sign of strcmp: the first difference decides, and a proper prefix comes first. */
  function Strcmp(a: string, b: string): int {
    if a == [] && b == [] then 0
    else if a == [] then -1
    else if b == [] then 1
    else if a[0] != b[0] then (if a[0] < b[0] then -1 else 1)
    else Strcmp(a[1..], b[1..])
  }

  predicate Lt(a: string, b: string) {
    Strcmp(a, b) < 0
  }

  lemma {:induction false} StrcmpZero(a: string, b: string)
    ensures Strcmp(a, b) == 0 <==> a == b
  {
    if a != [] && b != [] {
      StrcmpZero(a[1..], b[1..]);
      assert a == [a[0]] + a[1..] && b == [b[0]] + b[1..];
    }
  }

  lemma {:induction false} StrcmpFlip(a: string, b: string)
    ensures Strcmp(a, b) == -Strcmp(b, a)
  {
    if a != [] && b != [] {
      StrcmpFlip(a[1..], b[1..]);
    }
  }

  lemma {:induction false} LtTrans(a: string, b: string, c: string)
    requires Lt(a, b) && Lt(b, c)
    ensures Lt(a, c)
  {
    if a != [] && b != [] && c != [] && a[0] == b[0] == c[0] {
      LtTrans(a[1..], b[1..], c[1..]);
    }
  }

  /** The names agree up to `n`, and there `a` ends first or has the smaller character. */
  predicate LessAt(a: string, b: string, n: nat) {
    && n <= |a| && n < |b| && (forall i :: 0 <= i < n ==> a[i] == b[i])
    && (n == |a| || a[n] < b[n])
  }

  /** A name stands before another if it is a proper prefix of it or has the smaller character at
      the first difference, and only then. */
  lemma {:induction false} LtMeans(a: string, b: string)
    ensures Lt(a, b) <==> exists n: nat :: LessAt(a, b, n)
  {
    if a != [] && b != [] && a[0] == b[0] {
      LtMeans(a[1..], b[1..]);
      if n: nat :| LessAt(a[1..], b[1..], n) {
        forall i | 0 <= i < n + 1 ensures a[i] == b[i] {
          assert i > 0 ==> a[i] == a[1..][i - 1] && b[i] == b[1..][i - 1];
        }
        assert LessAt(a, b, n + 1);
      }
      if n: nat :| LessAt(a, b, n) {
        assert LessAt(a[1..], b[1..], n - 1);
      }
    } else if a == [] && b != [] {
      assert LessAt(a, b, 0);
    } else if a != [] && b != [] && a[0] < b[0] {
      assert LessAt(a, b, 0);
    }
  }
}
