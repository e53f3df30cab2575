/** Prefixes of 32-bit addresses. The prefix of length n of an address stands as one number: a one
    bit and the n bits behind it. So the root of a tree of prefixes is 1, and below c are 2c and 2c + 1. */
module PrefixCode {
  import opened Powers

  /** The probe bit after `i` shifts to the right: it starts as the highest of 32 and ends as 0. */
  function BitAt(i: nat): (bit: nat) {
    if i == 0 then 0x8000_0000 else BitAt(i - 1) / 2
  }

  /** Whether a number has a bit, which is a power of two or 0. */
  predicate HasBit(key: nat, bit: nat) {
    bit > 0 && key / bit % 2 == 1
  }

  function Child(c: nat, right: bool): nat {
    if right then 2 * c + 1 else 2 * c
  }

  /** The prefix of length `n`; beyond 32 bits it goes on with zeros. */
  function Code(key: nat, n: nat): (c: nat)
    ensures c >= 1
  {
    if n == 0 then 1 else Child(Code(key, n - 1), HasBit(key, BitAt(n - 1)))
  }

  // ---------- prefixes and (address, mask) pairs ----------

  lemma {:induction false} BitIsPow2(i: nat)
    requires i < 32
    ensures BitAt(i) == Pow2(31 - i)
  {
    if i == 0 {
      assert Pow2(31) == 0x8000_0000 by { PowersOfTwo(); }
    } else {
      BitIsPow2(i - 1);
    }
  }

  lemma PowersOfTwo()
    ensures Pow2(31) == 0x8000_0000 && Pow2(32) == 0x1_0000_0000
  {
    assert Pow2(8) == 256;
    assert Pow2(16) == 0x1_0000;
    assert Pow2(24) == 0x100_0000;
    assert Pow2(31) == 0x8000_0000;
  }

  /** The length of a prefix. */
  function Length(c: nat): nat {
    if c <= 1 then 0 else 1 + Length(c / 2)
  }

  lemma {:induction false} CodeLength(key: nat, n: nat)
    ensures Length(Code(key, n)) == n
  {
    if n > 0 {
      CodeLength(key, n - 1);
      assert Code(key, n) / 2 == Code(key, n - 1);
    }
  }

  /** The number with the bit set. */
  function SetBit(ip: nat, bit: nat): nat {
    if HasBit(ip, bit) then ip else ip + bit
  }

  /** The number without its last `n` bits. */
  function ClearLast(ip: nat, n: nat): int {
    ip / Pow2(n) * Pow2(n)
  }

  /** The lowest address with the prefix `c`. */
  function Address(c: nat): nat {
    if c <= 1 then 0 else Address(c / 2) + if c % 2 == 1 then BitAt(Length(c) - 1) else 0
  }

  lemma {:induction false} LengthBounds(c: nat)
    requires c >= 1
    ensures Pow2(Length(c)) <= c < 2 * Pow2(Length(c))
  {
    if c > 1 {
      LengthBounds(c / 2);
    }
  }

  lemma Halves(a: nat, p: nat)
    requires p > 0
    ensures a / p == 2 * (a / (2 * p)) + a / p % 2
  {
    var h, r := a / (2 * p), a % (2 * p);
    assert a == 2 * p * h + r;
    var b := if r >= p then 1 else 0;
    assert a == p * (2 * h + b) + (r - b * p);
    DivIs(a, p, 2 * h + b, r - b * p);
  }

  lemma {:induction false} Times(p: nat, x: nat, y: nat)
    requires x < y
    ensures p * x + p <= p * y
    decreases y
  {
    assert p * y == p * (y - 1) + p;
    if x < y - 1 {
      Times(p, x, y - 1);
    }
  }

  lemma DivIs(a: nat, p: nat, q: nat, r: nat)
    requires p > 0 && a == p * q + r && r < p
    ensures a / p == q
  {
    var d := a / p;
    assert p * d <= a < p * d + p;
    if d > q {
      Times(p, q, d);
    } else if d < q {
      Times(p, d, q);
    }
  }

  /** A prefix holds the leading bits of the address. */
  lemma {:induction false} CodeIsTop(key: nat, n: nat)
    requires key < 0x1_0000_0000 && n <= 32
    ensures Code(key, n) == Pow2(n) + key / Pow2(32 - n)
  {
    PowersOfTwo();
    if n > 0 {
      CodeIsTop(key, n - 1);
      BitIsPow2(n - 1);
      Halves(key, Pow2(32 - n));
      assert Pow2(33 - n) == 2 * Pow2(32 - n);
      assert key / Pow2(32 - n) % 2 == if HasBit(key, Pow2(32 - n)) then 1 else 0;
    }
  }

  /** What stands in front of the last bits of the address of a prefix. */
  function Front(c: nat): nat
    requires c >= 1
  {
    LengthBounds(c);
    c - Pow2(Length(c))
  }

  lemma FrontStep(c: nat)
    requires c > 1
    ensures Front(c) == 2 * Front(c / 2) + c % 2
  {
  }

  lemma {:induction false} AddressIs(c: nat)
    requires c >= 1 && Length(c) <= 32
    ensures Address(c) == Pow2(32 - Length(c)) * Front(c)
  {
    if c > 1 {
      var n := Length(c);
      AddressIs(c / 2);
      BitIsPow2(n - 1);
      FrontStep(c);
      assert Pow2(33 - n) == 2 * Pow2(32 - n);
      Shift(Pow2(32 - n), Front(c / 2), c % 2);
    }
  }

  lemma Shift(p: nat, f: nat, b: nat)
    requires b <= 1
    ensures 2 * p * f + (if b == 1 then p else 0) == p * (2 * f + b)
  {
    assert 2 * p * f == p * (2 * f);
    assert p * (2 * f + b) == p * (2 * f) + p * b;
  }

  lemma ClearIs(a: nat, n: nat, f: nat)
    requires a == Pow2(n) * f
    ensures a / Pow2(n) == f && ClearLast(a, n) == a
  {
    DivIs(a, Pow2(n), f, 0);
  }

  /** The lowest address of a prefix has that prefix. */
  lemma AddressHasPrefix(c: nat)
    requires c >= 1 && Length(c) <= 32
    ensures Address(c) < 0x1_0000_0000 && Code(Address(c), Length(c)) == c
    ensures ClearLast(Address(c), 32 - Length(c)) == Address(c)
  {
    var n, p, f := Length(c), Pow2(32 - Length(c)), Front(c);
    LengthBounds(c);
    AddressIs(c);
    PowersOfTwo();
    PowersAdd(32 - n, n);
    Times(p, f, Pow2(n));
    ClearIs(Address(c), 32 - n, f);
    CodeIsTop(Address(c), n);
  }

  /** The bit of a child is clear in the address of its parent. */
  lemma BitIsClear(c: nat)
    requires c >= 1 && Length(c) < 32
    ensures !HasBit(Address(c), BitAt(Length(c)))
  {
    var n := Length(c);
    var p := Pow2(31 - n);
    BitIsPow2(n);
    AddressIs(c);
    assert Pow2(32 - n) == 2 * p;
    Shift(p, Front(c), 0);
    DivIs(Address(c), p, 2 * Front(c), 0);
    Even(Front(c));
  }

  lemma Even(f: nat)
    ensures 2 * f % 2 == 0
  {
  }

  /** The prefixes below, with their addresses. */
  lemma BelowPrefix(c: nat)
    requires c >= 1
    ensures Length(2 * c) == Length(2 * c + 1) == Length(c) + 1 && Address(2 * c) == Address(c)
    ensures Length(c) < 32 ==> Address(2 * c + 1) == SetBit(Address(c), BitAt(Length(c)))
  {
    assert (2 * c + 1) / 2 == c;
    if Length(c) < 32 {
      BitIsClear(c);
    }
  }
}
