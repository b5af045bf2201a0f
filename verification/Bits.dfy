/** Bitwise operators on unbounded naturals, and the facts about masks that the C code relies on. */
module Bits {
  import opened Limbs

  /** The number of values of a 32-bit word. */
  const WORD: int := 4294967296

  /** x & y. */
  function BitAnd(x: nat, y: nat): nat {
    if x == 0 || y == 0 then 0 else 2 * BitAnd(x / 2, y / 2) + (x % 2) * (y % 2)
  }

  /** m << k and x >> k. */
  function Shl(m: nat, k: nat): nat { if k == 0 then m else 2 * Shl(m, k - 1) }
  function Shr(x: nat, k: nat): nat decreases k { if k == 0 then x else Shr(x / 2, k - 1) }

  predicate IsTwo(n: nat) { n == 1 || (n > 1 && n % 2 == 0 && IsTwo(n / 2)) }

  lemma {:induction false} Pow2IsTwo(k: nat)
    ensures IsTwo(Pow2(k))
  {
    if k > 0 { Pow2IsTwo(k - 1); }
  }

  lemma AndOdd(x: nat, y: nat)
    requires y % 2 == 1
    ensures BitAnd(x, y) == 2 * BitAnd(x / 2, y / 2) + x % 2
  {
    assert x % 2 == (x % 2) * (y % 2);
  }

  lemma AndEven(x: nat, y: nat)
    ensures BitAnd(x, 2 * y) == 2 * BitAnd(x / 2, y)
  {
    assert (2 * y) / 2 == y && (x % 2) * 0 == 0;
  }

  /** Masking with one less than a power of two is the remainder. */
  lemma {:induction false} MaskIsMod(x: nat, n: nat)
    requires IsTwo(n)
    ensures BitAnd(x, n - 1) == x % n
    decreases n
  {
    hide BitAnd;
    if n == 1 {
      AndZero(x);
    } else {
      var m := n / 2;
      MaskIsMod(x / 2, m);
      AndOdd(x, n - 1);
      HalfMod(x, m);
    }
  }

  lemma AndZero(x: nat)
    ensures BitAnd(x, 0) == 0
  {}

  lemma HalfMod(x: nat, m: nat)
    requires m > 0
    ensures x % (2 * m) == 2 * ((x / 2) % m) + x % 2
  {
    var q, r := (x / 2) / m, (x / 2) % m;
    Doubled(x, m, q, r);
    FloorIs(x, q, 2 * m, 2 * r + x % 2);
  }

  lemma Doubled(x: nat, m: nat, q: nat, r: nat)
    requires x / 2 == m * q + r
    ensures x == (2 * m) * q + (2 * r + x % 2)
  {
    assert (2 * m) * q == 2 * (m * q);
  }

  /** A remainder does not change when it is taken of a remainder by a multiple. */
  lemma ModMod(x: nat, n: nat, c: nat, m: nat)
    requires n > 0 && m > 0 && n * c == m
    ensures (x % m) % n == x % n
  {
    var q, r := x / m, x % m;
    ModParts(x, n, c, q, r / n, r % n);
  }

  lemma ModParts(x: nat, n: nat, c: nat, q: nat, a: nat, b: nat)
    requires b < n && x == (n * c) * q + (n * a + b)
    ensures x % n == b
  {
    Regroup(n, c, q, a);
    FloorIs(x, c * q + a, n, b);
  }

  lemma Regroup(n: nat, c: nat, q: nat, a: nat)
    ensures (n * c) * q + n * a == n * (c * q + a) && 0 <= c * q + a
  {
    assert (n * c) * q == n * (c * q);
  }

  /** n & (n - 1) is zero exactly for powers of two. */
  lemma {:induction false} PowerCheck(n: nat)
    requires n > 0
    ensures BitAnd(n, n - 1) == 0 <==> IsTwo(n)
    decreases n
  {
    if n > 1 {
      if n % 2 == 0 {
        PowerCheck(n / 2);
        AndOdd(n, n - 1);
        assert (n - 1) / 2 == n / 2 - 1;
      } else {
        AndSelf(n / 2);
        AndEven(n, n / 2);
      }
    }
  }

  lemma {:induction false} AndSelf(n: nat)
    ensures BitAnd(n, n) == n
  {
    if n > 0 {
      AndSelf(n / 2);
      if n % 2 == 1 { AndOdd(n, n); } else { AndEven(n, n / 2); }
    }
  }

  lemma {:induction false} ShlZero(m: nat, k: nat)
    ensures Shl(m, k) == 0 <==> m == 0
  {
    if k > 0 { ShlZero(m, k - 1); }
  }

  lemma {:induction false} ShlTwo(m: nat, k: nat)
    ensures Shl(m, k) == m * Pow2(k)
  {
    if k > 0 {
      ShlTwo(m, k - 1);
      TwiceTimes(m, Pow2(k - 1));
    }
  }

  lemma TwiceTimes(m: int, w: int)
    ensures m * (2 * w) == 2 * (m * w)
  {}

  /** A mask of high bits sees the high bits. */
  lemma {:induction false} HighMask(x: nat, k: nat, m: nat)
    ensures BitAnd(x, Shl(m, k)) == Shl(BitAnd(Shr(x, k), m), k)
    decreases k
  {
    if k > 0 {
      HighMask(x / 2, k - 1, m);
      AndEven(x, Shl(m, k - 1));
    }
  }

  lemma {:induction false} ShrSmall(x: nat, k: nat, n: nat)
    ensures Shr(x, k) == 0 <==> x < Pow2(k)
    ensures x < Pow2(k + n) ==> Shr(x, k) < Pow2(n)
    decreases k
  {
    if k > 0 {
      ShrSmall(x / 2, k - 1, n);
      assert x < 2 * Pow2(k - 1) <==> x / 2 < Pow2(k - 1);
      assert Pow2(k + n) == 2 * Pow2(k - 1 + n);
    }
  }

  /** The test `!(x & mask)`, where the mask is the n top bits of a word of k + n bits. */
  lemma TopBits(x: nat, k: nat, n: nat)
    requires x < Pow2(k + n)
    ensures BitAnd(x, Shl(Pow2(n) - 1, k)) == 0 <==> x < Pow2(k)
  {
    hide BitAnd, Shl, Shr, Pow2;
    HighMask(x, k, Pow2(n) - 1);
    Pow2IsTwo(n);
    MaskIsMod(Shr(x, k), Pow2(n));
    ShrSmall(x, k, n);
    if Shr(x, k) < Pow2(n) { FloorIs(Shr(x, k), 0, Pow2(n), Shr(x, k)); }
    ShlZero(BitAnd(Shr(x, k), Pow2(n) - 1), k);
  }
}
