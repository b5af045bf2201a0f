/** Values of limb buffers.

    A multi-precision number is stored as a little-endian buffer of 64-bit limbs. This module gives
    such a buffer its integer value and collects the facts the in-place loops of bignum.c rest on. */
module Limbs {

  /** One more than the largest limb: 2^biL for the 64-bit build. */
  const BASE: int := 0x1_0000_0000_0000_0000
  /** 2^biH, the half-limb radix. */
  const HALF: int := 0x1_0000_0000
  const BI_L: int := 64

  type Limb = x: int | 0 <= x < BASE

  /** The integer x placed at limb i. As a product this is x * B(i) (see AtMul), but the loops only
      need that it is additive and that a carry moves up by one limb. */
  ghost function At(x: int, i: nat): int {
    if i == 0 then x else BASE * At(x, i - 1)
  }

  /** BASE to the power i, the weight of limb i. */
  ghost function B(i: nat): (r: nat)
    ensures r >= 1
  {
    if i == 0 then 1 else BASE * B(i - 1)
  }

  function Pow2(k: nat): (r: nat)
    ensures r >= 1
  {
    if k == 0 then 1 else 2 * Pow2(k - 1)
  }

  /** The integer a limb buffer denotes. */
  ghost function Val(s: seq<Limb>): (v: int)
    ensures v >= 0
  {
    if s == [] then 0 else s[0] + BASE * Val(s[1..])
  }

  lemma Assoc(x: int, y: int, z: int)
    ensures (x * y) * z == x * (y * z)
  {}

  lemma MulMono(x: int, y: int, z: int)
    requires x <= y && z >= 0
    ensures x * z <= y * z
  {}

  /** Quotient and remainder are what they are written down as. */
  lemma FloorIs(a: int, q: int, w: int, r: int)
    requires a == q * w + r && 0 <= r < w
    ensures a / w == q && a % w == r
  {
    var q' := a / w;
    assert a == q' * w + a % w;
    if q' < q {
      MulMono(q' + 1, q, w);
    } else if q' > q {
      MulMono(q + 1, q', w);
    }
  }

  /** Reduction to a limb, when the number of limbs' worth to drop is known. */
  lemma ModLimb(z: int, k: int, r: int)
    requires z == r + BASE * k && 0 <= r < BASE
    ensures z % BASE == r
  {}

  // ---- placing a number at a limb ----

  lemma {:induction false} AtMul(x: int, i: nat)
    ensures At(x, i) == x * B(i)
  {
    if i > 0 {
      AtMul(x, i - 1);
      Assoc(BASE, x, B(i - 1));
      Assoc(x, BASE, B(i - 1));
    }
  }

  lemma {:induction false} AtOne(i: nat)
    ensures At(1, i) == B(i)
  {
    if i > 0 {
      AtOne(i - 1);
    }
  }

  lemma {:induction false} AtZero(i: nat)
    ensures At(0, i) == 0
  {
    if i > 0 {
      AtZero(i - 1);
    }
  }

  lemma {:induction false} AtAdd(x: int, y: int, i: nat)
    ensures At(x + y, i) == At(x, i) + At(y, i)
  {
    if i > 0 {
      AtAdd(x, y, i - 1);
    }
  }

  lemma {:induction false} AtMono(x: int, y: int, i: nat)
    requires x <= y
    ensures At(x, i) <= At(y, i)
  {
    if i > 0 {
      AtMono(x, y, i - 1);
    }
  }

  lemma {:induction false} AtAt(x: int, i: nat, j: nat)
    ensures At(At(x, i), j) == At(x, i + j)
  {
    if j > 0 {
      AtAt(x, i, j - 1);
    }
  }

  /** A carry out of limb i is worth BASE there and one at limb i + 1. */
  lemma {:induction false} AtCarry(x: int, c: int, i: nat)
    ensures At(x + BASE * c, i) == At(x, i) + At(c, i + 1)
  {
    if i > 0 {
      AtCarry(x, c, i - 1);
    }
  }

  lemma {:induction false} BMono(i: nat, j: nat)
    requires i <= j
    ensures B(i) <= B(j)
    decreases j
  {
    if i < j {
      BMono(i, j - 1);
    }
  }

  lemma BAdd(i: nat, j: nat)
    ensures B(i + j) == B(i) * B(j)
  {
    AtOne(i);
    AtOne(i + j);
    AtAt(1, i, j);
    AtMul(B(i), j);
  }

  // ---- powers of two ----

  lemma {:induction false} Pow2Add(i: nat, j: nat)
    ensures Pow2(i + j) == Pow2(i) * Pow2(j)
  {
    if i > 0 {
      Pow2Add(i - 1, j);
      Assoc(2, Pow2(i - 1), Pow2(j));
    }
  }

  lemma {:induction false} Pow2Mono(i: nat, j: nat)
    requires i <= j
    ensures Pow2(i) <= Pow2(j)
    decreases j
  {
    if i < j {
      Pow2Mono(i, j - 1);
    }
  }

  lemma Pow2Byte()
    ensures Pow2(8) == 256
  {
    assert Pow2(4) == 16;
  }

  lemma Pow2Limb()
    ensures Pow2(BI_L) == BASE && Pow2(32) == HALF
  {
    Pow2Byte();
    hide Pow2;
    Pow2Add(8, 8);
    Pow2Add(16, 16);
    Pow2Add(32, 32);
  }

  lemma {:induction false} Pow2IsB(n: nat)
    ensures Pow2(BI_L * n) == B(n)
  {
    if n > 0 {
      Pow2IsB(n - 1);
      Pow2Limb();
      Pow2Add(BI_L, BI_L * (n - 1));
    }
  }

  // ---- values of buffers ----

  lemma {:induction false} ValAppend(a: seq<Limb>, b: seq<Limb>)
    ensures Val(a + b) == Val(a) + At(Val(b), |a|)
  {
    if a == [] {
      assert a + b == b;
    } else {
      assert (a + b)[1..] == a[1..] + b;
      ValAppend(a[1..], b);
    }
  }

  lemma {:induction false} ValBound(s: seq<Limb>)
    ensures Val(s) < B(|s|)
  {
    if s != [] {
      ValBound(s[1..]);
    }
  }

  /** Splitting a buffer splits its value. */
  lemma ValSplit(s: seq<Limb>, i: nat)
    requires i <= |s|
    ensures Val(s) == Val(s[..i]) + At(Val(s[i..]), i)
  {
    hide *;
    ValAppend(s[..i], s[i..]);
    assert s[..i] + s[i..] == s;
  }

  /** Taking one more limb adds that limb at its weight. */
  lemma ValTake(s: seq<Limb>, i: nat)
    requires i < |s|
    ensures Val(s[..i + 1]) == Val(s[..i]) + At(s[i], i)
  {
    ValAppend(s[..i], [s[i]]);
    assert s[..i] + [s[i]] == s[..i + 1];
    assert Val([s[i]]) == s[i];
  }

  /** Dropping one limb fewer. */
  lemma ValDrop(s: seq<Limb>, i: nat)
    requires i < |s|
    ensures Val(s[i..]) == s[i] + BASE * Val(s[i + 1..])
  {
    assert s[i..][1..] == s[i + 1..];
  }

  /** An in-place store changes the value by the difference at the limb's weight. */
  lemma {:induction false} ValUpdate(s: seq<Limb>, i: nat, v: Limb)
    requires i < |s|
    ensures Val(s[i := v]) == Val(s) + At(v - s[i], i)
  {
    var t := s[i := v];
    if i == 0 {
      assert t[1..] == s[1..];
    } else {
      assert t[1..] == s[1..][i - 1 := v];
      ValUpdate(s[1..], i - 1, v);
    }
  }

  ghost predicate AllZero(s: seq<Limb>) {
    forall k :: 0 <= k < |s| ==> s[k] == 0
  }

  lemma {:induction false} ValZero(s: seq<Limb>)
    ensures Val(s) == 0 <==> AllZero(s)
  {
    if s != [] {
      ValZero(s[1..]);
      if s[0] == 0 && AllZero(s[1..]) {
        forall k | 0 <= k < |s| ensures s[k] == 0 {
          if k > 0 { assert s[k] == s[1..][k - 1]; }
        }
      }
    }
  }

  /** Zero limbs at the top do not change the value. */
  lemma ValTrim(s: seq<Limb>, n: nat)
    requires n <= |s| && AllZero(s[n..])
    ensures Val(s) == Val(s[..n])
  {
    ValSplit(s, n);
    ValZero(s[n..]);
    AtZero(n);
  }

  lemma ValPad(s: seq<Limb>, z: seq<Limb>)
    requires AllZero(z)
    ensures Val(s + z) == Val(s)
  {
    ValAppend(s, z);
    ValZero(z);
    AtZero(|s|);
  }

  /** A buffer whose value fits n limbs has only zeros above limb n. */
  lemma ValHighZero(s: seq<Limb>, n: nat)
    requires n <= |s| && Val(s) < B(n)
    ensures AllZero(s[n..]) && Val(s[..n]) == Val(s)
  {
    hide Val, At, B;
    ValSplit(s, n);
    if Val(s[n..]) > 0 {
      AtMono(1, Val(s[n..]), n);
      AtOne(n);
      assert false;
    }
    ValZero(s[n..]);
    AtZero(n);
  }

  /** A nonzero limb k makes the value at least B(k). */
  lemma ValAtLeast(s: seq<Limb>, k: nat)
    requires k < |s| && s[k] != 0
    ensures Val(s) >= B(k)
  {
    ValSplit(s, k);
    ValDrop(s, k);
    AtMono(1, Val(s[k..]), k);
    AtOne(k);
  }

  /** The highest limb where two buffers differ decides which value is larger. */
  lemma ValCompare(a: seq<Limb>, b: seq<Limb>, k: nat)
    requires |a| == |b| && k < |a|
    requires a[k + 1..] == b[k + 1..] && a[k] < b[k]
    ensures Val(a) < Val(b)
  {
    hide *;
    ValSplit(a, k + 1);
    ValSplit(b, k + 1);
    ValTake(a, k);
    ValTake(b, k);
    ValBound(a[..k]);
    AtAdd(a[k], 1, k);
    AtMono(a[k] + 1, b[k], k);
    AtOne(k);
  }

  /** Two buffers of equal length that denote the same value are the same buffer. */
  lemma {:induction false} ValInjective(a: seq<Limb>, b: seq<Limb>)
    requires |a| == |b| && Val(a) == Val(b)
    ensures a == b
  {
    if a != [] {
      assert a[0] == b[0] && Val(a[1..]) == Val(b[1..]);
      ValInjective(a[1..], b[1..]);
      assert a == [a[0]] + a[1..] && b == [b[0]] + b[1..];
    }
  }
}
