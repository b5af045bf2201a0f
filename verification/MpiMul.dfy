/** Schoolbook multiplication of multi-precision integers, from the double-width limb product up. */
module MpiMul {
  import opened Limbs
  import opened Mpis
  import opened MpiAddSub

  lemma HalfLimbProduct(s: int, b: int, s0: int, s1: int, b0: int, b1: int)
    requires s == s0 + HALF * s1 && b == b0 + HALF * b1
    ensures s * b == s0 * b0 + HALF * (s0 * b1) + HALF * (s1 * b0) + BASE * (s1 * b1)
  {
    calc {
      s * b;
      s0 * b + (HALF * s1) * b;
      { Assoc(HALF, s1, b); }
      s0 * b + HALF * (s1 * b);
      { assert s0 * b == s0 * b0 + s0 * (HALF * b1) == s0 * b0 + HALF * (s0 * b1); }
      s0 * b0 + HALF * (s0 * b1) + HALF * (s1 * b);
      { assert s1 * b == s1 * b0 + s1 * (HALF * b1) == s1 * b0 + HALF * (s1 * b1); }
      s0 * b0 + HALF * (s0 * b1) + HALF * (s1 * b0 + HALF * (s1 * b1));
    }
  }

  lemma ProductBound(x: int, y: int, n: int)
    requires 0 <= x < n && 0 <= y < n
    ensures 0 <= x * y <= (n - 1) * (n - 1)
  {
    MulMono(x, n - 1, y);
    MulMono(y, n - 1, n - 1);
  }

  /** Adds y into the low word r0, and the wrap-around it causes into the high word r1. */
  method AddToPair(r0: Limb, r1: Limb, y: Limb) returns (r0': Limb, r1': Limb)
    requires r0 + BASE * r1 + y < BASE * BASE
    ensures r0' + BASE * r1' == r0 + BASE * r1 + y
  {
    r0' := WAdd(r0, y);
    r1' := WAdd(r1, if r0' < y then 1 else 0);
  }

  /** The double-width product of two limbs from four half-limb products. */
  method MulLimbs(s: Limb, b: Limb) returns (r0: Limb, r1: Limb)
    ensures r0 + BASE * r1 == s * b
  {
    var b0, b1 := b % HALF, b / HALF;
    var s0, s1 := s % HALF, s / HALF;
    HalfLimbProduct(s, b, s0, s1, b0, b1);
    ProductBound(s0, b0, HALF);
    ProductBound(s0, b1, HALF);
    ProductBound(s1, b0, HALF);
    ProductBound(s1, b1, HALF);
    ProductBound(s, b, BASE);
    r0, r1 := CombineHalves(s0 * b0, s0 * b1, s1 * b0, s1 * b1);
  }

  /** What the shifts x >> biH and x << biH make of a limb. */
  lemma ShiftHalf(x: Limb)
    ensures 0 <= x / HALF < HALF
    ensures HALF * x == BASE * (x / HALF) + (x * HALF) % BASE
  {
    var h, l := x / HALF, x % HALF;
    assert x * HALF == BASE * h + l * HALF;
  }

  /** An addition to the high word that the size of the whole product keeps from wrapping. */
  method AddHigh(r1: Limb, h: Limb) returns (r: Limb)
    requires r1 + h < BASE
    ensures r == r1 + h
  {
    r := WAdd(r1, h);
  }

  method CombineHalves(p00: Limb, rx: Limb, ry: Limb, p11: Limb) returns (r0: Limb, r1: Limb)
    requires p00 + HALF * rx + HALF * ry + BASE * p11 < BASE * BASE
    ensures r0 + BASE * r1 == p00 + HALF * rx + HALF * ry + BASE * p11
  {
    ShiftHalf(rx);
    ShiftHalf(ry);
    r0, r1 := p00, p11;
    r1 := AddHigh(r1, rx / HALF);
    r1 := AddHigh(r1, ry / HALF);
    r0, r1 := AddToPair(r0, r1, (rx * HALF) % BASE);
    r0, r1 := AddToPair(r0, r1, (ry * HALF) % BASE);
  }

  /** The MULADDC core without a double-width type: s * b + c + d. */
  method MulAddC(s: Limb, b: Limb, c: Limb, d: Limb) returns (r: Limb, c': Limb)
    ensures r + BASE * c' == s * b + c + d
  {
    var r0, r1 := MulLimbs(s, b);
    ProductBound(s, b, BASE);
    r0, r1 := AddToPair(r0, r1, c);
    r, c' := AddToPair(r0, r1, d);
  }

  lemma {:induction false} AtScale(b: int, x: int, k: nat)
    ensures b * At(x, k) == At(b * x, k)
  {
    if k > 0 {
      AtScale(b, x, k - 1);
    }
  }

  /** One limb product of the row b * s, placed at off + k. */
  lemma MulStep(p: seq<Limb>, s: seq<Limb>, b: int, off: nat, k: nat, r: Limb, c: int, c2: int)
    requires k < |s| && off + k < |p| && r + BASE * c2 == s[k] * b + c + p[off + k]
    ensures Val(p[off + k := r]) + At(c2, off + k + 1) + At(b * Val(s[..k]), off)
         == Val(p) + At(c, off + k) + At(b * Val(s[..k + 1]), off)
  {
    hide *;
    var i := off + k;
    AddStep(p, i, r, s[k] * b, c, c2);
    ValTake(s, k);
    assert b * Val(s[..k + 1]) == b * Val(s[..k]) + b * At(s[k], k);
    AtScale(b, s[k], k);
    AtAdd(b * Val(s[..k]), At(b * s[k], k), off);
    AtAt(b * s[k], k, off);
  }

  /** X.p[off..] += b * s[..n], in place. The final carry loop is open-ended; it stops because the
      result fits the buffer. The unrolled 16- and 8-fold bodies are the same single step. */
  method MulHlp(n: nat, s: seq<Limb>, X: Mpi, off: nat, b: Limb)
    requires n <= |s| && off + n < |X.p|
    requires X.Mag() + At(b * Val(s[..n]), off) < B(|X.p|)
    modifies X
    ensures X.Mag() == old(X.Mag()) + At(b * Val(s[..n]), off)
    ensures |X.p| == old(|X.p|) && X.s == old(X.s) && X.p[..off] == old(X.p)[..off]
  {
    ghost var v0, len := Val(X.p), |X.p|;
    var i: nat, c: Limb := 0, 0;
    assert b * Val(s[..0]) == 0;
    AtZero(off);
    hide Val, At, B;
    AtZero(off + i);
    while i < n
      invariant 0 <= i <= n && |X.p| == len && X.s == old(X.s) && X.p[..off] == old(X.p)[..off]
      invariant Val(X.p) + At(c, off + i) == v0 + At(b * Val(s[..i]), off)
    {
      var r, c' := MulAddC(s[i], b, c, X.p[off + i]);
      MulStep(X.p, s, b, off, i, r, c, c');
      X.p := X.p[off + i := r];
      c := c';
      i := i + 1;
    }
    MulCarry(X, off + n, c);
  }

  /** The open-ended end of the row: the carry goes up until it is spent, at least one limb and never past
      the end. */
  method MulCarry(X: Mpi, i0: nat, c0: Limb)
    requires i0 < |X.p| && X.Mag() + At(c0, i0) < B(|X.p|)
    modifies X
    ensures X.Mag() == old(X.Mag()) + At(c0, i0)
    ensures |X.p| == old(|X.p|) && X.s == old(X.s) && X.p[..i0] == old(X.p)[..i0]
  {
    hide Val, At, B;
    ghost var v0, len := Val(X.p), |X.p|;
    var i, c := i0, c0;
    var first := true;
    while first || c != 0
      invariant i0 <= i <= len && |X.p| == len && X.s == old(X.s) && (first ==> i < len)
      invariant X.p[..i0] == old(X.p)[..i0]
      invariant Val(X.p) + At(c, i) == v0 + At(c0, i0)
      decreases first, len - i
    {
      if i == len {
        AtMono(1, c, len);
        AtOne(len);
        assert false;
      }
      var r := WAdd(X.p[i], c);
      var z := if r < c then 1 else 0;
      AddStep(X.p, i, r, 0, c, z);
      AtZero(i);
      X.p := X.p[i := r];
      c := z;
      i := i + 1;
      first := false;
    }
    AtZero(i);
  }

  /** The next row of the product, and why it fits the buffer. */
  lemma MulRow(a: int, b: seq<Limb>, j: nat, i: nat)
    requires j < |b| && 0 <= a < B(i)
    ensures a * At(Val(b[j..]), j) == a * At(Val(b[j + 1..]), j + 1) + At(b[j] * a, j)
    ensures a * At(Val(b[j..]), j) < B(i + |b|)
  {
    hide *;
    ValDrop(b, j);
    AtCarry(b[j], Val(b[j + 1..]), j);
    AtScale(a, b[j], j);
    ValSplit(b, j);
    ValBound(b);
    BAdd(i, |b|);
    MulMono(At(Val(b[j..]), j), Val(b), a);
    MulMono(a, B(i), Val(b));
    MulLess(Val(b), B(|b|), B(i));
  }

  lemma MulLess(x: int, y: int, z: int)
    requires x < y && z > 0
    ensures z * x < z * y
  {}

  /** The rows of the product, most significant first. */
  method MulRows(X: Mpi, av: seq<Limb>, i: nat, bv: seq<Limb>, j0: nat)
    requires i <= |av| && j0 <= |bv| && i + j0 <= |X.p| && X.Mag() == 0
    modifies X
    ensures X.Mag() == Val(av[..i]) * Val(bv[..j0])
    ensures |X.p| == old(|X.p|)
  {
    ghost var a, b, len := Val(av[..i]), bv[..j0], |X.p|;
    ValBound(av[..i]);
    BMono(i + j0, len);
    assert a * At(Val(b[j0..]), j0) == 0 by { AtZero(j0); }
    assert At(Val(b[0..]), 0) == Val(b) by { assert b[0..] == b; }
    hide Val, At, B;
    var j := j0;
    while j > 0
      invariant 0 <= j <= j0 && |X.p| == len
      invariant X.Mag() == a * At(Val(b[j..]), j)
    {
      MulRow(a, b, j - 1, i);
      MulHlp(i, av, X, j - 1, bv[j - 1]);
      j := j - 1;
    }
  }

  /** X := A * B. X may be A, B or both. */
  method MulMpi(X: Mpi, A: Mpi, B: Mpi)
    modifies X
    ensures X.Int() == old(A.Int()) * old(B.Int())
    ensures |X.p| >= old(|X.p|) && |X.p| >= 1
  {
    hide Val, At, Limbs.B, Signed;
    ghost var a, b := A.Int(), B.Int();
    var A', B' := A, B;
    if X == A {
      A' := new Mpi();
      Copy(A', A);
    }
    if X == B {
      B' := new Mpi();
      Copy(B', B);
    }
    var i := SigLimbs(A'.p);
    var j := SigLimbs(B'.p);
    Grow(X, i + j);
    LSet(X, 0);
    assert A'.Int() == a && B'.Int() == b;
    MulRows(X, A'.p, i, B'.p, j);
    X.s := if A'.s == B'.s then 1 else -1;
    SignedProduct(A'.s, B'.s, Val(A'.p), Val(B'.p));
  }

  lemma SignedProduct(s: Sign, t: Sign, a: int, b: int)
    ensures Signed(if s == t then 1 else -1, a * b) == Signed(s, a) * Signed(t, b)
  {}

  /** X := A * b. */
  method MulInt(X: Mpi, A: Mpi, b: Limb)
    modifies X
    ensures X.Int() == old(A.Int()) * b
    ensures |X.p| >= old(|X.p|) && |X.p| >= 1
  {
    var B := new Mpi();
    B.p := [b];
    assert [b][1..] == [];
    assert Val([b]) == b + BASE * Val([]);
    MulMpi(X, A, B);
  }
}
