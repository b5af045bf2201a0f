/** Montgomery arithmetic (HAC 14.36): the inverse of the low limb of the modulus by Newton steps, and
    the multiplication that divides by BASE once per limb. */
module Montgomery {
  import opened Limbs
  import opened Mpis
  import opened MpiAddSub
  import opened MpiMul
  import opened MpiShift
  import opened MpiMod
  import IntDiv
  import opened MpiDiv

  // ---- the inverse of the low limb ----

  /** The wrapped step x * (2 - m * x). */
  function NewtonStep(m: Limb, x: Limb): Limb {
    IntDiv.WMul(x, WSub(2, IntDiv.WMul(m, x)))
  }

  lemma WrapNewton(m: Limb, x: Limb) returns (q: int)
    ensures NewtonStep(m, x) == x * (2 - m * x) - q * BASE
  {
    var u := (m * x) % BASE;
    var q1 := (m * x) / BASE;
    var v := (2 - u) % BASE;
    var q2 := (2 - u) / BASE;
    var q3 := (x * v) / BASE;
    assert 2 - m * x == v + (q2 - q1) * BASE;
    Assoc(x, q2 - q1, BASE);
    q := q3 + x * (q2 - q1);
    WrapNewtonSum(x, v, q2 - q1, q3);
  }

  lemma WrapNewtonSum(x: int, v: int, e: int, q3: int)
    ensures x * (v + e * BASE) - (q3 + x * e) * BASE == x * v - q3 * BASE
  {
    Assoc(x, e, BASE);
    assert x * (v + e * BASE) == x * v + x * (e * BASE);
  }

  /** A Newton step squares the modulus for which x is an inverse. */
  lemma NewtonDoubles(m: Limb, x: Limb, w: int, c: int)
    requires w > 0 && Inverse(m, x, w) && c * (w * w) == BASE
    ensures w * w > 0 && Inverse(m, NewtonStep(m, x), w * w)
  {
    var q := WrapNewton(m, x);
    var k := CongFactor(m * x, 1, w);
    var y := NewtonStep(m, x);
    NewtonAlgebra(m, x, k, w, q, c, y);
    CongIntro(m * y, 1, w * w, -(k * k) - (m * q) * c);
  }

  lemma NewtonAlgebra(m: int, x: int, k: int, w: int, q: int, c: int, y: int)
    requires m * x == 1 + k * w && y == x * (2 - m * x) - q * BASE && c * (w * w) == BASE
    ensures m * y - 1 == (-(k * k) - (m * q) * c) * (w * w)
  {
    var p := k * w;
    assert m * y == (m * x) * (2 - m * x) - m * (q * BASE) by {
      Assoc(m, x, 2 - m * x);
      assert m * (x * (2 - m * x) - q * BASE) == m * (x * (2 - m * x)) - m * (q * BASE);
    }
    assert (1 + p) * (1 - p) == 1 - p * p;
    assert p * p == (k * k) * (w * w)
      by { Assoc(k, w, k * w); Assoc(w, k, w); Commute(w, k); Assoc(k, w, w); Assoc(k, k, w * w); }
    assert m * (q * BASE) == ((m * q) * c) * (w * w) by { Assoc(m, q, BASE); Assoc(m * q, c, w * w); }
    DistributeNeg(k * k, (m * q) * c, w * w);
  }

  lemma DistributeNeg(a: int, b: int, w: int)
    ensures (-a - b) * w == -(a * w) - b * w
  {}

  /** The starting value is an inverse modulo 16 of every odd number. */
  function Seed(m0: Limb): Limb {
    WAdd(m0, if WAdd(m0, 2) / 4 % 2 == 1 then 8 else 0)
  }

  lemma WrapLow(x: Limb, d: nat)
    requires d < 16
    ensures WAdd(x, d) % 16 == (x % 16 + d) % 16
  {
    var q := x / 16;
    assert x == 16 * q + x % 16;
    SixteenMod(q, x % 16 + d);
    if x + d < BASE {
      ModLimb(x + d, 0, x + d);
    } else {
      ModLimb(x + d, 1, x + d - BASE);
      SixteenMod(q - 0x1000_0000_0000_0000, x % 16 + d);
    }
  }

  lemma SixteenMod(k: int, w: int)
    ensures (16 * k + w) % 16 == w % 16
  {}

  lemma LowBits(e: nat, b: nat)
    requires b == e % 16
    ensures e / 4 % 2 == b / 4 % 2
  {
    var a, c, d := e / 16, b / 4, b % 4;
    assert e == 4 * (4 * a + c) + d;
    QuarterOf(4 * a + c, d);
    EvenPlus(2 * a, c);
  }

  lemma QuarterOf(x: int, d: int)
    requires 0 <= d < 4
    ensures (4 * x + d) / 4 == x
  {}

  lemma EvenPlus(x: int, c: int)
    ensures (2 * x + c) % 2 == c % 2
  {}

  /** Only the low four bits matter: eight cases. */
  lemma SeedResidue(m0: Limb) returns (r: int, s: int)
    requires m0 % 2 == 1
    ensures r == m0 % 16 && s == Seed(m0) % 16 && r in {1, 3, 5, 7, 9, 11, 13, 15}
    ensures s == if r == 3 || r == 5 || r == 11 || r == 13 then (r + 8) % 16 else r
  {
    hide WAdd;
    r, s := m0 % 16, Seed(m0) % 16;
    WrapLow(m0, 2);
    LowBits(WAdd(m0, 2), WAdd(m0, 2) % 16);
    WrapLow(m0, 8);
    WrapLow(m0, 0);
  }

  lemma SeedIsInverse(m0: Limb)
    requires m0 % 2 == 1
    ensures Inverse(m0, Seed(m0), 16)
  {
    hide Seed;
    var r, s := SeedResidue(m0);
    var x := Seed(m0);
    var h, g := m0 / 16, x / 16;
    SixteenProduct(h, r, g, s);
    var k := if r == 1 then 0 else if r == 3 then 2 else if r == 5 then 4 else if r == 7 then 3
             else if r == 9 then 5 else if r == 11 then 2 else if r == 13 then 4 else 14;
    assert r * s == 16 * k + 1;
    SixteenFactor(m0, x, h, r, g, s, k);
  }

  lemma SixteenFactor(m: int, x: int, h: int, r: int, g: int, s: int, k: int)
    requires m == 16 * h + r && x == 16 * g + s && r * s == 16 * k + 1
    ensures Inverse(m, x, 16)
  {
    SixteenProduct(h, r, g, s);
    CongIntro(m * x, 1, 16, 16 * (h * g) + h * s + r * g + k);
  }

  lemma SixteenProduct(h: int, r: int, g: int, s: int)
    ensures (16 * h + r) * (16 * g + s) == 16 * (16 * (h * g) + h * s + r * g) + r * s
  {}

  /** mm := -N^-1 modulo 2^64, for odd N. */
  method MontgInit(N: Mpi) returns (mm: Limb)
    requires N.p != [] && N.p[0] % 2 == 1
    ensures (N.p[0] * mm + 1) % BASE == 0
  {
    hide Seed, NewtonStep, Inverse;
    var m0 := N.p[0];
    var x := Seed(m0);
    SeedIsInverse(m0);
    ghost var w := 16;
    var i := BI_L;
    while i >= 8
      invariant i in {64, 32, 16, 8, 4}
      invariant w == if i == 64 then 0x10 else if i == 32 then 0x100 else if i == 16 then 0x1_0000
                     else if i == 8 then HALF else BASE
      invariant Inverse(m0, x, w)
    {
      NewtonDoubles(m0, x, w, if i == 64 then BASE / 0x100 else if i == 32 then BASE / 0x1_0000
                              else if i == 16 then HALF else 1);
      x := NewtonStep(m0, x);
      w := w * w;
      i := i / 2;
    }
    mm := WSub(0, x);
    Negated(m0, x, mm);
  }

  lemma Negated(m: Limb, x: Limb, mm: Limb)
    requires Inverse(m, x, BASE) && mm == WSub(0, x)
    ensures (m * mm + 1) % BASE == 0
  {
    var k := CongFactor(m * x, 1, BASE);
    var e := if x == 0 then 0 else 1;
    var y: int := x;
    ModLimb(-y, -e, e * BASE - y);
    assert mm == e * BASE - x;
    NegatedProduct(m, x, e, k);
    FloorIs(m * mm + 1, m * e - k, BASE, 0);
  }

  lemma NegatedProduct(m: int, x: int, e: int, k: int)
    requires m * x - 1 == k * BASE
    ensures m * (e * BASE - x) + 1 == (m * e - k) * BASE
  {
    Assoc(m, e, BASE);
    assert m * (e * BASE - x) == m * (e * BASE) - m * x;
  }

  // ---- one limb of the multiplication ----

  lemma {:induction false} AtInjective(x: int, y: int, i: nat)
    requires At(x, i) == At(y, i)
    ensures x == y
  {
    if i > 0 {
      AtInjective(x, y, i - 1);
    }
  }

  /** Room for adding x at limb i when limb i onwards stays below B(k). */
  lemma HlpRoom(p: seq<Limb>, i: nat, x: nat, k: nat)
    requires i + k <= |p| && Val(p[i..]) + x < B(k)
    ensures Val(p) + At(x, i) < B(|p|)
  {
    hide *;
    var v := Val(p[i..]);
    ValSplit(p, i);
    ValBound(p[..i]);
    AtAdd(v, x, i);
    AtAdd(v + x, 1, i);
    AtOne(i);
    AtMono(v + x + 1, B(k), i);
    AtOne(k);
    AtAt(1, k, i);
    AtOne(k + i);
    BMono(k + i, |p|);
  }

  /** Adding at limb i without touching the limbs below adds to the tail. */
  lemma TailAdds(p: seq<Limb>, q: seq<Limb>, i: nat, x: int)
    requires |p| == |q| && i <= |p| && p[..i] == q[..i] && Val(q) == Val(p) + At(x, i)
    ensures Val(q[i..]) == Val(p[i..]) + x
  {
    hide *;
    ValSplit(p, i);
    ValSplit(q, i);
    AtAdd(Val(p[i..]), x, i);
    AtInjective(Val(q[i..]), Val(p[i..]) + x, i);
  }

  /** mpi_mul_hlp applied at T + i. */
  method AddRow(T: Mpi, i: nat, len: nat, s: seq<Limb>, b: Limb, ghost k: nat)
    requires len <= |s| && i + len < |T.p| && i + k <= |T.p|
    requires Val(T.p[i..]) + b * Val(s[..len]) < B(k)
    modifies T
    ensures |T.p| == old(|T.p|) && T.s == old(T.s) && T.p[..i] == old(T.p)[..i]
    ensures Val(T.p[i..]) == Val(old(T.p)[i..]) + b * Val(s[..len])
  {
    hide Val, At, B;
    ghost var p, x := T.p, b * Val(s[..len]);
    RowNonneg(b, Val(s[..len]));
    HlpRoom(p, i, x, k);
    MulHlp(len, s, T, i, b);
    TailAdds(p, T.p, i, x);
  }

  lemma RowNonneg(b: nat, v: nat)
    ensures b * v >= 0
  {}

  /** The multiplier of the modulus makes the lowest limb zero. */
  function Multiplier(d0: Limb, u0: Limb, b0: Limb, mm: Limb): Limb {
    IntDiv.WMul(WAdd(d0, IntDiv.WMul(u0, b0)), mm)
  }

  lemma WrapMultiplier(d0: Limb, u0: Limb, b0: Limb, mm: Limb) returns (f: int)
    ensures Multiplier(d0, u0, b0, mm) == (d0 + u0 * b0) * mm - f * BASE
  {
    var c := (u0 * b0) % BASE;
    var q1 := (u0 * b0) / BASE;
    var e := (d0 + c) % BASE;
    var q2 := (d0 + c) / BASE;
    var q3 := (e * mm) / BASE;
    assert d0 + u0 * b0 == e + (q1 + q2) * BASE;
    assert (e + (q1 + q2) * BASE) * mm == e * mm + ((q1 + q2) * BASE) * mm;
    Rearrange(q1 + q2, BASE, mm);
    assert ((q1 + q2) * BASE) * mm == ((q1 + q2) * mm) * BASE by { Assoc(q1 + q2, BASE, mm); Assoc(q1 + q2, mm, BASE); }
    f := (q1 + q2) * mm + q3;
  }

  lemma LowLimbCancels(d0: Limb, u0: Limb, b0: Limb, n0: Limb, mm: Limb) returns (g: int)
    requires (n0 * mm + 1) % BASE == 0
    ensures d0 + u0 * b0 + Multiplier(d0, u0, b0, mm) * n0 == g * BASE
  {
    var f := WrapMultiplier(d0, u0, b0, mm);
    var e := (n0 * mm + 1) / BASE;
    g := CancelAlgebra(d0 + u0 * b0, n0, mm, e, f, Multiplier(d0, u0, b0, mm));
  }

  lemma CancelAlgebra(w: int, n0: int, mm: int, e: int, f: int, u: int) returns (g: int)
    requires n0 * mm + 1 == e * BASE && u == w * mm - f * BASE
    ensures w + u * n0 == g * BASE
  {
    g := w * e - f * n0;
    assert u * n0 == (w * mm) * n0 - (f * BASE) * n0;
    assert (w * mm) * n0 == w * (n0 * mm) by { Assoc(w, mm, n0); Commute(mm, n0); }
    assert (f * BASE) * n0 == (f * n0) * BASE by { Assoc(f, BASE, n0); Assoc(f, n0, BASE); }
    assert w + w * (n0 * mm) == w * (n0 * mm + 1);
    Assoc(w, e, BASE);
  }

  /** The sum added in one step is divisible by BASE. */
  lemma StepDivisible(d0: Limb, vt: int, u0: Limb, b0: Limb, bt: int, n0: Limb, nt: int, mm: Limb) returns (h: int)
    requires (n0 * mm + 1) % BASE == 0
    ensures (d0 + BASE * vt) + u0 * (b0 + BASE * bt) + Multiplier(d0, u0, b0, mm) * (n0 + BASE * nt) == BASE * h
  {
    var g := LowLimbCancels(d0, u0, b0, n0, mm);
    var u := Multiplier(d0, u0, b0, mm);
    h := g + vt + u0 * bt + u * nt;
    assert u0 * (b0 + BASE * bt) == u0 * b0 + BASE * (u0 * bt)
      by { Assoc(u0, BASE, bt); Assoc(BASE, u0, bt); Commute(u0, BASE); }
    assert u * (n0 + BASE * nt) == u * n0 + BASE * (u * nt)
      by { Assoc(u, BASE, nt); Assoc(BASE, u, nt); Commute(u, BASE); }
  }

  lemma StepBound(v: int, u0: Limb, u1: Limb, bv: int, nv: int, n: nat)
    requires 0 <= v < nv + bv && 0 <= bv < B(n) && 0 <= nv < B(n)
    ensures 0 <= u0 * bv && 0 <= u1 * nv
    ensures v + u0 * bv + u1 * nv < BASE * (nv + bv) <= B(n + 2)
  {
    MulMono(u0, BASE - 1, bv);
    MulMono(u1, BASE - 1, nv);
    MulMono(0, u0, bv);
    MulMono(0, u1, nv);
  }

  lemma HeadTail(s: seq<Limb>, len: nat)
    requires 1 <= len <= |s|
    ensures Val(s[..len]) == s[0] + BASE * Val(s[1..len])
  {
    assert s[..len][1..] == s[1..len];
  }

  /** The limb that step i clears at its end, the highest that it writes. */
  function ClearedLimb(i: nat, n: nat): nat { i + n + 2 }

  /** All steps write inside the scratch space exactly when it has 2 n + 2 limbs; the check at the start of the
      function is content with n + 1. */
  lemma ScratchNeeded(n: nat, len: nat)
    requires n >= 1
    ensures (forall i: nat :: i < n ==> ClearedLimb(i, n) < len) <==> len >= 2 * n + 2
  {
    assert ClearedLimb(n - 1, n) == 2 * n + 1;
  }

  /** One limb: T + i becomes (T + i) + u0 * B + u1 * N, whose lowest limb is zero and is then reused. */
  method MontStep(T: Mpi, i: nat, n: nat, m: nat, u0: Limb, b: seq<Limb>, nn: seq<Limb>, mm: Limb)
      returns (ghost u1: Limb)
    requires 1 <= m <= n == |nn| && m <= |b| && i < n && |T.p| >= 2 * n + 2
    requires (nn[0] * mm + 1) % BASE == 0
    requires Val(T.p[i..]) < Val(nn) + Val(b[..m])
    modifies T
    ensures |T.p| == old(|T.p|) && T.s == old(T.s) && T.p[..i] == old(T.p)[..i] && T.p[i] == u0
    ensures BASE * Val(T.p[i + 1..]) == Val(old(T.p)[i..]) + u0 * Val(b[..m]) + u1 * Val(nn)
    ensures Val(T.p[i + 1..]) < Val(nn) + Val(b[..m])
  {
    hide Val, At, B;
    ghost var v, bv, nv := Val(T.p[i..]), Val(b[..m]), Val(nn);
    var r1 := Multiplier(T.p[i], u0, b[0], mm);
    u1 := r1;
    ValBound(b[..m]);
    BMono(m, n);
    ValBound(nn);
    StepBound(v, u0, u1, bv, nv, n);
    assert nn[..n] == nn;
    ValDrop(T.p, i);
    HeadTail(b, m);
    HeadTail(nn, n);
    ghost var h := StepDivisible(T.p[i], Val(T.p[i + 1..]), u0, b[0], Val(b[1..m]), nn[0], Val(nn[1..n]), mm);
    AddRow(T, i, m, b, u0, n + 2);
    AddRow(T, i, n, nn, r1, n + 2);
    LowZero(T.p, i, h);
    HighLimbZero(T.p, i, n + 2);
    ghost var q := T.p;
    T.p := T.p[i := u0];
    T.p := T.p[ClearedLimb(i, n) := 0];
    assert T.p[i + 1..] == q[i + 1..];
    assert T.p[..i] == q[..i];
  }

  lemma LowZero(p: seq<Limb>, i: nat, h: int)
    requires i < |p| && Val(p[i..]) == BASE * h
    ensures p[i] == 0 && BASE * Val(p[i + 1..]) == Val(p[i..])
  {
    hide Val;
    ValDrop(p, i);
    MultipleOfBase(p[i], h - Val(p[i + 1..]));
  }

  lemma MultipleOfBase(x: Limb, k: int)
    requires x == BASE * k
    ensures x == 0
  {}

  lemma HighLimbZero(p: seq<Limb>, i: nat, k: nat)
    requires i + k < |p| && Val(p[i..]) < B(k)
    ensures p[i + k] == 0
  {
    ValHighZero(p[i..], k);
    assert p[i + k] == p[i..][k..][0];
  }

  /** What the passes have computed after i limbs: T + i times B(i) is the product of the limbs used so
      far, plus a multiple of the modulus. */
  ghost predicate Partial(ti: int, av: int, bv: int, nv: int, u: int, i: nat) {
    ti * B(i) == av * bv + u * nv
  }

  lemma PartialStep(ti: int, ti': int, av: int, bv: int, nv: int, u: int, i: nat, u0: Limb, u1: Limb)
    requires Partial(ti, av, bv, nv, u, i) && BASE * ti' == ti + u0 * bv + u1 * nv
    ensures Partial(ti', av + At(u0, i), bv, nv, u + At(u1, i), i + 1)
  {
    var w := B(i);
    AtMul(u0, i);
    AtMul(u1, i);
    assert B(i + 1) == BASE * w;
    hide At, B;
    ScaledStep(ti, ti', u0, bv, u1, nv, w);
    Spread(av, u0 * w, bv);
    Spread(u, u1 * w, nv);
  }

  lemma Spread(x: int, y: int, z: int)
    ensures (x + y) * z == x * z + y * z
  {}

  lemma ScaledStep(ti: int, ti': int, u0: int, bv: int, u1: int, nv: int, w: int)
    requires BASE * ti' == ti + u0 * bv + u1 * nv
    ensures ti' * (BASE * w) == ti * w + (u0 * w) * bv + (u1 * w) * nv
  {
    Assoc(ti', BASE, w);
    Commute(BASE, ti');
    Rearrange(u0, bv, w);
    Commute(w, u0);
    Rearrange(u1, nv, w);
    Commute(w, u1);
    assert (ti + u0 * bv + u1 * nv) * w == ti * w + (u0 * bv) * w + (u1 * nv) * w;
  }

  /** The n passes, one for each limb of A. */
  method MontPasses(T: Mpi, a: seq<Limb>, b: seq<Limb>, nn: seq<Limb>, m: nat, mm: Limb) returns (ghost u: int)
    requires 1 <= m <= |nn| <= |a| && m <= |b| && |T.p| >= 2 * |nn| + 2 && AllZero(T.p)
    requires (nn[0] * mm + 1) % BASE == 0 && Val(nn) > 0
    modifies T
    ensures |T.p| == old(|T.p|) && T.s == old(T.s)
    ensures Val(T.p[|nn|..]) < Val(nn) + Val(b[..m])
    ensures Partial(Val(T.p[|nn|..]), Val(a[..|nn|]), Val(b[..m]), Val(nn), u, |nn|)
  {
    hide Val, Partial, B, At, AllZero;
    var n, i := |nn|, 0;
    u := 0;
    PassesStart(T.p, a, b[..m], nn);
    while i < n
      invariant 0 <= i <= n && |T.p| == old(|T.p|) && T.s == old(T.s)
      invariant Val(T.p[i..]) < Val(nn) + Val(b[..m])
      invariant Partial(Val(T.p[i..]), Val(a[..i]), Val(b[..m]), Val(nn), u, i)
    {
      ghost var t := Val(T.p[i..]);
      ghost var u1 := MontStep(T, i, n, m, a[i], b, nn, mm);
      PartialStep(t, Val(T.p[i + 1..]), Val(a[..i]), Val(b[..m]), Val(nn), u, i, a[i], u1);
      ValTake(a, i);
      u := u + At(u1, i);
      i := i + 1;
    }
  }

  lemma PassesStart(t: seq<Limb>, a: seq<Limb>, b: seq<Limb>, nn: seq<Limb>)
    requires AllZero(t) && Val(nn) > 0
    ensures Val(t[0..]) < Val(nn) + Val(b)
    ensures Partial(Val(t[0..]), Val(a[..0]), Val(b), Val(nn), 0, 0)
  {
    ValZero(t);
    assert t[0..] == t;
  }

  /** A := A * B / 2^(64 n) modulo N, for A < N and B <= N. B may be A. T is scratch space, long
      enough for the steps (see ScratchNeeded) unless it is refused. */
  method MontMul(A: Mpi, B: Mpi, N: Mpi, mm: Limb, T: Mpi) returns (ret: Status)
    requires T !in {A, B, N} && A != N
    requires |T.p| <= |N.p| || |T.p| >= 2 * |N.p| + 2
    requires |A.p| >= |N.p| + 1 && |B.p| >= 1 && |N.p| >= 1
    requires (N.p[0] * mm + 1) % BASE == 0
    requires A.Mag() < N.Mag() && B.Mag() <= N.Mag()
    modifies A, T
    ensures ret == if old(|T.p|) <= |N.p| then BadInputData else Ok
    ensures ret == Ok ==> A.Mag() < N.Mag() && |A.p| == old(|A.p|) && A.s == old(A.s) && |T.p| == old(|T.p|)
    ensures ret == Ok ==> Cong(A.Mag() * Limbs.B(|N.p|), old(A.Mag()) * old(B.Mag()), N.Mag())
    ensures ret != Ok ==> unchanged(A) && unchanged(T)
  {
    if |T.p| < |N.p| + 1 {
      return BadInputData;
    }
    hide Val, Limbs.B, Partial, At, Cong;
    ghost var t := MontProduct(A, B, N, mm, T);
    ret := FinalSubtract(A, N, T, |N.p|, t);
  }

  /** The product, before a possible last subtraction of N. */
  method MontProduct(A: Mpi, B: Mpi, N: Mpi, mm: Limb, T: Mpi) returns (ghost t: int)
    requires T !in {A, B, N} && A != N && |T.p| >= 2 * |N.p| + 2
    requires |A.p| >= |N.p| + 1 && |B.p| >= 1 && |N.p| >= 1
    requires (N.p[0] * mm + 1) % BASE == 0
    requires A.Mag() < N.Mag() && B.Mag() <= N.Mag()
    modifies A, T
    ensures |A.p| == old(|A.p|) && A.s == old(A.s) && |T.p| == old(|T.p|)
    ensures A.Mag() == Val(T.p[|N.p|..]) == t < N.Mag() + N.Mag()
    ensures Cong(t * Limbs.B(|N.p|), old(A.Mag()) * old(B.Mag()), N.Mag())
    ensures Cong((t - N.Mag()) * Limbs.B(|N.p|), old(A.Mag()) * old(B.Mag()), N.Mag())
  {
    hide Val, Limbs.B, Partial, At, Cong;
    ghost var a, b, nv, a0 := A.Mag(), B.Mag(), N.Mag(), A.p;
    T.p := Zeros(|T.p|);
    var n := |N.p|;
    var m := if |B.p| < n then |B.p| else n;
    ValBound(N.p);
    ValHighZero(A.p, n);
    LowPartEnough(B.p, m, N.p);
    ghost var u := MontPasses(T, A.p, B.p, N.p, m, mm);
    t := Val(T.p[n..]);
    SumBelow(nv, n);
    BSucc(n);
    ValHighZero(T.p[n..], n + 1);
    assert T.p[n..][..n + 1] == T.p[n..2 * n + 1];
    A.p := T.p[n..2 * n + 1] + A.p[n + 1..];
    assert AllZero(a0[n + 1..]) by { assert a0[n + 1..] == a0[n..][1..]; }
    ValPad(T.p[n..2 * n + 1], a0[n + 1..]);
    PartialCong(t, a, b, nv, u, n);
  }

  lemma LowPartEnough(b: seq<Limb>, m: nat, nn: seq<Limb>)
    requires Val(b) <= Val(nn) && m == (if |b| < |nn| then |b| else |nn|)
    ensures Val(b[..m]) == Val(b)
  {
    if m == |b| {
      assert b[..m] == b;
    } else {
      ValBound(nn);
      ValHighZero(b, m);
    }
  }

  lemma SumBelow(nv: int, n: nat)
    requires 0 <= nv < B(n)
    ensures nv + nv < BASE * B(n)
  {}

  lemma PartialCong(t: int, a: int, b: int, nv: int, u: int, n: nat)
    requires nv > 0 && Partial(t, a, b, nv, u, n)
    ensures Cong(t * B(n), a * b, nv) && Cong((t - nv) * B(n), a * b, nv)
  {
    CongIntro(t * B(n), a * b, nv, u);
    assert (t - nv) * B(n) == t * B(n) - nv * B(n);
    assert u * nv - B(n) * nv == (u - B(n)) * nv;
    Commute(nv, B(n));
    CongIntro((t - nv) * B(n), a * b, nv, u - B(n));
  }

  /** The last subtraction of the modulus, or the equally long one on the scratch space. */
  method FinalSubtract(A: Mpi, N: Mpi, T: Mpi, n: nat, ghost t: int) returns (ret: Status)
    requires T !in {A, N} && A != N && n == |N.p| && |T.p| >= n && |A.p| >= n
    requires A.Mag() == t < N.Mag() + N.Mag() && Val(T.p[n..]) == t
    modifies A, T
    ensures ret == Ok && A.Mag() < N.Mag() && (A.Mag() == t || A.Mag() == t - N.Mag())
    ensures |A.p| == old(|A.p|) && A.s == old(A.s) && |T.p| == old(|T.p|)
  {
    hide Val, At, B;
    var c := CmpAbs(A, N);
    assert N.p[..n] == N.p;
    if c >= 0 {
      SubHlp(n, N.p, A);
    } else {
      ValSplit(T.p, n);
      AtAtLeast(t, n);
      ValBound(N.p);
      ValHighZero(A.p, n);
      SubHlp(n, A.p, T);
    }
    return Ok;
  }

  lemma {:induction false} AtAtLeast(x: int, i: nat)
    requires x >= 0
    ensures At(x, i) >= x
  {
    if i > 0 {
      AtAtLeast(x, i - 1);
    }
  }
}
