/** Binary greatest common divisor (HAC 14.54) and modular inverse (HAC 14.61, 14.64). */
module GcdInv {
  import opened Limbs
  import opened Mpis
  import opened MpiAddSub
  import opened MpiShift
  import opened MpiMod
  import opened ExpMod

  ghost predicate Divides(d: int, a: int)
    requires d > 0
  {
    Cong(a, 0, d)
  }

  ghost predicate Combination(g: int, a: int, b: int, u: int, v: int) {
    u * a + v * b == g
  }

  /** g is the greatest common divisor of a and b: it divides both and is an integer combination of them. */
  ghost predicate IsGcd(g: int, a: int, b: int) {
    g > 0 && Divides(g, a) && Divides(g, b) && exists u, v :: Combination(g, a, b, u, v)
  }

  lemma DividesCombination(d: int, a: int, b: int, u: int, v: int)
    requires d > 0 && Divides(d, a) && Divides(d, b)
    ensures Divides(d, u * a + v * b)
  {
    CongRefl(u, d);
    CongRefl(v, d);
    CongMul(u, u, a, 0, d);
    CongMul(v, v, b, 0, d);
    var j, k := CongFactor(u * a, 0, d), CongFactor(v * b, 0, d);
    assert (j + k) * d == j * d + k * d;
    CongIntro(u * a + v * b, 0, d, j + k);
  }

  /** Every common divisor divides the greatest one, so it is unique and really the greatest. */
  lemma GcdGreatest(g: int, a: int, b: int, d: int)
    requires IsGcd(g, a, b) && d > 0 && Divides(d, a) && Divides(d, b)
    ensures Divides(d, g) && d <= g
  {
    var u, v :| Combination(g, a, b, u, v);
    DividesCombination(d, a, b, u, v);
    var k := CongFactor(g, 0, d);
    if k <= 0 {
      MulMono(k, 0, d);
    }
    MulMono(1, k, d);
  }

  lemma GcdUnique(g: int, h: int, a: int, b: int)
    requires IsGcd(g, a, b) && IsGcd(h, a, b)
    ensures g == h
  {
    GcdGreatest(g, a, b, h);
    GcdGreatest(h, a, b, g);
  }

  /** Euclid's algorithm, as evidence that the divisor exists. */
  lemma GcdExists(a: nat, b: nat) returns (g: nat)
    requires a > 0 || b > 0
    ensures IsGcd(g, a, b)
    decreases b
  {
    if b == 0 {
      g := a;
      CongIntro(a, 0, a, 1);
      CongIntro(0, 0, a, 0);
      assert Combination(a, a, 0, 1, 0);
    } else {
      var q, r := a / b, a % b;
      assert a == q * b + r;
      g := GcdExists(b, r);
      var u, v :| Combination(g, b, r, u, v);
      DividesCombination(g, b, r, q, 1);
      assert u * b + v * r == v * a + (u - v * q) * b by {
        assert v * a == v * (q * b) + v * r;
        Assoc(v, q, b);
        assert (u - v * q) * b == u * b - (v * q) * b;
      }
      assert Combination(g, a, b, v, u - v * q);
    }
  }

  // ---- what the steps of the binary algorithms preserve ----

  lemma GcdSwap(g: int, a: int, b: int)
    requires IsGcd(g, a, b)
    ensures IsGcd(g, b, a)
  {
    var u, v :| Combination(g, a, b, u, v);
    assert Combination(g, b, a, v, u);
  }

  lemma GcdSub(g: int, a: int, b: int)
    requires IsGcd(g, a, b)
    ensures IsGcd(g, a - b, b)
  {
    var u, v :| Combination(g, a, b, u, v);
    DividesCombination(g, a, b, 1, -1);
    Shifted(u, v, a, b);
    assert Combination(g, a - b, b, u, u + v);
  }

  lemma Shifted(u: int, v: int, a: int, b: int)
    ensures u * (a - b) + (u + v) * b == u * a + v * b
  {}

  /** Removing factors of two from one number keeps an odd divisor. */
  lemma GcdHalve(g: int, a: int, b: int, k: nat)
    requires IsGcd(g, a * Pow2(k), b) && g % 2 == 1
    ensures IsGcd(g, a, b)
  {
    var u, v :| Combination(g, a * Pow2(k), b, u, v);
    CancelPow2(a, 0, k, g);
    Assoc(u, Pow2(k), a);
    Commute(a, Pow2(k));
    assert Combination(g, a, b, u * Pow2(k), v);
  }

  /** Putting common factors of two back scales the divisor. */
  lemma GcdScale(g: int, a: int, b: int, w: int)
    requires IsGcd(g, a, b) && w > 0
    ensures IsGcd(g * w, a * w, b * w)
  {
    MulMono(1, g, w);
    var j, k := CongFactor(a, 0, g), CongFactor(b, 0, g);
    Assoc(j, g, w);
    Assoc(k, g, w);
    CongIntro(a * w, 0, g * w, j);
    CongIntro(b * w, 0, g * w, k);
    var u, v :| Combination(g, a, b, u, v);
    Assoc(u, a, w);
    Assoc(v, b, w);
    assert (u * a + v * b) * w == (u * a) * w + (v * b) * w;
    assert Combination(g * w, a * w, b * w, u, v);
  }

  lemma OddDivisor(g: int, a: int, b: int)
    requires IsGcd(g, a, b) && (a % 2 == 1 || b % 2 == 1)
    ensures g % 2 == 1
  {
    if g % 2 == 0 {
      EvenMultiple(a, CongFactor(a, 0, g), g);
      EvenMultiple(b, CongFactor(b, 0, g), g);
    }
  }

  lemma EvenMultiple(a: int, j: int, g: int)
    requires a == j * g && g % 2 == 0
    ensures a % 2 == 0
  {
    var h := g / 2;
    assert g == 2 * h;
    Assoc(j, 2, h);
    Assoc(2, j, h);
    assert a == 2 * (j * h);
  }

  lemma GcdOfZero(g: int, b: int)
    requires IsGcd(g, 0, b) && b > 0
    ensures g == b
  {
    CongIntro(0, 0, b, 0);
    CongIntro(b, 0, b, 1);
    GcdGreatest(g, 0, b, b);
    var k := CongFactor(b, 0, g);
    if k <= 0 {
      MulMono(k, 0, g);
    }
    MulMono(1, k, g);
  }

  // ---- the binary algorithm ----

  lemma ExactDown(x: nat, k: nat, lz: nat)
    requires OddAt(x, k) && lz <= k
    ensures x == (x / Pow2(lz)) * Pow2(lz)
    ensures lz == k ==> (x / Pow2(lz)) % 2 == 1
  {
    var m := x / Pow2(k);
    Pow2Add(k - lz, lz);
    assert x == (m * Pow2(k - lz)) * Pow2(lz) by {
      Assoc(m, Pow2(k - lz), Pow2(lz));
      Commute(m, Pow2(k));
    }
    FloorIs(x, m * Pow2(k - lz), Pow2(lz), 0);
  }

  /** X := X without its trailing zero bits. */
  method MakeOdd(X: Mpi)
    modifies X
    ensures old(X.Mag()) == 0 ==> X.Mag() == 0
    ensures old(X.Mag()) != 0 ==> X.Mag() % 2 == 1 && X.Mag() > 0 && OddPart(old(X.Mag()), X.Mag())
    ensures X.s == old(X.s) || (X.s == 1 && X.Mag() == 0)
  {
    hide Val, Pow2;
    ghost var x := X.Mag();
    var k := Lsb(X);
    if x != 0 {
      ExactDown(x, k, k);
    } else {
      FloorIs(0, 0, Pow2(k), 0);
    }
    ShiftR(X, k);
  }

  /** x is a with factors of two put back. */
  ghost predicate OddPart(x: int, a: int) {
    exists k: nat :: x == a * Pow2(k)
  }

  /** What the loop keeps: g is the divisor of the two numbers, unless the second one is zero. */
  ghost predicate LoopInv(g: int, a: int, b: int, b0: int) {
    if b0 == 0 then b == 0
    else b > 0 && IsGcd(g, a, b) && (a == 0 || g % 2 == 1)
  }

  /** The halving loop. */
  method GcdLoop(TA: Mpi, TB: Mpi, ghost g: int)
    requires TA != TB && TA.s == 1 && TB.s == 1 && LoopInv(g, TA.Mag(), TB.Mag(), TB.Mag())
    modifies TA, TB
    ensures TB.Int() == TB.Mag() == if old(TB.Mag()) == 0 then 0 else g
  {
    hide Val, Pow2, LoopInv;
    ghost var b0 := TB.Mag();
    while true
      invariant TA.s == 1 && TB.s == 1 && LoopInv(g, TA.Mag(), TB.Mag(), b0)
      decreases TA.Mag() + TB.Mag()
    {
      var z := CmpInt(TA, 0);
      if z == 0 {
        break;
      }
      ghost var x, y := TA.Mag(), TB.Mag();
      MakeOdd(TA);
      MakeOdd(TB);
      ghost var a, b := TA.Mag(), TB.Mag();
      AfterHalving(g, x, y, a, b, b0);
      PowOneTwo();
      var c := CmpMpi(TA, TB);
      if c >= 0 {
        var r := SubAbs(TA, TA, TB);
        ShiftR(TA, 1);
        AfterFirst(g, a, b, b0);
      } else {
        var r := SubAbs(TB, TB, TA);
        ShiftR(TB, 1);
        AfterSecond(g, a, b, b0);
      }
    }
    AtTheEnd(g, TB.Mag(), b0);
  }

  lemma PowOneTwo()
    ensures Pow2(1) == 2
  {
    Pow2Zero();
  }

  lemma AfterHalving(g: int, x: int, y: int, a: int, b: int, b0: int)
    requires LoopInv(g, x, y, b0) && x > 0 && a > 0 && a % 2 == 1 && OddPart(x, a)
    requires y == 0 ==> b == 0
    requires y != 0 ==> b > 0 && b % 2 == 1 && OddPart(y, b)
    ensures LoopInv(g, a, b, b0) && a <= x && b <= y && (b0 == 0 <==> b == 0)
  {
    var k: nat :| x == a * Pow2(k);
    MulMono(1, Pow2(k), a);
    if b0 != 0 {
      OddParts(g, x, y, a, b);
    }
  }

  lemma AfterFirst(g: int, a: nat, b: nat, b0: int)
    requires LoopInv(g, a, b, b0) && a % 2 == 1 && a >= b && (b0 == 0 <==> b == 0) && (b != 0 ==> b % 2 == 1)
    ensures LoopInv(g, (a - b) / 2, b, b0) && (a - b) / 2 < a
  {
    if b0 != 0 {
      HalfDifference(g, a, b);
    }
  }

  lemma AfterSecond(g: int, a: nat, b: nat, b0: int)
    requires LoopInv(g, a, b, b0) && a % 2 == 1 && a < b && (b0 == 0 <==> b == 0) && (b != 0 ==> b % 2 == 1)
    ensures LoopInv(g, a, (b - a) / 2, b0) && 0 <= (b - a) / 2 < b
  {
    GcdSwap(g, a, b);
    HalfDifference(g, b, a);
    GcdSwap(g, (b - a) / 2, a);
  }

  lemma AtTheEnd(g: int, b: int, b0: int)
    requires LoopInv(g, 0, b, b0)
    ensures b == if b0 == 0 then 0 else g
  {
    if b0 != 0 {
      GcdOfZero(g, b);
    }
  }

  lemma OddParts(g: int, a0: int, b0: int, a: nat, b: nat)
    requires IsGcd(g, a0, b0) && g % 2 == 1 && a > 0 && b > 0
    requires OddPart(a0, a) && OddPart(b0, b)
    ensures IsGcd(g, a, b) && a <= a0 && b <= b0
  {
    var k: nat :| a0 == a * Pow2(k);
    var l: nat :| b0 == b * Pow2(l);
    GcdHalve(g, a, b0, k);
    GcdSwap(g, a, b0);
    GcdHalve(g, b, a, l);
    GcdSwap(g, b, a);
    MulMono(1, Pow2(k), a);
    MulMono(1, Pow2(l), b);
  }

  lemma HalfDifference(g: int, a: nat, b: nat)
    requires IsGcd(g, a, b) && g % 2 == 1 && a % 2 == 1 && b % 2 == 1 && a >= b
    ensures IsGcd(g, (a - b) / 2, b) && Pow2(1) == 2 && (a > b ==> (a - b) / 2 > 0)
  {
    hide IsGcd, Pow2;
    PowOneTwo();
    GcdSub(g, a, b);
    assert a - b == ((a - b) / 2) * Pow2(1);
    GcdHalve(g, (a - b) / 2, b, 1);
  }

  /** G := gcd(A, B). The result is the greatest common divisor exactly when B is not zero; for B = 0 the
      result is 0 whatever A is. G may be A or B. */
  method GcdMpi(G: Mpi, A: Mpi, B: Mpi)
    modifies G
    ensures IsGcd(G.Int(), Abs(old(A.Int())), Abs(old(B.Int()))) <==> old(B.Int()) != 0
    ensures old(B.Int()) == 0 ==> G.Int() == 0
  {
    hide Val, Pow2, IsGcd, LoopInv, OddAt;
    ghost var a, b := A.Mag(), B.Mag();
    assert a == Abs(A.Int()) && b == Abs(B.Int()) && (b == 0 <==> B.Int() == 0);
    var TA := new Mpi();
    var TB := new Mpi();
    Copy(TA, A);
    Copy(TB, B);
    var lz := Lsb(TA);
    var lzt := Lsb(TB);
    ghost var lza := lz;
    if lzt < lz {
      lz := lzt;
    }
    ShiftR(TA, lz);
    ShiftR(TB, lz);
    TA.s, TB.s := 1, 1;
    ghost var g := StartGcd(a, b, lza, lzt, lz);
    GcdLoop(TA, TB, g);
    ShiftL(TB, lz);
    GcdAnswer(TB.Int(), g, a, b, lz);
    Copy(G, TB);
  }

  lemma GcdAnswer(r: int, g: int, a: int, b: int, lz: nat)
    requires if b == 0 then r == 0 else r == g * Pow2(lz) && IsGcd(g * Pow2(lz), a, b)
    ensures IsGcd(r, a, b) <==> b != 0
    ensures b == 0 ==> r == 0
  {}

  /** The common factors of two are taken out first, so that one of the numbers is odd. */
  lemma StartGcd(a: nat, b: nat, la: nat, lb: nat, lz: nat) returns (g: nat)
    requires a == 0 ==> la == 0
    requires a != 0 ==> OddAt(a, la)
    requires b != 0 ==> OddAt(b, lb)
    requires lz == if lb < la then lb else la
    ensures LoopInv(g, a / Pow2(lz), b / Pow2(lz), b / Pow2(lz))
    ensures b == 0 ==> b / Pow2(lz) == 0
    ensures b != 0 ==> b / Pow2(lz) != 0 && IsGcd(g * Pow2(lz), a, b)
  {
    var w := Pow2(lz);
    var x, y := a / w, b / w;
    QuotientBounds(a, w);
    QuotientBounds(b, w);
    g := 0;
    if b == 0 {
      FloorIs(0, 0, w, 0);
    } else {
      ExactDown(b, lb, lz);
      if a != 0 {
        ExactDown(a, la, lz);
      } else {
        Pow2Zero();
      }
      g := GcdExists(x, y);
      GcdScale(g, x, y, w);
      if a != 0 {
        OddDivisor(g, x, y);
      }
    }
  }

  // ---- the modular inverse ----

  /** Halving a combination keeps it exact: either both coefficients are even, or both become even
      after adding b to the first and subtracting a from the second. */
  lemma HalvingExact(x: int, u: int, v: int, a: int, b: int)
    requires Combination(x, a, b, u, v) && x % 2 == 0 && (a % 2 == 1 || b % 2 == 1)
    ensures u % 2 == 0 && v % 2 == 0 ==> Combination(x / 2, a, b, u / 2, v / 2)
    ensures u % 2 != 0 || v % 2 != 0 ==>
              (u + b) % 2 == 0 && (v - a) % 2 == 0 && Combination(x / 2, a, b, (u + b) / 2, (v - a) / 2)
  {
    if u % 2 == 0 && v % 2 == 0 {
      HalveSum(x, u, v, a, b);
    } else {
      OddCoefficients(u * a, v * b, u, v, a, b);
      CombinationShift(x, u, v, a, b);
      HalveSum(x, u + b, v - a, a, b);
    }
  }

  lemma CombinationShift(x: int, u: int, v: int, a: int, b: int)
    requires Combination(x, a, b, u, v)
    ensures Combination(x, a, b, u + b, v - a)
  {
    assert (u + b) * a == u * a + b * a;
    assert (v - a) * b == v * b - a * b;
    Commute(a, b);
  }

  lemma OddCoefficients(p: int, q: int, u: int, v: int, a: int, b: int)
    requires p == u * a && q == v * b && (p + q) % 2 == 0
    requires (a % 2 == 1 || b % 2 == 1) && (u % 2 == 1 || v % 2 == 1)
    ensures (u + b) % 2 == 0 && (v - a) % 2 == 0
  {
    ParityOfProduct(u, a);
    ParityOfProduct(v, b);
    Parities(p, q, u, v, a, b, u % 2, v % 2, a % 2, b % 2);
  }

  lemma Parities(p: int, q: int, u: int, v: int, a: int, b: int, u2: int, v2: int, a2: int, b2: int)
    requires u2 == u % 2 && v2 == v % 2 && a2 == a % 2 && b2 == b % 2
    requires p % 2 == u2 * a2 && q % 2 == v2 * b2 && (p + q) % 2 == 0
    requires (a2 == 1 || b2 == 1) && (u2 == 1 || v2 == 1)
    ensures (u + b) % 2 == 0 && (v - a) % 2 == 0
  {
    assert u2 == b2 && v2 == a2;
  }

  lemma ParityOfProduct(u: int, a: int)
    ensures (u * a) % 2 == (u % 2) * (a % 2)
  {
    var h, k := u / 2, a / 2;
    var r, s := u % 2, a % 2;
    assert u == 2 * h + r && a == 2 * k + s;
    assert u * a == 2 * (h * a) + r * a by { Assoc(2, h, a); assert (2 * h + r) * a == (2 * h) * a + r * a; }
    assert r * a == 2 * (r * k) + r * s
      by { Assoc(r, 2, k); Assoc(2, r, k); assert r * (2 * k + s) == r * (2 * k) + r * s; Commute(r, 2); }
    EvenPlusBit(h * a + r * k, r * s);
  }

  lemma EvenPlusBit(x: int, r: int)
    requires 0 <= r <= 1
    ensures (2 * x + r) % 2 == r
  {}

  lemma HalveSum(x: int, u: int, v: int, a: int, b: int)
    requires u * a + v * b == x && u % 2 == 0 && v % 2 == 0
    ensures Combination(x / 2, a, b, u / 2, v / 2)
  {
    var h, k := u / 2, v / 2;
    Assoc(2, h, a);
    Assoc(2, k, b);
    assert u == 2 * h && v == 2 * k;
    assert x == 2 * (h * a + k * b);
  }

  lemma CombinationSub(x: int, y: int, a: int, b: int, u1: int, u2: int, v1: int, v2: int)
    requires Combination(x, a, b, u1, u2) && Combination(y, a, b, v1, v2)
    ensures Combination(x - y, a, b, u1 - v1, u2 - v2)
  {
    assert (u1 - v1) * a == u1 * a - v1 * a;
    assert (u2 - v2) * b == u2 * b - v2 * b;
  }

  /** Halving an even number keeps an odd divisor. */
  lemma GcdHalveOnce(x: nat, y: int)
    requires IsGcd(1, x, y) && x % 2 == 0
    ensures IsGcd(1, x / 2, y)
  {
    Pow2Zero();
    assert x == (x / 2) * Pow2(1);
    GcdHalve(1, x / 2, y, 1);
  }

  lemma HalveSigned(s: Sign, m: nat)
    requires m % 2 == 0
    ensures Signed(s, m / 2) == Signed(s, m) / 2
    ensures Signed(s, m) % 2 == 0
  {}

  lemma ParitySigned(s: Sign, m: nat)
    ensures Signed(s, m) % 2 == m % 2
  {}

  /** X := X / 2 for even X. */
  method HalveEven(X: Mpi)
    requires X.Int() % 2 == 0 && X.p != []
    modifies X
    ensures X.Int() == old(X.Int()) / 2 && X.p != []
  {
    hide Val, Pow2;
    PowOneTwo();
    ParitySigned(X.s, X.Mag());
    HalveSigned(X.s, X.Mag());
    ShiftR(X, 1);
  }

  /** The test p[0] & 1 is the parity of the number. */
  method IsOdd(X: Mpi) returns (r: bool)
    requires X.p != []
    ensures r <==> X.Int() % 2 == 1
  {
    LowBitOdd(X.p);
    ParitySigned(X.s, X.Mag());
    hide Val;
    r := X.p[0] % 2 == 1;
  }

  /** While the number is even, it and its two coefficients are halved. */
  method HalveWhileEven(TU: Mpi, U1: Mpi, U2: Mpi, TA: Mpi, TB: Mpi, ghost y: int)
    requires |{TU, U1, U2}| == 3 && TA !in {TU, U1, U2} && TB !in {TU, U1, U2}
    requires TU.Int() > 0 && TU.p != [] && U1.p != [] && U2.p != [] && TA.p != [] && TB.p != []
    requires TA.Int() % 2 == 1 || TB.Int() % 2 == 1
    requires Combination(TU.Int(), TA.Int(), TB.Int(), U1.Int(), U2.Int()) && IsGcd(1, TU.Int(), y)
    modifies TU, U1, U2
    ensures 0 < TU.Int() <= old(TU.Int()) && TU.Int() % 2 == 1 && TU.p != [] && U1.p != [] && U2.p != []
    ensures Combination(TU.Int(), TA.Int(), TB.Int(), U1.Int(), U2.Int()) && IsGcd(1, TU.Int(), y)
  {
    hide Val, Pow2, IsGcd, Combination, Signed;
    ghost var a, b := TA.Int(), TB.Int();
    while true
      invariant 0 < TU.Int() <= old(TU.Int()) && TU.p != [] && U1.p != [] && U2.p != []
      invariant Combination(TU.Int(), a, b, U1.Int(), U2.Int()) && IsGcd(1, TU.Int(), y)
      decreases TU.Int()
    {
      var odd := IsOdd(TU);
      if odd {
        break;
      }
      ghost var x, u, v := TU.Int(), U1.Int(), U2.Int();
      HalvingExact(x, u, v, a, b);
      GcdHalveOnce(x, y);
      HalveEven(TU);
      var odd1 := IsOdd(U1);
      var odd2 := IsOdd(U2);
      if odd1 || odd2 {
        AddMpi(U1, U1, TB);
        SubMpi(U2, U2, TA);
      }
      HalveEven(U1);
      HalveEven(U2);
    }
  }

  lemma InverseFromCombination(u: int, v: int, a: int, r: int, n: int)
    requires n > 0 && Cong(r, a, n) && Combination(1, r, n, u, v)
    ensures Inverse(u, a, n)
  {
    CongRefl(u, n);
    CongMul(u, u, r, a, n);
    CongIntro(u * r, 1, n, -v);
    CongSym(u * r, u * a, n);
    CongTrans(u * a, u * r, 1, n);
  }

  lemma GcdOfInverse(x: int, a: int, n: int)
    requires n > 0 && Inverse(x, a, n)
    ensures IsGcd(1, a, n)
  {
    var k := CongFactor(x * a, 1, n);
    CongIntro(a, 0, 1, a);
    CongIntro(n, 0, 1, n);
    assert Combination(1, a, n, x, -k) by {
      assert x * a + (-k) * n == 1;
    }
  }

  lemma GcdAbs(g: int, a: int, n: int)
    ensures IsGcd(g, a, n) <==> IsGcd(g, -a, n)
  {
    if IsGcd(g, a, n) { GcdNegate(g, a, n); }
    if IsGcd(g, -a, n) { GcdNegate(g, -a, n); }
  }

  lemma GcdNegate(g: int, a: int, n: int)
    requires IsGcd(g, a, n)
    ensures IsGcd(g, -a, n)
  {
    var u, v :| Combination(g, a, n, u, v);
    assert -u * -a == u * a;
    assert Combination(g, -a, n, -u, v);
    var k := CongFactor(a, 0, g);
    assert -k * g == -(k * g);
    CongIntro(-a, 0, g, -k);
  }

  /** Reducing the first number modulo the second keeps the divisor 1. */
  lemma GcdReduce(a: int, r: int, n: int)
    requires n > 0 && IsGcd(1, a, n) && Cong(r, a, n)
    ensures IsGcd(1, r, n)
  {
    var u, v :| Combination(1, a, n, u, v);
    var k := CongFactor(r, a, n);
    assert u * r + (v - u * k) * n == u * a + v * n by {
      assert u * r == u * a + u * (k * n);
      Assoc(u, k, n);
      assert (v - u * k) * n == v * n - (u * k) * n;
    }
    assert Combination(1, r, n, u, v - u * k);
    CongIntro(r, 0, 1, r);
  }

  /** An inverse exists exactly when the greatest common divisor is 1. */
  lemma InverseExists(a: int, n: int)
    requires n > 0
    ensures IsGcd(1, a, n) <==> exists x :: Inverse(x, a, n)
  {
    if IsGcd(1, a, n) {
      var u, v :| Combination(1, a, n, u, v);
      CongRefl(a, n);
      InverseFromCombination(u, v, a, a, n);
    }
    if x :| Inverse(x, a, n) {
      GcdOfInverse(x, a, n);
    }
  }

  /** One round of the main loop: both numbers are made odd and the smaller is subtracted. */
  method Round(TU: Mpi, U1: Mpi, U2: Mpi, TV: Mpi, V1: Mpi, V2: Mpi, TA: Mpi, TB: Mpi)
    requires |{TU, U1, U2, TV, V1, V2, TA, TB}| == 8
    requires TU.Int() > 0 && TV.Int() > 0
    requires TU.p != [] && U1.p != [] && U2.p != [] && TV.p != [] && V1.p != [] && V2.p != [] && TA.p != []
      && TB.p != []
    requires TA.Int() % 2 == 1 || TB.Int() % 2 == 1
    requires Combination(TU.Int(), TA.Int(), TB.Int(), U1.Int(), U2.Int())
    requires Combination(TV.Int(), TA.Int(), TB.Int(), V1.Int(), V2.Int())
    requires IsGcd(1, TU.Int(), TV.Int())
    modifies TU, U1, U2, TV, V1, V2
    ensures TU.Int() >= 0 && TV.Int() > 0 && TU.Int() + TV.Int() < old(TU.Int()) + old(TV.Int())
    ensures TU.p != [] && U1.p != [] && U2.p != [] && TV.p != [] && V1.p != [] && V2.p != []
    ensures Combination(TU.Int(), TA.Int(), TB.Int(), U1.Int(), U2.Int())
    ensures Combination(TV.Int(), TA.Int(), TB.Int(), V1.Int(), V2.Int())
    ensures IsGcd(1, TU.Int(), TV.Int())
  {
    hide Val, Pow2, IsGcd, Combination, Signed;
    ghost var a, b, v := TA.Int(), TB.Int(), TV.Int();
    HalveWhileEven(TU, U1, U2, TA, TB, v);
    ghost var x, u1, u2 := TU.Int(), U1.Int(), U2.Int();
    GcdSwap(1, x, v);
    HalveWhileEven(TV, V1, V2, TA, TB, x);
    ghost var y, v1, v2 := TV.Int(), V1.Int(), V2.Int();
    GcdSwap(1, y, x);
    var c := CmpMpi(TU, TV);
    if c >= 0 {
      SubMpi(TU, TU, TV);
      SubMpi(U1, U1, V1);
      SubMpi(U2, U2, V2);
      CombinationSub(x, y, a, b, u1, u2, v1, v2);
      GcdSub(1, x, y);
    } else {
      SubMpi(TV, TV, TU);
      SubMpi(V1, V1, U1);
      SubMpi(V2, V2, U2);
      CombinationSub(y, x, a, b, v1, v2, u1, u2);
      GcdSwap(1, x, y);
      GcdSub(1, y, x);
      GcdSwap(1, y - x, x);
    }
  }

  lemma OneOdd(r: int, n: int)
    requires IsGcd(1, r, n)
    ensures r % 2 == 1 || n % 2 == 1
  {
    var u, v :| Combination(1, r, n, u, v);
    if r % 2 == 0 && n % 2 == 0 {
      ParityOfProduct(u, r);
      ParityOfProduct(v, n);
    }
  }

  lemma PositiveResidue(r: int, n: int)
    requires n > 1 && IsGcd(1, r, n) && 0 <= r
    ensures r > 0
  {
    if r == 0 {
      GcdOfZero(1, n);
    }
  }

  /** The extended halving algorithm: V1 is left as an inverse of TA modulo TB. */
  method ExtendedGcd(TA: Mpi, TB: Mpi) returns (V1: Mpi)
    requires TA != TB && TA.Int() >= 0 && TB.Int() > 1 && IsGcd(1, TA.Int(), TB.Int())
    ensures fresh(V1) && V1.p != [] && Inverse(V1.Int(), TA.Int(), TB.Int())
  {
    NonzeroInt(TA);
    NonzeroInt(TB);
    hide Val, Pow2, IsGcd, Combination, Signed, Cong;
    ghost var a, b := TA.Int(), TB.Int();
    PositiveResidue(a, b);
    OneOdd(a, b);
    V1 := new Mpi();
    var TU, U1, U2, TV, V2 := NewSet();
    Copy(TU, TA);
    Copy(TV, TB);
    LSet(U1, 1);
    LSet(U2, 0);
    LSet(V1, 0);
    LSet(V2, 1);
    UnitCombinations(a, b);
    Rounds(TU, U1, U2, TV, V1, V2, TA, TB);
    CongRefl(a, b);
    InverseFromCombination(V1.Int(), V2.Int(), a, a, b);
  }

  lemma UnitCombinations(a: int, b: int)
    ensures Combination(a, a, b, 1, 0) && Combination(b, a, b, 0, 1)
  {}

  method NewSet() returns (TU: Mpi, U1: Mpi, U2: Mpi, TV: Mpi, V2: Mpi)
    ensures fresh(TU) && fresh(U1) && fresh(U2) && fresh(TV) && fresh(V2)
    ensures |{TU, U1, U2, TV, V2}| == 5
  {
    TU := new Mpi();
    U1 := new Mpi();
    U2 := new Mpi();
    TV := new Mpi();
    V2 := new Mpi();
  }

  /** The do-while loop of rounds, until TU is zero. */
  method Rounds(TU: Mpi, U1: Mpi, U2: Mpi, TV: Mpi, V1: Mpi, V2: Mpi, TA: Mpi, TB: Mpi)
    requires |{TU, U1, U2, TV, V1, V2, TA, TB}| == 8
    requires TU.Int() > 0 && TV.Int() > 0
    requires TU.p != [] && U1.p != [] && U2.p != [] && TV.p != [] && V1.p != [] && V2.p != [] && TA.p != []
      && TB.p != []
    requires TA.Int() % 2 == 1 || TB.Int() % 2 == 1
    requires Combination(TU.Int(), TA.Int(), TB.Int(), U1.Int(), U2.Int())
    requires Combination(TV.Int(), TA.Int(), TB.Int(), V1.Int(), V2.Int())
    requires IsGcd(1, TU.Int(), TV.Int())
    modifies TU, U1, U2, TV, V1, V2
    ensures V1.p != [] && Combination(1, TA.Int(), TB.Int(), V1.Int(), V2.Int())
  {
    hide Val, Pow2, IsGcd, Combination, Signed;
    while true
      invariant TU.Int() > 0 && TV.Int() > 0
      invariant TU.p != [] && U1.p != [] && U2.p != [] && TV.p != [] && V1.p != [] && V2.p != []
      invariant Combination(TU.Int(), TA.Int(), TB.Int(), U1.Int(), U2.Int())
      invariant Combination(TV.Int(), TA.Int(), TB.Int(), V1.Int(), V2.Int())
      invariant IsGcd(1, TU.Int(), TV.Int())
      decreases TU.Int() + TV.Int()
    {
      Round(TU, U1, U2, TV, V1, V2, TA, TB);
      var z := CmpInt(TU, 0);
      if z == 0 {
        break;
      }
    }
    GcdOfZero(1, TV.Int());
  }

  /** X := A^-1 mod N. For N > 1 it succeeds exactly when the inverse exists, and then X is the inverse in
      [0, N). X may be A or N. */
  method InvMod(X: Mpi, A: Mpi, N: Mpi) returns (ret: Status)
    modifies X
    ensures ret == BadInputData <==> old(N.Int()) <= 1
    ensures old(N.Int()) > 1 ==> (ret == Ok <==> exists x :: Inverse(x, old(A.Int()), old(N.Int())))
    ensures ret in {Ok, BadInputData, NotAcceptable}
    ensures ret == Ok ==> 0 <= X.Int() < old(N.Int()) && Inverse(X.Int(), old(A.Int()), old(N.Int()))
    ensures ret != Ok ==> unchanged(X)
  {
    hide Val, Pow2, IsGcd, Combination, Cong, Signed, Limbs.B;
    ghost var a, n := A.Int(), N.Int();
    var c := CmpInt(N, 1);
    if c <= 0 {
      return BadInputData;
    }
    var G := new Mpi();
    GcdMpi(G, A, N);
    GcdAbs(1, a, n);
    InverseExists(a, n);
    c := CmpInt(G, 1);
    if c != 0 {
      if IsGcd(1, Abs(a), Abs(n)) {
        GcdUnique(1, G.Int(), Abs(a), Abs(n));
      }
      return NotAcceptable;
    }
    var V1 := ReducedInverse(A, N);
    Copy(X, V1);
    return Ok;
  }

  method ReducedInverse(A: Mpi, N: Mpi) returns (V1: Mpi)
    requires N.Int() > 1 && IsGcd(1, A.Int(), N.Int())
    ensures fresh(V1) && 0 <= V1.Int() < N.Int() && Inverse(V1.Int(), A.Int(), N.Int())
  {
    NonzeroInt(N);
    hide Val, Pow2, IsGcd, Combination, Cong, Signed, Limbs.B;
    ghost var a, n := A.Int(), N.Int();
    var TA := new Mpi();
    var TB := new Mpi();
    var ret := ModMpi(TA, A, N);
    ModRange(a, n);
    CongMod(a, n);
    GcdReduce(a, a % n, n);
    Copy(TB, N);
    V1 := ExtendedGcd(TA, TB);
    InverseOfReduced(V1.Int(), a % n, a, n);
    while true
      modifies V1
      invariant V1.p != [] && Inverse(V1.Int(), a, n)
      decreases -V1.Int()
    {
      var c := CmpInt(V1, 0);
      if c >= 0 {
        break;
      }
      InverseShift(V1.Int(), a, n);
      AddMpi(V1, V1, N);
    }
    while true
      modifies V1
      invariant V1.p != [] && V1.Int() >= 0 && Inverse(V1.Int(), a, n)
      decreases V1.Int()
    {
      var c := CmpMpi(V1, N);
      if c < 0 {
        break;
      }
      InverseShift(V1.Int(), a, n);
      SubMpi(V1, V1, N);
    }
  }

  lemma InverseOfReduced(x: int, r: int, a: int, n: int)
    requires n > 0 && Cong(r, a, n) && Inverse(x, r, n)
    ensures Inverse(x, a, n)
  {
    CongRefl(x, n);
    CongMul(x, x, r, a, n);
    CongSym(x * r, x * a, n);
    CongTrans(x * a, x * r, 1, n);
  }

  lemma InverseShift(x: int, a: int, n: int)
    requires n > 0 && Inverse(x, a, n)
    ensures Inverse(x + n, a, n) && Inverse(x - n, a, n)
  {
    var k := CongFactor(x * a, 1, n);
    assert (x + n) * a == x * a + n * a;
    assert (x - n) * a == x * a - n * a;
    Commute(n, a);
    assert (k + a) * n == k * n + a * n;
    assert (k - a) * n == k * n - a * n;
    CongIntro((x + n) * a, 1, n, k + a);
    CongIntro((x - n) * a, 1, n, k - a);
  }
}
