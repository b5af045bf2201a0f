/** Multi-limb division (HAC 14.20): the quotient-digit estimate from the top two limbs of the divisor
    and the top three of the dividend, its correction, the add-back, and the signed result. */
module MpiDiv {
  import opened Limbs
  import opened Mpis
  import opened MpiAddSub
  import opened MpiMul
  import opened MpiShift
  import opened IntDiv

  /** Division truncated towards zero, the convention of div_mpi. */
  ghost function TQuot(a: int, b: int): int
    requires b != 0
  {
    if (a < 0) == (b < 0) then Abs(a) / Abs(b) else -(Abs(a) / Abs(b))
  }

  ghost function TRem(a: int, b: int): int
    requires b != 0
  {
    if a < 0 then -(Abs(a) % Abs(b)) else Abs(a) % Abs(b)
  }

  /** What the two results mean together: a = q * b + r, |r| < |b|, and r is zero or has the sign of a.
      These conditions determine q and r. */
  lemma TruncatedDivision(a: int, b: int, q: int, r: int)
    requires b != 0
    ensures q == TQuot(a, b) && r == TRem(a, b)
       <==> a == q * b + r && Abs(r) < Abs(b) && (r == 0 || (r < 0) == (a < 0))
  {
    var m, d := Abs(a), Abs(b);
    assert m == (m / d) * d + m % d;
    SignedQuotient(m / d, d);
    assert a == TQuot(a, b) * b + TRem(a, b);
    if a == q * b + r && Abs(r) < Abs(b) && (r == 0 || (r < 0) == (a < 0)) {
      UniqueTrunc(q, TQuot(a, b), b, r, TRem(a, b));
    }
  }

  lemma SignedQuotient(t: int, d: int)
    ensures -t * d == -(t * d) && t * -d == -(t * d) && -t * -d == t * d
  {}

  lemma UniqueTrunc(q: int, q': int, b: int, r: int, r': int)
    requires q * b + r == q' * b + r'
    requires b != 0 && -Abs(b) < r - r' < Abs(b)
    ensures q == q' && r == r'
  {
    var e := q - q';
    assert e * b == r' - r;
    SignedQuotient(e, b);
    if e >= 1 {
      MulMono(1, e, Abs(b));
    } else if e <= -1 {
      MulMono(e, -1, Abs(b));
    }
  }

  // ---- the digit estimate, over the integers ----

  /** The leading parts xt and yt of the dividend x and of the divisor y, both taken at weight m. */
  ghost predicate Leading(x: int, y: int, xt: int, yt: int, m: int) {
    m > 0 && xt * m <= x < (xt + 1) * m && yt * m <= y < (yt + 1) * m
  }

  /** A digit that is not too large passes the comparison of the leading parts. */
  lemma TrueDigitPasses(x: int, y: int, xt: int, yt: int, m: int, q: int)
    requires m > 0 && x < (xt + 1) * m && yt * m <= y && q >= 0 && q * y <= x
    ensures q * yt <= xt
  {
    MulMono(yt * m, y, q);
    Assoc(q, yt, m);
    if q * yt > xt {
      MulMono(xt + 1, q * yt, m);
    }
  }

  /** A digit below the radix that passes the comparison is at most one too large, so one add-back is
      always enough. The divisor need not be normalised: its leading part has two limbs. */
  lemma OneAddBack(x: int, y: int, xt: int, yt: int, m: int, q: int)
    requires Leading(x, y, xt, yt, m) && BASE * m <= y && 0 <= q < BASE && q * yt <= xt
    ensures q * y - x < y
  {
    var lo := y - yt * m;
    MulMono(q, BASE, lo);
    MulMono(q * yt, xt, m);
    assert q * y == (q * yt) * m + q * lo by { Assoc(q, yt, m); }
  }

  // ---- the digit estimate, on limbs ----

  ghost function YTop(yp: seq<Limb>, t: nat): int
    requires t < |yp|
  {
    (if t < 1 then 0 else yp[t - 1]) + BASE * yp[t]
  }

  ghost function XTop(xp: seq<Limb>, i: nat): int
    requires 1 <= i < |xp|
  {
    (if i < 2 then 0 else xp[i - 2]) + BASE * (xp[i - 1] + BASE * xp[i])
  }

  /** The quotient digit of x by y at limb j. */
  ghost function TrueDigit(x: int, y: int, j: nat): int {
    if At(y, j) <= 0 then 0 else x / At(y, j)
  }

  lemma TwoLimbs(p: seq<Limb>)
    requires |p| >= 2 && AllZero(p[2..])
    ensures Val(p) == p[0] + BASE * p[1]
  {
    ValDrop(p, 0);
    ValDrop(p, 1);
    ValZero(p[2..]);
    assert p[0..] == p;
  }

  lemma ThreeLimbs(p: seq<Limb>)
    requires |p| >= 3 && AllZero(p[3..])
    ensures Val(p) == p[0] + BASE * (p[1] + BASE * p[2])
  {
    ValDrop(p, 0);
    ValDrop(p, 1);
    ValDrop(p, 2);
    ValZero(p[3..]);
    assert p[0..] == p;
  }

  /** A number is its top limbs, placed above whatever is left below. */
  lemma PlacedTop(low: int, top: int, k: nat)
    requires 0 <= low < B(k)
    ensures top * B(k) <= low + At(top, k) < (top + 1) * B(k)
  {
    AtMul(top, k);
    assert (top + 1) * B(k) == top * B(k) + B(k);
  }

  lemma LeadingX(xp: seq<Limb>, i: nat)
    requires 1 <= i < |xp| && Val(xp) < B(i + 1)
    ensures XTop(xp, i) * B(i - 1) <= BASE * Val(xp) < (XTop(xp, i) + 1) * B(i - 1)
  {
    hide Val, At, B;
    ValHighZero(xp, i + 1);
    var s := xp[..i + 1];
    if i == 1 {
      assert AllZero(s[2..]);
      TwoLimbs(s);
      PlacedZero(XTop(xp, i));
      BZero();
      PlacedTop(0, XTop(xp, i), 0);
    } else {
      ValSplit(s, i - 2);
      ValBound(s[..i - 2]);
      assert AllZero(s[i - 2..][3..]);
      ThreeLimbs(s[i - 2..]);
      AtCarry(0, XTop(xp, i), i - 2);
      AtZero(i - 2);
      assert At(BASE * XTop(xp, i), i - 2) == At(XTop(xp, i), i - 1);
      AtScaleBase(XTop(xp, i), i - 2);
      BSucc(i - 2);
      PlacedTop(BASE * Val(s[..i - 2]), XTop(xp, i), i - 1);
    }
  }

  lemma BZero()
    ensures B(0) == 1
  {}

  lemma BSucc(k: nat)
    ensures B(k + 1) == BASE * B(k)
  {}

  lemma PlacedZero(x: int)
    ensures At(x, 0) == x
  {}

  lemma AtScaleBase(x: int, k: nat)
    ensures BASE * At(x, k) == At(x, k + 1)
  {}

  /** The divisor at the digit's weight is at least BASE weights of its leading part. */
  lemma DivisorLarge(y: int, t: nat, i: nat)
    requires t < i && B(t) <= y
    ensures BASE * B(i - 1) <= At(y, i - t)
  {
    AtOne(t);
    AtAt(1, t, i - t);
    AtMono(B(t), y, i - t);
    AtOne(i);
  }

  lemma LeadingLimbY(yp: seq<Limb>, t: nat, i: nat)
    requires t < |yp| && t < i && Val(yp) < B(t + 1)
    ensures yp[t] * B(i - 1) <= At(Val(yp), i - t - 1)
  {
    hide Val, At;
    ValHighZero(yp, t + 1);
    ValTake(yp, t);
    AtAt(yp[t], t, i - t - 1);
    AtMono(At(yp[t], t), Val(yp), i - t - 1);
    AtMul(yp[t], i - 1);
  }

  lemma LeadingY(yp: seq<Limb>, t: nat, i: nat)
    requires t < |yp| && t < i && Val(yp) < B(t + 1)
    ensures YTop(yp, t) * B(i - 1) <= At(Val(yp), i - t) < (YTop(yp, t) + 1) * B(i - 1)
  {
    hide Val, At, B;
    ValHighZero(yp, t + 1);
    var s := yp[..t + 1];
    if t == 0 {
      ValOne(s);
      AtCarry(0, yp[0], i - 1);
      AtZero(i - 1);
      AtZero(0);
      PlacedTop(0, YTop(yp, t), i - 1);
    } else {
      ValSplit(s, t - 1);
      ValBound(s[..t - 1]);
      assert AllZero(s[t - 1..][2..]);
      TwoLimbs(s[t - 1..]);
      var low := Val(s[..t - 1]);
      AtAdd(low, At(YTop(yp, t), t - 1), i - t);
      AtAt(YTop(yp, t), t - 1, i - t);
      LowPlaced(low, t - 1, i - t);
      PlacedTop(At(low, i - t), YTop(yp, t), i - 1);
    }
  }

  lemma ValOne(s: seq<Limb>)
    requires |s| == 1
    ensures Val(s) == s[0]
  {
    assert s[1..] == [];
  }

  lemma LowPlaced(low: int, k: nat, d: nat)
    requires 0 <= low < B(k)
    ensures 0 <= At(low, d) < B(k + d)
  {
    AtMono(low + 1, B(k), d);
    AtAdd(low, 1, d);
    AtMono(0, low, d);
    AtZero(d);
    AtOne(d);
    AtOne(k);
    AtAt(1, k, d);
    AtOne(k + d);
  }

  // ---- one quotient digit ----

  /** What the digit loop knows on entry: the dividend is below the divisor at limb i - t. */
  ghost predicate DigitReady(x: seq<Limb>, y: seq<Limb>, i: nat, t: nat) {
    && t < i < |x| && t < |y|
    && B(t) <= Val(y) < B(t + 1)
    && Val(x) < At(Val(y), i - t)
  }

  lemma DigitBounds(x: seq<Limb>, y: seq<Limb>, i: nat, t: nat)
    requires DigitReady(x, y, i, t)
    ensures Leading(BASE * Val(x), At(Val(y), i - t), XTop(x, i), YTop(y, t), B(i - 1))
    ensures BASE * B(i - 1) <= At(Val(y), i - t) == BASE * At(Val(y), i - t - 1)
    ensures At(Val(y), i - t - 1) > 0 && Val(x) < B(i + 1)
    ensures var d := TrueDigit(Val(x), Val(y), i - t - 1);
            0 <= d < BASE && d * At(Val(y), i - t) <= BASE * Val(x)
  {
    var w := At(Val(y), i - t - 1);
    AtMono(Val(y), B(t + 1), i - t);
    AtOne(t + 1);
    AtAt(1, t + 1, i - t);
    AtOne(i + 1);
    LeadingX(x, i);
    LeadingY(y, t, i);
    DivisorLarge(Val(y), t, i);
    AtScaleBase(Val(y), i - t - 1);
    var d := Val(x) / w;
    QuotientBounds(Val(x), w);
    if d >= BASE {
      MulMono(BASE, d, w);
    }
    Rearrange(d, w, BASE);
    assert d * (BASE * w) == BASE * (d * w) by { Assoc(d, BASE, w); Assoc(BASE, d, w); Commute(d, BASE); }
  }

  /** The comparison holds for every digit up to the true one. */
  lemma FailsAbove(x: seq<Limb>, y: seq<Limb>, i: nat, t: nat, q: int)
    requires DigitReady(x, y, i, t) && q * YTop(y, t) > XTop(x, i)
    requires q >= TrueDigit(Val(x), Val(y), i - t - 1)
    ensures q > TrueDigit(Val(x), Val(y), i - t - 1) >= 0
  {
    DigitBounds(x, y, i, t);
    hide TrueDigit, At, B, XTop, YTop, Val;
    var d := TrueDigit(Val(x), Val(y), i - t - 1);
    TrueDigitPasses(BASE * Val(x), At(Val(y), i - t), XTop(x, i), YTop(y, t), B(i - 1), d);
  }

  /** The first estimate, from two limbs of the dividend and one of the divisor. */
  method FirstDigit(x: seq<Limb>, y: seq<Limb>, i: nat, t: nat) returns (q: Limb)
    requires DigitReady(x, y, i, t)
    ensures q >= TrueDigit(Val(x), Val(y), i - t - 1)
  {
    DigitBounds(x, y, i, t);
    hide TrueDigit, At, B, Val;
    if x[i] >= y[t] {
      q := BASE - 1;
    } else {
      var r;
      q, r := IntDivInt(x[i], x[i - 1], y[t]);
      FirstDigitEnough(x, y, i, t);
    }
  }

  lemma TwoTopLimbs(x: seq<Limb>, i: nat)
    requires 1 <= i < |x| && Val(x) < B(i + 1)
    ensures Val(x) < (x[i] * BASE + x[i - 1] + 1) * B(i - 1)
  {
    hide Val, At, B;
    ValHighZero(x, i + 1);
    var s := x[..i + 1];
    ValSplit(s, i - 1);
    ValBound(s[..i - 1]);
    assert AllZero(s[i - 1..][2..]);
    TwoLimbs(s[i - 1..]);
    PlacedTop(Val(s[..i - 1]), x[i] * BASE + x[i - 1], i - 1);
  }

  lemma FirstDigitEnough(x: seq<Limb>, y: seq<Limb>, i: nat, t: nat)
    requires DigitReady(x, y, i, t) && x[i] < y[t]
    ensures (x[i] * BASE + x[i - 1]) / y[t] >= TrueDigit(Val(x), Val(y), i - t - 1)
  {
    hide Val, At, B, TrueDigit;
    DigitBounds(x, y, i, t);
    LeadingLimbY(y, t, i);
    TwoTopLimbs(x, i);
    var d, w, u := TrueDigit(Val(x), Val(y), i - t - 1), At(Val(y), i - t - 1), x[i] * BASE + x[i - 1];
    var b := B(i - 1);
    hide *;
    DigitTimes(Val(x), w, d);
    TrueDigitPasses(Val(x), w, u, y[t], b, d);
    NotAboveQuotient(u, y[t], d);
  }

  lemma DigitTimes(x: int, w: int, d: int)
    requires w > 0 && d * (BASE * w) <= BASE * x
    ensures d * w <= x
  {
    Assoc(d, BASE, w);
    Assoc(BASE, d, w);
    Commute(d, BASE);
  }

  lemma NotAboveQuotient(u: int, v: int, d: int)
    requires v > 0 && d * v <= u && u >= 0
    ensures u / v >= d
  {
    QuotientBounds(u, v);
    if d > u / v {
      MulMono(u / v + 1, d, v);
    }
  }

  /** T1 := q times the top two limbs of the divisor. */
  method LoadT1(T1: Mpi, y: seq<Limb>, t: nat, q: Limb)
    requires t < |y| && |T1.p| >= 2
    modifies T1
    ensures T1.Int() == YTop(y, t) * q && |T1.p| >= 2
  {
    LSet(T1, 0);
    T1.p := T1.p[0 := if t < 1 then 0 else y[t - 1]];
    T1.p := T1.p[1 := y[t]];
    TwoLimbs(T1.p);
    assert T1.Int() == YTop(y, t);
    MulInt(T1, T1, q);
  }

  /** T2 := the top three limbs of the dividend. */
  method LoadT2(T2: Mpi, x: seq<Limb>, i: nat)
    requires 1 <= i < |x| && |T2.p| >= 3
    modifies T2
    ensures T2.Int() == XTop(x, i) && |T2.p| >= 3
  {
    LSet(T2, 0);
    T2.p := T2.p[0 := if i < 2 then 0 else x[i - 2]];
    T2.p := T2.p[1 := if i < 1 then 0 else x[i - 1]];
    T2.p := T2.p[2 := x[i]];
    ThreeLimbs(T2.p);
  }

  lemma AddThenSubtract(q: Limb)
    ensures WSub(WAdd(q, 1), 1) == q
    ensures q > 0 ==> WSub(q, 1) == q - 1 && WAdd(q - 1, 1) == q
  {
    if q + 1 < BASE { ModLimb(q + 1, 0, q + 1); ModLimb(q, 0, q); } else { ModLimb(q + 1, 1, 0); ModLimb(-1, -1, q); }
    if q > 0 { ModLimb(q - 1, 0, q - 1); ModLimb(q, 0, q); }
  }

  /** Chooses the digit Z.p[i - t - 1]: the estimate is lowered while its product with the leading part of
      the divisor exceeds the leading part of the dividend. It never goes below the true digit. */
  method EstimateDigit(X: Mpi, Y: Mpi, Z: Mpi, T1: Mpi, T2: Mpi, i: nat, t: nat)
    requires |{X, Y, Z, T1, T2}| == 5
    requires DigitReady(X.p, Y.p, i, t) && i - t - 1 < |Z.p| && |T1.p| >= 2 && |T2.p| >= 3
    modifies Z, T1, T2
    ensures |Z.p| == old(|Z.p|) && Z.p == old(Z.p)[i - t - 1 := Z.p[i - t - 1]] && Z.s == old(Z.s)
    ensures |T1.p| >= 2 && |T2.p| >= 3
    ensures Z.p[i - t - 1] * YTop(Y.p, t) <= XTop(X.p, i)
    ensures Z.p[i - t - 1] >= TrueDigit(X.Mag(), Y.Mag(), i - t - 1)
  {
    hide TrueDigit, XTop, YTop, DigitReady, Val, WAdd, WSub;
    var j := ReadyIndex(X.p, Y.p, i, t);
    var z: Limb := FirstDigit(X.p, Y.p, i, t);
    ghost var q: Limb := z;
    Z.p := Z.p[j := WAdd(z, 1)];
    while true
      invariant |Z.p| == old(|Z.p|) && Z.p == old(Z.p)[j := WAdd(q, 1)] && Z.s == old(Z.s)
      invariant |T1.p| >= 2 && |T2.p| >= 3
      invariant q >= TrueDigit(X.Mag(), Y.Mag(), j)
      decreases q
    {
      AddThenSubtract(q);
      Z.p := Z.p[j := WSub(Z.p[j], 1)];
      assert Z.p[j] == q;
      LoadT1(T1, Y.p, t, Z.p[j]);
      LoadT2(T2, X.p, i);
      Commute(q, YTop(Y.p, t));
      var r := CmpMpi(T1, T2);
      if r <= 0 {
        break;
      }
      FailsAbove(X.p, Y.p, i, t, q);
      q := q - 1;
    }
  }

  method ReadyIndex(x: seq<Limb>, y: seq<Limb>, i: nat, t: nat) returns (j: nat)
    requires DigitReady(x, y, i, t)
    ensures j == i - t - 1 && t < i < |x| && t < |y|
  {
    j := i - t - 1;
  }

  /** The digit is the true one after at most one add-back. */
  lemma AddBackExact(x: seq<Limb>, y: seq<Limb>, i: nat, t: nat, q: Limb)
    requires DigitReady(x, y, i, t) && q * YTop(y, t) <= XTop(x, i)
    requires q >= TrueDigit(Val(x), Val(y), i - t - 1)
    ensures var w := At(Val(y), i - t - 1);
            -w <= Val(x) - q * w < w && (Val(x) - q * w < 0 ==> q > 0)
  {
    DigitBounds(x, y, i, t);
    var d, w, b := TrueDigit(Val(x), Val(y), i - t - 1), At(Val(y), i - t - 1), B(i - 1);
    assert d == Val(x) / w;
    QuotientBounds(Val(x), w);
    hide At, B, Val, XTop, YTop, TrueDigit, DigitReady;
    OneAddBack(BASE * Val(x), BASE * w, XTop(x, i), YTop(y, t), b, q);
    Assoc(BASE, q, w);
    Assoc(q, BASE, w);
    Commute(q, BASE);
    MulMono(d + 1, q + 1, w);
    assert (q + 1) * w == q * w + w;
  }

  lemma ShiftIsAt(y: int, q: int, j: nat)
    ensures (y * q) * Pow2(BI_L * j) == q * At(y, j)
    ensures y * Pow2(BI_L * j) == At(y, j)
  {
    AtMul(y, j);
    Pow2IsB(j);
    Commute(y, q);
    Assoc(q, y, B(j));
  }

  lemma PredTimes(q: int, w: int)
    ensures (q - 1) * w == q * w - w
  {}

  /** One step of the long division: subtracts the digit's multiple of the divisor and adds the divisor
      back when the digit was one too large. */
  method DivDigit(X: Mpi, Y: Mpi, Z: Mpi, T1: Mpi, T2: Mpi, i: nat, t: nat)
    requires |{X, Y, Z, T1, T2}| == 5
    requires DigitReady(X.p, Y.p, i, t) && i - t - 1 < |Z.p| && |T1.p| >= 2 && |T2.p| >= 3
    requires X.Int() == X.Mag() && Y.Int() == Y.Mag()
    modifies X, Z, T1, T2
    ensures |Z.p| == old(|Z.p|) && Z.p == old(Z.p)[i - t - 1 := Z.p[i - t - 1]] && Z.s == old(Z.s)
    ensures |T1.p| >= 2 && |T2.p| >= 3 && |X.p| >= old(|X.p|)
    ensures X.Int() == X.Mag() < At(Y.Mag(), i - t - 1)
    ensures X.Mag() == old(X.Mag()) - Z.p[i - t - 1] * At(Y.Mag(), i - t - 1)
  {
    hide TrueDigit, XTop, YTop, DigitReady, Val, At, Pow2;
    var j := ReadyIndex(X.p, Y.p, i, t);
    ghost var x, y := X.Mag(), Y.Mag();
    EstimateDigit(X, Y, Z, T1, T2, i, t);
    ghost var q := Z.p[j];
    AddBackExact(X.p, Y.p, i, t, q);
    MulInt(T1, Y, Z.p[j]);
    ShiftIsAt(y, q, j);
    ShiftL(T1, BI_L * j);
    SubMpi(X, X, T1);
    assert X.Int() == x - q * At(y, j);
    var neg := CmpInt(X, 0);
    if neg < 0 {
      Copy(T1, Y);
      ShiftL(T1, BI_L * j);
      AddMpi(X, X, T1);
      Z.p := Z.p[j := WSub(Z.p[j], 1)];
      PredTimes(q, At(y, j));
    }
  }

  // ---- the whole division ----

  /** Storing a digit into a cleared place adds that multiple of the divisor. */
  lemma StoreDigit(z: seq<Limb>, j: nat, d: Limb, y: int)
    requires j < |z| && z[j] == 0
    ensures Val(z[j := d]) * y == Val(z) * y + d * At(y, j)
  {
    hide Val, At;
    ValUpdate(z, j, d);
    AtMul(d, j);
    AtMul(y, j);
    assert (Val(z) + At(d, j)) * y == Val(z) * y + At(d, j) * y;
    Assoc(d, B(j), y);
    Commute(B(j), y);
  }

  /** The top digit, found by repeated subtraction of the divisor aligned with the dividend. */
  method TopDigits(X: Mpi, Y: Mpi, Z: Mpi, j: nat, ghost y: nat)
    requires |{X, Y, Z}| == 3 && j < |Z.p| && AllZero(Z.p)
    requires X.Int() == X.Mag() && X.p != [] && Y.p != []
    requires Y.Int() == At(y, j) > 0 && X.Mag() < BASE * At(y, j)
    modifies X, Z
    ensures |Z.p| == old(|Z.p|) && AllZero(Z.p[..j]) && Z.s == old(Z.s) && |X.p| >= old(|X.p|)
    ensures X.Int() == X.Mag() < At(y, j)
    ensures Z.Mag() * y + X.Mag() == old(X.Mag())
  {
    hide Val, At;
    ghost var x0, z0, w, c: Limb := X.Mag(), Z.p, At(y, j), 0;
    assert z0[j := 0] == z0;
    while true
      invariant |X.p| >= old(|X.p|) && Z.p == z0[j := c] && Z.s == old(Z.s)
      invariant X.Int() == X.Mag() == x0 - c * w
      decreases BASE - c
    {
      var r := CmpMpi(X, Y);
      if r < 0 {
        break;
      }
      CountBelow(x0, c, w);
      Z.p := Z.p[j := WAdd(Z.p[j], 1)];
      SubMpi(X, X, Y);
      c := c + 1;
      PredTimes(c, w);
    }
    StoreDigit(z0, j, c, y);
    ValZero(z0);
  }

  lemma CountBelow(x: int, c: int, w: int)
    requires x < BASE * w && w > 0 && x - c * w >= w
    ensures c + 1 < BASE
  {
    assert (c + 1) * w == c * w + w;
    if c + 1 >= BASE {
      MulMono(BASE, c + 1, w);
    }
  }

  /** All lower digits. */
  method LowerDigits(X: Mpi, Y: Mpi, Z: Mpi, T1: Mpi, T2: Mpi, n: nat, t: nat)
    requires |{X, Y, Z, T1, T2}| == 5 && t <= n < |X.p| && t < |Y.p| && n - t < |Z.p|
    requires |T1.p| >= 2 && |T2.p| >= 3
    requires X.Int() == X.Mag() < At(Y.Mag(), n - t) && Y.Int() == Y.Mag()
    requires B(t) <= Y.Mag() < B(t + 1) && AllZero(Z.p[..n - t])
    modifies X, Z, T1, T2
    ensures X.Int() == X.Mag() < Y.Mag() && X.p != []
    ensures Z.Mag() * Y.Mag() + X.Mag() == old(Z.Mag() * Y.Mag() + X.Mag())
    ensures |Z.p| == old(|Z.p|) && Z.s == old(Z.s)
  {
    hide Val, At, B;
    ghost var v, y := Z.Mag() * Y.Mag() + X.Mag(), Y.Mag();
    var i := n;
    while i > t
      invariant t <= i <= n < |X.p| && |Z.p| == old(|Z.p|) && Z.s == old(Z.s)
      invariant |T1.p| >= 2 && |T2.p| >= 3 && AllZero(Z.p[..i - t])
      invariant X.Int() == X.Mag() < At(y, i - t)
      invariant Z.Mag() * y + X.Mag() == v
    {
      ghost var z, j := Z.p, i - t - 1;
      assert DigitReady(X.p, Y.p, i, t);
      assert z[j] == z[..i - t][j] == 0;
      DivDigit(X, Y, Z, T1, T2, i, t);
      StoreDigit(z, j, Z.p[j], y);
      assert Z.p[..j] == z[..i - t][..j];
      i := i - 1;
    }
    PlacedZero(y);
  }

  /** The buffer of X has no zero limb at the top (one limb is always allowed). */
  ghost predicate Tight(p: seq<Limb>) {
    |p| >= 1 && (|p| == 1 || B(|p| - 1) <= Val(p))
  }

  lemma TightTop(p: seq<Limb>)
    requires Tight(p) && Val(p) > 0
    ensures B(|p| - 1) <= Val(p) < B(|p|)
  {
    ValBound(p);
  }

  /** A number below B(n) * 2^64 has at most n + 1 limbs when its buffer is tight. */
  lemma TightLength(p: seq<Limb>, n: nat)
    requires Tight(p) && Val(p) < B(n + 1)
    ensures |p| <= n + 1
  {
    if |p| > n + 1 {
      BMono(n + 1, |p| - 1);
    }
  }

  /** The normalising shift: by the bits missing from the top limb of the divisor, less one. */
  method NormalizeBoth(X: Mpi, Y: Mpi) returns (k: nat)
    requires X != Y && Tight(X.p) && Tight(Y.p) && 0 < Y.Mag() <= X.Mag()
    modifies X, Y
    ensures X.Mag() == old(X.Mag()) * Pow2(k) && Y.Mag() == old(Y.Mag()) * Pow2(k)
    ensures X.s == old(X.s) && Y.s == old(Y.s) && Tight(X.p) && Tight(Y.p)
    ensures |X.p| <= old(|X.p|) + 1 && 0 < Y.Mag() <= X.Mag()
  {
    hide Val, B, Pow2;
    ghost var x, y, n := X.Mag(), Y.Mag(), |X.p|;
    TightTop(X.p);
    TightTop(Y.p);
    k := Bitlen(Y);
    k := k % BI_L;
    if k < BI_L - 1 {
      k := BI_L - 1 - k;
      ScaledUp(x, k, n);
      ScaledUp(y, k, |Y.p|);
      ShiftL(X, k);
      ShiftL(Y, k);
      MulMono(y, x, Pow2(k));
      TightLength(X.p, n);
    } else {
      k := 0;
      Pow2Zero();
    }
  }

  lemma ScaledUp(x: int, k: nat, n: nat)
    requires 0 <= x < B(n) && k <= BI_L
    ensures x <= x * Pow2(k) < B(n + 1)
  {
    Pow2Mono(k, BI_L);
    Pow2Limb();
    hide Pow2;
    MulMono(1, Pow2(k), x);
    MulMono(Pow2(k), BASE, x);
  }

  /** The division of the magnitudes X and Y, which are both overwritten. */
  method DivMagnitudes(X: Mpi, Y: Mpi, Z: Mpi, an: nat) returns (k: nat)
    requires |{X, Y, Z}| == 3 && X.s == 1 && Y.s == 1
    requires Tight(X.p) && Tight(Y.p) && 0 < Y.Mag() <= X.Mag() && |X.p| <= an && Z.p == []
    modifies X, Y, Z
    ensures Z.Mag() == old(X.Mag()) / old(Y.Mag()) && Z.p != [] && Z.s == 1
    ensures X.Mag() / Pow2(k) == old(X.Mag()) % old(Y.Mag()) && X.p != []
  {
    hide Val, At, B, Pow2;
    ghost var a, b := X.Mag(), Y.Mag();
    Grow(Z, an + 2);
    LSet(Z, 0);
    AllZeroWhole(Z.p);
    var T1 := new Mpi();
    var T2 := new Mpi();
    Grow(T1, 2);
    Grow(T2, 3);
    k := NormalizeBoth(X, Y);
    var n, t := |X.p| - 1, |Y.p| - 1;
    ghost var x, y := X.Mag(), Y.Mag();
    TightTop(X.p);
    TightTop(Y.p);
    LimbOrder(x, y, n, t);
    ShiftIsAt(y, 1, n - t);
    ShiftL(Y, BI_L * (n - t));
    TopDigits(X, Y, Z, n - t, y);
    FloorIs(At(y, n - t), y, Pow2(BI_L * (n - t)), 0);
    ShiftR(Y, BI_L * (n - t));
    LowerDigits(X, Y, Z, T1, T2, n, t);
    Denormalize(a, b, Pow2(k), Z.Mag(), X.Mag());
  }

  lemma AllZeroWhole(p: seq<Limb>)
    requires |p| >= 1 && p[0] == 0 && AllZero(p[1..])
    ensures AllZero(p)
  {
    forall k | 0 <= k < |p| ensures p[k] == 0 {
      if k > 0 { assert p[k] == p[1..][k - 1]; }
    }
  }

  lemma LimbOrder(x: int, y: int, n: nat, t: nat)
    requires 0 < y <= x < B(n + 1) && B(t) <= y
    ensures t <= n && 0 < At(y, n - t) && x < BASE * At(y, n - t)
  {
    if t > n {
      BMono(n + 1, t);
    }
    AtOne(t);
    AtAt(1, t, n - t);
    AtMono(B(t), y, n - t);
    AtOne(n);
  }

  /** The quotient when Q is the object A (`qa`) or the object B (`qb`): their signs are read after the
      magnitude of the quotient has been copied over them. */
  ghost function AliasedQuot(a: int, b: int, qa: bool, qb: bool): int
    requires b != 0
  {
    var m := Abs(a) / Abs(b);
    if (!qa && a < 0) == (!qb && b < 0) then m else -m
  }

  /** Writing the quotient over an operand gives the right answer exactly when the quotient is zero or the
      overwritten operands are not of opposite effect: in particular for Q = A, when A is not negative. */
  lemma AliasedQuotExact(a: int, b: int, qa: bool, qb: bool)
    requires b != 0
    ensures AliasedQuot(a, b, qa, qb) == TQuot(a, b)
       <==> Abs(a) < Abs(b) || (qa && a < 0) == (qb && b < 0)
  {
    QuotientBounds(Abs(a), Abs(b));
    if Abs(a) < Abs(b) {
      SmallDividend(Abs(a), Abs(b));
    } else {
      assert Abs(a) / Abs(b) != 0;
    }
  }

  /** The remainder when Q is the object A (`qa`): a small dividend is lost before it is copied, and the sign
      of another is that of the quotient stored over it. */
  ghost function AliasedRem(a: int, b: int, qa: bool): int
    requires b != 0
  {
    if !qa then TRem(a, b)
    else if Abs(a) < Abs(b) then 0
    else if b < 0 then -(Abs(a) % Abs(b))
    else Abs(a) % Abs(b)
  }

  /** So a remainder asked for beside a quotient stored over A is right exactly when it is zero, or the dividend
      is not the smaller one and has the divisor's sign. */
  lemma AliasedRemExact(a: int, b: int, qa: bool)
    requires b != 0
    ensures AliasedRem(a, b, qa) == TRem(a, b)
       <==> !qa || (if Abs(a) < Abs(b) then a == 0 else (a < 0) == (b < 0) || Abs(a) % Abs(b) == 0)
  {
    if Abs(a) < Abs(b) {
      SmallDividend(Abs(a), Abs(b));
    }
  }

  lemma SelfRemainder(m: int)
    requires m > 0
    ensures m % m == 0
  {
    FloorIs(m, 1, m, 0);
  }

  /** Q := A / B and R := A mod B, rounded towards zero; either result may be omitted, and each may be A or B.
      For what a quotient stored over an operand does see AliasedQuotExact and AliasedRemExact. */
  method DivMpi(Q: Mpi?, R: Mpi?, A: Mpi, B: Mpi) returns (ret: Status)
    requires Q != null ==> Q != R
    modifies Q, R
    ensures ret == if old(B.Int()) == 0 then DivisionByZero else Ok
    ensures ret == Ok && Q != null && Q != A && Q != B ==> Q.Int() == TQuot(old(A.Int()), old(B.Int()))
    ensures ret == Ok && Q != null ==> Q.Int() == AliasedQuot(old(A.Int()), old(B.Int()), Q == A, Q == B)
    ensures ret == Ok && R != null && Q != A ==> R.Int() == TRem(old(A.Int()), old(B.Int()))
    ensures ret == Ok && R != null ==> R.Int() == AliasedRem(old(A.Int()), old(B.Int()), Q == A)
    ensures ret == Ok && R != null && old(A.p) != [] ==> R.p != [] && |R.p| >= old(|R.p|)
    ensures ret != Ok ==> (Q != null ==> unchanged(Q)) && (R != null ==> unchanged(R))
  {
    hide Val, Limbs.B, At, Pow2;
    ghost var a, b := A.Int(), B.Int();
    var z := CmpInt(B, 0);
    if z == 0 {
      return DivisionByZero;
    }
    var less := CmpAbs(A, B);
    if less < 0 {
      SmallDividend(Abs(a), Abs(b));
      if Q != null { LSet(Q, 0); }
      if R != null { Copy(R, A); }
      return Ok;
    }
    var X, Z, k := DivCopies(A, B);
    if Q != null {
      StoreQuotient(Q, A, B, Z);
    }
    if R != null {
      if A == B { SelfRemainder(Abs(a)); }
      StoreRemainder(R, A.s, X, k);
    }
    return Ok;
  }

  /** Divides copies of the operands, taken without their signs. */
  method DivCopies(A: Mpi, B: Mpi) returns (X: Mpi, Z: Mpi, k: nat)
    requires 0 < B.Mag() <= A.Mag()
    ensures fresh(X) && fresh(Z) && X != Z && X.p != [] && Z.p != [] && Z.s == 1
    ensures Z.Mag() == A.Mag() / B.Mag() && X.Mag() / Pow2(k) == A.Mag() % B.Mag()
  {
    hide Val, Limbs.B, At, Pow2;
    X := new Mpi();
    var Y := new Mpi();
    Z := new Mpi();
    NonzeroBuffer(A.p);
    NonzeroBuffer(B.p);
    Copy(X, A);
    Copy(Y, B);
    X.s, Y.s := 1, 1;
    k := DivMagnitudes(X, Y, Z, |A.p|);
  }

  /** Copies the quotient and then combines the signs of A and B as they are after the copy. */
  method StoreQuotient(Q: Mpi, A: Mpi, B: Mpi, Z: Mpi)
    requires Z !in {Q, A, B} && Z.p != [] && Z.s == 1
    requires A.Int() != 0 && B.Int() != 0 && Z.Mag() == Abs(A.Int()) / Abs(B.Int())
    modifies Q
    ensures Q.Int() == AliasedQuot(old(A.Int()), old(B.Int()), Q == A, Q == B)
    ensures Q == A && A != B ==> Q.s == B.s
  {
    hide Val;
    Copy(Q, Z);
    Q.s := if A.s == B.s then 1 else -1;
  }

  /** Undoes the normalising shift and gives the remainder the sign of the dividend. */
  method StoreRemainder(R: Mpi, sa: Sign, X: Mpi, k: nat)
    requires X != R && X.p != []
    modifies R, X
    ensures R.Int() == Signed(sa, old(X.Mag()) / Pow2(k))
    ensures R.p != [] && |R.p| >= old(|R.p|)
  {
    hide Val, B, At, Pow2;
    ShiftR(X, k);
    X.s := sa;
    Copy(R, X);
    var zero := CmpInt(R, 0);
    if zero == 0 {
      R.s := 1;
    }
  }

  lemma SmallDividend(m: int, d: int)
    requires 0 <= m < d
    ensures m / d == 0 && m % d == m
  {
    FloorIs(m, 0, d, m);
  }

  lemma NonzeroBuffer(p: seq<Limb>)
    ensures Val(p) > 0 ==> p != []
  {}
}
