/** Division of a double limb by a limb when no double-width type exists
    (Knuth, The Art of Computer Programming, volume 2, section 4.3.1, Algorithm D, with half limbs
    as digits). All arithmetic wraps at 2^64. */
module IntDiv {
  import opened Limbs
  import opened MpiAddSub
  import opened MpiMul
  import opened MpiShift

  function WMul(x: int, y: int): (r: Limb) { (x * y) % BASE }

  /** The estimate of a digit of the quotient num / d by the high half of d, corrected downwards, is the
      digit itself. `num` is u * HALF + m and d is d1 * HALF + d0. */
  ghost predicate Estimate(u: int, m: int, d1: int, d0: int, q: int, r: int) {
    u == q * d1 + r && r >= 0
  }

  /** The digit a correct division produces. */
  ghost function Digit(u: Limb, m: int, d1: int, d0: int): int
    requires HALF / 2 <= d1 < HALF && 0 <= d0 < HALF
  {
    (u * HALF + m) / (d1 * HALF + d0)
  }

  /** What is left of the dividend after taking q times the divisor. */
  lemma Remaining(u: int, m: int, d1: int, d0: int, q: int, r: int)
    requires Estimate(u, m, d1, d0, q, r)
    ensures u * HALF + m - q * (d1 * HALF + d0) == HALF * r + m - q * d0
  {
    assert q * (d1 * HALF + d0) == q * (d1 * HALF) + q * d0;
    Assoc(q, d1, HALF);
    assert u * HALF == (q * d1) * HALF + r * HALF;
  }

  lemma TooBig(num: int, d: int, q: int)
    requires d > 0 && num >= 0 && q * d > num
    ensures q > num / d
  {
    var t := num / d;
    QuotientBounds(num, d);
    if q <= t {
      MulMono(q, t, d);
    }
  }

  lemma TooSmall(num: int, d: int, q: int)
    requires d > 0 && num >= 0 && q >= num / d && q * d <= num
    ensures q == num / d
  {
    var t := num / d;
    QuotientBounds(num, d);
    if q > t {
      MulMono(t + 1, q, d);
    }
  }

  /** The first estimate is not below the digit, and at most one above the radix. */
  lemma FirstEstimate(u: Limb, m: int, d1: int, d0: int)
    requires HALF / 2 <= d1 < HALF && 0 <= d0 < HALF && 0 <= m < HALF && 0 <= u < d1 * HALF + d0
    ensures 0 <= Digit(u, m, d1, d0) < HALF
    ensures Digit(u, m, d1, d0) <= u / d1 <= HALF + 1
  {
    var d := d1 * HALF + d0;
    var num := u * HALF + m;
    var t := num / d;
    QuotientBounds(num, d);
    if t >= HALF {
      MulMono(HALF, t, d);
    }
    NotAboveEstimate(u, m, d1, d0, t);
    QuotientBounds(u, d1);
    if u / d1 > HALF + 1 {
      MulMono(HALF + 2, u / d1, d1);
    }
  }

  lemma NotAboveEstimate(u: nat, m: int, d1: int, d0: int, t: int)
    requires d1 > 0 && d0 >= 0 && 0 <= m < HALF && t >= 0 && t * (d1 * HALF + d0) <= u * HALF + m
    ensures t <= u / d1
  {
    QuotientBounds(u, d1);
    if t > u / d1 {
      MulMono(u / d1 + 1, t, d1);
      assert t * (d1 * HALF + d0) == (t * d1) * HALF + t * d0 by { Assoc(t, d1, HALF); }
      MulMono(0, t, d0);
    }
  }

  /** One digit: the quotient of a three-half-limb number by a normalised two-half-limb divisor. */
  method HalfDigit(u: Limb, m: int, d1: int, d0: int) returns (q: Limb)
    requires HALF / 2 <= d1 < HALF && 0 <= d0 < HALF && 0 <= m < HALF && u < d1 * HALF + d0
    ensures q == Digit(u, m, d1, d0) && q < HALF
  {
    hide Digit;
    FirstEstimate(u, m, d1, d0);
    QuotientBounds(u, d1);
    q := u / d1;
    var r: Limb := u - d1 * q;
    q := CorrectDigit(u, m, d1, d0, q, r);
  }

  /** The correction loop: the estimate goes down until it is the digit, and never below it. */
  method CorrectDigit(u: Limb, m: int, d1: int, d0: int, q0: Limb, r0: Limb) returns (q: Limb)
    requires HALF / 2 <= d1 < HALF && 0 <= d0 < HALF && 0 <= m < HALF && u < d1 * HALF + d0
    requires Estimate(u, m, d1, d0, q0, r0) && r0 < HALF
    requires 0 <= Digit(u, m, d1, d0) <= q0 <= HALF + 1
    ensures q == Digit(u, m, d1, d0) && q < HALF
  {
    hide Digit, Estimate;
    var r: Limb := r0;
    q := q0;
    while q >= HALF || WMul(q, d0) > WMul(HALF, r) + m
      invariant 0 <= Digit(u, m, d1, d0) <= q <= HALF + 1 && 0 <= r < HALF
      invariant Estimate(u, m, d1, d0, q, r)
      decreases q
    {
      CorrectionStep(u, m, d1, d0, q, r);
      q := q - 1;
      r := r + d1;
      if r >= HALF {
        break;
      }
    }
    LastEstimate(u, m, d1, d0, q, r);
  }

  /** When the loop test holds the estimate is above the digit, so a decrement is safe. */
  lemma CorrectionStep(u: Limb, m: int, d1: int, d0: int, q: Limb, r: Limb)
    requires HALF / 2 <= d1 < HALF && 0 <= d0 < HALF && 0 <= m < HALF && u < d1 * HALF + d0
    requires Estimate(u, m, d1, d0, q, r) && r < HALF
    requires q >= HALF || WMul(q, d0) > WMul(HALF, r) + m
    ensures Digit(u, m, d1, d0) < q
    ensures Estimate(u, m, d1, d0, q - 1, r + d1)
  {
    assert (q - 1) * d1 == q * d1 - d1;
    TooHigh(u, m, d1, d0, q, r);
  }

  /** A digit that fails the check is above the true digit. */
  lemma TooHigh(u: Limb, m: int, d1: int, d0: int, q: Limb, r: Limb)
    requires HALF / 2 <= d1 < HALF && 0 <= d0 < HALF && 0 <= m < HALF && u < d1 * HALF + d0
    requires Estimate(u, m, d1, d0, q, r) && r < HALF
    requires q >= HALF || WMul(q, d0) > WMul(HALF, r) + m
    ensures Digit(u, m, d1, d0) < q
  {
    hide Digit, Estimate;
    FirstEstimate(u, m, d1, d0);
    if q < HALF {
      TakesTooMuch(u, m, d1, d0, q, r);
      TooBig(u * HALF + m, d1 * HALF + d0, q);
      DigitIs(u, m, d1, d0);
    }
  }

  /** A failing check means that so much of the divisor is not there. */
  lemma TakesTooMuch(u: Limb, m: int, d1: int, d0: int, q: Limb, r: Limb)
    requires 0 <= d0 < HALF && 0 <= m < HALF && q < HALF && r < HALF
    requires Estimate(u, m, d1, d0, q, r) && WMul(q, d0) > WMul(HALF, r) + m
    ensures q * (d1 * HALF + d0) > u * HALF + m
  {
    Remaining(u, m, d1, d0, q, r);
    ProductBound(q, d0, HALF);
  }

  lemma DigitIs(u: Limb, m: int, d1: int, d0: int)
    requires HALF / 2 <= d1 < HALF && 0 <= d0 < HALF
    ensures Digit(u, m, d1, d0) == (u * HALF + m) / (d1 * HALF + d0)
  {}

  /** When the loop is left, by its test or by the break, the estimate is not above the digit. */
  lemma LastEstimate(u: Limb, m: int, d1: int, d0: int, q: Limb, r: Limb)
    requires HALF / 2 <= d1 < HALF && 0 <= d0 < HALF && 0 <= m < HALF && u < d1 * HALF + d0
    requires Estimate(u, m, d1, d0, q, r) && q >= Digit(u, m, d1, d0)
    requires r >= HALF ==> q <= HALF
    requires r < HALF ==> q < HALF && WMul(q, d0) <= WMul(HALF, r) + m
    ensures q == Digit(u, m, d1, d0) && q < HALF
  {
    hide Digit, Estimate;
    FirstEstimate(u, m, d1, d0);
    TakesWhatIsThere(u, m, d1, d0, q, r);
    DigitIs(u, m, d1, d0);
    TooSmall(u * HALF + m, d1 * HALF + d0, q);
  }

  lemma TakesWhatIsThere(u: Limb, m: int, d1: int, d0: int, q: Limb, r: Limb)
    requires 0 <= d0 < HALF && 0 <= m < HALF && Estimate(u, m, d1, d0, q, r)
    requires r >= HALF ==> q <= HALF
    requires r < HALF ==> q < HALF && WMul(q, d0) <= WMul(HALF, r) + m
    ensures q * (d1 * HALF + d0) <= u * HALF + m
  {
    Remaining(u, m, d1, d0, q, r);
    if r >= HALF {
      MulMono(q, HALF, d0);
    } else {
      ProductBound(q, d0, HALF);
    }
  }

  /** The remainder left by a digit, computed with wrap-around, is exact. */
  lemma WrapRemainder(u: Limb, m: int, d: Limb, q: Limb)
    requires 0 <= m < HALF && 0 < d && q == (u * HALF + m) / d
    ensures WAdd(WMul(u, HALF), WSub(m, WMul(q, d))) == (u * HALF + m) - q * d
    ensures WSub(WAdd(WMul(u, HALF), m), WMul(q, d)) == (u * HALF + m) - q * d
    ensures 0 <= (u * HALF + m) - q * d < d
  {
    var num := u * HALF + m;
    assert num == q * d + num % d;
    WrapSums(u * HALF, m, q * d, num % d);
  }

  lemma WrapSums(a: int, m: int, b: int, r: int)
    requires a + m - b == r && 0 <= r < BASE
    ensures WAdd(a % BASE, WSub(m, b % BASE)) == r
    ensures WSub(WAdd(a % BASE, m), b % BASE) == r
  {
    var qa, qb := a / BASE, b / BASE;
    assert a == BASE * qa + a % BASE && b == BASE * qb + b % BASE;
    var s := m - b % BASE;
    assert s == BASE * (s / BASE) + s % BASE;
    ModLimb(a % BASE + s % BASE, qb - qa - s / BASE, r);
    var t := a % BASE + m;
    assert t == BASE * (t / BASE) + t % BASE;
    ModLimb(t % BASE - b % BASE, qb - qa - t / BASE, r);
  }

  /** The quotient and remainder of (u1, u0) by d; the all-ones answer when the quotient does not fit. */
  method IntDivInt(u1: Limb, u0: Limb, d: Limb) returns (q: Limb, r: Limb)
    ensures d == 0 || u1 >= d ==> q == BASE - 1 && r == BASE - 1
    ensures u1 < d ==> q == (u1 * BASE + u0) / d && r == (u1 * BASE + u0) % d
  {
    if d == 0 || u1 >= d {
      return BASE - 1, BASE - 1;
    }
    var s := Clz(d);
    assert s < BI_L by { Pow2Zero(); }
    var dn, n1, n0 := Normalize(u1, u0, d, s);
    var d1, d0 := dn / HALF, dn % HALF;
    var msw, lsw := n0 / HALF, n0 % HALF;
    var q1 := HalfDigit(n1, msw, d1, d0);
    WrapRemainder(n1, msw, dn, q1);
    var rAX := WAdd(WMul(n1, HALF), WSub(msw, WMul(q1, dn)));
    var q0 := HalfDigit(rAX, lsw, d1, d0);
    WrapRemainder(rAX, lsw, dn, q0);
    var rem := WSub(WAdd(WMul(rAX, HALF), lsw), WMul(q0, dn));
    r := WShr(rem, s);
    q := q1 * HALF + q0;
    TwoDigits(n1, n0, dn, q1, rAX, q0, rem);
    Denormalize(u1 * BASE + u0, d, Pow2(s), q, rem);
  }

  lemma TwoDigits(n1: int, n0: int, d: int, q1: int, ax: int, q0: int, rem: int)
    requires ax == n1 * HALF + n0 / HALF - q1 * d
    requires rem == ax * HALF + n0 % HALF - q0 * d
    ensures n1 * BASE + n0 == (q1 * HALF + q0) * d + rem
  {
    Rearrange(q1, HALF, d);
    assert (q1 * HALF + q0) * d == (q1 * d) * HALF + q0 * d;
  }

  /** Undoing the normalisation: the scaled division gives the unscaled one. */
  lemma Denormalize(a: int, d: int, w: int, q: int, rem: int)
    requires w > 0 && d > 0 && a * w == q * (d * w) + rem && 0 <= rem < d * w
    ensures q == a / d && rem / w == a % d
  {
    Assoc(q, d, w);
    var e := a - q * d;
    assert rem == e * w;
    if e < 0 {
      MulMono(e, -1, w);
    }
    if e >= d {
      MulMono(d, e, w);
    }
    FloorIs(a, q, d, e);
    FloorIs(rem, e, w, 0);
  }

  /** Shifts the divisor until its top bit is set, and the dividend with it. */
  method Normalize(u1: Limb, u0: Limb, d: Limb, s: nat) returns (dn: Limb, n1: Limb, n0: Limb)
    requires s < BI_L && d < Pow2(BI_L - s) && Pow2(BI_L - 1 - s) <= d && u1 < d
    ensures dn == d * Pow2(s) && BASE / 2 <= dn && n1 < dn
    ensures n1 * BASE + n0 == (u1 * BASE + u0) * Pow2(s)
  {
    hide Pow2, BitOr, WShl, WShr;
    NormalizeBounds(d, s);
    ShlExact(d, s);
    dn := WShl(d, s);
    n0 := WShl(u0, s);
    var low := if s > 0 then WShr(u0, BI_L - s) else 0;
    LowPart(u0, s);
    HighPart(u1, d, s, low);
    n1 := BitOr(WShl(u1, s), low);
    ScaleTwo(u1, u0, Pow2(s), low, n0);
  }

  lemma HighPart(u1: Limb, d: Limb, s: nat, low: nat)
    requires u1 < d && d * Pow2(s) < BASE && low < Pow2(s)
    ensures BitOr(WShl(u1, s), low) == u1 * Pow2(s) + low < d * Pow2(s)
  {
    hide Pow2, BitOr, WShl;
    MulMono(u1, d, Pow2(s));
    ShlExact(u1, s);
    OrDisjoint(u1, s, low);
    RoomForLow(u1, d, Pow2(s), low);
  }

  lemma LowPart(u0: Limb, s: nat)
    requires s < BI_L
    ensures var low := if s > 0 then WShr(u0, BI_L - s) else 0;
            low < Pow2(s) && WShl(u0, s) + BASE * low == u0 * Pow2(s)
  {
    if s > 0 {
      ShlLimb(u0, s, 0);
      OrZero(WShl(u0, s));
    } else {
      Pow2Zero();
    }
  }

  lemma ShlExact(x: Limb, s: nat)
    requires x * Pow2(s) < BASE
    ensures WShl(x, s) == x * Pow2(s)
  {}

  lemma ScaleTwo(u1: int, u0: int, w: int, low: int, n0: int)
    requires n0 + BASE * low == u0 * w
    ensures (u1 * w + low) * BASE + n0 == (u1 * BASE + u0) * w
  {
    Rearrange(u1, BASE, w);
    Commute(w * u1, BASE);
  }

  lemma RoomForLow(u1: int, d: int, w: int, low: int)
    requires u1 < d && 0 <= low < w
    ensures u1 * w + low < d * w
  {
    MulMono(u1 + 1, d, w);
  }

  lemma NormalizeBounds(d: Limb, s: nat)
    requires s < BI_L && d < Pow2(BI_L - s) && Pow2(BI_L - 1 - s) <= d
    ensures BASE / 2 <= d * Pow2(s) < BASE
  {
    hide Pow2;
    Pow2Split(s);
    Pow2Succ(BI_L - 1 - s);
    ScaleBounds(d, Pow2(BI_L - 1 - s), Pow2(s));
  }

  lemma ScaleBounds(d: int, h: int, w: int)
    requires h <= d < 2 * h && w > 0 && (2 * h) * w == BASE
    ensures BASE / 2 <= d * w < BASE
  {
    Assoc(2, h, w);
    MulMono(h, d, w);
    MulMono(d + 1, 2 * h, w);
  }
}
