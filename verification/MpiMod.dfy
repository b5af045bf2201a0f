/** Reduction modulo a positive number, and congruences. */
module MpiMod {
  import opened Limbs
  import opened Mpis
  import opened MpiAddSub
  import opened MpiShift
  import opened MpiDiv

  ghost predicate Cong(a: int, b: int, n: int)
    requires n > 0
  {
    (a - b) % n == 0
  }

  lemma CongIntro(a: int, b: int, n: int, k: int)
    requires n > 0 && a - b == k * n
    ensures Cong(a, b, n)
  {
    FloorIs(a - b, k, n, 0);
  }

  ghost function CongFactor(a: int, b: int, n: int): (k: int)
    requires n > 0 && Cong(a, b, n)
    ensures a - b == k * n
  {
    (a - b) / n
  }

  /** x is an inverse of a modulo n. */
  ghost predicate Inverse(x: int, a: int, n: int)
    requires n > 0
  {
    Cong(x * a, 1, n)
  }

  lemma CongRefl(a: int, n: int)
    requires n > 0
    ensures Cong(a, a, n)
  {
    CongIntro(a, a, n, 0);
  }

  lemma CongSym(a: int, b: int, n: int)
    requires n > 0 && Cong(a, b, n)
    ensures Cong(b, a, n)
  {
    CongIntro(b, a, n, -CongFactor(a, b, n));
  }

  lemma CongTrans(a: int, b: int, c: int, n: int)
    requires n > 0 && Cong(a, b, n) && Cong(b, c, n)
    ensures Cong(a, c, n)
  {
    var j, k := CongFactor(a, b, n), CongFactor(b, c, n);
    assert (j + k) * n == j * n + k * n;
    CongIntro(a, c, n, j + k);
  }

  lemma CongMul(a: int, b: int, c: int, d: int, n: int)
    requires n > 0 && Cong(a, b, n) && Cong(c, d, n)
    ensures Cong(a * c, b * d, n)
  {
    var j, k := CongFactor(a, b, n), CongFactor(c, d, n);
    assert a * c - b * d == (a - b) * c + b * (c - d);
    Rearrange(j, n, c);
    Assoc(b, k, n);
    assert (j * n) * c == (j * c) * n by { Assoc(j, n, c); Assoc(j, c, n); }
    assert (j * c + b * k) * n == (j * c) * n + (b * k) * n;
    CongIntro(a * c, b * d, n, j * c + b * k);
  }

  lemma CongMod(a: int, n: int)
    requires n > 0
    ensures Cong(a % n, a, n)
  {
    assert a == (a / n) * n + a % n;
    CongIntro(a % n, a, n, -(a / n));
  }

  /** Representatives in [0, n) are unique. */
  lemma CongUnique(a: int, b: int, n: int)
    requires n > 0 && Cong(a, b, n) && 0 <= a < n && 0 <= b < n
    ensures a == b
  {
    var k := CongFactor(a, b, n);
    if k >= 1 {
      MulMono(1, k, n);
    } else if k <= -1 {
      MulMono(k, -1, n);
    }
  }

  lemma RemCong(a: int, b: int)
    requires b > 0
    ensures Cong(TRem(a, b), a, b)
  {
    TruncatedDivision(a, b, TQuot(a, b), TRem(a, b));
    CongIntro(TRem(a, b), a, b, -TQuot(a, b));
  }

  /** R := A mod B with 0 <= R < B, for positive B. R may be A. */
  method ModMpi(R: Mpi, A: Mpi, B: Mpi) returns (ret: Status)
    requires R != B
    modifies R
    ensures ret == if B.Int() < 0 then NegativeValue else if B.Int() == 0 then DivisionByZero else Ok
    ensures ret == Ok ==> R.Int() == old(A.Int()) % B.Int()
    ensures ret == Ok && old(A.p) != [] ==> R.p != [] && |R.p| >= old(|R.p|)
    ensures ret != Ok ==> unchanged(R)
  {
    hide Val, Limbs.B, TRem, TQuot, Cong;
    ghost var a, b := A.Int(), B.Int();
    var neg := CmpInt(B, 0);
    if neg < 0 {
      return NegativeValue;
    }
    ret := DivMpi(null, R, A, B);
    if ret != Ok {
      return;
    }
    NonzeroInt(B);
    RemCong(a, b);
    ghost var len, filled := |R.p|, R.p != [];
    while true
      invariant Cong(R.Int(), a, b)
      invariant filled ==> R.p != [] && |R.p| >= len
      decreases -R.Int()
    {
      var c := CmpInt(R, 0);
      if c >= 0 {
        break;
      }
      CongStep(R.Int(), a, b);
      AddMpi(R, R, B);
    }
    while true
      invariant R.Int() >= 0 && Cong(R.Int(), a, b)
      invariant filled ==> R.p != [] && |R.p| >= len
      decreases R.Int()
    {
      var c := CmpMpi(R, B);
      if c < 0 {
        break;
      }
      CongStep(R.Int(), a, b);
      SubMpi(R, R, B);
    }
    CongIsMod(R.Int(), a, b);
    return Ok;
  }

  lemma CongStep(x: int, a: int, b: int)
    requires b > 0 && Cong(x, a, b)
    ensures Cong(x + b, a, b) && Cong(x - b, a, b)
  {
    var k := CongFactor(x, a, b);
    assert (k + 1) * b == k * b + b;
    PredTimes(k, b);
    CongIntro(x + b, a, b, k + 1);
    CongIntro(x - b, a, b, k - 1);
  }

  lemma CongIsMod(x: int, a: int, n: int)
    requires n > 0 && Cong(x, a, n) && 0 <= x < n
    ensures x == a % n
  {
    var k := CongFactor(x, a, n);
    FloorIs(a, -k, n, x);
  }

  lemma NonzeroInt(B: Mpi)
    ensures B.Int() != 0 ==> B.p != []
  {}
}
