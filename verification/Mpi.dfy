/** The multi-precision integer object of bignum.c and its bookkeeping operations:
    grow, free, copy, set, and the comparisons. */
module Mpis {
  import opened Limbs

  type Sign = x: int | x == 1 || x == -1 witness 1

  /** Outcomes other than allocation failure. */
  datatype Status = Ok | BadInputData | NegativeValue | DivisionByZero | NotAcceptable

  ghost function Signed(s: Sign, m: int): int { if s < 0 then -m else m }

  /** `s` is the sign and `p` the limb buffer, least significant limb first; |p| is the
      field n of the C structure, and the empty buffer is the NULL pointer. */
  class Mpi {
    var s: Sign
    var p: seq<Limb>

    constructor ()
      ensures s == 1 && p == []
    {
      s, p := 1, [];
    }

    ghost function Mag(): (m: int)
      reads this
      ensures m >= 0
    {
      Val(p)
    }

    ghost function Int(): int
      reads this
    {
      Signed(s, Val(p))
    }
  }

  function Zeros(n: nat): (z: seq<Limb>)
    ensures |z| == n && AllZero(z)
  {
    seq(n, _ => 0)
  }

  ghost function Max(a: int, b: int): int { if a < b then b else a }

  ghost function Cmp(a: int, b: int): int {
    if a < b then -1 else if a > b then 1 else 0
  }

  ghost function Abs(a: int): (r: int)
    ensures r >= 0
  {
    if a < 0 then -a else a
  }

  method Free(X: Mpi)
    modifies X
    ensures X.s == 1 && X.p == []
  {
    X.s, X.p := 1, [];
  }

  method Grow(X: Mpi, n: nat)
    modifies X
    ensures X.s == old(X.s) && X.Mag() == old(X.Mag())
    ensures |X.p| == Max(old(|X.p|), n) && old(X.p) <= X.p
    ensures AllZero(X.p[old(|X.p|)..])
  {
    if |X.p| < n {
      var z := Zeros(n - |X.p|);
      ValPad(X.p, z);
      X.p := X.p + z;
    }
  }

  /** The scan shared by the comparisons, the copy and the arithmetic: one more than the
      index of the highest nonzero limb. */
  method SigLimbs(p: seq<Limb>) returns (i: nat)
    ensures i <= |p| && AllZero(p[i..]) && Val(p[..i]) == Val(p)
    ensures i > 0 ==> p[i - 1] != 0 && B(i - 1) <= Val(p)
    ensures Val(p) < B(i) && (i == 0 ==> Val(p) == 0)
  {
    i := |p|;
    while i > 0
      invariant i <= |p| && AllZero(p[i..])
    {
      if p[i - 1] != 0 {
        break;
      }
      i := i - 1;
    }
    ValTrim(p, i);
    ValBound(p[..i]);
    if i > 0 {
      ValAtLeast(p, i - 1);
    }
  }

  /** X := Y. The buffer of X keeps its length unless it is too short for the significant
      limbs of Y; copying a NULL number frees X. */
  method Copy(X: Mpi, Y: Mpi)
    modifies X
    ensures X.Int() == old(Y.Int()) && X.Mag() == old(Y.Mag())
    ensures old(Y.p) != [] ==> X.s == old(Y.s)
    ensures old(Y.p) != [] ==> |X.p| >= 1 && |X.p| >= old(|X.p|)
    ensures old(Y.p) == [] && X != Y ==> X.p == [] && X.s == 1
    ensures old(X.p) == [] && old(Y.p) != [] ==> |X.p| == 1 || B(|X.p| - 1) <= X.Mag()
    ensures old(Y.p) != [] ==> |X.p| <= Max(old(|X.p|), old(|Y.p|))
  {
    if X == Y {
      return;
    }
    if Y.p == [] {
      Free(X);
      return;
    }
    var i := |Y.p| - 1;
    while i > 0
      invariant 0 <= i < |Y.p| && AllZero(Y.p[i + 1..])
    {
      if Y.p[i] != 0 {
        break;
      }
      i := i - 1;
    }
    i := i + 1;
    ghost var n0 := |X.p|;
    ValTrim(Y.p, i);
    X.s := Y.s;
    if |X.p| < i {
      Grow(X, i);
    } else {
      X.p := X.p[..i] + Zeros(|X.p| - i);
    }
    ghost var rest := X.p[i..];
    assert AllZero(rest);
    X.p := Y.p[..i] + X.p[i..];
    ValPad(Y.p[..i], rest);
    if n0 == 0 && i > 1 {
      ValAtLeast(Y.p, i - 1);
    }
  }

  /** X := z for a value that fits one limb. */
  method LSet(X: Mpi, z: int)
    requires -BASE < z < BASE
    modifies X
    ensures X.Int() == z && X.Mag() == Abs(z) && X.s == (if z < 0 then -1 else 1)
    ensures |X.p| == Max(old(|X.p|), 1)
    ensures X.p[0] == Abs(z) && AllZero(X.p[1..])
  {
    Grow(X, 1);
    X.p := Zeros(|X.p|);
    X.p := X.p[0 := if z < 0 then -z else z];
    X.s := if z < 0 then -1 else 1;
    ValDrop(X.p, 0);
    ValZero(X.p[1..]);
    assert X.p[0..] == X.p;
  }

  /** The descending limb comparison, shared by the two compare functions. */
  method CmpLimbs(x: seq<Limb>, y: seq<Limb>, n: nat) returns (r: int)
    requires n <= |x| && n <= |y|
    ensures r == Cmp(Val(x[..n]), Val(y[..n]))
  {
    var i: int := n;
    while i > 0
      invariant 0 <= i <= n && x[i..n] == y[i..n]
    {
      ghost var a, b := x[..n], y[..n];
      assert a[i..] == x[i..n] && b[i..] == y[i..n];
      if x[i - 1] > y[i - 1] {
        ValCompare(b, a, i - 1);
        return 1;
      }
      if x[i - 1] < y[i - 1] {
        ValCompare(a, b, i - 1);
        return -1;
      }
      assert x[i - 1..n] == [x[i - 1]] + x[i..n];
      assert y[i - 1..n] == [y[i - 1]] + y[i..n];
      i := i - 1;
    }
    assert x[..n] == x[0..n] && y[..n] == y[0..n];
    return 0;
  }

  method CmpAbs(X: Mpi, Y: Mpi) returns (r: int)
    ensures r == Cmp(X.Mag(), Y.Mag())
  {
    hide Val, B;
    var i := SigLimbs(X.p);
    var j := SigLimbs(Y.p);
    if i == 0 && j == 0 {
      return 0;
    }
    if i > j {
      BMono(j, i - 1);
      return 1;
    }
    if j > i {
      BMono(i, j - 1);
      return -1;
    }
    r := CmpLimbs(X.p, Y.p, i);
  }

  method CmpMpi(X: Mpi, Y: Mpi) returns (r: int)
    ensures r == Cmp(X.Int(), Y.Int())
  {
    hide Val, B;
    var i := SigLimbs(X.p);
    var j := SigLimbs(Y.p);
    if i == 0 && j == 0 {
      return 0;
    }
    var xs: int, ys: int := X.s, Y.s;
    if i > j {
      BMono(j, i - 1);
      return xs;
    }
    if j > i {
      BMono(i, j - 1);
      return -ys;
    }
    if X.s > 0 && Y.s < 0 {
      return 1;
    }
    if Y.s > 0 && X.s < 0 {
      return -1;
    }
    r := CmpLimbs(X.p, Y.p, i);
    r := if r == 0 then 0 else if r > 0 then xs else -xs;
  }

  method CmpInt(X: Mpi, z: int) returns (r: int)
    requires -BASE < z < BASE
    ensures r == Cmp(X.Int(), z)
  {
    var Y := new Mpi();
    LSet(Y, z);
    r := CmpMpi(X, Y);
  }
}
