/** Addition and subtraction of multi-precision integers: the limb loops with carry and borrow,
    and the signed operations built on them. */
module MpiAddSub {
  import opened Limbs
  import opened Mpis

  /** Limb addition and subtraction wrap around at 2^64. */
  function WAdd(x: int, y: int): (r: Limb) { (x + y) % BASE }
  function WSub(x: int, y: int): (r: Limb) { (x - y) % BASE }

  /** One limb of an addition: the store of r at limb i and the carry c2 leaving it account for the
      limb o and the carry c that came in. */
  lemma AddStep(p: seq<Limb>, i: nat, r: Limb, o: int, c: int, c2: int)
    requires i < |p| && r + BASE * c2 == p[i] + o + c
    ensures Val(p[i := r]) + At(c2, i + 1) == Val(p) + At(c, i) + At(o, i)
  {
    ValUpdate(p, i, r);
    AtCarry(r - p[i], c2, i);
    AtAdd(o, c, i);
  }

  /** Adds a carry and a limb to d, detecting the two wrap-arounds by comparison. */
  method AddCarry(d: Limb, c: Limb, o: Limb) returns (r: Limb, c2: Limb)
    requires c <= 1
    ensures c2 <= 1 && r + BASE * c2 == d + o + c
  {
    r := WAdd(d, c);
    c2 := if r < c then 1 else 0;
    r := WAdd(r, o);
    c2 := c2 + if r < o then 1 else 0;
  }

  /** Subtracts a borrow and a limb from d. */
  method SubBorrow(d: Limb, c: Limb, o: Limb) returns (r: Limb, c2: Limb)
    requires c <= 1
    ensures c2 <= 1 && r - BASE * c2 == d - o - c
  {
    var z := if d < c then 1 else 0;
    r := WSub(d, c);
    c2 := (if r < o then 1 else 0) + z;
    r := WSub(r, o);
  }

  /** The limb loop of the addition: adds the low j limbs of B into X in place and returns the carry.
      B may be X itself: each limb is read before it is overwritten. */
  method AddLimbs(X: Mpi, B: Mpi, j: nat) returns (c: Limb)
    requires j <= |X.p| && j <= |B.p|
    modifies X
    ensures c <= 1 && |X.p| == old(|X.p|) && X.s == old(X.s)
    ensures Val(X.p) + At(c, j) == old(Val(X.p)) + Val(old(B.p)[..j])
  {
    ghost var b0, v0 := B.p, Val(X.p);
    var i := 0;
    c := 0;
    AtZero(0);
    while i < j
      invariant 0 <= i <= j && |X.p| == old(|X.p|) && c <= 1 && X.s == old(X.s)
      invariant |B.p| == |b0| && forall k :: i <= k < j ==> B.p[k] == b0[k]
      invariant Val(X.p) + At(c, i) == v0 + Val(b0[..i])
    {
      ghost var p1 := X.p;
      var tmp := B.p[i];
      var r, c2 := AddCarry(X.p[i], c, tmp);
      X.p := X.p[i := r];
      ValTake(b0, i);
      AddStep(p1, i, r, tmp, c, c2);
      c := c2;
      i := i + 1;
    }
  }

  /** The open-ended carry loop: it stops inside the buffer or one limb past it. */
  method PropagateCarry(X: Mpi, i0: nat, c0: Limb)
    requires i0 <= |X.p| && c0 <= 1
    modifies X
    ensures Val(X.p) == old(Val(X.p)) + At(c0, i0)
    ensures old(|X.p|) <= |X.p| <= old(|X.p|) + 1 && X.s == old(X.s)
  {
    var i, c := i0, c0;
    while c != 0
      invariant 0 <= i <= |X.p| && c <= 1 && X.s == old(X.s)
      invariant old(|X.p|) <= |X.p| <= old(|X.p|) + 1 && (c == 1 ==> |X.p| == old(|X.p|))
      invariant Val(X.p) + At(c, i) == old(Val(X.p)) + At(c0, i0)
      decreases c, |X.p| - i
    {
      if i >= |X.p| {
        Grow(X, i + 1);
      }
      ghost var p1, c1 := X.p, c;
      var r, z := AddCarry(X.p[i], c, 0);
      X.p := X.p[i := r];
      c := z;
      AddStep(p1, i, r, 0, c1, c);
      AtZero(i);
      i := i + 1;
    }
    AtZero(i);
  }

  /** X := |A| + |B|. X may be A, B or both. */
  method AddAbs(X: Mpi, A: Mpi, B: Mpi)
    modifies X
    ensures X.s == 1 && X.Mag() == old(A.Mag()) + old(B.Mag())
    ensures |X.p| <= Max(Max(old(|X.p|), old(|A.p|)), old(|B.p|)) + 1
    ensures old(A.p) != [] && old(B.p) != [] ==> |X.p| >= old(|X.p|)
    ensures X == A || X == B ==> |X.p| >= old(|X.p|)
  {
    hide Val, At;
    var A', B' := A, B;
    if X == B {
      A', B' := X, A;
    }
    if X != A' {
      Copy(X, A');
    }
    X.s := 1;
    var j := SigLimbs(B'.p);
    ghost var b0 := B'.p;
    Grow(X, j);
    assert B'.p[..j] == b0[..j];
    var c := AddLimbs(X, B', j);
    PropagateCarry(X, j, c);
  }

  lemma SubStep(p: seq<Limb>, i: nat, r: Limb, o: int, c: int, c2: int)
    requires i < |p| && r - BASE * c2 == p[i] - o - c
    ensures Val(p[i := r]) - At(c2, i + 1) == Val(p) - At(c, i) - At(o, i)
  {
    ValUpdate(p, i, r);
    AtCarry(r - p[i], -c2, i);
    AtAdd(o, c, i);
    AtAdd(o + c, -(o + c), i);
    AtAdd(c2, -c2, i + 1);
    AtZero(i);
    AtZero(i + 1);
  }

  /** Subtracts the low n limbs of s from the buffer of X in place. The borrow loop has no bound
      of its own: it stops inside the buffer because the difference is not negative. */
  method SubHlp(n: nat, s: seq<Limb>, X: Mpi)
    requires n <= |s| && n <= |X.p| && Val(s[..n]) <= X.Mag()
    modifies X
    ensures X.Mag() == old(X.Mag()) - Val(s[..n])
    ensures |X.p| == old(|X.p|) && X.s == old(X.s)
  {
    hide At, B;
    ghost var v0, len := Val(X.p), |X.p|;
    var i, c := 0, 0;
    AtZero(0);
    while i < n
      invariant 0 <= i <= n && |X.p| == len && 0 <= c <= 1 && X.s == old(X.s)
      invariant Val(X.p) - At(c, i) == v0 - Val(s[..i])
    {
      ghost var p1 := X.p;
      var r, c2 := SubBorrow(X.p[i], c, s[i]);
      X.p := X.p[i := r];
      ValTake(s, i);
      SubStep(p1, i, r, s[i], c, c2);
      c := c2;
      i := i + 1;
    }
    while c != 0
      invariant n <= i <= len && |X.p| == len && 0 <= c <= 1 && X.s == old(X.s)
      invariant Val(X.p) - At(c, i) == v0 - Val(s[..n])
      decreases len - i
    {
      if i == len {
        ValBound(X.p);
        AtMul(1, len);
        assert false;
      }
      ghost var p1, c1 := X.p, c;
      var r, z := SubBorrow(X.p[i], c, 0);
      X.p := X.p[i := r];
      c := z;
      SubStep(p1, i, r, 0, c1, c);
      AtZero(i);
      i := i + 1;
    }
    AtZero(i);
  }

  /** X := |A| - |B|, refused when |A| < |B|. X may be A, B or both. */
  method SubAbs(X: Mpi, A: Mpi, B: Mpi) returns (ret: Status)
    modifies X
    ensures ret == if old(A.Mag()) < old(B.Mag()) then NegativeValue else Ok
    ensures ret == Ok ==> X.s == 1 && X.Mag() == old(A.Mag()) - old(B.Mag())
    ensures ret == Ok && (old(A.p) != [] || X == A) ==> |X.p| >= old(|X.p|)
    ensures ret != Ok ==> X.s == old(X.s) && X.p == old(X.p)
  {
    hide Val, Limbs.B;
    var r := CmpAbs(A, B);
    if r < 0 {
      return NegativeValue;
    }
    var B' := B;
    if X == B {
      B' := new Mpi();
      Copy(B', B);
    }
    if X != A {
      Copy(X, A);
    }
    X.s := 1;
    var n := SigLimbs(B'.p);
    if n > |X.p| {
      ValBound(X.p);
      BMono(|X.p|, n - 1);
      assert false;
    }
    SubHlp(n, B'.p, X);
    return Ok;
  }

  /** X := A + B. */
  method AddMpi(X: Mpi, A: Mpi, B: Mpi)
    modifies X
    ensures X.Int() == old(A.Int()) + old(B.Int())
    ensures old(A.p) != [] && old(B.p) != [] ==> |X.p| >= old(|X.p|)
  {
    var s: int := A.s;
    if (A.s < 0) != (B.s < 0) {
      var r := CmpAbs(A, B);
      if r >= 0 {
        var ret := SubAbs(X, A, B);
        X.s := s;
      } else {
        var ret := SubAbs(X, B, A);
        X.s := -s;
      }
    } else {
      AddAbs(X, A, B);
      X.s := s;
    }
  }

  /** X := A - B. */
  method SubMpi(X: Mpi, A: Mpi, B: Mpi)
    modifies X
    ensures X.Int() == old(A.Int()) - old(B.Int())
    ensures old(A.p) != [] && old(B.p) != [] ==> |X.p| >= old(|X.p|)
  {
    var s: int := A.s;
    if (A.s < 0) == (B.s < 0) {
      var r := CmpAbs(A, B);
      if r >= 0 {
        var ret := SubAbs(X, A, B);
        X.s := s;
      } else {
        var ret := SubAbs(X, B, A);
        X.s := -s;
      }
    } else {
      AddAbs(X, A, B);
      X.s := s;
    }
  }
}
