/** Bit operations on multi-precision integers: bit length, trailing zeros, and the two shifts. */
module MpiShift {
  import opened Limbs
  import opened Mpis
  import opened MpiMul

  function WShr(x: Limb, k: nat): (r: Limb)
    ensures r * Pow2(k) <= x < (r + 1) * Pow2(k)
  {
    QuotientBounds(x, Pow2(k));
    x / Pow2(k)
  }

  function WShl(x: Limb, k: nat): (r: Limb) { (x * Pow2(k)) % BASE }

  lemma QuotientBounds(x: nat, w: nat)
    requires w > 0
    ensures 0 <= x / w <= x && (x / w) * w <= x < (x / w + 1) * w
  {
    assert x == (x / w) * w + x % w;
    if x / w > x {
      MulMono(x + 1, x / w, w);
      MulMono(1, w, x + 1);
    }
  }

  /** Bitwise inclusive or. */
  function BitOr(a: nat, b: nat): nat
    decreases a + b
  {
    if a == 0 && b == 0 then 0
    else (if a % 2 == 1 || b % 2 == 1 then 1 else 0) + 2 * BitOr(a / 2, b / 2)
  }

  lemma {:induction false} OrZero(a: nat)
    ensures BitOr(a, 0) == a
  {
    if a > 0 {
      OrZero(a / 2);
    }
  }

  /** Or with a number that only has bits below the trailing zeros of the other is a sum. */
  lemma {:induction false} OrDisjoint(h: nat, t: nat, b: nat)
    requires b < Pow2(t)
    ensures BitOr(h * Pow2(t), b) == h * Pow2(t) + b
    decreases t
  {
    if t == 0 {
      OrZero(h);
    } else {
      var a, a' := h * Pow2(t), h * Pow2(t - 1);
      assert a == 2 * a' by { Assoc(h, 2, Pow2(t - 1)); Assoc(2, h, Pow2(t - 1)); }
      OrDisjoint(h, t - 1, b / 2);
    }
  }

  lemma Pow2Split(t: nat)
    requires t <= BI_L
    ensures Pow2(t) * Pow2(BI_L - t) == BASE
  {
    Pow2Limb();
    Pow2Add(t, BI_L - t);
  }

  // ---- counting bits ----

  /** Leading zero bits of a limb. */
  method Clz(x: Limb) returns (j: nat)
    ensures j <= BI_L && x < Pow2(BI_L - j) && (j < BI_L ==> Pow2(BI_L - 1 - j) <= x)
  {
    j := 0;
    Pow2Limb();
    var mask := Pow2(BI_L - 1);
    while j < BI_L
      invariant 0 <= j <= BI_L && x < Pow2(BI_L - j)
      invariant j < BI_L ==> mask == Pow2(BI_L - 1 - j)
    {
      assert Pow2(BI_L - j) == 2 * mask;
      if x >= mask {
        FloorIs(x, 1, mask, x - mask);
      } else {
        FloorIs(x, 0, mask, x);
      }
      if (x / mask) % 2 == 1 {
        break;
      }
      mask := mask / 2;
      j := j + 1;
    }
  }

  lemma BitlenLimb(x: int, j: nat, i: nat, low: int)
    requires 0 <= low < B(i) && j <= BI_L && 0 <= x < Pow2(j) && (j > 0 ==> Pow2(j - 1) <= x)
    ensures low + At(x, i) < Pow2(BI_L * i + j)
    ensures j > 0 ==> Pow2(BI_L * i + j - 1) <= low + At(x, i)
  {
    AtOne(i);
    AtMono(x + 1, Pow2(j), i);
    AtAdd(x, 1, i);
    AtMul(Pow2(j), i);
    Pow2IsB(i);
    Pow2Add(j, BI_L * i);
    if j > 0 {
      AtMono(Pow2(j - 1), x, i);
      AtMul(Pow2(j - 1), i);
      Pow2Add(j - 1, BI_L * i);
    }
  }

  /** The number of significant bits. */
  method Bitlen(X: Mpi) returns (r: nat)
    ensures X.Mag() < Pow2(r) && (r > 0 ==> Pow2(r - 1) <= X.Mag())
    ensures r <= BI_L * |X.p|
    ensures r > 0 ==> exists i :: 0 <= i < |X.p| && AllZero(X.p[i + 1..]) && BI_L * i < r <= BI_L * (i + 1)
  {
    hide Val, At, Pow2, B;
    if |X.p| == 0 {
      ValZero(X.p);
      return 0;
    }
    var i := |X.p| - 1;
    while i > 0
      invariant 0 <= i < |X.p| && AllZero(X.p[i + 1..])
    {
      if X.p[i] != 0 {
        break;
      }
      i := i - 1;
    }
    var z := Clz(X.p[i]);
    var j := BI_L - z;
    ValTrim(X.p, i + 1);
    ValTake(X.p, i);
    ValBound(X.p[..i]);
    BitlenLimb(X.p[i], j, i, Val(X.p[..i]));
    r := i * BI_L + j;
    if j == 0 {
      Pow2Zero();
      assert X.p[i] == 0 && i == 0;
    }
  }

  /** x is odd once its k trailing zeros are shifted out. */
  ghost predicate OddAt(x: int, k: nat) {
    x == Pow2(k) * (x / Pow2(k)) && (x / Pow2(k)) % 2 == 1
  }

  lemma Pow2Succ(k: nat)
    ensures Pow2(k + 1) == 2 * Pow2(k)
  {}

  lemma OddAtIntro(x: int, k: nat, m: int)
    requires x == Pow2(k) * m && m % 2 == 1
    ensures OddAt(x, k)
  {
    FloorIs(x, m, Pow2(k), 0);
  }

  lemma LsbFound(p: seq<Limb>, i: nat, j: nat)
    requires i < |p| && AllZero(p[..i]) && j < BI_L
    requires OddAt(p[i], j)
    ensures OddAt(Val(p), BI_L * i + j)
  {
    hide Val, At, Pow2, B;
    var m, h, k := p[i] / Pow2(j), Val(p[i + 1..]), Pow2(BI_L - j - 1);
    ValZero(p[..i]);
    ValSplit(p, i);
    ValDrop(p, i);
    Pow2Split(j);
    Pow2Succ(BI_L - j - 1);
    var w := m + 2 * (k * h);
    OddWeight(p[i], m, Pow2(j), k, h);
    LimbOddPart(p[i], m, k, h, j);
    AtMul(Pow2(j) * w, i);
    Pow2IsB(i);
    Pow2Add(BI_L * i, j);
    Rearrange(Pow2(j), w, Pow2(BI_L * i));
    OddAtIntro(Val(p), BI_L * i + j, w);
  }

  lemma LimbOddPart(x: Limb, m: int, k: int, h: int, j: nat)
    requires OddAt(x, j) && m == x / Pow2(j)
    ensures x == Pow2(j) * m && (m + 2 * (k * h)) % 2 == 1
  {
    hide Pow2;
  }

  lemma OddWeight(x: int, m: int, t: int, k: int, h: int)
    requires x == t * m && t * (2 * k) == BASE
    ensures x + BASE * h == t * (m + 2 * (k * h))
  {
    Assoc(t, 2 * k, h);
    assert (2 * k) * h == 2 * (k * h);
    assert t * (m + 2 * (k * h)) == t * m + t * (2 * (k * h));
  }

  lemma Rearrange(x: int, y: int, z: int)
    ensures (x * y) * z == (z * x) * y
  {}

  lemma BitTest(x: Limb, j: nat)
    requires x == Pow2(j) * (x / Pow2(j))
    ensures (x / Pow2(j)) % 2 == 1 ==> OddAt(x, j)
    ensures (x / Pow2(j)) % 2 == 0 ==> x == Pow2(j + 1) * (x / Pow2(j + 1))
  {
    var q := x / Pow2(j);
    if q % 2 == 0 {
      var h := q / 2;
      assert x == Pow2(j + 1) * h by {
        assert q == 2 * h;
        Assoc(Pow2(j), 2, h);
      }
      FloorIs(x, h, Pow2(j + 1), 0);
    }
  }

  /** The number of trailing zero bits, and 0 for the number 0. */
  method Lsb(X: Mpi) returns (count: nat)
    ensures X.Mag() == 0 ==> count == 0
    ensures X.Mag() != 0 ==> OddAt(X.Mag(), count)
  {
    hide Val, Pow2, OddAt;
    var i := 0;
    count := 0;
    Pow2Zero();
    while i < |X.p|
      invariant 0 <= i <= |X.p| && AllZero(X.p[..i]) && count == BI_L * i
    {
      var j := 0;
      while j < BI_L
        invariant 0 <= j <= BI_L && count == BI_L * i + j
        invariant X.p[i] == Pow2(j) * (X.p[i] / Pow2(j))
      {
        BitTest(X.p[i], j);
        if WShr(X.p[i], j) % 2 != 0 {
          LsbFound(X.p, i, j);
          ValZero(X.p);
          assert X.p[i] != 0;
          return count;
        }
        j, count := j + 1, count + 1;
      }
      Pow2Limb();
      i := i + 1;
    }
    ValZero(X.p);
    assert X.p[..i] == X.p;
    return 0;
  }

  // ---- shifting left ----

  lemma ShlLimb(x: Limb, t: nat, r0: nat)
    requires 0 < t < BI_L && r0 < Pow2(t)
    ensures WShr(x, BI_L - t) < Pow2(t) && BitOr(WShl(x, t), r0) < BASE
    ensures BitOr(WShl(x, t), r0) + BASE * WShr(x, BI_L - t) == x * Pow2(t) + r0
  {
    hide Pow2, BitOr;
    var w, u := Pow2(t), Pow2(BI_L - t);
    Pow2Split(t);
    Commute(w, u);
    DroppedBits(x, u, w);
    RoomAbove(x % u, u, w, r0);
    OrDisjoint(x % u, t, r0);
  }

  lemma ShlStep(p: seq<Limb>, q: seq<Limb>, i: nat, t: nat, r0: nat, v: Limb, r1: nat)
    requires i < |p| == |q| && v + BASE * r1 == q[i] * Pow2(t) + r0
    requires Val(p[..i]) + At(r0, i) == Pow2(t) * Val(q[..i])
    ensures Val(p[i := v][..i + 1]) + At(r1, i + 1) == Pow2(t) * Val(q[..i + 1])
  {
    hide *;
    var p' := p[i := v];
    assert p'[..i] == p[..i];
    ValTake(p', i);
    ValTake(q, i);
    AtCarry(v, r1, i);
    AtAdd(q[i] * Pow2(t), r0, i);
    AtScale(Pow2(t), q[i], i);
    assert Pow2(t) * Val(q[..i + 1]) == Pow2(t) * Val(q[..i]) + Pow2(t) * At(q[i], i);
  }

  /** Clears the lowest v0 limbs. */
  method ClearLow(X: Mpi, v0: nat)
    requires v0 <= |X.p|
    modifies X
    ensures X.p == Zeros(v0) + old(X.p)[v0..] && X.s == old(X.s)
  {
    ghost var q, n := X.p, |X.p|;
    var i := v0;
    while i > 0
      invariant 0 <= i <= v0 <= n == |X.p| && X.s == old(X.s)
      invariant forall k :: i <= k < v0 ==> X.p[k] == 0
      invariant forall k :: v0 <= k < n ==> X.p[k] == q[k]
    {
      X.p := X.p[i - 1 := 0];
      i := i - 1;
    }
  }

  /** Moves the limbs up by v0 places. */
  method ShiftLimbsUp(X: Mpi, v0: nat)
    requires v0 <= |X.p| && AllZero(X.p[|X.p| - v0..])
    modifies X
    ensures X.p == Zeros(v0) + old(X.p)[..|old(X.p)| - v0] && X.s == old(X.s)
    ensures X.Mag() == At(old(X.Mag()), v0)
  {
    hide Val, At;
    ghost var q, n := X.p, |X.p|;
    var i := |X.p|;
    while i > v0
      invariant v0 <= i <= n == |X.p| && X.s == old(X.s)
      invariant forall k :: 0 <= k < i ==> X.p[k] == q[k]
      invariant forall k :: i <= k < n ==> X.p[k] == q[k - v0]
    {
      X.p := X.p[i - 1 := X.p[i - v0 - 1]];
      i := i - 1;
    }
    ClearLow(X, v0);
    assert X.p == Zeros(v0) + q[..n - v0];
    ValAppend(Zeros(v0), q[..n - v0]);
    ValZero(Zeros(v0));
    ValTrim(q, n - v0);
  }

  /** Shifts the limbs from `from` up by t bits, carrying the bits shifted out upwards. */
  method ShiftBitsUp(X: Mpi, from: nat, t: nat)
    requires from <= |X.p| && AllZero(X.p[..from]) && 0 < t < BI_L
    requires Pow2(t) * X.Mag() < B(|X.p|)
    modifies X
    ensures X.Mag() == Pow2(t) * old(X.Mag())
    ensures |X.p| == old(|X.p|) && X.s == old(X.s)
  {
    ghost var q, n := X.p, |X.p|;
    var i: nat, r0: Limb := from, 0;
    ValZero(X.p[..from]);
    AtZero(from);
    while i < |X.p|
      invariant from <= i <= n == |X.p| && X.s == old(X.s) && r0 < Pow2(t)
      invariant forall k :: i <= k < n ==> X.p[k] == q[k]
      invariant Val(X.p[..i]) + At(r0, i) == Pow2(t) * Val(q[..i])
    {
      ShlLimb(X.p[i], t, r0);
      var r1 := WShr(X.p[i], BI_L - t);
      var v := BitOr(WShl(X.p[i], t), r0);
      ShlStep(X.p, q, i, t, r0, v, r1);
      X.p := X.p[i := v];
      r0 := r1;
      i := i + 1;
    }
    assert X.p[..n] == X.p && q[..n] == q;
    if r0 > 0 {
      AtMono(1, r0, n);
      AtOne(n);
      assert false;
    }
    AtZero(n);
  }

  lemma BitsBelow(m: int, bits: nat, n: nat)
    requires 0 <= m < Pow2(bits) && bits <= BI_L * n
    ensures m < B(n)
  {
    Pow2Mono(bits, BI_L * n);
    Pow2IsB(n);
  }

  /** Room for a left shift: after growing, the shifted number fits the buffer. */
  lemma ShiftRoom(m: int, bits: nat, count: nat, n: nat)
    requires 0 <= m < Pow2(bits) && bits + count <= BI_L * n
    ensures m * Pow2(count) < B(n)
  {
    hide *;
    Pow2Add(bits, count);
    MulLess(m, Pow2(bits), Pow2(count));
    BitsBelow(m * Pow2(count), bits + count, n);
  }

  /** Moving by whole limbs and then by the remaining bits is one multiplication. */
  lemma ShiftParts(m: int, v0: nat, t1: nat)
    ensures At(m, v0) * Pow2(t1) == m * Pow2(BI_L * v0 + t1)
  {
    hide Pow2, At, B;
    AtMul(m, v0);
    Pow2IsB(v0);
    Pow2Add(BI_L * v0, t1);
    Assoc(m, Pow2(BI_L * v0), Pow2(t1));
  }

  /** The two passes of a left shift: by limbs, then by bits. */
  method ShiftUp(X: Mpi, v0: nat, t1: nat, ghost m: int)
    requires v0 <= |X.p| && t1 < BI_L && X.Mag() == m && AllZero(X.p[|X.p| - v0..]) && At(m, v0) * Pow2(t1) < B(|X.p|)
    modifies X
    ensures X.Mag() == At(m, v0) * Pow2(t1) && |X.p| == old(|X.p|) && X.s == old(X.s)
  {
    hide Val, At, B, Pow2;
    if v0 > 0 {
      ShiftLimbsUp(X, v0);
    } else {
      AtAt0(m);
    }
    if t1 > 0 {
      Commute(At(m, v0), Pow2(t1));
      ShiftBitsUp(X, v0, t1);
    } else {
      Pow2Zero();
    }
  }

  /** X := X * 2^count. The buffer grows to exactly the limbs the result needs. */
  method ShiftL(X: Mpi, count: nat)
    modifies X
    ensures X.Mag() == old(X.Mag()) * Pow2(count) && X.s == old(X.s)
    ensures X.Int() == old(X.Int()) * Pow2(count)
    ensures |X.p| >= old(|X.p|)
    ensures |X.p| == old(|X.p|) || (|X.p| >= 1 && (old(X.Mag()) == 0 || B(|X.p| - 1) <= X.Mag()))
  {
    hide Val, At, B, Pow2;
    var v0, t1 := count / BI_L, count % BI_L;
    var bits := Bitlen(X);
    var i := bits + count;
    ghost var m, n0 := X.Mag(), |X.p|;
    if |X.p| * BI_L < i {
      Grow(X, i / BI_L + if i % BI_L != 0 then 1 else 0);
    }
    ShiftRoom(m, bits, count, |X.p|);
    BitsBelow(m, bits, |X.p| - v0);
    ShiftParts(m, v0, t1);
    ghost var n := |X.p|;
    if n != n0 && m > 0 {
      ShiftTight(m, bits, count, n);
    }
    ValHighZero(X.p, n - v0);
    ShiftUp(X, v0, t1, m);
    SignedScale(X.s, m, Pow2(count));
  }

  lemma SignedScale(s: Sign, m: int, w: int)
    ensures Signed(s, m * w) == Signed(s, m) * w
  {}

  lemma Commute(x: int, y: int)
    ensures x * y == y * x
  {}

  lemma AtAt0(m: int)
    ensures At(m, 0) == m
  {}

  lemma Pow2Zero()
    ensures Pow2(0) == 1
  {}

  /** The buffer grown for a left shift has no spare limb. */
  lemma ShiftTight(m: int, bits: nat, count: nat, n: nat)
    requires m > 0 && m < Pow2(bits) && (bits > 0 ==> Pow2(bits - 1) <= m)
    requires n >= 1 && BI_L * (n - 1) < bits + count
    ensures B(n - 1) <= m * Pow2(count)
  {
    Pow2Zero();
    Pow2Mono(BI_L * (n - 1), bits + count - 1);
    Pow2IsB(n - 1);
    Pow2Add(bits - 1, count);
    MulMono(Pow2(bits - 1), m, Pow2(count));
  }

  // ---- shifting right ----

  /** Shifting a limb up by the complement keeps exactly the bits a right shift drops. */
  lemma DroppedBits(x: Limb, w: int, u: int)
    requires w * u == BASE && w > 0 && u > 0
    ensures x / w < u && (x * u) % BASE == (x % w) * u && x * u == (x / w) * BASE + (x % w) * u
  {
    var hi, l := x / w, x % w;
    assert x == hi * w + l;
    if hi >= u {
      MulMono(u, hi, w);
    }
    MulMono(l, w - 1, u);
    assert x * u == hi * BASE + l * u by {
      Assoc(hi, w, u);
      assert x * u == (hi * w) * u + l * u;
    }
    FloorIs(x * u, hi, BASE, l * u);
  }

  /** Or-ing the bits carried from above into a limb shifted down is an addition. */
  lemma ShrLimb(h: nat, t: nat, rem: nat)
    requires 0 < t < BI_L && rem < Pow2(t) && h < Pow2(BI_L - t)
    ensures 0 <= rem * Pow2(BI_L - t) < BASE
    ensures BitOr(h, rem * Pow2(BI_L - t)) == h + rem * Pow2(BI_L - t) < BASE
  {
    hide Pow2, BitOr;
    var w, u := Pow2(t), Pow2(BI_L - t);
    Pow2Split(t);
    RoomAbove(rem, w, u, h);
    OrDisjoint(rem, BI_L - t, h);
    OrCommutes(h, rem * u);
  }

  lemma RoomAbove(rem: nat, w: nat, u: nat, h: nat)
    requires rem < w && h < u && w * u == BASE
    ensures 0 <= rem * u && h + rem * u < BASE
  {
    MulMono(rem, w - 1, u);
    assert (w - 1) * u == w * u - u;
  }

  lemma {:induction false} OrCommutes(a: nat, b: nat)
    ensures BitOr(a, b) == BitOr(b, a)
    decreases a + b
  {
    if a + b > 0 {
      OrCommutes(a / 2, b / 2);
    }
  }

  /** One limb of a right shift: `rem` holds the bits already shifted out of the limbs above. */
  lemma ShrStep(x: int, w: int, u: int, high: int, q: int, rem: int)
    requires w * u == BASE && w > 0
    requires w * high + rem == q
    ensures w * ((x / w + rem * u) + BASE * high) + x % w == x + BASE * q
  {
    assert x == w * (x / w) + x % w;
    Assoc(w, u, rem);
    assert w * (rem * u) == BASE * rem by { assert rem * u == u * rem; }
    assert w * (BASE * high) == BASE * (w * high) by { Assoc(w, BASE, high); Assoc(BASE, w, high); }
    assert w * ((x / w + rem * u) + BASE * high) == w * (x / w) + w * (rem * u) + w * (BASE * high);
  }

  lemma ShrRow(p: seq<Limb>, q: seq<Limb>, i: nat, t: nat, rem: nat, v: Limb)
    requires i < |p| == |q| && 0 < t < BI_L
    requires Pow2(t) * Val(p[i + 1..]) + rem == Val(q[i + 1..])
    requires v == q[i] / Pow2(t) + rem * Pow2(BI_L - t)
    ensures Pow2(t) * Val(p[i := v][i..]) + q[i] % Pow2(t) == Val(q[i..])
  {
    hide Pow2, Val;
    ValDrop(p[i := v], i);
    ValDrop(q, i);
    assert p[i := v][i + 1..] == p[i + 1..];
    Pow2Split(t);
    ShrStep(q[i], Pow2(t), Pow2(BI_L - t), Val(p[i + 1..]), Val(q[i + 1..]), rem);
  }

  /** Moves the limbs down by v0 places. */
  method ShiftLimbsDown(X: Mpi, v0: nat)
    requires v0 <= |X.p|
    modifies X
    ensures X.p == old(X.p)[v0..] + Zeros(v0) && X.s == old(X.s)
    ensures X.Mag() == Val(old(X.p)[v0..])
  {
    ghost var q, n := X.p, |X.p|;
    var i := 0;
    while i < |X.p| - v0
      invariant 0 <= i <= n - v0 && |X.p| == n && X.s == old(X.s)
      invariant forall k :: 0 <= k < i ==> X.p[k] == q[k + v0]
      invariant forall k :: i <= k < n ==> X.p[k] == q[k]
    {
      X.p := X.p[i := X.p[i + v0]];
      i := i + 1;
    }
    while i < |X.p|
      invariant n - v0 <= i <= n == |X.p| && X.s == old(X.s)
      invariant forall k :: 0 <= k < n - v0 ==> X.p[k] == q[k + v0]
      invariant forall k :: n - v0 <= k < i ==> X.p[k] == 0
    {
      X.p := X.p[i := 0];
      i := i + 1;
    }
    assert X.p == q[v0..] + Zeros(v0);
    ValPad(q[v0..], Zeros(v0));
  }

  lemma EmptyScaled(p: seq<Limb>, w: int)
    requires |p| == 0
    ensures w * Val(p) == 0 && Val(p) == 0 && 0 * w == 0
  {}

  method ShiftLimb(x: Limb, t: nat, r0: Limb, ghost rem: nat) returns (v: Limb, r1: Limb)
    requires 0 < t < BI_L && rem < Pow2(t) && r0 == rem * Pow2(BI_L - t)
    ensures v == x / Pow2(t) + rem * Pow2(BI_L - t)
    ensures r1 == (x % Pow2(t)) * Pow2(BI_L - t)
  {
    hide Pow2, BitOr;
    Pow2Split(t);
    DroppedBits(x, Pow2(t), Pow2(BI_L - t));
    ShrLimb(x / Pow2(t), t, rem);
    r1 := WShl(x, BI_L - t);
    v := BitOr(WShr(x, t), r0);
  }

  /** Shifts the whole buffer down by t bits, from the top limb. */
  method ShiftBitsDown(X: Mpi, t: nat)
    requires 0 < t < BI_L
    modifies X
    ensures X.Mag() == old(X.Mag()) / Pow2(t)
    ensures |X.p| == old(|X.p|) && X.s == old(X.s)
  {
    hide Val, At, B, Pow2;
    ghost var q, n, rem: nat := X.p, |X.p|, 0;
    var i: nat, r0: Limb := |X.p|, 0;
    EmptyScaled(X.p[n..], Pow2(t));
    while i > 0
      invariant 0 <= i <= n == |X.p| && X.s == old(X.s)
      invariant X.p[..i] == q[..i]
      invariant rem < Pow2(t) && r0 == rem * Pow2(BI_L - t)
      invariant Pow2(t) * Val(X.p[i..]) + rem == Val(q[i..])
    {
      var x := X.p[i - 1];
      assert x == X.p[..i][i - 1] == q[i - 1];
      var v, r1 := ShiftLimb(x, t, r0, rem);
      ShrRow(X.p, q, i - 1, t, rem, v);
      assert q[..i - 1] == q[..i][..i - 1] == X.p[..i][..i - 1];
      X.p := X.p[i - 1 := v];
      rem := x % Pow2(t);
      r0 := r1;
      i := i - 1;
    }
    assert X.p[0..] == X.p && q[0..] == q;
    FloorIs(Val(q), X.Mag(), Pow2(t), rem);
  }

  lemma ShrParts(m: int, low: int, high: int, v0: nat, t: nat)
    requires m == low + At(high, v0) && 0 <= low < B(v0) && 0 <= high
    ensures high / Pow2(t) == m / Pow2(BI_L * v0 + t)
  {
    hide Pow2, At, B;
    var w, b, q, rem := Pow2(t), B(v0), high / Pow2(t), high % Pow2(t);
    Pow2IsB(v0);
    Pow2Add(BI_L * v0, t);
    AtMul(high, v0);
    assert high == q * w + rem;
    assert high * b == q * (b * w) + rem * b by {
      Assoc(q, w, b);
      Commute(w, b);
      assert high * b == (q * w) * b + rem * b;
    }
    MulMono(rem + 1, w, b);
    FloorIs(m, q, b * w, rem * b + low);
  }

  /** X := the quotient of |X| by 2^count, with the sign of X unless everything is shifted out. */
  method ShiftR(X: Mpi, count: nat)
    modifies X
    ensures X.Mag() == old(X.Mag()) / Pow2(count)
    ensures X.s == old(X.s) || (X.s == 1 && X.Mag() == 0)
    ensures |X.p| >= old(|X.p|)
  {
    hide Val, At, B, Pow2;
    var v0, v1 := count / BI_L, count % BI_L;
    ghost var q, m, n := X.p, X.Mag(), |X.p|;
    if v0 > |X.p| || (v0 == |X.p| && v1 > 0) {
      ValBound(X.p);
      Pow2IsB(n);
      Pow2Mono(BI_L * n, count);
      FloorIs(m, 0, Pow2(count), m);
      LSet(X, 0);
      return;
    }
    ValSplit(X.p, v0);
    ValBound(X.p[..v0]);
    ShrParts(m, Val(q[..v0]), Val(q[v0..]), v0, v1);
    if v0 > 0 {
      ShiftLimbsDown(X, v0);
    }
    assert q[0..] == q;
    if v1 > 0 {
      ShiftBitsDown(X, v1);
    } else {
      Pow2Zero();
    }
  }
}
