/** Sliding-window modular exponentiation (HAC 14.85) over Montgomery multiplication. */
module ExpMod {
  import opened Limbs
  import opened Mpis
  import opened MpiAddSub
  import opened MpiShift
  import opened MpiDiv
  import opened MpiMod
  import opened Montgomery

  ghost function Pow(a: int, e: nat): int {
    if e == 0 then 1 else a * Pow(a, e - 1)
  }

  lemma {:induction false} PowAdd(a: int, e: nat, f: nat)
    ensures Pow(a, e + f) == Pow(a, e) * Pow(a, f)
  {
    if e > 0 {
      PowAdd(a, e - 1, f);
      Assoc(a, Pow(a, e - 1), Pow(a, f));
    }
  }

  /** Congruent bases have congruent powers. */
  lemma {:induction false} PowCong(a: int, b: int, e: nat, n: int)
    requires n > 0 && Cong(a, b, n)
    ensures Cong(Pow(a, e), Pow(b, e), n)
  {
    if e == 0 {
      CongRefl(1, n);
    } else {
      PowCong(a, b, e - 1, n);
      CongMul(a, b, Pow(a, e - 1), Pow(b, e - 1), n);
    }
  }

  // ---- cancelling the Montgomery factor ----

  lemma CancelTwo(x: int, y: int, n: int)
    requires n > 0 && n % 2 == 1 && Cong(2 * x, 2 * y, n)
    ensures Cong(x, y, n)
  {
    var k := CongFactor(2 * x, 2 * y, n);
    var h := n / 2;
    assert k * n == 2 * (k * h) + k by { Assoc(k, 2, h); Assoc(2, k, h); assert n == 2 * h + 1; }
    var g := k / 2;
    assert k == 2 * g;
    Assoc(2, g, n);
    CongIntro(x, y, n, g);
  }

  lemma {:induction false} CancelPow2(x: int, y: int, k: nat, n: int)
    requires n > 0 && n % 2 == 1 && Cong(x * Pow2(k), y * Pow2(k), n)
    ensures Cong(x, y, n)
  {
    if k > 0 {
      var w := Pow2(k - 1);
      assert x * Pow2(k) == 2 * (x * w) && y * Pow2(k) == 2 * (y * w) by {
        Assoc(x, 2, w); Assoc(2, x, w); Assoc(y, 2, w); Assoc(2, y, w);
      }
      CancelTwo(x * w, y * w, n);
      CancelPow2(x, y, k - 1, n);
    }
  }

  /** 2^(64 limbs) can be cancelled modulo an odd number. */
  lemma CancelB(x: int, y: int, limbs: nat, n: int)
    requires n > 0 && n % 2 == 1 && Cong(x * B(limbs), y * B(limbs), n)
    ensures Cong(x, y, n)
  {
    Pow2IsB(limbs);
    CancelPow2(x, y, BI_L * limbs, n);
  }

  // ---- numbers in Montgomery form ----

  /** The base, the modulus and the limbs of the modulus, fixed during one exponentiation. */
  ghost predicate Modulus(n: int) { n > 0 && n % 2 == 1 }

  /** x is the Montgomery form of a^e. */
  ghost predicate Mont(x: int, a: int, e: nat, limbs: nat, n: int)
    requires Modulus(n)
  {
    0 <= x < n && Cong(x, Pow(a, e) * B(limbs), n)
  }

  lemma MontTimes(z: int, x: int, y: int, a: int, e: nat, f: nat, limbs: nat, n: int)
    requires Modulus(n) && Mont(x, a, e, limbs, n) && Mont(y, a, f, limbs, n)
    requires 0 <= z < n && Cong(z * B(limbs), x * y, n)
    ensures Mont(z, a, e + f, limbs, n)
  {
    var w, p, q := B(limbs), Pow(a, e), Pow(a, f);
    CongMul(x, p * w, y, q * w, n);
    CongTrans(z * w, x * y, (p * w) * (q * w), n);
    PowAdd(a, e, f);
    assert (p * w) * (q * w) == ((p * q) * w) * w by { FourProduct(p, w, q); }
    CancelB(z, (p * q) * w, limbs, n);
  }

  lemma FourProduct(p: int, w: int, q: int)
    ensures (p * w) * (q * w) == ((p * q) * w) * w
  {
    Assoc(p * w, q, w);
    Rearrange(p, w, q);
    Commute(q * p, w);
    Commute(q, p);
  }

  lemma MontEnter(z: int, x: int, rr: int, a: int, e: nat, limbs: nat, n: int)
    requires Modulus(n) && 0 <= z < n && Cong(x, Pow(a, e), n) && Cong(rr, B(limbs) * B(limbs), n)
    requires Cong(z * B(limbs), x * rr, n)
    ensures Mont(z, a, e, limbs, n)
  {
    var w, p := B(limbs), Pow(a, e);
    CongMul(x, p, rr, w * w, n);
    CongTrans(z * w, x * rr, p * (w * w), n);
    Assoc(p, w, w);
    CancelB(z, p * w, limbs, n);
  }

  lemma MontLeave(z: int, x: int, a: int, e: nat, limbs: nat, n: int)
    requires Modulus(n) && Mont(x, a, e, limbs, n) && 0 <= z < n && Cong(z * B(limbs), x * 1, n)
    ensures z == Pow(a, e) % n
  {
    CongTrans(z * B(limbs), x, Pow(a, e) * B(limbs), n);
    CancelB(z, Pow(a, e), limbs, n);
    CongIsMod(z, Pow(a, e), n);
  }

  // ---- the operations used by the exponentiation ----

  /** Everything MontMul asks of its operands other than their values. */
  ghost predicate Ready(X: Mpi, N: Mpi, mm: Limb, T: Mpi)
    reads X, N, T
  {
    && X != N && T != X && T != N
    && |N.p| >= 1 && |X.p| >= |N.p| + 1 && |T.p| >= 2 * |N.p| + 2
    && (N.p[0] * mm + 1) % BASE == 0
    && Modulus(N.Mag())
  }

  /** X := X * Y in Montgomery form. */
  method MulForm(X: Mpi, Y: Mpi, N: Mpi, mm: Limb, T: Mpi, ghost a: int, ghost e: nat, ghost f: nat)
    requires Ready(X, N, mm, T) && T != Y && |Y.p| >= 1
    requires Mont(X.Mag(), a, e, |N.p|, N.Mag()) && Mont(Y.Mag(), a, f, |N.p|, N.Mag())
    modifies X, T
    ensures Ready(X, N, mm, T) && |X.p| == old(|X.p|) && X.s == old(X.s) && |T.p| == old(|T.p|)
    ensures Mont(X.Mag(), a, e + f, |N.p|, N.Mag())
  {
    hide Val, Limbs.B;
    ghost var x, y := X.Mag(), Y.Mag();
    var ret := MontMul(X, Y, N, mm, T);
    MontTimes(X.Mag(), x, y, a, e, f, |N.p|, N.Mag());
  }

  /** Montgomery reduction: multiplication by the number one. */
  method MontRed(A: Mpi, N: Mpi, mm: Limb, T: Mpi)
    requires Ready(A, N, mm, T) && A.Mag() < N.Mag()
    modifies A, T
    ensures Ready(A, N, mm, T) && |A.p| == old(|A.p|) && A.s == old(A.s) && |T.p| == old(|T.p|)
    ensures A.Mag() < N.Mag() && Cong(A.Mag() * Limbs.B(|N.p|), old(A.Mag()) * 1, N.Mag())
  {
    var U := new Mpi();
    U.p := [1];
    ValOne(U.p);
    hide Val, Limbs.B, Cong;
    var ret := MontMul(A, U, N, mm, T);
  }

  // ---- the window table ----

  ghost predicate Distinct(W: seq<Mpi>) {
    forall i, j :: 0 <= i < j < |W| ==> W[i] != W[j]
  }

  /** W[i] holds the Montgomery form of a^e in a buffer long enough for MontMul. */
  ghost predicate Slot(w: Mpi, a: int, e: nat, limbs: nat, n: int)
    requires Modulus(n)
    reads w
  {
    |w.p| >= limbs + 1 && Mont(w.Mag(), a, e, limbs, n)
  }

  /** W[j] := W[i] * W[1]; the buffer of W[j] is grown first. */
  method NextSlot(Wj: Mpi, Wi: Mpi, W1: Mpi, N: Mpi, mm: Limb, T: Mpi, ghost a: int, ghost e: nat)
    requires Wj !in {Wi, W1, N, T} && Wi !in {N, T} && Ready(W1, N, mm, T)
    requires Slot(Wi, a, e, |N.p|, N.Mag()) && Slot(W1, a, 1, |N.p|, N.Mag())
    modifies Wj, T
    ensures Slot(Wj, a, e + 1, |N.p|, N.Mag()) && Ready(W1, N, mm, T) && |T.p| == old(|T.p|)
  {
    hide Val, Mont;
    Grow(Wj, |N.p| + 1);
    Copy(Wj, Wi);
    MulForm(Wj, W1, N, mm, T, a, e, 1);
  }

  /** W[1 << (wsize - 1)] := W[1]^(1 << (wsize - 1)), by squaring. */
  method FirstSlot(Wj: Mpi, W1: Mpi, N: Mpi, mm: Limb, T: Mpi, wsize: nat, ghost a: int)
    requires wsize > 1 && Wj !in {W1, N, T} && Ready(W1, N, mm, T)
    requires Slot(W1, a, 1, |N.p|, N.Mag())
    modifies Wj, T
    ensures Slot(Wj, a, Pow2(wsize - 1), |N.p|, N.Mag()) && Ready(W1, N, mm, T) && |T.p| == old(|T.p|)
  {
    hide Val, Mont;
    Grow(Wj, |N.p| + 1);
    Copy(Wj, W1);
    var i := 0;
    while i < wsize - 1
      modifies Wj, T
      invariant 0 <= i <= wsize - 1 && Ready(Wj, N, mm, T) && |T.p| == old(|T.p|)
      invariant Slot(Wj, a, Pow2(i), |N.p|, N.Mag())
    {
      MulForm(Wj, Wj, N, mm, T, a, Pow2(i), Pow2(i));
      i := i + 1;
    }
  }

  /** The table of the powers with the top window bit set. */
  method FillTable(W: seq<Mpi>, N: Mpi, mm: Limb, T: Mpi, wsize: nat, ghost a: int)
    requires 1 <= wsize && Pow2(wsize) <= |W| && |W| >= 2 && Distinct(W) && N !in W && T !in W
    requires Ready(W[1], N, mm, T) && Slot(W[1], a, 1, |N.p|, N.Mag())
    modifies W[2..], T
    ensures Ready(W[1], N, mm, T) && |T.p| == old(|T.p|)
    ensures Slot(W[1], a, 1, |N.p|, N.Mag())
    ensures forall i :: Pow2(wsize - 1) <= i < Pow2(wsize) ==> Slot(W[i], a, i, |N.p|, N.Mag())
  {
    assert W[1] !in W[2..] by {
      forall k | 2 <= k < |W| ensures W[k] != W[1] {}
    }
    assert N !in W[2..];
    if wsize > 1 {
      var j := Pow2(wsize - 1);
      Pow2Succ(wsize - 1);
      Pow2Succ(wsize - 2);
      assert W[j] == W[2..][j - 2];
      hide Slot, Ready, Pow2;
      FirstSlot(W[j], W[1], N, mm, T, wsize, a);
      var i := j + 1;
      while i < 2 * j
        modifies W[2..], T
        invariant j + 1 <= i <= 2 * j && Ready(W[1], N, mm, T) && |T.p| == old(|T.p|)
        invariant Modulus(N.Mag())
        invariant Slot(W[1], a, 1, |N.p|, N.Mag())
        invariant forall k :: j <= k < i ==> Slot(W[k], a, k, |N.p|, N.Mag())
      {
        assert W[i] == W[2..][i - 2] && W[i] in W[2..];
        NextSlot(W[i], W[i - 1], W[1], N, mm, T, a, i - 1);
        i := i + 1;
      }
    }
  }

  // ---- scanning the exponent ----

  lemma HalfQuotient(x: nat, k: nat)
    ensures x / Pow2(k) == 2 * (x / Pow2(k + 1)) + (x / Pow2(k)) % 2
  {
    var w, q := Pow2(k), x / Pow2(k);
    QuotientBounds(x, w);
    assert x == q * w + x % w;
    var h, b := q / 2, q % 2;
    assert q * w == h * (2 * w) + b * w
      by { Assoc(h, 2, w); Commute(h, 2); assert q == 2 * h + b; assert (h * 2 + b) * w == (h * 2) * w + b * w; }
    MulMono(b, 1, w);
    MulMono(0, b, w);
    FloorIs(x, h, 2 * w, b * w + x % w);
  }

  /** Reading bit j of limb k extends the exponent prefix read so far by that bit. */
  lemma NextBit(p: seq<Limb>, k: nat, j: nat)
    requires k < |p| && j < BI_L
    ensures Val(p) / Pow2(BI_L * k + j) == 2 * (Val(p) / Pow2(BI_L * k + j + 1)) + WShr(p[k], j) % 2
  {
    hide Pow2, Val, At;
    var h, m := Val(p[k..]), Val(p[k + 1..]);
    ValSplit(p, k);
    ValBound(p[..k]);
    ShrParts(Val(p), Val(p[..k]), h, k, j);
    ValDrop(p, k);
    Pow2Split(j);
    Pow2Succ(BI_L - j - 1);
    LimbBit(p[k], m, Pow2(j), Pow2(BI_L - j - 1));
    HalfQuotient(Val(p), BI_L * k + j);
  }

  lemma LimbBit(x: Limb, m: nat, w: nat, u: nat)
    requires w > 0 && w * (2 * u) == BASE
    ensures ((x + BASE * m) / w) % 2 == (x / w) % 2
  {
    var q, r := x / w, x % w;
    assert x == q * w + r;
    Assoc(w, 2 * u, m);
    Commute(w, (2 * u) * m);
    Assoc(2, u, m);
    FloorIs(x + BASE * m, q + 2 * (u * m), w, r);
  }

  // ---- the sliding window ----

  /** The scanner's variables: whether a one has been seen and a window is open, how many bits the window
      holds, and those bits shifted to the top of the window. */
  datatype Window = Window(state: nat, nbits: nat, wbits: nat)

  /** `pend` is the value of the bits in the open window. */
  ghost predicate WindowInv(w: Window, wsize: nat, e: nat, pend: nat) {
    && w.state <= 2 && w.nbits < wsize && pend < Pow2(w.nbits)
    && w.wbits == pend * Pow2(wsize - w.nbits)
    && (w.state == 0 ==> e == 0 && w.nbits == 0)
    && (w.state == 1 ==> w.nbits == 0)
    && (w.state == 2 ==> w.nbits >= 1 && Pow2(w.nbits - 1) <= pend)
  }

  /** X := X^(2^count) in Montgomery form. */
  method Squarings(X: Mpi, N: Mpi, mm: Limb, T: Mpi, count: nat, ghost a: int, ghost e: nat)
    requires Ready(X, N, mm, T) && Mont(X.Mag(), a, e, |N.p|, N.Mag())
    modifies X, T
    ensures Ready(X, N, mm, T) && |X.p| == old(|X.p|) && X.s == old(X.s) && |T.p| == old(|T.p|)
    ensures Mont(X.Mag(), a, e * Pow2(count), |N.p|, N.Mag())
  {
    hide Mont, Pow2;
    Pow2Zero();
    var i := 0;
    while i < count
      invariant 0 <= i <= count && Ready(X, N, mm, T) && |X.p| == old(|X.p|) && X.s == old(X.s) && |T.p| == old(|T.p|)
      invariant Mont(X.Mag(), a, e * Pow2(i), |N.p|, N.Mag())
    {
      MulForm(X, X, N, mm, T, a, e * Pow2(i), e * Pow2(i));
      Pow2Succ(i);
      Doubled(e, Pow2(i));
      i := i + 1;
    }
  }

  lemma Doubled(e: int, w: int)
    ensures e * (2 * w) == e * w + e * w
  {}

  lemma WindowGrows(w: Window, wsize: nat, e: nat, pend: nat, ei: nat)
    requires WindowInv(w, wsize, e, pend) && ei <= 1 && (ei == 1 || w.state == 2)
    ensures BitOr(w.wbits, ei * Pow2(wsize - (w.nbits + 1))) == (2 * pend + ei) * Pow2(wsize - (w.nbits + 1))
    ensures Pow2(w.nbits) <= 2 * pend + ei < Pow2(w.nbits + 1)
    ensures e * Pow2(w.nbits + 1) + (2 * pend + ei) == 2 * (e * Pow2(w.nbits) + pend) + ei
  {
    var r := wsize - (w.nbits + 1);
    Pow2Succ(r);
    Pow2Succ(w.nbits);
    if w.nbits > 0 {
      Pow2Succ(w.nbits - 1);
    } else {
      Pow2Zero();
    }
    hide Pow2, BitOr;
    Doubled(e, Pow2(w.nbits));
    OrDisjoint(pend, r + 1, ei * Pow2(r));
    Assoc(pend, 2, Pow2(r));
    assert (2 * pend + ei) * Pow2(r) == (2 * pend) * Pow2(r) + ei * Pow2(r);
  }

  /** The part of the exponent that has been read: what was absorbed, and what the window holds. */
  ghost function Absorbed(e: nat, nbits: nat, pend: nat): int { e * Pow2(nbits) + pend }

  /** The value of the window with one more bit. */
  function Grown(w: Window, wsize: nat, ei: nat): nat
    requires w.nbits < wsize
  {
    BitOr(w.wbits, ei * Pow2(wsize - (w.nbits + 1)))
  }

  /** The exponent absorbed when a window is closed. */
  function Closed(e: nat, wsize: nat, g: nat): (r: nat)
    ensures r == e * Pow2(wsize) + g
  {
    MulNonneg(e, Pow2(wsize));
    e * Pow2(wsize) + g
  }

  lemma MulNonneg(x: int, y: int)
    requires x >= 0 && y >= 0
    ensures x * y >= 0
  {}

  /** A window that is now full holds an index of the table's upper half. */
  lemma WindowFills(w: Window, wsize: nat, e: nat, pend: nat, ei: nat)
    requires WindowInv(w, wsize, e, pend) && ei <= 1 && (ei == 1 || w.state == 2) && w.nbits + 1 == wsize
    ensures var g := Grown(w, wsize, ei); var e' := Closed(e, wsize, g);
            && g == 2 * pend + ei && Pow2(wsize - 1) <= g < Pow2(wsize)
            && Absorbed(e', 0, 0) == 2 * Absorbed(e, w.nbits, pend) + ei
            && WindowInv(Window(1, 0, 0), wsize, e', 0)
  {
    WindowGrows(w, wsize, e, pend, ei);
    Pow2Zero();
    hide BitOr;
  }

  /** A window that is not full yet. */
  lemma WindowStays(w: Window, wsize: nat, e: nat, pend: nat, ei: nat)
    requires WindowInv(w, wsize, e, pend) && ei <= 1 && (ei == 1 || w.state == 2) && w.nbits + 1 < wsize
    ensures var n := w.nbits + 1;
            && WindowInv(Window(2, n, Grown(w, wsize, ei)), wsize, e, 2 * pend + ei)
            && Absorbed(e, n, 2 * pend + ei) == 2 * Absorbed(e, w.nbits, pend) + ei
  {
    WindowGrows(w, wsize, e, pend, ei);
    hide BitOr, Pow2;
  }

  lemma WindowIdle(w: Window, wsize: nat, e: nat, pend: nat)
    requires WindowInv(w, wsize, e, pend) && 1 <= wsize
    ensures w.state == 0 ==> Absorbed(e, w.nbits, pend) == 0
    ensures w.state == 1 ==> w.nbits == 0 && WindowInv(w, wsize, e + e, 0)
    ensures w.state == 1 ==> Absorbed(e + e, 0, 0) == 2 * Absorbed(e, w.nbits, pend)
    ensures w.state <= 2 && w.nbits < wsize
  {
    Pow2Zero();
  }

  lemma ReadyApart(X: Mpi, N: Mpi, mm: Limb, T: Mpi)
    requires Ready(X, N, mm, T)
    ensures T != X && |X.p| >= 1
  {}

  /** The end of a window: as many squarings as it has bits, and one multiplication by its table entry. */
  method CloseWindow(X: Mpi, Wi: Mpi, N: Mpi, mm: Limb, T: Mpi, wsize: nat, ghost wbits: nat, ghost a: int,
    ghost e: nat)
    requires Wi != X && Wi != T && Ready(X, N, mm, T) && Mont(X.Mag(), a, e, |N.p|, N.Mag())
    requires Slot(Wi, a, wbits, |N.p|, N.Mag())
    modifies X, T
    ensures Ready(X, N, mm, T) && |X.p| == old(|X.p|) && X.s == old(X.s) && |T.p| == old(|T.p|)
    ensures Mont(X.Mag(), a, e * Pow2(wsize) + wbits, |N.p|, N.Mag())
  {
    hide Mont, Pow2, Slot;
    Squarings(X, N, mm, T, wsize, a, e);
    SlotLong(Wi, a, wbits, |N.p|, N.Mag());
    MulForm(X, Wi, N, mm, T, a, e * Pow2(wsize), wbits);
  }

  /** One bit of the exponent. */
  method AbsorbBit(X: Mpi, W: seq<Mpi>, N: Mpi, mm: Limb, T: Mpi, wsize: nat, w: Window, ei: nat,
                   ghost a: int, ghost e: nat, ghost pend: nat)
      returns (w': Window, ghost e': nat, ghost pend': nat)
    requires 1 <= wsize && Pow2(wsize) <= |W| && X !in W && T !in W && ei <= 1
    requires Ready(X, N, mm, T) && Mont(X.Mag(), a, e, |N.p|, N.Mag())
    requires forall i :: Pow2(wsize - 1) <= i < Pow2(wsize) ==> Slot(W[i], a, i, |N.p|, N.Mag())
    requires WindowInv(w, wsize, e, pend)
    modifies X, T
    ensures Ready(X, N, mm, T) && |X.p| == old(|X.p|) && X.s == old(X.s) && |T.p| == old(|T.p|)
    ensures Mont(X.Mag(), a, e', |N.p|, N.Mag()) && WindowInv(w', wsize, e', pend')
    ensures Absorbed(e', w'.nbits, pend') == 2 * Absorbed(e, w.nbits, pend) + ei
  {
    hide Mont, Pow2, WindowInv, Ready, Slot, Grown, Closed, Absorbed;
    WindowIdle(w, wsize, e, pend);
    e', pend' := e, pend;
    if ei == 0 && w.state == 0 {
      return w, e', pend';
    }
    if ei == 0 && w.state == 1 {
      ReadyApart(X, N, mm, T);
      MulForm(X, X, N, mm, T, a, e, e);
      return w, e + e, 0;
    }
    var nbits := w.nbits + 1;
    var wbits := Grown(w, wsize, ei);
    if nbits == wsize {
      WindowFills(w, wsize, e, pend, ei);
      CloseWindow(X, W[wbits], N, mm, T, wsize, wbits, a, e);
      return Window(1, 0, 0), Closed(e, wsize, wbits), 0;
    }
    WindowStays(w, wsize, e, pend, ei);
    return Window(2, nbits, wbits), e, 2 * pend + ei;
  }

  lemma SlotLong(w: Mpi, a: int, e: nat, limbs: nat, n: int)
    requires Modulus(n) && Slot(w, a, e, limbs, n)
    ensures |w.p| >= 1 && Mont(w.Mag(), a, e, limbs, n)
  {}

  lemma WholeQuotient(x: nat, k: nat)
    requires x < Pow2(k)
    ensures x / Pow2(k) == 0
  {
    FloorIs(x, 0, Pow2(k), x);
  }

  /** The main loop: all bits of E from the top. */
  method ScanExponent(X: Mpi, W: seq<Mpi>, E: Mpi, N: Mpi, mm: Limb, T: Mpi, wsize: nat, ghost a: int)
      returns (w: Window, ghost e: nat, ghost pend: nat)
    requires 1 <= wsize && Pow2(wsize) <= |W| && X !in W && T !in W && E !in {X, T}
    requires Ready(X, N, mm, T) && Mont(X.Mag(), a, 0, |N.p|, N.Mag())
    requires forall i :: Pow2(wsize - 1) <= i < Pow2(wsize) ==> Slot(W[i], a, i, |N.p|, N.Mag())
    modifies X, T
    ensures Ready(X, N, mm, T) && |X.p| == old(|X.p|) && X.s == old(X.s) && |T.p| == old(|T.p|)
    ensures Mont(X.Mag(), a, e, |N.p|, N.Mag()) && WindowInv(w, wsize, e, pend)
    ensures e * Pow2(w.nbits) + pend == E.Mag()
  {
    Pow2Zero();
    ValBound(E.p);
    Pow2IsB(|E.p|);
    WholeQuotient(Val(E.p), BI_L * |E.p|);
    assert WindowInv(Window(0, 0, 0), wsize, 0, 0);
    hide Mont, WindowInv, Val, Ready, Slot, Pow2;
    w, e, pend := Window(0, 0, 0), 0, 0;
    var nblimbs, bufsize := |E.p|, 0;
    while true
      invariant 0 <= nblimbs <= |E.p| && 0 <= bufsize <= BI_L && (bufsize > 0 ==> nblimbs < |E.p|)
      invariant Ready(X, N, mm, T) && |X.p| == old(|X.p|) && X.s == old(X.s) && |T.p| == old(|T.p|)
      invariant Modulus(N.Mag()) && Mont(X.Mag(), a, e, |N.p|, N.Mag()) && WindowInv(w, wsize, e, pend)
      invariant forall i :: Pow2(wsize - 1) <= i < Pow2(wsize) ==> Slot(W[i], a, i, |N.p|, N.Mag())
      invariant e * Pow2(w.nbits) + pend == E.Mag() / Pow2(BI_L * nblimbs + bufsize)
      decreases nblimbs, bufsize
    {
      if bufsize == 0 {
        if nblimbs == 0 {
          break;
        }
        nblimbs := nblimbs - 1;
        bufsize := BI_L;
      }
      bufsize := bufsize - 1;
      NextBit(E.p, nblimbs, bufsize);
      var ei := WShr(E.p[nblimbs], bufsize) % 2;
      w, e, pend := AbsorbBit(X, W, N, mm, T, wsize, w, ei, a, e, pend);
    }
  }

  lemma TopBit(pend: nat, wsize: nat, nbits: nat, i: nat)
    requires i < nbits <= wsize
    ensures (pend * Pow2(wsize - nbits + i + 1)) / Pow2(wsize) == pend / Pow2(nbits - i - 1)
  {
    var c, d := wsize - nbits + i + 1, nbits - i - 1;
    hide Pow2;
    Pow2Add(c, d);
    var w, u, q := Pow2(c), Pow2(d), pend / Pow2(d);
    QuotientBounds(pend, u);
    assert pend == q * u + pend % u;
    assert pend * w == q * (w * u) + (pend % u) * w by {
      Commute(w, u);
      Assoc(q, u, w);
      assert (q * u + pend % u) * w == (q * u) * w + (pend % u) * w;
    }
    MulMono(pend % u + 1, u, w);
    FloorIs(pend * w, q, w * u, (pend % u) * w);
  }

  /** The exponent reached after i of the remaining bits, and the window shifted up by i. */
  ghost function Reached(e: nat, pend: nat, nbits: nat, i: nat): nat
    requires i <= nbits
  {
    QuotientBounds(pend, Pow2(nbits - i));
    MulMono(0, e, Pow2(i));
    var r: int := e * Pow2(i) + pend / Pow2(nbits - i);
    r
  }

  ghost function Shifted(pend: nat, wsize: nat, nbits: nat, i: nat): nat
    requires nbits <= wsize
  {
    pend * Pow2(wsize - nbits + i)
  }

  lemma ReachedEnds(e: nat, pend: nat, nbits: nat)
    requires pend < Pow2(nbits)
    ensures Reached(e, pend, nbits, 0) == e
    ensures Reached(e, pend, nbits, nbits) == e * Pow2(nbits) + pend
  {
    Pow2Zero();
    WholeQuotient(pend, nbits);
  }

  lemma ReachedStep(e: nat, pend: nat, wsize: nat, nbits: nat, i: nat)
    requires i < nbits <= wsize
    ensures Shifted(pend, wsize, nbits, i + 1) == Shifted(pend, wsize, nbits, i) * 2
    ensures Reached(e, pend, nbits, i + 1)
         == 2 * Reached(e, pend, nbits, i) + (Shifted(pend, wsize, nbits, i + 1) / Pow2(wsize)) % 2
  {
    hide Pow2;
    ShiftedWindow(pend, wsize - nbits + i);
    TopBit(pend, wsize, nbits, i);
    HalfQuotient(pend, nbits - i - 1);
    Pow2Succ(i);
    Doubled(e, Pow2(i));
  }

  /** The bits left in an unfinished window, one at a time. */
  method RemainingBits(X: Mpi, W1: Mpi, N: Mpi, mm: Limb, T: Mpi, wsize: nat, w: Window,
                       ghost a: int, ghost e: nat, ghost pend: nat)
    requires T != W1 && Ready(X, N, mm, T) && Mont(X.Mag(), a, e, |N.p|, N.Mag())
    requires X != W1 && Slot(W1, a, 1, |N.p|, N.Mag()) && WindowInv(w, wsize, e, pend)
    modifies X, T
    ensures Ready(X, N, mm, T) && |X.p| == old(|X.p|) && X.s == old(X.s) && |T.p| == old(|T.p|)
    ensures Mont(X.Mag(), a, e * Pow2(w.nbits) + pend, |N.p|, N.Mag())
  {
    hide Mont, Val, Pow2, Reached;
    ReachedEnds(e, pend, w.nbits);
    SlotLong(W1, a, 1, |N.p|, N.Mag());
    var i, wbits := 0, w.wbits;
    while i < w.nbits
      invariant 0 <= i <= w.nbits
      invariant Ready(X, N, mm, T) && |X.p| == old(|X.p|) && X.s == old(X.s) && |T.p| == old(|T.p|)
      invariant wbits == Shifted(pend, wsize, w.nbits, i)
      invariant Mont(X.Mag(), a, Reached(e, pend, w.nbits, i), |N.p|, N.Mag())
    {
      ghost var f := Reached(e, pend, w.nbits, i);
      MulForm(X, X, N, mm, T, a, f, f);
      wbits := wbits * 2;
      ReachedStep(e, pend, wsize, w.nbits, i);
      if (wbits / Pow2(wsize)) % 2 != 0 {
        MulForm(X, W1, N, mm, T, a, f + f, 1);
      }
      i := i + 1;
    }
  }

  lemma ShiftedWindow(pend: nat, k: nat)
    ensures pend * Pow2(k) * 2 == pend * Pow2(k + 1)
  {
    Assoc(pend, Pow2(k), 2);
  }

  // ---- the exponentiation ----

  /** The window size picked for an exponent of that many bits; `limit` is MBEDTLS_MPI_WINDOW_SIZE. */
  function WindowSize(bits: nat, limit: nat): (r: nat)
    requires 1 <= limit <= 6
    ensures 1 <= r <= limit
  {
    var w := if bits > 671 then 6 else if bits > 239 then 5 else if bits > 79 then 4 else if bits > 23 then 3 else 1;
    if w > limit then limit else w
  }

  /** RR is a usable helper for the modulus N: the square of 2^(64 n), reduced. */
  ghost predicate Helper(RR: Mpi, N: Mpi)
    requires N.Mag() > 0
    reads RR, N
  {
    && RR.p != [] && RR.Int() >= 0 && RR.Mag() < N.Mag()
    && Cong(RR.Mag(), Limbs.B(|N.p|) * Limbs.B(|N.p|), N.Mag())
  }

  lemma SquareOfB(n: nat)
    ensures Pow2(n * 2 * BI_L) == B(n) * B(n)
  {
    Pow2IsB(n);
    Pow2Add(BI_L * n, BI_L * n);
    assert n * 2 * BI_L == BI_L * n + BI_L * n;
  }

  /** Computes the helper value for N. */
  method ComputeRR(RR: Mpi, N: Mpi)
    requires RR != N && N.Int() > 0
    modifies RR
    ensures Helper(RR, N)
  {
    hide Val, Limbs.B, Pow2, Cong;
    LSet(RR, 1);
    ShiftL(RR, |N.p| * 2 * BI_L);
    SquareOfB(|N.p|);
    ghost var r := RR.Int();
    var ret := ModMpi(RR, RR, N);
    ModRange(r, N.Int());
    CongMod(r, N.Int());
  }

  lemma ModRange(x: int, n: int)
    requires n > 0
    ensures 0 <= x % n < n
  {}

  /** An empty set of limbs for every entry of the table. */
  method NewTable(n: nat) returns (W: seq<Mpi>)
    ensures |W| == n && Distinct(W) && forall i :: 0 <= i < n ==> fresh(W[i]) && W[i].p == []
  {
    W := [];
    while |W| < n
      invariant |W| <= n && Distinct(W) && forall i :: 0 <= i < |W| ==> fresh(W[i]) && W[i].p == []
    {
      var w := new Mpi();
      W := W + [w];
    }
  }

  /** W[1] := A in Montgomery form. */
  method EnterBase(W1: Mpi, A: Mpi, RR: Mpi, N: Mpi, mm: Limb, T: Mpi)
    requires W1 !in {A, RR, N, T} && T !in {A, RR, N} && Ready(W1, N, mm, T)
    requires A.p != [] && A.Int() >= 0 && N.Int() > 0 && Helper(RR, N)
    modifies W1, T
    ensures Ready(W1, N, mm, T) && |T.p| == old(|T.p|)
    ensures Slot(W1, A.Mag(), 1, |N.p|, N.Mag())
  {
    hide Val, Limbs.B, Cong;
    ghost var a, n := A.Mag(), N.Mag();
    var c := CmpMpi(A, N);
    if c >= 0 {
      var ret := ModMpi(W1, A, N);
      ModRange(a, n);
      CongMod(a, n);
    } else {
      Copy(W1, A);
      CongRefl(a, n);
    }
    ghost var x := W1.Mag();
    var ret := MontMul(W1, RR, N, mm, T);
    PowOne(a);
    MontEnter(W1.Mag(), x, RR.Mag(), a, 1, |N.p|, n);
  }

  lemma PowOne(a: int)
    ensures Pow(a, 0) == 1 && Pow(a, 1) == a
  {}

  /** X := 1 in Montgomery form. */
  method EnterOne(X: Mpi, RR: Mpi, N: Mpi, mm: Limb, T: Mpi, ghost a: int)
    requires X !in {RR, N, T} && T !in {RR, N} && Ready(X, N, mm, T)
    requires N.Int() > 0 && Helper(RR, N)
    modifies X, T
    ensures Ready(X, N, mm, T) && |T.p| == old(|T.p|) && X.s == RR.s
    ensures Mont(X.Mag(), a, 0, |N.p|, N.Mag())
  {
    hide Val, Limbs.B, Cong;
    Copy(X, RR);
    ghost var x, n := X.Mag(), N.Mag();
    MontRed(X, N, mm, T);
    PowOne(a);
    CongRefl(1, n);
    Commute(x, 1);
    MontEnter(X.Mag(), 1, x, a, 0, |N.p|, n);
  }

  /** The table, the scan and the reduction: X := a^E mod N, starting from the Montgomery form of 1. */
  method WindowPower(X: Mpi, W: seq<Mpi>, E: Mpi, N: Mpi, mm: Limb, T: Mpi, wsize: nat, ghost a: int)
    requires 1 <= wsize <= 6 && |W| == 128 && Distinct(W) && X !in W && N !in W && T !in W && E !in W && E !in {X, T}
    requires Ready(X, N, mm, T) && Ready(W[1], N, mm, T)
    requires Mont(X.Mag(), a, 0, |N.p|, N.Mag()) && Slot(W[1], a, 1, |N.p|, N.Mag())
    modifies X, W, T
    ensures X.s == old(X.s) && X.p != [] && X.Mag() == Pow(a, E.Mag()) % N.Mag() < N.Mag()
  {
    Pow2Small(wsize);
    hide Val, Limbs.B, Mont, Slot, WindowInv, Cong, Pow2;
    assert forall k :: 2 <= k < |W| ==> W[k] != X;
    FillTable(W, N, mm, T, wsize, a);
    var w;
    ghost var e, pend;
    w, e, pend := ScanExponent(X, W, E, N, mm, T, wsize, a);
    RemainingBits(X, W[1], N, mm, T, wsize, w, a, e, pend);
    ghost var x := X.Mag();
    MontRange(x, a, E.Mag(), |N.p|, N.Mag());
    MontRed(X, N, mm, T);
    MontLeave(X.Mag(), x, a, E.Mag(), |N.p|, N.Mag());
  }

  lemma MontRange(x: int, a: int, e: nat, limbs: nat, n: int)
    requires Modulus(n) && Mont(x, a, e, limbs, n)
    ensures 0 <= x < n
  {}

  lemma Pow2Small(k: nat)
    requires k <= 6
    ensures Pow2(k) <= 128
  {
    Pow2Mono(k, 6);
    assert Pow2(6) == 64 by { assert Pow2(3) == 8; Pow2Add(3, 3); }
  }

  lemma {:induction false} PowNeg(a: int, e: nat)
    ensures Pow(-a, e) == if e % 2 == 0 then Pow(a, e) else -Pow(a, e)
  {
    if e > 0 {
      PowNeg(a, e - 1);
      var p := Pow(a, e - 1);
      assert -a * p == -(a * p) && -a * -p == a * p;
    }
  }

  lemma LowBitOdd(p: seq<Limb>)
    ensures p == [] ==> Val(p) == 0
    ensures p != [] ==> Val(p) % 2 == p[0] % 2
  {
    if p != [] { EvenLimbs(p[0], Val(p[1..])); }
  }

  lemma EvenLimbs(x: int, v: int)
    ensures (x + BASE * v) % 2 == x % 2
  {
    var k := x / 2;
    assert x + BASE * v == 2 * (k + 0x8000_0000_0000_0000 * v) + x % 2;
  }

  /** The correction for a negative base. */
  lemma NegativeBase(m: int, e: nat, n: int)
    requires n > 0 && e % 2 == 1
    ensures Cong(n - Pow(m, e) % n, Pow(-m, e), n)
    ensures Pow(m, e) % n == 0 <==> Pow(-m, e) % n == 0
  {
    var p := Pow(m, e);
    PowNeg(m, e);
    CongMod(p, n);
    var k := CongFactor(p % n, p, n);
    assert (1 - k) * n == n - k * n;
    CongIntro(n - p % n, -p, n, 1 - k);
    assert p == (p / n) * n + p % n;
    if p % n == 0 {
      assert -p == (-(p / n)) * n;
      FloorIs(-p, -(p / n), n, 0);
    }
    if (-p) % n == 0 {
      assert -p == ((-p) / n) * n;
      assert p == (-((-p) / n)) * n;
      FloorIs(p, -((-p) / n), n, 0);
    }
  }

  /** X := A^E mod N for odd positive N and E not negative. For A without a minus sign the result is the
      least nonnegative residue. With a minus sign and odd E it is N, not 0, when N divides A^E. */
  method ExpModMpi(X: Mpi, A: Mpi, E: Mpi, N: Mpi, cachedRR: Mpi?, limit: nat) returns (ret: Status)
    requires X !in {E, N} && A.p != [] && 1 <= limit <= 6
    requires cachedRR != null ==> cachedRR !in {X, A, E, N}
    requires cachedRR != null && cachedRR.p != [] && N.Int() > 0 ==> Helper(cachedRR, N)
    modifies X, cachedRR
    ensures ret == if N.Int() <= 0 || N.Int() % 2 == 0 || old(E.Int()) < 0 then BadInputData else Ok
    ensures ret == Ok && old(A.s) > 0 ==> X.Int() == Pow(old(A.Int()), E.Mag()) % N.Int()
    ensures ret == Ok ==> Cong(X.Int(), Pow(old(A.Int()), E.Mag()), N.Int()) && 0 <= X.Int() <= N.Int()
    ensures ret == Ok ==> (X.Int() == N.Int()
              <==> old(A.s) < 0 && E.Mag() % 2 == 1 && Pow(old(A.Int()), E.Mag()) % N.Int() == 0)
    ensures ret == Ok && cachedRR != null ==> Helper(cachedRR, N)
    ensures ret != Ok ==> unchanged(X) && (cachedRR != null ==> unchanged(cachedRR))
  {
    hide Val, Limbs.B, Cong, Pow2, Pow;
    ghost var m, a, n, e := A.Mag(), A.Int(), N.Int(), E.Mag();
    LowBitOdd(N.p);
    LowBitOdd(E.p);
    var r := CmpInt(N, 0);
    if r <= 0 {
      return BadInputData;
    }
    if N.p[0] % 2 == 0 {
      return BadInputData;
    }
    r := CmpInt(E, 0);
    if r < 0 {
      return BadInputData;
    }
    var neg := A.s == -1;
    var oddE := E.p != [] && E.p[0] % 2 != 0;
    RawPower(X, A, E, N, cachedRR, limit);
    if neg && oddE {
      X.s := -1;
      AddMpi(X, N, X);
    }
    PowNeg(m, e);
    if e % 2 == 1 {
      NegativeBase(m, e, n);
    }
    CongMod(Pow(m, e), n);
    ModRange(Pow(m, e), n);
    return Ok;
  }

  /** The body of the exponentiation, for the magnitude of A. */
  method RawPower(X: Mpi, A: Mpi, E: Mpi, N: Mpi, cachedRR: Mpi?, limit: nat)
    requires X !in {E, N} && A.p != [] && 1 <= limit <= 6
    requires N.Int() > 0 && N.Int() % 2 == 1
    requires cachedRR != null ==> cachedRR !in {X, A, E, N}
    requires cachedRR != null && cachedRR.p != [] ==> Helper(cachedRR, N)
    modifies X, cachedRR
    ensures X.Int() == X.Mag() == Pow(old(A.Mag()), old(E.Mag())) % old(N.Mag()) < old(N.Mag())
    ensures cachedRR != null ==> Helper(cachedRR, N)
  {
    hide Val, Limbs.B, Cong, Pow2, Mont, Pow, Ready, Slot, Helper, Signed;
    var wsize := PickWindow(E, limit);
    GrowTo(X, |N.p| + 1);
    var A' := Unsigned(A);
    var RR := ObtainRR(N, cachedRR);
    PowerFrom(X, A', E, N, RR, wsize);
  }

  /** The scratch space is allocated, and the power computed with it. */
  method PowerFrom(X: Mpi, A: Mpi, E: Mpi, N: Mpi, RR: Mpi, wsize: nat)
    requires 1 <= wsize <= 6 && X !in {E, N, RR}
    requires N.Int() > 0 && N.Int() % 2 == 1 && Helper(RR, N) && A.p != [] && A.Int() == A.Mag()
    requires |X.p| >= |N.p| + 1
    modifies X
    ensures X.Int() == X.Mag() == Pow(old(A.Mag()), old(E.Mag())) % old(N.Mag()) < old(N.Mag())
  {
    hide Val, Limbs.B, Cong, Pow2, Mont, Pow, Ready, Slot, Helper, Signed;
    var mm, W, T := Scratch(N);
    assert forall k :: 0 <= k < |W| ==> fresh(W[k]);
    PowerWith(X, A, E, N, RR, mm, W, T, wsize);
  }

  method GrowTo(X: Mpi, n: nat)
    modifies X
    ensures |X.p| >= n && X.Int() == old(X.Int()) && X.Mag() == old(X.Mag()) && (old(X.p) != [] ==> X.p != [])
  {
    Grow(X, n);
  }

  method PickWindow(E: Mpi, limit: nat) returns (wsize: nat)
    requires 1 <= limit <= 6
    ensures 1 <= wsize <= 6
  {
    var bits := Bitlen(E);
    wsize := WindowSize(bits, limit);
  }

  /** The Montgomery constant, the empty table with room in its first entry, and the scratch space. */
  method Scratch(N: Mpi) returns (mm: Limb, W: seq<Mpi>, T: Mpi)
    requires N.Int() > 0 && N.Int() % 2 == 1
    ensures |W| == 128 && Distinct(W) && T !in W && fresh(T) && forall k :: 0 <= k < |W| ==> fresh(W[k])
    ensures |N.p| >= 1 && |W[1].p| >= |N.p| + 1 && |T.p| >= 2 * |N.p| + 2 && (N.p[0] * mm + 1) % BASE == 0
  {
    LowBitOdd(N.p);
    hide Val, Limbs.B;
    mm := MontgInit(N);
    W := NewTable(128);
    Grow(W[1], |N.p| + 1);
    T := new Mpi();
    Grow(T, (|N.p| + 1) * 2);
  }

  method PowerWith(X: Mpi, A: Mpi, E: Mpi, N: Mpi, RR: Mpi, mm: Limb, W: seq<Mpi>, T: Mpi, wsize: nat)
    requires 1 <= wsize <= 6 && |W| == 128 && Distinct(W) && T !in W
    requires forall w :: w in W ==> w !in {X, A, E, N, RR}
    requires T !in {X, A, E, N, RR} && X !in {E, N, RR}
    requires N.Int() > 0 && N.Int() % 2 == 1 && Helper(RR, N) && A.p != [] && A.Int() == A.Mag()
    requires |N.p| >= 1 && |W[1].p| >= |N.p| + 1 && |T.p| >= 2 * |N.p| + 2 && (N.p[0] * mm + 1) % BASE == 0
    requires |X.p| >= |N.p| + 1
    modifies X, T, W
    ensures X.Int() == X.Mag() == Pow(old(A.Mag()), old(E.Mag())) % old(N.Mag()) < old(N.Mag())
  {
    hide Val, Limbs.B, Cong, Pow2, Mont, Pow, Slot;
    ghost var a := A.Mag();
    assert W[1] in W;
    EnterBase(W[1], A, RR, N, mm, T);
    EnterOne(X, RR, N, mm, T, a);
    ZeroHelper(RR, N);
    WindowPower(X, W, E, N, mm, T, wsize, a);
    ModRange(Pow(a, E.Mag()), N.Mag());
  }

  /** A itself, or a copy without its minus sign. */
  method Unsigned(A: Mpi) returns (A': Mpi)
    ensures A' == A || fresh(A')
    ensures A'.Int() == A'.Mag() == A.Mag() && (A.p != [] ==> A'.p != [])
  {
    hide Val;
    A' := A;
    if A.s == -1 {
      A' := new Mpi();
      Copy(A', A);
      A'.s := 1;
    }
  }

  /** The helper value: the caller's if it holds one, and otherwise computed and handed to the caller. */
  method ObtainRR(N: Mpi, cachedRR: Mpi?) returns (RR: Mpi)
    requires N.Int() > 0 && cachedRR != N
    requires cachedRR != null && cachedRR.p != [] ==> Helper(cachedRR, N)
    modifies cachedRR
    ensures (RR == cachedRR || fresh(RR)) && Helper(RR, N)
    ensures cachedRR != null ==> Helper(cachedRR, N)
  {
    hide Val, Limbs.B, Cong, Pow2;
    if cachedRR == null || cachedRR.p == [] {
      RR := new Mpi();
      ComputeRR(RR, N);
      if cachedRR != null {
        cachedRR.s, cachedRR.p := RR.s, RR.p;
      }
    } else {
      RR := cachedRR;
    }
  }

  /** The helper is zero only for the modulus one. */
  lemma ZeroHelper(RR: Mpi, N: Mpi)
    requires Modulus(N.Mag()) && Helper(RR, N)
    ensures RR.Mag() == 0 ==> N.Mag() == 1
    ensures RR.s == 1 || RR.Mag() == 0
  {
    var w, n := Limbs.B(|N.p|), N.Mag();
    if RR.Mag() == 0 {
      CancelB(0, w, |N.p|, n);
      CancelB(0, 1, |N.p|, n);
      if n > 1 {
        CongUnique(0, 1, n);
      }
    }
  }
}
