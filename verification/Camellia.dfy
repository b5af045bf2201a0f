/** The Camellia block cipher with arbitrary S-boxes and arbitrary round keys: the decryption schedule and why
    running the cipher with it undoes encryption (section 2 of RFC 3713). */
module Camellia {

  type Word = bv32

  datatype Boxes = Boxes(s1: bv8 -> bv8, s2: bv8 -> bv8, s3: bv8 -> bv8, s4: bv8 -> bv8)

  /** Two words: half a block, or the two words of a subkey. */
  datatype Pair = Pair(a: Word, b: Word)

  function Xor(x: Word, y: Word): Word { x ^ y }

  function XorPair(p: Pair, q: Pair): Pair { Pair(Xor(p.a, q.a), Xor(p.b, q.b)) }

  // ---- the round function ----

  function ByteAt(x: Word, shift: bv6): bv8
    requires shift < 32
  {
    ((x >> shift) & 0xFF) as bv8
  }

  function Join(x: bv8, y: bv8, z: bv8, w: bv8): Word {
    ((x as Word) << 24) | ((y as Word) << 16) | ((z as Word) << 8) | (w as Word)
  }

  /** What camellia_feistel adds to the other half. */
  function F(s: Boxes, x: Pair, k: Pair): Pair {
    var i0, i1 := Xor(x.a, k.a), Xor(x.b, k.b);
    Mix(Join(s.s1(ByteAt(i0, 24)), s.s2(ByteAt(i0, 16)), s.s3(ByteAt(i0, 8)), s.s4(ByteAt(i0, 0))),
        Join(s.s2(ByteAt(i1, 24)), s.s3(ByteAt(i1, 16)), s.s4(ByteAt(i1, 8)), s.s1(ByteAt(i1, 0))))
  }

  function Left8(x: Word): Word { (x << 8) | (x >> 24) }
  function Left16(x: Word): Word { (x << 16) | (x >> 16) }
  function Right8(x: Word): Word { (x >> 8) | (x << 24) }

  /** The four rotations that spread the bytes; the two words change places. */
  function Mix(t0: Word, t1: Word): Pair {
    var u0 := Xor(t0, Left8(t1));
    var u1 := Xor(t1, Left16(u0));
    var v0 := Xor(u0, Right8(u1));
    var v1 := Xor(u1, Right8(v0));
    Pair(v1, v0)
  }

  /** (x & k), rotated left by one bit. */
  function AndRot(x: Word, k: Word): Word { ((x & k) << 1) | ((x & k) >> 31) }
  function Or(x: Word, k: Word): Word { x | k }

  /** The macros FL and FLInv. */
  function FL(x: Pair, k: Pair): Pair {
    var r := Xor(AndRot(x.a, k.a), x.b);
    Pair(Xor(Or(r, k.b), x.a), r)
  }

  function FLInv(y: Pair, k: Pair): Pair {
    var l := Xor(Or(y.b, k.b), y.a);
    Pair(l, Xor(AndRot(l, k.a), y.b))
  }

  // ---- what the standard says of them ----

  /** The eight bytes of a half, from the left. */
  datatype Eight = Eight(b1: bv8, b2: bv8, b3: bv8, b4: bv8, b5: bv8, b6: bv8, b7: bv8, b8: bv8)

  function EightOf(p: Pair): Eight {
    Eight((p.a >> 24) as bv8, ((p.a >> 16) & 0xFF) as bv8, ((p.a >> 8) & 0xFF) as bv8, (p.a & 0xFF) as bv8,
          (p.b >> 24) as bv8, ((p.b >> 16) & 0xFF) as bv8, ((p.b >> 8) & 0xFF) as bv8, (p.b & 0xFF) as bv8)
  }

  function XorByte(x: bv8, y: bv8): bv8 { x ^ y }

  /** The S-function, each box on its own byte of the half masked with the subkey (section 2.4.1 of RFC 3713). */
  function SFunction(s: Boxes, x: Eight, k: Eight): Eight {
    Eight(s.s1(XorByte(x.b1, k.b1)), s.s2(XorByte(x.b2, k.b2)), s.s3(XorByte(x.b3, k.b3)), s.s4(XorByte(x.b4, k.b4)),
          s.s2(XorByte(x.b5, k.b5)), s.s3(XorByte(x.b6, k.b6)), s.s4(XorByte(x.b7, k.b7)), s.s1(XorByte(x.b8, k.b8)))
  }

  function Five(a: bv8, b: bv8, c: bv8, d: bv8, e: bv8): bv8 { a ^ b ^ c ^ d ^ e }
  function Six(a: bv8, b: bv8, c: bv8, d: bv8, e: bv8, f: bv8): bv8 { a ^ b ^ c ^ d ^ e ^ f }

  /** The P-function: the eight sums listed there, each from its own place in the half on. */
  function PFunction(t: Eight): Eight {
    Eight(Six(t.b1, t.b3, t.b4, t.b6, t.b7, t.b8),
          Six(t.b2, t.b4, t.b1, t.b7, t.b8, t.b5),
          Six(t.b3, t.b1, t.b2, t.b8, t.b5, t.b6),
          Six(t.b4, t.b2, t.b3, t.b5, t.b6, t.b7),
          Five(t.b1, t.b2, t.b6, t.b7, t.b8),
          Five(t.b2, t.b3, t.b7, t.b8, t.b5),
          Five(t.b3, t.b4, t.b8, t.b5, t.b6),
          Five(t.b4, t.b1, t.b5, t.b6, t.b7))
  }

  /** The word rotations of a round come to the P-function of the S-function. */
  lemma RoundBytes(s: Boxes, x: Pair, k: Pair)
    ensures EightOf(F(s, x, k)) == PFunction(SFunction(s, EightOf(x), EightOf(k)))
  {
    hide Mix, Join, ByteAt, EightOf, PFunction, Xor, XorByte;
    MaskedBytes(x.a, k.a);
    MaskedBytes(x.b, k.b);
    SFunctionIs(s, x, k);
    MixBytes(SFunction(s, EightOf(x), EightOf(k)));
  }

  lemma SFunctionIs(s: Boxes, x: Pair, k: Pair)
    ensures SFunction(s, EightOf(x), EightOf(k)) ==
      Eight(s.s1(XorByte(ByteAt(x.a, 24), ByteAt(k.a, 24))), s.s2(XorByte(ByteAt(x.a, 16), ByteAt(k.a, 16))),
            s.s3(XorByte(ByteAt(x.a, 8), ByteAt(k.a, 8))), s.s4(XorByte(ByteAt(x.a, 0), ByteAt(k.a, 0))),
            s.s2(XorByte(ByteAt(x.b, 24), ByteAt(k.b, 24))), s.s3(XorByte(ByteAt(x.b, 16), ByteAt(k.b, 16))),
            s.s4(XorByte(ByteAt(x.b, 8), ByteAt(k.b, 8))), s.s1(XorByte(ByteAt(x.b, 0), ByteAt(k.b, 0))))
  {
    hide ByteAt, EightOf, XorByte;
    EightBytes(x);
    EightBytes(k);
  }

  lemma EightBytes(x: Pair)
    ensures EightOf(x) == Eight(ByteAt(x.a, 24), ByteAt(x.a, 16), ByteAt(x.a, 8), ByteAt(x.a, 0),
                                ByteAt(x.b, 24), ByteAt(x.b, 16), ByteAt(x.b, 8), ByteAt(x.b, 0))
  {}

  lemma MaskedBytes(x: Word, k: Word)
    ensures ByteAt(Xor(x, k), 24) == XorByte(ByteAt(x, 24), ByteAt(k, 24))
    ensures ByteAt(Xor(x, k), 16) == XorByte(ByteAt(x, 16), ByteAt(k, 16))
    ensures ByteAt(Xor(x, k), 8) == XorByte(ByteAt(x, 8), ByteAt(k, 8))
    ensures ByteAt(Xor(x, k), 0) == XorByte(ByteAt(x, 0), ByteAt(k, 0))
  {
    hide ByteAt, XorByte, Xor;
    Masked24(x, k);
    Masked16(x, k);
    Masked8(x, k);
    Masked0(x, k);
  }

  lemma Masked24(x: Word, k: Word)
    ensures ByteAt(Xor(x, k), 24) == XorByte(ByteAt(x, 24), ByteAt(k, 24))
  {}

  lemma Masked16(x: Word, k: Word)
    ensures ByteAt(Xor(x, k), 16) == XorByte(ByteAt(x, 16), ByteAt(k, 16))
  {}

  lemma Masked8(x: Word, k: Word)
    ensures ByteAt(Xor(x, k), 8) == XorByte(ByteAt(x, 8), ByteAt(k, 8))
  {}

  lemma Masked0(x: Word, k: Word)
    ensures ByteAt(Xor(x, k), 0) == XorByte(ByteAt(x, 0), ByteAt(k, 0))
  {}

  lemma Left8Bytes(x: bv8, y: bv8, z: bv8, w: bv8)
    ensures Left8(Join(x, y, z, w)) == Join(y, z, w, x)
  {}

  lemma Left16Bytes(x: bv8, y: bv8, z: bv8, w: bv8)
    ensures Left16(Join(x, y, z, w)) == Join(z, w, x, y)
  {}

  lemma Right8Bytes(x: bv8, y: bv8, z: bv8, w: bv8)
    ensures Right8(Join(x, y, z, w)) == Join(w, x, y, z)
  {}

  lemma JoinXor(x: bv8, y: bv8, z: bv8, w: bv8, a: bv8, b: bv8, c: bv8, d: bv8)
    ensures Xor(Join(x, y, z, w), Join(a, b, c, d)) == Join(XorByte(x, a), XorByte(y, b), XorByte(z, c), XorByte(w, d))
  {}

  lemma JoinEight(x: bv8, y: bv8, z: bv8, w: bv8, a: bv8, b: bv8, c: bv8, d: bv8)
    ensures EightOf(Pair(Join(x, y, z, w), Join(a, b, c, d))) == Eight(x, y, z, w, a, b, c, d)
  {}

  // ---- the bytes of the P-function, as the rotations add them up ----

  lemma LeftSum(t1: bv8, t3: bv8, t4: bv8, t5: bv8, t6: bv8, t7: bv8, t8: bv8)
    ensures XorByte(XorByte(t5, XorByte(t3, t8)), XorByte(XorByte(t4, t5), XorByte(t7, XorByte(t1, t6))))
      == t1 ^ t3 ^ t4 ^ t6 ^ t7 ^ t8
  {}

  lemma LeftByte(t1: bv8, t3: bv8, t4: bv8, t5: bv8, t6: bv8, t7: bv8, t8: bv8)
    ensures XorByte(XorByte(t5, XorByte(t3, t8)), XorByte(XorByte(t4, t5), XorByte(t7, XorByte(t1, t6))))
      == Six(t1, t3, t4, t6, t7, t8)
  {
    hide XorByte;
    LeftSum(t1, t3, t4, t5, t6, t7, t8);
  }

  lemma RightByte(t1: bv8, t2: bv8, t6: bv8, t7: bv8, t8: bv8)
    ensures XorByte(XorByte(t1, t6), XorByte(t8, XorByte(t2, t7))) == Five(t1, t2, t6, t7, t8)
  {}

  lemma MixBytes(t: Eight)
    ensures EightOf(Mix(Join(t.b1, t.b2, t.b3, t.b4), Join(t.b5, t.b6, t.b7, t.b8))) == PFunction(t)
  {
    hide Join, EightOf, Xor, Left8, Left16, Right8, XorByte, PFunction;
    Left8Bytes(t.b5, t.b6, t.b7, t.b8);
    JoinXor(t.b1, t.b2, t.b3, t.b4, t.b6, t.b7, t.b8, t.b5);
    var u1, u2, u3, u4 := XorByte(t.b1, t.b6), XorByte(t.b2, t.b7), XorByte(t.b3, t.b8), XorByte(t.b4, t.b5);
    Left16Bytes(u1, u2, u3, u4);
    JoinXor(t.b5, t.b6, t.b7, t.b8, u3, u4, u1, u2);
    var u5, u6, u7, u8 := XorByte(t.b5, u3), XorByte(t.b6, u4), XorByte(t.b7, u1), XorByte(t.b8, u2);
    Right8Bytes(u5, u6, u7, u8);
    JoinXor(u1, u2, u3, u4, u8, u5, u6, u7);
    var v1, v2, v3, v4 := XorByte(u1, u8), XorByte(u2, u5), XorByte(u3, u6), XorByte(u4, u7);
    Right8Bytes(v1, v2, v3, v4);
    JoinXor(u5, u6, u7, u8, v4, v1, v2, v3);
    JoinEight(XorByte(u5, v4), XorByte(u6, v1), XorByte(u7, v2), XorByte(u8, v3), v1, v2, v3, v4);
    PFunctionIs(t);
  }

  /** The same sums as the rotations make them. */
  lemma PFunctionIs(t: Eight)
    ensures var u1, u2, u3, u4 := XorByte(t.b1, t.b6), XorByte(t.b2, t.b7), XorByte(t.b3, t.b8), XorByte(t.b4, t.b5);
            var u5, u6, u7, u8 := XorByte(t.b5, u3), XorByte(t.b6, u4), XorByte(t.b7, u1), XorByte(t.b8, u2);
            var v1, v2, v3, v4 := XorByte(u1, u8), XorByte(u2, u5), XorByte(u3, u6), XorByte(u4, u7);
            PFunction(t) == Eight(XorByte(u5, v4), XorByte(u6, v1), XorByte(u7, v2), XorByte(u8, v3), v1, v2, v3, v4)
  {
    hide XorByte, Five, Six;
    LeftByte(t.b1, t.b3, t.b4, t.b5, t.b6, t.b7, t.b8);
    LeftByte(t.b2, t.b4, t.b1, t.b6, t.b7, t.b8, t.b5);
    LeftByte(t.b3, t.b1, t.b2, t.b7, t.b8, t.b5, t.b6);
    LeftByte(t.b4, t.b2, t.b3, t.b8, t.b5, t.b6, t.b7);
    RightByte(t.b1, t.b2, t.b6, t.b7, t.b8);
    RightByte(t.b2, t.b3, t.b7, t.b8, t.b5);
    RightByte(t.b3, t.b4, t.b8, t.b5, t.b6);
    RightByte(t.b4, t.b1, t.b5, t.b6, t.b7);
  }

  predicate Masked(x: Word, m: Word) { x & m != 0 }
  predicate Bit(x: Word, i: bv5) { Masked(x, 1 << i) }

  lemma RawXorBit(x: Word, y: Word, i: bv5)
    ensures Bit(x ^ y, i) == (Bit(x, i) != Bit(y, i))
  {}

  lemma XorBit(x: Word, y: Word, i: bv5)
    ensures Bit(Xor(x, y), i) == (Bit(x, i) != Bit(y, i))
  {
    hide Bit;
    RawXorBit(x, y, i);
  }

  lemma OrMask(x: Word, y: Word, m: Word)
    ensures ((x | y) & m != 0) == (x & m != 0 || y & m != 0)
  {}

  lemma RawOrMask(x: Word, y: Word, m: Word)
    ensures Masked(x | y, m) == (Masked(x, m) || Masked(y, m))
  {
    OrMask(x, y, m);
  }

  lemma RawOrBit(x: Word, y: Word, i: bv5)
    ensures Bit(x | y, i) == (Bit(x, i) || Bit(y, i))
  {
    hide Masked;
    RawOrMask(x, y, 1 << i);
  }

  lemma OrBit(x: Word, y: Word, i: bv5)
    ensures Bit(Or(x, y), i) == (Bit(x, i) || Bit(y, i))
  {
    hide Bit;
    RawOrBit(x, y, i);
  }

  lemma RawAndBit(x: Word, y: Word, i: bv5)
    ensures Bit(x & y, i) == (Bit(x, i) && Bit(y, i))
  {}

  lemma RawRotBit(x: Word, i: bv5)
    ensures Bit((x << 1) | (x >> 31), i) == Bit(x, i - 1)
  {}

  lemma AndRotBit(x: Word, y: Word, i: bv5)
    ensures Bit(AndRot(x, y), i) == (Bit(x, i - 1) && Bit(y, i - 1))
  {
    hide Bit;
    RawAndBit(x, y, i - 1);
    RawRotBit(x & y, i);
  }

  /** FL bit by bit: the right word takes the bits of left word and subkey one place on, cyclically, then the left
      word those of right word or subkey (section 2.4.2 of RFC 3713). */
  predicate FLBit(x: Pair, k: Pair, y: Pair, i: bv5) {
    && Bit(y.b, i) == (Bit(x.b, i) != (Bit(x.a, i - 1) && Bit(k.a, i - 1)))
    && Bit(y.a, i) == (Bit(x.a, i) != (Bit(y.b, i) || Bit(k.b, i)))
  }

  /** And FLInv: first the left word, then the right. */
  predicate FLInvBit(y: Pair, k: Pair, x: Pair, i: bv5) {
    && Bit(x.a, i) == (Bit(y.a, i) != (Bit(y.b, i) || Bit(k.b, i)))
    && Bit(x.b, i) == (Bit(y.b, i) != (Bit(x.a, i - 1) && Bit(k.a, i - 1)))
  }

  lemma FLBits(x: Pair, k: Pair)
    ensures forall i: bv5 :: FLBit(x, k, FL(x, k), i)
  {
    hide FLBit, FL;
    forall i: bv5 ensures FLBit(x, k, FL(x, k), i) { FLBitIs(x, k, i); }
  }

  lemma FLInvBits(y: Pair, k: Pair)
    ensures forall i: bv5 :: FLInvBit(y, k, FLInv(y, k), i)
  {
    hide FLInvBit, FLInv;
    forall i: bv5 ensures FLInvBit(y, k, FLInv(y, k), i) { FLInvBitIs(y, k, i); }
  }

  lemma FLBitIs(x: Pair, k: Pair, i: bv5)
    ensures FLBit(x, k, FL(x, k), i)
  {
    hide Xor, Or, AndRot, Bit;
    var y := FL(x, k);
    AndRotBit(x.a, k.a, i);
    XorBit(AndRot(x.a, k.a), x.b, i);
    OrBit(y.b, k.b, i);
    XorBit(Or(y.b, k.b), x.a, i);
  }

  lemma FLInvBitIs(y: Pair, k: Pair, i: bv5)
    ensures FLInvBit(y, k, FLInv(y, k), i)
  {
    hide Xor, Or, AndRot, Bit;
    var x := FLInv(y, k);
    OrBit(y.b, k.b, i);
    XorBit(Or(y.b, k.b), y.a, i);
    AndRotBit(x.a, k.a, i);
    XorBit(AndRot(x.a, k.a), y.b, i);
  }

  lemma XorWord(x: Word, y: Word)
    ensures Xor(Xor(x, y), y) == x && Xor(y, Xor(y, x)) == x
  {}

  lemma XorBack(p: Pair, q: Pair)
    ensures XorPair(XorPair(p, q), q) == p
  {
    hide Xor;
    XorWord(p.a, q.a);
    XorWord(p.b, q.b);
  }

  lemma FLBack(x: Pair, k: Pair)
    ensures FLInv(FL(x, k), k) == x && FL(FLInv(x, k), k) == x
  {
    hide Xor, AndRot, Or;
    var r := Xor(AndRot(x.a, k.a), x.b);
    XorWord(x.a, Or(r, k.b));
    XorWord(x.b, AndRot(x.a, k.a));
    var l := Xor(Or(x.b, k.b), x.a);
    XorWord(x.a, Or(x.b, k.b));
    XorWord(x.b, AndRot(l, k.a));
  }

  // ---- the cipher as a sequence of steps ----

  /** A block: the left half X[0], X[1] and the right half X[2], X[3]. */
  datatype Block = Block(l: Pair, r: Pair)

  function Swap(x: Block): Block { Block(x.r, x.l) }

  /** The j-th step between the two whitenings: in each group of eight, six rounds on alternating halves, then
      FL on the left half and FLInv on the right. */
  function Step(s: Boxes, j: nat, k: Pair, x: Block): Block {
    if j % 8 == 6 then Block(FL(x.l, k), x.r)
    else if j % 8 == 7 then Block(x.l, FLInv(x.r, k))
    else if j % 2 == 0 then Block(x.l, XorPair(x.r, F(s, x.l, k)))
    else Block(XorPair(x.l, F(s, x.r, k)), x.r)
  }

  /** The first m steps with the given subkeys. */
  function Steps(s: Boxes, ks: seq<Pair>, m: nat, x: Block): Block
    requires m <= |ks|
  {
    if m == 0 then x else Step(s, m - 1, ks[m - 1], Steps(s, ks, m - 1, x))
  }

  /** The number of steps: rounds in nr groups of six, and two more between groups. */
  function Count(nr: nat): nat
    requires nr >= 1
  {
    8 * nr - 2
  }

  function PairAt(rk: seq<Word>, i: nat): Pair
    requires i + 2 <= |rk|
  {
    Pair(rk[i], rk[i + 1])
  }

  function Subkeys(rk: seq<Word>, nr: nat): (ks: seq<Pair>)
    requires nr >= 1 && |rk| >= 2 * Count(nr) + 8
    ensures |ks| == Count(nr)
  {
    seq(Count(nr), j requires 0 <= j < Count(nr) => PairAt(rk, 4 + 2 * j))
  }

  function KeyWords(nr: nat): nat
    requires nr >= 1
  {
    2 * Count(nr) + 8
  }

  /** The cipher: whitening, the steps, whitening with the halves exchanged. */
  function Crypt(s: Boxes, nr: nat, rk: seq<Word>, x: Block): Block
    requires nr >= 1 && |rk| >= KeyWords(nr)
  {
    var n := KeyWords(nr);
    var y := Steps(s, Subkeys(rk, nr), Count(nr), Block(XorPair(x.l, PairAt(rk, 0)), XorPair(x.r, PairAt(rk, 2))));
    Block(XorPair(y.r, PairAt(rk, n - 4)), XorPair(y.l, PairAt(rk, n - 2)))
  }

  // ---- the cipher as the standard has it ----

  ghost predicate Masks(x: Pair, k: Pair, y: Pair) { y.a == x.a ^ k.a && y.b == x.b ^ k.b }

  /** A round on the half `x`, into which it goes masked with what the other half makes of the subkey. */
  ghost predicate RoundOf(s: Boxes, other: Pair, k: Pair, x: Pair, y: Pair) {
    exists f: Pair :: EightOf(f) == PFunction(SFunction(s, EightOf(other), EightOf(k))) && Masks(x, f, y)
  }

  ghost predicate FLOf(x: Pair, k: Pair, y: Pair) { forall i: bv5 :: FLBit(x, k, y, i) }
  ghost predicate FLInvOf(y: Pair, k: Pair, x: Pair) { forall i: bv5 :: FLInvBit(y, k, x, i) }

  ghost predicate StepOf(s: Boxes, j: nat, k: Pair, x: Block, y: Block) {
    if j % 8 == 6 then FLOf(x.l, k, y.l) && y.r == x.r
    else if j % 8 == 7 then y.l == x.l && FLInvOf(x.r, k, y.r)
    else if j % 2 == 0 then y.l == x.l && RoundOf(s, x.l, k, x.r, y.r)
    else RoundOf(s, x.r, k, x.l, y.l) && y.r == x.r
  }

  /** The blocks between the steps, from input to output. */
  ghost predicate CipheredVia(s: Boxes, nr: nat, rk: seq<Word>, x: Block, bs: seq<Block>, y: Block)
    requires nr >= 1 && |rk| >= 16 * nr + 4
  {
    var n := 8 * nr - 2;
    && |bs| == n + 1 && Masks(x.l, Pair(rk[0], rk[1]), bs[0].l) && Masks(x.r, Pair(rk[2], rk[3]), bs[0].r)
    && (forall j :: 0 <= j < n ==> StepOf(s, j, Pair(rk[4 + 2 * j], rk[5 + 2 * j]), bs[j], bs[j + 1]))
    && Masks(bs[n].r, Pair(rk[4 + 2 * n], rk[5 + 2 * n]), y.l)
    && Masks(bs[n].l, Pair(rk[6 + 2 * n], rk[7 + 2 * n]), y.r)
  }

  ghost predicate Ciphered(s: Boxes, nr: nat, rk: seq<Word>, x: Block, y: Block)
    requires nr >= 1 && |rk| >= 16 * nr + 4
  {
    exists bs :: CipheredVia(s, nr, rk, x, bs, y)
  }

  lemma MasksIs(x: Pair, k: Pair)
    ensures Masks(x, k, XorPair(x, k))
  {}

  lemma RoundIsOf(s: Boxes, other: Pair, k: Pair, x: Pair)
    ensures RoundOf(s, other, k, x, XorPair(x, F(s, other, k)))
  {
    hide F, EightOf, PFunction, SFunction, XorPair, Masks;
    var f := F(s, other, k);
    RoundBytes(s, other, k);
    MasksIs(x, f);
  }

  lemma FLIsOf(x: Pair, k: Pair)
    ensures FLOf(x, k, FL(x, k)) && FLInvOf(x, k, FLInv(x, k))
  {
    hide FL, FLInv, FLBit, FLInvBit;
    FLBits(x, k);
    FLInvBits(x, k);
  }

  lemma StepIsOf(s: Boxes, j: nat, k: Pair, x: Block)
    ensures StepOf(s, j, k, x, Step(s, j, k, x))
  {
    hide F, FL, FLInv, FLOf, FLInvOf, RoundOf, XorPair;
    FLIsOf(x.l, k);
    FLIsOf(x.r, k);
    RoundIsOf(s, x.l, k, x.r);
    RoundIsOf(s, x.r, k, x.l);
  }

  /** The cipher does what section 2 of the RFC says, step by step. */
  lemma CipherSteps(s: Boxes, nr: nat, rk: seq<Word>, x: Block)
    requires nr >= 1 && |rk| >= 16 * nr + 4
    ensures Ciphered(s, nr, rk, x, Crypt(s, nr, rk, x))
  {
    hide Step, StepOf, Masks, XorPair, Steps;
    var n, ks := Count(nr), Subkeys(rk, nr);
    var x0 := Block(XorPair(x.l, PairAt(rk, 0)), XorPair(x.r, PairAt(rk, 2)));
    var bs := seq(n + 1, i requires 0 <= i <= n => Steps(s, ks, i, x0));
    MasksIs(x.l, PairAt(rk, 0));
    MasksIs(x.r, PairAt(rk, 2));
    StepsNone(s, ks, x0);
    forall j | 0 <= j < n
      ensures StepOf(s, j, Pair(rk[4 + 2 * j], rk[5 + 2 * j]), bs[j], bs[j + 1])
    {
      StepsNext(s, ks, j, x0);
      StepIsOf(s, j, ks[j], bs[j]);
    }
    MasksIs(bs[n].r, PairAt(rk, 4 + 2 * n));
    MasksIs(bs[n].l, PairAt(rk, 6 + 2 * n));
    assert CipheredVia(s, nr, rk, x, bs, Crypt(s, nr, rk, x));
  }

  // ---- the decryption schedule ----

  /** The round keys pair by pair from the end, but for the two whitening keys at each end, whose pairs keep
      their order. */
  ghost predicate Reversed(rk: seq<Word>, rk': seq<Word>, nr: nat)
    requires nr >= 1
  {
    var n := KeyWords(nr);
    && |rk| >= n && |rk'| >= n
    && PairAt(rk', 0) == PairAt(rk, n - 4) && PairAt(rk', 2) == PairAt(rk, n - 2)
    && PairAt(rk', n - 4) == PairAt(rk, 0) && PairAt(rk', n - 2) == PairAt(rk, 2)
    && forall j :: 0 <= j < Count(nr) ==> PairAt(rk', 4 + 2 * j) == PairAt(rk, 4 + 2 * (Count(nr) - 1 - j))
  }

  /** `*RK++ = *SK++`, n times. */
  method CopyWords(sk: seq<Word>, s: nat, rk: array<Word>, r: nat, n: nat)
    requires s + n <= |sk| && r + n <= rk.Length
    modifies rk
    ensures forall q :: 0 <= q < rk.Length ==> rk[q] == if r <= q < r + n then sk[s + q - r] else old(rk[q])
  {
    var i := 0;
    while i < n
      invariant 0 <= i <= n
      invariant forall q :: 0 <= q < rk.Length ==> rk[q] == if r <= q < r + i then sk[s + q - r] else old(rk[q])
    {
      rk[r + i] := sk[s + i];
      i := i + 1;
    }
  }

  /** The copying of mbedtls_camellia_setkey_dec, which walks backwards through the encryption keys SK. */
  method SetkeyDec(sk: seq<Word>, nr: nat, rk: array<Word>)
    requires (nr == 3 || nr == 4) && |sk| >= KeyWords(nr) && rk.Length >= KeyWords(nr)
    modifies rk
    ensures Reversed(sk, rk[..], nr) && rk[KeyWords(nr)..] == old(rk[KeyWords(nr)..])
  {
    var idx := if nr == 4 then 1 else 0;
    var s := 24 * 2 + 8 * idx * 2;
    ghost var base := s;
    assert base == KeyWords(nr) - 4;
    CopyWords(sk, s, rk, 0, 4);
    var r := 4;
    s := s + 4;
    s := s - 6;
    var i := 22 + 8 * idx;
    while i > 0
      invariant 0 <= i <= 22 + 8 * idx == Count(nr) && r == 4 + 2 * (Count(nr) - i) && s == 2 + 2 * i
      invariant forall q :: 0 <= q < r ==> rk[q] == sk[Mirror(q, KeyWords(nr))]
      invariant forall q :: KeyWords(nr) <= q < rk.Length ==> rk[q] == old(rk[q])
    {
      CopyWords(sk, s, rk, r, 2);
      r, s := r + 2, s + 2;
      i, s := i - 1, s - 4;
    }
    s := s - 2;
    CopyWords(sk, s, rk, r, 4);
    MirrorReverses(sk, rk[..], nr);
  }

  /** Where the q-th word of the decryption keys comes from, among n words. */
  function Mirror(q: nat, n: nat): (r: nat)
    requires q < n && n >= 8
    ensures r < n
  {
    if q < 4 then n - 4 + q
    else if q >= n - 4 then q - (n - 4)
    else if q % 2 == 0 then n - 2 - q
    else n - q
  }

  lemma MirrorReverses(rk: seq<Word>, rk': seq<Word>, nr: nat)
    requires nr >= 1 && |rk| >= KeyWords(nr) && |rk'| >= KeyWords(nr) && KeyWords(nr) % 2 == 0 && KeyWords(nr) >= 8
    requires forall q :: 0 <= q < KeyWords(nr) ==> rk'[q] == rk[Mirror(q, KeyWords(nr))]
    ensures Reversed(rk, rk', nr)
  {
    KeyRoom(nr);
    forall j | 0 <= j < Count(nr)
      ensures PairAt(rk', 4 + 2 * j) == PairAt(rk, 4 + 2 * (Count(nr) - 1 - j))
    {
      MirrorPair(4 + 2 * j, KeyWords(nr));
    }
  }

  /** Between the whitening keys the pairs change places as wholes. */
  lemma MirrorPair(q: nat, n: nat)
    requires 4 <= q && q + 1 < n - 4 && q % 2 == 0 && n % 2 == 0
    ensures Mirror(q, n) == n - 2 - q && Mirror(q + 1, n) == n - 2 - q + 1
  {}

  // ---- decryption undoes encryption ----

  lemma Mirrored(nr: nat, j: nat)
    requires nr >= 1 && j < Count(nr)
    ensures var d := Count(nr) - 1 - j;
            && (j % 8 == 6 <==> d % 8 == 7) && (j % 8 == 7 <==> d % 8 == 6)
            && (j % 8 < 6 ==> d % 8 < 6 && (j % 2 == 0 <==> d % 2 == 1))
  {
    var q, r := j / 8, j % 8;
    assert j == 8 * q + r;
    ModEight(j, q, r);
    var d := Count(nr) - 1 - j;
    assert d == 8 * (nr - 1 - q) + 5 - r;
    if r <= 5 { ModEight(d, nr - 1 - q, 5 - r); } else { ModEight(d, nr - 2 - q, 13 - r); }
  }

  lemma ModEight(d: int, k: int, w: int)
    requires d == 8 * k + w && 0 <= w < 8
    ensures d % 8 == w && d % 2 == w % 2
  {
    ModTwo(4 * k, w);
  }

  lemma ModTwo(k: int, w: int)
    ensures (2 * k + w) % 2 == w % 2
  {}

  /** Each step is undone by the step as far from the other end, on exchanged halves. */
  lemma StepBack(s: Boxes, nr: nat, j: nat, k: Pair, x: Block)
    requires nr >= 1 && j < Count(nr)
    ensures Step(s, Count(nr) - 1 - j, k, Swap(Step(s, j, k, x))) == Swap(x)
  {
    hide F, FL, FLInv, XorPair;
    Mirrored(nr, j);
    FLBack(x.l, k);
    FLBack(x.r, k);
    XorBack(x.l, F(s, x.r, k));
    XorBack(x.r, F(s, x.l, k));
  }

  /** So the steps with the subkeys reversed lead back, one by one. */
  lemma {:induction false} StepsBack(s: Boxes, nr: nat, ks: seq<Pair>, ks': seq<Pair>, m: nat, x: Block)
    requires nr >= 1 && |ks| == |ks'| == Count(nr) && m <= Count(nr)
    requires forall j :: 0 <= j < Count(nr) ==> ks'[j] == ks[Count(nr) - 1 - j]
    ensures Steps(s, ks', Count(nr) - m, Swap(Steps(s, ks, Count(nr), x))) == Swap(Steps(s, ks, m, x))
    decreases Count(nr) - m
  {
    hide Step;
    if m < Count(nr) {
      StepsBack(s, nr, ks, ks', m + 1, x);
      StepBack(s, nr, m, ks[m], Steps(s, ks, m, x));
    }
  }

  /** Decrypting with the reversed schedule what was encrypted gives the block back, for any S-boxes, any round
      keys, and the round counts of all key sizes. */
  lemma CryptBack(s: Boxes, nr: nat, rk: seq<Word>, rk': seq<Word>, x: Block)
    requires nr >= 1 && Reversed(rk, rk', nr)
    ensures Crypt(s, nr, rk', Crypt(s, nr, rk, x)) == x
  {
    hide Steps, Step, XorPair;
    var n := KeyWords(nr);
    var ks, ks' := Subkeys(rk, nr), Subkeys(rk', nr);
    var x0 := Block(XorPair(x.l, PairAt(rk, 0)), XorPair(x.r, PairAt(rk, 2)));
    var y := Steps(s, ks, Count(nr), x0);
    XorBack(y.r, PairAt(rk, n - 4));
    XorBack(y.l, PairAt(rk, n - 2));
    StepsBack(s, nr, ks, ks', 0, x0);
    StepsNone(s, ks, x0);
    XorBack(x.l, PairAt(rk, 0));
    XorBack(x.r, PairAt(rk, 2));
  }

  lemma StepsNone(s: Boxes, ks: seq<Pair>, x: Block)
    ensures Steps(s, ks, 0, x) == x
  {}

  // ---- the code ----

  /** camellia_feistel: the half at x changes the half at z of the block. */
  method Feistel(s: Boxes, xs: array<Word>, x: nat, key: Pair, z: nat)
    requires xs.Length == 4 && x in {0, 2} && z == 2 - x
    modifies xs
    ensures BlockOf(xs[..]) == var b := BlockOf(old(xs[..]));
      if x == 0 then Block(b.l, XorPair(b.r, F(s, b.l, key))) else Block(XorPair(b.l, F(s, b.r, key)), b.r)
  {
    hide F, Xor;
    var y := F(s, Pair(xs[x], xs[x + 1]), key);
    xs[z] := Xor(xs[z], y.a);
    xs[z + 1] := Xor(xs[z + 1], y.b);
  }

  function BlockOf(xs: seq<Word>): Block
    requires |xs| == 4
  {
    Block(Pair(xs[0], xs[1]), Pair(xs[2], xs[3]))
  }

  lemma RoundIs(s: Boxes, ks: seq<Pair>, j: nat, x: Block)
    requires j < |ks| && j % 8 < 6
    ensures Steps(s, ks, j + 1, x) == var b := Steps(s, ks, j, x);
      if j % 2 == 0 then Block(b.l, XorPair(b.r, F(s, b.l, ks[j]))) else Block(XorPair(b.l, F(s, b.r, ks[j])), b.r)
  {
    hide F, XorPair;
  }

  lemma BetweenIs(s: Boxes, ks: seq<Pair>, j: nat, x: Block)
    requires j + 2 <= |ks| && j % 8 == 6
    ensures Steps(s, ks, j + 2, x) == var b := Steps(s, ks, j, x); Block(FL(b.l, ks[j]), FLInv(b.r, ks[j + 1]))
  {
    hide FL, FLInv, F, XorPair, Steps;
    StepsNext(s, ks, j, x);
    StepsNext(s, ks, j + 1, x);
  }

  lemma StepsNext(s: Boxes, ks: seq<Pair>, j: nat, x: Block)
    requires j < |ks|
    ensures Steps(s, ks, j + 1, x) == Step(s, j, ks[j], Steps(s, ks, j, x))
  {
    hide Step;
  }

  lemma KeyRoom(nr: nat)
    requires nr >= 1
    ensures KeyWords(nr) == 2 * Count(nr) + 8
  {}

  lemma Subkey(rk: seq<Word>, nr: nat, j: nat)
    requires nr >= 1 && |rk| >= KeyWords(nr) && j < Count(nr)
    ensures Subkeys(rk, nr)[j] == PairAt(rk, 4 + 2 * j)
  {}

  /** The step with number j is a round on the right half, and the next a round on the left half. */
  ghost predicate Halfway(j: nat) { j % 8 in {0, 2, 4} }

  lemma Phase(j: nat)
    requires Halfway(j)
    ensures j % 8 < 6 && j % 2 == 0 && (j + 1) % 8 < 6 && (j + 1) % 2 == 1
  {
    var q, r := j / 8, j % 8;
    ModEight(j, q, r);
    ModEight(j + 1, q, r + 1);
  }

  /** Two rounds, the steps with numbers j and j + 1. */
  method TwoRounds(s: Boxes, xs: array<Word>, rk: seq<Word>, k: nat, ghost nr: nat, ghost j: nat, ghost x0: Block)
    requires xs.Length == 4 && nr >= 1 && |rk| >= KeyWords(nr) && Halfway(j) && j + 2 <= Count(nr) && k == 4 + 2 * j
    requires BlockOf(xs[..]) == Steps(s, Subkeys(rk, nr), j, x0)
    modifies xs
    ensures BlockOf(xs[..]) == Steps(s, Subkeys(rk, nr), j + 2, x0)
  {
    hide F, XorPair, BlockOf, PairAt, Steps, Subkeys, KeyWords, Count, Halfway;
    KeyRoom(nr);
    Phase(j);
    ghost var ks := Subkeys(rk, nr);
    Subkey(rk, nr, j);
    Subkey(rk, nr, j + 1);
    Feistel(s, xs, 0, PairAt(rk, k), 2);
    RoundIs(s, ks, j, x0);
    Feistel(s, xs, 2, PairAt(rk, k + 2), 0);
    RoundIs(s, ks, j + 1, x0);
  }

  /** The two macros between groups of rounds, the steps with numbers j and j + 1. */
  method BetweenGroups(s: Boxes, xs: array<Word>, rk: seq<Word>, k: nat, ghost nr: nat, ghost j: nat, ghost x0: Block)
    requires xs.Length == 4 && nr >= 1 && |rk| >= KeyWords(nr) && j % 8 == 6 && j + 2 <= Count(nr) && k == 4 + 2 * j
    requires BlockOf(xs[..]) == Steps(s, Subkeys(rk, nr), j, x0)
    modifies xs
    ensures BlockOf(xs[..]) == Steps(s, Subkeys(rk, nr), j + 2, x0)
  {
    hide FL, FLInv, PairAt, Subkeys, Steps;
    ghost var ks := Subkeys(rk, nr);
    BetweenIs(s, ks, j, x0);
    Subkey(rk, nr, j);
    Subkey(rk, nr, j + 1);
    var y := FL(Pair(xs[0], xs[1]), PairAt(rk, k));
    xs[0], xs[1] := y.a, y.b;
    y := FLInv(Pair(xs[2], xs[3]), PairAt(rk, k + 2));
    xs[2], xs[3] := y.a, y.b;
  }

  lemma GroupSteps(j: nat, g: nat)
    requires j == 8 * g
    ensures Halfway(j) && Halfway(j + 2) && Halfway(j + 4) && (j + 6) % 8 == 6
  {
    ModEight(j, g, 0);
    ModEight(j + 2, g, 2);
    ModEight(j + 4, g, 4);
    ModEight(j + 6, g, 6);
  }

  /** The middle of mbedtls_camellia_crypt_ecb, on the four words of a block. */
  method CryptWords(s: Boxes, nr: nat, rk: seq<Word>, input: Block) returns (output: Block)
    requires nr >= 1 && |rk| >= KeyWords(nr)
    ensures output == Crypt(s, nr, rk, input) && Ciphered(s, nr, rk, input, output)
  {
    hide Steps, Subkeys, Xor, Halfway, Ciphered;
    CipherSteps(s, nr, rk, input);
    var xs := new Word[4];
    xs[0], xs[1] := Xor(input.l.a, rk[0]), Xor(input.l.b, rk[1]);
    xs[2], xs[3] := Xor(input.r.a, rk[2]), Xor(input.r.b, rk[3]);
    ghost var x0 := BlockOf(xs[..]);
    StepsNone(s, Subkeys(rk, nr), x0);
    var left, k: nat := nr, 4;
    while left > 0
      invariant 0 <= left <= nr
      invariant k == if left > 0 then 4 + 16 * (nr - left) else 4 + 2 * Count(nr)
      invariant BlockOf(xs[..]) == Steps(s, Subkeys(rk, nr), if left > 0 then 8 * (nr - left) else Count(nr), x0)
    {
      ghost var j := 8 * (nr - left);
      GroupSteps(j, nr - left);
      left := left - 1;
      TwoRounds(s, xs, rk, k, nr, j, x0);
      TwoRounds(s, xs, rk, k + 4, nr, j + 2, x0);
      TwoRounds(s, xs, rk, k + 8, nr, j + 4, x0);
      k := k + 12;
      if left > 0 {
        BetweenGroups(s, xs, rk, k, nr, j + 6, x0);
        k := k + 4;
      }
    }
    output := Block(Pair(Xor(xs[2], rk[k]), Xor(xs[3], rk[k + 1])), Pair(Xor(xs[0], rk[k + 2]), Xor(xs[1], rk[k + 3])));
  }

  /** The bytes of a block, most significant first in each word. */
  function WordAt(b: seq<bv8>, i: nat): Word
    requires i + 4 <= |b|
  {
    Join(b[i], b[i + 1], b[i + 2], b[i + 3])
  }

  function BlockAt(b: seq<bv8>): Block
    requires |b| >= 16
  {
    Block(Pair(WordAt(b, 0), WordAt(b, 4)), Pair(WordAt(b, 8), WordAt(b, 12)))
  }

  lemma JoinBytes(x: Word)
    ensures Join(ByteAt(x, 24), ByteAt(x, 16), ByteAt(x, 8), ByteAt(x, 0)) == x
  {}

  /** PUT_UINT32_BE. */
  method PutWord(output: array<bv8>, i: nat, x: Word)
    requires i + 4 <= output.Length
    modifies output
    ensures WordAt(output[..], i) == x
    ensures forall j :: 0 <= j < output.Length && !(i <= j < i + 4) ==> output[j] == old(output[j])
  {
    hide Join, ByteAt;
    output[i], output[i + 1], output[i + 2], output[i + 3] := ByteAt(x, 24), ByteAt(x, 16), ByteAt(x, 8), ByteAt(x, 0);
    JoinBytes(x);
  }

  /** mbedtls_camellia_crypt_ecb; input and output may be the same buffer. */
  method CryptEcb(s: Boxes, nr: nat, rk: seq<Word>, input: array<bv8>, output: array<bv8>)
    requires nr >= 1 && |rk| >= KeyWords(nr) && input.Length >= 16 && output.Length >= 16
    modifies output
    ensures BlockAt(output[..]) == Crypt(s, nr, rk, BlockAt(old(input[..])))
    ensures Ciphered(s, nr, rk, BlockAt(old(input[..])), BlockAt(output[..]))
    ensures output[16..] == old(output[16..])
  {
    hide Crypt, Ciphered, Join;
    var x := CryptWords(s, nr, rk, BlockAt(input[..]));
    PutWord(output, 0, x.l.a);
    PutWord(output, 4, x.l.b);
    PutWord(output, 8, x.r.a);
    PutWord(output, 12, x.r.b);
  }

  /** A word has one list of bytes. */
  lemma SameBytes(x: bv8, y: bv8, z: bv8, w: bv8, a: bv8, b: bv8, c: bv8, d: bv8)
    requires Join(x, y, z, w) == Join(a, b, c, d)
    ensures x == a && y == b && z == c && w == d
  {
    hide Join, EightOf;
    JoinEight(x, y, z, w, x, y, z, w);
    JoinEight(a, b, c, d, a, b, c, d);
  }

  lemma SameBlocks(a: seq<bv8>, b: seq<bv8>)
    requires |a| >= 16 && |b| >= 16 && BlockAt(a) == BlockAt(b)
    ensures a[..16] == b[..16]
  {
    hide Join;
    SameBytes(a[0], a[1], a[2], a[3], b[0], b[1], b[2], b[3]);
    SameBytes(a[4], a[5], a[6], a[7], b[4], b[5], b[6], b[7]);
    SameBytes(a[8], a[9], a[10], a[11], b[8], b[9], b[10], b[11]);
    SameBytes(a[12], a[13], a[14], a[15], b[12], b[13], b[14], b[15]);
  }

  /** The three together: the code run with the keys of mbedtls_camellia_setkey_dec undoes the code run with SK. */
  method EncryptThenDecrypt(s: Boxes, nr: nat, sk: seq<Word>, buffer: array<bv8>)
    requires (nr == 3 || nr == 4) && |sk| >= KeyWords(nr) && buffer.Length >= 16
    modifies buffer
    ensures buffer[..] == old(buffer[..])
  {
    hide Crypt, Reversed, Ciphered, BlockAt;
    var rk := new Word[68];
    SetkeyDec(sk, nr, rk);
    CryptEcb(s, nr, sk, buffer, buffer);
    CryptEcb(s, nr, rk[..], buffer, buffer);
    CryptBack(s, nr, sk, rk[..], BlockAt(old(buffer[..])));
    SameBlocks(buffer[..], old(buffer[..]));
    assert buffer[..] == buffer[..][..16] + buffer[16..];
  }
}
