/** The ring buffer of the log, whose 32-bit counters run freely and are reduced to an index with a mask. */
module Fifo {
  import opened Bytes
  import opened Bits
  import opened Limbs


  // ---- the size ----

  /** One round of the search: if the n top bits of x are clear, shift them out. */
  method ShiftOut(x: nat, r: nat, ghost k: nat, n: nat, mask: nat, ghost x0: nat) returns (x': nat, r': nat)
    requires k + n == 32 && n < r <= 32 && x < Pow2(32) && mask == Shl(Pow2(n) - 1, k) && x == x0 * Pow2(32 - r)
    ensures n < r ==> 0 < r' <= r && r' >= r - n
    ensures x' < Pow2(32) && x' == x0 * Pow2(32 - r')
    ensures x < Pow2(k) ==> x' == x * Pow2(n) && r' == r - n
    ensures x >= Pow2(k) ==> x' == x && r' == r
  {
    hide BitAnd, Shl, Pow2;
    TopBits(x, k, n);
    x', r' := x, r;
    if BitAnd(x, mask) == 0 {
      Pow2Add(k, n);
      Pow2Add(32 - r, n);
      Scale(x, Pow2(k), Pow2(n));
      assert x0 * (Pow2(32 - r) * Pow2(n)) == (x0 * Pow2(32 - r)) * Pow2(n);
      FloorIs(x * Pow2(n), 0, Pow2(32), x * Pow2(n));
      x' := x * Pow2(n) % Pow2(32);
      r' := r - n;
    }
  }

  lemma Scale(x: nat, a: nat, b: nat)
    requires x < a && b > 0
    ensures x * b < a * b
  {}

  lemma Words()
    ensures Pow2(1) == 2 && Pow2(2) == 4 && Pow2(4) == 16 && Pow2(8) == 256 && Pow2(16) == 65536 && Pow2(32) == WORD
      && Pow2(31) == 2147483648
    ensures Pow2(24) == 16777216 && Pow2(28) == 268435456 && Pow2(30) == 1073741824
  {
    Pow2Add(16, 16);
    Pow2Add(8, 8);
    Pow2Add(16, 8);
    Pow2Add(24, 4);
    Pow2Add(28, 2);
    Pow2Add(30, 1);
  }

  lemma Masks()
    ensures Shl(Pow2(16) - 1, 16) == 0xffff0000 && Shl(Pow2(8) - 1, 24) == 0xff000000
      && Shl(Pow2(4) - 1, 28) == 0xf0000000
    ensures Shl(Pow2(2) - 1, 30) == 0xc0000000 && Shl(Pow2(1) - 1, 31) == 0x80000000
  {
    hide Shl;
    Words();
    ShlTwo(65535, 16);
    ShlTwo(255, 24);
    ShlTwo(15, 28);
    ShlTwo(3, 30);
    ShlTwo(1, 31);
  }

  /** _flbs: the number of the last bit set, counted from one. */
  method Flbs(x: nat) returns (r: nat)
    requires x < WORD
    ensures x == 0 ==> r == 0
    ensures x > 0 ==> 1 <= r <= 32 && Pow2(r - 1) <= x < Pow2(r)
  {
    hide Pow2, Shl;
    if x == 0 {
      return 0;
    }
    Words();
    Masks();
    Pow2OfZero();
    var y: nat := x;
    r := 32;
    y, r := ShiftOut(y, r, 16, 16, 0xffff0000, x);
    y, r := ShiftOut(y, r, 24, 8, 0xff000000, x);
    y, r := ShiftOut(y, r, 28, 4, 0xf0000000, x);
    y, r := ShiftOut(y, r, 30, 2, 0xc0000000, x);
    y, r := ShiftOut(y, r, 31, 1, 0x80000000, x);
    Pow2Add(32 - r, r - 1);
    Pow2Add(32 - r, r);
    Descale(x, Pow2(32 - r), Pow2(r - 1), Pow2(r));
  }

  lemma Pow2OfZero()
    ensures Pow2(0) == 1
  {}

  lemma Descale(x: nat, t: nat, lo: nat, hi: nat)
    requires t > 0 && t * lo <= x * t < t * hi
    ensures lo <= x < hi
  {
    if x < lo { Scale(x, lo, t); }
    if x >= hi { MulMono(hi, x, t); }
  }

  /** The size a buffer gets: the asked for size if that is a power of two, else the largest one below. */
  ghost predicate SizeFor(asked: nat, size: nat) {
    IsTwo(size) && size <= asked < 2 * size && (IsTwo(asked) ==> size == asked)
  }

  /** The rounding of salof_fifo_create. */
  method RoundSize(asked: nat) returns (size: nat)
    requires 0 < asked < WORD
    ensures SizeFor(asked, size)
  {
    hide BitAnd;
    PowerCheck(asked);
    size := asked;
    if BitAnd(asked, asked - 1) != 0 {
      var r := Flbs(asked - 1);
      size := Pow2(r - 1);
      Pow2IsTwo(r - 1);
      assert Pow2(r) == 2 * size;
      Pow2IsTwo(r);
    }
  }

  // ---- indexes ----

  /** A power of two that fits a word divides it. */
  lemma {:induction false} WordMultiple(n: nat) returns (c: nat)
    requires IsTwo(n) && n <= WORD
    ensures n * c == WORD
  {
    Words();
    c := PowerMultiple(n, 32);
  }

  lemma {:induction false} PowerMultiple(n: nat, k: nat) returns (c: nat)
    requires IsTwo(n) && n <= Pow2(k)
    ensures n * c == Pow2(k)
    decreases n
  {
    if n == 1 {
      c := Pow2(k);
    } else {
      assert k > 0;
      c := PowerMultiple(n / 2, k - 1);
      assert n * c == 2 * ((n / 2) * c);
    }
  }

  /** Reducing a counter to a word does not change its index. */
  lemma IndexOfWord(x: nat, size: nat)
    requires IsTwo(size) && size <= WORD
    ensures (x % WORD) % size == x % size
  {
    var c := WordMultiple(size);
    ModMod(x, size, c, WORD);
  }

  /** The index d places on, or back. */
  lemma IndexOn(x: nat, d: nat, size: nat)
    requires 0 < size && d <= size
    ensures (x + d) % size == if x % size + d < size then x % size + d else x % size + d - size
  {
    var q, r := x / size, x % size;
    assert size * (q + 1) == size * q + size;
    if r + d < size {
      FloorIs(x + d, q, size, r + d);
    } else {
      FloorIs(x + d, q + 1, size, r + d - size);
    }
  }

  /** The difference of two counters, reduced to a word. */
  lemma Held(size: nat, a: nat, t: nat)
    requires t <= a <= t + size && size < WORD
    ensures (size - a % WORD + t % WORD) % WORD == size - (a - t)
    ensures (a % WORD - t % WORD) % WORD == a - t
  {
    var qa, qt := a / WORD, t / WORD;
    assert size - a % WORD + t % WORD == size - (a - t) + WORD * (qa - qt);
    assert a % WORD - t % WORD == a - t - WORD * (qa - qt);
  }

  /** The place of the k-th byte. */
  function Slot(k: nat, size: nat): (r: nat)
    requires size > 0
    ensures r < size
  {
    k % size
  }

  /** Masking a counter gives the place of the byte it counts. */
  lemma MaskIsSlot(x: nat, size: nat)
    requires IsTwo(size) && 0 < size <= WORD
    ensures BitAnd(x % WORD, size - 1) == Slot(x, size)
  {
    MaskIsMod(x % WORD, size);
    IndexOfWord(x, size);
  }

  class Ring {
    const size: nat
    const buff: array<byte>
    var wr: nat
    var rd: nat
    /** All bytes ever accepted, and all ever handed out. */
    ghost var accepted: seq<byte>
    ghost var taken: seq<byte>

    ghost predicate Valid()
      reads this, buff
    {
      && IsTwo(size) && 0 < size < 2147483648 && buff.Length == size
      && wr == |accepted| % WORD && rd == |taken| % WORD
      && |taken| <= |accepted| <= |taken| + size
      && taken == accepted[..|taken|]
      && forall k :: |taken| <= k < |accepted| ==> buff[Slot(k, size)] == accepted[k]
    }

    /** salof_fifo_create, for a size below half of the counters' range. */
    constructor (asked: nat)
      requires 0 < asked < 2147483648
      ensures Valid() && fresh(buff) && SizeFor(asked, size) && accepted == [] && taken == []
    {
      var s := RoundSize(asked);
      size := s;
      buff := new byte[s];
      wr, rd, accepted, taken := 0, 0, [], [];
    }

    /** salof_fifo_write: as many bytes as there is room for, from the front of the data. */
    method Write(data: seq<byte>, locked: bool) returns (len: nat)
      requires Valid() && |data| < WORD
      modifies this`wr, this`accepted, buff
      ensures Valid() && taken <= accepted && |accepted| - |taken| <= size
      ensures len == if !locked then 0 else Min(|data|, size - (|old(accepted)| - |taken|))
      ensures accepted == old(accepted) + data[..len]
    {
      hide IsTwo, BitAnd, Slot, Copied;
      if |data| == 0 || !locked {
        assert accepted + data[..0] == accepted;
        return 0;
      }
      ghost var a, t, b := |accepted|, |taken|, buff[..];
      Held(size, a, t);
      MaskIsSlot(a, size);
      len := Min(|data|, (size - wr + rd) % WORD);
      CopyIn(data, len);
      wr := (wr + len) % WORD;
      accepted := accepted + data[..len];
      AllInPlace(b, buff[..], data, accepted, a, t, len, size);
      WordSum(a, len);
    }

    /** The two copies: up to the end of the buffer, and the rest at its start. */
    method CopyIn(data: seq<byte>, len: nat)
      requires 0 < size == buff.Length && len <= |data| && len <= size && BitAnd(wr, size - 1) < size
      modifies buff
      ensures Copied(old(buff[..]), buff[..], data, BitAnd(wr, size - 1), len, size)
    {
      hide BitAnd, Splice;
      var off := BitAnd(wr, size - 1);
      var l := Min(len, size - off);
      var p := CopyBytes(buff, off, data[..l]);
      p := CopyBytes(buff, 0, data[l..len]);
    }

    /** salof_fifo_read: as many bytes as are held, oldest first. */
    method Read(max: nat) returns (data: seq<byte>)
      requires Valid() && max < WORD
      modifies this`rd, this`taken
      ensures Valid() && taken <= accepted && |accepted| - |taken| <= size
      ensures |data| == Min(max, |accepted| - |old(taken)|)
      ensures taken == old(taken) + data
    {
      hide IsTwo, BitAnd, Slot;
      if max == 0 {
        assert taken + [] == taken;
        return [];
      }
      ghost var a, t := |accepted|, |taken|;
      Held(size, a, t);
      MaskIsSlot(t, size);
      var len := Min(max, (wr - rd) % WORD);
      data := CopyOut(len);
      HandedOut(buff[..], accepted, data, t, len, size);
      rd := (rd + len) % WORD;
      taken := taken + data;
      WordSum(t, len);
    }

    method CopyOut(len: nat) returns (data: seq<byte>)
      requires 0 < size == buff.Length && len <= size && BitAnd(rd, size - 1) < size
      ensures |data| == len
      ensures var off := BitAnd(rd, size - 1);
              forall i :: 0 <= i < len ==> data[i] == buff[if off + i < size then off + i else off + i - size]
    {
      hide BitAnd;
      var off := BitAnd(rd, size - 1);
      var l := Min(len, size - off);
      data := buff[off..off + l] + buff[..len - l];
    }
  }

  /** What is read from the places of the next bytes are the next bytes. */
  lemma HandedOut(b: seq<byte>, all: seq<byte>, data: seq<byte>, t: nat, len: nat, size: nat)
    requires 0 < size == |b| && |data| == len <= size && t + len <= |all|
    requires forall k :: t <= k < |all| ==> b[Slot(k, size)] == all[k]
    requires var off := Slot(t, size);
             forall i :: 0 <= i < len ==> data[i] == b[if off + i < size then off + i else off + i - size]
    ensures all[..t] + data == all[..t + len]
  {
    hide Slot;
    forall i | 0 <= i < len ensures data[i] == all[t + i] {
      SlotOn(t, i, size);
      assert b[Slot(t + i, size)] == all[t + i];
    }
    assert data == all[t..t + len];
  }

  lemma SlotOn(x: nat, d: nat, size: nat)
    requires 0 < size && d <= size
    ensures Slot(x + d, size) == if Slot(x, size) + d < size then Slot(x, size) + d else Slot(x, size) + d - size
  {
    IndexOn(x, d, size);
  }

  function Min(a: nat, b: nat): nat { if a < b then a else b }

  lemma WordSum(a: nat, len: nat)
    ensures (a % WORD + len) % WORD == (a + len) % WORD
  {
    assert a + len == a % WORD + len + WORD * (a / WORD);
  }

  /** The buffer after the two copies of a write. */
  ghost predicate Copied(b: seq<byte>, c: seq<byte>, data: seq<byte>, off: nat, len: nat, size: nat)
    requires off < size == |b| && len <= |data| && len <= size
  {
    var l := Min(len, size - off);
    c == Splice(Splice(b, off, data[..l]), 0, data[l..len])
  }

  /** After a write every byte that is held is in its place. */
  lemma AllInPlace(b: seq<byte>, c: seq<byte>, data: seq<byte>, all: seq<byte>, a: nat, t: nat, len: nat, size: nat)
    requires 0 < size == |b| == |c| && len <= |data| && t <= a <= t + size - len && len <= size
    requires Copied(b, c, data, Slot(a, size), len, size)
    requires |all| == a + len && all[a..] == data[..len] && forall k :: t <= k < a ==> b[Slot(k, size)] == all[k]
    ensures forall k :: t <= k < a + len ==> c[Slot(k, size)] == all[k]
  {
    hide Slot, Copied;
    forall k | t <= k < a + len ensures c[Slot(k, size)] == all[k] {
      if k < a {
        Untouched(b, c, data, a, k, len, size);
      } else {
        Touched(b, c, data, a, k - a, len, size);
        assert all[k] == all[a..][k - a];
      }
    }
  }

  /** A byte held before is still in its place: it lies between the written part and the next time round. */
  lemma Untouched(b: seq<byte>, c: seq<byte>, data: seq<byte>, a: nat, k: nat, len: nat, size: nat)
    requires 0 < size == |b| && len <= |data| && k < a && a - k + len <= size
      && Copied(b, c, data, Slot(a, size), len, size)
    ensures c[Slot(k, size)] == b[Slot(k, size)]
  {
    hide Slot;
    SlotOn(k, a - k, size);
  }

  /** A written byte is in its place. */
  lemma Touched(b: seq<byte>, c: seq<byte>, data: seq<byte>, a: nat, i: nat, len: nat, size: nat)
    requires 0 < size == |b| && i < len <= |data| && len <= size && Copied(b, c, data, Slot(a, size), len, size)
    ensures c[Slot(a + i, size)] == data[i]
  {
    hide Slot;
    SlotOn(a, i, size);
  }
}
