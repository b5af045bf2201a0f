/** The XTS mode with ciphertext stealing, over any invertible block cipher, any encryption of the data unit
    number and any tweak update (sections 5.3 and 5.4 of IEEE 1619). */
module Xts {

  type Block = b: seq<bv8> | |b| == 16 witness seq(16, _ => 0)

  datatype Mode = Encrypt | Decrypt

  /** The block cipher under the data key, in both directions, the encryption of the tweak, and the update. */
  datatype Cipher = Cipher(enc: Block -> Block, dec: Block -> Block, start: Block -> Block, next: Block -> Block)

  ghost predicate Invertible(c: Cipher) { forall b: Block :: c.dec(c.enc(b)) == b }

  const INVALID_INPUT_LENGTH := -0x0022
  const MAX_LENGTH: nat := 1048576 * 16

  function XorByte(x: bv8, y: bv8): bv8 { x ^ y }

  function Xor(a: Block, b: Block): (r: Block)
    ensures forall i :: 0 <= i < 16 ==> r[i] == XorByte(a[i], b[i])
  {
    seq(16, i requires 0 <= i < 16 => XorByte(a[i], b[i]))
  }

  function Ecb(c: Cipher, mode: Mode, b: Block): Block { if mode == Encrypt then c.enc(b) else c.dec(b) }

  /** One block under one tweak. */
  function Tweaked(c: Cipher, mode: Mode, b: Block, t: Block): Block { Xor(Ecb(c, mode, Xor(b, t)), t) }

  /** A whole data unit from tweak t on. In the last 16 to 31 bytes the second block takes the end of the
      first; decryption uses the two tweaks there in the other order. */
  function Crypt(c: Cipher, mode: Mode, t: Block, d: seq<bv8>): (r: seq<bv8>)
    requires |d| >= 16
    ensures |r| == |d|
    decreases |d|
  {
    if |d| == 16 then Tweaked(c, mode, d, t)
    else if |d| >= 32 then Tweaked(c, mode, d[..16], t) + Crypt(c, mode, c.next(t), d[16..])
    else
      var n := |d| - 16;
      var first, second := if mode == Encrypt then t else c.next(t), if mode == Encrypt then c.next(t) else t;
      var whole := Tweaked(c, mode, d[..16], first);
      Tweaked(c, mode, d[16..] + whole[n..], second) + whole[..n]
  }

  // ---- decryption undoes encryption ----

  lemma XorTwice(a: Block, t: Block)
    ensures Xor(Xor(a, t), t) == a
  {
    forall i | 0 <= i < 16 ensures Xor(Xor(a, t), t)[i] == a[i] { XorBits(a[i], t[i]); }
  }

  lemma XorBits(x: bv8, y: bv8)
    ensures XorByte(XorByte(x, y), y) == x
  {}

  lemma TweakedBack(c: Cipher, b: Block, t: Block)
    requires Invertible(c)
    ensures Tweaked(c, Decrypt, Tweaked(c, Encrypt, b, t), t) == b
  {
    var x := Xor(b, t);
    XorTwice(c.enc(x), t);
    XorTwice(b, t);
  }

  /** For every length from 16 on, decrypting what was encrypted gives it back. */
  lemma {:induction false} CryptBack(c: Cipher, t: Block, d: seq<bv8>)
    requires Invertible(c) && |d| >= 16
    ensures Crypt(c, Decrypt, t, Crypt(c, Encrypt, t, d)) == d
    decreases |d|
  {
    hide Tweaked;
    var e := Crypt(c, Encrypt, t, d);
    if |d| == 16 {
      TweakedBack(c, d, t);
    } else if |d| >= 32 {
      TweakedBack(c, d[..16], t);
      CryptBack(c, c.next(t), d[16..]);
      assert e[..16] == Tweaked(c, Encrypt, d[..16], t) && e[16..] == Crypt(c, Encrypt, c.next(t), d[16..]);
      assert d == d[..16] + d[16..];
    } else {
      StolenBack(c, t, d);
    }
  }

  lemma StolenBack(c: Cipher, t: Block, d: seq<bv8>)
    requires Invertible(c) && 16 < |d| < 32
    ensures Crypt(c, Decrypt, t, Crypt(c, Encrypt, t, d)) == d
  {
    hide Tweaked;
    var n, e := |d| - 16, Crypt(c, Encrypt, t, d);
    var whole := Tweaked(c, Encrypt, d[..16], t);
    var joined: Block := d[16..] + whole[n..];
    assert e[..16] == Tweaked(c, Encrypt, joined, c.next(t)) && e[16..] == whole[..n];
    TweakedBack(c, joined, c.next(t));
    var back := Tweaked(c, Decrypt, e[..16], c.next(t));
    assert back == joined && back[n..] == whole[n..] && back[..n] == d[16..];
    assert e[16..] + back[n..] == whole;
    TweakedBack(c, d[..16], t);
    assert d == d[..16] + d[16..];
  }

  // ---- what the standard says, byte by byte ----

  /** The tweaks of a data unit, one for each block and one more. */
  ghost predicate Tweaks(c: Cipher, t: Block, ts: seq<Block>, n: nat) {
    |ts| == n + 1 && ts[0] == t && forall j :: 0 <= j < n ==> ts[j + 1] == c.next(ts[j])
  }

  ghost predicate Masked(x: Block, t: Block, y: Block) { forall k :: 0 <= k < 16 ==> y[k] == x[k] ^ t[k] }

  /** The block y comes from x under tweak t: both sides of the block cipher are masked with the tweak. */
  ghost predicate Ciphered(c: Cipher, mode: Mode, x: Block, t: Block, y: Block) {
    exists b: Block :: Masked(x, t, b) && Masked(if mode == Encrypt then c.enc(b) else c.dec(b), t, y)
  }

  /** The last whole block at `at`, and fewer than 16 bytes behind it: the block comes out as `whole`, its start
      goes to the end, and what it leaves completes the bytes that are left over. Decryption uses the two tweaks
      in the other order. */
  ghost predicate Stolen(c: Cipher, mode: Mode, t: Block, u: Block, d: seq<bv8>, out: seq<bv8>, at: nat)
    requires |d| == |out| && at + 16 <= |d| < at + 32
  {
    exists whole :: StolenFrom(c, mode, t, u, d, out, at, whole)
  }

  ghost predicate StolenFrom(c: Cipher, mode: Mode, t: Block, u: Block, d: seq<bv8>, out: seq<bv8>, at: nat,
    whole: Block)
    requires |d| == |out| && at + 16 <= |d| < at + 32
  {
    var left := |d| - at - 16;
    var first, second := if mode == Encrypt then t else u, if mode == Encrypt then u else t;
    && Ciphered(c, mode, d[at..at + 16], first, whole) && out[at + 16..] == whole[..left]
    && Ciphered(c, mode, d[at + 16..] + whole[left..], second, out[at..at + 16])
  }

  /** The data unit d comes out as `out` under the tweaks ts. */
  ghost predicate UnitIs(c: Cipher, mode: Mode, ts: seq<Block>, d: seq<bv8>, out: seq<bv8>)
    requires |d| == |out| && |ts| == |d| / 16 + 1 && |d| >= 16
  {
    var m, left := |d| / 16, |d| % 16;
    && (forall j :: 0 <= j < m && (left > 0 ==> j < m - 1) ==>
          Ciphered(c, mode, d[16 * j..16 * j + 16], ts[j], out[16 * j..16 * j + 16]))
    && (left > 0 ==> Stolen(c, mode, ts[m - 1], ts[m], d, out, 16 * (m - 1)))
  }

  lemma TweakedBytes(c: Cipher, mode: Mode, x: Block, t: Block)
    ensures Ciphered(c, mode, x, t, Tweaked(c, mode, x, t))
  {
    var b := Xor(x, t);
    assert Masked(x, t, b);
    assert Masked(if mode == Encrypt then c.enc(b) else c.dec(b), t, Tweaked(c, mode, x, t));
  }

  lemma {:induction false} TweaksAre(c: Cipher, t: Block, ts: seq<Block>, n: nat, j: nat)
    requires Tweaks(c, t, ts, n) && j <= n
    ensures ts[j] == TweakAt(c, t, j)
    decreases j
  {
    if j > 0 {
      TweaksAre(c, t, ts, n, j - 1);
    }
  }

  /** For every length from 16 on, the result is what the standard says. */
  lemma UnitBytes(c: Cipher, mode: Mode, t: Block, ts: seq<Block>, d: seq<bv8>)
    requires |d| >= 16 && Tweaks(c, t, ts, |d| / 16)
    ensures UnitIs(c, mode, ts, d, Crypt(c, mode, t, d))
  {
    hide Crypt, Tweaked, Ciphered, TweakAt;
    var m, left, out := |d| / 16, |d| % 16, Crypt(c, mode, t, d);
    forall j | 0 <= j < m && (left > 0 ==> j < m - 1)
      ensures Ciphered(c, mode, d[16 * j..16 * j + 16], ts[j], out[16 * j..16 * j + 16])
    {
      WholeBytes(c, mode, t, ts, d, j);
    }
    if left > 0 {
      StolenBytes(c, mode, t, ts, d, m, 16 * (m - 1));
    }
  }

  lemma WholeBytes(c: Cipher, mode: Mode, t: Block, ts: seq<Block>, d: seq<bv8>, j: nat)
    requires |d| >= 16 && Tweaks(c, t, ts, |d| / 16) && j < |d| / 16 && (|d| % 16 > 0 ==> j < |d| / 16 - 1)
    ensures Ciphered(c, mode, d[16 * j..16 * j + 16], ts[j], Crypt(c, mode, t, d)[16 * j..16 * j + 16])
  {
    hide Crypt, Tweaked, Ciphered, TweakAt;
    TweaksAre(c, t, ts, |d| / 16, j);
    var rest := d[16 * j..];
    WholeBlocks(|d|);
    CryptSplit(c, mode, t, d, j);
    FirstBlock(c, mode, ts[j], rest);
    assert Crypt(c, mode, t, d)[16 * j..16 * j + 16] == Crypt(c, mode, t, d)[16 * j..][..16];
    assert rest[..16] == d[16 * j..16 * j + 16];
    TweakedBytes(c, mode, rest[..16], ts[j]);
  }

  lemma StolenBytes(c: Cipher, mode: Mode, t: Block, ts: seq<Block>, d: seq<bv8>, m: nat, at: nat)
    requires |d| >= 16 && Tweaks(c, t, ts, |d| / 16) && |d| % 16 > 0 && m == |d| / 16 && at == 16 * (m - 1)
    ensures |Crypt(c, mode, t, d)| == |d| && at + 16 <= |d| < at + 32
    ensures Stolen(c, mode, ts[m - 1], ts[m], d, Crypt(c, mode, t, d), at)
  {
    hide Crypt, Tweaked, Ciphered, TweakAt;
    TweaksAre(c, t, ts, m, m - 1);
    TweaksAre(c, t, ts, m, m);
    NextTweak(c, t, m - 1);
    CryptSplit(c, mode, t, d, m - 1);
    var out, rest := Crypt(c, mode, t, d), d[at..];
    var first, second :=
      if mode == Encrypt then ts[m - 1] else ts[m], if mode == Encrypt then ts[m] else ts[m - 1];
    var whole := Tweaked(c, mode, d[at..at + 16], first);
    assert rest[..16] == d[at..at + 16] && rest[16..] == d[at + 16..];
    LastTwo(c, mode, ts[m - 1], rest, whole, second);
    TweakedBytes(c, mode, d[at..at + 16], first);
    var joined: Block := d[at + 16..] + whole[|d| - at - 16..];
    TweakedBytes(c, mode, joined, second);
    assert out[at..] == Tweaked(c, mode, joined, second) + whole[..|d| - at - 16];
    assert out[at + 16..] == out[at..][16..] && out[at..at + 16] == out[at..][..16];
    assert StolenFrom(c, mode, ts[m - 1], ts[m], d, out, at, whole);
  }

  // ---- the code ----

  /** XOR of n bytes of a buffer with a tweak, into the block being worked on. */
  method XorInto(tmp: array<bv8>, from: nat, input: array<bv8>, at: nat, n: nat, t: Block)
    requires tmp.Length == 16 && tmp != input && from + n <= 16 && at + n <= input.Length
    modifies tmp
    ensures forall k :: 0 <= k < 16 ==> tmp[k] == if from <= k < from + n then XorByte(input[at + k - from], t[k])
      else old(tmp[k])
  {
    hide XorByte;
    var i := 0;
    while i < n
      invariant 0 <= i <= n && forall k :: 0 <= k < 16 ==>
        tmp[k] == if from <= k < from + i then XorByte(input[at + k - from], t[k]) else old(tmp[k])
    {
      tmp[from + i] := XorByte(input[at + i], t[from + i]);
      i := i + 1;
    }
  }

  lemma XorFilled(tmp: seq<bv8>, b: Block, t: Block)
    requires |tmp| == 16 && forall k :: 0 <= k < 16 ==> tmp[k] == XorByte(b[k], t[k])
    ensures tmp == Xor(b, t)
  {
    hide XorByte;
  }

  method PutXor(output: array<bv8>, at: nat, tmp: Block, t: Block)
    requires at + 16 <= output.Length
    modifies output
    ensures output[..] == old(output[..at]) + Xor(tmp, t) + old(output[at + 16..])
  {
    hide XorByte;
    var i := 0;
    while i < 16
      invariant 0 <= i <= 16 && forall k :: 0 <= k < output.Length ==>
        output[k] == if at <= k < at + i then XorByte(tmp[k - at], t[k - at]) else old(output[k])
    {
      output[at + i] := XorByte(tmp[i], t[i]);
      i := i + 1;
    }
  }

  /** One whole block from input to output under tweak t. */
  method PassBlock(c: Cipher, mode: Mode, input: array<bv8>, output: array<bv8>, at: nat, t: Block)
    requires input != output && at + 16 <= input.Length && at + 16 <= output.Length
    modifies output
    ensures output[..] == old(output[..at]) + Tweaked(c, mode, input[at..at + 16], t) + old(output[at + 16..])
  {
    hide Xor;
    var tmp := new bv8[16];
    XorInto(tmp, 0, input, at, 16, t);
    XorFilled(tmp[..], input[at..at + 16], t);
    PutXor(output, at, Ecb(c, mode, tmp[..]), t);
  }

  /** The tweak before the i-th block. */
  function TweakAt(c: Cipher, t: Block, i: nat): Block { if i == 0 then t else c.next(TweakAt(c, t, i - 1)) }

  /** The output when i whole blocks have been passed on a data unit that is cut at whole blocks. */
  lemma {:induction false} CryptSplit(c: Cipher, mode: Mode, t: Block, d: seq<bv8>, i: nat)
    requires |d| >= 16 * i + 16
    ensures |Crypt(c, mode, t, d)| == |d|
    ensures Crypt(c, mode, t, d)[16 * i..] == Crypt(c, mode, TweakAt(c, t, i), d[16 * i..])
    decreases i
  {
    if i > 0 {
      CryptSplit(c, mode, t, d, i - 1);
      var u := d[16 * (i - 1)..];
      assert u[16..] == d[16 * i..];
      assert Crypt(c, mode, t, d)[16 * (i - 1)..][16..] == Crypt(c, mode, t, d)[16 * i..];
    }
  }

  /** The state of the buffers when i blocks have been passed: whole results, but for the last block before
      leftover bytes, which is only half done. */
  ghost predicate Passed(c: Cipher, mode: Mode, t: Block, d: seq<bv8>, out: seq<bv8>, i: nat)
    requires |d| >= 16 && |out| >= |d|
  {
    var m, left := |d| / 16, |d| % 16;
    && i <= m
    && (if left > 0 && i == m
        then
          && out[..16 * (m - 1)] == Crypt(c, mode, t, d)[..16 * (m - 1)]
          && out[16 * (m - 1)..16 * m] ==
               Tweaked(c, mode, d[16 * (m - 1)..16 * m], TweakAt(c, t, if mode == Encrypt then m - 1 else m))
        else out[..16 * i] == Crypt(c, mode, t, d)[..16 * i])
  }

  lemma FirstBlock(c: Cipher, mode: Mode, t: Block, d: seq<bv8>)
    requires |d| == 16 || |d| >= 32
    ensures Crypt(c, mode, t, d)[..16] == Tweaked(c, mode, d[..16], t)
  {
    hide Tweaked;
    if |d| == 16 { assert d[..16] == d; }
  }

  /** Passing one more block. */
  lemma PassOneMore(c: Cipher, mode: Mode, t: Block, d: seq<bv8>, out: seq<bv8>, out': seq<bv8>, i: nat, u: Block)
    requires |d| >= 16 && |out| == |out'| >= |d| && Passed(c, mode, t, d, out, i) && i < |d| / 16
    requires u == TweakAt(c, t, if |d| % 16 > 0 && mode == Decrypt && i == |d| / 16 - 1 then i + 1 else i)
    requires out' == out[..16 * i] + Tweaked(c, mode, d[16 * i..16 * i + 16], u) + out[16 * i + 16..]
    ensures Passed(c, mode, t, d, out', i + 1)
  {
    hide Tweaked, Crypt, TweakAt;
    var m, left := |d| / 16, |d| % 16;
    var block := Tweaked(c, mode, d[16 * i..16 * i + 16], u);
    assert out'[..16 * i] == out[..16 * i] && out'[16 * i..16 * i + 16] == block;
    CryptSplit(c, mode, t, d, i);
    if !(left > 0 && i == m - 1) {
      var rest := d[16 * i..];
      assert rest[..16] == d[16 * i..16 * i + 16];
      assert |d| == 16 * m + left && |rest| == 16 * (m - i) + left;
      assert |rest| == 16 || |rest| >= 32;
      FirstBlock(c, mode, u, rest);
      assert Crypt(c, mode, t, d)[16 * i..][..16] == block;
      assert out'[..16 * i + 16] == out'[..16 * i] + block;
      assert Crypt(c, mode, t, d)[..16 * i + 16] == Crypt(c, mode, t, d)[..16 * i]
        + Crypt(c, mode, t, d)[16 * i..][..16];
    }
  }

  /** mbedtls_aes_crypt_xts, with input and output in different buffers. */
  method CryptXts(c: Cipher, mode: Mode, length: nat, unit: Block, input: array<bv8>, output: array<bv8>)
    returns (ret: int)
    requires input != output && length <= input.Length && length <= output.Length
    modifies output
    ensures ret == if length < 16 || length > MAX_LENGTH then INVALID_INPUT_LENGTH else 0
    ensures ret != 0 ==> output[..] == old(output[..])
    ensures ret == 0 ==> output[..length] == Crypt(c, mode, c.start(unit), input[..length])
    ensures ret == 0 ==> forall ts :: Tweaks(c, c.start(unit), ts, length / 16) ==>
      UnitIs(c, mode, ts, input[..length], output[..length])
    ensures ret == 0 ==> output[length..] == old(output[length..])
  {
    hide Crypt, Tweaked, Passed, TweakAt, Xor, UnitIs;
    var blocks: nat, leftover: nat := length / 16, length % 16;
    if length < 16 || length > MAX_LENGTH {
      return INVALID_INPUT_LENGTH;
    }
    ghost var t, d, o := c.start(unit), input[..length], output[..];
    var tweak := c.start(unit);
    var prevTweak := tweak;
    var i := 0;
    PassedNone(c, mode, t, d, output[..]);
    while blocks > 0
      invariant 0 <= i && blocks == length / 16 - i
      invariant Passed(c, mode, t, d, output[..], i) && output[length..] == o[length..]
      invariant tweak == TweakAt(c, t, if leftover > 0 && mode == Decrypt && blocks == 0 then i + 1 else i)
      invariant leftover > 0 && mode == Decrypt && blocks == 0 ==> prevTweak == TweakAt(c, t, i - 1)
    {
      blocks := blocks - 1;
      ghost var was := output[..];
      if leftover > 0 && mode == Decrypt && blocks == 0 {
        prevTweak := tweak;
        NextTweak(c, t, i);
        tweak := c.next(tweak);
      }
      ghost var u := tweak;
      PassBlock(c, mode, input, output, 16 * i, tweak);
      assert input[16 * i..16 * i + 16] == d[16 * i..16 * i + 16];
      PassOneMore(c, mode, t, d, was, output[..], i, u);
      NextTweak(c, t, i);
      NextTweak(c, t, i + 1);
      tweak := c.next(tweak);
      i := i + 1;
    }
    if leftover > 0 {
      Steal(c, mode, input, output, length, if mode == Decrypt then prevTweak else tweak, t);
    } else {
      AllPassed(c, mode, t, d, output[..]);
    }
    UnitEach(c, mode, t, d);
    ret := 0;
  }

  lemma UnitEach(c: Cipher, mode: Mode, t: Block, d: seq<bv8>)
    requires |d| >= 16
    ensures forall ts :: Tweaks(c, t, ts, |d| / 16) ==> UnitIs(c, mode, ts, d, Crypt(c, mode, t, d))
  {
    hide Crypt, UnitIs;
    forall ts | Tweaks(c, t, ts, |d| / 16)
      ensures |ts| == |d| / 16 + 1 && UnitIs(c, mode, ts, d, Crypt(c, mode, t, d))
    {
      UnitBytes(c, mode, t, ts, d);
    }
  }

  lemma NextTweak(c: Cipher, t: Block, i: nat)
    ensures TweakAt(c, t, 0) == t && TweakAt(c, t, i + 1) == c.next(TweakAt(c, t, i))
  {}

  lemma PassedNone(c: Cipher, mode: Mode, t: Block, d: seq<bv8>, out: seq<bv8>)
    requires |d| >= 16 && |out| >= |d|
    ensures Passed(c, mode, t, d, out, 0) && TweakAt(c, t, 0) == t
  {}

  lemma AllPassed(c: Cipher, mode: Mode, t: Block, d: seq<bv8>, out: seq<bv8>)
    requires |d| >= 16 && |d| % 16 == 0 && |out| >= |d| && Passed(c, mode, t, d, out, |d| / 16)
    ensures out[..|d|] == Crypt(c, mode, t, d)
  {
    assert 16 * (|d| / 16) == |d|;
    assert Crypt(c, mode, t, d)[..|d|] == Crypt(c, mode, t, d);
  }

  /** Ciphertext stealing: the leftover bytes take the start of the previous result, whose end is ciphered with
      them once more. */
  method Steal(c: Cipher, mode: Mode, input: array<bv8>, output: array<bv8>, length: nat, u: Block, ghost t: Block)
    requires input != output && 16 <= length <= input.Length && length <= output.Length && length % 16 > 0
    requires Passed(c, mode, t, input[..length], output[..], length / 16)
    requires u == TweakAt(c, t, if mode == Encrypt then length / 16 else length / 16 - 1)
    modifies output
    ensures output[..length] == Crypt(c, mode, t, input[..length]) && output[length..] == old(output[length..])
  {
    hide Crypt, Tweaked, Passed, TweakAt, Xor;
    ghost var o := output[..];
    var left: nat := length % 16;
    var at: nat := length - left;
    WholeBlocks(length);
    StealBlock(c, mode, input, output, at - 16, left, u);
    assert input[..length][at..] == input[at..at + left];
    StolenEnd(c, mode, t, input[..length], o, output[..], u);
  }

  method StealBlock(c: Cipher, mode: Mode, input: array<bv8>, output: array<bv8>, prev: nat, left: nat, u: Block)
    requires input != output && left < 16 && prev + 16 + left <= input.Length && prev + 16 + left <= output.Length
    modifies output
    ensures output[..prev] == old(output[..prev])
    ensures output[prev..prev + 16] ==
      Tweaked(c, mode, input[prev + 16..prev + 16 + left] + old(output[prev + left..prev + 16]), u)
    ensures output[prev + 16..prev + 16 + left] == old(output[prev..prev + left])
    ensures output[prev + 16 + left..] == old(output[prev + 16 + left..])
  {
    hide Xor;
    ghost var o := output[..];
    var at := prev + 16;
    var tmp := new bv8[16];
    CopyBack(output, prev, at, left);
    ghost var mid := output[..];
    XorInto(tmp, 0, input, at, left, u);
    XorInto(tmp, left, output, prev + left, 16 - left, u);
    Joined(input[..], o, mid, tmp[..], prev, left, u);
    PutXor(output, prev, Ecb(c, mode, tmp[..]), u);
    Reassembled(o, mid, output[..], prev, left, Xor(Ecb(c, mode, tmp[..]), u));
  }

  lemma Joined(input: seq<bv8>, o: seq<bv8>, mid: seq<bv8>, tmp: seq<bv8>, prev: nat, left: nat, u: Block)
    requires left < 16 && prev + 16 + left <= |input| && prev + 16 + left <= |o| && |mid| == |o| && |tmp| == 16
    requires mid == o[..prev + 16] + o[prev..prev + left] + o[prev + 16 + left..]
    requires forall k :: 0 <= k < left ==> tmp[k] == XorByte(input[prev + 16 + k], u[k])
    requires forall k :: left <= k < 16 ==> tmp[k] == XorByte(mid[prev + k], u[k])
    ensures tmp == Xor(input[prev + 16..prev + 16 + left] + o[prev + left..prev + 16], u)
  {
    hide XorByte;
    XorFilled(tmp, input[prev + 16..prev + 16 + left] + o[prev + left..prev + 16], u);
  }

  lemma Reassembled(o: seq<bv8>, mid: seq<bv8>, out: seq<bv8>, prev: nat, left: nat, x: Block)
    requires left < 16 && prev + 16 + left <= |o| && |mid| == |o|
    requires mid == o[..prev + 16] + o[prev..prev + left] + o[prev + 16 + left..]
      && out == mid[..prev] + x + mid[prev + 16..]
    ensures |out| == |o| && out[..prev] == o[..prev] && out[prev..prev + 16] == x
    ensures out[prev + 16..prev + 16 + left] == o[prev..prev + left] && out[prev + 16 + left..] == o[prev + 16 + left..]
  {
    var at := prev + 16;
    assert out[at..] == mid[at..];
    assert mid[at..] == o[prev..prev + left] + o[at + left..];
    assert out[at..at + left] == out[at..][..left] && out[at + left..] == out[at..][left..];
  }

  lemma WholeBlocks(length: nat)
    requires length >= 16
    ensures length - length % 16 == 16 * (length / 16) >= 16
  {}

  /** The bytes that are not stolen move behind the block they came from. */
  method CopyBack(output: array<bv8>, from: nat, to: nat, n: nat)
    requires from + n <= to && to + n <= output.Length
    modifies output
    ensures output[..] == old(output[..to]) + old(output[from..from + n]) + old(output[to + n..])
  {
    var i := 0;
    while i < n
      invariant 0 <= i <= n
      invariant forall k :: 0 <= k < output.Length ==>
        output[k] == if to <= k < to + i then old(output[from + k - to]) else old(output[k])
    {
      output[to + i] := output[from + i];
      i := i + 1;
    }
  }

  /** What the stealing step has made of the buffer. */
  lemma StolenEnd(c: Cipher, mode: Mode, t: Block, d: seq<bv8>, o: seq<bv8>, out: seq<bv8>, u: Block)
    requires |d| >= 16 && |d| % 16 > 0 && |o| == |out| >= |d| && Passed(c, mode, t, d, o, |d| / 16)
    requires u == TweakAt(c, t, if mode == Encrypt then |d| / 16 else |d| / 16 - 1)
    requires var left := |d| % 16; var at := |d| - left; var prev := at - 16;
             && out[..prev] == o[..prev]
             && out[prev..at] == Tweaked(c, mode, d[at..] + o[prev + left..at], u)
             && out[at..|d|] == o[prev..prev + left]
    ensures out[..|d|] == Crypt(c, mode, t, d)
  {
    hide Tweaked, Crypt, TweakAt, Passed;
    var m: nat, left: nat := |d| / 16, |d| % 16;
    WholeBlocks(|d|);
    WasHalfDone(c, mode, t, d, o);
    StolenParts(c, mode, t, d, o, out, u, m, left, 16 * (m - 1));
  }

  /** The same with the numbers named: m whole blocks, the last at prev, and what is left over. */
  lemma StolenParts(c: Cipher, mode: Mode, t: Block, d: seq<bv8>, o: seq<bv8>, out: seq<bv8>, u: Block, m: nat,
    left: nat, prev: nat)
    requires m >= 1 && 0 < left < 16 && |d| == prev + 16 + left && |o| == |out| >= |d| && prev == 16 * (m - 1)
    requires u == TweakAt(c, t, if mode == Encrypt then m else m - 1)
    requires o[..prev] == Crypt(c, mode, t, d)[..prev]
    requires o[prev..prev + 16]
      == Tweaked(c, mode, d[prev..prev + 16], TweakAt(c, t, if mode == Encrypt then m - 1 else m))
    requires out[..prev] == o[..prev] && out[prev + 16..|d|] == o[prev..prev + left]
    requires out[prev..prev + 16] == Tweaked(c, mode, d[prev + 16..] + o[prev + left..prev + 16], u)
    ensures out[..|d|] == Crypt(c, mode, t, d)
  {
    hide Tweaked, Crypt, TweakAt, Passed;
    var at := prev + 16;
    CryptSplit(c, mode, t, d, m - 1);
    var rest, tail := d[prev..], TweakAt(c, t, m - 1);
    assert rest[..16] == d[prev..at] && rest[16..] == d[at..];
    NextTweak(c, t, m - 1);
    Halves(o, prev, left, at);
    LastTwo(c, mode, tail, rest, o[prev..at], u);
    assert out[..|d|][prev..at] == out[prev..at] && out[..|d|][at..] == out[at..|d|]
      && out[..|d|][..prev] == out[..prev];
    Glue(out[..|d|], Crypt(c, mode, t, d), prev, at);
  }

  lemma Glue(a: seq<bv8>, b: seq<bv8>, prev: nat, at: nat)
    requires prev <= at <= |a| == |b| && a[..prev] == b[..prev] && a[prev..at] + a[at..] == b[prev..]
    ensures a == b
  {
    assert a == a[..prev] + (a[prev..at] + a[at..]) && b == b[..prev] + b[prev..];
  }

  lemma Halves(o: seq<bv8>, prev: nat, left: nat, at: nat)
    requires at == prev + 16 <= |o| && left < 16
    ensures o[prev + left..at] == o[prev..at][left..] && o[prev..prev + left] == o[prev..at][..left]
  {}

  lemma WasHalfDone(c: Cipher, mode: Mode, t: Block, d: seq<bv8>, o: seq<bv8>)
    requires |d| >= 16 && |d| % 16 > 0 && |o| >= |d| && Passed(c, mode, t, d, o, |d| / 16)
    ensures var m := |d| / 16;
            && o[..16 * (m - 1)] == Crypt(c, mode, t, d)[..16 * (m - 1)]
            && o[16 * (m - 1)..16 * m]
              == Tweaked(c, mode, d[16 * (m - 1)..16 * m], TweakAt(c, t, if mode == Encrypt then m - 1 else m))
  {}

  lemma LastTwo(c: Cipher, mode: Mode, t: Block, d: seq<bv8>, whole: Block, second: Block)
    requires 16 < |d| < 32
    requires whole == Tweaked(c, mode, d[..16], if mode == Encrypt then t else c.next(t))
    requires second == if mode == Encrypt then c.next(t) else t
    ensures Crypt(c, mode, t, d) == Tweaked(c, mode, d[16..] + whole[|d| - 16..], second) + whole[..|d| - 16]
  {
    hide Tweaked;
  }
}
