/** Base64 (section 5.2 of RFC 1521): the encoder, and the decoder that goes over its input twice. */
module Base64 {
  import opened Bytes
  import opened Bits
  import Limbs

  const INVALID_CHARACTER := -0x002C
  const BUFFER_TOO_SMALL := -0x002A

  const SPACE: byte := 32
  const CR: byte := 13
  const LF: byte := 10
  const PAD: byte := 61

  /** base64_enc_map. */
  function Enc(v: nat): (c: byte)
    requires v < 64
    ensures c !in {SPACE, CR, LF, PAD} && c < 128 && Dec(c) == v
  {
    if v < 26 then 65 + v else if v < 52 then 71 + v else if v < 62 then v - 4 else if v == 62 then 43 else 47
  }

  /** base64_dec_map: 64 for the padding character, 127 for characters that do not belong. */
  function Dec(c: byte): (v: nat)
    ensures v == 64 <==> c == PAD
  {
    if 65 <= c < 91 then c - 65
    else if 97 <= c < 123 then c - 71
    else if 48 <= c < 58 then c + 4
    else if c == 43 then 62
    else if c == 47 then 63
    else if c == PAD then 64
    else 127
  }

  // ---- encoding ----

  function Three(a: byte, b: byte, c: byte): (r: seq<byte>)
    ensures |r| == 4
  {
    [Enc(a / 4), Enc((a % 4) * 16 + b / 16), Enc((b % 16) * 4 + c / 64), Enc(c % 64)]
  }

  /** The last one or two bytes, as the code writes them. */
  function LastFour(c1: byte, c2: byte, two: bool): (r: seq<byte>)
    ensures |r| == 4
  {
    [Enc(c1 / 4), Enc((c1 % 4) * 16 + c2 / 16), if two then Enc((c2 % 16) * 4) else PAD, PAD]
  }

  function Text(s: seq<byte>): (r: seq<byte>)
    ensures |r| == (|s| + 2) / 3 * 4
  {
    if |s| == 0 then []
    else if |s| == 1 then LastFour(s[0], 0, false)
    else if |s| == 2 then LastFour(s[0], s[1], true)
    else Three(s[0], s[1], s[2]) + Text(s[3..])
  }

  lemma TextStep(src: seq<byte>, i: nat)
    requires i + 3 <= |src|
    ensures Text(src[i..]) == Three(src[i], src[i + 1], src[i + 2]) + Text(src[i + 3..])
  {
    hide Enc;
    assert src[i..][3..] == src[i + 3..];
  }

  lemma TextEnd(src: seq<byte>, i: nat)
    requires i <= |src| < i + 3
    ensures Text(src[i..]) == if i == |src| then []
      else LastFour(src[i], if i + 1 < |src| then src[i + 1] else 0, i + 1 < |src|)
  {
    hide Enc;
  }

  /** mbedtls_base64_encode. */
  method Encode(dst: array?<byte>, dlen: nat, src: seq<byte>) returns (ret: int, olen: nat)
    requires dst != null ==> dlen <= dst.Length
    modifies dst
    ensures src == [] ==> ret == 0 && olen == 0
    ensures src != [] ==>
      && ret == (if dst == null || dlen < |Text(src)| + 1 then BUFFER_TOO_SMALL else 0)
      && olen == if ret == 0 then |Text(src)| else |Text(src)| + 1
    ensures dst != null && (src == [] || ret != 0) ==> dst[..] == old(dst[..])
    ensures dst != null && src != [] && ret == 0 ==> Written(old(dst[..]), dst[..], Text(src) + [0])
  {
    hide Text, Splice, Enc, Three, LastFour, Written;
    var slen := |src|;
    if slen == 0 {
      return 0, 0;
    }
    var n := slen / 3 + if slen % 3 != 0 then 1 else 0;
    n := n * 4;
    if dst == null || dlen < n + 1 {
      return BUFFER_TOO_SMALL, n + 1;
    }
    olen := EncodeInto(dst, src);
    ret := 0;
  }

  /** The encoding loops, into a buffer that is large enough. */
  method EncodeInto(dst: array<byte>, src: seq<byte>) returns (olen: nat)
    requires |Text(src)| + 1 <= dst.Length
    modifies dst
    ensures olen == |Text(src)| && Written(old(dst[..]), dst[..], Text(src) + [0])
  {
    hide Text, Splice, Enc, Three, LastFour, Written;
    var slen := |src|;
    var n := slen / 3 * 3;
    ghost var d, done: seq<byte> := dst[..], [];
    ghost var groups: nat := 0;
    var i: nat, p: nat := 0, 0;
    SpliceNothing(d, 0);
    assert src[0..] == src;
    while i < n
      invariant i == 3 * groups <= n && p == |done| && done + Text(src[i..]) == Text(src)
      invariant dst[..] == Splice(d, 0, done)
    {
      ghost var four := Three(src[i], src[i + 1], src[i + 2]);
      TextStep(src, i);
      PutFour(dst, p, Three(src[i], src[i + 1], src[i + 2]));
      SpliceTwice(d, 0, done, four);
      AppendAssoc(done, four, Text(src[i + 3..]));
      done := done + four;
      groups, i, p := groups + 1, i + 3, p + 4;
    }
    TextEnd(src, i);
    if i < slen {
      var c1 := src[i];
      var c2 := if i + 1 < slen then src[i + 1] else 0;
      var four := LastFour(c1, c2, i + 1 < slen);
      PutFour(dst, p, four);
      SpliceTwice(d, 0, done, four);
      done := done + four;
      p := p + 4;
    }
    olen := p;
    assert done == Text(src);
    var q := WriteChar(dst, p, 0);
    SpliceTwice(d, 0, done, [0]);
    WrittenIs(d, dst[..], done + [0]);
  }

  lemma AppendAssoc(a: seq<byte>, b: seq<byte>, c: seq<byte>)
    ensures a + (b + c) == (a + b) + c
  {}

  /** `*p++ =`, four times. */
  method PutFour(dst: array<byte>, p: nat, four: seq<byte>)
    requires p + 4 <= dst.Length && |four| == 4
    modifies dst
    ensures dst[..] == Splice(old(dst[..]), p, four)
  {
    dst[p], dst[p + 1], dst[p + 2], dst[p + 3] := four[0], four[1], four[2], four[3];
  }

  // ---- the first pass ----

  /** The number of spaces at the front. */
  function Spaces(s: seq<byte>): (x: nat)
    ensures x <= |s| && (x < |s| ==> s[x] != SPACE) && forall k :: 0 <= k < x ==> s[k] == SPACE
  {
    if s == [] || s[0] != SPACE then 0 else 1 + Spaces(s[1..])
  }

  datatype Scanned = Good(n: nat, pads: nat) | Bad

  /** What the first pass makes of the rest of the input, with n characters and `pads` paddings counted. */
  function Scan(s: seq<byte>, n: nat, pads: nat): Scanned
    decreases |s|
  {
    var x := Spaces(s);
    if x == |s| then Good(n, pads)
    else if |s| - x >= 2 && s[x] == CR && s[x + 1] == LF then Scan(s[x + 1..], n, pads)
    else if s[x] == LF then Scan(s[x + 1..], n, pads)
    else if x != 0 then Bad
    else if s[0] == PAD && pads + 1 > 2 then Bad
    else if s[0] > 127 || Dec(s[0]) == 127 then Bad
    else if Dec(s[0]) < 64 && pads != 0 then Bad
    else Scan(s[1..], n + 1, if s[0] == PAD then pads + 1 else pads)
  }

  /** What the second pass sees: everything but line ends and spaces. */
  function Letters(s: seq<byte>): (r: seq<byte>)
    ensures |r| <= |s|
  {
    if s == [] then []
    else if s[0] in {CR, LF, SPACE} then Letters(s[1..])
    else [s[0]] + Letters(s[1..])
  }

  /** The first pass, at its outcome: a count of characters and paddings, or a bad character. */
  method FirstPass(src: seq<byte>) returns (ok: bool, n: nat, j: nat)
    ensures Scan(src, 0, 0) == if ok then Good(n, j) else Bad
  {
    hide Scan, Spaces, Dec;
    var i: nat := 0;
    n, j := 0, 0;
    assert src[0..] == src;
    while i < |src|
      invariant 0 <= i <= |src| && Scan(src, 0, 0) == Scan(src[i..], n, j)
      decreases |src| - i
    {
      ghost var i0 := i;
      var x := 0;
      while i < |src| && src[i] == SPACE
        invariant i0 <= i <= |src| && x == i - i0 && forall k :: i0 <= k < i ==> src[k] == SPACE
      {
        i := i + 1;
        x := x + 1;
      }
      ScanAt(src, i0, i, n, j);
      if i == |src| {
        return true, n, j;
      }
      if |src| - i >= 2 && src[i] == CR && src[i + 1] == LF {
        i := i + 1;
        continue;
      }
      if src[i] == LF {
        i := i + 1;
        continue;
      }
      if x != 0 {
        return false, n, j;
      }
      if src[i] == PAD {
        j := j + 1;
        if j > 2 {
          return false, n, j;
        }
      }
      if src[i] > 127 || Dec(src[i]) == 127 {
        return false, n, j;
      }
      if Dec(src[i]) < 64 && j != 0 {
        return false, n, j;
      }
      n := n + 1;
      i := i + 1;
    }
    ok := true;
    ScanAt(src, i, i, n, j);
  }

  /** One step of the scan, in the terms of the whole input. */
  lemma ScanAt(src: seq<byte>, i0: nat, i: nat, n: nat, j: nat)
    requires i0 <= i <= |src| && (i < |src| ==> src[i] != SPACE) && forall k :: i0 <= k < i ==> src[k] == SPACE
    ensures Scan(src[i0..], n, j) ==
      if i == |src| then Good(n, j)
      else if |src| - i >= 2 && src[i] == CR && src[i + 1] == LF then Scan(src[i + 1..], n, j)
      else if src[i] == LF then Scan(src[i + 1..], n, j)
      else if i != i0 then Bad
      else if src[i] == PAD && j + 1 > 2 then Bad
      else if src[i] > 127 || Dec(src[i]) == 127 then Bad
      else if Dec(src[i]) < 64 && j != 0 then Bad
      else Scan(src[i + 1..], n + 1, if src[i] == PAD then j + 1 else j)
  {
    hide Dec;
    var rest, x := src[i0..], i - i0;
    assert forall k :: 0 <= k < x ==> rest[k] == src[i0 + k];
    SpacesIs(rest, x);
    if i < |src| {
      assert rest[x] == src[i] && rest[x + 1..] == src[i + 1..];
      if i + 1 < |src| { assert rest[x + 1] == src[i + 1]; }
      if i == i0 { assert rest[1..] == src[i + 1..]; }
    }
  }

  lemma {:induction false} SpacesIs(s: seq<byte>, x: nat)
    requires x <= |s| && (x < |s| ==> s[x] != SPACE) && forall k :: 0 <= k < x ==> s[k] == SPACE
    ensures Spaces(s) == x
  {}

  // ---- the second pass ----

  /** The bytes of a group of 24 bits, of which the paddings leave j. */
  function Put(j: int, x: nat): (r: seq<byte>)
    ensures |r| == if j > 2 then 3 else if j > 1 then 2 else if j > 0 then 1 else 0
  {
    (if j > 0 then [x / 65536 % 256] else []) + (if j > 1 then [x / 256 % 256] else []) + if j > 2 then [x % 256]
      else []
  }

  function Shift(x: nat, c: byte): nat { (x * 64 + Dec(c) % 64) % WORD }
  function Less(j: int, c: byte): int { if Dec(c) == 64 then j - 1 else j }

  /** The output from here on, with n characters of the group read into x. */
  function Emit(t: seq<byte>, j: int, n: nat, x: nat): seq<byte> {
    if t == [] then []
    else
      var j', x' := Less(j, t[0]), Shift(x, t[0]);
      if n + 1 == 4 then Put(j', x') + Emit(t[1..], j', 0, x') else Emit(t[1..], j', n + 1, x')
  }

  /** The length the first pass predicts. */
  function Predicted(n: nat, j: nat): int { 6 * (n / 8) + (6 * (n % 8) + 7) / 8 - j }

  /** The same, group by group. */
  function Bound(k: nat, p: nat): int { 3 * (k / 4) + (6 * (k % 4) + 7) / 8 - p }

  /** What the first pass lets through: at most two paddings, and only at the end. */
  predicate Shape(t: seq<byte>, c: nat) {
    t == [] || (if t[0] == PAD then c < 2 && Shape(t[1..], c + 1) else c == 0 && Shape(t[1..], 0))
  }

  function Pads(t: seq<byte>): nat { if t == [] then 0 else (if t[0] == PAD then 1 else 0) + Pads(t[1..]) }

  lemma {:induction false} ScanShape(s: seq<byte>, n: nat, c: nat)
    requires Scan(s, n, c).Good?
    ensures Shape(Letters(s), c) && Scan(s, n, c) == Good(n + |Letters(s)|, c + Pads(Letters(s)))
    decreases |s|
  {
    var x := Spaces(s);
    SkipSpaces(s, x);
    if x < |s| {
      var t := s[x..];
      assert t[1..] == s[x + 1..];
      if (|s| - x >= 2 && s[x] == CR && s[x + 1] == LF) || s[x] == LF {
        ScanShape(s[x + 1..], n, c);
      } else {
        ScanShape(s[1..], n + 1, if s[0] == PAD then c + 1 else c);
      }
    }
  }

  lemma {:induction false} SkipSpaces(s: seq<byte>, x: nat)
    requires x <= |s| && forall k :: 0 <= k < x ==> s[k] == SPACE
    ensures Letters(s) == Letters(s[x..])
  {
    if x > 0 {
      SkipSpaces(s[1..], x - 1);
      assert s[1..][x - 1..] == s[x..];
    } else {
      assert s[0..] == s;
    }
  }

  /** The prediction is never too small, and exact for whole groups. */
  lemma {:induction false} EmitLength(t: seq<byte>, n: nat, x: nat)
    requires Shape(t, 0) && n < 4
    ensures var k, p := n + |t|, Pads(t);
            |Emit(t, 3, n, x)| <= Bound(k, p) && (k % 4 == 0 ==> |Emit(t, 3, n, x)| == Bound(k, p))
    decreases |t|
  {
    hide Put, Shift;
    if t != [] {
      if t[0] == PAD {
        EmitPads(t, n, x);
      } else if n == 3 {
        EmitLength(t[1..], 0, Shift(x, t[0]));
      } else {
        EmitLength(t[1..], n + 1, Shift(x, t[0]));
      }
    }
  }

  /** The end of the text, one or two paddings. */
  lemma EmitPads(t: seq<byte>, n: nat, x: nat)
    requires Shape(t, 0) && n < 4 && t != [] && t[0] == PAD
    ensures var k, p := n + |t|, Pads(t);
            |Emit(t, 3, n, x)| <= Bound(k, p) && (k % 4 == 0 ==> |Emit(t, 3, n, x)| == Bound(k, p))
  {
    hide Shift;
    var u, x1 := t[1..], Shift(x, t[0]);
    assert Shape(u, 1);
    if u != [] {
      assert u[0] == PAD && Shape(u[1..], 2) && u[1..] == [];
      OnePad(u, 2, if n == 3 then 0 else n + 1, x1);
    }
  }

  lemma OnePad(u: seq<byte>, j: int, n: nat, x: nat)
    requires |u| == 1 && u[0] == PAD && n < 4
    ensures Emit(u, j, n, x) == if n == 3 then Put(j - 1, Shift(x, PAD)) else []
    ensures Pads(u) == 1
  {
    hide Shift, Put;
    assert u[1..] == [];
  }

  lemma PredictedIs(k: nat, p: nat)
    ensures Predicted(k, p) == Bound(k, p)
  {
    var q, r := k / 8, k % 8;
    assert k == 8 * q + r;
    if r < 4 { assert k / 4 == 2 * q && k % 4 == r; } else { assert k / 4 == 2 * q + 1 && k % 4 == r - 4; }
  }

  /** The result for a text that the first pass accepts. */
  function Decoded(src: seq<byte>): seq<byte> { Emit(Letters(src), 3, 0, 0) }

  /** The second pass. */
  method SecondPass(dst: array<byte>, src: seq<byte>) returns (p: nat)
    requires |Decoded(src)| <= dst.Length
    modifies dst
    ensures p == |Decoded(src)| && Written(old(dst[..]), dst[..], Decoded(src))
  {
    hide Splice, Dec, Shift, Written;
    ghost var d, done: seq<byte> := dst[..], [];
    var i: nat, n: nat, x: nat := 0, 0, 0;
    var j: int := 3;
    p := 0;
    SpliceNothing(d, 0);
    assert src[0..] == src;
    while i < |src|
      invariant 0 <= i <= |src| && n < 4 && p == |done|
      invariant done + Emit(Letters(src[i..]), j, n, x) == Decoded(src)
      invariant dst[..] == Splice(d, 0, done)
    {
      ghost var rest := src[i..];
      assert rest[1..] == src[i + 1..];
      if src[i] == CR || src[i] == LF || src[i] == SPACE {
        i := i + 1;
        continue;
      }
      LetterFirst(rest);
      EmitOne(Letters(rest), j, n, x);
      j := Less(j, src[i]);
      x := Shift(x, src[i]);
      n := n + 1;
      if n == 4 {
        n := 0;
        ghost var four := Put(j, x);
        AppendAssoc(done, four, Emit(Letters(src[i + 1..]), j, 0, x));
        p := PutGroup(dst, p, j, x);
        SpliceTwice(d, 0, done, four);
        done := done + four;
      }
      i := i + 1;
    }
    assert src[i..] == [];
    assert done == Decoded(src);
    WrittenIs(d, dst[..], done);
  }

  lemma LetterFirst(s: seq<byte>)
    requires s != [] && s[0] !in {CR, LF, SPACE}
    ensures Letters(s) == [s[0]] + Letters(s[1..])
  {}

  lemma EmitOne(t: seq<byte>, j: int, n: nat, x: nat)
    requires t != []
    ensures Emit(t, j, n, x) == var j', x' := Less(j, t[0]), Shift(x, t[0]);
      if n + 1 == 4 then Put(j', x') + Emit(t[1..], j', 0, x') else Emit(t[1..], j', n + 1, x')
  {
    hide Less, Shift, Put;
  }

  /** `if( j > 0 ) *p++ = ...`, three times. */
  method PutGroup(dst: array<byte>, p: nat, j: int, x: nat) returns (p': nat)
    requires p + |Put(j, x)| <= dst.Length
    modifies dst
    ensures p' == p + |Put(j, x)| && dst[..] == Splice(old(dst[..]), p, Put(j, x))
  {
    p' := p;
    if j > 0 {
      dst[p'] := x / 65536 % 256;
      p' := p' + 1;
    }
    if j > 1 {
      dst[p'] := x / 256 % 256;
      p' := p' + 1;
    }
    if j > 2 {
      dst[p'] := x % 256;
      p' := p' + 1;
    }
  }

  /** mbedtls_base64_decode. Without a destination any text with a character in it is refused, even one of paddings
      alone, for which no bytes are needed. */
  method Decode(dst: array?<byte>, dlen: nat, src: seq<byte>) returns (ret: int, olen: nat)
    requires dst != null ==> dlen <= dst.Length
    modifies dst
    ensures Scan(src, 0, 0) == Bad ==> ret == INVALID_CHARACTER
    ensures Scan(src, 0, 0).Good? ==>
      && var g := Scan(src, 0, 0); var need := Predicted(g.n, g.pads);
      && |Decoded(src)| <= need && (g.n % 4 == 0 ==> |Decoded(src)| == need)
      && ret == (if (dst == null && g.n > 0) || dlen < need then BUFFER_TOO_SMALL else 0)
      && olen == if ret == 0 then |Decoded(src)| else need
    ensures dst != null && ret != 0 ==> dst[..] == old(dst[..])
    ensures dst != null && ret == 0 ==> Written(old(dst[..]), dst[..], Decoded(src))
  {
    hide Scan, Emit, Letters, Splice, Predicted;
    var ok, n, j := FirstPass(src);
    if !ok {
      return INVALID_CHARACTER, 0;
    }
    Lengths(src);
    if n == 0 {
      if dst != null {
        WrittenNone(dst[..]);
      }
      return 0, 0;
    }
    n := 6 * (n / 8) + (6 * (n % 8) + 7) / 8 - j;
    if dst == null || dlen < n {
      return BUFFER_TOO_SMALL, n;
    }
    olen := SecondPass(dst, src);
    ret := 0;
  }

  lemma WrittenNone(s: seq<byte>)
    ensures Written(s, s, [])
  {}

  lemma Lengths(src: seq<byte>)
    requires Scan(src, 0, 0).Good?
    ensures var g := Scan(src, 0, 0); var need := Predicted(g.n, g.pads);
            && |Decoded(src)| <= need && (g.n % 4 == 0 ==> |Decoded(src)| == need)
            && need == 6 * (g.n / 8) + (6 * (g.n % 8) + 7) / 8 - g.pads
            && (g.n == 0 ==> need == 0 && Decoded(src) == [])
  {
    hide Scan, Emit, Shape, Letters, Pads, Bound;
    ScanShape(src, 0, 0);
    EmitLength(Letters(src), 0, 0);
    PredictedIs(|Letters(src)|, Pads(Letters(src)));
    NoLetters(Letters(src));
  }

  lemma NoLetters(t: seq<byte>)
    ensures t == [] ==> Pads(t) == 0 && Emit(t, 3, 0, 0) == []
  {}

  // ---- the round trip ----

  /** The accumulator after four letters. */
  function ShiftAll(x: nat, t: seq<byte>): nat
    requires |t| >= 4
  {
    Shift(Shift(Shift(Shift(x, t[0]), t[1]), t[2]), t[3])
  }

  /** One group of four letters, of which the first two are no padding. */
  lemma EmitQuad(t: seq<byte>, x: nat)
    requires |t| >= 4 && Dec(t[0]) != 64 && Dec(t[1]) != 64
    ensures var j, x' := Less(Less(3, t[2]), t[3]), ShiftAll(x, t);
            Emit(t, 3, 0, x) == Put(j, x') + Emit(t[4..], j, 0, x')
  {
    hide Emit, Put, Shift, Dec;
    EmitOne(t, 3, 0, x);
    EmitOne(t[1..], 3, 1, Shift(x, t[0]));
    assert t[1..][1..] == t[2..];
    EmitOne(t[2..], 3, 2, Shift(Shift(x, t[0]), t[1]));
    assert t[2..][1..] == t[3..];
    EmitOne(t[3..], Less(3, t[2]), 3, Shift(Shift(Shift(x, t[0]), t[1]), t[2]));
    assert t[3..][1..] == t[4..];
  }

  /** Four letters without padding put out their 24 bits, whatever was in the accumulator before. */
  lemma EmitFour(a: byte, b: byte, c: byte, rest: seq<byte>, x: nat)
    ensures Emit(Three(a, b, c) + rest, 3, 0, x) == [a, b, c] + Emit(rest, 3, 0, ShiftAll(x, Three(a, b, c)))
  {
    hide Emit, Put, Shift, Enc, Dec;
    var t := Three(a, b, c) + rest;
    EmitQuad(t, x);
    assert t[4..] == rest && ShiftAll(x, t) == ShiftAll(x, Three(a, b, c));
    ThreeBits(a, b, c, x);
    PutThree(ShiftAll(x, t), a, b, c);
  }

  lemma ThreeBits(a: byte, b: byte, c: byte, x: nat)
    ensures ShiftAll(x, Three(a, b, c)) % 16777216 == Bits24(a, b, c)
  {
    hide Shift, Enc, Dec;
    var t := Three(a, b, c);
    ShiftWord(x, t[0], t[1], t[2], t[3]);
    var v0, v1, v2, v3 := a / 4, (a % 4) * 16 + b / 16, (b % 16) * 4 + c / 64, c % 64;
    LetterBits(v0);
    LetterBits(v1);
    LetterBits(v2);
    LetterBits(v3);
  }

  lemma LetterBits(v: nat)
    requires v < 64
    ensures Dec(Enc(v)) % 64 == v
  {
    hide Enc, Dec;
  }

  /** The 24 bits of four letters. */
  function Bits24(a: byte, b: byte, c: byte): nat {
    (((a / 4) * 64 + ((a % 4) * 16 + b / 16)) * 64 + ((b % 16) * 4 + c / 64)) * 64 + c % 64
  }

  /** A shift moves the low end of the accumulator up; what leaves the word at the top was above it. */
  lemma ShiftMod(x: nat, v: nat, m: nat, c: nat)
    requires v < 64 && m > 0 && 64 * m * c == WORD
    ensures ((x * 64 + v) % WORD) % (64 * m) == (x % m) * 64 + v
  {
    var a, r, y := x / m, x % m, x * 64 + v;
    assert y == (64 * m) * a + (64 * r + v) by { assert x == m * a + r; assert 64 * (m * a) == (64 * m) * a; }
    ModMod(y, 64 * m, c, WORD);
    Limbs.FloorIs(y, a, 64 * m, 64 * r + v);
  }

  /** Four shifts leave the 24 bits of four letters at the low end. */
  lemma ShiftWord(x: nat, a: byte, b: byte, c: byte, d: byte)
    ensures Shift(Shift(Shift(Shift(x, a), b), c), d) % 16777216
         == ((Dec(a) % 64 * 64 + Dec(b) % 64) * 64 + Dec(c) % 64) * 64 + Dec(d) % 64
  {
    hide Dec;
    ShiftMod(x, Dec(a) % 64, 1, 67108864);
    ShiftMod(Shift(x, a), Dec(b) % 64, 64, 1048576);
    ShiftMod(Shift(Shift(x, a), b), Dec(c) % 64, 4096, 16384);
    ShiftMod(Shift(Shift(Shift(x, a), b), c), Dec(d) % 64, 262144, 256);
  }

  lemma PutThree(x: nat, a: byte, b: byte, c: byte)
    requires x % 16777216 == Bits24(a, b, c)
    ensures Put(3, x) == [a, b, c]
  {
    assert Bits24(a, b, c) == a * 65536 + b * 256 + c;
    BytesOf(x, a, b, c);
  }

  /** The three low bytes of a number. */
  lemma BytesOf(x: nat, a: byte, b: byte, c: byte)
    requires x % 16777216 == a * 65536 + b * 256 + c
    ensures x / 65536 % 256 == a && x / 256 % 256 == b && x % 256 == c
  {
    var q := x / 16777216;
    Limbs.FloorIs(x, q * 256 + a, 65536, b * 256 + c);
    Limbs.FloorIs(x, (q * 256 + a) * 256 + b, 256, c);
    Limbs.FloorIs(q * 256 + a, q, 256, a);
    Limbs.FloorIs((q * 256 + a) * 256 + b, q * 256 + a, 256, b);
  }

  /** The last one or two bytes. */
  lemma EmitLast(c1: byte, c2: byte, two: bool, x: nat)
    requires two || c2 == 0
    ensures Emit(LastFour(c1, c2, two), 3, 0, x) == if two then [c1, c2] else [c1]
  {
    hide Emit, Put, Shift, Enc, Dec;
    var t := LastFour(c1, c2, two);
    EmitQuad(t, x);
    assert t[4..] == [];
    var x' := ShiftAll(x, t);
    EmitNone(if two then 2 else 1, x');
    PadsShift(x, c1, c2, two);
    PutFewer(x', c1, c2, two);
  }

  lemma EmitNone(j: int, x: nat)
    ensures Emit([], j, 0, x) == []
  {}

  lemma PadsShift(x: nat, c1: byte, c2: byte, two: bool)
    requires two || c2 == 0
    ensures var t := LastFour(c1, c2, two);
            ShiftAll(x, t) % 16777216 == c1 * 65536 + c2 * 256
  {
    hide Enc;
    assert Dec(PAD) % 64 == 0;
    var v0, v1, v2 := c1 / 4, (c1 % 4) * 16 + c2 / 16, if two then (c2 % 16) * 4 else 0;
    var t := LastFour(c1, c2, two);
    assert Dec(t[0]) % 64 == v0 && Dec(t[1]) % 64 == v1 && Dec(t[2]) % 64 == v2;
    ShiftWord(x, t[0], t[1], t[2], t[3]);
  }

  lemma PutFewer(x: nat, c1: byte, c2: byte, two: bool)
    requires x % 16777216 == c1 * 65536 + c2 * 256
    ensures Put(if two then 2 else 1, x) == if two then [c1, c2] else [c1]
  {
    BytesOf(x, c1, c2, 0);
  }

  lemma {:induction false} EmitText(s: seq<byte>, x: nat)
    ensures Emit(Text(s), 3, 0, x) == s
    decreases |s|
  {
    hide Emit, Three, LastFour;
    if |s| == 0 {
      EmitNone(3, x);
    } else if |s| < 3 {
      TextEnd(s, 0);
      assert s[0..] == s;
      EmitLast(s[0], if |s| == 2 then s[1] else 0, |s| == 2, x);
    } else {
      EmitFour(s[0], s[1], s[2], Text(s[3..]), x);
      EmitText(s[3..], ShiftAll(x, Three(s[0], s[1], s[2])));
    }
  }

  /** An encoded text passes the scan, and all of it is letters. */
  lemma {:induction false} ScanText(s: seq<byte>, n: nat)
    ensures Letters(Text(s)) == Text(s)
    ensures Scan(Text(s), n, 0) == Good(n + |Text(s)|, if |s| % 3 == 0 then 0 else 3 - |s| % 3)
    decreases |s|
  {
    hide Scan, Letters, Three;
    if |s| == 0 {
      ScanNothing(n);
    } else if |s| < 3 {
      ScanLast(s, n);
    } else {
      ScanThree(s[0], s[1], s[2], Text(s[3..]), n);
      ScanText(s[3..], n + 4);
    }
  }

  lemma ScanLast(s: seq<byte>, n: nat)
    requires 0 < |s| < 3
    ensures Letters(Text(s)) == Text(s) && Scan(Text(s), n, 0) == Good(n + 4, 3 - |s|)
  {
    hide Enc, Dec, Scan, Letters;
    var t := Text(s);
    ScanLetter(t, n);
    ScanLetter(t[1..], n + 1);
    if |s| == 1 {
      assert t[1..][1..] == [PAD, PAD];
      TwoPads(n + 2);
    } else {
      ScanLetter(t[1..][1..], n + 2);
      assert t[1..][1..][1..] == [PAD];
      ScanPad(n + 3, 0);
    }
  }

  lemma TwoPads(n: nat)
    ensures Scan([PAD, PAD], n, 0) == Good(n + 2, 2) && Letters([PAD, PAD]) == [PAD, PAD]
  {
    assert [PAD, PAD][1..] == [PAD];
    SpacesIs([PAD, PAD], 0);
    ScanPad(n + 1, 1);
  }

  lemma ScanNothing(n: nat)
    ensures Scan([], n, 0) == Good(n, 0) && Letters([]) == []
  {}

  lemma ScanPad(n: nat, c: nat)
    requires c < 2
    ensures Scan([PAD], n, c) == Good(n + 1, c + 1) && Letters([PAD]) == [PAD]
  {
    assert [PAD][1..] == [];
  }

  lemma ScanThree(a: byte, b: byte, c: byte, rest: seq<byte>, n: nat)
    ensures Scan(Three(a, b, c) + rest, n, 0) == Scan(rest, n + 4, 0)
    ensures Letters(Three(a, b, c) + rest) == Three(a, b, c) + Letters(rest)
  {
    hide Enc, Dec;
    var t := Three(a, b, c) + rest;
    ScanLetter(t, n);
    ScanLetter(t[1..], n + 1);
    ScanLetter(t[1..][1..], n + 2);
    ScanLetter(t[1..][1..][1..], n + 3);
    assert t[1..][1..][1..][1..] == rest;
  }

  lemma ScanLetter(t: seq<byte>, n: nat)
    requires t != [] && Dec(t[0]) < 64 && t[0] < 128 && t[0] !in {SPACE, CR, LF, PAD}
    ensures Scan(t, n, 0) == Scan(t[1..], n + 1, 0) && Letters(t) == [t[0]] + Letters(t[1..])
  {
    hide Dec;
    SpacesIs(t, 0);
  }

  /** Decoding what was encoded gives it back, and the first pass predicts exactly its length. */
  lemma RoundTrip(s: seq<byte>)
    ensures Scan(Text(s), 0, 0) == Good(|Text(s)|, if |s| % 3 == 0 then 0 else 3 - |s| % 3)
    ensures Decoded(Text(s)) == s && Predicted(|Text(s)|, if |s| % 3 == 0 then 0 else 3 - |s| % 3) == |s|
  {
    hide Text, Emit, Scan, Letters, Predicted;
    ScanText(s, 0);
    EmitText(s, 0);
    Lengths(Text(s));
  }

  // ---- line ends and spaces ----

  datatype Layout = Laid(text: seq<byte>) | Broken

  /** The text of an input in which line ends may stand anywhere, with spaces only before them or at the end. */
  function TextOf(s: seq<byte>): Layout
    decreases |s|
  {
    var x := Spaces(s);
    if x == |s| then Laid([])
    else if s[x] == LF then TextOf(s[x + 1..])
    else if |s| - x >= 2 && s[x] == CR && s[x + 1] == LF then TextOf(s[x + 2..])
    else if x != 0 || s[0] == CR then Broken
    else
      match TextOf(s[1..])
      case Broken => Broken
      case Laid(t) => Laid([s[0]] + t)
  }

  /** The layout changes nothing: both passes see the text alone. */
  lemma {:induction false} LayoutIgnored(s: seq<byte>, n: nat, c: nat)
    requires TextOf(s).Laid?
    ensures Scan(s, n, c) == Scan(TextOf(s).text, n, c) && Letters(s) == Letters(TextOf(s).text)
    decreases |s|
  {
    hide Dec;
    var x := Spaces(s);
    SkipSpaces(s, x);
    if x == |s| {
      assert s[x..] == [];
      SpacesIs([], 0);
    } else {
      var t := s[x..];
      assert t[1..] == s[x + 1..];
      if s[x] == LF {
        LayoutIgnored(s[x + 1..], n, c);
      } else if |s| - x >= 2 && s[x] == CR && s[x + 1] == LF {
        var u := s[x + 1..];
        assert u[1..] == s[x + 2..];
        SpacesIs(u, 0);
        LayoutIgnored(s[x + 2..], n, c);
      } else {
        var text := TextOf(s).text;
        assert text[1..] == TextOf(s[1..]).text;
        SpacesIs(text, 0);
        LayoutIgnored(s[1..], n + 1, if s[0] == PAD then c + 1 else c);
      }
    }
  }

  /** Any layout of an encoding decodes to what was encoded. */
  lemma LaidOutRoundTrip(s: seq<byte>, laid: seq<byte>)
    requires TextOf(laid) == Laid(Text(s))
    ensures Scan(laid, 0, 0).Good? && Decoded(laid) == s
  {
    hide Text, Emit, Scan, Letters, TextOf;
    LayoutIgnored(laid, 0, 0);
    RoundTrip(s);
  }

  /** A line end, with any spaces before it, may be put anywhere after whole letters. */
  lemma {:induction false} BreakInserted(a: seq<byte>, spaces: nat, crlf: bool, b: seq<byte>)
    requires forall i :: 0 <= i < |a| ==> a[i] !in {SPACE, CR, LF}
    requires TextOf(b).Laid?
    ensures TextOf(a + Break(spaces, crlf) + b) == TextOf(a + b) && TextOf(a + b).Laid?
    decreases |a|
  {
    hide Break, TextOf;
    var k := Break(spaces, crlf);
    if a == [] {
      assert a + k + b == k + b && a + b == b;
      BreakFirst(spaces, crlf, b);
    } else {
      var s, t := a + k + b, a + b;
      assert s[1..] == a[1..] + k + b && t[1..] == a[1..] + b;
      BreakInserted(a[1..], spaces, crlf, b);
      TextLetter(s);
      TextLetter(t);
    }
  }

  /** Spaces at the very end change nothing. */
  lemma {:induction false} SpacesAtEnd(a: seq<byte>, spaces: nat)
    requires TextOf(a).Laid?
    ensures TextOf(a + seq(spaces, _ => SPACE)) == TextOf(a)
    decreases |a|
  {
    hide Spaces;
    var b, x := seq(spaces, _ => SPACE), Spaces(a);
    if x == |a| {
      SpacesIs(a + b, |a + b|);
    } else {
      SpacesIs(a + b, x);
      var n := if a[x] == CR then x + 2 else x + 1;
      assert (a + b)[n..] == a[n..] + b;
      SpacesAtEnd(a[n..], spaces);
    }
  }

  lemma TextLetter(s: seq<byte>)
    requires s != [] && s[0] !in {SPACE, CR, LF}
    ensures TextOf(s) == match TextOf(s[1..]) case Broken => Broken case Laid(t) => Laid([s[0]] + t)
  {
    hide Spaces;
    SpacesIs(s, 0);
  }

  lemma BreakFirst(spaces: nat, crlf: bool, b: seq<byte>)
    ensures TextOf(Break(spaces, crlf) + b) == TextOf(b)
  {
    hide Spaces;
    var k := Break(spaces, crlf);
    SpacesIs(k + b, spaces);
    assert (k + b)[|k|..] == b;
  }

  function Break(spaces: nat, crlf: bool): seq<byte> {
    seq(spaces, _ => SPACE) + if crlf then [CR, LF] else [LF]
  }

  // ---- in plain letters ----

  /** The 64 letters in their order (table 1 of RFC 1521). */
  const UPPER: string := "ABCDEFGHIJKLMNOPQRSTUVWXYZ"
  const LOWER: string := "abcdefghijklmnopqrstuvwxyz"
  const ALPHABET: string := UPPER + LOWER + "0123456789+/"

  lemma AlphabetSize()
    ensures |UPPER| == 26 && |LOWER| == 26 && |ALPHABET| == 64
  {}

  lemma UpperAt(v: nat)
    requires v < |UPPER|
    ensures UPPER[v] as int == 65 + v
  {}

  lemma LowerAt(v: nat)
    requires v < |LOWER|
    ensures LOWER[v] as int == 97 + v
  {}

  lemma OtherAt(v: nat, s: string)
    requires v < 12 && s == "0123456789+/"
    ensures |s| == 12 && s[v] as int == if v < 10 then 48 + v else if v == 10 then 43 else 47
  {}

  function Letter(v: nat): int
    requires v < 64
  {
    AlphabetSize();
    ALPHABET[v] as int
  }

  /** The two maps are the table, in both directions; no other character but the padding has a meaning. */
  lemma TableOf(v: nat, c: byte)
    requires v < 64
    ensures Enc(v) == Letter(v)
    ensures Dec(c) < 64 ==> Letter(Dec(c)) == c
    ensures c == Letter(v) ==> Dec(c) == v
    ensures Dec(c) == 64 <==> c == '=' as int
    ensures Dec(c) < 64 || c == '=' as int || Dec(c) == 127
    ensures SPACE == ' ' as int && CR == '\r' as int && LF == '\n' as int
  {
    hide Letter;
    LetterAt(v);
    if Dec(c) < 64 {
      LetterAt(Dec(c));
      BackAgain(c);
    }
  }

  lemma LetterAt(v: nat)
    requires v < 64
    ensures Enc(v) == Letter(v)
  {
    AlphabetSize();
    if v < 26 {
      UpperAt(v);
    } else if v < 52 {
      LowerAt(v - 26);
    } else {
      OtherAt(v - 52, "0123456789+/");
    }
  }

  lemma BackAgain(c: byte)
    requires Dec(c) < 64
    ensures Enc(Dec(c)) == c
  {}

  /** The letters of the 24 bits that up to three bytes make, the missing ones as zero, and a padding for each of
      them. */
  function Group(s: seq<byte>): (r: seq<int>)
    requires 1 <= |s| <= 3
  {
    var n: int := Bits24Of(s);
    [Letter(n / 262144), Letter(n / 4096 % 64),
     if |s| > 1 then Letter(n / 64 % 64) else '=' as int, if |s| > 2 then Letter(n % 64) else '=' as int]
  }

  function Bits24Of(s: seq<byte>): (n: int)
    requires 1 <= |s| <= 3
    ensures 0 <= n < 16777216
  {
    65536 * (s[0] as int) + (if |s| > 1 then 256 * (s[1] as int) else 0) + if |s| > 2 then s[2] as int else 0
  }

  lemma GroupIs(s: seq<byte>)
    requires 1 <= |s| <= 3
    ensures |s| == 3 ==> Three(s[0], s[1], s[2]) == Group(s)
    ensures |s| < 3 ==> LastFour(s[0], if |s| > 1 then s[1] else 0, |s| > 1) == Group(s)
  {
    hide Enc, Letter, Bits24Of;
    var a, b, c := s[0], if |s| > 1 then s[1] else 0, if |s| > 2 then s[2] else 0;
    SixesOf(s, a, b, c);
    LetterAt(a / 4);
    LetterAt((a % 4) * 16 + b / 16);
    LetterAt((b % 16) * 4 + c / 64);
    LetterAt(c % 64);
  }

  lemma SixesOf(s: seq<byte>, a: byte, b: byte, c: byte)
    requires 1 <= |s| <= 3 && a == s[0] && b == (if |s| > 1 then s[1] else 0) && c == (if |s| > 2 then s[2] else 0)
    ensures var n := Bits24Of(s);
            && n / 262144 == a / 4 && n / 4096 % 64 == (a % 4) * 16 + b / 16
            && n / 64 % 64 == (b % 16) * 4 + c / 64 && n % 64 == c % 64
  {
    UpperSixes(a, b, c);
    LowerSixes(a, b, c);
  }

  /** Six bits at a time. */
  lemma UpperSixes(a: byte, b: byte, c: byte)
    ensures var n: int := 65536 * (a as int) + 256 * (b as int) + c as int;
            n / 262144 == a / 4 && n / 4096 % 64 == (a % 4) * 16 + b / 16
  {
    hide *;
    var a0: int, a1: int, b0: int, b1: int, c0: int := a / 4, a % 4, b / 16, b % 16, c;
    assert a == 4 * a0 + a1 && b == 16 * b0 + b1;
    Quotient(262144, a0, 65536 * a1 + 256 * (b as int) + c0);
    Quotient(4096, 16 * (a as int) + b0, 256 * b1 + c0);
    Quotient(64, a0, 16 * a1 + b0);
  }

  lemma LowerSixes(a: byte, b: byte, c: byte)
    ensures var n: int := 65536 * (a as int) + 256 * (b as int) + c as int;
            n / 64 % 64 == (b % 16) * 4 + c / 64 && n % 64 == c % 64
  {
    hide *;
    var a0: int, b0: int, b1: int, c0: int, c1: int := a, b / 16, b % 16, c / 64, c % 64;
    assert b == 16 * b0 + b1 && c == 64 * c0 + c1;
    Quotient(64, 1024 * a0 + 4 * (b as int) + c0, c1);
    Quotient(64, 16 * a0 + b0, 4 * b1 + c0);
  }

  lemma Quotient(d: int, q: int, r: int)
    requires d > 0 && 0 <= r < d
    ensures (d * q + r) / d == q && (d * q + r) % d == r
  {
    Limbs.FloorIs(d * q + r, q, d, r);
  }

  /** The i-th four letters of an encoding are those of the i-th three bytes, the last of which may be fewer. */
  lemma {:induction false} TextGroups(s: seq<byte>, i: nat)
    requires 3 * i < |s|
    ensures 4 * i + 4 <= |Text(s)|
    ensures Text(s)[4 * i..4 * i + 4] == Group(s[3 * i..if 3 * i + 3 <= |s| then 3 * i + 3 else |s|])
    decreases i
  {
    hide Text, Three, LastFour, Group;
    if i == 0 {
      assert s[0..] == s;
      if |s| >= 3 {
        TextStep(s, 0);
        GroupIs(s[..3]);
        assert s[0..3] == s[..3];
      } else {
        TextEnd(s, 0);
        GroupIs(s);
        assert Text(s)[0..4] == Text(s) && s[0..|s|] == s;
      }
    } else {
      assert s[0..] == s;
      TextStep(s, 0);
      TextGroups(s[3..], i - 1);
      var four, rest := Three(s[0], s[1], s[2]), Text(s[3..]);
      assert (four + rest)[4 * i..4 * i + 4] == rest[4 * (i - 1)..4 * (i - 1) + 4];
      var end := if 3 * i + 3 <= |s| then 3 * i + 3 else |s|;
      assert s[3..][3 * (i - 1)..end - 3] == s[3 * i..end];
    }
  }

  // ---- what is refused ----

  predicate Known(c: byte) { c == PAD || Dec(c) < 64 }

  /** Letters of the table, and at most two paddings behind them. */
  ghost predicate Proper(t: seq<byte>, c: nat) {
    exists k: nat :: Cut(t, c, k)
  }

  ghost predicate Cut(t: seq<byte>, c: nat, k: nat) {
    && k <= |t| && |t| - k + c <= 2 && (c > 0 ==> k == 0)
    && (forall i :: 0 <= i < k ==> t[i] != PAD && Dec(t[i]) < 64) && (forall i :: k <= i < |t| ==> t[i] == PAD)
  }

  /** The input is refused exactly when spaces or a CR stand where they must not, or its text is not made of letters
      of the table with at most two paddings behind them. */
  lemma RefusedExactly(s: seq<byte>)
    ensures Scan(s, 0, 0) == Bad <==> TextOf(s).Broken? || !Proper(TextOf(s).text, 0)
  {
    hide Scan, TextOf, Proper;
    if TextOf(s).Broken? {
      BrokenRefused(s, 0, 0);
    } else {
      LayoutIgnored(s, 0, 0);
      PlainText(s);
      TextRefused(TextOf(s).text, 0, 0);
    }
  }

  lemma {:induction false} BrokenRefused(s: seq<byte>, n: nat, c: nat)
    requires TextOf(s).Broken?
    ensures Scan(s, n, c) == Bad
    decreases |s|
  {
    hide Spaces;
    var x := Spaces(s);
    if x < |s| {
      if s[x] == LF {
        BrokenRefused(s[x + 1..], n, c);
      } else if |s| - x >= 2 && s[x] == CR && s[x + 1] == LF {
        var u := s[x + 1..];
        SpacesIs(u, 0);
        assert u[1..] == s[x + 2..];
        BrokenRefused(s[x + 2..], n, c);
        assert Scan(u, n, c) == Scan(s[x + 2..], n, c);
      } else if x == 0 && s[0] != CR {
        BrokenRefused(s[1..], n + 1, if s[0] == PAD then c + 1 else c);
      }
    }
  }

  lemma {:induction false} PlainText(s: seq<byte>)
    requires TextOf(s).Laid?
    ensures forall i :: 0 <= i < |TextOf(s).text| ==> TextOf(s).text[i] !in {SPACE, CR, LF}
    decreases |s|
  {
    hide Spaces;
    var x := Spaces(s);
    if x < |s| {
      if s[x] == LF {
        PlainText(s[x + 1..]);
      } else if |s| - x >= 2 && s[x] == CR && s[x + 1] == LF {
        PlainText(s[x + 2..]);
      } else {
        PlainText(s[1..]);
      }
    }
  }

  lemma {:induction false} TextRefused(t: seq<byte>, n: nat, c: nat)
    requires forall i :: 0 <= i < |t| ==> t[i] !in {SPACE, CR, LF}
    requires c <= 2
    ensures Scan(t, n, c) == Bad <==> !Proper(t, c)
    decreases |t|
  {
    hide Spaces, Proper, Dec, Scan;
    ScanOne(t, n, c);
    ProperOne(t, c);
    if t != [] && Known(t[0]) && (if t[0] == PAD then c < 2 else c == 0) {
      TextRefused(t[1..], n + 1, if t[0] == PAD then c + 1 else c);
    }
  }

  lemma ScanOne(t: seq<byte>, n: nat, c: nat)
    requires (t != [] ==> t[0] !in {SPACE, CR, LF}) && c <= 2
    ensures Scan(t, n, c) ==
      if t == [] then Good(n, c)
      else if !Known(t[0]) || (if t[0] == PAD then c == 2 else c > 0) then Bad
      else Scan(t[1..], n + 1, if t[0] == PAD then c + 1 else c)
  {
    hide Spaces;
    SpacesIs(t, 0);
  }

  lemma ProperOne(t: seq<byte>, c: nat)
    requires c <= 2
    ensures var d := if t != [] && t[0] == PAD then c + 1 else c;
            Proper(t, c) <==> t == [] || (Known(t[0]) && (if t[0] == PAD then c < 2 else c == 0) && Proper(t[1..], d))
  {
    hide Dec, Cut, Known;
    if t == [] {
      CutNothing(c);
    } else {
      var d := if t[0] == PAD then c + 1 else c;
      if Proper(t, c) {
        var k: nat :| Cut(t, c, k);
        CutRest(t, c, k);
      }
      if Known(t[0]) && (if t[0] == PAD then c < 2 else c == 0) && Proper(t[1..], d) {
        var k: nat :| Cut(t[1..], d, k);
        CutMore(t, c, k);
      }
    }
  }

  lemma CutNothing(c: nat)
    requires c <= 2
    ensures Cut([], c, 0)
  {}

  lemma CutRest(t: seq<byte>, c: nat, k: nat)
    requires t != [] && Cut(t, c, k)
    ensures Known(t[0])
    ensures if t[0] == PAD then c < 2 && Cut(t[1..], c + 1, 0) else c == 0 && k > 0 && Cut(t[1..], c, k - 1)
  {
    hide Dec;
    if k > 0 { assert t[0] != PAD && Dec(t[0]) < 64; } else { assert t[0] == PAD; }
  }

  lemma CutMore(t: seq<byte>, c: nat, k: nat)
    requires t != [] && Known(t[0]) && (if t[0] == PAD then c < 2 else c == 0)
    requires Cut(t[1..], if t[0] == PAD then c + 1 else c, k)
    ensures Cut(t, c, if t[0] == PAD then 0 else k + 1)
  {
    hide Dec;
    assert forall i :: 1 <= i < |t| ==> t[i] == t[1..][i - 1];
  }

  // ---- what is decoded, group by group ----

  /** The 24 bits of four letters, a padding counting as zero. */
  function Four(t: seq<byte>): (n: nat)
    requires |t| >= 4
    ensures n < 16777216
  {
    262144 * (Dec(t[0]) % 64) + 4096 * (Dec(t[1]) % 64) + 64 * (Dec(t[2]) % 64) + Dec(t[3]) % 64
  }

  function PadsOf(t: seq<byte>): nat
    requires |t| >= 4
  {
    (if t[0] == PAD then 1 else 0) + (if t[1] == PAD then 1 else 0) + (if t[2] == PAD then 1 else 0)
    + if t[3] == PAD then 1 else 0
  }

  /** The bytes of a text of letters: three of each four letters, but one fewer for each padding so far; fewer than four
      letters at the end give none. */
  function GroupBytes(t: seq<byte>, pads: nat): seq<byte> {
    if |t| < 4 then []
    else
      var n, p := Four(t), pads + PadsOf(t);
      (if p < 3 then [n / 65536] else []) + (if p < 2 then [n / 256 % 256] else []) + (if p < 1 then [n % 256] else [])
      + GroupBytes(t[4..], p)
  }

  lemma DecodedGroups(src: seq<byte>)
    ensures Decoded(src) == GroupBytes(Letters(src), 0)
  {
    EmitGroups(Letters(src), 0, 0);
  }

  lemma {:induction false} EmitGroups(t: seq<byte>, pads: nat, x: nat)
    ensures Emit(t, 3 - pads, 0, x) == GroupBytes(t, pads)
    decreases |t|
  {
    hide Emit, Put, Shift, Dec, Four, PadsOf;
    if |t| < 4 {
      EmitFew(t, 3 - pads, 0, x);
    } else {
      EmitAny(t, pads, x);
      EmitGroups(t[4..], pads + PadsOf(t), ShiftAll(x, t));
      PutOf(pads + PadsOf(t), ShiftAll(x, t), t, x);
    }
  }

  lemma {:induction false} EmitFew(t: seq<byte>, j: int, n: nat, x: nat)
    requires n + |t| < 4
    ensures Emit(t, j, n, x) == []
    decreases |t|
  {
    hide Shift, Less, Put;
    if t != [] {
      EmitFew(t[1..], Less(j, t[0]), n + 1, Shift(x, t[0]));
    }
  }

  /** Four letters of any kind. */
  lemma EmitAny(t: seq<byte>, pads: nat, x: nat)
    requires |t| >= 4
    ensures var p, x' := pads + PadsOf(t), ShiftAll(x, t);
            Emit(t, 3 - pads, 0, x) == Put(3 - p, x') + Emit(t[4..], 3 - p, 0, x')
  {
    hide Emit, Put, Shift, Dec;
    var j := 3 - pads;
    EmitOne(t, j, 0, x);
    EmitOne(t[1..], Less(j, t[0]), 1, Shift(x, t[0]));
    assert t[1..][1..] == t[2..];
    EmitOne(t[2..], Less(Less(j, t[0]), t[1]), 2, Shift(Shift(x, t[0]), t[1]));
    assert t[2..][1..] == t[3..];
    EmitOne(t[3..], Less(Less(Less(j, t[0]), t[1]), t[2]), 3, Shift(Shift(Shift(x, t[0]), t[1]), t[2]));
    assert t[3..][1..] == t[4..];
  }

  lemma PutOf(p: nat, x': nat, t: seq<byte>, x: nat)
    requires |t| >= 4 && x' == ShiftAll(x, t)
    ensures var n := Four(t);
            Put(3 - p, x') == (if p < 3 then [n / 65536] else []) + (if p < 2 then [n / 256 % 256] else [])
              + (if p < 1 then [n % 256] else [])
  {
    hide Shift, Dec;
    ShiftWord(x, t[0], t[1], t[2], t[3]);
    LowBytes(x', Four(t));
  }

  lemma LowBytes(x: nat, n: nat)
    requires x % 16777216 == n
    ensures x / 65536 % 256 == n / 65536 && x / 256 % 256 == n / 256 % 256 && x % 256 == n % 256 && n / 65536 < 256
  {
    var a, b, c := n / 65536, n / 256 % 256, n % 256;
    assert n == a * 65536 + b * 256 + c;
    BytesOf(x, a, b, c);
  }

  /** The prediction is the number of whole or begun bytes in six bits a character, less the paddings. */
  lemma PredictedBytes(n: nat, pads: nat)
    ensures Predicted(n, pads) == (6 * n + 7) / 8 - pads
  {
    assert n == 8 * (n / 8) + n % 8;
    Limbs.FloorIs(6 * n + 7, 6 * (n / 8) + (6 * (n % 8) + 7) / 8, 8, (6 * (n % 8) + 7) % 8);
  }
}
