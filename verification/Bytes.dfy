/** Bytes, the variable-length size field, and the readers and writers of the packet codec.

    A cursor into a buffer (`unsigned char **pptr`) is an index that each reader and writer returns
    advanced. A writer's effect is one splice of the bytes it stands for. */
module Bytes {

  type byte = x: int | 0 <= x < 256

  /** s with b written over it from position p. */
  ghost function Splice(s: seq<byte>, p: nat, b: seq<byte>): (r: seq<byte>)
    requires p + |b| <= |s|
    ensures |r| == |s|
  {
    s[..p] + b + s[p + |b|..]
  }

  lemma SpliceTwice(s: seq<byte>, p: nat, a: seq<byte>, b: seq<byte>)
    requires p + |a| + |b| <= |s|
    ensures Splice(Splice(s, p, a), p + |a|, b) == Splice(s, p, a + b)
  {
    var t := Splice(s, p, a);
    assert t[..p + |a|] == s[..p] + a;
    assert t[p + |a| + |b|..] == s[p + |a| + |b|..];
    assert (s[..p] + a) + b == s[..p] + (a + b);
  }

  lemma SpliceNothing(s: seq<byte>, p: nat)
    requires p <= |s|
    ensures Splice(s, p, []) == s
  {}

  /** now is the buffer before with b written at its start. */
  ghost predicate Written(before: seq<byte>, now: seq<byte>, b: seq<byte>) {
    |b| <= |before| && now == Splice(before, 0, b)
  }

  lemma WrittenIs(before: seq<byte>, now: seq<byte>, b: seq<byte>)
    requires |b| <= |before| && now == Splice(before, 0, b)
    ensures Written(before, now, b)
  {}

  // ---- integers and strings ----

  /** Two bytes, most significant first; larger numbers lose their high part. */
  function U16(n: nat): (r: seq<byte>)
    ensures |r| == 2
  {
    [(n / 256) % 256, n % 256]
  }

  function FromU16(h: byte, l: byte): (r: nat)
    ensures r < 65536 && U16(r) == [h, l]
  {
    256 * h + l
  }

  lemma U16RoundTrip(n: nat)
    requires n < 65536
    ensures FromU16(U16(n)[0], U16(n)[1]) == n
  {}

  /** A length-prefixed string. */
  function StrBytes(s: seq<byte>): (r: seq<byte>)
    ensures |r| == 2 + |s|
  {
    U16(|s|) + s
  }

  method WriteChar(buf: array<byte>, p: nat, c: byte) returns (p': nat)
    requires p < buf.Length
    modifies buf
    ensures p' == p + 1 && buf[..] == Splice(old(buf[..]), p, [c])
  {
    buf[p] := c;
    p' := p + 1;
  }

  method WriteInt(buf: array<byte>, p: nat, n: nat) returns (p': nat)
    requires p + 2 <= buf.Length
    modifies buf
    ensures p' == p + 2 && buf[..] == Splice(old(buf[..]), p, U16(n))
  {
    buf[p] := (n / 256) % 256;
    buf[p + 1] := n % 256;
    p' := p + 2;
  }

  /** memcpy into the buffer. */
  method CopyBytes(buf: array<byte>, p: nat, s: seq<byte>) returns (p': nat)
    requires p + |s| <= buf.Length
    modifies buf
    ensures p' == p + |s| && buf[..] == Splice(old(buf[..]), p, s)
  {
    var i := 0;
    while i < |s|
      invariant 0 <= i <= |s|
      invariant forall k :: 0 <= k < buf.Length ==> buf[k] == if p <= k < p + i then s[k - p] else old(buf[k])
    {
      buf[p + i] := s[i];
      i := i + 1;
    }
    p' := p + |s|;
  }

  method WriteString(buf: array<byte>, p: nat, s: seq<byte>) returns (p': nat)
    requires p + 2 + |s| <= buf.Length
    modifies buf
    ensures p' == p + 2 + |s| && buf[..] == Splice(old(buf[..]), p, StrBytes(s))
  {
    ghost var b := buf[..];
    p' := WriteInt(buf, p, |s|);
    p' := CopyBytes(buf, p', s);
    SpliceTwice(b, p, U16(|s|), s);
  }

  // ---- the variable-length size field ----

  const MAX_REMAINING: int := 268435455

  /** Seven bits a byte, least significant first, the top bit marking that more follow. */
  function LenBytes(n: nat): (r: seq<byte>)
    ensures |r| >= 1
  {
    if n < 128 then [n] else [n % 128 + 128] + LenBytes(n / 128)
  }

  lemma LenBytesStep(n: nat, done: seq<byte>)
    ensures n < 128 ==> LenBytes(n) == [n % 128] && n / 128 == 0
    ensures n >= 128 ==> done + LenBytes(n) == (done + [n % 128 + 128]) + LenBytes(n / 128) && n / 128 > 0
  {
    if n >= 128 { assert done + ([n % 128 + 128] + LenBytes(n / 128)) == (done + [n % 128 + 128]) + LenBytes(n / 128); }
  }

  method EncodeLen(buf: array<byte>, p: nat, length: nat) returns (rc: nat)
    requires p + |LenBytes(length)| <= buf.Length
    modifies buf
    ensures rc == |LenBytes(length)| && buf[..] == Splice(old(buf[..]), p, LenBytes(length))
  {
    hide LenBytes, Splice;
    ghost var b, done: seq<byte> := buf[..], [];
    var n, more := length, true;
    rc := 0;
    SpliceNothing(b, p);
    while more
      invariant rc == |done| && p + rc <= buf.Length
      invariant more ==> done + LenBytes(n) == LenBytes(length)
      invariant !more ==> done == LenBytes(length)
      invariant buf[..] == Splice(b, p, done)
      decreases more, n
    {
      LenBytesStep(n, done);
      var d := n % 128;
      n := n / 128;
      if n > 0 {
        d := d + 128;
      }
      var q := WriteChar(buf, p + rc, d);
      SpliceTwice(b, p, done, [d]);
      done := done + [d];
      rc := rc + 1;
      more := n > 0;
    }
  }

  /** What a decoder makes of the bytes from p: the value and the number of bytes counted. It stops after
      four bytes; a fifth is counted as bad data without being read. */
  function DecodeFrom(s: seq<byte>, p: nat, len: nat, mult: nat): (r: (nat, nat))
    requires p <= |s| && len <= 4
    ensures len < r.1 <= 5
    decreases 4 - len
  {
    if len == 4 then (0, 5)
    else if p == |s| then (0, len + 1)
    else if s[p] < 128 then (s[p] * mult, len + 1)
    else
      var rest := DecodeFrom(s, p + 1, len + 1, mult * 128);
      ((s[p] - 128) * mult + rest.0, rest.1)
  }

  method DecodeLen(s: seq<byte>, p: nat) returns (value: nat, len: nat)
    requires p <= |s|
    ensures (value, len) == DecodeFrom(s, p, 0, 1)
  {
    hide DecodeFrom, Resumed;
    var multiplier: nat, more := 1, true;
    value, len := 0, 0;
    ResumedStart(s, p);
    while more
      invariant 0 <= len <= 4 && p + len <= |s|
      invariant more ==> DecodeFrom(s, p, 0, 1) == Resumed(s, p, value, len, multiplier)
      invariant !more ==> DecodeFrom(s, p, 0, 1) == (value, len)
      decreases more, 4 - len
    {
      ResumedNext(s, p, value, len, multiplier);
      len := len + 1;
      if len > 4 {
        return;
      }
      if p + len - 1 == |s| {
        return;
      }
      var c: nat := s[p + len - 1];
      value := value + (c % 128) * multiplier;
      multiplier := multiplier * 128;
      more := c >= 128;
    }
  }

  lemma ResumedStart(s: seq<byte>, p: nat)
    requires p <= |s|
    ensures Resumed(s, p, 0, 0, 1) == DecodeFrom(s, p, 0, 1)
  {}

  /** One more byte of the size field. */
  lemma ResumedNext(s: seq<byte>, p: nat, value: nat, len: nat, mult: nat)
    requires len <= 4 && p + len <= |s|
    ensures Resumed(s, p, value, len, mult) ==
      if len == 4 then (value, 5)
      else if p + len == |s| then (value, len + 1)
      else if s[p + len] < 128 then (value + (s[p + len] % 128) * mult, len + 1)
      else Resumed(s, p, value + (s[p + len] % 128) * mult, len + 1, mult * 128)
  {}

  /** The decoder's answer once `value` has been read from the first `len` bytes. */
  ghost function Resumed(s: seq<byte>, p: nat, value: nat, len: nat, mult: nat): (nat, nat)
    requires p + len <= |s| && len <= 4
  {
    var rest := DecodeFrom(s, p + len, len, mult);
    (value + rest.0, rest.1)
  }

  /** The size of a size field. */
  lemma LenBytesSize(n: nat)
    ensures n < 128 ==> |LenBytes(n)| == 1
    ensures 128 <= n < 16384 ==> |LenBytes(n)| == 2
    ensures 16384 <= n < 2097152 ==> |LenBytes(n)| == 3
    ensures 2097152 <= n <= MAX_REMAINING ==> |LenBytes(n)| == 4
    ensures n > MAX_REMAINING ==> |LenBytes(n)| > 4
  {
    if n >= 128 {
      var m := n / 128;
      if m >= 128 {
        var k := m / 128;
        if k >= 128 {
          assert |LenBytes(k / 128)| >= 1;
          if n > MAX_REMAINING { assert k / 128 >= 128; }
        }
      }
    }
  }

  /** Decoding the encoding of n within the limit, anywhere in a buffer, gives n back. */
  lemma {:induction false} DecodeEncodeAt(s: seq<byte>, p: nat, n: nat, len: nat, mult: nat)
    requires len + |LenBytes(n)| <= 4 && p + |LenBytes(n)| <= |s|
    requires s[p..p + |LenBytes(n)|] == LenBytes(n)
    ensures DecodeFrom(s, p, len, mult) == (n * mult, len + |LenBytes(n)|)
    decreases n
  {
    assert s[p] == s[p..p + |LenBytes(n)|][0];
    if n >= 128 {
      assert s[p + 1..p + 1 + |LenBytes(n / 128)|] == s[p..p + |LenBytes(n)|][1..];
      DecodeEncodeAt(s, p + 1, n / 128, len + 1, mult * 128);
      SevenBits(n, mult);
    }
  }

  lemma SevenBits(n: nat, mult: nat)
    ensures (n % 128) * mult + (n / 128) * (mult * 128) == n * mult
  {
    var h, l := n / 128, n % 128;
    assert n == h * 128 + l;
    assert (h * 128 + l) * mult == (h * 128) * mult + l * mult;
    assert (h * 128) * mult == h * (mult * 128);
  }

  /** The round trip of the size field holds exactly up to the protocol's limit. */
  lemma LenRoundTrip(n: nat)
    ensures DecodeFrom(LenBytes(n), 0, 0, 1) == (n, |LenBytes(n)|) <==> n <= MAX_REMAINING
  {
    LenBytesSize(n);
    if n <= MAX_REMAINING {
      assert LenBytes(n)[0..0 + |LenBytes(n)|] == LenBytes(n);
      DecodeEncodeAt(LenBytes(n), 0, n, 0, 1);
    } else {
      DecodeTooLong(LenBytes(n), 0, 0, 1, n);
    }
  }

  lemma {:induction false} DecodeTooLong(s: seq<byte>, p: nat, len: nat, mult: nat, n: nat)
    requires p <= |s| && s[p..] == LenBytes(n) && len <= 4 && len + |LenBytes(n)| > 4
    ensures DecodeFrom(s, p, len, mult).1 == 5
    decreases 4 - len
  {
    if len < 4 {
      assert s[p] == s[p..][0];
      if n >= 128 {
        assert s[p + 1..] == s[p..][1..];
        DecodeTooLong(s, p + 1, len + 1, mult * 128, n / 128);
      }
    }
  }

  /** The size estimate of MQTTPacket_len, which compares after counting the header byte. */
  function PacketLen(rem: nat): (r: nat)
  {
    var n := rem + 1;
    if n < 128 then n + 1 else if n < 16384 then n + 2 else if n < 2097151 then n + 3 else n + 4
  }

  lemma PacketLenLonger(rem: nat)
    ensures PacketLen(rem) > rem
  {}

  /** The estimate covers the packet, and is one too large only at the four border sizes. */
  lemma PacketLenCovers(rem: nat)
    requires rem <= MAX_REMAINING
    ensures var exact := 1 + |LenBytes(rem)| + rem;
            PacketLen(rem) == if rem in {127, 16383, 2097150, 2097151} then exact + 1 else exact
  {
    LenBytesSize(rem);
  }
}
