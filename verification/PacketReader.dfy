/** Reading a packet from a byte stream: the blocking reader, and the resumable one that keeps its place in a
    transport record between calls. */
module PacketReader {
  import opened Bytes
  import opened Codec

  // ---- the stream ----

  /** A stream and how it will be cut: each call of the read function takes the next offer, and gets as many
      bytes as were offered, asked for and are there. No offer left, or an offer of none, means "call again". */
  class Source {
    const data: seq<byte>
    var pos: nat
    var offers: seq<nat>

    ghost predicate Valid()
      reads this
    {
      pos <= |data|
    }

    constructor (d: seq<byte>, p: nat, o: seq<nat>)
      requires p <= |d|
      ensures Valid() && data == d && pos == p && offers == o
    {
      data, pos, offers := d, p, o;
    }

    method Get(buf: array<byte>, at: nat, n: nat) returns (k: nat)
      requires Valid() && at + n <= buf.Length
      modifies this, buf
      ensures Valid() && k <= n && pos == old(pos) + k
      ensures buf[..] == Splice(old(buf[..]), at, data[old(pos)..pos])
      ensures offers == if old(offers) == [] then [] else old(offers)[1..]
      ensures k > 0 <==> old(offers) != [] && old(offers)[0] > 0 && n > 0 && old(pos) < |data|
    {
      k := 0;
      if offers != [] {
        k := if offers[0] < n then offers[0] else n;
        k := if k < |data| - pos then k else |data| - pos;
        offers := offers[1..];
      }
      var p := CopyBytes(buf, at, data[pos..pos + k]);
      pos := pos + k;
    }

    /** The same for one byte. */
    method GetByte() returns (k: nat, c: byte)
      requires Valid()
      modifies this
      ensures Valid() && k <= 1 && pos == old(pos) + k
      ensures k == 1 ==> c == data[old(pos)]
      ensures offers == if old(offers) == [] then [] else old(offers)[1..]
      ensures k > 0 <==> old(offers) != [] && old(offers)[0] > 0 && old(pos) < |data|
    {
      var b := new byte[1];
      k := Get(b, 0, 1);
      c := b[0];
      assert k == 1 ==> Splice([b[0]], 0, data[old(pos)..pos]) == data[old(pos)..pos];
    }

    /** The blocking read function for one byte. */
    method GetOne() returns (k: nat, c: byte)
      requires Valid()
      modifies this`pos
      ensures Valid() && k == (if old(pos) < |data| then 1 else 0) && pos == old(pos) + k
      ensures k == 1 ==> c == data[old(pos)]
    {
      var b := new byte[1];
      k := GetAll(b, 0, 1);
      c := b[0];
      assert k == 1 ==> Splice([b[0]], 0, data[old(pos)..pos]) == data[old(pos)..pos];
    }

    /** The blocking read function: all that was asked for, if it is there. */
    method GetAll(buf: array<byte>, at: nat, n: nat) returns (k: nat)
      requires Valid() && at + n <= buf.Length
      modifies this`pos, buf
      ensures Valid() && k == (if n <= |data| - old(pos) then n else |data| - old(pos)) && pos == old(pos) + k
      ensures buf[..] == Splice(old(buf[..]), at, data[old(pos)..pos])
    {
      k := if n <= |data| - pos then n else |data| - pos;
      var p := CopyBytes(buf, at, data[pos..pos + k]);
      pos := pos + k;
    }
  }

  // ---- the packet at a place in the stream ----

  function FieldValue(s: seq<byte>, p: nat): nat requires p < |s| { DecodeFrom(s, p + 1, 0, 1).0 }
  function FieldSize(s: seq<byte>, p: nat): nat requires p < |s| { DecodeFrom(s, p + 1, 0, 1).1 }
  function BodyAt(s: seq<byte>, p: nat): nat requires p < |s| { p + 1 + FieldSize(s, p) }
  function EndAt(s: seq<byte>, p: nat): nat requires p < |s| { BodyAt(s, p) + FieldValue(s, p) }

  /** A whole packet of a type that is not reserved starts at p, and its size field ends within four bytes. */
  ghost predicate PacketAt(s: seq<byte>, p: nat) {
    p < |s| && HeaderKind(s[p]) != 0 && FieldSize(s, p) <= 4 && EndAt(s, p) <= |s|
  }

  /** A size field that does not end within four bytes, or a whole packet, starts at p. */
  ghost predicate Readable(s: seq<byte>, p: nat) {
    p < |s| && HeaderKind(s[p]) != 0 && (FieldSize(s, p) == 5 || EndAt(s, p) <= |s|)
  }

  /** The packet cannot be read: its size field is too long, or the buffer is too small for it. */
  ghost predicate Unfit(s: seq<byte>, p: nat, size: nat)
    requires Readable(s, p)
  {
    FieldSize(s, p) == 5 || |Image(s, p)| > size
  }

  /** What a reader leaves in its buffer: the size field is written anew, in its shortest form. */
  function Image(s: seq<byte>, p: nat): (r: seq<byte>)
    requires PacketAt(s, p)
    ensures |r| == 1 + |LenBytes(FieldValue(s, p))| + FieldValue(s, p)
  {
    [s[p]] + LenBytes(FieldValue(s, p)) + s[BodyAt(s, p)..EndAt(s, p)]
  }

  // ---- blocking ----

  /** Where reading the size field of the packet at p stops: behind its last byte, behind four bytes of a field
      that is too long, or at the end of the stream. */
  function FieldEnd(s: seq<byte>, p: nat): (r: nat)
    requires p < |s|
    ensures p < r <= |s|
  {
    var n := if FieldSize(s, p) == 5 then 4 else FieldSize(s, p);
    if p + 1 + n <= |s| then p + 1 + n else |s|
  }

  /** MQTTPacket_decode over the blocking read function. */
  method DecodeBlocking(src: Source, ghost p: nat) returns (value: nat)
    requires src.Valid() && p < |src.data| && src.pos == p + 1
    modifies src`pos
    ensures src.Valid() && value == FieldValue(src.data, p) && src.pos == FieldEnd(src.data, p)
  {
    hide DecodeFrom, Resumed;
    var multiplier: nat, len: nat, more := 1, 0, true;
    value := 0;
    ResumedStart(src.data, p + 1);
    while more
      invariant src.Valid() && 0 <= len <= 4 && src.pos == p + 1 + len
      invariant more ==> DecodeFrom(src.data, p + 1, 0, 1) == Resumed(src.data, p + 1, value, len, multiplier)
      invariant !more ==> DecodeFrom(src.data, p + 1, 0, 1) == (value, len)
      decreases more, 4 - len
    {
      ResumedNext(src.data, p + 1, value, len, multiplier);
      len := len + 1;
      if len > 4 {
        return;
      }
      var k, c := src.GetOne();
      if k != 1 {
        return;
      }
      value := value + (c % 128) * multiplier;
      multiplier := multiplier * 128;
      more := c >= 128;
    }
  }

  /** One more byte of a size field that does not run into the end of the stream. */
  lemma ResumedStep(s: seq<byte>, p: nat, value: nat, len: nat, mult: nat)
    requires p <= |s| && len <= 4 && p + len <= |s|
    requires var d := DecodeFrom(s, p, 0, 1); d == Resumed(s, p, value, len, mult) && (d.1 == 5 || p + d.1 <= |s|)
    ensures var d := DecodeFrom(s, p, 0, 1);
            if len == 4 then d == (value, 5)
            else
              && p + len < |s| && len < d.1
              && (s[p + len] < 128 ==> d == (value + (s[p + len] % 128) * mult, len + 1))
              && (s[p + len] >= 128 ==> d == Resumed(s, p, value + (s[p + len] % 128) * mult, len + 1, mult * 128))
  {
    ResumedNext(s, p, value, len, mult);
  }

  const READ_ERROR := -1

  /** What the blocking reader makes of the stream from p on: at the end of the stream an error; for a packet
      that the buffer cannot hold an error with the front of the packet in the buffer; and otherwise as much of
      the packet as there is, with its type if that is all of it. */
  ghost predicate ReadOutcome(s: seq<byte>, p: nat, b0: seq<byte>, rc: int, pos: nat, b: seq<byte>) {
    if p >= |s| then rc == READ_ERROR && pos == p && b == b0
    else
      var v, q := FieldValue(s, p), FieldEnd(s, p);
      var front := [s[p]] + LenBytes(v);
      if |front| + v > |b0| then rc == READ_ERROR && pos == q && |front| <= |b0| && b == Splice(b0, 0, front)
      else
        && q <= pos == (if q + v <= |s| then q + v else |s|)
        && b == Splice(b0, 0, front + s[q..pos])
        && rc == if pos == q + v then HeaderKind(s[p]) else READ_ERROR
  }

  /** MQTTPacket_read. */
  method ReadBlocking(buf: array<byte>, src: Source) returns (rc: int)
    requires src.Valid() && buf.Length >= 5
    modifies src`pos, buf
    ensures src.Valid() && ReadOutcome(src.data, old(src.pos), old(buf[..]), rc, src.pos, buf[..])
  {
    hide DecodeFrom, LenBytes, Splice;
    ghost var b, p, s := buf[..], src.pos, src.data;
    var k := src.GetAll(buf, 0, 1);
    if k != 1 {
      assert s[p..src.pos] == [];
      SpliceNothing(b, 0);
      return READ_ERROR;
    }
    var len := 1;
    var remLen := DecodeBlocking(src, p);
    FieldBound(s, p);
    LenBytesSize(remLen);
    ghost var done, q := [s[p]], FieldEnd(s, p);
    assert s[p..p + 1] == done;
    var n := EncodeLen(buf, 1, remLen);
    SpliceTwice(b, 0, done, LenBytes(remLen));
    len := len + n;
    if remLen + len > buf.Length {
      return READ_ERROR;
    }
    SpliceNothing(buf[..], len);
    assert s[q..q] == [];
    if remLen != 0 {
      k := src.GetAll(buf, len, remLen);
      SpliceTwice(b, 0, done + LenBytes(remLen), s[q..src.pos]);
      if k != remLen {
        return READ_ERROR;
      }
    } else {
      SpliceTwice(b, 0, done + LenBytes(remLen), s[q..q]);
    }
    HeadOf(b, done + LenBytes(remLen) + s[q..src.pos]);
    rc := HeaderKind(buf[0]);
  }

  lemma HeadOf(b: seq<byte>, a: seq<byte>)
    requires 0 < |a| <= |b|
    ensures Splice(b, 0, a)[0] == a[0]
  {}

  /** A whole packet that fits is read as a whole. */
  lemma ReadWhole(s: seq<byte>, p: nat, b0: seq<byte>, rc: int, pos: nat, b: seq<byte>)
    requires PacketAt(s, p) && |Image(s, p)| <= |b0| && ReadOutcome(s, p, b0, rc, pos, b)
    ensures rc == HeaderKind(s[p]) && pos == EndAt(s, p) && b == Splice(b0, 0, Image(s, p))
  {
    hide DecodeFrom, LenBytes, Splice;
  }

  // ---- resumable ----

  /** How many offers are of at least one byte. */
  function Useful(offers: seq<nat>): nat {
    if offers == [] then 0 else (if offers[0] > 0 then 1 else 0) + Useful(offers[1..])
  }

  /** Every useful offer taken has brought a byte, and at least one offer is taken if there is one. */
  ghost predicate Progress(pos: nat, offers: seq<nat>, src: Source)
    reads src
  {
    && src.pos + Useful(src.offers) >= pos + Useful(offers) && |src.offers| <= |offers|
    && (offers != [] ==> |src.offers| < |offers|)
  }

  class Transport {
    var multiplier: nat
    var remLen: nat
    var len: nat
    var state: nat

    constructor ()
      ensures state == 0
    {
      multiplier, remLen, len, state := 0, 0, 0, 0;
    }

    /** In the size field of the packet at p. */
    ghost predicate InField(src: Source, p: nat)
      reads this, src
    {
      && src.Valid() && Readable(src.data, p) && len < 4 && len < FieldSize(src.data, p) && src.pos == p + 1 + len
      && (len > 0 ==> DecodeFrom(src.data, p + 1, 0, 1) == Resumed(src.data, p + 1, remLen, len, multiplier))
    }

    /** Where the reading of the packet at p stands; b0 is the buffer as it was before. */
    ghost predicate Place(src: Source, p: nat, b0: seq<byte>, b: seq<byte>)
      reads this, src
    {
      && src.Valid() && Readable(src.data, p) && 5 <= |b0|
      && (match state
          case 0 => src.pos == p && b == b0
          case 1 => InField(src, p) && b == Splice(b0, 0, [src.data[p]])
          case 2 =>
            && !Unfit(src.data, p, |b0|)
            && 1 + |LenBytes(FieldValue(src.data, p))| <= len && 0 < remLen
            && len + remLen == |Image(src.data, p)| && src.pos + remLen == EndAt(src.data, p)
            && b == Splice(b0, 0, Image(src.data, p)[..len])
          case _ => false)
    }

    /** MQTTPacket_decodenb. */
    method DecodeNb(src: Source, ghost p: nat) returns (rc: int)
      requires InField(src, p)
      modifies this`multiplier, this`remLen, this`len, src
      ensures rc == 0 ==> InField(src, p)
      ensures rc == READ_ERROR ==> src.Valid() && FieldSize(src.data, p) == 5
      ensures rc != 0 && rc != READ_ERROR ==>
        && src.Valid() && rc == FieldSize(src.data, p) <= 4
        && remLen == FieldValue(src.data, p) && src.pos == BodyAt(src.data, p)
      ensures Progress(old(src.pos), old(src.offers), src)
    {
      hide DecodeFrom, Resumed;
      ghost var s := src.data;
      rc := READ_ERROR;
      if len == 0 {
        multiplier := 1;
        remLen := 0;
      }
      ResumedStart(s, p + 1);
      var more := true;
      while more
        modifies this`multiplier, this`remLen, this`len, src
        invariant src.Valid() && len <= 4 && src.pos == p + 1 + len && rc == READ_ERROR
        invariant more ==> DecodeFrom(s, p + 1, 0, 1) == Resumed(s, p + 1, remLen, len, multiplier)
        invariant more ==> len < FieldSize(s, p)
        invariant !more ==> DecodeFrom(s, p + 1, 0, 1) == (remLen, len)
        invariant (len == old(len) < 4 && more && src.offers == old(src.offers) && src.pos == old(src.pos))
          || Progress(old(src.pos), old(src.offers), src)
        decreases more, 4 - len
      {
        ResumedStep(s, p + 1, remLen, len, multiplier);
        if len >= 4 {
          return;
        }
        var frc, c := src.GetByte();
        if frc == 0 {
          rc := 0;
          return;
        }
        remLen := remLen + (c % 128) * multiplier;
        multiplier := multiplier * 128;
        more := c >= 128;
        len := len + 1;
        if more { ResumedStep(s, p + 1, remLen, len, multiplier); }
      }
      rc := len;
    }

    /** State 0: the header byte. */
    method ReadHeader(buf: array<byte>, src: Source, ghost p: nat, ghost b0: seq<byte>) returns (frc: nat)
      requires Place(src, p, b0, buf[..]) && state == 0
      modifies this, src, buf
      ensures Place(src, p, b0, buf[..]) && state == if frc == 0 then 0 else 1
      ensures Progress(old(src.pos), old(src.offers), src)
    {
      hide DecodeFrom, LenBytes, Splice, Resumed;
      frc := src.Get(buf, 0, 1);
      if frc == 0 {
        assert src.data[src.pos..src.pos] == [];
        SpliceNothing(b0, 0);
        return;
      }
      assert src.data[p..p + 1] == [src.data[p]];
      len := 0;
      state := 1;
    }

    /** State 1: the size field, which is written back in its shortest form when it is complete. */
    method ReadField(buf: array<byte>, src: Source, ghost p: nat, ghost b0: seq<byte>) returns (frc: int)
      requires Place(src, p, b0, buf[..]) && state == 1
      modifies this, src, buf
      ensures READ_ERROR <= frc && (frc == 0 ==> Place(src, p, b0, buf[..]) && state == 1)
      ensures frc < 0 ==> src.Valid() && Readable(src.data, p) && Unfit(src.data, p, |b0|) && state == 0
      ensures frc > 0 ==> Filled(src, p, b0, buf[..])
      ensures Progress(old(src.pos), old(src.offers), src)
    {
      hide DecodeFrom, LenBytes, Splice, Resumed;
      frc := DecodeNb(src, p);
      if frc == READ_ERROR {
        state := 0;
        return;
      }
      if frc == 0 {
        return;
      }
      ghost var h, size := [src.data[p]], LenBytes(remLen);
      ImageFits(src.data, p);
      LenBytesSize(remLen);
      FieldBound(src.data, p);
      var n := EncodeLen(buf, 1, remLen);
      SpliceTwice(b0, 0, h, size);
      len := 1 + n;
      if remLen + len > buf.Length {
        state := 0;
        frc := READ_ERROR;
        return;
      }
      ImageStart(src.data, p);
      state := 2;
    }

    /** State 2, with possibly nothing left to read. */
    ghost predicate Filled(src: Source, p: nat, b0: seq<byte>, b: seq<byte>)
      reads this, src
    {
      && src.Valid() && Readable(src.data, p) && !Unfit(src.data, p, |b0|) && state == 2
      && 1 + |LenBytes(FieldValue(src.data, p))| <= len
      && len + remLen == |Image(src.data, p)| && src.pos + remLen == EndAt(src.data, p)
      && b == Splice(b0, 0, Image(src.data, p)[..len])
    }

    /** State 2: the rest. */
    method ReadBody(buf: array<byte>, src: Source, ghost p: nat, ghost b0: seq<byte>)
      requires Filled(src, p, b0, buf[..]) && remLen > 0
      modifies this, src, buf
      ensures Filled(src, p, b0, buf[..])
      ensures Progress(old(src.pos), old(src.offers), src)
    {
      hide DecodeFrom, LenBytes, Splice, Resumed;
      ghost var q, s := src.pos, src.data;
      var frc := src.Get(buf, len, remLen);
      ImageMore(s, p, len, q, src.pos);
      SpliceTwice(b0, 0, Image(s, p)[..len], s[q..src.pos]);
      remLen := remLen - frc;
      len := len + frc;
    }

    /** MQTTPacket_readnb: the packet type, or 0 for "call again". */
    method ReadNb(buf: array<byte>, src: Source, ghost p: nat, ghost b0: seq<byte>) returns (rc: int)
      requires Place(src, p, b0, buf[..])
      modifies this, src, buf
      ensures rc == 0 ==> Place(src, p, b0, buf[..])
      ensures rc != 0 ==> src.Valid() && Readable(src.data, p) && state == 0
      ensures rc != 0 && Unfit(src.data, p, |b0|) ==> rc == READ_ERROR
      ensures rc != 0 && !Unfit(src.data, p, |b0|) ==>
        && src.Valid() && rc == HeaderKind(src.data[p]) && src.pos == EndAt(src.data, p) && state == 0
        && buf[..] == Splice(b0, 0, Image(src.data, p))
      ensures Progress(old(src.pos), old(src.offers), src)
    {
      hide DecodeFrom, LenBytes, Splice, Resumed, Useful, Image;
      if state == 0 {
        var frc := ReadHeader(buf, src, p, b0);
        if frc == 0 {
          return 0;
        }
      }
      if state == 1 {
        var frc := ReadField(buf, src, p, b0);
        if frc <= 0 {
          return frc;
        }
      }
      if remLen != 0 {
        ReadBody(buf, src, p, b0);
        if remLen != 0 {
          return 0;
        }
      }
      assert Image(src.data, p)[..len] == Image(src.data, p);
      ImageHead(b0, src.data, p, buf[..]);
      rc := HeaderKind(buf[0]);
      state := 0;
    }
  }

  /** A size field of at most four bytes has a value whose shortest form takes no more. */
  lemma FieldBound(s: seq<byte>, p: nat)
    requires p < |s|
    ensures FieldValue(s, p) <= MAX_REMAINING
  {
    DecodeBound(s, p + 1, 0, 1);
  }

  lemma {:induction false} DecodeBound(s: seq<byte>, p: nat, len: nat, mult: nat)
    requires p <= |s| && len <= 4
    requires mult == if len == 0 then 1 else if len == 1 then 128 else if len == 2 then 16384
      else if len == 3 then 2097152 else 268435456
    ensures DecodeFrom(s, p, len, mult).0 + mult <= 268435456
    decreases 4 - len
  {
    if len < 4 && p < |s| && s[p] >= 128 {
      DecodeBound(s, p + 1, len + 1, mult * 128);
    }
  }

  lemma ImageFits(s: seq<byte>, p: nat)
    requires PacketAt(s, p)
    ensures |Image(s, p)| == 1 + |LenBytes(FieldValue(s, p))| + FieldValue(s, p)
  {}

  lemma ImageHead(b: seq<byte>, s: seq<byte>, p: nat, now: seq<byte>)
    requires PacketAt(s, p) && |Image(s, p)| <= |b| && now == Splice(b, 0, Image(s, p))
    ensures |now| > 0 && now[0] == s[p]
  {
    hide DecodeFrom, LenBytes;
  }

  lemma ImageStart(s: seq<byte>, p: nat)
    requires PacketAt(s, p)
    ensures Image(s, p)[..1 + |LenBytes(FieldValue(s, p))|] == [s[p]] + LenBytes(FieldValue(s, p))
  {
    hide DecodeFrom, LenBytes;
  }

  lemma ImageMore(s: seq<byte>, p: nat, len: nat, q: nat, q': nat)
    requires PacketAt(s, p) && 1 + |LenBytes(FieldValue(s, p))| <= len && q <= q' <= EndAt(s, p)
    requires len + (EndAt(s, p) - q) == |Image(s, p)|
    ensures Image(s, p)[..len] + s[q..q'] == Image(s, p)[..len + (q' - q)]
  {
    hide DecodeFrom, LenBytes;
    var hl := 1 + |LenBytes(FieldValue(s, p))|;
    var body := s[BodyAt(s, p)..EndAt(s, p)];
    assert forall i :: hl <= i < |Image(s, p)| ==> Image(s, p)[i] == body[i - hl];
  }

  // ---- however the stream is cut ----

  /** The bytes of the stream that decide a packet. */
  function Needed(s: seq<byte>, p: nat): nat
    requires p < |s|
  {
    if FieldSize(s, p) == 5 then 5 else EndAt(s, p) - p
  }

  lemma PlaceBefore(t: Transport, src: Source, p: nat, b0: seq<byte>, b: seq<byte>)
    requires t.Place(src, p, b0, b)
    ensures src.pos < p + Needed(src.data, p)
  {
    hide DecodeFrom, LenBytes, Splice, Image;
  }

  /** Calling again until there is an answer or no more offers. */
  method ReadUntilDone(buf: array<byte>, src: Source, t: Transport) returns (rc: int)
    requires src.Valid() && Readable(src.data, src.pos) && t.state == 0 && buf.Length >= 5
    modifies t, src, buf
    ensures Useful(old(src.offers)) >= Needed(src.data, old(src.pos)) ==> rc != 0
    ensures rc == 0 ==> src.offers == [] && t.Place(src, old(src.pos), old(buf[..]), buf[..])
    ensures rc != 0 ==> t.state == 0 && src.Valid()
    ensures rc != 0 && Unfit(src.data, old(src.pos), buf.Length) ==> rc == READ_ERROR
    ensures rc != 0 && !Unfit(src.data, old(src.pos), buf.Length) ==>
      && rc == HeaderKind(src.data[old(src.pos)]) && src.pos == EndAt(src.data, old(src.pos))
      && buf[..] == Splice(old(buf[..]), 0, Image(src.data, old(src.pos)))
  {
    hide DecodeFrom, LenBytes, Splice, Image, Useful;
    ghost var p, b0 := src.pos, buf[..];
    rc := 0;
    while rc == 0 && src.offers != []
      invariant rc == 0 ==> t.Place(src, p, b0, buf[..])
      invariant rc != 0 ==> src.Valid() && t.state == 0
      invariant rc != 0 && Unfit(src.data, p, |b0|) ==> rc == READ_ERROR
      invariant rc != 0 && !Unfit(src.data, p, |b0|) ==>
        && rc == HeaderKind(src.data[p]) && src.pos == EndAt(src.data, p)
          && buf[..] == Splice(b0, 0, Image(src.data, p))
      invariant src.pos + Useful(src.offers) >= p + Useful(old(src.offers))
      decreases |src.offers|
    {
      rc := t.ReadNb(buf, src, p, b0);
    }
    if rc == 0 {
      PlaceBefore(t, src, p, b0, buf[..]);
      NoneUseful();
    }
  }

  lemma NoneUseful()
    ensures Useful([]) == 0
  {}

  /** For any way the stream is cut, with enough offers in the end, the resumable reader returns the type that
      the blocking reader returns and leaves the same buffer and the same place in the stream. */
  method BothWays(data: seq<byte>, p: nat, offers: seq<nat>, b0: seq<byte>)
      returns (blocking: int, resumable: int, image: seq<byte>, image': seq<byte>, end: nat, end': nat)
    requires PacketAt(data, p) && |b0| >= 5 && |Image(data, p)| <= |b0| && Useful(offers) >= EndAt(data, p) - p
    ensures blocking == resumable == HeaderKind(data[p]) && image == image' == Splice(b0, 0, Image(data, p))
      && end == end' == EndAt(data, p)
  {
    hide DecodeFrom, LenBytes, Splice, Image, Useful;
    var buf := new byte[|b0|](i requires 0 <= i < |b0| => b0[i]);
    var buf' := new byte[|b0|](i requires 0 <= i < |b0| => b0[i]);
    assert buf[..] == b0 && buf'[..] == b0;
    var src := new Source(data, p, []);
    var src' := new Source(data, p, offers);
    var t := new Transport();
    blocking := ReadBlocking(buf, src);
    ReadWhole(data, p, b0, blocking, src.pos, buf[..]);
    resumable := ReadUntilDone(buf', src', t);
    image, image', end, end' := buf[..], buf'[..], src.pos, src'.pos;
  }
}
