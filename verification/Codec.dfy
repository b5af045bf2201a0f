/** Serializers and parsers of the MQTT packets with variable content (MQTT 3.1.1, section 3).

    For each packet there is the byte string it stands for, the method that writes it into a buffer, what the
    parser makes of a buffer as a function, the parser itself, and the theorem that it recovers the fields. */
module Codec {
  import opened Bytes

  const CONNECT := 1
  const PUBLISH := 3
  const PUBACK := 4
  const PUBREC := 5
  const PUBREL := 6
  const PUBCOMP := 7
  const SUBSCRIBE := 8
  const SUBACK := 9
  const UNSUBSCRIBE := 10
  const UNSUBACK := 11

  const BUFFER_TOO_SHORT := -2

  /** What a parser does with a buffer: it delivers fields (return code 1), gives up with a return code, or
      reads past the end of the buffer, which the C code does not guard against everywhere. */
  datatype Parse<T> = Parsed(v: T) | Rejected(rc: int) | Overread

  // ---- the header byte ----

  /** The bit fields of the header; each is cut to its width. */
  function Header(kind: nat, dup: nat, qos: nat, retain: nat): (b: byte)
    ensures HeaderKind(b) == kind % 16 && HeaderDup(b) == dup % 2 && HeaderQos(b) == qos % 4
      && HeaderRetain(b) == retain % 2
  {
    HeaderBits(kind % 16, dup % 2, qos % 4, retain % 2);
    (kind % 16) * 16 + (dup % 2) * 8 + (qos % 4) * 2 + retain % 2
  }

  lemma HeaderBits(k: nat, d: nat, q: nat, r: nat)
    requires k < 16 && d < 2 && q < 4 && r < 2
    ensures var b := k * 16 + d * 8 + q * 2 + r;
            b < 256 && b / 16 == k && b / 8 % 2 == d && b / 2 % 4 == q && b % 2 == r
  {
    var b := k * 16 + d * 8 + q * 2 + r;
    assert b / 8 == 2 * k + d;
    assert b / 2 == 4 * (2 * k + d) + q;
  }

  function HeaderKind(b: byte): nat { b / 16 }
  function HeaderDup(b: byte): nat { b / 8 % 2 }
  function HeaderQos(b: byte): nat { b / 2 % 4 }
  function HeaderRetain(b: byte): nat { b % 2 }

  // ---- reading ----

  /** What of the bytes from p to q lies in the buffer. */
  function Within(s: seq<byte>, p: nat, q: nat): (r: seq<byte>)
    requires p <= q
    ensures q <= |s| ==> r == s[p..q]
    ensures |r| <= q - p
  {
    s[if p <= |s| then p else |s|..if q <= |s| then q else |s|]
  }

  /** readMQTTLenString: a string between p and end, and the cursor after it. The size is read, but to the bytes of
      the string the code only keeps a pointer: what of them is delivered here is what lies in the buffer. */
  function ReadString(s: seq<byte>, p: nat, end: int): (r: Parse<(seq<byte>, nat)>)
    ensures r.Parsed? ==> p + 2 <= r.v.1 <= end && p + 2 <= |s| && r.v.0 == Within(s, p + 2, r.v.1)
    ensures r.Parsed? && r.v.1 <= |s| ==> r.v.1 == p + 2 + |r.v.0|
  {
    if end - p <= 1 then Rejected(0)
    else if p + 2 > |s| then Overread
    else
      var len := FromU16(s[p], s[p + 1]);
      if p + 2 + len > end then Rejected(0)
      else Parsed((Within(s, p + 2, p + 2 + len), p + 2 + len))
  }

  /** The window of s that holds b at position p. */
  ghost predicate Holds(s: seq<byte>, p: nat, b: seq<byte>) {
    p + |b| <= |s| && s[p..p + |b|] == b
  }

  lemma HoldsSplit(s: seq<byte>, p: nat, a: seq<byte>, b: seq<byte>)
    requires Holds(s, p, a + b)
    ensures Holds(s, p, a) && Holds(s, p + |a|, b)
  {
    var w := s[p..p + |a + b|];
    assert w[..|a|] == a && w[|a|..] == b;
    assert s[p..p + |a|] == w[..|a|];
    assert s[p + |a|..p + |a| + |b|] == w[|a|..];
  }

  lemma HoldsPrefix(b: seq<byte>, rest: seq<byte>)
    ensures Holds(b + rest, 0, b)
  {}

  lemma HoldsEnd(s: seq<byte>, p: nat, b: seq<byte>)
    requires Holds(s, p, b)
    ensures p + |b| <= |s|
  {}

  lemma HoldsSlice(s: seq<byte>, p: nat, b: seq<byte>)
    requires Holds(s, p, b)
    ensures p + |b| <= |s| && s[p..p + |b|] == b
  {}

  lemma HoldsAt(s: seq<byte>, p: nat, b: seq<byte>, i: nat)
    requires Holds(s, p, b) && i < |b|
    ensures s[p + i] == b[i]
  {
    assert s[p + i] == s[p..p + |b|][i];
  }

  lemma ReadStringHeld(s: seq<byte>, p: nat, end: int, t: seq<byte>)
    requires Holds(s, p, StrBytes(t)) && |t| < 65536 && p + 2 + |t| <= end
    ensures ReadString(s, p, end) == Parsed((t, p + 2 + |t|))
  {
    HoldsAt(s, p, StrBytes(t), 0);
    HoldsAt(s, p, StrBytes(t), 1);
    U16RoundTrip(|t|);
    HoldsSplit(s, p, U16(|t|), t);
  }

  lemma ReadU16Held(s: seq<byte>, p: nat, n: nat)
    requires Holds(s, p, U16(n)) && n < 65536
    ensures p + 2 <= |s| && FromU16(s[p], s[p + 1]) == n
  {
    HoldsAt(s, p, U16(n), 0);
    HoldsAt(s, p, U16(n), 1);
    U16RoundTrip(n);
  }

  /** The fixed header: the header byte and the size field. `start` is where the rest begins. */
  datatype Fixed = Fixed(head: byte, start: nat, end: int, lenbytes: nat)

  function ReadFixed(s: seq<byte>): (r: Parse<Fixed>)
    ensures r.Parsed? ==> 1 <= r.v.start && s != [] && r.v.head == s[0]
  {
    if |s| == 0 then Overread
    else
      var (value, len) := DecodeFrom(s, 1, 0, 1);
      if len <= 4 && 1 + len > |s| then Overread
      else Parsed(Fixed(s[0], 1 + len, 1 + len + value, len))
  }

  /** The first two steps of every parser: the header byte, and the size field behind it. */
  method DeserializeFixed(s: seq<byte>) returns (r: Parse<Fixed>)
    ensures r == ReadFixed(s)
  {
    hide DecodeFrom;
    if |s| == 0 {
      return Overread;
    }
    var mylen, n := DecodeLen(s, 1);
    r := if n <= 4 && 1 + n > |s| then Overread else Parsed(Fixed(s[0], 1 + n, 1 + n + mylen, n));
  }

  /** The packet is of another type: the parsers look before they read on. */
  predicate OtherKind(s: seq<byte>, kind: nat) { s != [] && HeaderKind(s[0]) != kind }

  lemma ReadFixedHeld(s: seq<byte>, head: byte, rem: nat)
    requires rem <= MAX_REMAINING && Holds(s, 0, [head] + LenBytes(rem))
    ensures ReadFixed(s) == Parsed(Fixed(head, 1 + |LenBytes(rem)|, 1 + |LenBytes(rem)| + rem, |LenBytes(rem)|))
  {
    HoldsAt(s, 0, [head] + LenBytes(rem), 0);
    HoldsSplit(s, 0, [head], LenBytes(rem));
    LenBytesSize(rem);
    DecodeEncodeAt(s, 1, rem, 0, 1);
  }

  // ---- PUBLISH ----

  datatype Publish = Publish(dup: nat, qos: nat, retained: nat, id: nat, topic: seq<byte>, payload: seq<byte>)

  ghost predicate GoodPublish(m: Publish) {
    && m.dup < 2 && m.qos < 4 && m.retained < 2 && m.id < 65536 && |m.topic| < 65536
    && (m.qos == 0 ==> m.id == 0) && PublishLength(m) <= MAX_REMAINING
  }

  function PublishLength(m: Publish): nat {
    2 + |m.topic| + |m.payload| + if m.qos > 0 then 2 else 0
  }

  function PublishBody(m: Publish): (r: seq<byte>)
    ensures |r| == PublishLength(m)
  {
    StrBytes(m.topic) + (if m.qos > 0 then U16(m.id) else []) + m.payload
  }

  function PublishBytes(m: Publish): seq<byte> {
    [Header(PUBLISH, m.dup, m.qos, m.retained)] + LenBytes(PublishLength(m)) + PublishBody(m)
  }

  /** Writes the header and the size field, common to all serializers. */
  method WriteFixed(buf: array<byte>, head: byte, rem: nat) returns (p: nat)
    requires 1 + |LenBytes(rem)| <= buf.Length
    modifies buf
    ensures p == 1 + |LenBytes(rem)| && buf[..] == Splice(old(buf[..]), 0, [head] + LenBytes(rem))
  {
    ghost var b := buf[..];
    p := WriteChar(buf, 0, head);
    var n := EncodeLen(buf, p, rem);
    SpliceTwice(b, 0, [head], LenBytes(rem));
    p := p + n;
  }

  method SerializePublish(buf: array<byte>, buflen: nat, m: Publish) returns (rc: int)
    requires buflen <= buf.Length && (buflen <= MAX_REMAINING || PublishLength(m) <= MAX_REMAINING)
    modifies buf
    ensures rc == if PacketLen(PublishLength(m)) > buflen then BUFFER_TOO_SHORT else |PublishBytes(m)|
    ensures rc < 0 ==> buf[..] == old(buf[..])
    ensures rc >= 0 ==> Written(old(buf[..]), buf[..], PublishBytes(m))
  {
    hide Splice, LenBytes, Header, U16, PacketLen;
    var rem := PublishLength(m);
    PacketLenLonger(rem);
    if PacketLen(rem) > buflen {
      return BUFFER_TOO_SHORT;
    }
    PacketLenCovers(rem);
    ghost var b := buf[..];
    var p := WriteFixed(buf, Header(PUBLISH, m.dup, m.qos, m.retained), rem);
    ghost var done := [Header(PUBLISH, m.dup, m.qos, m.retained)] + LenBytes(rem);
    p := WriteString(buf, p, m.topic);
    SpliceTwice(b, 0, done, StrBytes(m.topic));
    done := done + StrBytes(m.topic);
    if m.qos > 0 {
      p := WriteInt(buf, p, m.id);
      SpliceTwice(b, 0, done, U16(m.id));
      done := done + U16(m.id);
    }
    p := CopyBytes(buf, p, m.payload);
    SpliceTwice(b, 0, done, m.payload);
    assert done + m.payload == PublishBytes(m);
    rc := p;
  }

  /** The parsed message and the payload length as the code computes it. It is negative when the packet identifier
      does not fit the packet, and larger than what is delivered of the payload when the packet ends behind the
      buffer: to the payload, too, the code only keeps a pointer. */
  function ParsePublish(s: seq<byte>): Parse<(Publish, int)> {
    if OtherKind(s, PUBLISH) then Rejected(0)
    else
      match ReadFixed(s)
      case Rejected(rc) => Rejected(rc)
      case Overread => Overread
      case Parsed(f) =>
        match ReadString(s, f.start, f.end)
        case Rejected(_) => Rejected(f.lenbytes)
        case Overread => Overread
        case Parsed((topic, p)) =>
          var qos := HeaderQos(f.head);
          if qos > 0 && p + 2 > |s| then Overread
          else
            var id := if qos > 0 then FromU16(s[p], s[p + 1]) else 0;
            var q := if qos > 0 then p + 2 else p;
            var payload := if q <= f.end then Within(s, q, f.end) else [];
            Parsed((Publish(HeaderDup(f.head), qos, HeaderRetain(f.head), id, topic, payload), f.end - q))
  }

  /** MQTTDeserialize_publish: the cursor moves over topic and identifier to the payload. */
  method DeserializePublish(s: seq<byte>) returns (r: Parse<(Publish, int)>)
    ensures r == ParsePublish(s)
  {
    hide ReadFixed, ReadString, Within, HeaderKind, HeaderDup, HeaderQos, HeaderRetain, FromU16;
    if OtherKind(s, PUBLISH) {
      return Rejected(0);
    }
    var fixed := DeserializeFixed(s);
    if !fixed.Parsed? {
      return if fixed.Overread? then Overread else Rejected(fixed.rc);
    }
    var cur, end := fixed.v.start, fixed.v.end;
    var topic := ReadString(s, cur, end);
    if !topic.Parsed? {
      return if topic.Overread? then Overread else Rejected(fixed.v.lenbytes);
    }
    cur := topic.v.1;
    var qos, id := HeaderQos(s[0]), 0;
    if qos > 0 {
      if cur + 2 > |s| {
        return Overread;
      }
      id := FromU16(s[cur], s[cur + 1]);
      cur := cur + 2;
    }
    var payload := if cur <= end then Within(s, cur, end) else [];
    r := Parsed((Publish(HeaderDup(s[0]), qos, HeaderRetain(s[0]), id, topic.v.0, payload), end - cur));
  }

  /** Where the fields of a serialized message lie. */
  lemma PublishLayout(s: seq<byte>, m: Publish)
    requires GoodPublish(m) && Holds(s, 0, PublishBytes(m))
    ensures var p, rem := 1 + |LenBytes(PublishLength(m))|, PublishLength(m);
            var q := p + 2 + |m.topic| + if m.qos > 0 then 2 else 0;
            && ReadFixed(s) == Parsed(Fixed(Header(PUBLISH, m.dup, m.qos, m.retained), p, p + rem, p - 1))
            && ReadString(s, p, p + rem) == Parsed((m.topic, p + 2 + |m.topic|))
            && (m.qos > 0 ==> FromU16(s[q - 2], s[q - 1]) == m.id)
            && q <= p + rem <= |s| && s[q..p + rem] == m.payload
  {
    hide LenBytes, DecodeFrom, Header, U16, FromU16, HeaderKind, HeaderDup, HeaderQos, HeaderRetain, ReadString, Within,
      ReadFixed, Holds;
    var head, rem := Header(PUBLISH, m.dup, m.qos, m.retained), PublishLength(m);
    var fix := [head] + LenBytes(rem);
    var idb := if m.qos > 0 then U16(m.id) else [];
    HoldsSplit(s, 0, fix, PublishBody(m));
    HoldsEnd(s, |fix|, PublishBody(m));
    ReadFixedHeld(s, head, rem);
    HoldsSplit(s, |fix|, StrBytes(m.topic) + idb, m.payload);
    HoldsSplit(s, |fix|, StrBytes(m.topic), idb);
    ReadStringHeld(s, |fix|, |fix| + rem, m.topic);
    if m.qos > 0 {
      ReadU16Held(s, |fix| + 2 + |m.topic|, m.id);
    }
    HoldsSlice(s, |fix| + 2 + |m.topic| + |idb|, m.payload);
  }

  /** The parser's answer once the fixed header and the topic are read and the identifier lies in the buffer. */
  lemma PublishParsed(s: seq<byte>, f: Fixed, topic: seq<byte>, p: nat, id: nat)
    requires !OtherKind(s, PUBLISH) && ReadFixed(s) == Parsed(f) && ReadString(s, f.start, f.end) == Parsed((topic, p))
    requires HeaderQos(f.head) == 0 ==> id == 0
    requires HeaderQos(f.head) > 0 ==> p + 2 <= |s| && FromU16(s[p], s[p + 1]) == id
    ensures var q := p + if HeaderQos(f.head) > 0 then 2 else 0;
            ParsePublish(s) == Parsed((Publish(HeaderDup(f.head), HeaderQos(f.head), HeaderRetain(f.head), id, topic,
                                               if q <= f.end then Within(s, q, f.end) else []), f.end - q))
  {
    hide ReadFixed, ReadString, Within, HeaderKind, HeaderDup, HeaderQos, HeaderRetain, FromU16, OtherKind;
  }

  /** Parsing what was serialized, followed by anything, returns the message. */
  lemma PublishRoundTrip(m: Publish, rest: seq<byte>)
    requires GoodPublish(m)
    ensures ParsePublish(PublishBytes(m) + rest) == Parsed((m, |m.payload|))
  {
    hide *;
    HoldsPrefix(PublishBytes(m), rest);
    PublishHeld(PublishBytes(m) + rest, m);
  }

  lemma PublishHeld(s: seq<byte>, m: Publish)
    requires GoodPublish(m) && Holds(s, 0, PublishBytes(m))
    ensures ParsePublish(s) == Parsed((m, |m.payload|))
  {
    hide LenBytes, PublishBytes, DecodeFrom, Header, HeaderKind, HeaderDup, HeaderQos, HeaderRetain, FromU16,
      ReadString, Within, ReadFixed, Holds, U16, PublishBody, StrBytes, ParsePublish, PublishLength;
    PublishLayout(s, m);
    HeaderFields(m);
    var f := ReadFixed(s).v;
    PublishParsed(s, f, m.topic, ReadString(s, f.start, f.end).v.1, if m.qos > 0 then m.id else 0);
  }

  lemma HeaderFields(m: Publish)
    requires GoodPublish(m)
    ensures var h := Header(PUBLISH, m.dup, m.qos, m.retained);
            HeaderKind(h) == PUBLISH && HeaderDup(h) == m.dup && HeaderQos(h) == m.qos && HeaderRetain(h) == m.retained
  {
    hide Header, HeaderKind, HeaderDup, HeaderQos, HeaderRetain;
  }

  // ---- acknowledgements ----

  datatype Ack = Ack(kind: nat, dup: nat, id: nat)

  function AckBytes(a: Ack): (r: seq<byte>)
    ensures |r| == 4
  {
    [Header(a.kind, a.dup, if a.kind == PUBREL then 1 else 0, 0)] + LenBytes(2) + U16(a.id)
  }

  method SerializeAck(buf: array<byte>, buflen: nat, a: Ack) returns (rc: int)
    requires buflen <= buf.Length
    modifies buf
    ensures rc == if buflen < 4 then BUFFER_TOO_SHORT else 4
    ensures rc < 0 ==> buf[..] == old(buf[..])
    ensures rc >= 0 ==> Written(old(buf[..]), buf[..], AckBytes(a))
  {
    if buflen < 4 {
      return BUFFER_TOO_SHORT;
    }
    ghost var b := buf[..];
    var head := Header(a.kind, a.dup, if a.kind == PUBREL then 1 else 0, 0);
    assert LenBytes(2) == [2];
    var p := WriteFixed(buf, head, 2);
    p := WriteInt(buf, p, a.id);
    SpliceTwice(b, 0, [head] + LenBytes(2), U16(a.id));
    rc := p;
  }

  function ParseAck(s: seq<byte>): Parse<Ack> {
    match ReadFixed(s)
    case Rejected(rc) => Rejected(rc)
    case Overread => Overread
    case Parsed(f) =>
      if f.end - f.start < 2 then Rejected(f.lenbytes)
      else if f.start + 2 > |s| then Overread
      else Parsed(Ack(HeaderKind(f.head), HeaderDup(f.head), FromU16(s[f.start], s[f.start + 1])))
  }

  /** MQTTDeserialize_ack, for packets of any type. */
  method DeserializeAck(s: seq<byte>) returns (r: Parse<Ack>)
    ensures r == ParseAck(s)
  {
    hide ReadFixed, HeaderKind, HeaderDup, FromU16;
    var fixed := DeserializeFixed(s);
    if !fixed.Parsed? {
      return if fixed.Overread? then Overread else Rejected(fixed.rc);
    }
    var cur, end := fixed.v.start, fixed.v.end;
    if end - cur < 2 {
      return Rejected(fixed.v.lenbytes);
    }
    if cur + 2 > |s| {
      return Overread;
    }
    r := Parsed(Ack(HeaderKind(s[0]), HeaderDup(s[0]), FromU16(s[cur], s[cur + 1])));
  }

  lemma AckRoundTrip(a: Ack, rest: seq<byte>)
    requires a.kind < 16 && a.dup < 2 && a.id < 65536
    ensures ParseAck(AckBytes(a) + rest) == Parsed(a)
  {
    hide DecodeFrom, Header, U16, FromU16, HeaderKind, HeaderDup, ReadFixed, Holds;
    var s := AckBytes(a) + rest;
    var head := Header(a.kind, a.dup, if a.kind == PUBREL then 1 else 0, 0);
    assert LenBytes(2) == [2];
    assert s == (([head] + LenBytes(2)) + U16(a.id)) + rest;
    HoldsPrefix(([head] + LenBytes(2)) + U16(a.id), rest);
    HoldsSplit(s, 0, [head] + LenBytes(2), U16(a.id));
    ReadFixedHeld(s, head, 2);
    ReadU16Held(s, 2, a.id);
  }
}
