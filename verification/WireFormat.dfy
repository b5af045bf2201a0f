/** The packets in plain numbers, as section 2 and 3 of MQTT 3.1.1 lay them out: what the serializers write and the
    parsers read, told without the functions that writers and readers share. */
module WireFormat {
  import opened Bytes
  import opened Codec
  import opened Options
  import C = CodecConnect
  import L = CodecLists
  import S = ClientSpec

  // ---- the parts ----

  /** Two bytes, most significant first. */
  function Two(n: nat): (r: seq<byte>)
    requires n < 65536
  {
    [n / 256, n % 256]
  }

  /** A string with its length in front. */
  function Str(s: seq<byte>): seq<byte>
    requires |s| < 65536
  {
    Two(|s|) + s
  }

  /** The size field (section 2.2.3): one to four bytes of seven bits, the low ones first. */
  function SizeField(n: nat): (r: seq<byte>)
    requires n <= MAX_REMAINING
  {
    if n < 128 then [n]
    else if n < 16384 then [128 + n % 128, n / 128]
    else if n < 2097152 then [128 + n % 128, 128 + n / 128 % 128, n / 16384]
    else [128 + n % 128, 128 + n / 128 % 128, 128 + n / 16384 % 128, n / 2097152]
  }

  lemma SizeIs(n: nat)
    requires n <= MAX_REMAINING
    ensures LenBytes(n) == SizeField(n)
  {
    SevenMore(n);
    if n >= 128 {
      SevenMore(n / 128);
      if n >= 16384 {
        SevenMore(n / 16384);
        if n >= 2097152 {
          SevenMore(n / 2097152);
        }
      }
    }
  }

  lemma SevenMore(n: nat)
    ensures n < 128 ==> LenBytes(n) == [n]
    ensures n >= 128 ==> LenBytes(n) == [n % 128 + 128] + LenBytes(n / 128)
    ensures n / 128 / 128 == n / 16384 && n / 128 / 128 / 128 == n / 2097152
  {}

  lemma TwoIs(n: nat)
    requires n < 65536
    ensures U16(n) == Two(n)
  {}

  lemma StrIs(s: seq<byte>)
    requires |s| < 65536
    ensures StrBytes(s) == Str(s)
  {
    TwoIs(|s|);
  }

  /** The header byte, for bit fields in range. */
  lemma HeaderIs(kind: nat, dup: nat, qos: nat, retain: nat)
    requires kind < 16 && dup < 2 && qos < 4 && retain < 2
    ensures Header(kind, dup, qos, retain) == 16 * kind + 8 * dup + 2 * qos + retain
  {
    hide HeaderKind, HeaderDup, HeaderQos, HeaderRetain;
    assert kind % 16 == kind && dup % 2 == dup && qos % 4 == qos && retain % 2 == retain;
  }

  // ---- PUBLISH ----

  /** The header byte is 0011 in the high half, then DUP, two bits QoS and RETAIN (section 3.3.1); the topic, the
      identifier if the QoS is not 0, and the payload follow (3.3.2). */
  lemma PublishWire(m: Publish)
    requires GoodPublish(m)
    ensures var id := if m.qos > 0 then Two(m.id) else [];
            PublishBytes(m) == [48 + 8 * m.dup + 2 * m.qos + m.retained] + SizeField(2 + |m.topic| + |id| + |m.payload|)
              + (Str(m.topic) + id + m.payload)
  {
    hide Header, LenBytes, SizeField, U16, Two, Str, StrBytes;
    HeaderIs(PUBLISH, m.dup, m.qos, m.retained);
    SizeIs(PublishLength(m));
    StrIs(m.topic);
    TwoIs(m.id);
    TwoSize(m.id);
  }

  lemma TwoSize(n: nat)
    requires n < 65536
    ensures |Two(n)| == 2
  {}

  /** Bit by bit: bit 3 is DUP, bits 2 and 1 are the QoS, bit 0 is RETAIN. */
  lemma PublishBits(m: Publish)
    requires GoodPublish(m)
    ensures var h := PublishBytes(m)[0];
            h / 16 == 3 && h / 8 % 2 == m.dup && h / 2 % 4 == m.qos && h % 2 == m.retained
  {
    hide LenBytes, PublishBody;
    HeaderIs(PUBLISH, m.dup, m.qos, m.retained);
    HeaderBits(PUBLISH, m.dup, m.qos, m.retained);
  }

  /** The parser takes a packet for a PUBLISH by the same half byte, and reads the same bits. */
  lemma ParsedBits(s: seq<byte>)
    requires ParsePublish(s).Parsed?
    ensures var m := ParsePublish(s).v.0;
            && s != [] && s[0] / 16 == 3 && m.dup == s[0] / 8 % 2 && m.qos == s[0] / 2 % 4 && m.retained == s[0] % 2
  {
    hide ReadString, Within, FromU16, DecodeFrom;
  }

  /** Setting DUP changes bit 3 of a PUBLISH and no other bit of the packet; other packets it leaves alone. */
  lemma DupBit(b: seq<byte>)
    requires b != []
    ensures |S.SetDup(b)| == |b| && S.SetDup(b)[1..] == b[1..]
    ensures S.SetDup(b)[0] == if b[0] / 16 == 3 && b[0] / 8 % 2 == 0 then b[0] + 8 else b[0]
  {
    if b[0] / 16 == 3 {
      HeaderIs(PUBLISH, 1, b[0] / 2 % 4, b[0] % 2);
      Parts(b[0]);
    }
  }

  lemma Parts(h: byte)
    ensures h == 16 * (h / 16) + 8 * (h / 8 % 2) + 2 * (h / 2 % 4) + h % 2
  {
    assert h / 8 == 2 * (h / 16) + h / 8 % 2;
    assert h / 2 == 4 * (h / 8) + h / 2 % 4;
  }

  // ---- acknowledgements ----

  /** PUBACK, PUBREC, PUBREL and PUBCOMP: 0x40, 0x50, 0x62 and 0x70, the size 2 and the identifier. */
  lemma AckWire(id: nat)
    requires id < 65536
    ensures AckBytes(Ack(PUBACK, 0, id)) == [0x40, 2, id / 256, id % 256]
    ensures AckBytes(Ack(PUBREC, 0, id)) == [0x50, 2, id / 256, id % 256]
    ensures AckBytes(Ack(PUBREL, 0, id)) == [0x62, 2, id / 256, id % 256]
    ensures AckBytes(Ack(PUBCOMP, 0, id)) == [0x70, 2, id / 256, id % 256]
  {
    hide Header;
    HeaderIs(PUBACK, 0, 0, 0);
    HeaderIs(PUBREC, 0, 0, 0);
    HeaderIs(PUBREL, 0, 1, 0);
    HeaderIs(PUBCOMP, 0, 0, 0);
    assert LenBytes(2) == [2];
  }

  /** The parser reads the type from the high half byte, and the identifier behind the size. */
  lemma AckRead(s: seq<byte>)
    requires |s| >= 4 && s[1] == 2
    ensures ParseAck(s) == Parsed(Ack(s[0] / 16, s[0] / 8 % 2, 256 * (s[2] as nat) + s[3]))
  {
    assert DecodeFrom(s, 1, 0, 1) == (2, 1);
  }

  // ---- SUBSCRIBE, UNSUBSCRIBE, SUBACK ----

  function Filters(fs: seq<L.Filter>): seq<byte>
    requires forall i :: 0 <= i < |fs| ==> |fs[i].topic| < 65536 && fs[i].qos < 256
  {
    if fs == [] then [] else Str(fs[0].topic) + [fs[0].qos] + Filters(fs[1..])
  }

  lemma {:induction false} FiltersAre(fs: seq<L.Filter>)
    requires forall i :: 0 <= i < |fs| ==> |fs[i].topic| < 65536 && fs[i].qos < 256
    ensures L.FiltersBytes(fs) == Filters(fs)
  {
    hide Str, StrBytes;
    if fs != [] {
      StrIs(fs[0].topic);
      FiltersAre(fs[1..]);
    }
  }

  /** 0x82, the size, the identifier, and each filter with its QoS behind it (section 3.8). */
  lemma SubscribeWire(id: nat, fs: seq<L.Filter>)
    requires id < 65536 && forall i :: 0 <= i < |fs| ==> |fs[i].topic| < 65536 && fs[i].qos < 256
    requires 2 + |Filters(fs)| <= MAX_REMAINING
    ensures L.SubscribeBytes(0, id, fs) == [0x82] + SizeField(2 + |Filters(fs)|) + (Two(id) + Filters(fs))
  {
    hide Header, LenBytes, SizeField, Filters, L.FiltersBytes, U16, Two;
    FiltersAre(fs);
    HeaderIs(SUBSCRIBE, 0, 1, 0);
    SizeIs(2 + |Filters(fs)|);
    TwoIs(id);
  }

  function Topics(ts: seq<seq<byte>>): seq<byte>
    requires forall i :: 0 <= i < |ts| ==> |ts[i]| < 65536
  {
    if ts == [] then [] else Str(ts[0]) + Topics(ts[1..])
  }

  lemma {:induction false} TopicsAre(ts: seq<seq<byte>>)
    requires forall i :: 0 <= i < |ts| ==> |ts[i]| < 65536
    ensures L.TopicsBytes(ts) == Topics(ts)
  {
    hide Str, StrBytes;
    if ts != [] {
      StrIs(ts[0]);
      TopicsAre(ts[1..]);
    }
  }

  /** 0xA2, the size, the identifier, and the filters (section 3.10). */
  lemma UnsubscribeWire(id: nat, ts: seq<seq<byte>>)
    requires id < 65536 && (forall i :: 0 <= i < |ts| ==> |ts[i]| < 65536) && 2 + |Topics(ts)| <= MAX_REMAINING
    ensures L.UnsubscribeBytes(0, id, ts) == [0xA2] + SizeField(2 + |Topics(ts)|) + (Two(id) + Topics(ts))
  {
    hide Header, LenBytes, SizeField, Topics, L.TopicsBytes, U16, Two;
    TopicsAre(ts);
    HeaderIs(UNSUBSCRIBE, 0, 1, 0);
    SizeIs(2 + |Topics(ts)|);
    TwoIs(id);
  }

  /** 0x90, the size, the identifier and one code (section 3.9): what the client is to read. */
  lemma SubackRead(h: byte, l: byte, code: byte, s: seq<byte>)
    requires s == [0x90, 3, h, l, code]
    ensures L.ParseSuback(s, 1) == L.Grants(Parsed(256 * h + l), [code])
  {
    assert DecodeFrom(s, 1, 0, 1) == (3, 1);
    hide DecodeFrom;
    var f := Fixed(0x90, 2, 5, 1);
    assert ReadFixed(s) == Parsed(f);
    assert L.StoreCodes(s, 5, 5, 256 * h + l, 1, 1) == L.Grants(Parsed(256 * h + l), []);
  }

  // ---- CONNECT ----

  /** The connect flags (section 3.1.2.3): user name, password, will retain, two bits will QoS, will, clean session,
      and a bit that is 0. */
  function ConnectFlags(o: C.Connect): byte
    requires o.clean < 2 && (o.will.Some? ==> o.will.value.qos < 4 && o.will.value.retained < 2)
  {
    (if o.username.Some? then 128 else 0) + (if o.password.Some? then 64 else 0) + 2 * o.clean
    + if o.will.Some? then 32 * o.will.value.retained + 8 * o.will.value.qos + 4 else 0
  }

  ghost predicate Short(o: C.Connect) {
    && o.version in {3, 4} && o.clean < 2 && o.keepAlive < 65536 && |o.clientId| < 65536
    && (o.will.Some? ==> |o.will.value.topic| < 65536 && |o.will.value.message| < 65536)
    && (o.will.Some? ==> o.will.value.qos < 4 && o.will.value.retained < 2)
    && (o.username.Some? ==> |o.username.value| < 65536) && (o.password.Some? ==> |o.password.value| < 65536)
  }

  /** The protocol name and level: 4 for MQTT 3.1.1, 3 for its forerunner. */
  function Protocol(version: nat): seq<byte> {
    if version == 4 then [0, 4, 'M' as int, 'Q' as int, 'T' as int, 'T' as int, 4]
    else [0, 6, 'M' as int, 'Q' as int, 'I' as int, 's' as int, 'd' as int, 'p' as int, 3]
  }

  /** What follows the fixed header: protocol, flags and keep-alive time, then client identifier, will topic, will
      message, user name and password (section 3.1.3). */
  ghost function ConnectRest(o: C.Connect): seq<byte>
    requires Short(o)
  {
    Protocol(o.version) + [ConnectFlags(o)] + Two(o.keepAlive) + Str(o.clientId)
    + (if o.will.Some? then Str(o.will.value.topic) + Str(o.will.value.message) else [])
    + (if o.username.Some? then Str(o.username.value) else [])
    + (if o.password.Some? then Str(o.password.value) else [])
  }

  /** 0x10, the size, and the fields in their order. */
  lemma ConnectWire(o: C.Connect)
    requires Short(o) && |ConnectRest(o)| <= MAX_REMAINING
    ensures C.ConnectBytes(o) == [0x10] + SizeField(|ConnectRest(o)|) + ConnectRest(o)
  {
    hide Header, LenBytes, SizeField, ConnectRest, C.ConnectBody;
    ConnectBodyIs(o);
    HeaderIs(CONNECT, 0, 0, 0);
    SizeIs(|ConnectRest(o)|);
  }

  lemma ConnectBodyIs(o: C.Connect)
    requires Short(o)
    ensures C.ConnectBody(o) == ConnectRest(o)
  {
    hide Str, Two, StrBytes, U16, C.Flags, ConnectFlags, Protocol, C.Name;
    ProtocolIs(o.version);
    FlagsAre(o);
    TwoIs(o.keepAlive);
    StrIs(o.clientId);
    if o.will.Some? {
      StrIs(o.will.value.topic);
      StrIs(o.will.value.message);
    }
    if o.username.Some? {
      StrIs(o.username.value);
    }
    if o.password.Some? {
      StrIs(o.password.value);
    }
    JoinSeven(StrBytes(C.Name(o.version)), if o.version == 4 then 4 else 3, C.Flags(o), Two(o.keepAlive),
              Str(o.clientId), C.WillBytes(o.will), C.OptBytes(o.username), C.OptBytes(o.password));
  }

  lemma JoinSeven(n: seq<byte>, v: byte, f: byte, k: seq<byte>, i: seq<byte>, w: seq<byte>, u: seq<byte>, p: seq<byte>)
    ensures n + ([v, f] + (k + (i + (w + (u + p))))) == (n + [v]) + [f] + k + i + w + u + p
  {}

  lemma ProtocolIs(version: nat)
    requires version in {3, 4}
    ensures StrBytes(C.Name(version)) + [if version == 4 then 4 else 3] == Protocol(version)
  {}

  lemma FlagsAre(o: C.Connect)
    requires Short(o)
    ensures C.Flags(o) == ConnectFlags(o)
  {
    hide C.FlagsByte;
    var w, q, e := if o.will.Some? then 1 else 0, if o.will.Some? then o.will.value.qos else 0,
                   if o.will.Some? then o.will.value.retained else 0;
    assert o.clean % 2 == o.clean && q % 4 == q && e % 2 == e;
    FlagsByteIs(o.clean, w, q, e, if o.password.Some? then 1 else 0, if o.username.Some? then 1 else 0);
  }

  lemma FlagsByteIs(clean: nat, will: nat, qos: nat, retain: nat, password: nat, username: nat)
    requires clean < 2 && will < 2 && qos < 4 && retain < 2 && password < 2 && username < 2
    ensures C.FlagsByte(clean, will, qos, retain, password, username)
      == 2 * clean + 4 * will + 8 * qos + 32 * retain + 64 * password + 128 * username
  {}

  /** The bytes agree with the name as far as both go. */
  ghost predicate Agrees(a: seq<byte>, name: seq<byte>) { forall i :: 0 <= i < |a| && i < |name| ==> a[i] == name[i] }

  /** What the CONNECT parser accepts: level 3 or 4, with a protocol name that agrees with the one that belongs to it as
      far as both go; and which fields there are is what the flags say, a password only with a user name. */
  lemma ConnectAccepted(s: seq<byte>, len: nat) returns (q: nat, p: nat)
    requires C.ParseConnect(s, len).Parsed?
    ensures s != [] && s[0] / 16 == 1 && q + 2 <= |s| && p == q + 2 + FromU16(s[q], s[q + 1]) && p + 3 < |s|
    ensures var o := C.ParseConnect(s, len).v; var f := s[p + 1];
            && o.version == s[p] && o.keepAlive == FromU16(s[p + 2], s[p + 3]) && o.clean == f / 2 % 2
            && ((s[p] == 3 && Agrees(s[q + 2..p], [77, 81, 73, 115, 100, 112])) ||
                (s[p] == 4 && Agrees(s[q + 2..p], [77, 81, 84, 84])))
            && (o.will.Some? <==> f / 4 % 2 == 1) && (o.username.Some? <==> f / 128 == 1)
            && (o.password.Some? <==> f / 64 % 2 == 1) && (o.password.Some? ==> o.username.Some?)
            && (o.will.Some? ==> o.will.value.qos == f / 8 % 4 && o.will.value.retained == f / 32 % 2)
  {
    hide FromU16, C.ParseTail, ReadFixed, C.CheckVersion, ReadString;
    q := ReadFixed(s).v.start;
    p := ReadString(s, q, len).v.1;
    FixedKind(s);
    StringEnd(s, q, len);
    NameChecked(s[q + 2..p], s[p]);
    TailFields(s, p + 2, len, s[p], s[p + 1]);
  }

  lemma FixedKind(s: seq<byte>)
    requires !OtherKind(s, CONNECT) && ReadFixed(s).Parsed?
    ensures s != [] && s[0] / 16 == 1
  {
    hide DecodeFrom;
  }

  lemma StringEnd(s: seq<byte>, q: nat, end: int)
    requires ReadString(s, q, end).Parsed? && ReadString(s, q, end).v.1 <= |s|
    ensures var (t, p) := ReadString(s, q, end).v;
            q + 2 <= |s| && p == q + 2 + FromU16(s[q], s[q + 1]) && t == s[q + 2..p]
  {}

  lemma NameChecked(protocol: seq<byte>, version: byte)
    requires C.CheckVersion(protocol, version)
    ensures version == 3 ==> Agrees(protocol, [77, 81, 73, 115, 100, 112])
    ensures version == 4 ==> Agrees(protocol, [77, 81, 84, 84])
    ensures version in {3, 4}
  {
    var name := C.Name(version);
    var n := if |protocol| < |name| then |protocol| else |name|;
    forall i | 0 <= i < n ensures protocol[i] == name[i] {
      assert protocol[..n][i] == name[..n][i];
    }
  }

  lemma TailFields(s: seq<byte>, p: nat, end: int, version: byte, f: byte)
    requires C.ParseTail(s, p, end, version, f).Parsed?
    ensures var o := C.ParseTail(s, p, end, version, f).v;
            && p + 2 <= |s| && o.version == version && o.keepAlive == FromU16(s[p], s[p + 1]) && o.clean == f / 2 % 2
            && (o.will.Some? <==> f / 4 % 2 == 1) && (o.username.Some? <==> f / 128 == 1)
            && (o.password.Some? <==> f / 64 % 2 == 1) && (o.password.Some? ==> o.username.Some?)
            && (o.will.Some? ==> o.will.value.qos == f / 8 % 4 && o.will.value.retained == f / 32 % 2)
  {
    hide ReadString, FromU16;
  }
}
