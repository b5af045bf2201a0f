/** What the return code 1 of the parsers means: they report a parsed packet with 1, but some malformed packets too,
    because they keep the size of the size field in the same variable and do not always look before they read on. */
module ReturnCodes {
  import opened Bytes
  import opened Codec
  import opened CodecLists

  predicate Returns<T(==)>(r: Parse<T>, code: int) {
    (r.Parsed? && code == 1) || r == Rejected(code)
  }

  // ---- a packet, byte by byte ----

  /** What the size field says, how many bytes it takes (5 when it does not end within four), and where the rest
      of the packet begins. */
  function Remaining(s: seq<byte>): nat requires s != [] { DecodeFrom(s, 1, 0, 1).0 }
  function SizeBytes(s: seq<byte>): nat requires s != [] { DecodeFrom(s, 1, 0, 1).1 }
  function Start(s: seq<byte>): nat requires s != [] { 1 + SizeBytes(s) }

  predicate IsKind(s: seq<byte>, kind: nat) { s != [] && HeaderKind(s[0]) == kind }

  /** The packet lies in the buffer. */
  predicate PacketIn(s: seq<byte>) { s != [] && SizeBytes(s) <= 4 && Start(s) + Remaining(s) <= |s| }

  /** A size field of one byte says what that byte says. */
  lemma OneByte(s: seq<byte>)
    requires |s| > 1
    ensures s[1] < 128 <==> SizeBytes(s) == 1
    ensures s[1] < 128 ==> Remaining(s) == s[1]
  {}

  /** A size field that does not end within four bytes. */
  lemma LongField(s: seq<byte>)
    requires s != []
    ensures SizeBytes(s) == 5 <==> |s| >= 5 && s[1] >= 128 && s[2] >= 128 && s[3] >= 128 && s[4] >= 128
  {
    if |s| >= 2 && s[1] >= 128 {
      assert DecodeFrom(s, 1, 0, 1).1 == DecodeFrom(s, 2, 1, 128).1;
      if |s| >= 3 && s[2] >= 128 {
        assert DecodeFrom(s, 2, 1, 128).1 == DecodeFrom(s, 3, 2, 16384).1;
        if |s| >= 4 && s[3] >= 128 {
          assert DecodeFrom(s, 3, 2, 16384).1 == DecodeFrom(s, 4, 3, 2097152).1;
        }
      }
    }
  }

  // ---- PUBLISH ----

  /** The two bytes in front of the topic. */
  function TopicSize(s: seq<byte>): nat
    requires s != [] && Start(s) + 2 <= |s|
  {
    FromU16(s[Start(s)], s[Start(s) + 1])
  }

  /** The topic ends inside the packet. */
  predicate TopicInside(s: seq<byte>) {
    s != [] && Start(s) + 2 <= |s| && 2 + TopicSize(s) <= Remaining(s)
  }

  /** The packet is whole, with topic and identifier inside it. */
  predicate FieldsInside(s: seq<byte>) {
    PacketIn(s) && TopicInside(s) && (HeaderQos(s[0]) > 0 ==> 4 + TopicSize(s) <= Remaining(s))
  }

  /** The size field has one byte and the topic does not fit. */
  predicate TopicCut(s: seq<byte>) {
    |s| > 1 && s[1] < 128 && (s[1] < 2 || (|s| > 3 && s[1] < 2 + FromU16(s[2], s[3])))
  }

  /** The topic fits, but fewer than two bytes are left for the identifier. */
  predicate IdentifierCut(s: seq<byte>) {
    s != [] && SizeBytes(s) <= 4 && TopicInside(s) && HeaderQos(s[0]) > 0 && Remaining(s) < 4 + TopicSize(s)
  }

  /** Two more bytes behind the topic. */
  predicate RoomBehind(s: seq<byte>)
    requires TopicInside(s)
  {
    Start(s) + 4 + TopicSize(s) <= |s|
  }

  /** The packet ends behind the buffer, but the size of the topic, and an identifier, can be read. */
  predicate EndsBehind(s: seq<byte>) {
    && TopicInside(s) && SizeBytes(s) <= 4 && Start(s) + Remaining(s) > |s|
    && (HeaderQos(s[0]) > 0 ==> RoomBehind(s))
  }

  /** The size field does not end within four bytes, and behind five the same can be read. */
  predicate LongPublish(s: seq<byte>) {
    TopicInside(s) && SizeBytes(s) == 5 && (HeaderQos(s[0]) > 0 ==> RoomBehind(s))
  }

  /** The code 1 is returned for a PUBLISH that lies in the buffer with its fields inside it, and for any other
      exactly in four cases: the topic is cut and the size field has one byte; the identifier is cut and can be
      read from behind the packet; the packet ends behind the buffer; the size field is too long. */
  lemma MalformedPublishReturnsOne(s: seq<byte>)
    ensures IsKind(s, PUBLISH) && FieldsInside(s) ==> Returns(ParsePublish(s), 1)
    ensures Returns(ParsePublish(s), 1) && !FieldsInside(s) <==>
      IsKind(s, PUBLISH) && (TopicCut(s) || (IdentifierCut(s) && RoomBehind(s)) || EndsBehind(s) || LongPublish(s))
  {
    hide DecodeFrom, HeaderKind, HeaderDup, HeaderQos, HeaderRetain;
    if |s| > 1 {
      OneByte(s);
    }
    if s != [] {
      NoByte(s);
    }
  }

  lemma NoByte(s: seq<byte>)
    requires s != []
    ensures |s| == 1 ==> SizeBytes(s) == 1 && Remaining(s) == 0
  {}

  /** So of the packets that lie in the buffer, with two bytes behind them, these return 1 and are malformed: one
      with a cut topic and a size field of one byte, and one with a cut identifier. */
  lemma MalformedWhole(s: seq<byte>)
    requires PacketIn(s) && Start(s) + Remaining(s) + 2 <= |s|
    ensures Returns(ParsePublish(s), 1) && !FieldsInside(s) <==> IsKind(s, PUBLISH) && (TopicCut(s) || IdentifierCut(s))
  {
    MalformedPublishReturnsOne(s);
  }

  /** When the packet ends the buffer, the identifier is read from behind the buffer. */
  lemma IdentifierBehindBuffer(s: seq<byte>)
    requires PacketIn(s) && IsKind(s, PUBLISH)
    ensures ParsePublish(s).Overread? <==> IdentifierCut(s) && !RoomBehind(s)
  {
    hide DecodeFrom, HeaderKind, HeaderDup, HeaderQos, HeaderRetain;
  }

  /** One packet of each class: [0x30, 1, 0], [0x32, 3, 0, 1, 0x61, 0, 0] and one with a long size field. */
  lemma CutTopic(s: seq<byte>)
    requires s == [0x30, 1, 0]
    ensures ParsePublish(s) == Rejected(1)
  {
    OneByte(s);
    hide DecodeFrom;
  }

  lemma CutIdentifier(s: seq<byte>)
    requires s == [0x32, 3, 0, 1, 0x61, 0, 0]
    ensures ParsePublish(s) == Parsed((Publish(0, 1, 0, 0, [0x61], []), -2))
  {
    hide DecodeFrom, ReadFixed, ReadString, Within, ParsePublish, HeaderKind, HeaderDup, HeaderQos, HeaderRetain,
      FromU16;
    CutParts(s);
    CutFields();
    PublishParsed(s, Fixed(0x32, 2, 5, 1), [0x61], 5, 0);
  }

  lemma CutParts(s: seq<byte>)
    requires s == [0x32, 3, 0, 1, 0x61, 0, 0]
    ensures ReadFixed(s) == Parsed(Fixed(0x32, 2, 5, 1)) && ReadString(s, 2, 5) == Parsed(([0x61], 5))
  {
    OneByte(s);
    hide DecodeFrom;
    assert s[4..5] == [0x61];
  }

  lemma CutFields()
    ensures HeaderKind(0x32) == PUBLISH && HeaderDup(0x32) == 0 && HeaderQos(0x32) == 1 && HeaderRetain(0x32) == 0
    ensures FromU16(0, 0) == 0
  {}

  /** A packet of ten bytes after its size field, of which the buffer holds three: the payload is said to have
      seven bytes, and none of them is there. */
  lemma CutByBuffer(s: seq<byte>)
    requires s == [0x30, 10, 0, 1, 0x61]
    ensures ParsePublish(s) == Parsed((Publish(0, 0, 0, 0, [0x61], []), 7))
  {
    hide DecodeFrom, ReadFixed, ReadString, Within, ParsePublish;
    CutByBufferParts(s);
    PublishParsed(s, Fixed(0x30, 2, 12, 1), [0x61], 5, 0);
  }

  lemma CutByBufferParts(s: seq<byte>)
    requires s == [0x30, 10, 0, 1, 0x61]
    ensures ReadFixed(s) == Parsed(Fixed(0x30, 2, 12, 1)) && ReadString(s, 2, 12) == Parsed(([0x61], 5))
    ensures Within(s, 5, 12) == []
  {
    OneByte(s);
    hide DecodeFrom;
    assert s[4..5] == [0x61];
  }

  lemma LongSize(s: seq<byte>)
    requires s == [0x30, 0x82, 0x80, 0x80, 0x80, 0, 0, 0]
    ensures ParsePublish(s) == Parsed((Publish(0, 0, 0, 0, [], []), 0))
  {
    hide DecodeFrom, ReadFixed, ReadString, Within, ParsePublish;
    LongParts(s);
    PublishParsed(s, Fixed(0x30, 6, 8, 5), [], 8, 0);
  }

  lemma LongParts(s: seq<byte>)
    requires s == [0x30, 0x82, 0x80, 0x80, 0x80, 0, 0, 0]
    ensures ReadFixed(s) == Parsed(Fixed(0x30, 6, 8, 5)) && ReadString(s, 6, 8) == Parsed(([], 8))
    ensures Within(s, 8, 8) == []
  {
    assert DecodeFrom(s, 4, 3, 2097152) == (0, 5);
    assert DecodeFrom(s, 3, 2, 16384) == (0, 5);
    assert DecodeFrom(s, 2, 1, 128) == (0, 5);
    assert DecodeFrom(s, 1, 0, 1) == (2, 5);
    hide DecodeFrom;
    assert s[8..8] == [];
  }

  // ---- acknowledgements ----

  /** The identifier lies in the packet and in the buffer. */
  predicate IdInside(s: seq<byte>) {
    s != [] && SizeBytes(s) <= 4 && Remaining(s) >= 2 && Start(s) + 2 <= |s|
  }

  /** The size field does not end within four bytes, and behind five there is room for an identifier. */
  predicate LongAck(s: seq<byte>) { s != [] && SizeBytes(s) == 5 && Remaining(s) >= 2 && Start(s) + 2 <= |s| }

  /** The size field has one byte and leaves no room for the identifier. */
  predicate IdCut(s: seq<byte>) { |s| > 1 && s[1] < 2 }

  /** An acknowledgement without an identifier inside it is taken for one exactly when its size field says 0 or 1
      in one byte, or is too long. */
  lemma MalformedAckReturnsOne(s: seq<byte>)
    ensures IdInside(s) ==> Returns(ParseAck(s), 1)
    ensures Returns(ParseAck(s), 1) && !IdInside(s) <==> IdCut(s) || LongAck(s)
    ensures s == [0x40, 0] ==> ParseAck(s) == Rejected(1)
  {
    hide DecodeFrom, HeaderKind, HeaderDup;
    if |s| > 1 {
      OneByte(s);
    }
    if s != [] {
      NoByte(s);
    }
  }

  // ---- SUBACK ----

  /** The number of return codes, when the identifier is there. */
  function CodeCount(s: seq<byte>): int requires s != [] { Remaining(s) - 2 }

  predicate CodesInside(s: seq<byte>) { PacketIn(s) && Remaining(s) >= 2 }

  predicate LongSuback(s: seq<byte>) {
    s != [] && SizeBytes(s) == 5 && Remaining(s) >= 2 && Start(s) + Remaining(s) <= |s|
  }

  /** Which codes are stored, for any SUBACK that lies in the buffer: all, or one more than `maxcount`. */
  lemma StoredOf(s: seq<byte>, maxcount: nat)
    requires IsKind(s, SUBACK) && (CodesInside(s) || LongSuback(s))
    ensures var n, p, g := CodeCount(s), Start(s) + 2, ParseSuback(s, maxcount);
            && g.stored == s[p..p + Room(n, maxcount)] && (|g.stored| <= maxcount <==> n <= maxcount)
            && g.answer == if n <= maxcount + 1 then Parsed(FromU16(s[p - 2], s[p - 1])) else Rejected(-1)
  {
    hide DecodeFrom, HeaderKind, FromU16, StoreCodes;
    CodesStored(s, Start(s) + 2, Start(s) + Remaining(s), FromU16(s[Start(s)], s[Start(s) + 1]), 0, maxcount);
  }

  /** A SUBACK in the buffer is answered with 1 when it has at most one code more than asked for; a malformed one
      exactly when its size field says 0 or 1 in one byte, or is too long. */
  lemma MalformedSubackReturnsOne(s: seq<byte>, maxcount: nat)
    requires s != [] ==> Start(s) + Remaining(s) <= |s|
    ensures IsKind(s, SUBACK) && CodesInside(s) ==>
      (Returns(ParseSuback(s, maxcount).answer, 1) <==> CodeCount(s) <= maxcount + 1)
    ensures Returns(ParseSuback(s, maxcount).answer, 1) && !CodesInside(s) <==>
      IsKind(s, SUBACK) && (IdCut(s) || (LongSuback(s) && CodeCount(s) <= maxcount + 1))
    ensures s == [0x90, 0] ==> ParseSuback(s, 1) == Grants(Rejected(1), [])
  {
    hide DecodeFrom, HeaderDup, FromU16, StoreCodes;
    if |s| > 1 {
      OneByte(s);
    }
    if s != [] {
      NoByte(s);
    }
    if IsKind(s, SUBACK) && (CodesInside(s) || LongSuback(s)) {
      StoredOf(s, maxcount);
    }
  }

  // ---- the two lists a server parses ----

  /** The loop accepts exactly the byte strings that are lists of filters. */
  lemma {:induction false} FiltersOnly(s: seq<byte>, p: nat, end: nat, rc: int)
    requires p <= end <= |s|
    ensures var r := ParseFilters(s, p, end, rc);
            if r.Parsed? then ByteFilters(r.v) && FiltersBytes(r.v) == s[p..end] else r == Rejected(rc)
    decreases end - p
  {
    hide FromU16, U16, StrBytes, ReadString, Within, ByteFilters, FiltersBytes;
    if p < end {
      var t := ReadString(s, p, end);
      NoOverread(s, p, end);
      if t.Parsed? && t.v.1 < end {
        FiltersOnly(s, t.v.1 + 1, end, rc);
        var rest := ParseFilters(s, t.v.1 + 1, end, rc);
        if rest.Parsed? {
          FilterRead(s, p, end, t.v.0, t.v.1, rest.v);
        }
      }
    } else {
      NoFilter(s, p);
    }
  }

  lemma NoFilter(s: seq<byte>, p: nat)
    requires p <= |s|
    ensures ByteFilters([]) && FiltersBytes([]) == s[p..p]
  {}

  /** Inside the buffer a string is read or refused. */
  lemma NoOverread(s: seq<byte>, p: nat, end: nat)
    requires p <= end <= |s|
    ensures !ReadString(s, p, end).Overread?
  {}

  /** One more filter in front of a list that was read. */
  lemma FilterRead(s: seq<byte>, p: nat, end: nat, topic: seq<byte>, q: nat, rest: seq<Filter>)
    requires ReadString(s, p, end) == Parsed((topic, q)) && q < end <= |s|
    requires ByteFilters(rest) && FiltersBytes(rest) == s[q + 1..end]
    ensures ByteFilters([Filter(topic, s[q])] + rest) && FiltersBytes([Filter(topic, s[q])] + rest) == s[p..end]
  {
    StringRead(s, p, end);
    hide ReadString, Within, StrBytes;
    var f := Filter(topic, s[q]);
    assert ([f] + rest)[1..] == rest;
    assert s[p..end] == (s[p..q] + [s[q]]) + s[q + 1..end];
  }

  /** What a string was read from. */
  lemma StringRead(s: seq<byte>, p: nat, end: int)
    requires end <= |s| && ReadString(s, p, end).Parsed?
    ensures var (t, q) := ReadString(s, p, end).v; |t| < 65536 && StrBytes(t) == s[p..q]
  {
    var (t, q) := ReadString(s, p, end).v;
    assert |t| == FromU16(s[p], s[p + 1]);
    assert U16(|t|) == [s[p], s[p + 1]];
    assert s[p..q] == [s[p], s[p + 1]] + s[p + 2..q];
  }

  ghost predicate IsFilters(b: seq<byte>) { exists fs :: ByteFilters(fs) && FiltersBytes(fs) == b }

  /** A SUBSCRIBE in the buffer with room behind it is answered with 1 though malformed exactly when it has no room
      for the identifier, or when its size field has one byte and what follows the identifier is no list of
      filters. */
  lemma MalformedSubscribeReturnsOne(s: seq<byte>)
    requires PacketIn(s) && Start(s) + 2 <= |s|
    ensures var inside := Remaining(s) >= 2 && IsFilters(s[Start(s) + 2..Start(s) + Remaining(s)]);
            && (Returns(ParseSubscribe(s), 1) && inside <==> IsKind(s, SUBSCRIBE) && inside)
            && (Returns(ParseSubscribe(s), 1) && !inside <==>
                  IsKind(s, SUBSCRIBE) && (Remaining(s) < 2 || (s[1] < 128 && !inside)))
  {
    hide DecodeFrom, HeaderKind, HeaderDup, FromU16, ParseFilters, FiltersBytes, ByteFilters;
    OneByte(s);
    var p, end := Start(s) + 2, Start(s) + Remaining(s);
    if p <= end {
      FiltersOnly(s, p, end, SizeBytes(s));
      if IsFilters(s[p..end]) {
        var fs :| ByteFilters(fs) && FiltersBytes(fs) == s[p..end];
        assert Holds(s, p, FiltersBytes(fs));
        ParseFiltersHeld(s, p, fs, SizeBytes(s));
      }
    } else {
      NoFilters(s, p, end, SizeBytes(s));
    }
  }

  lemma NoFilters(s: seq<byte>, p: nat, end: int, rc: int)
    requires end < p
    ensures ParseFilters(s, p, end, rc) == Parsed([]) && ParseTopics(s, p, end, rc) == Parsed([])
  {}

  lemma {:induction false} TopicsOnly(s: seq<byte>, p: nat, end: nat, rc: int)
    requires p <= end <= |s|
    ensures var r := ParseTopics(s, p, end, rc);
            if r.Parsed? then ShortTopics(r.v) && TopicsBytes(r.v) == s[p..end] else r == Rejected(rc)
    decreases end - p
  {
    hide FromU16, U16, StrBytes, ReadString, Within, ShortTopics, TopicsBytes;
    if p < end {
      var t := ReadString(s, p, end);
      NoOverread(s, p, end);
      if t.Parsed? {
        TopicsOnly(s, t.v.1, end, rc);
        var rest := ParseTopics(s, t.v.1, end, rc);
        if rest.Parsed? {
          TopicRead(s, p, end, t.v.0, t.v.1, rest.v);
        }
      }
    } else {
      NoTopic(s, p);
    }
  }

  lemma NoTopic(s: seq<byte>, p: nat)
    requires p <= |s|
    ensures ShortTopics([]) && TopicsBytes([]) == s[p..p]
  {}

  lemma TopicRead(s: seq<byte>, p: nat, end: nat, topic: seq<byte>, q: nat, rest: seq<seq<byte>>)
    requires ReadString(s, p, end) == Parsed((topic, q)) && q <= end <= |s|
    requires ShortTopics(rest) && TopicsBytes(rest) == s[q..end]
    ensures ShortTopics([topic] + rest) && TopicsBytes([topic] + rest) == s[p..end]
  {
    StringRead(s, p, end);
    hide ReadString, Within, StrBytes;
    assert ([topic] + rest)[1..] == rest;
    assert s[p..end] == s[p..q] + s[q..end];
  }

  ghost predicate ShortTopics(ts: seq<seq<byte>>) { forall i :: 0 <= i < |ts| ==> |ts[i]| < 65536 }

  ghost predicate IsTopics(b: seq<byte>) { exists ts :: ShortTopics(ts) && TopicsBytes(ts) == b }

  /** The same for UNSUBSCRIBE. */
  lemma MalformedUnsubscribeReturnsOne(s: seq<byte>)
    requires PacketIn(s) && Start(s) + 2 <= |s|
    ensures var inside := Remaining(s) >= 2 && IsTopics(s[Start(s) + 2..Start(s) + Remaining(s)]);
            && (Returns(ParseUnsubscribe(s), 1) && inside <==> IsKind(s, UNSUBSCRIBE) && inside)
            && (Returns(ParseUnsubscribe(s), 1) && !inside <==>
                  IsKind(s, UNSUBSCRIBE) && (Remaining(s) < 2 || (s[1] < 128 && !inside)))
  {
    hide DecodeFrom, HeaderKind, HeaderDup, FromU16, ParseTopics, TopicsBytes;
    OneByte(s);
    var p, end := Start(s) + 2, Start(s) + Remaining(s);
    if p <= end {
      TopicsOnly(s, p, end, SizeBytes(s));
      if IsTopics(s[p..end]) {
        var ts :| ShortTopics(ts) && TopicsBytes(ts) == s[p..end];
        assert Holds(s, p, TopicsBytes(ts));
        ParseTopicsHeld(s, p, ts, SizeBytes(s));
      }
    } else {
      NoFilters(s, p, end, SizeBytes(s));
    }
  }
}
