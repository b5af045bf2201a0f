/** SUBSCRIBE, UNSUBSCRIBE and SUBACK: the packets whose serializers and parsers loop over a list. */
module CodecLists {
  import opened Bytes
  import opened Codec

  datatype Filter = Filter(topic: seq<byte>, qos: nat)

  /** Puts items already parsed in front of what the rest of the parse delivers. */
  function Prepend<T>(front: seq<T>, r: Parse<seq<T>>): (q: Parse<seq<T>>)
    ensures r.Parsed? <==> q.Parsed?
  {
    match r
    case Parsed(v) => Parsed(front + v)
    case Rejected(rc) => Rejected(rc)
    case Overread => Overread
  }

  lemma PrependNil<T>(r: Parse<seq<T>>)
    ensures Prepend([], r) == r
  {
    if r.Parsed? {
      assert [] + r.v == r.v;
    }
  }

  lemma PrependTwice<T>(a: seq<T>, x: T, r: Parse<seq<T>>)
    ensures Prepend(a, Prepend([x], r)) == Prepend(a + [x], r)
  {
    if r.Parsed? {
      assert a + ([x] + r.v) == (a + [x]) + r.v;
    }
  }

  // ---- SUBSCRIBE ----

  function FilterBytes(f: Filter): (r: seq<byte>)
    ensures |r| == 3 + |f.topic|
  {
    StrBytes(f.topic) + [f.qos % 256]
  }

  function FiltersBytes(fs: seq<Filter>): seq<byte> {
    if fs == [] then [] else FilterBytes(fs[0]) + FiltersBytes(fs[1..])
  }

  function SubscribeBytes(dup: nat, id: nat, fs: seq<Filter>): seq<byte> {
    [Header(SUBSCRIBE, dup, 1, 0)] + LenBytes(2 + |FiltersBytes(fs)|) + (U16(id) + FiltersBytes(fs))
  }

  lemma SubscribeHead(dup: nat, id: nat, fs: seq<Filter>)
    ensures var b := SubscribeBytes(dup, id, fs); b != [] && HeaderKind(b[0]) == SUBSCRIBE
  {
    hide LenBytes, Header, HeaderKind, U16, FiltersBytes;
  }

  method SubscribeLength(fs: seq<Filter>) returns (len: nat)
    ensures len == 2 + |FiltersBytes(fs)|
  {
    len := 2;
    var i := 0;
    assert fs[0..] == fs;
    while i < |fs|
      invariant 0 <= i <= |fs| && len + |FiltersBytes(fs[i..])| == 2 + |FiltersBytes(fs)|
    {
      assert fs[i..][1..] == fs[i + 1..];
      len := len + 2 + |fs[i].topic| + 1;
      i := i + 1;
    }
  }

  method SerializeSubscribe(buf: array<byte>, buflen: nat, dup: nat, id: nat, fs: seq<Filter>) returns (rc: int)
    requires buflen <= buf.Length && (buflen <= MAX_REMAINING || 2 + |FiltersBytes(fs)| <= MAX_REMAINING)
    modifies buf
    ensures rc == if PacketLen(2 + |FiltersBytes(fs)|) > buflen then BUFFER_TOO_SHORT else |SubscribeBytes(dup, id, fs)|
    ensures rc < 0 ==> buf[..] == old(buf[..])
    ensures rc >= 0 ==> Written(old(buf[..]), buf[..], SubscribeBytes(dup, id, fs))
  {
    hide Splice, LenBytes, Header, U16, PacketLen;
    var rem := SubscribeLength(fs);
    PacketLenLonger(rem);
    if PacketLen(rem) > buflen {
      return BUFFER_TOO_SHORT;
    }
    PacketLenCovers(rem);
    ghost var b := buf[..];
    var p := WriteFixed(buf, Header(SUBSCRIBE, dup, 1, 0), rem);
    ghost var done := [Header(SUBSCRIBE, dup, 1, 0)] + LenBytes(rem);
    p := WriteInt(buf, p, id);
    SpliceTwice(b, 0, done, U16(id));
    done := done + U16(id);
    var i := 0;
    assert fs[0..] == fs;
    while i < |fs|
      invariant 0 <= i <= |fs| && p == |done|
      invariant |done + FiltersBytes(fs[i..])| <= buflen && done + FiltersBytes(fs[i..]) == SubscribeBytes(dup, id, fs)
      invariant buf[..] == Splice(b, 0, done)
    {
      ghost var f := FilterBytes(fs[i]);
      assert fs[i..][1..] == fs[i + 1..];
      assert (done + f) + FiltersBytes(fs[i + 1..]) == done + (f + FiltersBytes(fs[i + 1..]));
      p := WriteString(buf, p, fs[i].topic);
      SpliceTwice(b, 0, done, StrBytes(fs[i].topic));
      p := WriteChar(buf, p, fs[i].qos % 256);
      SpliceTwice(b, 0, done + StrBytes(fs[i].topic), [fs[i].qos % 256]);
      assert (done + StrBytes(fs[i].topic)) + [fs[i].qos % 256] == done + f;
      done := done + f;
      i := i + 1;
    }
    assert done + FiltersBytes(fs[i..]) == done;
    rc := p;
  }

  /** The filter loop of the parser; `rc` is the return code left over from the size field. */
  function ParseFilters(s: seq<byte>, p: nat, end: int, rc: int): Parse<seq<Filter>>
    decreases end - p
  {
    if p >= end then Parsed([])
    else
      match ReadString(s, p, end)
      case Rejected(_) => Rejected(rc)
      case Overread => Overread
      case Parsed((topic, q)) =>
        if q >= end then Rejected(rc)
        else if q >= |s| then Overread
        else Prepend([Filter(topic, s[q])], ParseFilters(s, q + 1, end, rc))
  }

  datatype Subscribe = Subscribe(dup: nat, id: nat, filters: seq<Filter>)

  function ParseSubscribe(s: seq<byte>): Parse<Subscribe> {
    if OtherKind(s, SUBSCRIBE) then Rejected(-1)
    else
      match ReadFixed(s)
      case Rejected(rc) => Rejected(rc)
      case Overread => Overread
      case Parsed(f) =>
        if f.start + 2 > |s| then Overread
        else
          match ParseFilters(s, f.start + 2, f.end, f.lenbytes)
          case Rejected(rc) => Rejected(rc)
          case Overread => Overread
          case Parsed(fs) => Parsed(Subscribe(HeaderDup(f.head), FromU16(s[f.start], s[f.start + 1]), fs))
  }

  /** The parser's loop, filling the list of filters as it goes. */
  method DeserializeFilters(s: seq<byte>, start: nat, end: int, rc: int) returns (r: Parse<seq<Filter>>)
    ensures r == ParseFilters(s, start, end, rc)
  {
    hide ReadString, Within, FromU16;
    var filters, cur := [], start;
    PrependNil(ParseFilters(s, start, end, rc));
    while cur < end
      invariant ParseFilters(s, start, end, rc) == Prepend(filters, ParseFilters(s, cur, end, rc))
      decreases end - cur
    {
      var t := ReadString(s, cur, end);
      if t.Rejected? {
        return Rejected(rc);
      }
      if t.Overread? {
        return Overread;
      }
      if t.v.1 >= end {
        return Rejected(rc);
      }
      if t.v.1 >= |s| {
        return Overread;
      }
      var f := Filter(t.v.0, s[t.v.1]);
      PrependTwice(filters, f, ParseFilters(s, t.v.1 + 1, end, rc));
      filters := filters + [f];
      cur := t.v.1 + 1;
    }
    assert filters + [] == filters;
    r := Parsed(filters);
  }

  /** MQTTDeserialize_subscribe. */
  method DeserializeSubscribe(s: seq<byte>) returns (r: Parse<Subscribe>)
    ensures r == ParseSubscribe(s)
  {
    hide ReadFixed, HeaderKind, HeaderDup, FromU16, ParseFilters;
    if OtherKind(s, SUBSCRIBE) {
      return Rejected(-1);
    }
    var fixed := DeserializeFixed(s);
    if !fixed.Parsed? {
      return if fixed.Overread? then Overread else Rejected(fixed.rc);
    }
    var cur := fixed.v.start;
    if cur + 2 > |s| {
      return Overread;
    }
    var id := FromU16(s[cur], s[cur + 1]);
    var filters := DeserializeFilters(s, cur + 2, fixed.v.end, fixed.v.lenbytes);
    if !filters.Parsed? {
      return if filters.Overread? then Overread else Rejected(filters.rc);
    }
    r := Parsed(Subscribe(HeaderDup(s[0]), id, filters.v));
  }

  ghost predicate GoodFilters(fs: seq<Filter>) {
    forall i :: 0 <= i < |fs| ==> |fs[i].topic| < 65536 && fs[i].qos < 128
  }

  /** The same with any byte for the QoS. */
  ghost predicate ByteFilters(fs: seq<Filter>) {
    forall i :: 0 <= i < |fs| ==> |fs[i].topic| < 65536 && fs[i].qos < 256
  }

  lemma {:induction false} ParseFiltersHeld(s: seq<byte>, p: nat, fs: seq<Filter>, rc: int)
    requires ByteFilters(fs) && Holds(s, p, FiltersBytes(fs))
    ensures ParseFilters(s, p, p + |FiltersBytes(fs)|, rc) == Parsed(fs)
    decreases fs
  {
    hide U16, FromU16, ReadString, Within, Holds, StrBytes;
    if fs != [] {
      var f, rest := fs[0], FiltersBytes(fs[1..]);
      var end := p + |FiltersBytes(fs)|;
      HoldsSplit(s, p, FilterBytes(f), rest);
      HoldsSplit(s, p, StrBytes(f.topic), [f.qos % 256]);
      ReadStringHeld(s, p, end, f.topic);
      HoldsAt(s, p + 2 + |f.topic|, [f.qos % 256], 0);
      HoldsEnd(s, p, FiltersBytes(fs));
      ParseFiltersHeld(s, p + 3 + |f.topic|, fs[1..], rc);
      assert [f] + fs[1..] == fs;
    }
  }

  lemma SubscribeRoundTrip(dup: nat, id: nat, fs: seq<Filter>, rest: seq<byte>)
    requires dup < 2 && id < 65536 && GoodFilters(fs) && 2 + |FiltersBytes(fs)| <= MAX_REMAINING
    ensures ParseSubscribe(SubscribeBytes(dup, id, fs) + rest) == Parsed(Subscribe(dup, id, fs))
  {
    hide LenBytes, DecodeFrom, Header, HeaderKind, HeaderDup, HeaderQos, HeaderRetain, FromU16, ReadString, Within,
      ReadFixed, Holds, U16, StrBytes, FiltersBytes, ParseFilters;
    var s, n := SubscribeBytes(dup, id, fs) + rest, |FiltersBytes(fs)|;
    var fix := [Header(SUBSCRIBE, dup, 1, 0)] + LenBytes(2 + n);
    HoldsPrefix(SubscribeBytes(dup, id, fs), rest);
    HoldsSplit(s, 0, fix, U16(id) + FiltersBytes(fs));
    ReadFixedHeld(s, Header(SUBSCRIBE, dup, 1, 0), 2 + n);
    HoldsSplit(s, |fix|, U16(id), FiltersBytes(fs));
    ReadU16Held(s, |fix|, id);
    ParseFiltersHeld(s, |fix| + 2, fs, |LenBytes(2 + n)|);
  }

  // ---- UNSUBSCRIBE ----

  function TopicsBytes(ts: seq<seq<byte>>): seq<byte> {
    if ts == [] then [] else StrBytes(ts[0]) + TopicsBytes(ts[1..])
  }

  function UnsubscribeBytes(dup: nat, id: nat, ts: seq<seq<byte>>): seq<byte> {
    [Header(UNSUBSCRIBE, dup, 1, 0)] + LenBytes(2 + |TopicsBytes(ts)|) + (U16(id) + TopicsBytes(ts))
  }

  lemma UnsubscribeHead(dup: nat, id: nat, ts: seq<seq<byte>>)
    ensures var b := UnsubscribeBytes(dup, id, ts); b != [] && HeaderKind(b[0]) == UNSUBSCRIBE
  {
    hide LenBytes, Header, HeaderKind, U16, TopicsBytes;
  }

  method UnsubscribeLength(ts: seq<seq<byte>>) returns (len: nat)
    ensures len == 2 + |TopicsBytes(ts)|
  {
    len := 2;
    var i := 0;
    assert ts[0..] == ts;
    while i < |ts|
      invariant 0 <= i <= |ts| && len + |TopicsBytes(ts[i..])| == 2 + |TopicsBytes(ts)|
    {
      assert ts[i..][1..] == ts[i + 1..];
      len := len + 2 + |ts[i]|;
      i := i + 1;
    }
  }

  method SerializeUnsubscribe(buf: array<byte>, buflen: nat, dup: nat, id: nat, ts: seq<seq<byte>>) returns (rc: int)
    requires buflen <= buf.Length && (buflen <= MAX_REMAINING || 2 + |TopicsBytes(ts)| <= MAX_REMAINING)
    modifies buf
    ensures rc == if PacketLen(2 + |TopicsBytes(ts)|) > buflen then BUFFER_TOO_SHORT
      else |UnsubscribeBytes(dup, id, ts)|
    ensures rc < 0 ==> buf[..] == old(buf[..])
    ensures rc >= 0 ==> Written(old(buf[..]), buf[..], UnsubscribeBytes(dup, id, ts))
  {
    hide Splice, LenBytes, Header, U16, PacketLen;
    var rem := UnsubscribeLength(ts);
    PacketLenLonger(rem);
    if PacketLen(rem) > buflen {
      return BUFFER_TOO_SHORT;
    }
    PacketLenCovers(rem);
    ghost var b := buf[..];
    var p := WriteFixed(buf, Header(UNSUBSCRIBE, dup, 1, 0), rem);
    ghost var done := [Header(UNSUBSCRIBE, dup, 1, 0)] + LenBytes(rem);
    p := WriteInt(buf, p, id);
    SpliceTwice(b, 0, done, U16(id));
    done := done + U16(id);
    var i := 0;
    assert ts[0..] == ts;
    while i < |ts|
      invariant 0 <= i <= |ts| && p == |done|
      invariant |done + TopicsBytes(ts[i..])| <= buflen && done + TopicsBytes(ts[i..]) == UnsubscribeBytes(dup, id, ts)
      invariant buf[..] == Splice(b, 0, done)
    {
      ghost var f := StrBytes(ts[i]);
      assert ts[i..][1..] == ts[i + 1..];
      assert (done + f) + TopicsBytes(ts[i + 1..]) == done + (f + TopicsBytes(ts[i + 1..]));
      p := WriteString(buf, p, ts[i]);
      SpliceTwice(b, 0, done, f);
      done := done + f;
      i := i + 1;
    }
    assert done + TopicsBytes(ts[i..]) == done;
    rc := p;
  }

  function ParseTopics(s: seq<byte>, p: nat, end: int, rc: int): Parse<seq<seq<byte>>>
    decreases end - p
  {
    if p >= end then Parsed([])
    else
      match ReadString(s, p, end)
      case Rejected(_) => Rejected(rc)
      case Overread => Overread
      case Parsed((topic, q)) => Prepend([topic], ParseTopics(s, q, end, rc))
  }

  datatype Unsubscribe = Unsubscribe(dup: nat, id: nat, topics: seq<seq<byte>>)

  function ParseUnsubscribe(s: seq<byte>): Parse<Unsubscribe> {
    if OtherKind(s, UNSUBSCRIBE) then Rejected(0)
    else
      match ReadFixed(s)
      case Rejected(rc) => Rejected(rc)
      case Overread => Overread
      case Parsed(f) =>
        if f.start + 2 > |s| then Overread
        else
          match ParseTopics(s, f.start + 2, f.end, f.lenbytes)
          case Rejected(rc) => Rejected(rc)
          case Overread => Overread
          case Parsed(ts) => Parsed(Unsubscribe(HeaderDup(f.head), FromU16(s[f.start], s[f.start + 1]), ts))
  }

  method DeserializeTopics(s: seq<byte>, start: nat, end: int, rc: int) returns (r: Parse<seq<seq<byte>>>)
    ensures r == ParseTopics(s, start, end, rc)
  {
    var topics, cur := [], start;
    PrependNil(ParseTopics(s, start, end, rc));
    while cur < end
      invariant ParseTopics(s, start, end, rc) == Prepend(topics, ParseTopics(s, cur, end, rc))
      decreases end - cur
    {
      var t := ReadString(s, cur, end);
      if t.Rejected? {
        return Rejected(rc);
      }
      if t.Overread? {
        return Overread;
      }
      PrependTwice(topics, t.v.0, ParseTopics(s, t.v.1, end, rc));
      topics := topics + [t.v.0];
      cur := t.v.1;
    }
    assert topics + [] == topics;
    r := Parsed(topics);
  }

  /** MQTTDeserialize_unsubscribe. */
  method DeserializeUnsubscribe(s: seq<byte>) returns (r: Parse<Unsubscribe>)
    ensures r == ParseUnsubscribe(s)
  {
    hide ReadFixed, HeaderKind, HeaderDup, FromU16, ParseTopics;
    if OtherKind(s, UNSUBSCRIBE) {
      return Rejected(0);
    }
    var fixed := DeserializeFixed(s);
    if !fixed.Parsed? {
      return if fixed.Overread? then Overread else Rejected(fixed.rc);
    }
    var cur := fixed.v.start;
    if cur + 2 > |s| {
      return Overread;
    }
    var id := FromU16(s[cur], s[cur + 1]);
    var topics := DeserializeTopics(s, cur + 2, fixed.v.end, fixed.v.lenbytes);
    if !topics.Parsed? {
      return if topics.Overread? then Overread else Rejected(topics.rc);
    }
    r := Parsed(Unsubscribe(HeaderDup(s[0]), id, topics.v));
  }

  lemma {:induction false} ParseTopicsHeld(s: seq<byte>, p: nat, ts: seq<seq<byte>>, rc: int)
    requires (forall i :: 0 <= i < |ts| ==> |ts[i]| < 65536) && Holds(s, p, TopicsBytes(ts))
    ensures ParseTopics(s, p, p + |TopicsBytes(ts)|, rc) == Parsed(ts)
    decreases ts
  {
    hide U16, FromU16, ReadString, Within, Holds, StrBytes;
    if ts != [] {
      var rest, end := TopicsBytes(ts[1..]), p + |TopicsBytes(ts)|;
      HoldsSplit(s, p, StrBytes(ts[0]), rest);
      ReadStringHeld(s, p, end, ts[0]);
      ParseTopicsHeld(s, p + 2 + |ts[0]|, ts[1..], rc);
      assert [ts[0]] + ts[1..] == ts;
    }
  }

  lemma UnsubscribeRoundTrip(dup: nat, id: nat, ts: seq<seq<byte>>, rest: seq<byte>)
    requires dup < 2 && id < 65536 && 2 + |TopicsBytes(ts)| <= MAX_REMAINING
    requires forall i :: 0 <= i < |ts| ==> |ts[i]| < 65536
    ensures ParseUnsubscribe(UnsubscribeBytes(dup, id, ts) + rest) == Parsed(Unsubscribe(dup, id, ts))
  {
    hide LenBytes, DecodeFrom, Header, HeaderKind, HeaderDup, HeaderQos, HeaderRetain, FromU16, ReadString, Within,
      ReadFixed, Holds, U16, StrBytes, TopicsBytes, ParseTopics;
    var s, n := UnsubscribeBytes(dup, id, ts) + rest, |TopicsBytes(ts)|;
    var fix := [Header(UNSUBSCRIBE, dup, 1, 0)] + LenBytes(2 + n);
    HoldsPrefix(UnsubscribeBytes(dup, id, ts), rest);
    HoldsSplit(s, 0, fix, U16(id) + TopicsBytes(ts));
    ReadFixedHeld(s, Header(UNSUBSCRIBE, dup, 1, 0), 2 + n);
    HoldsSplit(s, |fix|, U16(id), TopicsBytes(ts));
    ReadU16Held(s, |fix|, id);
    ParseTopicsHeld(s, |fix| + 2, ts, |LenBytes(2 + n)|);
  }

  // ---- SUBACK ----

  function SubackBytes(id: nat, codes: seq<byte>): seq<byte> {
    [Header(SUBACK, 0, 0, 0)] + LenBytes(2 + |codes|) + (U16(id) + codes)
  }

  /** What the client's parser answers, with the packet identifier on success, and the codes it has written to
      the caller's array by then, whatever the answer. */
  datatype Grants = Grants(answer: Parse<nat>, stored: seq<byte>)

  /** The loop over the codes gives up with -1 once more than `maxcount` are stored, and looks before it stores. */
  function StoreCodes(s: seq<byte>, p: nat, end: int, id: nat, count: nat, maxcount: nat): Grants
    decreases end - p
  {
    if p >= end then Grants(Parsed(id), [])
    else if count > maxcount then Grants(Rejected(-1), [])
    else if p >= |s| then Grants(Overread, [])
    else
      var g := StoreCodes(s, p + 1, end, id, count + 1, maxcount);
      Grants(g.answer, [s[p]] + g.stored)
  }

  function ParseSuback(s: seq<byte>, maxcount: nat): Grants {
    if OtherKind(s, SUBACK) then Grants(Rejected(0), [])
    else
      match ReadFixed(s)
      case Rejected(rc) => Grants(Rejected(rc), [])
      case Overread => Grants(Overread, [])
      case Parsed(f) =>
        if f.end - f.start < 2 then Grants(Rejected(f.lenbytes), [])
        else if f.start + 2 > |s| then Grants(Overread, [])
        else StoreCodes(s, f.start + 2, f.end, FromU16(s[f.start], s[f.start + 1]), 0, maxcount)
  }

  method DeserializeCodes(s: seq<byte>, start: nat, end: int, id: nat, maxcount: nat)
      returns (answer: Parse<nat>, stored: seq<byte>)
    ensures Grants(answer, stored) == StoreCodes(s, start, end, id, 0, maxcount)
  {
    var cur := start;
    stored := [];
    while cur < end
      invariant var g := StoreCodes(s, cur, end, id, |stored|, maxcount);
                StoreCodes(s, start, end, id, 0, maxcount) == Grants(g.answer, stored + g.stored)
      decreases end - cur
    {
      assert stored + [] == stored;
      if |stored| > maxcount {
        return Rejected(-1), stored;
      }
      if cur >= |s| {
        return Overread, stored;
      }
      ghost var rest := StoreCodes(s, cur + 1, end, id, |stored| + 1, maxcount).stored;
      assert stored + ([s[cur]] + rest) == (stored + [s[cur]]) + rest;
      stored := stored + [s[cur]];
      cur := cur + 1;
    }
    assert stored + [] == stored;
    answer := Parsed(id);
  }

  /** MQTTDeserialize_suback. */
  method DeserializeSuback(s: seq<byte>, maxcount: nat) returns (answer: Parse<nat>, stored: seq<byte>)
    ensures Grants(answer, stored) == ParseSuback(s, maxcount)
  {
    hide ReadFixed, HeaderKind, FromU16, StoreCodes;
    if OtherKind(s, SUBACK) {
      return Rejected(0), [];
    }
    var fixed := DeserializeFixed(s);
    if !fixed.Parsed? {
      return if fixed.Overread? then Overread else Rejected(fixed.rc), [];
    }
    var cur, end := fixed.v.start, fixed.v.end;
    if end - cur < 2 {
      return Rejected(fixed.v.lenbytes), [];
    }
    if cur + 2 > |s| {
      return Overread, [];
    }
    var id := FromU16(s[cur], s[cur + 1]);
    answer, stored := DeserializeCodes(s, cur + 2, end, id, maxcount);
  }

  /** The most codes that are stored: one more than `maxcount`. */
  function Room(n: nat, maxcount: nat): (r: nat)
    ensures r <= n && r <= maxcount + 1 && (r == n || r == maxcount + 1)
  {
    if n <= maxcount + 1 then n else maxcount + 1
  }

  function Granted(id: nat, codes: seq<byte>, maxcount: nat): Grants {
    Grants(if |codes| <= maxcount + 1 then Parsed(id) else Rejected(-1), codes[..Room(|codes|, maxcount)])
  }

  /** On codes that lie in the buffer the loop stores all, or as many as there is room for and one more. */
  lemma {:induction false} CodesStored(s: seq<byte>, p: nat, end: nat, id: nat, count: nat, maxcount: nat)
    requires p <= end <= |s| && count <= maxcount + 1
    ensures var k := Room(count + (end - p), maxcount);
            count <= k && StoreCodes(s, p, end, id, count, maxcount)
              == Grants(if k == count + (end - p) then Parsed(id) else Rejected(-1), s[p..p + k - count])
    decreases end - p
  {
    if p < end && count <= maxcount {
      CodesStored(s, p + 1, end, id, count + 1, maxcount);
      var k := Room(count + (end - p), maxcount);
      assert [s[p]] + s[p + 1..p + 1 + k - (count + 1)] == s[p..p + k - count];
    }
  }

  /** Where the codes of a serialized SUBACK lie. */
  lemma SubackLaid(s: seq<byte>, id: nat, codes: seq<byte>, maxcount: nat) returns (p: nat)
    requires id < 65536 && 2 + |codes| <= MAX_REMAINING && Holds(s, 0, SubackBytes(id, codes))
    ensures Holds(s, p, codes) && ParseSuback(s, maxcount) == StoreCodes(s, p, p + |codes|, id, 0, maxcount)
  {
    hide LenBytes, DecodeFrom, Header, HeaderKind, HeaderDup, HeaderQos, HeaderRetain, FromU16, ReadFixed, Holds,
      U16, StoreCodes;
    var n := |codes|;
    var fix := [Header(SUBACK, 0, 0, 0)] + LenBytes(2 + n);
    HoldsSplit(s, 0, fix, U16(id) + codes);
    ReadFixedHeld(s, Header(SUBACK, 0, 0, 0), 2 + n);
    HoldsSplit(s, |fix|, U16(id), codes);
    ReadU16Held(s, |fix|, id);
    p := |fix| + 2;
  }

  /** Parsing what was serialized: the codes come back if there are at most one more than `maxcount`, and
      otherwise one more than that is stored before the parser gives up. So nothing is written behind an array
      for `maxcount` codes exactly when there are no more of them. */
  lemma SubackRoundTrip(id: nat, codes: seq<byte>, maxcount: nat, rest: seq<byte>)
    requires id < 65536 && 2 + |codes| <= MAX_REMAINING
    ensures ParseSuback(SubackBytes(id, codes) + rest, maxcount) == Granted(id, codes, maxcount)
    ensures |ParseSuback(SubackBytes(id, codes) + rest, maxcount).stored| <= maxcount <==> |codes| <= maxcount
  {
    hide SubackBytes, ParseSuback, StoreCodes, Holds;
    var s, k := SubackBytes(id, codes) + rest, Room(|codes|, maxcount);
    HoldsPrefix(SubackBytes(id, codes), rest);
    var p := SubackLaid(s, id, codes, maxcount);
    HoldsSlice(s, p, codes);
    CodesStored(s, p, p + |codes|, id, 0, maxcount);
    Front(s, p, |codes|, k);
  }

  lemma Front(s: seq<byte>, p: nat, n: nat, k: nat)
    requires p + n <= |s| && k <= n
    ensures s[p..p + n][..k] == s[p..p + k]
  {}

  /** The client asks for one code. Of an acknowledgement with two codes both are stored, and it is accepted. */
  lemma TwoCodesForOne(a: byte, b: byte, s: seq<byte>)
    requires s == SubackBytes(7, [a, b])
    ensures ParseSuback(s, 1) == Grants(Parsed(7), [a, b])
  {
    hide ParseSuback, SubackBytes;
    SubackRoundTrip(7, [a, b], 1, []);
    assert SubackBytes(7, [a, b]) + [] == SubackBytes(7, [a, b]);
    assert [a, b][..2] == [a, b];
  }
}
