/** The table of expected acknowledgements step by step: which records come and go in which step, and what the client
    puts on the connection, in plain bytes. */
module QosRecords {
  import opened Bytes
  import opened Codec
  import opened Options
  import opened ClientSpec
  import opened ClientTable
  import opened QosSystem
  import opened QosSafety
  import opened QosStages
  import L = CodecLists
  import W = WireFormat

  // ---- runs with their states ----

  /** The states of a run, one more than its moves. */
  ghost predicate Path(us: seq<Sys>, moves: seq<Move>) {
    && |us| == |moves| + 1 && Start(us[0])
    && forall k :: 0 <= k < |moves| ==> Enabled(us[k], moves[k]) && us[k + 1] == Step(us[k], moves[k])
  }

  lemma {:induction false} PathOf(s: Sys, moves: seq<Move>, t: Sys) returns (us: seq<Sys>)
    requires Run(s, moves, t)
    ensures Path(us, moves) && us[0] == s && us[|moves|] == t
    decreases |moves|
  {
    hide Start, Enabled, Step;
    if moves == [] {
      us := [s];
    } else {
      var n := |moves| - 1;
      var u: Sys :| Leads(s, moves[..n], u) && Enabled(u, moves[n]) && t == Step(u, moves[n]);
      var vs := PathOf(s, moves[..n], u);
      us := vs + [t];
      forall k | 0 <= k < |moves| ensures Enabled(us[k], moves[k]) && us[k + 1] == Step(us[k], moves[k]) {
        assert k < n ==> moves[..n][k] == moves[k];
      }
    }
  }

  lemma {:induction false} PathInv(us: seq<Sys>, moves: seq<Move>, k: nat)
    requires Path(us, moves) && k <= |moves|
    ensures Inv(us[k])
    decreases k
  {
    hide Start, Enabled, Step, Inv;
    if k == 0 {
      StartInv(us[0]);
    } else {
      PathInv(us, moves, k - 1);
      Keeps(us[k - 1], moves[k - 1]);
    }
  }

  // ---- what goes out ----

  /** The four acknowledgements in plain bytes. */
  function Puback(id: nat): seq<byte> requires id < 65536 { [0x40, 2, id / 256, id % 256] }
  function Pubrec(id: nat): seq<byte> requires id < 65536 { [0x50, 2, id / 256, id % 256] }
  function Pubrel(id: nat): seq<byte> requires id < 65536 { [0x62, 2, id / 256, id % 256] }
  function Pubcomp(id: nat): seq<byte> requires id < 65536 { [0x70, 2, id / 256, id % 256] }

  lemma AcksAre(id: nat)
    requires id < 65536
    ensures AckBytes(Codec.Ack(PUBACK, 0, id)) == Puback(id) && AckBytes(Codec.Ack(PUBREC, 0, id)) == Pubrec(id)
    ensures AckBytes(Codec.Ack(PUBREL, 0, id)) == Pubrel(id) && AckBytes(Codec.Ack(PUBCOMP, 0, id)) == Pubcomp(id)
  {
    hide AckBytes;
    W.AckWire(id);
  }

  /** The client reads the packet at the head of the connection. */
  ghost predicate Reads(s: Sys, mv: Move) { mv.ClientReads? && s.toClient != [] && s.c.state == Connected }

  /** What the client answers to the packet it reads, if the send succeeds. */
  function Answer(acks: seq<Record>, p: Packet): (r: seq<seq<byte>>)
    requires (p.Pub? ==> p.m.id < 65536) && (p.Ackn? ==> p.a.id < 65536)
  {
    match p
    case Pub(m) => if m.qos == 1 then [Puback(m.id)] else if m.qos == 2 then [Pubrec(m.id)] else []
    case Ackn(a) =>
      if a.kind == PUBREC && !Exists(acks, PUBCOMP, a.id) then [Pubrel(a.id)]
      else if a.kind == PUBREL then [Pubcomp(a.id)]
      else []
    case Other => []
  }

  /** In each step that reads a packet the answer goes out, or nothing when the send fails. */
  lemma Answered(s: Sys, mv: Move)
    requires Enabled(s, mv) && Reads(s, mv)
    ensures var p := Decode(s.toClient[0]);
            && (p.Pub? ==> p.m.id < 65536) && (p.Ackn? ==> p.a.id < 65536)
            && Step(s, mv).toServer == s.toServer + if mv.ok then Answer(s.c.acks, p) else []
  {
    hide Decode, NoteOf, AckBytes, RecordAck, AfterPubrec, Unrecord, Lookup, Found, Exists, Install, WithoutFilter,
      Puback, Pubrec, Pubrel, Pubcomp;
    DecodedRanges(s.toClient[0]);
    match Decode(s.toClient[0])
    case Pub(m) => AcksAre(m.id);
    case Ackn(a) => AcksAre(a.id);
    case Other => assert s.toServer + [] == s.toServer;
  }

  // ---- records that go ----

  /** The step in which a record ends: its acknowledgement is read, or, for those of subscriptions, it is given up. */
  ghost predicate EndedBy(s: Sys, mv: Move, r: Record)
    requires Enabled(s, mv)
  {
    if mv.ClientReads? then
      && s.c.state == Connected
      && match Decode(s.toClient[0])
         case Pub(_) => false
         case Ackn(a) => r.kind == a.kind && r.id == a.id
         case Other =>
           match mv.note
           case Suback(id, _) => r.kind == SUBACK && r.id == id
           case Unsuback(id) => r.kind == UNSUBACK && r.id == id
           case NoNote => false
    else
      && mv.ClientScans? && s.c.state == Connected && r.kind in {SUBACK, UNSUBACK}
      && exists i :: 0 <= i < |s.c.acks| && s.c.acks[i] == r && (mv.expired[i] || mv.flag != 1)
  }

  /** A record leaves the table in exactly such a step. */
  lemma RecordLeaves(s: Sys, mv: Move, r: Record)
    requires Inv(s) && Enabled(s, mv) && r in s.c.acks
    ensures r !in Step(s, mv).c.acks <==> EndedBy(s, mv, r)
  {
    hide Inv, TableOk, UserPublish, UserSubscribe, UserUnsubscribe, OnPacket, Scan, ServerReceives, Decode, NoteOf,
      GoodRequest, Found;
    InvParts(s);
    match mv
    case AppPublish(m, ok) => PublishOutcome(s.c, m, ok);
    case AppSubscribe(h, ok) => var q, b := SubscribeOutcome(s.c, h, ok);
    case AppUnsubscribe(filter, ok) => var q, b := UnsubscribeOutcome(s.c, filter, ok);
    case ClientReads(ok, note) =>
      DecodedRanges(s.toClient[0]);
      if s.c.state == Connected {
        LeavesRead(s.c, Decode(s.toClient[0]), ok, note, r);
      } else {
        NotConnectedReads(s.c, Decode(s.toClient[0]), ok, note);
      }
    case ClientScans(flag, expired, oks) => LeavesScan(s.c, flag, expired, oks, r);
    case ServerReads(put) => ServerLeavesClient(s.(toServer := s.toServer[1..]), Decode(s.toServer[0]), put);
    case _ =>
  }

  lemma LeavesRead(c: Client, p: Packet, ok: bool, note: Note, r: Record)
    requires TableOk(c) && c.state == Connected && r in c.acks
    requires note.Unsuback? ==> Found(c.acks, UNSUBACK, note.id).Some?
    requires p.Ackn? ==> p.a.kind in {PUBACK, PUBREC, PUBREL, PUBCOMP} && p.a.id < 65536
    requires p.Pub? ==> p.m.id < 65536
    ensures r !in OnPacket(c, p, ok, note).c.acks <==>
      match p
      case Pub(_) => false
      case Ackn(a) => r.kind == a.kind && r.id == a.id
      case Other =>
        match note
        case Suback(id, _) => r.kind == SUBACK && r.id == id
        case Unsuback(id) => r.kind == UNSUBACK && r.id == id
        case NoNote => false
  {
    hide TableOk, Unrecord, RecordAck, Found, Lookup, Install, WithoutFilter, AckBytes;
    match p
    case Pub(m) => RecordAckShort(c, PUBREL, m.id, Codec.Ack(PUBREC, 0, m.id));
    case Ackn(a) =>
      UnrecordKeeps(c, a.kind, a.id);
      if a.kind == PUBREC {
        PubrecMembers(c, a.id, r);
      }
    case Other =>
      match note
      case Suback(id, _) => UnrecordKeeps(c, SUBACK, id); InstallAcks(Unrecord(c, SUBACK, id));
      case Unsuback(id) => UnrecordKeeps(c, UNSUBACK, id);
      case NoNote =>
  }

  /** What is on record after a PUBREC: what was, without the record that waited for it, and one that waits for the
      PUBCOMP and would resend b. */
  predicate InAfter(acks: seq<Record>, id: nat, b: seq<byte>, r: Record) {
    (r in acks && !Is(r, PUBREC, id)) || (!Exists(acks, PUBCOMP, id) && r == Record(PUBCOMP, id, b, None))
  }

  lemma PubrecMembers(c: Client, id: nat, r: Record)
    requires TableOk(c) && id < 65536
    ensures r in AfterPubrec(c, id).acks <==> InAfter(c.acks, id, PubRel(id), r)
  {
    hide TableOk, Unrecord, RecordAck, AckBytes, Exists;
    var b := PubRel(id);
    var c1 := RecordAck(c, PUBCOMP, id, b, None).0;
    RecordAckShort(c, PUBCOMP, id, Codec.Ack(PUBREL, 0, id));
    RecordKeeps(c, PUBCOMP, id, b, None);
    UnrecordKeeps(c1, PUBREC, id);
  }

  lemma LeavesScan(c: Client, flag: nat, expired: seq<bool>, oks: seq<bool>, r: Record)
    requires TableOk(c) && |expired| == |c.acks| == |oks| && r in c.acks
    ensures r !in Scan(c, flag, expired, oks).c.acks <==>
      && c.state == Connected && r.kind in {SUBACK, UNSUBACK}
      && exists i :: 0 <= i < |c.acks| && c.acks[i] == r && (expired[i] || flag != 1)
  {
    hide Kept, Resent, Surviving;
    if c.state == Connected {
      KeptMembers(c.acks, Due(flag, expired), r);
    }
  }

  lemma {:induction false} KeptMembers(acks: seq<Record>, due: seq<bool>, r: Record)
    requires |due| == |acks| && Distinct(acks)
    ensures r in Kept(acks, due) <==> exists i :: 0 <= i < |acks| && acks[i] == r && !(due[i] && !IsQos(r))
  {
    if acks != [] {
      var n := |acks| - 1;
      KeptMembers(acks[..n], due[..n], r);
      assert forall i :: 0 <= i < n ==> acks[..n][i] == acks[i] && due[..n][i] == due[i];
    }
  }

  // ---- records that come ----

  function Cut16(b: seq<byte>): seq<byte> { b[..|b| % 65536] }

  /** A request b that goes out, and its record; with the identifier in use nothing is recorded, nor without a
      handler. */
  predicate Requested(c: Client, kind: nat, id: nat, b: seq<byte>, h: Option<Handler>, ok: bool, o: Out) {
    && (o.sent != [] ==> ok && c.state == Connected && o.sent == [b])
    && (o.rc == Success <==> o.sent != [] && h.Some? && !Exists(c.acks, kind, id))
    && o.c.acks == if o.rc == Success then c.acks + [Record(kind, id, Cut16(b), h)] else c.acks
  }

  ghost predicate Subscribes(c: Client, h: Handler, ok: bool, id: nat, b: seq<byte>) {
    Requested(c, SUBACK, id, b, Some(h), ok, UserSubscribe(c, h, ok))
  }

  lemma SubscribeEffect(c: Client, h: Handler, ok: bool, id: nat, b: seq<byte>)
    requires id == NextId(c.packetId) && b == L.SubscribeBytes(0, id, [L.Filter(h.filter, h.qos)])
    ensures Subscribes(c, h, ok, id, b)
  {
    hide NextId, L.SubscribeBytes, Fits, L.FiltersBytes, Exists;
  }

  ghost predicate Unsubscribes(c: Client, filter: seq<byte>, ok: bool, id: nat, b: seq<byte>) {
    Requested(c, UNSUBACK, id, b, Lookup(c.msgs, filter, []), ok, UserUnsubscribe(c, filter, ok))
  }

  lemma UnsubscribeEffect(c: Client, filter: seq<byte>, ok: bool, id: nat, b: seq<byte>)
    requires id == NextId(c.packetId) && b == L.UnsubscribeBytes(0, id, [filter])
    ensures Unsubscribes(c, filter, ok, id, b)
  {
    hide NextId, L.UnsubscribeBytes, Fits, L.TopicsBytes, Exists, Lookup;
  }

  /** The step in which a record is made, and the record. */
  ghost predicate MadeBy(s: Sys, mv: Move, r: Record)
    requires Enabled(s, mv)
  {
    match mv
    case AppPublish(m, ok) =>
      var n := Numbered(s.c, m);
      && ok && m.qos in {1, 2}
      && r == Record(if m.qos == 1 then PUBACK else PUBREC, n.id, PublishBytes(n.(dup := 1)), None)
    case AppSubscribe(h, ok) => ok && r.kind == SUBACK && r.id == NextId(s.c.packetId) && r.handler == Some(h)
    case AppUnsubscribe(filter, ok) =>
      && ok && r.kind == UNSUBACK && r.id == NextId(s.c.packetId)
      && r.handler.Some? && r.handler == Lookup(s.c.msgs, filter, [])
    case ClientReads(ok, note) =>
      s.c.state == Connected && MadeByReading(Decode(s.toClient[0]), ok, r)
    case _ => false
  }

  predicate MadeByReading(p: Packet, ok: bool, r: Record) {
    match p
    case Pub(m) => ok && m.qos == 2 && m.id < 65536 && r == Record(PUBREL, m.id, Pubrec(m.id), None)
    case Ackn(a) => a.kind == PUBREC && a.id < 65536 && r == Record(PUBCOMP, a.id, Pubrel(a.id), None)
    case Other => false
  }

  /** No other step makes a record. */
  lemma RecordEnters(s: Sys, mv: Move, r: Record)
    requires Inv(s) && Enabled(s, mv) && r !in s.c.acks && r in Step(s, mv).c.acks
    ensures MadeBy(s, mv, r)
  {
    hide Inv, TableOk, UserPublish, UserSubscribe, UserUnsubscribe, OnPacket, Scan, ServerReceives, Decode, NoteOf,
      GoodRequest, Found, PublishBytes, L.SubscribeBytes, L.UnsubscribeBytes, Pubrec, Pubrel, Exists, Lookup, NextId;
    InvParts(s);
    match mv
    case AppPublish(m, ok) =>
      PublishOutcome(s.c, m, ok);
      SentOk(s.c, m, ok);
      GoodRequestParts(s.c, m);
    case AppSubscribe(h, ok) =>
      var id := NextId(s.c.packetId);
      SubscribeEffect(s.c, h, ok, id, L.SubscribeBytes(0, id, [L.Filter(h.filter, h.qos)]));
    case AppUnsubscribe(filter, ok) =>
      var id := NextId(s.c.packetId);
      UnsubscribeEffect(s.c, filter, ok, id, L.UnsubscribeBytes(0, id, [filter]));
    case ClientReads(ok, note) =>
      DecodedRanges(s.toClient[0]);
      if s.c.state == Connected {
        EntersRead(s.c, Decode(s.toClient[0]), ok, note, r);
      } else {
        NotConnectedReads(s.c, Decode(s.toClient[0]), ok, note);
      }
    case ClientScans(flag, expired, oks) => EntersScan(s.c, flag, expired, oks, r);
    case ServerReads(put) => ServerLeavesClient(s.(toServer := s.toServer[1..]), Decode(s.toServer[0]), put);
    case _ =>
  }

  lemma SentOk(c: Client, m: Publish, ok: bool)
    ensures UserPublish(c, m, ok).0.rc == Success ==> ok && c.state == Connected
  {
    hide PublishBytes, SetDup, Exists, Fits;
  }

  lemma EntersRead(c: Client, p: Packet, ok: bool, note: Note, r: Record)
    requires TableOk(c) && c.state == Connected && r !in c.acks
    requires note.Unsuback? ==> Found(c.acks, UNSUBACK, note.id).Some?
    requires (p.Pub? ==> p.m.id < 65536) && (p.Ackn? ==> p.a.id < 65536)
    requires r in OnPacket(c, p, ok, note).c.acks
    ensures MadeByReading(p, ok, r)
  {
    hide TableOk, Unrecord, RecordAck, Found, Lookup, Install, WithoutFilter, AckBytes, Pubrec, Pubrel, AfterPubrec,
      Exists;
    match p
    case Pub(m) => RecordAckShort(c, PUBREL, m.id, Codec.Ack(PUBREC, 0, m.id)); AcksAre(m.id);
    case Ackn(a) =>
      UnrecordKeeps(c, a.kind, a.id);
      AcksAre(a.id);
      if a.kind == PUBREC {
        PubrecMembers(c, a.id, r);
      }
    case Other =>
      match note
      case Suback(id, _) => UnrecordKeeps(c, SUBACK, id); InstallAcks(Unrecord(c, SUBACK, id));
      case Unsuback(id) => UnrecordKeeps(c, UNSUBACK, id);
      case NoNote =>
  }

  lemma EntersScan(c: Client, flag: nat, expired: seq<bool>, oks: seq<bool>, r: Record)
    requires TableOk(c) && |expired| == |c.acks| == |oks| && r !in c.acks
    ensures r !in Scan(c, flag, expired, oks).c.acks
  {
    hide Kept, Resent, Surviving;
    if c.state == Connected {
      KeptMembers(c.acks, Due(flag, expired), r);
    }
  }

  // ---- what a scan resends ----

  /** A due record of a QoS exchange whose send succeeds. */
  ghost predicate GoesOut(c: Client, flag: nat, expired: seq<bool>, oks: seq<bool>, i: nat)
    requires i < |c.acks| == |expired| == |oks|
  {
    c.acks[i].kind in {PUBACK, PUBREC, PUBREL, PUBCOMP} && (expired[i] || flag != 1) && oks[i]
  }

  /** While connected a scan puts out the packets of the due records of QoS exchanges, and no others. */
  lemma ScanPutsOut(s: Sys, flag: nat, expired: seq<bool>, oks: seq<bool>, b: seq<byte>)
    requires |expired| == |s.c.acks| == |oks|
    ensures var t := Step(s, ClientScans(flag, expired, oks));
            && s.toServer <= t.toServer
            && (b in t.toServer[|s.toServer|..] <==>
                  s.c.state == Connected
                  && exists i :: 0 <= i < |s.c.acks| && GoesOut(s.c, flag, expired, oks, i) && s.c.acks[i].payload == b)
  {
    hide Kept, Resent, Surviving, Due;
    var o := Scan(s.c, flag, expired, oks);
    assert (s.toServer + o.sent)[|s.toServer|..] == o.sent;
    if s.c.state == Connected && s.c.acks != [] {
      ResentMembers(s.c.acks, Due(flag, expired), oks, b);
    }
  }

  lemma {:induction false} ResentMembers(acks: seq<Record>, due: seq<bool>, oks: seq<bool>, b: seq<byte>)
    requires |due| == |acks| == |oks|
    ensures b in Resent(acks, due, oks) <==>
      exists i :: 0 <= i < |acks| && (due[i] && IsQos(acks[i]) && oks[i]) && acks[i].payload == b
  {
    if acks != [] {
      var n := |acks| - 1;
      ResentMembers(acks[..n], due[..n], oks[..n], b);
      assert forall i :: 0 <= i < n ==> acks[..n][i] == acks[i] && due[..n][i] == due[i] && oks[..n][i] == oks[i];
    }
  }

  // ---- when a message goes out ----

  /** A message goes out exactly when the client is connected, fewer than 64 records are there if its QoS is not 0, the
      estimated packet fits the write buffer, and the send succeeds; the check of the payload alone adds nothing. */
  lemma PublishGoesOut(c: Client, m: Publish, ok: bool)
    requires TableOk(c)
    ensures var o := UserPublish(c, m, ok).0;
            && (o.sent != [] <==> c.state == Connected && (m.qos != 0 ==> |c.acks| < 64) && ok && PacketFits(c, m))
            && (o.c.state != c.state <==>
                  c.state == Connected && m.qos != 0 && |c.acks| >= 64 && |m.payload| <= c.bufSize)
            && (o.c.state != c.state ==> o.c.state == Disconnected)
  {
    hide SetDup, PublishBytes, Exists, PacketLen;
    PacketLenLonger(PublishLength(m));
    NumberedLength(m, NextId(c.packetId));
  }

  /** Header, size field as estimated, and the rest. */
  predicate PacketFits(c: Client, m: Publish) {
    PacketLen(2 + |m.topic| + (if m.qos > 0 then 2 else 0) + |m.payload|) <= c.bufSize
  }

  lemma NumberedLength(m: Publish, id: nat)
    ensures PublishLength(m.(id := id)) == PublishLength(m)
  {}
}
