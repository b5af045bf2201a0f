/** Where fresh identifiers come from: until the counter has gone round, the next identifier is in no use, so the
    application owes the engine nothing for it. */
module QosFreshness {
  import opened Bytes
  import opened Codec
  import opened Options
  import opened ClientSpec
  import opened ClientTable
  import opened QosSystem
  import opened QosSafety
  import opened QosStages
  import E = ExactlyOnce
  import L = CodecLists

  /** What is recorded of messages that were published. */
  predicate Published(kind: nat) { kind == PUBACK || kind == PUBREC || kind == PUBCOMP }

  ghost predicate InUse(acks: seq<Record>, id: nat) {
    Exists(acks, PUBACK, id) || Exists(acks, PUBREC, id) || Exists(acks, PUBCOMP, id)
  }

  /** All identifiers in use for published messages have been counted. */
  ghost predicate Counted(acks: seq<Record>, n: nat) {
    forall kind, id: nat :: Published(kind) && Exists(acks, kind, id) ==> id <= n
  }

  /** Records of published messages that are new are so under the identifier id. */
  ghost predicate AddsOnly(a: seq<Record>, b: seq<Record>, id: nat) {
    forall kind, i: nat :: Published(kind) && Exists(b, kind, i) ==> i == id || InUse(a, i)
  }

  lemma CountedStill(a: seq<Record>, b: seq<Record>, n: nat, m: nat, id: nat)
    requires Counted(a, n) && AddsOnly(a, b, id) && n <= m && id <= m
    ensures Counted(b, m)
  {
    hide Exists;
  }

  lemma SameAdds(a: seq<Record>, id: nat)
    ensures AddsOnly(a, a, id)
  {
    hide Exists;
  }

  lemma RecordAdds(a: seq<Record>, r: Record, id: nat)
    requires Published(r.kind) ==> r.id == id
    ensures AddsOnly(a, a + [r], id)
  {
    hide Exists;
    forall kind, i: nat | Published(kind) && Exists(a + [r], kind, i)
      ensures i == id || InUse(a, i)
    {
      ExistsAdded(a, r, kind, i);
    }
  }

  lemma RemovalAdds(c: Client, kind0: nat, id0: nat, id: nat)
    requires TableOk(c)
    ensures AddsOnly(c.acks, Unrecord(c, kind0, id0).acks, id)
  {
    hide TableOk, Exists, Unrecord;
    forall kind, i: nat | Published(kind) && Exists(Unrecord(c, kind0, id0).acks, kind, i)
      ensures i == id || InUse(c.acks, i)
    {
      ExistsRemoved(c, kind0, id0, kind, i);
    }
  }

  lemma ScanAdds(c: Client, flag: nat, expired: seq<bool>, oks: seq<bool>, id: nat)
    requires |expired| == |c.acks| == |oks|
    ensures AddsOnly(c.acks, Scan(c, flag, expired, oks).c.acks, id)
  {
    hide Exists, Kept, Resent, Surviving;
    forall kind, i: nat | Published(kind) && Exists(Scan(c, flag, expired, oks).c.acks, kind, i)
      ensures i == id || InUse(c.acks, i)
    {
      ExistsKept(c.acks, Due(flag, expired), kind, i);
    }
  }

  /** A PUBREC that is read answers a message on record: it makes no identifier new. */
  lemma PubrecAdds(s: Sys, i0: nat, id: nat)
    requires Inv(s) && s.toClient != [] && i0 < 65536
    requires Decode(s.toClient[0]).Ackn? && Decode(s.toClient[0]).a.kind == PUBREC && Decode(s.toClient[0]).a.id == i0
    ensures AddsOnly(s.c.acks, AfterPubrec(s.c, i0).acks, id)
  {
    hide Inv, E.Inv, Decode, Exists, AfterPubrec, TableOk, Told, LastContent;
    InvParts(s);
    HeadSays(s.toClient, i0);
    IdleHearsNoRec(OutLink(s, i0));
    forall kind, i: nat | Published(kind) && Exists(AfterPubrec(s.c, i0).acks, kind, i)
      ensures i == id || InUse(s.c.acks, i)
    {
      PubrecExists(s.c, i0, kind, i);
    }
  }

  lemma ReadAdds(s: Sys, ok: bool, note: Note, id: nat)
    requires Inv(s) && Enabled(s, ClientReads(ok, note)) && s.c.state == Connected
    ensures AddsOnly(s.c.acks, OnPacket(s.c, Decode(s.toClient[0]), ok, note).c.acks, id)
  {
    hide Inv, Decode, TableOk, Exists, AddsOnly, AfterPubrec, Unrecord, RecordAck, AckBytes, Found, Lookup, Install,
      WithoutFilter;
    InvParts(s);
    DecodedRanges(s.toClient[0]);
    SameAdds(s.c.acks, id);
    match Decode(s.toClient[0])
    case Pub(m) =>
      RecordAckShort(s.c, PUBREL, m.id, Codec.Ack(PUBREC, 0, m.id));
      RecordAdds(s.c.acks, Record(PUBREL, m.id, AckBytes(Codec.Ack(PUBREC, 0, m.id)), None), id);
    case Ackn(a) =>
      if a.kind == PUBREC {
        PubrecAdds(s, a.id, id);
      } else {
        RemovalAdds(s.c, a.kind, a.id, id);
      }
    case Other =>
      if note.Suback? {
        RemovalAdds(s.c, SUBACK, note.id, id);
        InstallAcks(Unrecord(s.c, SUBACK, note.id));
      }
      if note.Unsuback? {
        RemovalAdds(s.c, UNSUBACK, note.id, id);
      }
  }

  // ---- the counter ----

  predicate IsRequest(mv: Move) { mv.AppPublish? || mv.AppSubscribe? || mv.AppUnsubscribe? }

  lemma PublishCounts(c: Client, m: Publish, ok: bool)
    ensures var o := UserPublish(c, m, ok).0;
            && (o.c.packetId == c.packetId || o.c.packetId == NextId(c.packetId))
            && (o.rc == Success && m.qos != 0 ==> o.c.packetId == NextId(c.packetId))
  {
    hide SetDup, PublishBytes, Exists, Fits;
  }

  lemma RequestCounts(c: Client, h: Handler, filter: seq<byte>, ok: bool)
    ensures var n := UserSubscribe(c, h, ok).c.packetId; n == c.packetId || n == NextId(c.packetId)
    ensures var n := UserUnsubscribe(c, filter, ok).c.packetId; n == c.packetId || n == NextId(c.packetId)
  {
    hide L.SubscribeBytes, L.UnsubscribeBytes, Lookup, Exists, Fits;
  }

  lemma OthersDoNotCount(s: Sys, mv: Move)
    requires Inv(s) && Enabled(s, mv) && !IsRequest(mv)
    ensures Step(s, mv).c.packetId == s.c.packetId
  {
    hide Inv, UserPublish, UserSubscribe, UserUnsubscribe, Decode, Exists, GoodRequest, Found, AckBytes, Lookup, Kept,
      Resent, Surviving, WithoutFilter, Remove, ServerReceives;
    match mv
    case ServerReads(put) => ServerLeavesClient(s.(toServer := s.toServer[1..]), Decode(s.toServer[0]), put);
    case _ =>
  }

  /** As long as the counter does not go round, all identifiers in use stay counted. */
  lemma KeepsCounted(s: Sys, mv: Move)
    requires Inv(s) && Enabled(s, mv) && Counted(s.c.acks, s.c.packetId) && s.c.packetId < MAX_ID
    ensures var t := Step(s, mv);
            && Counted(t.c.acks, t.c.packetId)
            && s.c.packetId <= t.c.packetId <= if IsRequest(mv) then s.c.packetId + 1 else s.c.packetId
  {
    hide Inv, TableOk, UserPublish, UserSubscribe, UserUnsubscribe, OnPacket, Scan, ServerReceives, Decode, Exists,
      GoodRequest, Found, PublishBytes, Counted, AddsOnly, Published;
    var t, n := Step(s, mv), s.c.packetId;
    InvParts(s);
    SameAdds(s.c.acks, n);
    if !IsRequest(mv) {
      OthersDoNotCount(s, mv);
    }
    match mv
    case AppPublish(m, ok) =>
      PublishCounts(s.c, m, ok);
      PublishOutcome(s.c, m, ok);
      var n1 := Numbered(s.c, m);
      SameAdds(s.c.acks, t.c.packetId);
      var kind := if m.qos == 1 then PUBACK else PUBREC;
      RecordAdds(s.c.acks, Record(kind, n1.id, PublishBytes(n1.(dup := 1)), None), n1.id);
      CountedStill(s.c.acks, t.c.acks, n, t.c.packetId, t.c.packetId);
    case AppSubscribe(h, ok) =>
      RequestCounts(s.c, h, [], ok);
      var r, b := SubscribeOutcome(s.c, h, ok);
      PlainRecord(s.c.acks, r, n);
      CountedStill(s.c.acks, t.c.acks, n, t.c.packetId, n);
    case AppUnsubscribe(filter, ok) =>
      RequestCounts(s.c, Handler([], 0, 0), filter, ok);
      var r, b := UnsubscribeOutcome(s.c, filter, ok);
      PlainRecord(s.c.acks, r, n);
      CountedStill(s.c.acks, t.c.acks, n, t.c.packetId, n);
    case ClientReads(ok, note) =>
      if s.c.state == Connected {
        ReadAdds(s, ok, note, n);
      } else {
        NotConnectedReads(s.c, Decode(s.toClient[0]), ok, note);
      }
      CountedStill(s.c.acks, t.c.acks, n, n, n);
    case ClientScans(flag, expired, oks) =>
      ScanAdds(s.c, flag, expired, oks, n);
      CountedStill(s.c.acks, t.c.acks, n, n, n);
    case ServerReads(put) => ServerLeavesClient(s.(toServer := s.toServer[1..]), Decode(s.toServer[0]), put);
    case _ =>
  }

  lemma PlainRecord(a: seq<Record>, r: Record, n: nat)
    requires r.kind == SUBACK || r.kind == UNSUBACK
    ensures AddsOnly(a, a + [r], n)
  {
    RecordAdds(a, r, n);
  }

  function Requests(moves: seq<Move>): nat {
    if moves == [] then 0
    else Requests(moves[..|moves| - 1]) + if IsRequest(moves[|moves| - 1]) then 1 else 0
  }

  lemma {:induction false} RunCounted(s: Sys, moves: seq<Move>, t: Sys)
    requires Run(s, moves, t) && Requests(moves) < MAX_ID - 1
    ensures Inv(t) && Counted(t.c.acks, t.c.packetId) && 1 <= t.c.packetId <= 1 + Requests(moves)
    decreases |moves|
  {
    hide Inv, Enabled, Step, Counted, IsRequest;
    if moves == [] {
      RunInv(s, moves, t);
      NothingCounted(t.c.packetId);
    } else {
      var n := |moves| - 1;
      var u: Sys :| Leads(s, moves[..n], u) && Enabled(u, moves[n]) && t == Step(u, moves[n]);
      RunCounted(s, moves[..n], u);
      KeepsCounted(u, moves[n]);
      Keeps(u, moves[n]);
    }
  }

  lemma NothingCounted(n: nat)
    ensures Counted([], n)
  {}

  /** What a message must be like of itself. */
  ghost predicate GoodMessage(m: Publish) {
    && m.qos <= 2 && m.dup == 0 && m.retained < 2 && |m.topic| < 65536 && (m.qos == 0 ==> m.id == 0)
    && |PublishBytes(m)| <= 65535 && PublishLength(m) <= MAX_REMAINING
  }

  /** In a session of fewer than 65533 requests the next identifier is always in no use: a message that is good of
      itself may be published in every state, and whatever is proved of runs holds of it. */
  lemma FirstRoundIsFresh(s: Sys, moves: seq<Move>, t: Sys, m: Publish)
    requires Run(s, moves, t) && Requests(moves) < MAX_ID - 1 && GoodMessage(m)
    ensures GoodRequest(t.c, m)
  {
    hide Run, Inv, Exists, LenBytes, Header;
    RunCounted(s, moves, t);
    assert NextId(t.c.packetId) == t.c.packetId + 1;
    NumberedSize(m, NextId(t.c.packetId));
  }

  lemma NumberedSize(m: Publish, id: nat)
    ensures |PublishBytes(m.(id := id))| == |PublishBytes(m)|
  {
    hide LenBytes, Header;
  }

  /** The identifier that came round again is in use for a message of QoS 2: the packet has gone out before the
      table is asked. With a PUBREC record there the call answers NodeExists and keeps nothing of the message; with
      a PUBCOMP record there it succeeds, and both records are there at once; with neither it is as at first. */
  lemma IdentifierInUse(s: Sys, m: Publish)
    requires Inv(s) && m.qos == 2 && UserPublish(s.c, m, true).0.sent != []
    ensures var (o, _) := UserPublish(s.c, m, true); var id := NextId(s.c.packetId); var t := o.c.acks;
            && o.sent == [PublishBytes(Numbered(s.c, m))] && o.rc in {Success, NodeExists}
            && (o.rc == NodeExists <==> Exists(s.c.acks, PUBREC, id))
            && (o.rc == NodeExists ==> t == s.c.acks && !Exists(t, PUBCOMP, id))
            && (Exists(t, PUBREC, id) && Exists(t, PUBCOMP, id) <==> Exists(s.c.acks, PUBCOMP, id))
  {
    hide Inv, E.Inv, TableOk, PublishBytes, SetDup, Exists, AllBacked, ServerOk, Fits;
    InvParts(s);
    var (o, _) := UserPublish(s.c, m, true);
    var id := NextId(s.c.packetId);
    if |o.c.acks| > |s.c.acks| {
      var r := o.c.acks[|s.c.acks|];
      ExistsAdded(s.c.acks, r, PUBREC, id);
      ExistsAdded(s.c.acks, r, PUBCOMP, id);
    }
  }
}
