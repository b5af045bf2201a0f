/** How an outgoing QoS 2 message moves through its two records, step by step. */
module QosStages {
  import opened Bytes
  import opened Codec
  import opened Options
  import opened ClientSpec
  import opened ClientTable
  import opened QosSystem
  import opened QosSafety
  import E = ExactlyOnce
  import L = CodecLists

  /** The step in which the client reads the PUBCOMP that it waits for; one that comes late, from an earlier message
      with the identifier, may be read before. */
  predicate ReadsPubcomp(s: Sys, mv: Move, id: nat) {
    && mv.ClientReads? && s.c.state == Connected && s.toClient != []
    && Decode(s.toClient[0]).Ackn? && Decode(s.toClient[0]).a.kind == PUBCOMP && Decode(s.toClient[0]).a.id == id
    && Exists(s.c.acks, PUBCOMP, id)
  }

  /** A message under way is still under way, and does not go back from PUBCOMP to PUBREC. */
  ghost predicate Onward(a: seq<Record>, b: seq<Record>, id: nat) {
    && (Exists(b, PUBREC, id) || Exists(b, PUBCOMP, id))
    && (Exists(a, PUBCOMP, id) ==> Exists(b, PUBCOMP, id))
  }

  ghost predicate UnderWay(a: seq<Record>, id: nat) { Exists(a, PUBREC, id) || Exists(a, PUBCOMP, id) }

  lemma OnwardAdded(a: seq<Record>, r: Record, id: nat)
    requires UnderWay(a, id)
    ensures Onward(a, a + [r], id)
  {
    hide Exists;
    ExistsAdded(a, r, PUBREC, id);
    ExistsAdded(a, r, PUBCOMP, id);
  }

  lemma OnwardRemoved(c: Client, kind: nat, i: nat, id: nat)
    requires TableOk(c) && UnderWay(c.acks, id) && (kind == PUBREC || kind == PUBCOMP ==> i != id)
    ensures Onward(c.acks, Unrecord(c, kind, i).acks, id)
  {
    hide TableOk, Exists, Unrecord;
    ExistsRemoved(c, kind, i, PUBREC, id);
    ExistsRemoved(c, kind, i, PUBCOMP, id);
  }

  lemma {:induction false} ExistsKept(acks: seq<Record>, due: seq<bool>, kind: nat, id: nat)
    requires |due| == |acks| && kind in {PUBACK, PUBREC, PUBREL, PUBCOMP}
    ensures Exists(Kept(acks, due), kind, id) == Exists(acks, kind, id)
  {
    hide Exists;
    if acks == [] {
      assert !Exists([], kind, id) by { NoneExists(kind, id); }
    } else {
      var n := |acks| - 1;
      ExistsKept(acks[..n], due[..n], kind, id);
      ExistsAdded(acks[..n], acks[n], kind, id);
      assert acks[..n] + [acks[n]] == acks;
      var front := Kept(acks[..n], due[..n]);
      ExistsAdded(front, acks[n], kind, id);
      assert front + [] == front;
    }
  }

  lemma NoneExists(kind: nat, id: nat)
    ensures !Exists([], kind, id)
  {}

  lemma OnwardScan(c: Client, flag: nat, expired: seq<bool>, oks: seq<bool>, id: nat)
    requires |expired| == |c.acks| == |oks| && UnderWay(c.acks, id)
    ensures Onward(c.acks, Scan(c, flag, expired, oks).c.acks, id)
  {
    hide Exists, Kept, Resent, Surviving;
    ExistsKept(c.acks, Due(flag, expired), PUBREC, id);
    ExistsKept(c.acks, Due(flag, expired), PUBCOMP, id);
  }

  lemma OnwardRead(c: Client, p: Packet, ok: bool, note: Note, id: nat)
    requires TableOk(c) && UnderWay(c.acks, id) && c.state == Connected
    requires note.Unsuback? ==> Found(c.acks, UNSUBACK, note.id).Some?
    requires p.Ackn? ==> p.a.id < 65536 && !(p.a.kind == PUBCOMP && p.a.id == id && Exists(c.acks, PUBCOMP, id))
    ensures Onward(c.acks, OnPacket(c, p, ok, note).c.acks, id)
  {
    hide TableOk, Exists, Unrecord, RecordAck, AckBytes, Found, Lookup, Install, WithoutFilter;
    match p
    case Pub(m) =>
      RecordAckShort(c, PUBREL, m.id, Codec.Ack(PUBREC, 0, m.id));
      OnwardAdded(c.acks, Record(PUBREL, m.id, AckBytes(Codec.Ack(PUBREC, 0, m.id)), None), id);
    case Ackn(a) =>
      if a.kind == PUBREC {
        OnwardPubrec(c, a.id, ok, id);
      } else if a.kind == PUBCOMP && a.id == id {
        ExistsRemoved(c, PUBCOMP, id, PUBREC, id);
        ExistsRemoved(c, PUBCOMP, id, PUBCOMP, id);
      } else {
        OnwardRemoved(c, a.kind, a.id, id);
      }
    case Other =>
      if note.Suback? { OnwardRemoved(c, SUBACK, note.id, id); InstallAcks(Unrecord(c, SUBACK, note.id)); }
      if note.Unsuback? { OnwardRemoved(c, UNSUBACK, note.id, id); }
  }

  lemma OnwardPubrec(c: Client, i: nat, ok: bool, id: nat)
    requires TableOk(c) && UnderWay(c.acks, id) && c.state == Connected && i < 65536
    ensures Onward(c.acks, OnPubrecPubrel(c, PUBREC, i, ok).c.acks, id)
  {
    hide TableOk, Exists, AfterPubrec, AckBytes;
    PubrecExists(c, i, PUBREC, id);
    PubrecExists(c, i, PUBCOMP, id);
  }

  /** An outgoing message stays on record until its PUBCOMP is read, by exactly one record, which only ever
      changes from waiting for PUBREC to waiting for PUBCOMP. */
  lemma HeldUntilPubcomp(s: Sys, mv: Move, id: nat)
    requires Inv(s) && Enabled(s, mv) && UnderWay(s.c.acks, id) && !ReadsPubcomp(s, mv, id)
    ensures var t := Step(s, mv).c.acks;
            && Onward(s.c.acks, t, id) && !(Exists(t, PUBREC, id) && Exists(t, PUBCOMP, id))
  {
    hide Inv, TableOk, UserPublish, UserSubscribe, UserUnsubscribe, OnPacket, Scan, ServerReceives, Decode, Exists,
      GoodRequest, Found;
    Keeps(s, mv);
    InvParts(Step(s, mv));
    InvParts(s);
    match mv
    case AppPublish(m, ok) =>
      PublishOutcome(s.c, m, ok);
      var n := Numbered(s.c, m);
      OnwardAdded(s.c.acks, Record(if m.qos == 1 then PUBACK else PUBREC, n.id, PublishBytes(n.(dup := 1)), None), id);
    case AppSubscribe(h, ok) =>
      var r, b := SubscribeOutcome(s.c, h, ok);
      OnwardAdded(s.c.acks, r, id);
    case AppUnsubscribe(filter, ok) =>
      var r, b := UnsubscribeOutcome(s.c, filter, ok);
      OnwardAdded(s.c.acks, r, id);
    case ClientReads(ok, note) =>
      DecodedRanges(s.toClient[0]);
      if s.c.state == Connected {
        OnwardRead(s.c, Decode(s.toClient[0]), ok, note, id);
      } else {
        NotConnectedReads(s.c, Decode(s.toClient[0]), ok, note);
      }
    case ClientScans(flag, expired, oks) => OnwardScan(s.c, flag, expired, oks, id);
    case ServerReads(put) => ServerLeavesClient(s.(toServer := s.toServer[1..]), Decode(s.toServer[0]), put);
    case _ =>
  }

  lemma ServerLeavesClient(s: Sys, p: Packet, put: bool)
    ensures var t := ServerReceives(s, p, put);
            t.c == s.c && t.toServer == s.toServer && t.clientAccepted == s.clientAccepted
  {
    hide AckBytes;
  }

  // ---- what goes out ----

  /** b is a PUBLISH of a QoS 2 message with that identifier. */
  predicate Publishes(b: seq<byte>, id: nat) { Decode(b).Pub? && About(Decode(b).m, id) }

  /** What the client puts on the connection in a step. */
  function PutOut(s: Sys, mv: Move): seq<seq<byte>>
    requires Enabled(s, mv)
  {
    match mv
    case AppPublish(m, ok) => UserPublish(s.c, m, ok).0.sent
    case AppSubscribe(h, ok) => UserSubscribe(s.c, h, ok).sent
    case AppUnsubscribe(filter, ok) => UserUnsubscribe(s.c, filter, ok).sent
    case ClientReads(ok, note) => OnPacket(s.c, Decode(s.toClient[0]), ok, note).sent
    case ClientScans(flag, expired, oks) => Scan(s.c, flag, expired, oks).sent
    case _ => []
  }

  lemma {:induction false} ResentOrigin(acks: seq<Record>, due: seq<bool>, oks: seq<bool>, b: seq<byte>)
    requires |due| == |acks| == |oks| && b in Resent(acks, due, oks)
    ensures exists i :: 0 <= i < |acks| && IsQos(acks[i]) && b == acks[i].payload
  {
    var n := |acks| - 1;
    if b in Resent(acks[..n], due[..n], oks[..n]) {
      ResentOrigin(acks[..n], due[..n], oks[..n], b);
      var i :| 0 <= i < n && IsQos(acks[..n][i]) && b == acks[..n][i].payload;
      assert acks[i] == acks[..n][i];
    }
  }

  lemma ScanPublishes(s: Sys, flag: nat, expired: seq<bool>, oks: seq<bool>, b: seq<byte>, id: nat)
    requires Inv(s) && |expired| == |s.c.acks| == |oks| && b in Scan(s.c, flag, expired, oks).sent && Publishes(b, id)
    ensures Exists(s.c.acks, PUBREC, id) && b == PublishBytes(LastTold(s.clientAccepted, id).value.(dup := 1))
  {
    hide Inv, Decode, Kept, Resent, Surviving, PublishBytes, LastTold, AckBytes;
    ResentOrigin(s.c.acks, Due(flag, expired), oks, b);
    var i :| 0 <= i < |s.c.acks| && IsQos(s.c.acks[i]) && b == s.c.acks[i].payload;
    MemberFacts(s, i);
    ResentSays(s.c.acks[i], s.clientAccepted, id);
  }

  lemma ReadPublishesNothing(c: Client, p: Packet, ok: bool, note: Note, b: seq<byte>, id: nat)
    requires note.Unsuback? && c.state == Connected ==> Found(c.acks, UNSUBACK, note.id).Some?
    requires (p.Pub? ==> p.m.id < 65536) && (p.Ackn? ==> p.a.id < 65536)
    requires b in OnPacket(c, p, ok, note).sent
    ensures !Publishes(b, id)
  {
    hide Decode, AckBytes, Unrecord, RecordAck, Found, Lookup, Install, WithoutFilter;
    match p
    case Pub(m) =>
      DecodeAck(Codec.Ack(PUBACK, 0, m.id));
      DecodeAck(Codec.Ack(PUBREC, 0, m.id));
    case Ackn(a) =>
      DecodeAck(Codec.Ack(PUBREL, 0, a.id));
      DecodeAck(Codec.Ack(PUBCOMP, 0, a.id));
    case Other =>
  }

  /** While a message is under way, no step publishes it except to resend it before its PUBREC was read, and
      then with the bytes first sent but for DUP; in particular nothing is published for an identifier whose
      PUBREL is out. */
  lemma PublishedAgain(s: Sys, mv: Move, b: seq<byte>, id: nat)
    requires Inv(s) && Enabled(s, mv) && UnderWay(s.c.acks, id) && b in PutOut(s, mv) && Publishes(b, id)
    ensures mv.ClientScans? && Exists(s.c.acks, PUBREC, id) && !Exists(s.c.acks, PUBCOMP, id)
    ensures LastTold(s.clientAccepted, id).Some?
    ensures b == PublishBytes(LastTold(s.clientAccepted, id).value.(dup := 1))
  {
    hide Inv, TableOk, UserPublish, UserSubscribe, UserUnsubscribe, OnPacket, Scan, Decode, Exists, GoodRequest,
      PublishBytes, LastTold, Found;
    InvParts(s);
    match mv
    case AppPublish(m, ok) =>
      PublishOutcome(s.c, m, ok);
      GoodRequestParts(s.c, m);
      DecodePublish(Numbered(s.c, m));
      assert false;
    case AppSubscribe(h, ok) =>
      var r, x := SubscribeOutcome(s.c, h, ok);
      assert false;
    case AppUnsubscribe(filter, ok) =>
      var r, x := UnsubscribeOutcome(s.c, filter, ok);
      assert false;
    case ClientReads(ok, note) =>
      DecodedRanges(s.toClient[0]);
      ReadPublishesNothing(s.c, Decode(s.toClient[0]), ok, note, b, id);
      assert false;
    case ClientScans(flag, expired, oks) =>
      ScanPublishes(s, flag, expired, oks, b, id);
      RecBacked(s, id);
  }

  lemma RecBacked(s: Sys, id: nat)
    requires Inv(s) && Exists(s.c.acks, PUBREC, id)
    ensures LastTold(s.clientAccepted, id).Some?
  {
    hide E.Inv, LastTold, PublishBytes, GoodPublish;
    var i :| 0 <= i < |s.c.acks| && Is(s.c.acks[i], PUBREC, id);
    assert Backed(s.c.acks[i], s.clientAccepted);
  }

  // ---- over any stretch of a run ----

  /** The moves lead from s to t, the client putting `out` on the connection and reading no PUBCOMP of id. */
  ghost predicate Stretch(s: Sys, moves: seq<Move>, t: Sys, id: nat, out: seq<seq<byte>>) {
    if moves == [] then t == s && out == []
    else
      var n := |moves| - 1;
      exists u: Sys, o: seq<seq<byte>> :: Stretch(s, moves[..n], u, id, o) && Onwards(u, moves[n], t, id, o, out)
  }

  ghost predicate Onwards(u: Sys, mv: Move, t: Sys, id: nat, o: seq<seq<byte>>, out: seq<seq<byte>>) {
    Enabled(u, mv) && !ReadsPubcomp(u, mv, id) && t == Step(u, mv) && out == o + PutOut(u, mv)
  }

  /** Every message put out for the identifier is the one first accepted, with DUP set, and only before PUBREL. */
  ghost predicate Repeats(s: Sys, id: nat, out: seq<seq<byte>>) {
    forall b :: b in out && Publishes(b, id) ==>
      !Exists(s.c.acks, PUBCOMP, id) && LastTold(s.clientAccepted, id).Some?
      && b == PublishBytes(LastTold(s.clientAccepted, id).value.(dup := 1))
  }

  /** No message with an identifier under way is accepted. */
  lemma SameMessage(s: Sys, mv: Move, id: nat)
    requires Inv(s) && Enabled(s, mv) && UnderWay(s.c.acks, id)
    ensures LastTold(Step(s, mv).clientAccepted, id) == LastTold(s.clientAccepted, id)
    ensures Told(Step(s, mv).clientAccepted, id) == Told(s.clientAccepted, id)
  {
    hide Inv, TableOk, UserPublish, UserSubscribe, UserUnsubscribe, OnPacket, Scan, ServerReceives, Decode, Exists,
      GoodRequest, LastTold, Told,
      PublishBytes;
    match mv
    case AppPublish(m, ok) =>
      GoodRequestParts(s.c, m);
      ToldAppend(s.clientAccepted, Numbered(s.c, m), id);
      assert s.clientAccepted + [] == s.clientAccepted;
      InvParts(s);
      PublishOutcome(s.c, m, ok);
    case ServerReads(put) => ServerLeavesClient(s.(toServer := s.toServer[1..]), Decode(s.toServer[0]), put);
    case _ =>
  }

  /** Through any stretch of a run, however often connections are cut and acknowledgements time out: until its
      PUBCOMP is read the message stays on record, by exactly one record, never going back from PUBCOMP to
      PUBREC; and what is published for its identifier is that message again, with DUP set, and nothing at all
      once PUBREL may have gone out. */
  lemma {:induction false} NeverLost(s: Sys, moves: seq<Move>, t: Sys, id: nat, out: seq<seq<byte>>)
    requires Inv(s) && UnderWay(s.c.acks, id) && Stretch(s, moves, t, id, out)
    ensures Inv(t) && Onward(s.c.acks, t.c.acks, id) && !(Exists(t.c.acks, PUBREC, id) && Exists(t.c.acks, PUBCOMP, id))
    ensures LastTold(t.clientAccepted, id) == LastTold(s.clientAccepted, id)
    ensures Told(t.clientAccepted, id) == Told(s.clientAccepted, id)
    ensures Repeats(s, id, out)
    decreases |moves|
  {
    hide Inv, Enabled, Step, PutOut, ReadsPubcomp, Exists, LastTold, Told, Publishes, PublishBytes;
    if moves == [] {
      InvParts(s);
    } else {
      var n := |moves| - 1;
      var u: Sys, o: seq<seq<byte>> :| Stretch(s, moves[..n], u, id, o) && Onwards(u, moves[n], t, id, o, out);
      NeverLost(s, moves[..n], u, id, o);
      Keeps(u, moves[n]);
      HeldUntilPubcomp(u, moves[n], id);
      SameMessage(u, moves[n], id);
      forall b | b in PutOut(u, moves[n]) && Publishes(b, id)
        ensures Repeats(s, id, [b])
      {
        PublishedAgain(u, moves[n], b, id);
      }
      forall b | b in out && Publishes(b, id)
        ensures !Exists(s.c.acks, PUBCOMP, id) && LastTold(s.clientAccepted, id).Some?
          && b == PublishBytes(LastTold(s.clientAccepted, id).value.(dup := 1))
      {
        if b in PutOut(u, moves[n]) { assert b in [b]; } else { assert b in o; }
      }
    }
  }

  // ---- from acceptance to PUBCOMP ----

  /** The application gets a QoS 2 message accepted, as n. */
  ghost predicate Accepts(s: Sys, m: Publish, ok: bool, n: Publish) {
    && Enabled(s, AppPublish(m, ok)) && m.qos == 2 && n == Numbered(s.c, m)
    && UserPublish(s.c, m, ok).0.rc == Success
  }

  /** An accepted message goes out as it is and is then on record to be answered by PUBREC. */
  lemma AcceptedIsHeld(s: Sys, m: Publish, ok: bool, n: Publish)
    requires Inv(s) && Accepts(s, m, ok, n)
    ensures var u := Step(s, AppPublish(m, ok));
            && PutOut(s, AppPublish(m, ok)) == [PublishBytes(n)]
            && Exists(u.c.acks, PUBREC, n.id) && !Exists(u.c.acks, PUBCOMP, n.id)
            && LastTold(u.clientAccepted, n.id) == Some(n)
            && Told(u.clientAccepted, n.id) == Told(s.clientAccepted, n.id) + [ContentOf(n)]
  {
    hide Inv, TableOk, UserPublish, Exists, GoodRequest, LastTold, Told, PublishBytes;
    InvParts(s);
    PublishOutcome(s.c, m, ok);
    GoodRequestParts(s.c, m);
    ToldAppend(s.clientAccepted, n, n.id);
    var r := Record(PUBREC, n.id, PublishBytes(n.(dup := 1)), None);
    ExistsAdded(s.c.acks, r, PUBREC, n.id);
    ExistsAdded(s.c.acks, r, PUBCOMP, n.id);
  }

  /** From acceptance on: while its PUBCOMP is not read the message is on record, by exactly one record, and all that
      is published for its identifier is the message itself with DUP set. */
  lemma HeldFromAcceptance(s: Sys, m: Publish, ok: bool, n: Publish, moves: seq<Move>, t: Sys, out: seq<seq<byte>>)
    requires Inv(s) && Accepts(s, m, ok, n) && Stretch(Step(s, AppPublish(m, ok)), moves, t, n.id, out)
    ensures Inv(t) && (Exists(t.c.acks, PUBREC, n.id) || Exists(t.c.acks, PUBCOMP, n.id))
    ensures !(Exists(t.c.acks, PUBREC, n.id) && Exists(t.c.acks, PUBCOMP, n.id))
    ensures forall b :: b in out && Publishes(b, n.id) ==> b == PublishBytes(n.(dup := 1))
    ensures Told(t.clientAccepted, n.id) == Told(s.clientAccepted, n.id) + [ContentOf(n)]
  {
    hide Inv, Enabled, Step, Stretch, PutOut, Exists, LastTold, Told, Publishes, PublishBytes;
    AcceptedIsHeld(s, m, ok, n);
    Keeps(s, AppPublish(m, ok));
    NeverLost(Step(s, AppPublish(m, ok)), moves, t, n.id, out);
  }

  /** And when its PUBCOMP is read it is on record no more, and the server has passed on all that was accepted for
      the identifier, each message once, this one last. */
  lemma DoneAtPubcomp(s: Sys, m: Publish, ok: bool, n: Publish, moves: seq<Move>, t: Sys, out: seq<seq<byte>>, mv: Move)
    requires Inv(s) && Accepts(s, m, ok, n) && Stretch(Step(s, AppPublish(m, ok)), moves, t, n.id, out)
    requires Enabled(t, mv) && ReadsPubcomp(t, mv, n.id)
    ensures var v := Step(t, mv);
            && !UnderWay(v.c.acks, n.id)
            && Told(v.serverDelivered, n.id) == Told(s.clientAccepted, n.id) + [ContentOf(n)]
  {
    hide Inv, Stretch, TableOk, Unrecord, Decode, Exists, LastTold, Told, Publishes, PublishBytes, E.Inv, LastContent,
      LastTold, Accepts;
    HeldFromAcceptance(s, m, ok, n, moves, t, out);
    InvParts(t);
    Keeps(t, mv);
    var v := Step(t, mv);
    InvParts(v);
    ExistsRemoved(t.c, PUBCOMP, n.id, PUBREC, n.id);
    ExistsRemoved(t.c, PUBCOMP, n.id, PUBCOMP, n.id);
    E.InOrderOnce(OutLink(v, n.id));
  }
}
