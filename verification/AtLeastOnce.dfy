/** Messages of QoS 0 and QoS 1. Incoming ones are passed on as they are read, those of QoS 1 exactly when their PUBACK
    goes out; outgoing ones of QoS 1 are on record until their PUBACK is read. */
module AtLeastOnce {
  import opened Bytes
  import opened Codec
  import opened Options
  import opened ClientSpec
  import opened ClientTable
  import opened QosSystem
  import opened QosSafety
  import opened QosStages
  import opened QosRecords
  import L = CodecLists
  import T = TopicMatch

  // ---- incoming ----

  /** The messages of QoS 0 and 1 in a log. */
  function LowOnly(log: seq<Publish>): seq<Publish> {
    if log == [] then []
    else LowOnly(log[..|log| - 1]) + if log[|log| - 1].qos < 2 then [log[|log| - 1]] else []
  }

  lemma LowMore(log: seq<Publish>, more: seq<Publish>)
    requires |more| <= 1
    ensures LowOnly(log + more) == LowOnly(log) + if more != [] && more[0].qos < 2 then more else []
  {
    if more != [] {
      assert (log + more)[..|log|] == log && more == [more[0]];
    } else {
      assert log + more == log;
    }
  }

  /** The message of QoS 0 or 1 that is read in the step from s to t; one of QoS 1 counts if its PUBACK goes out. */
  ghost function HeardNow(s: Sys, mv: Move, t: Sys): seq<Publish> {
    if !Reads(s, mv) || !Decode(s.toClient[0]).Pub? then []
    else
      var m := Decode(s.toClient[0]).m;
      if m.qos == 0 || (m.qos == 1 && m.id < 65536 && t.toServer == s.toServer + [Puback(m.id)]) then [m] else []
  }

  ghost function Heard(us: seq<Sys>, moves: seq<Move>): seq<Publish>
    requires |us| == |moves| + 1
  {
    if moves == [] then []
    else
      var n := |moves| - 1;
      Heard(us[..n + 1], moves[..n]) + HeardNow(us[n], moves[n], us[n + 1])
  }

  lemma LowStep(s: Sys, mv: Move)
    requires Enabled(s, mv)
    ensures LowOnly(Step(s, mv).clientDelivered) == LowOnly(s.clientDelivered) + HeardNow(s, mv, Step(s, mv))
  {
    hide UserPublish, UserSubscribe, UserUnsubscribe, OnPacket, Scan, ServerReceives, Decode, NoteOf, GoodRequest,
      Found, LowOnly, Puback, Answer, Messages;
    assert LowOnly(s.clientDelivered) + [] == LowOnly(s.clientDelivered);
    if mv.ClientReads? {
      var o := OnPacket(s.c, Decode(s.toClient[0]), mv.ok, mv.note);
      if s.c.state == Connected {
        Answered(s, mv);
        DeliveredMessages(s.c, Decode(s.toClient[0]), mv.ok, mv.note);
        LowMore(s.clientDelivered, Messages(o.delivered));
        AnswerIs(s.c.acks, Decode(s.toClient[0]));
      } else {
        NotConnectedReads(s.c, Decode(s.toClient[0]), mv.ok, mv.note);
        LowMore(s.clientDelivered, []);
        MessagesNone();
      }
    } else if mv.ServerReads? {
      ServerDelivers(s.(toServer := s.toServer[1..]), Decode(s.toServer[0]), mv.put);
    }
  }

  lemma MessagesNone()
    ensures Messages([]) == []
  {}

  lemma AnswerIs(acks: seq<Record>, p: Packet)
    requires (p.Pub? ==> p.m.id < 65536) && (p.Ackn? ==> p.a.id < 65536)
    ensures p.Pub? && p.m.qos == 1 ==> Answer(acks, p) == [Puback(p.m.id)]
  {
    hide Puback, Exists;
  }

  lemma ServerDelivers(s: Sys, p: Packet, put: bool)
    ensures ServerReceives(s, p, put).clientDelivered == s.clientDelivered
  {
    hide AckBytes;
  }

  /** What a packet hands on: a message of QoS 0; one of QoS 1 if the PUBACK could be sent; one of QoS 2 at most. */
  lemma DeliveredMessages(c: Client, p: Packet, ok: bool, note: Note)
    requires c.state == Connected && (note.Unsuback? ==> Found(c.acks, UNSUBACK, note.id).Some?)
    ensures var d := Messages(OnPacket(c, p, ok, note).delivered);
            && |d| <= 1 && (d != [] ==> p.Pub? && d == [p.m])
            && (p.Pub? && p.m.qos == 0 ==> d == [p.m]) && (p.Pub? && p.m.qos == 1 ==> d == if ok then [p.m] else [])
            && (p.Pub? && p.m.qos == 2 && !ok ==> d == [])
  {
    hide AckBytes, RecordAck, AfterPubrec, Unrecord, Lookup, Found, Install, WithoutFilter;
    if p.Pub? {
      MessagesOne(Delivery(p.m, Lookup(c.msgs, p.m.topic, p.m.topic)));
    }
  }

  /** In every run the messages of QoS 0 and 1 that were passed on are, in their order and each once, those that were
      read while connected, of QoS 1 those whose PUBACK went out. */
  lemma {:induction false} LowInOrder(us: seq<Sys>, moves: seq<Move>)
    requires Path(us, moves)
    ensures LowOnly(us[|moves|].clientDelivered) == Heard(us, moves)
    decreases |moves|
  {
    hide Enabled, Step, LowOnly, HeardNow;
    if moves == [] {
      NoneLow(us[0]);
    } else {
      var n := |moves| - 1;
      var vs := us[..n + 1];
      forall k | 0 <= k < n ensures Enabled(vs[k], moves[..n][k]) && vs[k + 1] == Step(vs[k], moves[..n][k]) {
        assert moves[..n][k] == moves[k];
      }
      LowInOrder(vs, moves[..n]);
      LowStep(us[n], moves[n]);
    }
  }

  lemma NoneLow(s: Sys)
    requires Start(s)
    ensures LowOnly(s.clientDelivered) == []
  {}

  // ---- whom they go to ----

  /** A subscription takes a message whose name is its filter, or matches it level by level. */
  predicate Takes(filter: seq<byte>, name: seq<byte>) {
    filter == name || T.LevelsMatch(T.Levels(filter), T.Levels(name))
  }

  ghost predicate AllWellFormed(msgs: seq<Handler>) { forall i :: 0 <= i < |msgs| ==> T.WellFormed(msgs[i].filter) }

  /** A message handed on goes to the first subscription that takes it, and to none exactly when none does. */
  lemma GoesToFirst(s: Sys, ok: bool, note: Note, d: Delivery)
    requires s.c.state == Connected && s.toClient != [] && AllWellFormed(s.c.msgs)
    requires note.Unsuback? ==> Found(s.c.acks, UNSUBACK, note.id).Some?
    requires d in OnPacket(s.c, Decode(s.toClient[0]), ok, note).delivered
    ensures match d.to
            case None => forall i :: 0 <= i < |s.c.msgs| ==> !Takes(s.c.msgs[i].filter, d.m.topic)
            case Some(h) => exists i :: 0 <= i < |s.c.msgs| && FirstTaker(s.c.msgs, i, d.m.topic) && s.c.msgs[i] == h
  {
    hide Decode, AckBytes, RecordAck, AfterPubrec, Unrecord, Lookup, Found, Install, WithoutFilter, Takes;
    LookupFirst(s.c.msgs, d.m.topic);
  }

  ghost predicate FirstTaker(msgs: seq<Handler>, i: nat, name: seq<byte>)
    requires i < |msgs|
  {
    Takes(msgs[i].filter, name) && forall j :: 0 <= j < i ==> !Takes(msgs[j].filter, name)
  }

  lemma {:induction false} LookupFirst(msgs: seq<Handler>, name: seq<byte>)
    requires AllWellFormed(msgs)
    ensures match Lookup(msgs, name, name)
            case None => forall i :: 0 <= i < |msgs| ==> !Takes(msgs[i].filter, name)
            case Some(h) => exists i :: 0 <= i < |msgs| && FirstTaker(msgs, i, name) && msgs[i] == h
  {
    hide T.Walk, T.LevelsMatch, T.Levels, T.WellFormed, Takes;
    if msgs != [] {
      TakesIs(msgs[0].filter, name);
      if Takes(msgs[0].filter, name) {
        assert FirstTaker(msgs, 0, name);
      } else {
        var rest := msgs[1..];
        LookupFirst(rest, name);
        match Lookup(rest, name, name)
        case None =>
          forall i | 0 <= i < |msgs| ensures !Takes(msgs[i].filter, name) {
            assert i > 0 ==> msgs[i] == rest[i - 1];
          }
        case Some(h) =>
          var i :| 0 <= i < |rest| && FirstTaker(rest, i, name) && rest[i] == h;
          forall j | 0 <= j < i + 1 ensures !Takes(msgs[j].filter, name) {
            assert j > 0 ==> msgs[j] == rest[j - 1];
          }
          assert FirstTaker(msgs, i + 1, name);
      }
    }
  }

  lemma TakesIs(filter: seq<byte>, name: seq<byte>)
    requires T.WellFormed(filter)
    ensures (filter == name || T.Walk(filter, name)) == Takes(filter, name)
  {
    hide T.Walk, T.LevelsMatch, T.Levels, T.WellFormed;
    T.WalkIsLevels(filter, name);
  }

  // ---- outgoing ----

  /** A record that waits for a PUBACK holds an accepted message, with DUP set. */
  ghost predicate HoldsOne(log: seq<Publish>, r: Record) {
    exists j :: 0 <= j < |log| && OneOf(log[j], r)
  }

  ghost predicate OneOf(m: Publish, r: Record) {
    m.qos == 1 && m.id == r.id && GoodPublish(m) && r.payload == PublishBytes(m.(dup := 1))
  }

  lemma HoldsMore(log: seq<Publish>, more: seq<Publish>, r: Record)
    requires HoldsOne(log, r)
    ensures HoldsOne(log + more, r)
  {
    hide OneOf;
    var j :| 0 <= j < |log| && OneOf(log[j], r);
    assert (log + more)[j] == log[j];
  }

  lemma AcceptedGrows(s: Sys, mv: Move)
    requires Enabled(s, mv)
    ensures s.clientAccepted <= Step(s, mv).clientAccepted
  {
    hide UserPublish, UserSubscribe, UserUnsubscribe, OnPacket, Scan, ServerReceives, Decode, NoteOf, GoodRequest,
      Found;
    if mv.ServerReads? {
      ServerLeavesClient(s.(toServer := s.toServer[1..]), Decode(s.toServer[0]), mv.put);
    }
  }

  lemma {:induction false} PubackBacked(us: seq<Sys>, moves: seq<Move>, k: nat, r: Record)
    requires Path(us, moves) && k <= |moves| && r in us[k].c.acks && r.kind == PUBACK
    ensures HoldsOne(us[k].clientAccepted, r)
    decreases k
  {
    hide Enabled, Step, HoldsOne, MadeBy;
    if k > 0 {
      var s, mv, t := us[k - 1], moves[k - 1], us[k];
      PathInv(us, moves, k - 1);
      AcceptedGrows(s, mv);
      var more := t.clientAccepted[|s.clientAccepted|..];
      assert t.clientAccepted == s.clientAccepted + more;
      if r in s.c.acks {
        PubackBacked(us, moves, k - 1, r);
        HoldsMore(s.clientAccepted, more, r);
      } else {
        RecordEnters(s, mv, r);
        NewlyHeld(s, mv, r);
      }
    }
  }

  lemma NewlyHeld(s: Sys, mv: Move, r: Record)
    requires Inv(s) && Enabled(s, mv) && MadeBy(s, mv, r) && r.kind == PUBACK
    requires r !in s.c.acks && r in Step(s, mv).c.acks
    ensures HoldsOne(Step(s, mv).clientAccepted, r)
  {
    hide Inv, TableOk, UserPublish, PublishBytes, Decode, Lookup, NextId, Pubrec, Pubrel, OneOf, GoodPublish,
      GoodRequest;
    InvParts(s);
    match mv
    case AppPublish(m, ok) =>
      PublishOutcome(s.c, m, ok);
      GoodRequestParts(s.c, m);
      var n, log := Numbered(s.c, m), Step(s, mv).clientAccepted;
      assert log == s.clientAccepted + [n] && log[|s.clientAccepted|] == n;
      OneIs(n, r);
    case _ =>
  }

  lemma OneIs(n: Publish, r: Record)
    requires n.qos == 1 && GoodPublish(n) && r == Record(PUBACK, n.id, PublishBytes(n.(dup := 1)), None)
    ensures OneOf(n, r)
  {
    hide PublishBytes, GoodPublish;
  }

  /** Accepting a message of QoS 1 puts it on the connection and on record, with DUP set. */
  lemma AcceptedOne(s: Sys, m: Publish, ok: bool)
    requires Inv(s) && Enabled(s, AppPublish(m, ok)) && m.qos == 1
    ensures var t := Step(s, AppPublish(m, ok)); var n := Numbered(s.c, m);
            if t.clientAccepted == s.clientAccepted then t.toServer == s.toServer && t.c.acks == s.c.acks
            else
              && t.clientAccepted == s.clientAccepted + [n] && t.toServer == s.toServer + [PublishBytes(n)]
              && Record(PUBACK, n.id, PublishBytes(n.(dup := 1)), None) in t.c.acks
  {
    hide Inv, TableOk, UserPublish, PublishBytes, GoodRequest, NextId;
    InvParts(s);
    PublishOutcome(s.c, m, ok);
    assert s.clientAccepted + [] == s.clientAccepted && s.toServer + [] == s.toServer;
  }

  /** The client reads the PUBACK of id. */
  predicate ReadsPuback(s: Sys, mv: Move, id: nat) {
    && mv.ClientReads? && s.toClient != [] && s.c.state == Connected
    && Decode(s.toClient[0]).Ackn? && Decode(s.toClient[0]).a.kind == PUBACK && Decode(s.toClient[0]).a.id == id
  }

  /** The record goes in exactly the steps that read that PUBACK. */
  lemma HeldUntilPuback(s: Sys, mv: Move, r: Record)
    requires Inv(s) && Enabled(s, mv) && r in s.c.acks && r.kind == PUBACK
    ensures r !in Step(s, mv).c.acks <==> ReadsPuback(s, mv, r.id)
  {
    hide Inv, Enabled, Step, Decode;
    RecordLeaves(s, mv, r);
    EndedOne(s, mv, r);
  }

  lemma EndedOne(s: Sys, mv: Move, r: Record)
    requires Enabled(s, mv) && r.kind == PUBACK
    ensures EndedBy(s, mv, r) <==> ReadsPuback(s, mv, r.id)
  {
    hide Decode, NoteOf, GoodRequest, Found;
  }

  /** So over any stretch of a run in which the PUBACK is not read the message stays on record, and each scan that finds
      it due and can send puts it on the connection again, with DUP set. */
  lemma {:induction false} ResentUntilPuback(us: seq<Sys>, moves: seq<Move>, i: nat, k: nat, r: Record)
    requires Path(us, moves) && i <= k <= |moves| && r in us[i].c.acks && r.kind == PUBACK
    requires forall j :: i <= j < k ==> !ReadsPuback(us[j], moves[j], r.id)
    ensures r in us[k].c.acks && HoldsOne(us[k].clientAccepted, r)
    ensures k < |moves| && moves[k].ClientScans? && us[k].c.state == Connected ==>
      var mv, acks := moves[k], us[k].c.acks;
      && |mv.expired| == |acks| == |mv.oks| && |us[k].toServer| <= |us[k + 1].toServer|
      && forall p :: 0 <= p < |acks| && acks[p] == r && (mv.expired[p] || mv.flag != 1) && mv.oks[p] ==>
           r.payload in us[k + 1].toServer[|us[k].toServer|..]
    decreases k
  {
    hide Enabled, Step, HoldsOne, ReadsPuback;
    if k > i {
      ResentUntilPuback(us, moves, i, k - 1, r);
      PathInv(us, moves, k - 1);
      HeldUntilPuback(us[k - 1], moves[k - 1], r);
    }
    PubackBacked(us, moves, k, r);
    if k < |moves| && moves[k].ClientScans? {
      ScannedOut(us[k], moves[k], r);
    }
  }

  lemma ScannedOut(s: Sys, mv: Move, r: Record)
    requires Enabled(s, mv) && mv.ClientScans? && r.kind == PUBACK
    ensures var t, acks := Step(s, mv), s.c.acks;
            && |mv.expired| == |acks| == |mv.oks| && |s.toServer| <= |t.toServer|
            && (s.c.state == Connected ==>
                  forall p :: 0 <= p < |acks| && acks[p] == r && (mv.expired[p] || mv.flag != 1) && mv.oks[p] ==>
                    r.payload in t.toServer[|s.toServer|..])
  {
    hide Step;
    ScanPutsOut(s, mv.flag, mv.expired, mv.oks, r.payload);
    forall p | 0 <= p < |s.c.acks| && s.c.acks[p] == r && (mv.expired[p] || mv.flag != 1) && mv.oks[p]
      ensures GoesOut(s.c, mv.flag, mv.expired, mv.oks, p)
    {}
  }

  // ---- no PUBACK without its message ----

  /** b acknowledges a message of QoS 1. */
  predicate IsPuback(b: seq<byte>, id: nat) { Decode(b).Ackn? && Decode(b).a.kind == PUBACK && Decode(b).a.id == id }

  /** A message of QoS 1 with that identifier was passed on. */
  ghost predicate PassedOn(log: seq<Publish>, id: nat) {
    exists j :: 0 <= j < |log| && log[j].qos == 1 && log[j].id == id
  }

  /** A step puts out a PUBACK only when it reads a message of QoS 1, and then passes that on. */
  lemma PubackSent(us: seq<Sys>, moves: seq<Move>, k: nat, b: seq<byte>, id: nat)
    requires Path(us, moves) && k < |moves| && b in PutOut(us[k], moves[k]) && IsPuback(b, id)
    ensures PassedOn(us[k + 1].clientDelivered, id)
  {
    hide Inv, UserPublish, UserSubscribe, UserUnsubscribe, OnPacket, Scan, Decode, Exists, GoodRequest, Found, NoteOf,
      PublishBytes, LowOnly, Answer, ServerReceives;
    PathInv(us, moves, k);
    var s, mv := us[k], moves[k];
    InvParts(s);
    match mv
    case AppPublish(m, ok) =>
      PublishOutcome(s.c, m, ok);
      GoodRequestParts(s.c, m);
      DecodePublish(Numbered(s.c, m));
      assert false;
    case AppSubscribe(h, ok) =>
      SubscribeSends(s.c, h, ok, b);
      assert false;
    case AppUnsubscribe(filter, ok) =>
      UnsubscribeSends(s.c, filter, ok, b);
      assert false;
    case ClientReads(ok, note) =>
      DecodedRanges(s.toClient[0]);
      PubackAnswers(s.c, Decode(s.toClient[0]), ok, note, b, id);
      var log := us[k + 1].clientDelivered;
      assert log[|s.clientDelivered|] == Decode(s.toClient[0]).m;
    case ClientScans(flag, expired, oks) =>
      PubackNotResent(us, moves, k, b, id);
      assert false;
    case _ => assert false;
  }

  lemma SubscribeSends(c: Client, h: Handler, ok: bool, b: seq<byte>)
    requires b in UserSubscribe(c, h, ok).sent
    ensures Decode(b) == Other
  {
    hide UserSubscribe, L.SubscribeBytes, NextId, ParseAck, ParsePublish, HeaderKind;
    var id, fs := NextId(c.packetId), [L.Filter(h.filter, h.qos)];
    SubscribeEffect(c, h, ok, id, L.SubscribeBytes(0, id, fs));
    L.SubscribeHead(0, id, fs);
  }

  lemma UnsubscribeSends(c: Client, filter: seq<byte>, ok: bool, b: seq<byte>)
    requires b in UserUnsubscribe(c, filter, ok).sent
    ensures Decode(b) == Other
  {
    hide UserUnsubscribe, L.UnsubscribeBytes, NextId, ParseAck, ParsePublish, HeaderKind, Lookup;
    var id := NextId(c.packetId);
    UnsubscribeEffect(c, filter, ok, id, L.UnsubscribeBytes(0, id, [filter]));
    L.UnsubscribeHead(0, id, [filter]);
  }

  lemma PubackAnswers(c: Client, p: Packet, ok: bool, note: Note, b: seq<byte>, id: nat)
    requires note.Unsuback? && c.state == Connected ==> Found(c.acks, UNSUBACK, note.id).Some?
    requires (p.Pub? ==> p.m.id < 65536) && (p.Ackn? ==> p.a.id < 65536)
    requires b in OnPacket(c, p, ok, note).sent && IsPuback(b, id)
    ensures p.Pub? && p.m.qos == 1 && p.m.id == id && Messages(OnPacket(c, p, ok, note).delivered) == [p.m]
  {
    hide Decode, AckBytes, Unrecord, RecordAck, Found, Lookup, Install, WithoutFilter, Messages, AfterPubrec, Exists;
    match p
    case Pub(m) =>
      DecodeAck(Codec.Ack(PUBACK, 0, m.id));
      DecodeAck(Codec.Ack(PUBREC, 0, m.id));
      MessagesOne(Delivery(m, Lookup(c.msgs, m.topic, m.topic)));
    case Ackn(a) =>
      DecodeAck(Codec.Ack(PUBREL, 0, a.id));
      DecodeAck(Codec.Ack(PUBCOMP, 0, a.id));
    case Other =>
  }

  lemma PubackNotResent(us: seq<Sys>, moves: seq<Move>, k: nat, b: seq<byte>, id: nat)
    requires Path(us, moves) && k < |moves| && moves[k].ClientScans? && b in PutOut(us[k], moves[k])
    ensures !IsPuback(b, id)
  {
    hide Inv, Enabled, Step, Decode, Kept, Resent, Surviving, PublishBytes, LastTold, AckBytes, HoldsOne, GoodPublish;
    PathInv(us, moves, k);
    var s, mv := us[k], moves[k];
    ScanInPutOut(s, mv, b);
    ResentOrigin(s.c.acks, Due(mv.flag, mv.expired), mv.oks, b);
    var i :| 0 <= i < |s.c.acks| && IsQos(s.c.acks[i]) && b == s.c.acks[i].payload;
    var r := s.c.acks[i];
    if r.kind == PUBACK {
      PubackBacked(us, moves, k, r);
      HeldIsPublish(s.clientAccepted, r);
    } else {
      OtherResends(s, r);
    }
  }

  lemma ScanInPutOut(s: Sys, mv: Move, b: seq<byte>)
    requires Enabled(s, mv) && mv.ClientScans? && b in PutOut(s, mv)
    ensures |mv.expired| == |s.c.acks| == |mv.oks| && b in Resent(s.c.acks, Due(mv.flag, mv.expired), mv.oks)
  {
    hide Kept, Resent, Surviving, Due;
  }

  lemma HeldIsPublish(log: seq<Publish>, r: Record)
    requires HoldsOne(log, r)
    ensures Decode(r.payload).Pub?
  {
    hide Decode, PublishBytes, GoodPublish;
    var j :| 0 <= j < |log| && OneOf(log[j], r);
    GoodDup(log[j]);
    DecodePublish(log[j].(dup := 1));
  }

  lemma OtherResends(s: Sys, r: Record)
    requires Inv(s) && r in s.c.acks && r.kind in {PUBREC, PUBREL, PUBCOMP}
    ensures forall id :: !IsPuback(r.payload, id)
  {
    hide Inv, Decode, PublishBytes, AckBytes, GoodPublish, TableOk, LastTold;
    InvParts(s);
    var i :| 0 <= i < |s.c.acks| && s.c.acks[i] == r;
    MemberFacts(s, i);
    assert Backed(r, s.clientAccepted);
    if r.kind == PUBREC {
      var m := LastTold(s.clientAccepted, r.id).value;
      GoodDup(m);
      DecodePublish(m.(dup := 1));
    } else {
      DecodeAck(Codec.Ack(PUBREL, 0, r.id));
      DecodeAck(Codec.Ack(PUBREC, 0, r.id));
    }
  }

  /** So every PUBACK on the connection belongs to a message that was passed on. */
  lemma {:induction false} PubackTold(us: seq<Sys>, moves: seq<Move>, k: nat, b: seq<byte>, id: nat)
    requires Path(us, moves) && k <= |moves| && b in us[k].toServer && IsPuback(b, id)
    ensures PassedOn(us[k].clientDelivered, id)
    decreases k
  {
    hide Enabled, Step, PassedOn, IsPuback, PutOut;
    NothingSent(us[0]);
    if k > 0 {
      var s, mv, t := us[k - 1], moves[k - 1], us[k];
      ServerChannel(s, mv, b);
      if b in s.toServer {
        PubackTold(us, moves, k - 1, b, id);
        DeliveredGrows(s, mv, id);
      } else {
        PubackSent(us, moves, k - 1, b, id);
      }
    }
  }

  lemma NothingSent(s: Sys)
    requires Start(s)
    ensures s.toServer == []
  {}

  /** What is on the way to the server was, or the client has put it there. */
  lemma ServerChannel(s: Sys, mv: Move, b: seq<byte>)
    requires Enabled(s, mv) && b in Step(s, mv).toServer
    ensures b in s.toServer || b in PutOut(s, mv)
  {
    hide UserPublish, UserSubscribe, UserUnsubscribe, OnPacket, Scan, ServerReceives, Decode, NoteOf, GoodRequest,
      Found;
    if mv.ServerReads? {
      ServerLeavesClient(s.(toServer := s.toServer[1..]), Decode(s.toServer[0]), mv.put);
    }
  }

  lemma DeliveredGrows(s: Sys, mv: Move, id: nat)
    requires Enabled(s, mv) && PassedOn(s.clientDelivered, id)
    ensures PassedOn(Step(s, mv).clientDelivered, id)
  {
    hide UserPublish, UserSubscribe, UserUnsubscribe, OnPacket, Scan, ServerReceives, Decode, NoteOf, GoodRequest,
      Found;
    if mv.ServerReads? {
      ServerDelivers(s.(toServer := s.toServer[1..]), Decode(s.toServer[0]), mv.put);
    }
    var t := Step(s, mv);
    var j :| 0 <= j < |s.clientDelivered| && s.clientDelivered[j].qos == 1 && s.clientDelivered[j].id == id;
    assert t.clientDelivered[j] == s.clientDelivered[j];
  }
}
