/** Every step of the QoS system keeps its invariant, and what follows for whole runs. */
module QosSafety {
  import opened Bytes
  import opened Codec
  import opened Options
  import opened ClientSpec
  import opened ClientTable
  import opened QosSystem
  import E = ExactlyOnce
  import L = CodecLists

  // ---- records ----

  lemma ExistsAdded(acks: seq<Record>, r: Record, kind: nat, id: nat)
    ensures Exists(acks + [r], kind, id) == (Exists(acks, kind, id) || Is(r, kind, id))
  {
    hide Is;
    var t := acks + [r];
    if i :| 0 <= i < |acks| && Is(acks[i], kind, id) { assert t[i] == acks[i]; }
    if Is(r, kind, id) { assert t[|acks|] == r; }
    if i :| 0 <= i < |t| && Is(t[i], kind, id) { assert i < |acks| ==> t[i] == acks[i]; }
  }

  lemma ExistsMember(acks: seq<Record>, kind: nat, id: nat)
    ensures Exists(acks, kind, id) <==> exists r :: r in acks && Is(r, kind, id)
  {}

  lemma ExistsRemoved(c: Client, k0: nat, i0: nat, kind: nat, id: nat)
    requires TableOk(c)
    ensures Exists(Unrecord(c, k0, i0).acks, kind, id) == (Exists(c.acks, kind, id) && !(kind == k0 && id == i0))
  {
    hide TableOk, Unrecord, Exists;
    UnrecordKeeps(c, k0, i0);
    ExistsMember(c.acks, kind, id);
    ExistsMember(Unrecord(c, k0, i0).acks, kind, id);
  }

  lemma BackedRemoved(c: Client, kind: nat, id: nat, log: seq<Publish>)
    requires TableOk(c) && AllBacked(c.acks, log)
    ensures AllBacked(Unrecord(c, kind, id).acks, log)
  {
    hide TableOk, Unrecord, Backed;
    UnrecordKeeps(c, kind, id);
    var t := Unrecord(c, kind, id).acks;
    forall i | 0 <= i < |t| ensures Backed(t[i], log) { assert t[i] in c.acks; }
  }

  /** The two tables agree on the records of the QoS 2 exchanges. */
  ghost predicate QosSame(a: seq<Record>, b: seq<Record>) {
    forall kind, id: nat :: kind in {PUBREC, PUBREL, PUBCOMP} ==> Exists(a, kind, id) == Exists(b, kind, id)
  }

  /** The two logs tell the same about every identifier. */
  ghost predicate SameTale(a: seq<Publish>, b: seq<Publish>) {
    forall id :: Told(a, id) == Told(b, id) && LastTold(a, id) == LastTold(b, id)
  }

  ghost predicate NewParts(s: Sys) {
    TableOk(s.c) && AllBacked(s.c.acks, s.clientAccepted)
  }

  // ---- packets of no concern ----

  lemma UnrelatedSays(b: seq<byte>, id: nat)
    requires Unrelated(b)
    ensures DownOne(Decode(b), id) == [] && UpOne(Decode(b), id) == []
  {
    hide Decode;
  }

  /** ch with nothing or an unrelated packet added. */
  ghost predicate Padded(ch: seq<seq<byte>>, t: seq<seq<byte>>) {
    t == ch || (|t| == |ch| + 1 && t[..|ch|] == ch && Unrelated(t[|ch|]))
  }

  lemma PaddedSays(ch: seq<seq<byte>>, t: seq<seq<byte>>, id: nat)
    requires Padded(ch, t)
    ensures Downs(t, id) == Downs(ch, id) && Ups(t, id) == Ups(ch, id)
  {
    hide Downs, Ups, Unrelated;
    if t != ch {
      var b := t[|ch|];
      assert t == ch + [b];
      DownsAppend(ch, b, id);
      UpsAppend(ch, b, id);
      UnrelatedSays(b, id);
    }
  }

  /** Steps that leave every QoS 2 exchange alone. */
  lemma Bystander(s: Sys, t: Sys)
    requires Inv(s) && NewParts(t) && QosSame(s.c.acks, t.c.acks) && SameTale(s.clientAccepted, t.clientAccepted)
    requires SameTale(s.clientDelivered, t.clientDelivered)
    requires Padded(s.toServer, t.toServer) && Padded(s.toClient, t.toClient)
    requires t.server == s.server && t.serverHeld == s.serverHeld
    requires t.serverAccepted == s.serverAccepted && t.serverDelivered == s.serverDelivered
    ensures Inv(t)
  {
    hide TableOk, AllBacked, Padded, E.Inv, Exists, Told, LastTold, Downs, Ups;
    forall id: nat ensures E.Inv(OutLink(t, id)) && E.Inv(InLink(t, id)) {
      PaddedSays(s.toServer, t.toServer, id);
      PaddedSays(s.toClient, t.toClient, id);
      assert OutLink(t, id) == OutLink(s, id) && InLink(t, id) == InLink(s, id);
    }
  }

  // ---- publishing ----

  lemma HeaderAgain(dup: nat, qos: nat, retain: nat)
    ensures var h := Header(PUBLISH, dup, qos, retain);
            Header(PUBLISH, 1, HeaderQos(h), HeaderRetain(h)) == Header(PUBLISH, 1, qos, retain)
              && HeaderKind(h) == PUBLISH
  {
    hide HeaderKind, HeaderDup, HeaderQos, HeaderRetain;
    var h := Header(PUBLISH, dup, qos, retain);
    assert HeaderQos(h) == qos % 4 && HeaderRetain(h) == retain % 2;
  }

  lemma DupBody(m: Publish)
    ensures PublishBody(m.(dup := 1)) == PublishBody(m) && PublishLength(m.(dup := 1)) == PublishLength(m)
  {}

  /** Setting the DUP bit in the serialized packet gives the packet with DUP set. */
  lemma SetDupIs(m: Publish)
    ensures SetDup(PublishBytes(m)) == PublishBytes(m.(dup := 1))
  {
    hide LenBytes, PublishBody, Header, HeaderKind, HeaderQos, HeaderRetain;
    var h := Header(PUBLISH, m.dup, m.qos, m.retained);
    HeaderAgain(m.dup, m.qos, m.retained);
    DupBody(m);
    assert PublishBytes(m) == [h] + (LenBytes(PublishLength(m)) + PublishBody(m));
    assert PublishBytes(m.(dup := 1)) == [Header(PUBLISH, 1, m.qos, m.retained)]
      + (LenBytes(PublishLength(m)) + PublishBody(m));
  }

  lemma GoodDup(m: Publish)
    requires GoodPublish(m)
    ensures GoodPublish(m.(dup := 1)) && |PublishBytes(m.(dup := 1))| == |PublishBytes(m)|
  {}

  /** What is kept for resending is the packet with DUP set, exactly when its length fits 16 bits. */
  lemma ResendIsOriginal(c: Client, m: Publish)
    requires c.state == Connected && (m.qos == 1 || m.qos == 2)
    requires var (o, _) := UserPublish(c, m, true); o.rc == Success
    ensures var (o, m1) := UserPublish(c, m, true);
            && o.sent == [PublishBytes(m1)] && m1 == Numbered(c, m)
            && |o.c.acks| == |c.acks| + 1 && Is(o.c.acks[|c.acks|], if m.qos == 1 then PUBACK else PUBREC, m1.id)
            && (o.c.acks[|c.acks|].payload == PublishBytes(m1.(dup := 1)) <==> |PublishBytes(m1)| <= 65535)
  {
    hide PublishBytes, SetDup, PublishLength, Exists;
    var m1 := Numbered(c, m);
    SetDupIs(m1);
    DupLength(m1);
  }

  /** Longer packets are accepted, when the write buffer holds them: here one with 70000 bytes of payload. */
  lemma LongNotKept(c: Client, m: Publish)
    requires c == Client(Connected, 1, 0, 100000, [], [])
    requires m == Publish(0, 2, 0, 0, [97], m.payload) && |m.payload| == 70000
    ensures var (o, m1) := UserPublish(c, m, true);
            && o.rc == Success && o.sent == [PublishBytes(m1)]
            && |o.c.acks| == 1 && Is(o.c.acks[0], PUBREC, m1.id)
            && o.c.acks[0].payload != PublishBytes(m1.(dup := 1))
  {
    hide PublishBytes, SetDup, LenBytes, Header;
    assert !Exists([], PUBREC, NextId(1));
    BytesLonger(Numbered(c, m));
    ResendIsOriginal(c, m);
  }

  lemma BytesLonger(m: Publish)
    ensures |PublishBytes(m)| > PublishLength(m)
  {
    hide LenBytes, Header;
  }

  lemma DupLength(m: Publish)
    ensures |PublishBytes(m.(dup := 1))| == |PublishBytes(m)|
  {}

  /** The outcome of a publish the application may make. */
  lemma PublishOutcome(c: Client, m: Publish, ok: bool)
    requires TableOk(c) && GoodRequest(c, m)
    ensures var (o, m1) := UserPublish(c, m, ok); var n := Numbered(c, m); var b := PublishBytes(n);
            if o.rc != Success then o.sent == [] && o.c.acks == c.acks
            else
              && m1 == n && o.sent == [b]
              && o.c.acks == (if m.qos == 0 then c.acks
                              else
                                var kind := if m.qos == 1 then PUBACK else PUBREC;
                                c.acks + [Record(kind, n.id, PublishBytes(n.(dup := 1)), None)])
  {
    hide TableOk, PublishBytes, SetDup, PublishLength, Exists, GoodPublish;
    var n := Numbered(c, m);
    SetDupIs(n);
    DupLength(n);
    var d := PublishBytes(n.(dup := 1));
    assert d[..|d|] == d;
  }

  lemma UnrelatedPublish(m: Publish)
    requires GoodPublish(m) && m.qos != 2
    ensures Unrelated(PublishBytes(m))
  {
    hide Decode, PublishBytes;
    DecodePublish(m);
  }

  lemma SameTaleAppend(log: seq<Publish>, m: Publish)
    requires m.qos != 2
    ensures SameTale(log, log + [m])
  {
    forall id ensures Told(log, id) == Told(log + [m], id) && LastTold(log, id) == LastTold(log + [m], id) {
      ToldAppend(log, m, id);
    }
  }

  lemma BackedSameTale(acks: seq<Record>, log: seq<Publish>, log': seq<Publish>)
    requires AllBacked(acks, log) && SameTale(log, log')
    ensures AllBacked(acks, log')
  {
    hide Told, LastTold, PublishBytes, AckBytes, Unrelated, GoodPublish;
    forall i | 0 <= i < |acks| ensures Backed(acks[i], log') { assert Backed(acks[i], log); }
  }

  lemma QosSameAdded(acks: seq<Record>, r: Record)
    requires r.kind !in {PUBREC, PUBREL, PUBCOMP}
    ensures QosSame(acks, acks + [r])
  {
    hide Exists;
    forall kind, id: nat | kind in {PUBREC, PUBREL, PUBCOMP}
      ensures Exists(acks, kind, id) == Exists(acks + [r], kind, id)
    {
      ExistsAdded(acks, r, kind, id);
    }
  }

  lemma KeepsPublish(s: Sys, m: Publish, ok: bool)
    requires Inv(s) && GoodRequest(s.c, m)
    ensures Inv(Step(s, AppPublish(m, ok)))
  {
    hide TableOk, UserPublish, GoodRequest, E.Inv, AllBacked, Exists, Told, LastTold, SameTale, QosSame,
      PublishBytes, Unrelated;
    var t, n := Step(s, AppPublish(m, ok)), Numbered(s.c, m);
    PublishKeeps(s.c, m, ok);
    PublishOutcome(s.c, m, ok);
    SameSelf(s);
    var (o, _) := UserPublish(s.c, m, ok);
    GoodRequestParts(s.c, m);
    if o.rc != Success {
      assert s.clientAccepted + [] == s.clientAccepted && s.toServer + [] == s.toServer;
      Bystander(s, t);
    } else if m.qos == 2 {
      KeepsPublish2(s, t, n);
    } else {
      SameTaleAppend(s.clientAccepted, n);
      BackedSameTale(s.c.acks, s.clientAccepted, t.clientAccepted);
      UnrelatedPublish(n);
      if m.qos == 1 {
        GoodDup(n);
        UnrelatedPublish(n.(dup := 1));
        QosSameAdded(s.c.acks, Record(PUBACK, n.id, PublishBytes(n.(dup := 1)), None));
        BackedAdded(s.c.acks, Record(PUBACK, n.id, PublishBytes(n.(dup := 1)), None), t.clientAccepted);
      }
      assert Padded(s.toServer, t.toServer);
      Bystander(s, t);
    }
  }

  lemma GoodRequestParts(c: Client, m: Publish)
    requires GoodRequest(c, m)
    ensures GoodPublish(Numbered(c, m)) && m.qos <= 2
    ensures m.qos != 0 ==> !Exists(c.acks, PUBREC, Numbered(c, m).id) && !Exists(c.acks, PUBCOMP, Numbered(c, m).id)
  {}

  lemma SameSelf(s: Sys)
    ensures QosSame(s.c.acks, s.c.acks) && SameTale(s.clientAccepted, s.clientAccepted)
    ensures SameTale(s.clientDelivered, s.clientDelivered) && Padded(s.toServer, s.toServer)
      && Padded(s.toClient, s.toClient)
  {}

  lemma BackedAdded(acks: seq<Record>, r: Record, log: seq<Publish>)
    requires AllBacked(acks, log) && Backed(r, log)
    ensures AllBacked(acks + [r], log)
  {
    hide Backed;
    forall i | 0 <= i < |acks| + 1 ensures Backed((acks + [r])[i], log) {
      if i < |acks| { assert Backed(acks[i], log); }
    }
  }

  /** No record of the client's table speaks of a message with this identifier. */
  lemma BackedOtherTale(acks: seq<Record>, log: seq<Publish>, n: Publish)
    requires AllBacked(acks, log) && About(n, n.id) && !Exists(acks, PUBREC, n.id)
    ensures AllBacked(acks, log + [n])
  {
    hide Told, LastTold, PublishBytes, AckBytes, Unrelated, GoodPublish;
    forall i | 0 <= i < |acks| ensures Backed(acks[i], log + [n]) {
      assert Backed(acks[i], log);
      ToldAppend(log, n, acks[i].id);
      assert !Is(acks[i], PUBREC, n.id);
    }
  }

  /** An accepted QoS 2 message starts the exchange of its identifier. */
  lemma KeepsPublish2(s: Sys, t: Sys, n: Publish)
    requires Inv(s) && TableOk(t.c) && GoodPublish(n) && n.qos == 2
    requires !Exists(s.c.acks, PUBREC, n.id) && !Exists(s.c.acks, PUBCOMP, n.id)
    requires t == s.(c := t.c, toServer := s.toServer + [PublishBytes(n)], clientAccepted := s.clientAccepted + [n])
    requires t.c.acks == s.c.acks + [Record(PUBREC, n.id, PublishBytes(n.(dup := 1)), None)]
    ensures Inv(t)
  {
    hide TableOk, E.Inv, AllBacked, Exists, Told, LastTold, PublishBytes, Decode, Downs, Ups, GoodPublish;
    var r := Record(PUBREC, n.id, PublishBytes(n.(dup := 1)), None);
    BackedOtherTale(s.c.acks, s.clientAccepted, n);
    ToldAppend(s.clientAccepted, n, n.id);
    BackedAdded(s.c.acks, r, t.clientAccepted);
    DecodePublish(n);
    forall id: nat
      ensures E.Inv(OutLink(t, id)) && E.Inv(InLink(t, id))
      ensures !(Exists(t.c.acks, PUBREC, id) && Exists(t.c.acks, PUBCOMP, id))
    {
      ExistsAdded(s.c.acks, r, PUBREC, id);
      ExistsAdded(s.c.acks, r, PUBREL, id);
      ExistsAdded(s.c.acks, r, PUBCOMP, id);
      ToldAppend(s.clientAccepted, n, id);
      DownsAppend(s.toServer, PublishBytes(n), id);
      UpsAppend(s.toServer, PublishBytes(n), id);
      NothingAdded(s.toServer, id);
      if id == n.id {
        E.Keeps(OutLink(s, id), E.Accept(ContentOf(n), true));
        assert OutLink(t, id) == E.Apply(OutLink(s, id), E.Accept(ContentOf(n), true));
      } else {
        assert OutLink(t, id) == OutLink(s, id);
      }
      assert InLink(t, id) == InLink(s, id);
    }
  }

  lemma NothingAdded(ch: seq<seq<byte>>, id: nat)
    ensures Downs(ch, id) + [] == Downs(ch, id) && Ups(ch, id) + [] == Ups(ch, id)
  {}

  // ---- subscribing ----

  lemma RequestUnrelated(b: seq<byte>)
    requires b != [] && HeaderKind(b[0]) in {SUBSCRIBE, UNSUBSCRIBE}
    ensures Unrelated(b)
  {
    hide ParsePublish, ParseAck, HeaderKind;
  }

  /** A request that adds at most one record of no QoS exchange, and sends at most one packet of none. */
  lemma KeepsRequest(s: Sys, t: Sys, r: Record)
    requires Inv(s) && TableOk(t.c) && t == s.(c := t.c, toServer := t.toServer) && Padded(s.toServer, t.toServer)
    requires t.c.acks == s.c.acks || t.c.acks == s.c.acks + [r]
    requires r.kind == SUBACK || r.kind == UNSUBACK
    ensures Inv(t)
  {
    hide TableOk, E.Inv, AllBacked, Exists, Told, LastTold, SameTale, QosSame, Padded;
    SameSelf(s);
    QosSameAdded(s.c.acks, r);
    BackedAdded(s.c.acks, r, s.clientAccepted);
    Bystander(s, t);
  }

  lemma PaddedOne(ch: seq<seq<byte>>, b: seq<byte>)
    requires Unrelated(b)
    ensures Padded(ch, ch + [b]) && Padded(ch, ch + [])
  {
    hide Unrelated;
  }

  lemma PaddedNone(ch: seq<seq<byte>>)
    ensures Padded(ch, ch + [])
  {
    assert ch + [] == ch;
  }

  lemma RecordAckAcks(c: Client, kind: nat, id: nat, b: seq<byte>, h: Option<Handler>)
    ensures var t := RecordAck(c, kind, id, b, h).0.acks;
            t == c.acks || t == c.acks + [Record(kind, id, b[..|b| % 65536], h)]
  {
    hide Exists;
  }

  lemma SubscribeOutcome(c: Client, h: Handler, ok: bool) returns (r: Record, b: seq<byte>)
    ensures var o := UserSubscribe(c, h, ok);
            && (o.c.acks == c.acks || o.c.acks == c.acks + [r]) && (o.sent == [] || o.sent == [b])
            && r.kind == SUBACK && Unrelated(b)
  {
    hide RecordAck, NextId, L.SubscribeBytes, L.FiltersBytes, Fits, Unrelated, Decode, LenBytes, L.FilterBytes,
      PacketLen, L.UnsubscribeBytes, L.TopicsBytes;
    var id, fs := NextId(c.packetId), [L.Filter(h.filter, h.qos)];
    b := L.SubscribeBytes(0, id, fs);
    r := Record(SUBACK, id, b[..|b| % 65536], Some(h));
    L.SubscribeHead(0, id, fs);
    RequestUnrelated(b);
    RecordAckAcks(c.(packetId := id), SUBACK, id, b, Some(h));
  }

  lemma KeepsSubscribe(s: Sys, h: Handler, ok: bool)
    requires Inv(s)
    ensures Inv(Step(s, AppSubscribe(h, ok)))
  {
    hide TableOk, Inv, UserSubscribe, Padded;
    InvParts(s);
    SubscribeKeeps(s.c, h, ok);
    var r, b := SubscribeOutcome(s.c, h, ok);
    PaddedOne(s.toServer, b);
    PaddedNone(s.toServer);
    KeepsRequest(s, Step(s, AppSubscribe(h, ok)), r);
  }

  lemma UnsubscribeOutcome(c: Client, filter: seq<byte>, ok: bool) returns (r: Record, b: seq<byte>)
    ensures var o := UserUnsubscribe(c, filter, ok);
            && (o.c.acks == c.acks || o.c.acks == c.acks + [r]) && (o.sent == [] || o.sent == [b])
            && r.kind == UNSUBACK && Unrelated(b)
  {
    hide RecordAck, NextId, L.UnsubscribeBytes, L.TopicsBytes, Fits, Unrelated, Lookup, L.SubscribeBytes,
      L.FiltersBytes, LenBytes, Decode;
    var id := NextId(c.packetId);
    b := L.UnsubscribeBytes(0, id, [filter]);
    r := Record(UNSUBACK, id, b[..|b| % 65536], Lookup(c.msgs, filter, []));
    L.UnsubscribeHead(0, id, [filter]);
    RequestUnrelated(b);
    RecordAckAcks(c.(packetId := id), UNSUBACK, id, b, Lookup(c.msgs, filter, []));
  }

  lemma KeepsUnsubscribe(s: Sys, filter: seq<byte>, ok: bool)
    requires Inv(s) && Enabled(s, AppUnsubscribe(filter, ok))
    ensures Inv(Step(s, AppUnsubscribe(filter, ok)))
  {
    hide TableOk, Inv, UserUnsubscribe, Padded, NotLeaving, Lookup;
    InvParts(s);
    UnsubscribeKeeps(s.c, filter, ok);
    var r, b := UnsubscribeOutcome(s.c, filter, ok);
    PaddedOne(s.toServer, b);
    PaddedNone(s.toServer);
    KeepsRequest(s, Step(s, AppUnsubscribe(filter, ok)), r);
  }

  // ---- the client reads ----

  lemma HeadSays(ch: seq<seq<byte>>, id: nat)
    requires ch != []
    ensures Downs(ch, id) == DownOne(Decode(ch[0]), id) + Downs(ch[1..], id)
    ensures Ups(ch, id) == UpOne(Decode(ch[0]), id) + Ups(ch[1..], id)
  {
    hide Decode, DownOne, UpOne;
  }

  lemma DropDowns(l: E.Link<Content>, d: seq<E.Down<Content>>, u: seq<E.Up>)
    requires E.Inv(l)
    requires d == l.down || (l.down != [] && d == l.down[1..])
    requires u == l.up || (l.up != [] && u == l.up[1..])
    ensures E.Inv(l.(down := d, up := u))
  {
    hide E.Inv;
    if d != l.down { E.Keeps(l, E.DropDown); }
    var l1 := l.(down := d);
    if u != l.up { E.Keeps(l1, E.DropUp); }
  }

  /** Leaving the first packet for the client unread. */
  lemma KeepsClientSkips(s: Sys)
    requires Inv(s) && s.toClient != []
    ensures Inv(s.(toClient := s.toClient[1..]))
  {
    hide TableOk, E.Inv, AllBacked, Exists, Told, LastTold, Downs, Ups, OneStage, Decode;
    var t := s.(toClient := s.toClient[1..]);
    forall id: nat ensures E.Inv(OutLink(t, id)) && E.Inv(InLink(t, id)) {
      HeadSays(s.toClient, id);
      DropDowns(OutLink(s, id), OutLink(t, id).down, OutLink(t, id).up);
      DropDowns(InLink(s, id), InLink(t, id).down, InLink(t, id).up);
    }
  }

  lemma KeepsServerSkips(s: Sys)
    requires Inv(s) && s.toServer != []
    ensures Inv(s.(toServer := s.toServer[1..]))
  {
    hide TableOk, E.Inv, AllBacked, Exists, Told, LastTold, Downs, Ups, OneStage, Decode;
    var t := s.(toServer := s.toServer[1..]);
    forall id: nat ensures E.Inv(OutLink(t, id)) && E.Inv(InLink(t, id)) {
      HeadSays(s.toServer, id);
      DropDowns(OutLink(s, id), OutLink(t, id).down, OutLink(t, id).up);
      DropDowns(InLink(s, id), InLink(t, id).down, InLink(t, id).up);
    }
  }

  /** What a decoded packet's fields can be. */
  lemma DecodedRanges(b: seq<byte>)
    ensures Decode(b).Pub? ==> Decode(b).m.id < 65536
    ensures Decode(b).Ackn? ==> Decode(b).a.id < 65536 && Decode(b).a.kind in {PUBACK, PUBREC, PUBREL, PUBCOMP}
  {
    hide DecodeFrom, ReadString, HeaderKind, HeaderQos, HeaderDup, HeaderRetain;
  }

  lemma QosSameRemoved(c: Client, kind: nat, id: nat)
    requires TableOk(c) && kind !in {PUBREC, PUBREL, PUBCOMP}
    ensures QosSame(c.acks, Unrecord(c, kind, id).acks)
  {
    hide TableOk, Exists, Unrecord;
    forall k, i: nat | k in {PUBREC, PUBREL, PUBCOMP} ensures Exists(c.acks, k, i)
      == Exists(Unrecord(c, kind, id).acks, k, i) {
      ExistsRemoved(c, kind, id, k, i);
    }
  }

  /** Packets that end a request of no QoS 2 exchange: the record goes, and the subscriptions may change. */
  lemma KeepsEnded(s: Sys, t: Sys, kind: nat, id: nat)
    requires Inv(s) && TableOk(t.c) && t == s.(c := t.c) && kind !in {PUBREC, PUBREL, PUBCOMP}
    requires t.c.acks == Unrecord(s.c, kind, id).acks
    ensures Inv(t)
  {
    hide TableOk, E.Inv, AllBacked, Exists, Told, LastTold, SameTale, QosSame, Padded, Unrecord;
    SameSelf(s);
    QosSameRemoved(s.c, kind, id);
    BackedRemoved(s.c, kind, id, s.clientAccepted);
    Bystander(s, t);
  }

  lemma KeepsNote(s: Sys, t: Sys, note: Note)
    requires Inv(s) && (note.Unsuback? && s.c.state == Connected ==> Found(s.c.acks, UNSUBACK, note.id).Some?)
    requires t == s.(c := OnPacket(s.c, Other, true, note).c)
    ensures Inv(t) && OnPacket(s.c, Other, true, note).sent == [] && OnPacket(s.c, Other, true, note).delivered == []
  {
    hide TableOk, Inv, Unrecord, Install, WithoutFilter, Found;
    InvParts(s);
    if s.c.state == Connected {
      match note
      case Suback(id, nack) =>
        OnSubackKeeps(s.c, id, nack);
        InstallAcks(Unrecord(s.c, SUBACK, id));
        KeepsEnded(s, t, SUBACK, id);
      case Unsuback(id) =>
        OnUnsubackKeeps(s.c, id);
        KeepsEnded(s, t, UNSUBACK, id);
      case NoNote => assert t == s;
    } else {
      assert t == s;
    }
  }

  lemma InvParts(s: Sys)
    requires Inv(s)
    ensures TableOk(s.c) && AllBacked(s.c.acks, s.clientAccepted) && OneStage(s.c.acks) && ServerOk(s)
    ensures forall id: nat :: E.Inv(OutLink(s, id)) && E.Inv(InLink(s, id))
  {}

  lemma InstallAcks(c: Client)
    ensures forall h :: Install(c, h).acks == c.acks
  {}

  /** The channels after the client took a packet and put b on the way to the server. */
  lemma ClientAnswers(s: Sys, t: Sys, b: seq<byte>, id: nat)
    requires s.toClient != [] && t.toClient == s.toClient[1..]
    requires t.toServer == s.toServer + [b] || t.toServer == s.toServer
    ensures Downs(s.toClient, id) == DownOne(Decode(s.toClient[0]), id) + Downs(t.toClient, id)
    ensures Ups(s.toClient, id) == UpOne(Decode(s.toClient[0]), id) + Ups(t.toClient, id)
    ensures t.toServer == s.toServer + [b] ==>
      Downs(t.toServer, id) == Downs(s.toServer, id) + DownOne(Decode(b), id)
        && Ups(t.toServer, id) == Ups(s.toServer, id) + UpOne(Decode(b), id)
  {
    hide Decode, DownOne, UpOne, Downs, Ups;
    HeadSays(s.toClient, id);
    DownsAppend(s.toServer, b, id);
    UpsAppend(s.toServer, b, id);
  }

  lemma BackedPubrel(acks: seq<Record>, id: nat, log: seq<Publish>, b: seq<byte>)
    requires AllBacked(acks, log) && b == AckBytes(Codec.Ack(PUBREC, 0, id))
    ensures AllBacked(acks + [Record(PUBREL, id, b, None)], log)
  {
    hide AllBacked, AckBytes, PublishBytes, LenBytes, Unrelated, Decode, LastTold;
    BackedAdded(acks, Record(PUBREL, id, b, None), log);
  }

  lemma BackedPubcomp(acks: seq<Record>, id: nat, log: seq<Publish>)
    requires AllBacked(acks, log)
    ensures AllBacked(acks + [Record(PUBCOMP, id, PubRel(id), None)], log)
  {
    hide AllBacked, AckBytes, PublishBytes, LenBytes, Unrelated, Decode, LastTold;
    BackedAdded(acks, Record(PUBCOMP, id, PubRel(id), None), log);
  }

  /** The outcome of recording a four-byte acknowledgement. */
  lemma RecordAckShort(c: Client, kind: nat, id: nat, a: Codec.Ack)
    ensures RecordAck(c, kind, id, AckBytes(a), None).0.acks ==
      if Exists(c.acks, kind, id) then c.acks else c.acks + [Record(kind, id, AckBytes(a), None)]
    ensures RecordAck(c, kind, id, AckBytes(a), None).1 == if Exists(c.acks, kind, id) then NodeExists else Success
  {
    hide Exists, AckBytes;
    assert AckBytes(a)[..4] == AckBytes(a);
  }

  /** An answered QoS 2 PUBLISH: passed on when its identifier was not on record. */
  lemma KeepsIncoming2(s: Sys, t: Sys, m: Publish)
    requires Inv(s) && s.toClient != [] && Decode(s.toClient[0]) == Pub(m) && m.qos == 2 && m.id < 65536
    requires TableOk(t.c)
    requires var b := AckBytes(Codec.Ack(PUBREC, 0, m.id)); var held := Exists(s.c.acks, PUBREL, m.id);
             && t == s.(c := t.c, toClient := s.toClient[1..], toServer := s.toServer + [b],
                        clientDelivered := s.clientDelivered + if held then [] else [m])
             && t.c.acks == if held then s.c.acks else s.c.acks + [Record(PUBREL, m.id, b, None)]
    ensures Inv(t)
  {
    hide TableOk, E.Inv, AllBacked, Exists, Told, LastTold, Downs, Ups, Decode, AckBytes;
    var b, held := AckBytes(Codec.Ack(PUBREC, 0, m.id)), Exists(s.c.acks, PUBREL, m.id);
    BackedPubrel(s.c.acks, m.id, s.clientAccepted, b);
    DecodeAck(Codec.Ack(PUBREC, 0, m.id));
    forall id: nat
      ensures E.Inv(OutLink(t, id)) && E.Inv(InLink(t, id))
      ensures !(Exists(t.c.acks, PUBREC, id) && Exists(t.c.acks, PUBCOMP, id))
    {
      ClientAnswers(s, t, b, id);
      NothingAdded(s.toServer, id);
      NothingAdded(t.toClient, id);
      ToldAppend(s.clientDelivered, m, id);
      assert s.clientDelivered + [] == s.clientDelivered
        && Told(s.clientDelivered, id) + [] == Told(s.clientDelivered, id);
      if !held {
        var r := Record(PUBREL, m.id, b, None);
        ExistsAdded(s.c.acks, r, PUBREC, id);
        ExistsAdded(s.c.acks, r, PUBREL, id);
        ExistsAdded(s.c.acks, r, PUBCOMP, id);
      }
      assert OutLink(t, id) == OutLink(s, id);
      if id == m.id {
        E.Keeps(InLink(s, id), E.Received(true, true));
        assert InLink(t, id) == E.Apply(InLink(s, id), E.Received(true, true));
      } else {
        assert InLink(t, id) == InLink(s, id);
      }
    }
  }

  /** A PUBREL ends the exchange on the client's side, answered or not. */
  lemma KeepsPubrel(s: Sys, t: Sys, a: Codec.Ack, ok: bool)
    requires Inv(s) && s.toClient != [] && Decode(s.toClient[0]) == Ackn(a) && a.kind == PUBREL && a.id < 65536
    requires TableOk(t.c) && t.c.acks == Unrecord(s.c, PUBREL, a.id).acks
    requires t == s.(c := t.c, toClient := s.toClient[1..], toServer := s.toServer
      + Sends(ok, AckBytes(Codec.Ack(PUBCOMP, 0, a.id))))
    ensures Inv(t)
  {
    hide TableOk, E.Inv, AllBacked, Exists, Told, LastTold, Downs, Ups, Decode, AckBytes, Unrecord;
    var b := AckBytes(Codec.Ack(PUBCOMP, 0, a.id));
    DecodeAck(Codec.Ack(PUBCOMP, 0, a.id));
    BackedRemoved(s.c, PUBREL, a.id, s.clientAccepted);
    assert s.toServer + [] == s.toServer;
    forall id: nat
      ensures E.Inv(OutLink(t, id)) && E.Inv(InLink(t, id))
      ensures !(Exists(t.c.acks, PUBREC, id) && Exists(t.c.acks, PUBCOMP, id))
    {
      ClientAnswers(s, t, b, id);
      NothingAdded(s.toServer, id);
      NothingAdded(t.toClient, id);
      ExistsRemoved(s.c, PUBREL, a.id, PUBREC, id);
      ExistsRemoved(s.c, PUBREL, a.id, PUBREL, id);
      ExistsRemoved(s.c, PUBREL, a.id, PUBCOMP, id);
      assert OutLink(t, id) == OutLink(s, id);
      if id == a.id {
        E.Keeps(InLink(s, id), E.Received(true, ok));
        assert InLink(t, id) == E.Apply(InLink(s, id), E.Received(true, ok));
      } else {
        assert InLink(t, id) == InLink(s, id);
      }
    }
  }

  /** The table after a PUBREC: the record that waited for it gives way to one that waits for PUBCOMP. */
  lemma PubrecTable(c: Client, id: nat, log: seq<Publish>)
    requires TableOk(c) && AllBacked(c.acks, log) && id < 65536
    ensures AllBacked(AfterPubrec(c, id).acks, log)
  {
    hide TableOk, AllBacked, Exists, Unrecord, RecordAck, AckBytes;
    RecordKeeps(c, PUBCOMP, id, PubRel(id), None);
    RecordAckShort(c, PUBCOMP, id, Codec.Ack(PUBREL, 0, id));
    BackedPubcomp(c.acks, id, log);
    BackedRemoved(RecordAck(c, PUBCOMP, id, PubRel(id), None).0, PUBREC, id, log);
  }

  lemma PubrecExists(c: Client, id: nat, kind: nat, i: nat)
    requires TableOk(c) && id < 65536
    ensures Exists(AfterPubrec(c, id).acks, kind, i) ==
      ((Exists(c.acks, kind, i) || (kind == PUBCOMP && i == id)) && !(kind == PUBREC && i == id))
  {
    hide TableOk, Exists, Unrecord, RecordAck, AckBytes;
    RecordKeeps(c, PUBCOMP, id, PubRel(id), None);
    RecordAckShort(c, PUBCOMP, id, Codec.Ack(PUBREL, 0, id));
    ExistsRemoved(RecordAck(c, PUBCOMP, id, PubRel(id), None).0, PUBREC, id, kind, i);
    ExistsAdded(c.acks, Record(PUBCOMP, id, PubRel(id), None), kind, i);
  }

  lemma IdleHearsNoRec(l: E.Link<Content>)
    requires E.Inv(l) && l.up != [] && l.up[0] == E.Rec
    ensures !l.snd.Idle?
  {}

  /** A PUBREC moves the message on, or repeats what was heard before. */
  lemma KeepsPubrec(s: Sys, t: Sys, a: Codec.Ack, ok: bool)
    requires s.toClient != [] && t.toClient == s.toClient[1..] && a.kind == PUBREC && a.id < 65536
    requires t == s.(c := t.c, toClient := t.toClient, toServer := t.toServer)
    requires t.toServer == s.toServer + if Exists(s.c.acks, PUBCOMP, a.id) then [] else Sends(ok, PubRel(a.id))
    requires Decode(s.toClient[0]) == Ackn(a) && t.c.acks == AfterPubrec(s.c, a.id).acks && TableOk(t.c) && Inv(s)
    ensures Inv(t)
  {
    hide TableOk, E.Inv, AllBacked, Exists, Told, LastTold, LastContent, Downs, Ups, Decode, AckBytes, AfterPubrec;
    var b, again := PubRel(a.id), Exists(s.c.acks, PUBCOMP, a.id);
    DecodeAck(Codec.Ack(PUBREL, 0, a.id));
    PubrecTable(s.c, a.id, s.clientAccepted);
    assert s.toServer + [] == s.toServer;
    forall id: nat
      ensures E.Inv(OutLink(t, id)) && E.Inv(InLink(t, id))
      ensures !(Exists(t.c.acks, PUBREC, id) && Exists(t.c.acks, PUBCOMP, id))
    {
      PubrecExists(s.c, a.id, PUBREC, id);
      PubrecExists(s.c, a.id, PUBREL, id);
      PubrecExists(s.c, a.id, PUBCOMP, id);
      ClientAnswers(s, t, b, id);
      NothingAdded(s.toServer, id);
      NothingAdded(t.toClient, id);
      assert InLink(t, id) == InLink(s, id);
      if id == a.id {
        IdleHearsNoRec(OutLink(s, id));
        var e := E.Answered(ok && !again);
        E.Keeps(OutLink(s, id), e);
        assert OutLink(t, id) == E.Apply(OutLink(s, id), e);
      } else {
        assert OutLink(t, id) == OutLink(s, id);
      }
    }
  }

  /** A PUBCOMP ends the exchange. */
  lemma KeepsPubcomp(s: Sys, t: Sys, a: Codec.Ack)
    requires Inv(s) && s.toClient != [] && Decode(s.toClient[0]) == Ackn(a) && a.kind == PUBCOMP
    requires TableOk(t.c) && t.c.acks == Unrecord(s.c, PUBCOMP, a.id).acks
    requires t == s.(c := t.c, toClient := s.toClient[1..])
    ensures Inv(t)
  {
    hide TableOk, E.Inv, AllBacked, Exists, Told, LastTold, LastContent, Downs, Ups, Decode, Unrecord;
    BackedRemoved(s.c, PUBCOMP, a.id, s.clientAccepted);
    forall id: nat
      ensures E.Inv(OutLink(t, id)) && E.Inv(InLink(t, id))
      ensures !(Exists(t.c.acks, PUBREC, id) && Exists(t.c.acks, PUBCOMP, id))
    {
      ClientAnswers(s, t, [], id);
      NothingAdded(t.toClient, id);
      NothingAdded(s.toServer, id);
      ExistsRemoved(s.c, PUBCOMP, a.id, PUBREC, id);
      ExistsRemoved(s.c, PUBCOMP, a.id, PUBREL, id);
      ExistsRemoved(s.c, PUBCOMP, a.id, PUBCOMP, id);
      assert InLink(t, id) == InLink(s, id);
      if id == a.id {
        E.Keeps(OutLink(s, id), E.Answered(false));
        assert OutLink(t, id) == E.Apply(OutLink(s, id), E.Answered(false));
      } else {
        assert OutLink(t, id) == OutLink(s, id);
      }
    }
  }

  lemma UnrelatedAck(id: nat)
    requires id < 65536
    ensures Unrelated(AckBytes(Codec.Ack(PUBACK, 0, id)))
  {
    hide Decode, AckBytes;
    DecodeAck(Codec.Ack(PUBACK, 0, id));
  }

  /** The client reads a PUBLISH. */
  lemma KeepsReadPublish(s: Sys, m: Publish, ok: bool)
    requires Inv(s) && s.toClient != [] && Decode(s.toClient[0]) == Pub(m) && m.id < 65536
    requires s.c.state == Connected
    ensures Enabled(s, ClientReads(ok, NoNote)) && Inv(Step(s, ClientReads(ok, NoNote)))
  {
    hide TableOk, Inv, AckBytes, Decode, RecordAck, Lookup, Padded, SameTale, QosSame, NewParts, NoteOf;
    NoteOfQos(s.toClient[0]);
    var t := Step(s, ClientReads(ok, NoNote));
    InvParts(s);
    OnPublishKeeps(s.c, m, ok);
    RecordAckShort(s.c, PUBREL, m.id, Codec.Ack(PUBREC, 0, m.id));
    MessagesOne(Delivery(m, Lookup(s.c.msgs, m.topic, m.topic)));
    assert s.clientDelivered + [] == s.clientDelivered && s.toServer + [] == s.toServer;
    if m.qos == 2 && ok {
      KeepsIncoming2(s, t, m);
    } else {
      KeepsClientSkips(s);
      if m.qos <= 1 {
        var s1 := s.(toClient := s.toClient[1..]);
        UnrelatedAck(m.id);
        PaddedOne(s.toServer, AckBytes(Codec.Ack(PUBACK, 0, m.id)));
        SameTaleAppend(s.clientDelivered, m);
        SameSelf(s1);
        PartsOf(s, t);
        Bystander(s1, t);
      }
    }
  }

  lemma MessagesOne(d: Delivery)
    ensures Messages([d]) == [d.m] && Messages([]) == []
  {
    assert [d][1..] == [];
  }

  lemma PartsOf(s: Sys, t: Sys)
    requires Inv(s) && t.c == s.c && t.clientAccepted == s.clientAccepted
    ensures NewParts(t)
  {}

  lemma KeepsReadAck(s: Sys, a: Codec.Ack, ok: bool)
    requires Inv(s) && s.toClient != [] && Decode(s.toClient[0]) == Ackn(a) && a.id < 65536
    requires a.kind in {PUBACK, PUBREC, PUBREL, PUBCOMP} && s.c.state == Connected
    ensures Enabled(s, ClientReads(ok, NoNote)) && Inv(Step(s, ClientReads(ok, NoNote)))
  {
    hide TableOk, Inv, AckBytes, Decode, AfterPubrec, Unrecord, Exists, NoteOf;
    NoteOfQos(s.toClient[0]);
    var t := Step(s, ClientReads(ok, NoNote));
    InvParts(s);
    assert s.clientDelivered + [] == s.clientDelivered && s.toServer + [] == s.toServer;
    if a.kind == PUBREC {
      OnPubrecPubrelKeeps(s.c, PUBREC, a.id, ok);
      KeepsPubrec(s, t, a, ok);
    } else if a.kind == PUBREL {
      OnPubrecPubrelKeeps(s.c, PUBREL, a.id, ok);
      KeepsPubrel(s, t, a, ok);
    } else {
      OnPubackPubcompKeeps(s.c, a.kind, a.id);
      if a.kind == PUBCOMP {
        KeepsPubcomp(s, t, a);
      } else {
        KeepsClientSkips(s);
        KeepsEnded(s.(toClient := s.toClient[1..]), t, PUBACK, a.id);
      }
    }
  }

  lemma KeepsClientReads(s: Sys, ok: bool, note: Note)
    requires Inv(s) && Enabled(s, ClientReads(ok, note))
    ensures Inv(Step(s, ClientReads(ok, note)))
  {
    hide Inv, Decode, OnPublish, OnPubrecPubrel, OnPubackPubcomp, OnSuback, OnUnsuback, Found, Unrecord, NoteOf;
    var t := Step(s, ClientReads(ok, note));
    DecodedRanges(s.toClient[0]);
    KeepsClientSkips(s);
    var s1 := s.(toClient := s.toClient[1..]);
    assert s.clientDelivered + [] == s.clientDelivered && s.toServer + [] == s.toServer;
    if s.c.state != Connected {
      NotConnectedReads(s.c, Decode(s.toClient[0]), ok, note);
      assert t == s1;
    } else {
      match Decode(s.toClient[0])
      case Pub(m) => KeepsReadPublish(s, m, ok); assert t == Step(s, ClientReads(ok, NoNote));
      case Ackn(a) => KeepsReadAck(s, a, ok); assert t == Step(s, ClientReads(ok, NoNote));
      case Other => KeepsNote(s1, s1.(c := OnPacket(s.c, Other, true, note).c), note); OtherIgnoresSend(s.c, ok, note);
    }
  }

  lemma NotConnectedReads(c: Client, p: Packet, ok: bool, note: Note)
    requires c.state != Connected
    ensures var o := OnPacket(c, p, ok, note); o.c == c && o.sent == [] && o.delivered == []
  {}

  lemma OtherIgnoresSend(c: Client, ok: bool, note: Note)
    requires note.Unsuback? && c.state == Connected ==> Found(c.acks, UNSUBACK, note.id).Some?
    ensures OnPacket(c, Other, ok, note) == OnPacket(c, Other, true, note)
  {}

  // ---- the scan ----

  lemma AddedToServer(s: Sys, t: Sys, b: seq<byte>, id: nat)
    requires t.toServer == s.toServer + [b]
    ensures Downs(t.toServer, id) == Downs(s.toServer, id) + DownOne(Decode(b), id)
    ensures Ups(t.toServer, id) == Ups(s.toServer, id) + UpOne(Decode(b), id)
  {
    hide Decode, DownOne, UpOne;
    DownsAppend(s.toServer, b, id);
    UpsAppend(s.toServer, b, id);
  }

  lemma AddedToClient(s: Sys, t: Sys, b: seq<byte>, id: nat)
    requires t.toClient == s.toClient + [b]
    ensures Downs(t.toClient, id) == Downs(s.toClient, id) + DownOne(Decode(b), id)
    ensures Ups(t.toClient, id) == Ups(s.toClient, id) + UpOne(Decode(b), id)
  {
    hide Decode, DownOne, UpOne;
    DownsAppend(s.toClient, b, id);
    UpsAppend(s.toClient, b, id);
  }

  /** What a QoS record resends says about each identifier. */
  lemma ResentSays(r: Record, log: seq<Publish>, id: nat)
    requires Backed(r, log) && IsQos(r) && r.id < 65536
    ensures DownOne(Decode(r.payload), id) ==
      if r.id != id then [] else if r.kind == PUBREC then [E.Pub(LastContent(log, id))]
        else if r.kind == PUBCOMP then [E.Rel] else []
    ensures UpOne(Decode(r.payload), id) == if r.id == id && r.kind == PUBREL then [E.Rec] else []
  {
    hide Decode, PublishBytes, AckBytes;
    if r.kind == PUBREC {
      var m := LastTold(log, r.id).value;
      GoodDup(m);
      DecodePublish(m.(dup := 1));
      LastToldIs(log, r.id);
    } else if r.kind == PUBCOMP {
      DecodeAck(Codec.Ack(PUBREL, 0, r.id));
    } else if r.kind == PUBREL {
      DecodeAck(Codec.Ack(PUBREC, 0, r.id));
    } else {
      UnrelatedSays(r.payload, id);
    }
  }

  lemma {:induction false} LastToldIs(log: seq<Publish>, id: nat)
    ensures LastTold(log, id).Some? ==> About(LastTold(log, id).value, id)
  {
    if log != [] { LastToldIs(log[..|log| - 1], id); }
  }

  /** Resending one record. */
  lemma KeepsResend(s: Sys, k: nat)
    requires Inv(s) && k < |s.c.acks| && IsQos(s.c.acks[k])
    ensures Inv(s.(toServer := s.toServer + [s.c.acks[k].payload]))
  {
    hide TableOk, E.Inv, AllBacked, Exists, Told, LastTold, LastContent, Downs, Ups, Decode, Backed;
    var r := s.c.acks[k];
    var t := s.(toServer := s.toServer + [r.payload]);
    MemberFacts(s, k);
    forall id: nat ensures E.Inv(OutLink(t, id)) && E.Inv(InLink(t, id)) {
      AddedToServer(s, t, r.payload, id);
      NothingAdded(s.toServer, id);
      ResentSays(r, s.clientAccepted, id);
      if r.id == id && (r.kind == PUBREC || r.kind == PUBCOMP) {
        E.Keeps(OutLink(s, id), E.Resend);
        assert OutLink(t, id) == E.Apply(OutLink(s, id), E.Resend);
      } else {
        assert OutLink(t, id) == OutLink(s, id);
      }
      if r.id == id && r.kind == PUBREL {
        E.Keeps(InLink(s, id), E.ResendRec);
        assert InLink(t, id) == E.Apply(InLink(s, id), E.ResendRec);
      } else {
        assert InLink(t, id) == InLink(s, id);
      }
    }
  }

  lemma MemberFacts(s: Sys, k: nat)
    requires Inv(s) && k < |s.c.acks|
    ensures Backed(s.c.acks[k], s.clientAccepted) && RecordOk(s.c.acks[k])
      && Exists(s.c.acks, s.c.acks[k].kind, s.c.acks[k].id)
    ensures s.c.acks[k].kind == PUBCOMP ==> !Exists(s.c.acks, PUBREC, s.c.acks[k].id)
  {
    hide E.Inv, Backed;
    var r := s.c.acks[k];
    assert Is(s.c.acks[k], r.kind, r.id);
    assert Exists(s.c.acks, r.kind, r.id);
  }

  /** Giving up one record of no QoS exchange. */
  lemma KeepsGivenUp(s: Sys, t: Sys, k: nat)
    requires Inv(s) && k < |s.c.acks| && !IsQos(s.c.acks[k])
    requires TableOk(t.c) && t.c.acks == s.c.acks[..k] + s.c.acks[k + 1..] && t == s.(c := t.c)
    ensures Inv(t)
  {
    hide Inv, TableOk, Unrecord;
    InvParts(s);
    var r := s.c.acks[k];
    CutIsUnrecord(s.c, k);
    KeepsEnded(s, t, r.kind, r.id);
  }

  lemma CutIsUnrecord(c: Client, k: nat)
    requires TableOk(c) && k < |c.acks|
    ensures Unrecord(c, c.acks[k].kind, c.acks[k].id).acks == c.acks[..k] + c.acks[k + 1..]
  {
    RemoveAt(c.acks, c.acks[k].kind, c.acks[k].id, k);
  }

  /** The system when the scan has passed n records. */
  ghost function ScanAt(s: Sys, due: seq<bool>, oks: seq<bool>, n: nat): Sys
    requires |due| == |s.c.acks| == |oks| && n <= |s.c.acks|
  {
    s.(c := Passed(s.c, due, n), toServer := s.toServer + Resent(s.c.acks[..n], due[..n], oks[..n]))
  }

  lemma {:induction false} KeepsScanAt(s: Sys, due: seq<bool>, oks: seq<bool>, n: nat)
    requires |due| == |s.c.acks| == |oks| && n <= |s.c.acks| && Inv(s)
    ensures Inv(ScanAt(s, due, oks, n))
  {
    hide Inv, TableOk, Passed, Kept, Resent, IsQos, Surviving, WithoutFilter;
    InvParts(s);
    if n == 0 {
      ScanAtNone(s, due, oks);
    } else {
      KeepsScanAt(s, due, oks, n - 1);
      PassOne(s.c, due, n - 1);
      TakeOneMore(s.c.acks, due, oks, s.c.msgs, n - 1);
      PassedKeeps(s.c, due, n);
      var p, q := ScanAt(s, due, oks, n - 1), ScanAt(s, due, oks, n);
      var k, r := |Kept(s.c.acks[..n - 1], due[..n - 1])|, s.c.acks[n - 1];
      if due[n - 1] && !IsQos(r) {
        assert p.toServer + [] == p.toServer;
        assert q.toServer == p.toServer + Sends(false, r.payload)
          by { AddSends(s.toServer, Resent(s.c.acks[..n - 1], due[..n - 1], oks[..n - 1]), Sends(false, r.payload)); }
        KeepsGivenUp(p, q, k);
      } else {
        AddSends(s.toServer, Resent(s.c.acks[..n - 1], due[..n - 1], oks[..n - 1]),
          Sends(due[n - 1] && IsQos(r) && oks[n - 1], r.payload));
        NotLeavingQos(r);
        SameParts(p.c, q.c);
        if due[n - 1] && oks[n - 1] { KeepsResend(p, k); } else { assert p.toServer + [] == p.toServer; }
      }
    }
  }

  lemma NotLeavingQos(r: Record)
    ensures IsQos(r) ==> !Leaving(r)
  {}

  lemma AddSends(a: seq<seq<byte>>, b: seq<seq<byte>>, d: seq<seq<byte>>)
    ensures a + (b + d) == (a + b) + d
  {}

  lemma ScanAtNone(s: Sys, due: seq<bool>, oks: seq<bool>)
    requires |due| == |s.c.acks| == |oks| && Inv(s)
    ensures Inv(ScanAt(s, due, oks, 0))
  {
    hide TableOk, E.Inv, AllBacked;
    CountIs(s.c);
    assert s.c.acks[0..] == s.c.acks && s.c.acks[..0] == [] && s.toServer + [] == s.toServer;
    assert Passed(s.c, due, 0) == s.c;
    assert ScanAt(s, due, oks, 0) == s;
  }

  lemma KeepsScan(s: Sys, flag: nat, expired: seq<bool>, oks: seq<bool>)
    requires Inv(s) && |expired| == |s.c.acks| == |oks|
    ensures Inv(Step(s, ClientScans(flag, expired, oks)))
  {
    hide Inv, TableOk, Kept, Resent, Surviving, Due;
    InvParts(s);
    CountIs(s.c);
    var t := Step(s, ClientScans(flag, expired, oks));
    assert s.toServer + [] == s.toServer;
    if s.c.acks != [] && s.c.state == Connected {
      var n, due := |s.c.acks|, Due(flag, expired);
      KeepsScanAt(s, due, oks, n);
      assert s.c.acks[..n] == s.c.acks && due[..n] == due && oks[..n] == oks && s.c.acks[n..] == [];
      assert Kept(s.c.acks, due) + [] == Kept(s.c.acks, due);
      SameParts(Passed(s.c, due, n), t.c);
    }
  }

  // ---- connections ----

  /** Cutting the connection, or opening a new one, keeps both ends and empties the channels. */
  lemma KeepsCut(s: Sys, state: State)
    requires Inv(s)
    ensures Inv(s.(c := s.c.(state := state), toServer := [], toClient := []))
  {
    hide TableOk, E.Inv, AllBacked, Exists, Told, LastTold, LastContent;
    var t := s.(c := s.c.(state := state), toServer := [], toClient := []);
    StateKeeps(s.c, state);
    forall id: nat ensures E.Inv(OutLink(t, id)) && E.Inv(InLink(t, id)) {
      E.Keeps(OutLink(s, id), E.Cut);
      E.Keeps(InLink(s, id), E.Cut);
      assert OutLink(t, id) == E.Apply(OutLink(s, id), E.Cut);
      assert InLink(t, id) == E.Apply(InLink(s, id), E.Cut);
    }
  }

  // ---- the server ----

  lemma KeepsServerSends(s: Sys, b: seq<byte>)
    requires Inv(s) && Unrelated(b)
    ensures Inv(s.(toClient := s.toClient + [b]))
  {
    hide TableOk, E.Inv, AllBacked, Exists, Told, LastTold, Downs, Ups, Unrelated, Decode;
    var t := s.(toClient := s.toClient + [b]);
    forall id: nat ensures E.Inv(OutLink(t, id)) && E.Inv(InLink(t, id)) {
      AddedToClient(s, t, b, id);
      UnrelatedSays(b, id);
      NothingAdded(s.toClient, id);
      assert OutLink(t, id) == OutLink(s, id) && InLink(t, id) == InLink(s, id);
    }
  }

  /** The server starts on a new message. */
  lemma KeepsServerAccepts(s: Sys, m: Publish, put: bool)
    requires Inv(s) && Enabled(s, ServerAccepts(m, put))
    ensures Inv(Step(s, ServerAccepts(m, put)))
  {
    hide TableOk, E.Inv, AllBacked, Exists, Told, LastTold, LastContent, Downs, Ups, Decode, PublishBytes;
    var t := Step(s, ServerAccepts(m, put));
    ServerOkAccepts(s, m);
    DecodePublish(m);
    forall id: nat ensures E.Inv(OutLink(t, id)) && E.Inv(InLink(t, id)) {
      ToldAppend(s.serverAccepted, m, id);
      NothingAdded(s.toClient, id);
      assert s.toClient + [] == s.toClient && Told(s.serverAccepted, id) + [] == Told(s.serverAccepted, id);
      if put { AddedToClient(s, t, PublishBytes(m), id); }
      assert OutLink(t, id) == OutLink(s, id);
      if id == m.id {
        E.Keeps(InLink(s, id), E.Accept(ContentOf(m), put));
        assert InLink(t, id) == E.Apply(InLink(s, id), E.Accept(ContentOf(m), put));
      } else {
        assert InLink(t, id) == InLink(s, id);
      }
    }
  }

  lemma ServerOkAccepts(s: Sys, m: Publish)
    requires ServerOk(s) && GoodPublish(m) && m.qos == 2
    ensures ServerOk(s.(server := s.server[m.id := E.Sent(ContentOf(m))]))
  {
    assert PublishLength(PubPacket(ContentOf(m), m.id)) == PublishLength(m);
  }

  lemma KeepsServerResends(s: Sys, id0: nat)
    requires Inv(s)
    ensures Inv(Step(s, ServerResends(id0)))
  {
    hide TableOk, E.Inv, AllBacked, Exists, Told, LastTold, LastContent, Downs, Ups, Decode, PublishBytes, AckBytes,
      GoodPublish;
    var t := Step(s, ServerResends(id0));
    var at := ServerAt(s, id0);
    if !at.Idle? {
      assert id0 in s.server && GoodPublish(PubPacket(at.m, id0));
      DecodePublish(PubPacket(at.m, id0));
      DecodeAck(Codec.Ack(PUBREL, 0, id0));
      forall id: nat ensures E.Inv(OutLink(t, id)) && E.Inv(InLink(t, id)) {
        NothingAdded(s.toClient, id);
        AddedToClient(s, t, if at.Sent? then PublishBytes(PubPacket(at.m, id0)) else PubRel(id0), id);
        assert OutLink(t, id) == OutLink(s, id);
        if id == id0 {
          E.Keeps(InLink(s, id), E.Resend);
          assert InLink(t, id) == E.Apply(InLink(s, id), E.Resend);
        } else {
          assert InLink(t, id) == InLink(s, id);
        }
      }
    }
  }

  /** The channels after the server took a packet and maybe put b on the way to the client. */
  lemma ServerAnswers(s: Sys, t: Sys, b: seq<byte>, put: bool, id: nat)
    requires s.toServer != [] && t.toServer == s.toServer[1..] && t.toClient == s.toClient + Sends(put, b)
    ensures Downs(s.toServer, id) == DownOne(Decode(s.toServer[0]), id) + Downs(t.toServer, id)
    ensures Ups(s.toServer, id) == UpOne(Decode(s.toServer[0]), id) + Ups(t.toServer, id)
    ensures Downs(t.toClient, id) == Downs(s.toClient, id) + if put then DownOne(Decode(b), id) else []
    ensures Ups(t.toClient, id) == Ups(s.toClient, id) + if put then UpOne(Decode(b), id) else []
  {
    hide Decode, DownOne, UpOne, Downs, Ups;
    HeadSays(s.toServer, id);
    NothingAdded(s.toClient, id);
    assert s.toClient + [] == s.toClient;
    if put { AddedToClient(s, t, b, id); }
  }

  lemma KeepsServerPublish(s: Sys, m: Publish, put: bool)
    requires Inv(s) && s.toServer != [] && Decode(s.toServer[0]) == Pub(m) && m.qos == 2 && m.id < 65536
    ensures Inv(Step(s, ServerReads(put)))
  {
    hide TableOk, E.Inv, AllBacked, Exists, Told, LastTold, LastContent, Downs, Ups, Decode, AckBytes;
    var t := Step(s, ServerReads(put));
    var b := AckBytes(Codec.Ack(PUBREC, 0, m.id));
    DecodeAck(Codec.Ack(PUBREC, 0, m.id));
    assert s.serverDelivered + [] == s.serverDelivered;
    forall id: nat ensures E.Inv(OutLink(t, id)) && E.Inv(InLink(t, id)) {
      ServerAnswers(s, t, b, put, id);
      NothingAdded(s.toClient, id);
      NothingAdded(t.toServer, id);
      ToldAppend(s.serverDelivered, m, id);
      assert Told(s.serverDelivered, id) + [] == Told(s.serverDelivered, id);
      assert InLink(t, id) == InLink(s, id);
      if id == m.id {
        E.Keeps(OutLink(s, id), E.Received(true, put));
        assert OutLink(t, id) == E.Apply(OutLink(s, id), E.Received(true, put));
      } else {
        assert OutLink(t, id) == OutLink(s, id);
      }
    }
  }

  lemma KeepsServerPubrel(s: Sys, a: Codec.Ack, put: bool)
    requires Inv(s) && s.toServer != [] && Decode(s.toServer[0]) == Ackn(a) && a.kind == PUBREL && a.id < 65536
    ensures Inv(Step(s, ServerReads(put)))
  {
    hide TableOk, E.Inv, AllBacked, Exists, Told, LastTold, LastContent, Downs, Ups, Decode, AckBytes;
    var t := Step(s, ServerReads(put));
    var b := AckBytes(Codec.Ack(PUBCOMP, 0, a.id));
    DecodeAck(Codec.Ack(PUBCOMP, 0, a.id));
    forall id: nat ensures E.Inv(OutLink(t, id)) && E.Inv(InLink(t, id)) {
      ServerAnswers(s, t, b, put, id);
      NothingAdded(s.toClient, id);
      NothingAdded(t.toServer, id);
      assert InLink(t, id) == InLink(s, id);
      if id == a.id {
        E.Keeps(OutLink(s, id), E.Received(true, put));
        assert OutLink(t, id) == E.Apply(OutLink(s, id), E.Received(true, put));
      } else {
        assert OutLink(t, id) == OutLink(s, id);
      }
    }
  }

  /** PUBREC and PUBCOMP move the server's own message on. */
  lemma KeepsServerUp(s: Sys, a: Codec.Ack, put: bool)
    requires Inv(s) && s.toServer != [] && Decode(s.toServer[0]) == Ackn(a) && a.id < 65536
    requires a.kind == PUBREC || a.kind == PUBCOMP
    ensures Inv(Step(s, ServerReads(put)))
  {
    hide TableOk, E.Inv, AllBacked, Exists, Told, LastTold, LastContent, Downs, Ups, Decode, AckBytes, GoodPublish;
    var t := Step(s, ServerReads(put));
    var b, sends := PubRel(a.id), put && a.kind == PUBREC && !ServerAt(s, a.id).Idle?;
    DecodeAck(Codec.Ack(PUBREL, 0, a.id));
    assert s.toClient + [] == s.toClient;
    forall id: nat ensures E.Inv(OutLink(t, id)) && E.Inv(InLink(t, id)) {
      ServerAnswers(s, t, b, sends, id);
      NothingAdded(s.toClient, id);
      NothingAdded(t.toServer, id);
      assert OutLink(t, id) == OutLink(s, id);
      if id == a.id {
        E.Keeps(InLink(s, id), E.Answered(put));
        assert InLink(t, id) == E.Apply(InLink(s, id), E.Answered(put));
      } else {
        assert InLink(t, id) == InLink(s, id);
      }
    }
  }

  lemma KeepsServerReads(s: Sys, put: bool)
    requires Inv(s) && s.toServer != []
    ensures Inv(Step(s, ServerReads(put)))
  {
    hide Inv, Decode, AckBytes;
    DecodedRanges(s.toServer[0]);
    KeepsServerSkips(s);
    match Decode(s.toServer[0])
    case Pub(m) => if m.qos == 2 { KeepsServerPublish(s, m, put); }
    case Ackn(a) =>
      if a.kind == PUBREL { KeepsServerPubrel(s, a, put); }
      else if a.kind == PUBREC || a.kind == PUBCOMP { KeepsServerUp(s, a, put); }
    case Other =>
  }

  // ---- every step, every run ----

  lemma Keeps(s: Sys, mv: Move)
    requires Inv(s) && Enabled(s, mv)
    ensures Inv(Step(s, mv))
  {
    hide Inv, UserPublish, UserSubscribe, UserUnsubscribe, OnPacket, Scan, ServerReceives, Decode;
    match mv
    case AppPublish(m, ok) => KeepsPublish(s, m, ok);
    case AppSubscribe(h, ok) => KeepsSubscribe(s, h, ok);
    case AppUnsubscribe(filter, ok) => KeepsUnsubscribe(s, filter, ok);
    case ClientReads(ok, note) => KeepsClientReads(s, ok, note);
    case ClientSkips => KeepsClientSkips(s);
    case ClientScans(flag, expired, oks) => KeepsScan(s, flag, expired, oks);
    case Cut(state) => KeepsCut(s, state);
    case Connects => KeepsCut(s, Connected);
    case ServerAccepts(m, put) => KeepsServerAccepts(s, m, put);
    case ServerResends(id) => KeepsServerResends(s, id);
    case ServerReads(put) => KeepsServerReads(s, put);
    case ServerSkips => KeepsServerSkips(s);
    case ServerSends(b) => KeepsServerSends(s, b);
  }

  ghost predicate Start(s: Sys) {
    && s.c == Client(Initialized, 1, 0, s.c.bufSize, [], []) && 4 <= s.c.bufSize <= MAX_REMAINING
    && s.toServer == [] && s.toClient == [] && s.server == map[] && s.serverHeld == {}
    && s.serverAccepted == [] && s.clientDelivered == [] && s.clientAccepted == [] && s.serverDelivered == []
  }

  /** The moves, each of them enabled, lead from s to t. */
  ghost predicate Leads(s: Sys, moves: seq<Move>, t: Sys) {
    if moves == [] then t == s
    else
      var n := |moves| - 1;
      exists u: Sys :: Leads(s, moves[..n], u) && Enabled(u, moves[n]) && t == Step(u, moves[n])
  }

  /** A run: any sequence of enabled moves from the start. */
  ghost predicate Run(s: Sys, moves: seq<Move>, t: Sys) { Start(s) && Leads(s, moves, t) }

  lemma StartInv(s: Sys)
    requires Start(s)
    ensures Inv(s)
  {
    forall id: nat ensures E.Inv(OutLink(s, id)) && E.Inv(InLink(s, id)) {
      E.FreshInv(OutLink(s, id));
      E.FreshInv(InLink(s, id));
    }
  }

  lemma {:induction false} LeadsInv(s: Sys, moves: seq<Move>, t: Sys)
    requires Inv(s) && Leads(s, moves, t)
    ensures Inv(t)
    decreases |moves|
  {
    hide Inv, Enabled, Step;
    if moves != [] {
      var n := |moves| - 1;
      var u: Sys :| Leads(s, moves[..n], u) && Enabled(u, moves[n]) && t == Step(u, moves[n]);
      LeadsInv(s, moves[..n], u);
      Keeps(u, moves[n]);
    }
  }

  lemma RunInv(s: Sys, moves: seq<Move>, t: Sys)
    requires Run(s, moves, t)
    ensures Inv(t)
  {
    hide Inv, Leads, Start;
    StartInv(s);
    LeadsInv(s, moves, t);
  }

  // ---- the theorems ----

  /** All but the last. */
  predicate AllButLast<T(==)>(some: seq<T>, all: seq<T>) { all != [] && some == all[..|all| - 1] }

  /** Inbound: at any moment of any run and for every identifier, the QoS 2 messages the client has passed on
      are the ones the server was given to send, in order and each once, except that the last may still be
      under way; and none is missing once the server has had its PUBREC, let alone its PUBCOMP. */
  lemma InboundExactlyOnce(s: Sys, moves: seq<Move>, t: Sys, id: nat)
    requires Run(s, moves, t)
    ensures var sent, got := Told(t.serverAccepted, id), Told(t.clientDelivered, id);
            && (got == sent || AllButLast(got, sent))
            && (!ServerAt(t, id).Sent? ==> got == sent)
  {
    hide Run, E.Inv, Told;
    RunInv(s, moves, t);
    InvParts(t);
    E.InOrderOnce(InLink(t, id));
  }

  /** Outbound: likewise for the messages the application had accepted by the client; while one is under way
      exactly one record holds it, and its PUBCOMP alone ends that. */
  lemma OutboundExactlyOnce(s: Sys, moves: seq<Move>, t: Sys, id: nat)
    requires Run(s, moves, t)
    ensures var sent, got := Told(t.clientAccepted, id), Told(t.serverDelivered, id);
            && (got == sent || AllButLast(got, sent))
            && (!Exists(t.c.acks, PUBREC, id) ==> got == sent)
            && !(Exists(t.c.acks, PUBREC, id) && Exists(t.c.acks, PUBCOMP, id))
  {
    hide Run, E.Inv, Told, Exists, LastContent;
    RunInv(s, moves, t);
    InvParts(t);
    E.InOrderOnce(OutLink(t, id));
  }
}
