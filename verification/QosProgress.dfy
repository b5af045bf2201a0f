/** No exchange gets stuck: from every reachable state each QoS 2 message under way can still be brought to its
    end, by connecting, repeating what is held, and reading what comes. */
module QosProgress {
  import opened Bytes
  import opened Codec
  import opened Options
  import opened ClientSpec
  import opened ClientTable
  import opened QosSystem
  import opened QosSafety
  import opened QosStages
  import E = ExactlyOnce

  lemma OneMove(s: Sys, moves: seq<Move>, u: Sys, mv: Move)
    requires Leads(s, moves, u) && Enabled(u, mv)
    ensures Leads(s, moves + [mv], Step(u, mv))
  {
    hide Enabled, Step;
    assert (moves + [mv])[..|moves|] == moves;
  }

  lemma NoMoves(s: Sys)
    ensures Leads(s, [], s)
  {}

  /** Two moves from u to t. */
  ghost predicate Then(u: Sys, a: Move, b: Move, t: Sys) {
    Enabled(u, a) && Enabled(Step(u, a), b) && t == Step(Step(u, a), b)
  }

  lemma Appended(s: Sys, moves: seq<Move>, u: Sys, a: Move, b: Move, t: Sys) returns (more: seq<Move>)
    requires Leads(s, moves, u) && Then(u, a, b, t)
    ensures Leads(s, more, t)
  {
    hide Leads, Enabled, Step;
    OneMove(s, moves, u, a);
    OneMove(s, moves + [a], Step(u, a), b);
    more := moves + [a] + [b];
  }

  // ---- from the server to the client ----

  /** Nothing is under way but one packet for the client. */
  ghost predicate ForClient(u: Sys, b: seq<byte>) {
    u.c.state == Connected && u.toServer == [] && u.toClient == [b]
  }

  const READ := ClientReads(true, NoNote)

  lemma StaysConnected(c: Client, id: nat, b: seq<byte>)
    ensures RecordAck(c, PUBREL, id, b, None).0.state == AfterPubrec(c, id).state == c.state
  {
    hide AckBytes, Exists, Remove;
  }

  /** A repeated PUBLISH is answered, whether or not it was passed on before, and PUBREL follows. */
  lemma SentGoesOn(u: Sys, id: nat, m: Content) returns (t: Sys)
    requires ForClient(u, PublishBytes(PubPacket(m, id))) && GoodPublish(PubPacket(m, id))
    requires ServerAt(u, id) == E.Sent(m) && id < 65536
    ensures Then(u, READ, ServerReads(true), t)
    ensures ForClient(t, PubRel(id)) && ServerAt(t, id).Released? && t.serverAccepted == u.serverAccepted
  {
    hide Decode, PublishBytes, AckBytes, GoodPublish, RecordAck, Lookup, Exists, NoteOf;
    var b := AckBytes(Codec.Ack(PUBREC, 0, id));
    DecodePublish(PubPacket(m, id));
    DecodeAck(Codec.Ack(PUBREC, 0, id));
    StaysConnected(u.c, id, b);
    NoteOfQos(u.toClient[0]);
    var v := Step(u, READ);
    assert v.toServer == [b] && v.toClient == [];
    t := Step(v, ServerReads(true));
    assert t.toServer == [] && t.toClient == [PubRel(id)];
  }

  /** PUBREL is answered, and with PUBCOMP the server is done. */
  lemma ReleasedEnds(u: Sys, id: nat) returns (t: Sys)
    requires ForClient(u, PubRel(id)) && id < 65536 && ServerAt(u, id).Released?
    ensures Then(u, READ, ServerReads(true), t)
    ensures ServerAt(t, id).Idle? && t.serverAccepted == u.serverAccepted
  {
    hide Decode, AckBytes, Unrecord, NoteOf;
    DecodeAck(Codec.Ack(PUBREL, 0, id));
    DecodeAck(Codec.Ack(PUBCOMP, 0, id));
    NoteOfQos(u.toClient[0]);
    var v := Step(u, READ);
    assert v.toServer == [AckBytes(Codec.Ack(PUBCOMP, 0, id))];
    t := Step(v, ServerReads(true));
  }

  /** What the server holds, repeated on a new connection. */
  lemma Reopened(s: Sys, id: nat) returns (u: Sys)
    requires ServerOk(s) && !ServerAt(s, id).Idle?
    ensures Then(s, Connects, ServerResends(id), u) && ServerAt(u, id) == ServerAt(s, id) && id < 65536
    ensures u.serverAccepted == s.serverAccepted
    ensures ServerAt(s, id).Sent? ==>
      var m := ServerAt(s, id).m; GoodPublish(PubPacket(m, id)) && ForClient(u, PublishBytes(PubPacket(m, id)))
    ensures ServerAt(s, id).Released? ==> ForClient(u, PubRel(id))
  {
    hide PublishBytes, AckBytes, GoodPublish;
    u := Step(Step(s, Connects), ServerResends(id));
  }

  /** From every state that a run can reach, a few moves bring the server's message to its end; and then all
      that the server was given for that identifier has been passed on, each message once. */
  lemma InboundCompletes(s: Sys, id: nat) returns (moves: seq<Move>, t: Sys)
    requires Inv(s)
    ensures Leads(s, moves, t) && ServerAt(t, id).Idle? && t.serverAccepted == s.serverAccepted
    ensures Told(t.clientDelivered, id) == Told(s.serverAccepted, id)
  {
    hide Inv, Leads, Then, ServerAt, ForClient, ServerOk, E.Inv, Told, GoodPublish, PublishBytes, AckBytes;
    NoMoves(s);
    InvParts(s);
    moves, t := [], s;
    if !ServerAt(s, id).Idle? {
      var u := Reopened(s, id);
      moves := Appended(s, moves, s, Connects, ServerResends(id), u);
      if ServerAt(s, id).Sent? {
        var v := SentGoesOn(u, id, ServerAt(s, id).m);
        moves := Appended(s, moves, u, READ, ServerReads(true), v);
        u := v;
      }
      t := ReleasedEnds(u, id);
      moves := Appended(s, moves, u, READ, ServerReads(true), t);
    }
    LeadsInv(s, moves, t);
    InvParts(t);
    E.InOrderOnce(InLink(t, id));
  }

  // ---- from the client to the server ----

  /** Nothing is under way but one packet for the server. */
  ghost predicate ForServer(u: Sys, b: seq<byte>) {
    u.c.state == Connected && u.toServer == [b] && u.toClient == []
  }

  function Only(i: nat, n: nat): (due: seq<bool>)
    ensures |due| == n && forall j :: 0 <= j < n ==> (due[j] <==> j == i)
  {
    seq(n, j => j == i)
  }

  lemma {:induction false} NoneDue(acks: seq<Record>, due: seq<bool>, oks: seq<bool>, msgs: seq<Handler>)
    requires |due| == |acks| == |oks| && forall j :: 0 <= j < |due| ==> !due[j]
    ensures Kept(acks, due) == acks && Resent(acks, due, oks) == [] && Surviving(acks, due, msgs) == msgs
  {
    if acks != [] {
      hide Kept, Resent, Surviving, IsQos, WithoutFilter;
      var n := |acks| - 1;
      LastOne(acks, due, oks, msgs);
      NoneDue(acks[..n], due[..n], oks[..n], msgs);
      assert acks[..n] + [acks[n]] == acks;
    }
  }

  /** A scan in which one QoS record has timed out sends that one and changes nothing. */
  lemma {:induction false} OneDue(acks: seq<Record>, due: seq<bool>, oks: seq<bool>, msgs: seq<Handler>, i: nat)
    requires |due| == |acks| == |oks| && i < |acks| && IsQos(acks[i]) && oks[i]
    requires forall j :: 0 <= j < |due| ==> (due[j] <==> j == i)
    ensures Kept(acks, due) == acks && Resent(acks, due, oks) == [acks[i].payload] && Surviving(acks, due, msgs) == msgs
    decreases |acks|
  {
    hide Kept, Resent, Surviving, IsQos, WithoutFilter;
    var n := |acks| - 1;
    var front, frontDue, frontOks := acks[..n], due[..n], oks[..n];
    assert front + [acks[n]] == acks;
    LastOne(acks, due, oks, msgs);
    if i == n {
      NotLeavingQos(acks[n]);
      NoneDue(front, frontDue, frontOks, msgs);
    } else {
      assert front[i] == acks[i] && frontOks[i] == oks[i];
      OneDue(front, frontDue, frontOks, msgs, i);
    }
  }

  lemma LastOne(acks: seq<Record>, due: seq<bool>, oks: seq<bool>, msgs: seq<Handler>)
    requires |due| == |acks| == |oks| > 0
    ensures var n := |acks| - 1;
            && Kept(acks, due) == Kept(acks[..n], due[..n]) + (if due[n] && !IsQos(acks[n]) then [] else [acks[n]])
            && Resent(acks, due, oks)
               == Resent(acks[..n], due[..n], oks[..n]) + Sends(due[n] && IsQos(acks[n]) && oks[n], acks[n].payload)
            && (!(due[n] && Leaving(acks[n])) ==> Surviving(acks, due, msgs) == Surviving(acks[..n], due[..n], msgs))
  {}

  /** What the client holds at place i, repeated on a new connection. */
  lemma ResentAlone(s: Sys, i: nat) returns (u: Sys, scan: Move)
    requires i < |s.c.acks| && IsQos(s.c.acks[i])
    ensures Then(s, Connects, scan, u)
    ensures ForServer(u, s.c.acks[i].payload) && u == s.(c := u.c, toServer := u.toServer, toClient := u.toClient)
    ensures u.c.acks == s.c.acks
  {
    hide Kept, Resent, Surviving, IsQos;
    var n := |s.c.acks|;
    var due := Only(i, n);
    scan := ClientScans(1, due, seq(n, j => true));
    u := Step(Step(s, Connects), scan);
    assert Due(1, due) == due;
    OneDue(s.c.acks, due, scan.oks, s.c.msgs, i);
  }

  /** A PUBLISH is answered, and the client goes over to PUBREL. */
  lemma PublishGoesOn(u: Sys, id: nat, m: Publish) returns (t: Sys)
    requires ForServer(u, PublishBytes(m)) && GoodPublish(m) && About(m, id) && id < 65536
    requires TableOk(u.c) && !Exists(u.c.acks, PUBCOMP, id)
    ensures Then(u, ServerReads(true), READ, t) && t.clientAccepted == u.clientAccepted
    ensures ForServer(t, PubRel(id)) && Exists(t.c.acks, PUBCOMP, id)
  {
    hide Decode, PublishBytes, AckBytes, TableOk, Exists, AfterPubrec, NoteOf;
    var b := AckBytes(Codec.Ack(PUBREC, 0, id));
    DecodePublish(m);
    DecodeAck(Codec.Ack(PUBREC, 0, id));
    var v := Step(u, ServerReads(true));
    assert v.toClient == [b];
    PubrecExists(u.c, id, PUBCOMP, id);
    StaysConnected(u.c, id, b);
    NoteOfQos(v.toClient[0]);
    t := Step(v, READ);
    assert t.toServer == [PubRel(id)] && t.toClient == [];
  }

  /** PUBREL is answered, and with PUBCOMP the client is done. */
  lemma PubrelEnds(u: Sys, id: nat) returns (t: Sys)
    requires ForServer(u, PubRel(id)) && id < 65536 && TableOk(u.c) && !Exists(u.c.acks, PUBREC, id)
    ensures Then(u, ServerReads(true), READ, t) && t.clientAccepted == u.clientAccepted
    ensures !UnderWay(t.c.acks, id)
  {
    hide Decode, AckBytes, TableOk, Exists, Unrecord, NoteOf;
    DecodeAck(Codec.Ack(PUBREL, 0, id));
    DecodeAck(Codec.Ack(PUBCOMP, 0, id));
    var v := Step(u, ServerReads(true));
    assert v.toClient == [AckBytes(Codec.Ack(PUBCOMP, 0, id))];
    ExistsRemoved(u.c, PUBCOMP, id, PUBREC, id);
    ExistsRemoved(u.c, PUBCOMP, id, PUBCOMP, id);
    NoteOfQos(v.toClient[0]);
    t := Step(v, READ);
  }

  /** The record that holds a message, and what it would resend. */
  lemma HeldAt(s: Sys, id: nat) returns (i: nat)
    requires Inv(s) && UnderWay(s.c.acks, id)
    ensures i < |s.c.acks| && IsQos(s.c.acks[i]) && id < 65536
    ensures Exists(s.c.acks, PUBREC, id) ==>
      && !Exists(s.c.acks, PUBCOMP, id) && LastTold(s.clientAccepted, id).Some?
      && var m := LastTold(s.clientAccepted, id).value.(dup := 1);
         GoodPublish(m) && About(m, id) && s.c.acks[i].payload == PublishBytes(m)
    ensures !Exists(s.c.acks, PUBREC, id) ==> s.c.acks[i].payload == PubRel(id)
  {
    hide E.Inv, PublishBytes, AckBytes, LastTold;
    var kind := if Exists(s.c.acks, PUBREC, id) then PUBREC else PUBCOMP;
    i :| 0 <= i < |s.c.acks| && Is(s.c.acks[i], kind, id);
    MemberFacts(s, i);
    LastToldIs(s.clientAccepted, id);
    if kind == PUBREC {
      GoodDup(LastTold(s.clientAccepted, id).value);
    }
  }

  /** Likewise for the client's message: a few moves lead to the PUBCOMP that ends it, and then all that was
      accepted for that identifier has been passed on by the server, each message once. */
  lemma OutboundCompletes(s: Sys, id: nat) returns (moves: seq<Move>, t: Sys)
    requires Inv(s)
    ensures Leads(s, moves, t) && !UnderWay(t.c.acks, id) && t.clientAccepted == s.clientAccepted
    ensures Told(t.serverDelivered, id) == Told(s.clientAccepted, id)
  {
    hide Inv, Leads, Then, ForServer, E.Inv, Told, TableOk, GoodPublish, PublishBytes, AckBytes, Exists, LastTold,
      LastContent;
    NoMoves(s);
    moves, t := [], s;
    if UnderWay(s.c.acks, id) {
      var i := HeldAt(s, id);
      var u, scan := ResentAlone(s, i);
      moves := Appended(s, moves, s, Connects, scan, u);
      LeadsInv(s, moves, u);
      InvParts(u);
      if Exists(s.c.acks, PUBREC, id) {
        var v := PublishGoesOn(u, id, LastTold(s.clientAccepted, id).value.(dup := 1));
        moves := Appended(s, moves, u, ServerReads(true), READ, v);
        u := v;
        LeadsInv(s, moves, u);
        InvParts(u);
      }
      t := PubrelEnds(u, id);
      moves := Appended(s, moves, u, ServerReads(true), READ, t);
    }
    LeadsInv(s, moves, t);
    InvParts(t);
    E.InOrderOnce(OutLink(t, id));
  }
}
