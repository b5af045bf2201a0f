/** The subscription table over whole runs: a subscription is there from the SUBACK that grants it until its
    unsubscription is acknowledged or given up. */
module Subscriptions {
  import opened Bytes
  import opened Codec
  import opened Options
  import opened ClientSpec
  import opened ClientTable
  import opened QosSystem
  import opened QosSafety
  import opened QosStages
  import opened QosRecords
  import L = CodecLists
  import W = WireFormat

  /** The client reads a SUBACK for the request id, granted or refused; or an UNSUBACK. */
  ghost predicate ReadsSuback(s: Sys, mv: Move, id: nat, refused: bool) {
    Reads(s, mv) && NoteOf(s.toClient[0]) == Suback(id, refused)
  }

  ghost predicate ReadsUnsuback(s: Sys, mv: Move, id: nat) {
    Reads(s, mv) && NoteOf(s.toClient[0]) == Unsuback(id)
  }

  /** In bytes: a SUBACK with one code, which refuses when it is 0x80, and an UNSUBACK. */
  lemma NotesInBytes(h: byte, l: byte, code: byte, s: seq<byte>, u: seq<byte>)
    requires s == [0x90, 3, h, l, code] && u == [0xB0, 2, h, l]
    ensures NoteOf(s) == Suback(FromU16(h, l), code == 0x80) && NoteOf(u) == Unsuback(FromU16(h, l))
  {
    hide L.ParseSuback, ParseAck, FromU16;
    SubackCode(h, l, code, s);
    UnsubackId(h, l, u);
  }

  lemma SubackCode(h: byte, l: byte, code: byte, s: seq<byte>)
    requires s == [0x90, 3, h, l, code]
    ensures L.ParseSuback(s, 1) == L.Grants(Parsed(FromU16(h, l)), [code]) && HeaderKind(s[0]) == SUBACK
  {
    hide L.ParseSuback;
    W.SubackRead(h, l, code, s);
  }

  lemma UnsubackId(h: byte, l: byte, u: seq<byte>)
    requires u == [0xB0, 2, h, l]
    ensures ParseAck(u) == Parsed(Codec.Ack(UNSUBACK, 0, FromU16(h, l))) && HeaderKind(u[0]) == UNSUBACK
  {
    hide ParseAck;
    W.AckRead(u);
  }

  /** Reading an answer to a subscription that is on record takes the record away. Granted, the subscription is in the
      table, at the end unless its filter was there; refused, the table is as it was. */
  lemma SubackRead(s: Sys, mv: Move, r: Record, h: Handler, refused: bool)
    requires Inv(s) && Enabled(s, mv) && ReadsSuback(s, mv, r.id, refused)
    requires r in s.c.acks && r.kind == SUBACK && r.handler == Some(h)
    ensures var t := Step(s, mv).c;
            && (forall q :: q in t.acks <==> q in s.c.acks && q != r)
            && (refused ==> t.msgs == s.c.msgs)
            && OnPacket(s.c, Decode(s.toClient[0]), mv.ok, mv.note).rc == (if refused then SubscribeNotAck else Success)
            && (!refused ==> HasFilter(t.msgs, h.filter))
            && (!refused ==> t.msgs == if HasFilter(s.c.msgs, h.filter) then s.c.msgs else s.c.msgs + [h])
  {
    hide Inv, TableOk, Decode, NoteOf, Unrecord, Found;
    InvParts(s);
    NoteIsOther(s.toClient[0]);
    FoundMember(s.c.acks, r);
    UnrecordKeeps(s.c, SUBACK, r.id);
    OneOfKey(s.c, r);
    UnrecordMsgs(s.c, SUBACK, r.id);
    if !refused && !HasFilter(s.c.msgs, h.filter) {
      var t := Step(s, mv).c;
      assert t.msgs[|s.c.msgs|].filter == h.filter;
    }
  }

  lemma NoteIsOther(b: seq<byte>)
    requires NoteOf(b) != NoNote
    ensures Decode(b) == Other
  {
    hide ParsePublish, ParseAck, HeaderKind, L.ParseSuback;
  }

  lemma FoundMember(acks: seq<Record>, r: Record)
    requires Distinct(acks) && r in acks
    ensures Found(acks, r.kind, r.id) == r.handler
  {
    var i :| 0 <= i < |acks| && acks[i] == r;
    RemoveAt(acks, r.kind, r.id, i);
  }

  lemma OneOfKey(c: Client, r: Record)
    requires TableOk(c) && r in c.acks
    ensures Distinct(c.acks) && forall q :: q in c.acks && Is(q, r.kind, r.id) ==> q == r
  {
    var i :| 0 <= i < |c.acks| && c.acks[i] == r;
  }

  lemma UnrecordMsgs(c: Client, kind: nat, id: nat)
    ensures Unrecord(c, kind, id).msgs == c.msgs
  {
    hide Remove;
  }

  /** An answer to no request on record changes nothing. */
  lemma SubackUnasked(s: Sys, mv: Move, id: nat, refused: bool)
    requires Inv(s) && Enabled(s, mv) && ReadsSuback(s, mv, id, refused) && !Exists(s.c.acks, SUBACK, id)
    ensures Step(s, mv).c.acks == s.c.acks && Step(s, mv).c.msgs == s.c.msgs
    ensures OnPacket(s.c, Decode(s.toClient[0]), mv.ok, mv.note).rc == MemNotEnough
  {
    hide Inv, TableOk, Decode, NoteOf, Install;
    InvParts(s);
    NoteIsOther(s.toClient[0]);
    RemoveNone(s.c.acks, SUBACK, id);
  }

  /** Reading an UNSUBACK takes the record and its subscription away, and leaves the others. */
  lemma UnsubackRead(s: Sys, mv: Move, r: Record, h: Handler)
    requires Inv(s) && Enabled(s, mv) && ReadsUnsuback(s, mv, r.id)
    requires r in s.c.acks && r.kind == UNSUBACK && r.handler == Some(h)
    ensures var t := Step(s, mv).c;
            && (forall q :: q in t.acks <==> q in s.c.acks && q != r)
            && h in s.c.msgs && forall g :: g in t.msgs <==> g in s.c.msgs && g != h
  {
    hide Inv, TableOk, Decode, NoteOf, Unrecord, Found, WithoutFilter;
    InvParts(s);
    NoteIsOther(s.toClient[0]);
    FoundMember(s.c.acks, r);
    UnrecordKeeps(s.c, UNSUBACK, r.id);
    OneOfKey(s.c, r);
    UnrecordMsgs(s.c, UNSUBACK, r.id);
    LeavingMember(s.c, r, h);
    WithoutOne(s.c, h);
  }

  lemma LeavingMember(c: Client, r: Record, h: Handler)
    requires TableOk(c) && r in c.acks && r.kind == UNSUBACK && r.handler == Some(h)
    ensures h in c.msgs
  {
    var i :| 0 <= i < |c.acks| && c.acks[i] == r;
    assert Leaving(c.acks[i]);
  }

  lemma WithoutOne(c: Client, h: Handler)
    requires TableOk(c) && h in c.msgs
    ensures forall g :: g in WithoutFilter(c.msgs, h.filter) <==> g in c.msgs && g != h
  {
    hide WithoutFilter;
    WithoutMembers(c.msgs, h.filter);
    forall g | g in c.msgs && g.filter == h.filter ensures g == h {
      FilterIdentifies(c.msgs, g, h);
    }
  }

  // ---- no other way in or out ----

  /** A subscription enters the table only when a granting SUBACK is read for a request of it on record. */
  ghost predicate GrantedBy(s: Sys, mv: Move, h: Handler) {
    exists r :: r in s.c.acks && r.kind == SUBACK && r.handler == Some(h) && ReadsSuback(s, mv, r.id, false)
  }

  /** It leaves when the UNSUBACK of its unsubscription is read, or a scan gives that up as due. */
  ghost predicate EndedOrGivenUp(s: Sys, mv: Move, h: Handler) {
    exists r ::
      && r in s.c.acks && r.kind == UNSUBACK && r.handler == Some(h)
      && (ReadsUnsuback(s, mv, r.id) || GivesUp(s, mv, r))
  }

  ghost predicate GivesUp(s: Sys, mv: Move, r: Record) {
    && mv.ClientScans? && s.c.state == Connected && |mv.expired| == |s.c.acks|
    && exists i :: 0 <= i < |s.c.acks| && s.c.acks[i] == r && (mv.expired[i] || mv.flag != 1)
  }

  lemma EntersGranted(s: Sys, mv: Move, h: Handler)
    requires Inv(s) && Enabled(s, mv) && h !in s.c.msgs && h in Step(s, mv).c.msgs
    ensures GrantedBy(s, mv, h)
  {
    hide Inv, TableOk, UserPublish, UserSubscribe, UserUnsubscribe, OnPacket, Scan, ServerReceives, Decode, NoteOf,
      GoodRequest, Found;
    InvParts(s);
    match mv
    case AppPublish(m, ok) => MsgsStay(s.c, m, Handler([], 0, 0), [], ok);
    case AppSubscribe(g, ok) => MsgsStay(s.c, Publish(0, 0, 0, 0, [], []), g, [], ok);
    case AppUnsubscribe(filter, ok) => MsgsStay(s.c, Publish(0, 0, 0, 0, [], []), Handler([], 0, 0), filter, ok);
    case ClientReads(ok, note) =>
      if s.c.state == Connected {
        EntersByNote(s, mv, h);
      } else {
        NotConnectedReads(s.c, Decode(s.toClient[0]), ok, note);
      }
    case ClientScans(flag, expired, oks) => ScanTakes(s.c, flag, expired, oks, h);
    case ServerReads(put) => ServerLeavesClient(s.(toServer := s.toServer[1..]), Decode(s.toServer[0]), put);
    case _ =>
  }

  lemma MsgsStay(c: Client, m: Publish, h: Handler, filter: seq<byte>, ok: bool)
    ensures UserPublish(c, m, ok).0.c.msgs == c.msgs && UserSubscribe(c, h, ok).c.msgs == c.msgs
    ensures UserUnsubscribe(c, filter, ok).c.msgs == c.msgs
  {
    hide SetDup, PublishBytes, Exists, Fits, L.SubscribeBytes, L.UnsubscribeBytes, Lookup, NextId, PublishLength,
      L.FiltersBytes, L.TopicsBytes;
  }

  lemma PacketMsgs(c: Client, p: Packet, ok: bool, note: Note)
    requires note.Unsuback? && c.state == Connected ==> Found(c.acks, UNSUBACK, note.id).Some?
    ensures !p.Other? || note.NoNote? ==> OnPacket(c, p, ok, note).c.msgs == c.msgs
  {
    hide AckBytes, Exists, Remove, Lookup, Found, Install, WithoutFilter;
  }

  lemma EntersByNote(s: Sys, mv: Move, h: Handler)
    requires Inv(s) && Enabled(s, mv) && Reads(s, mv) && h !in s.c.msgs && h in Step(s, mv).c.msgs
    ensures GrantedBy(s, mv, h)
  {
    hide Inv, TableOk, OnPacket, Decode, NoteOf, Found, Exists;
    InvParts(s);
    PacketMsgs(s.c, Decode(s.toClient[0]), mv.ok, mv.note);
    match mv.note
    case Suback(id, refused) =>
      if r :| r in s.c.acks && Is(r, SUBACK, id) {
        HandlerThere(s.c, r);
        SubackRead(s, mv, r, r.handler.value, refused);
      } else {
        ExistsMember(s.c.acks, SUBACK, id);
        SubackUnasked(s, mv, id, refused);
      }
    case Unsuback(id) =>
      var r := UnsubackRecord(s, mv, id);
      UnsubackRead(s, mv, r, r.handler.value);
    case NoNote =>
  }

  lemma HandlerThere(c: Client, r: Record)
    requires TableOk(c) && r in c.acks
    ensures r.kind in {SUBACK, UNSUBACK} <==> r.handler.Some?
  {
    var i :| 0 <= i < |c.acks| && c.acks[i] == r;
    assert RecordOk(c.acks[i]);
  }

  lemma UnsubackRecord(s: Sys, mv: Move, id: nat) returns (r: Record)
    requires Inv(s) && Enabled(s, mv) && ReadsUnsuback(s, mv, id)
    ensures r in s.c.acks && Is(r, UNSUBACK, id) && r.handler.Some?
  {
    hide Inv, TableOk, Decode, NoteOf, Found;
    InvParts(s);
    if q :| q in s.c.acks && Is(q, UNSUBACK, id) {
      r := q;
      HandlerThere(s.c, r);
    } else {
      ExistsMember(s.c.acks, UNSUBACK, id);
      RemoveNone(s.c.acks, UNSUBACK, id);
      assert false;
    }
  }

  ghost predicate TakenBy(c: Client, flag: nat, expired: seq<bool>, h: Handler)
    requires |expired| == |c.acks|
  {
    c.state == Connected && exists i :: 0 <= i < |c.acks| && Leaves(c.acks[i], h) && (expired[i] || flag != 1)
  }

  /** A scan takes away exactly the subscriptions whose unsubscription it gives up. */
  lemma ScanTakes(c: Client, flag: nat, expired: seq<bool>, oks: seq<bool>, h: Handler)
    requires TableOk(c) && |expired| == |c.acks| == |oks|
    ensures h in Scan(c, flag, expired, oks).c.msgs <==> h in c.msgs && !TakenBy(c, flag, expired, h)
  {
    hide Kept, Resent, Surviving, Owned;
    if c.state == Connected {
      HandlersOwned(c, c.acks);
      SurvivingMembers(c, c.acks, Due(flag, expired), h);
    }
  }

  predicate Leaves(r: Record, h: Handler) { r.kind == UNSUBACK && r.handler == Some(h) }

  ghost predicate Referring(acks: seq<Record>, msgs: seq<Handler>) {
    forall i :: 0 <= i < |acks| && Leaving(acks[i]) ==> acks[i].handler.value in msgs
  }

  lemma HandlersOwned(c: Client, acks: seq<Record>)
    requires TableOk(c) && acks == c.acks
    ensures Referring(acks, c.msgs)
  {}

  lemma {:induction false} SurvivingMembers(c: Client, acks: seq<Record>, due: seq<bool>, h: Handler)
    requires DistinctFilters(c.msgs) && |due| == |acks| && Referring(acks, c.msgs)
    ensures DistinctFilters(Surviving(acks, due, c.msgs))
    ensures forall g :: g in Surviving(acks, due, c.msgs) ==> g in c.msgs
    ensures h in Surviving(acks, due, c.msgs) <==>
      h in c.msgs && !(exists i :: 0 <= i < |acks| && Leaves(acks[i], h) && due[i])
    decreases |acks|
  {
    hide WithoutFilter, DistinctFilters;
    if acks != [] {
      var n := |acks| - 1;
      var front := acks[..n];
      assert forall i :: 0 <= i < n ==> front[i] == acks[i] && due[..n][i] == due[i];
      SurvivingMembers(c, front, due[..n], h);
      var rest := Surviving(front, due[..n], c.msgs);
      if due[n] && Leaving(acks[n]) {
        var g := acks[n].handler.value;
        WithoutMembers(rest, g.filter);
        if h in c.msgs && h.filter == g.filter {
          FilterIdentifies(c.msgs, h, g);
        }
      }
    }
  }

  lemma LeavesEnded(s: Sys, mv: Move, h: Handler)
    requires Inv(s) && Enabled(s, mv) && h in s.c.msgs
    ensures h !in Step(s, mv).c.msgs <==> EndedOrGivenUp(s, mv, h)
  {
    hide Inv, Enabled, Step, EndedOrGivenUp;
    if Reads(s, mv) {
      LeavesByNote(s, mv, h);
    } else if mv.ClientScans? {
      LeavesByScan(s, mv, h);
    } else {
      OthersStay(s, mv, h);
    }
  }

  lemma LeavesByScan(s: Sys, mv: Move, h: Handler)
    requires Inv(s) && Enabled(s, mv) && mv.ClientScans? && h in s.c.msgs
    ensures h !in Step(s, mv).c.msgs <==> EndedOrGivenUp(s, mv, h)
  {
    hide Inv, TableOk, Scan;
    InvParts(s);
    ScanTakes(s.c, mv.flag, mv.expired, mv.oks, h);
    if TakenBy(s.c, mv.flag, mv.expired, h) {
      var i :| 0 <= i < |s.c.acks| && Leaves(s.c.acks[i], h) && (mv.expired[i] || mv.flag != 1);
      assert GivesUp(s, mv, s.c.acks[i]);
    }
  }

  lemma OthersStay(s: Sys, mv: Move, h: Handler)
    requires Enabled(s, mv) && !Reads(s, mv) && !mv.ClientScans? && h in s.c.msgs
    ensures h in Step(s, mv).c.msgs && !EndedOrGivenUp(s, mv, h)
  {
    hide UserPublish, UserSubscribe, UserUnsubscribe, OnPacket, ServerReceives, Decode, NoteOf, GoodRequest, Found,
      EndedOrGivenUp;
    NothingEnds(s, mv, h);
    match mv
    case AppPublish(m, ok) => MsgsStay(s.c, m, Handler([], 0, 0), [], ok);
    case AppSubscribe(g, ok) => MsgsStay(s.c, Publish(0, 0, 0, 0, [], []), g, [], ok);
    case AppUnsubscribe(filter, ok) => MsgsStay(s.c, Publish(0, 0, 0, 0, [], []), Handler([], 0, 0), filter, ok);
    case ClientReads(ok, note) => NotConnectedReads(s.c, Decode(s.toClient[0]), ok, note);
    case ServerReads(put) => ServerLeavesClient(s.(toServer := s.toServer[1..]), Decode(s.toServer[0]), put);
    case _ =>
  }

  lemma NothingEnds(s: Sys, mv: Move, h: Handler)
    requires !Reads(s, mv) && !mv.ClientScans?
    ensures !EndedOrGivenUp(s, mv, h)
  {
    hide NoteOf;
  }

  lemma LeavesByNote(s: Sys, mv: Move, h: Handler)
    requires Inv(s) && Enabled(s, mv) && Reads(s, mv) && h in s.c.msgs
    ensures h !in Step(s, mv).c.msgs <==> EndedOrGivenUp(s, mv, h)
  {
    hide Inv, TableOk, OnPacket, Decode, NoteOf, Found, Exists;
    InvParts(s);
    PacketMsgs(s.c, Decode(s.toClient[0]), mv.ok, mv.note);
    match mv.note
    case Suback(id, refused) =>
      if r :| r in s.c.acks && Is(r, SUBACK, id) {
        HandlerThere(s.c, r);
        SubackRead(s, mv, r, r.handler.value, refused);
      } else {
        ExistsMember(s.c.acks, SUBACK, id);
        SubackUnasked(s, mv, id, refused);
      }
    case Unsuback(id) =>
      var r := UnsubackRecord(s, mv, id);
      UnsubackRead(s, mv, r, r.handler.value);
      OneOfKey(s.c, r);
    case NoNote =>
  }

  // ---- over whole runs ----

  /** In step i the application asked for h, the request went out under r.id, and up to state k the record r has been
      there. */
  ghost predicate Asked(us: seq<Sys>, moves: seq<Move>, i: nat, k: nat, r: Record, h: Handler)
    requires |us| == |moves| + 1 && k <= |moves|
  {
    && i < k && moves[i] == AppSubscribe(h, true) && r.kind == SUBACK && r.id == us[i + 1].c.packetId
    && us[i + 1].toServer == us[i].toServer + [L.SubscribeBytes(0, r.id, [L.Filter(h.filter, h.qos)])]
    && forall j :: i < j <= k ==> r in us[j].c.acks
  }

  /** A record that waits for a SUBACK was made by a request for its subscription. */
  lemma {:induction false} RecordAsked(us: seq<Sys>, moves: seq<Move>, k: nat, r: Record, h: Handler) returns (i: nat)
    requires Path(us, moves) && k <= |moves| && r in us[k].c.acks && r.kind == SUBACK && r.handler == Some(h)
    ensures Asked(us, moves, i, k, r, h)
    decreases k
  {
    hide Enabled, Step, MadeBy, L.SubscribeBytes;
    NothingRecorded(us[0]);
    PathInv(us, moves, k - 1);
    var s, mv := us[k - 1], moves[k - 1];
    if r in s.c.acks {
      i := RecordAsked(us, moves, k - 1, r, h);
    } else {
      RecordEnters(s, mv, r);
      SubscribeMakes(s, mv, r, h);
      i := k - 1;
    }
  }

  lemma NothingRecorded(s: Sys)
    requires Start(s)
    ensures s.c.acks == [] && s.c.msgs == []
  {}

  lemma SubscribeMakes(s: Sys, mv: Move, r: Record, h: Handler)
    requires Enabled(s, mv) && MadeBy(s, mv, r) && r.kind == SUBACK && r.handler == Some(h)
    requires r !in s.c.acks && r in Step(s, mv).c.acks
    ensures mv == AppSubscribe(h, true) && Step(s, mv).c.packetId == r.id
    ensures Step(s, mv).toServer == s.toServer + [L.SubscribeBytes(0, r.id, [L.Filter(h.filter, h.qos)])]
  {
    hide L.SubscribeBytes, NextId, UserSubscribe, PublishBytes, Decode, Lookup, Pubrec, Pubrel, Exists, GoodRequest;
    var id := NextId(s.c.packetId);
    SubscribeEffect(s.c, h, true, id, L.SubscribeBytes(0, id, [L.Filter(h.filter, h.qos)]));
    SubscribeCounts(s.c, h, true);
  }

  lemma SubscribeCounts(c: Client, h: Handler, ok: bool)
    ensures UserSubscribe(c, h, ok).sent != [] ==> UserSubscribe(c, h, ok).c.packetId == NextId(c.packetId)
  {
    hide L.SubscribeBytes, NextId, Exists, Fits;
  }

  /** Asked for in step i, granted in step k, and in the table since. */
  ghost predicate Granted(us: seq<Sys>, moves: seq<Move>, i: nat, k: nat, n: nat, r: Record, h: Handler)
    requires |us| == |moves| + 1 && n <= |moves|
  {
    && k < n && Asked(us, moves, i, k, r, h) && ReadsSuback(us[k], moves[k], r.id, false)
    && forall j :: k < j <= n ==> h in us[j].c.msgs
  }

  /** Every subscription in the table was asked for, its request sent, and granted by a SUBACK with the identifier of
      that request; and it has been in the table since. */
  lemma {:induction false} SubscribedByGrant(us: seq<Sys>, moves: seq<Move>, n: nat, h: Handler)
    returns (i: nat, k: nat, r: Record)
    requires Path(us, moves) && n <= |moves| && h in us[n].c.msgs
    ensures Granted(us, moves, i, k, n, r, h)
    decreases n
  {
    hide Enabled, Step, Asked, ReadsSuback;
    NothingRecorded(us[0]);
    PathInv(us, moves, n - 1);
    var s, mv := us[n - 1], moves[n - 1];
    if h in s.c.msgs {
      i, k, r := SubscribedByGrant(us, moves, n - 1, h);
    } else {
      EntersGranted(s, mv, h);
      k := n - 1;
      r :| r in s.c.acks && r.kind == SUBACK && r.handler == Some(h) && ReadsSuback(s, mv, r.id, false);
      i := RecordAsked(us, moves, k, r, h);
    }
  }

  /** And it stays until its unsubscription is acknowledged or given up. */
  lemma {:induction false} StaysSubscribed(us: seq<Sys>, moves: seq<Move>, n: nat, k: nat, h: Handler)
    requires Path(us, moves) && n <= k <= |moves| && h in us[n].c.msgs
    requires forall j :: n <= j < k ==> !EndedOrGivenUp(us[j], moves[j], h)
    ensures h in us[k].c.msgs
    decreases k
  {
    hide Enabled, Step, EndedOrGivenUp;
    if k > n {
      StaysSubscribed(us, moves, n, k - 1, h);
      PathInv(us, moves, k - 1);
      LeavesEnded(us[k - 1], moves[k - 1], h);
    }
  }
}
