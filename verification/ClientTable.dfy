/** What every operation of the client keeps of its tables. */
module ClientTable {
  import opened Bytes
  import opened Codec
  import opened Options
  import opened ClientSpec
  import L = CodecLists

  predicate RecordOk(r: Record) {
    && r.kind in {PUBACK, PUBREC, PUBREL, PUBCOMP, SUBACK, UNSUBACK} && r.id < 65536 && |r.payload| < 65536
    && (r.handler.Some? <==> r.kind in {SUBACK, UNSUBACK})
  }

  ghost predicate RecordsOk(acks: seq<Record>) { forall i :: 0 <= i < |acks| ==> RecordOk(acks[i]) }

  predicate SameKey(r: Record, q: Record) { r.kind == q.kind && r.id == q.id }

  ghost predicate Distinct(acks: seq<Record>) {
    forall i, j :: 0 <= i < j < |acks| ==> !SameKey(acks[i], acks[j])
  }

  ghost predicate DistinctFilters(msgs: seq<Handler>) {
    forall i, j :: 0 <= i < j < |msgs| ==> msgs[i].filter != msgs[j].filter
  }

  /** Each pending unsubscription refers to an installed subscription, and no two to the same. */
  ghost predicate Owned(acks: seq<Record>, msgs: seq<Handler>) {
    && (forall i :: 0 <= i < |acks| && Leaving(acks[i]) ==> acks[i].handler.value in msgs)
    && (forall i, j :: 0 <= i < j < |acks| && Leaving(acks[i]) && Leaving(acks[j]) ==>
          acks[i].handler != acks[j].handler)
  }

  predicate Leaving(r: Record) { r.kind == UNSUBACK && r.handler.Some? }

  /** The invariant: the keys are distinct, the counter is the length of the list, filters are distinct, and
      the handlers that records point to exist and have one owner each. */
  ghost predicate TableOk(c: Client) {
    && RecordsOk(c.acks) && Distinct(c.acks) && c.number == |c.acks|
    && DistinctFilters(c.msgs) && Owned(c.acks, c.msgs)
    && c.packetId <= MAX_ID && 4 <= c.bufSize <= MAX_REMAINING
  }

  // ---- the counter cannot overflow ----

  function KeyCode(r: Record): nat { r.kind * 65536 + r.id }

  lemma {:induction false} Pigeonhole(s: set<nat>, n: nat)
    requires forall x :: x in s ==> x < n
    ensures |s| <= n
    decreases n
  {
    if n > 0 {
      var t := s - {n - 1};
      assert forall x :: x in t ==> x < n - 1;
      Pigeonhole(t, n - 1);
      assert s == t || s == t + {n - 1};
    } else {
      assert s == {};
    }
  }

  ghost function Codes(acks: seq<Record>): set<nat> {
    if acks == [] then {} else Codes(acks[..|acks| - 1]) + {KeyCode(acks[|acks| - 1])}
  }

  lemma {:induction false} CodesMiss(acks: seq<Record>, r: Record)
    requires RecordsOk(acks) && RecordOk(r) && forall i :: 0 <= i < |acks| ==> !SameKey(acks[i], r)
    ensures KeyCode(r) !in Codes(acks)
  {
    if acks != [] {
      CodesMiss(acks[..|acks| - 1], r);
      assert !SameKey(acks[|acks| - 1], r);
    }
  }

  lemma {:induction false} CodesCount(acks: seq<Record>)
    requires RecordsOk(acks) && Distinct(acks)
    ensures |Codes(acks)| == |acks| && forall x :: x in Codes(acks) ==> x < 12 * 65536
  {
    if acks != [] {
      var n := |acks| - 1;
      CodesCount(acks[..n]);
      CodesMiss(acks[..n], acks[n]);
      assert RecordOk(acks[n]);
    }
  }

  /** With distinct keys the 24-bit counter has room for every record the table can ever hold. */
  lemma CounterFits(acks: seq<Record>)
    requires RecordsOk(acks) && Distinct(acks)
    ensures |acks| + 1 < NUMBER_RANGE
  {
    CodesCount(acks);
    Pigeonhole(Codes(acks), 12 * 65536);
  }

  // ---- recording ----

  lemma RecordKeeps(c: Client, kind: nat, id: nat, b: seq<byte>, h: Option<Handler>)
    requires TableOk(c) && kind in {PUBACK, PUBREC, PUBREL, PUBCOMP, SUBACK, UNSUBACK} && id < 65536
    requires h.Some? <==> kind in {SUBACK, UNSUBACK}
    requires kind == UNSUBACK ==> h.value in c.msgs
    requires kind == UNSUBACK ==> forall i :: 0 <= i < |c.acks| && Leaving(c.acks[i]) ==> c.acks[i].handler != h
    ensures TableOk(RecordAck(c, kind, id, b, h).0)
  {
    CounterFits(c.acks);
    var r := Record(kind, id, b[..|b| % 65536], h);
    assert RecordOk(r);
  }

  // ---- removing ----

  /** In a table with distinct keys the record is cut out of its place. */
  lemma {:induction false} RemoveAt(acks: seq<Record>, kind: nat, id: nat, i: nat)
    requires Distinct(acks) && i < |acks| && Is(acks[i], kind, id)
    ensures Remove(acks, kind, id) == acks[..i] + acks[i + 1..] && Found(acks, kind, id) == acks[i].handler
  {
    var n := |acks| - 1;
    var front := acks[..n];
    if i == n {
      OnlyLast(acks, kind, id);
      RemoveNone(front, kind, id);
      assert front + [] == front && acks[n + 1..] == [];
    } else {
      assert !SameKey(acks[i], acks[n]);
      RemoveAt(front, kind, id, i);
      CutFront(acks, i);
    }
  }

  lemma OnlyLast(acks: seq<Record>, kind: nat, id: nat)
    requires Distinct(acks) && acks != [] && Is(acks[|acks| - 1], kind, id)
    ensures !Exists(acks[..|acks| - 1], kind, id)
  {
    var n := |acks| - 1;
    forall k | 0 <= k < n ensures !Is(acks[..n][k], kind, id) {
      assert !SameKey(acks[k], acks[n]);
    }
  }

  lemma CutFront(acks: seq<Record>, i: nat)
    requires i < |acks| - 1
    ensures var n := |acks| - 1; (acks[..n][..i] + acks[..n][i + 1..]) + [acks[n]] == acks[..i] + acks[i + 1..]
  {}

  lemma {:induction false} RemoveNone(acks: seq<Record>, kind: nat, id: nat)
    requires !Exists(acks, kind, id)
    ensures Remove(acks, kind, id) == acks && Found(acks, kind, id) == None
  {
    if acks != [] {
      var n := |acks| - 1;
      assert !Is(acks[n], kind, id);
      forall i | 0 <= i < n ensures !Is(acks[..n][i], kind, id) { assert acks[..n][i] == acks[i]; }
      RemoveNone(acks[..n], kind, id);
    }
  }

  lemma CutKeeps(c: Client, i: nat)
    requires TableOk(c) && i < |c.acks|
    ensures TableOk(c.(acks := c.acks[..i] + c.acks[i + 1..], number := |c.acks| - 1))
  {
    var t := c.acks[..i] + c.acks[i + 1..];
    assert forall k :: 0 <= k < |t| ==> t[k] == c.acks[if k < i then k else k + 1];
  }

  lemma UnrecordKeeps(c: Client, kind: nat, id: nat)
    requires TableOk(c)
    ensures TableOk(Unrecord(c, kind, id)) && !Exists(Unrecord(c, kind, id).acks, kind, id)
    ensures forall r :: r in Unrecord(c, kind, id).acks <==> r in c.acks && !Is(r, kind, id)
  {
    if i :| 0 <= i < |c.acks| && Is(c.acks[i], kind, id) {
      RemoveAt(c.acks, kind, id, i);
      CutKeeps(c, i);
      CutMembers(c.acks, i);
    } else {
      RemoveNone(c.acks, kind, id);
    }
  }

  lemma CutMembers(acks: seq<Record>, i: nat)
    requires Distinct(acks) && i < |acks|
    ensures forall r :: r in acks[..i] + acks[i + 1..] <==> r in acks && !SameKey(r, acks[i])
  {
    var t := acks[..i] + acks[i + 1..];
    assert forall k :: 0 <= k < |t| ==> t[k] == acks[if k < i then k else k + 1];
    forall r | r in acks && !SameKey(r, acks[i]) ensures r in t {
      var k :| 0 <= k < |acks| && acks[k] == r;
      assert t[if k < i then k else k - 1] == r;
    }
  }

  // ---- the subscription table ----

  lemma {:induction false} WithoutMembers(msgs: seq<Handler>, filter: seq<byte>)
    requires DistinctFilters(msgs)
    ensures DistinctFilters(WithoutFilter(msgs, filter))
    ensures forall h :: h in WithoutFilter(msgs, filter) <==> h in msgs && h.filter != filter
  {
    if msgs != [] {
      var n := |msgs| - 1;
      WithoutMembers(msgs[..n], filter);
      var rest := WithoutFilter(msgs[..n], filter);
      assert forall h :: h in msgs <==> h in msgs[..n] || h == msgs[n];
      forall k | 0 <= k < |rest| ensures rest[k].filter != msgs[n].filter {
        assert rest[k] in msgs[..n];
      }
    }
  }

  lemma FilterIdentifies(msgs: seq<Handler>, g: Handler, h: Handler)
    requires DistinctFilters(msgs) && g in msgs && h in msgs && g.filter == h.filter
    ensures g == h
  {
    var i :| 0 <= i < |msgs| && msgs[i] == g;
    var j :| 0 <= j < |msgs| && msgs[j] == h;
  }

  /** Giving up the i-th record, an unsubscription, together with its subscription. */
  lemma LeaveKeeps(c: Client, i: nat)
    requires TableOk(c) && i < |c.acks| && Leaving(c.acks[i])
    ensures TableOk(c.(acks := c.acks[..i] + c.acks[i + 1..], number := |c.acks| - 1,
                       msgs := WithoutFilter(c.msgs, c.acks[i].handler.value.filter)))
  {
    var t := c.acks[..i] + c.acks[i + 1..];
    var h := c.acks[i].handler.value;
    CutKeeps(c, i);
    WithoutMembers(c.msgs, h.filter);
    forall k | 0 <= k < |t| && Leaving(t[k]) ensures t[k].handler.value in WithoutFilter(c.msgs, h.filter) {
      var j := if k < i then k else k + 1;
      assert t[k] == c.acks[j];
      if t[k].handler.value.filter == h.filter { FilterIdentifies(c.msgs, t[k].handler.value, h); }
    }
  }

  lemma InstallKeeps(c: Client, h: Handler)
    requires TableOk(c)
    ensures TableOk(Install(c, h))
  {}

  lemma Renumbered(c: Client, n: nat)
    requires TableOk(c) && n <= MAX_ID
    ensures TableOk(c.(packetId := n))
  {}

  // ---- every operation ----

  /** Publishing, subscribing and unsubscribing. */
  lemma PublishKeeps(c: Client, m: Publish, ok: bool)
    requires TableOk(c)
    ensures TableOk(UserPublish(c, m, ok).0.c)
  {
    hide TableOk, RecordAck, PublishBytes, AckBytes, L.SubscribeBytes, L.UnsubscribeBytes, Lookup, Fits,
      PublishLength, SetDup, L.FiltersBytes, L.TopicsBytes;
    var c1 := c.(packetId := NextId(c.packetId));
    NextIdRange(c);
    Renumbered(c, NextId(c.packetId));
    StateKeeps(c, Disconnected);
    if m.qos == 1 || m.qos == 2 {
      var m1 := m.(id := c1.packetId);
      RecordKeeps(c1, if m.qos == 1 then PUBACK else PUBREC, c1.packetId, SetDup(PublishBytes(m1)), None);
    }
  }

  lemma NextIdRange(c: Client)
    requires TableOk(c)
    ensures 1 <= NextId(c.packetId) <= 65534
  {}

  lemma StateKeeps(c: Client, s: State)
    requires TableOk(c)
    ensures TableOk(c.(state := s))
  {}

  lemma SubscribeKeeps(c: Client, h: Handler, ok: bool)
    requires TableOk(c)
    ensures TableOk(UserSubscribe(c, h, ok).c)
  {
    hide TableOk, RecordAck, PublishBytes, AckBytes, L.SubscribeBytes, L.UnsubscribeBytes, Lookup, Fits,
      PublishLength, SetDup, L.FiltersBytes, L.TopicsBytes;
    NextIdRange(c);
    Renumbered(c, NextId(c.packetId));
    var c1 := c.(packetId := NextId(c.packetId));
    RecordKeeps(c1, SUBACK, c1.packetId, L.SubscribeBytes(0, c1.packetId, [L.Filter(h.filter, h.qos)]), Some(h));
  }

  /** No unsubscription of that handler is pending. */
  ghost predicate NotLeaving(c: Client, h: Option<Handler>) {
    forall i :: 0 <= i < |c.acks| && Leaving(c.acks[i]) ==> c.acks[i].handler != h
  }

  lemma UnsubscribeKeeps(c: Client, filter: seq<byte>, ok: bool)
    requires TableOk(c) && NotLeaving(c, Lookup(c.msgs, filter, []))
    ensures TableOk(UserUnsubscribe(c, filter, ok).c)
  {
    hide TableOk, RecordAck, PublishBytes, AckBytes, L.SubscribeBytes, L.UnsubscribeBytes, Lookup, Fits,
      PublishLength, SetDup, L.FiltersBytes, L.TopicsBytes;
    NextIdRange(c);
    Renumbered(c, NextId(c.packetId));
    var c1 := c.(packetId := NextId(c.packetId));
    var h := Lookup(c.msgs, filter, []);
    if h.Some? {
      RecordKeeps(c1, UNSUBACK, c1.packetId, L.UnsubscribeBytes(0, c1.packetId, [filter]), h);
    }
  }

  lemma OnPublishKeeps(c: Client, m: Publish, ok: bool)
    requires TableOk(c) && m.id < 65536
    ensures TableOk(OnPublish(c, m, ok).c)
  {
    hide TableOk, RecordAck, PublishBytes, AckBytes, L.SubscribeBytes, L.UnsubscribeBytes, Lookup, Fits,
      PublishLength, SetDup, L.FiltersBytes, L.TopicsBytes;
    RecordKeeps(c, PUBREL, m.id, AckBytes(Codec.Ack(PUBREC, 0, m.id)), None);
  }

  lemma OnPubrecPubrelKeeps(c: Client, kind: nat, id: nat, ok: bool)
    requires TableOk(c) && id < 65536
    ensures TableOk(OnPubrecPubrel(c, kind, id, ok).c)
  {
    hide TableOk, RecordAck, Unrecord, AckBytes;
    RecordKeeps(c, PUBCOMP, id, AckBytes(Codec.Ack(PUBREL, 0, id)), None);
    var c1 := RecordAck(c, PUBCOMP, id, AckBytes(Codec.Ack(PUBREL, 0, id)), None).0;
    UnrecordKeeps(c1, PUBREC, id);
    UnrecordKeeps(c, kind, id);
  }

  lemma OnPubackPubcompKeeps(c: Client, kind: nat, id: nat)
    requires TableOk(c)
    ensures TableOk(OnPubackPubcomp(c, kind, id).c)
  {
    hide TableOk, Unrecord;
    UnrecordKeeps(c, kind, id);
  }

  lemma OnSubackKeeps(c: Client, id: nat, nack: bool)
    requires TableOk(c)
    ensures TableOk(OnSuback(c, id, nack).c)
  {
    hide TableOk, Unrecord, Install;
    UnrecordKeeps(c, SUBACK, id);
    match Found(c.acks, SUBACK, id)
    case None =>
    case Some(h) => InstallKeeps(Unrecord(c, SUBACK, id), h);
  }

  lemma OnUnsubackKeeps(c: Client, id: nat)
    requires TableOk(c) && (c.state == Connected ==> Found(c.acks, UNSUBACK, id).Some?)
    ensures TableOk(OnUnsuback(c, id).c)
  {
    if c.state == Connected {
      if i :| 0 <= i < |c.acks| && Is(c.acks[i], UNSUBACK, id) {
        RemoveAt(c.acks, UNSUBACK, id, i);
        LeaveKeeps(c, i);
      } else {
        RemoveNone(c.acks, UNSUBACK, id);
      }
    }
  }

  // ---- the scan ----

  /** The table after the first n records have been looked at. */
  ghost function Passed(c: Client, due: seq<bool>, n: nat): Client
    requires |due| == |c.acks| && n <= |c.acks|
  {
    var kept := Kept(c.acks[..n], due[..n]);
    c.(acks := kept + c.acks[n..], number := |kept| + |c.acks| - n, msgs := Surviving(c.acks[..n], due[..n], c.msgs))
  }

  lemma TakeOneMore(acks: seq<Record>, due: seq<bool>, oks: seq<bool>, msgs: seq<Handler>, n: nat)
    requires |due| == |acks| == |oks| && n < |acks|
    ensures Kept(acks[..n + 1], due[..n + 1]) ==
      Kept(acks[..n], due[..n]) + if due[n] && !IsQos(acks[n]) then [] else [acks[n]]
    ensures Surviving(acks[..n + 1], due[..n + 1], msgs) ==
      var rest := Surviving(acks[..n], due[..n], msgs);
      if due[n] && Leaving(acks[n]) then WithoutFilter(rest, acks[n].handler.value.filter) else rest
    ensures Resent(acks[..n + 1], due[..n + 1], oks[..n + 1]) ==
      Resent(acks[..n], due[..n], oks[..n]) + Sends(due[n] && IsQos(acks[n]) && oks[n], acks[n].payload)
  {
    assert acks[..n + 1][..n] == acks[..n] && due[..n + 1][..n] == due[..n] && oks[..n + 1][..n] == oks[..n];
  }

  lemma PassOne(c: Client, due: seq<bool>, n: nat)
    requires |due| == |c.acks| && n < |c.acks|
    ensures var p, q, k := Passed(c, due, n), Passed(c, due, n + 1), |Kept(c.acks[..n], due[..n])|;
            && p.state == q.state && p.packetId == q.packetId && p.bufSize == q.bufSize
            && k < |p.acks| && p.acks[k] == c.acks[n] && q.number == |q.acks| && p.number == |p.acks|
            && q.acks == (if due[n] && !IsQos(c.acks[n]) then p.acks[..k] + p.acks[k + 1..] else p.acks)
            && q.msgs == if due[n] && Leaving(c.acks[n])
                         then WithoutFilter(p.msgs, c.acks[n].handler.value.filter) else p.msgs
  {
    hide IsQos, Leaving, WithoutFilter, Kept, Surviving, Resent;
    TakeOneMore(c.acks, due, due, c.msgs, n);
    var kept := Kept(c.acks[..n], due[..n]);
    assert c.acks[n..] == [c.acks[n]] + c.acks[n + 1..];
    assert kept + ([c.acks[n]] + c.acks[n + 1..]) == (kept + [c.acks[n]]) + c.acks[n + 1..];
  }

  lemma {:induction false} PassedKeeps(c: Client, due: seq<bool>, n: nat)
    requires |due| == |c.acks| && n <= |c.acks| && TableOk(c)
    ensures TableOk(Passed(c, due, n))
  {
    hide TableOk, Passed, Kept, Surviving, WithoutFilter;
    if n == 0 {
      PassedNone(c, due);
    } else {
      PassedKeeps(c, due, n - 1);
      PassOne(c, due, n - 1);
      var p, k := Passed(c, due, n - 1), |Kept(c.acks[..n - 1], due[..n - 1])|;
      var q := p;
      if due[n - 1] && !IsQos(c.acks[n - 1]) {
        q := p.(acks := p.acks[..k] + p.acks[k + 1..], number := |p.acks| - 1);
        if Leaving(p.acks[k]) {
          LeaveKeeps(p, k);
          q := q.(msgs := WithoutFilter(p.msgs, p.acks[k].handler.value.filter));
        } else {
          CutKeeps(p, k);
        }
      }
      SameParts(q, Passed(c, due, n));
    }
  }

  lemma SameParts(p: Client, q: Client)
    requires p.acks == q.acks && p.msgs == q.msgs && p.number == |p.acks| && q.number == |q.acks|
    requires p.state == q.state && p.packetId == q.packetId && p.bufSize == q.bufSize
    ensures p == q
  {}

  lemma PassedNone(c: Client, due: seq<bool>)
    requires |due| == |c.acks| && TableOk(c)
    ensures TableOk(Passed(c, due, 0))
  {
    assert c.acks[0..] == c.acks && c.acks[..0] == [];
    assert Passed(c, due, 0) == c;
  }

  lemma ScanKeeps(c: Client, flag: nat, expired: seq<bool>, oks: seq<bool>)
    requires |expired| == |c.acks| == |oks| && TableOk(c)
    ensures TableOk(Scan(c, flag, expired, oks).c)
  {
    hide TableOk, Kept, Surviving, Resent;
    CountIs(c);
    if c.acks != [] && c.state == Connected {
      var n := |c.acks|;
      var due := Due(flag, expired);
      PassedKeeps(c, due, n);
      assert c.acks[..n] == c.acks && due[..n] == due && c.acks[n..] == [];
      assert Kept(c.acks, due) + [] == Kept(c.acks, due);
      SameParts(Passed(c, due, n), Scan(c, flag, expired, oks).c);
    }
  }

  lemma CountIs(c: Client)
    requires TableOk(c)
    ensures c.number == |c.acks|
  {}

  function QosOnly(acks: seq<Record>): seq<Record> {
    if acks == [] then []
    else QosOnly(acks[..|acks| - 1]) + if IsQos(acks[|acks| - 1]) then [acks[|acks| - 1]] else []
  }

  function Payloads(acks: seq<Record>): seq<seq<byte>> {
    if acks == [] then [] else Payloads(acks[..|acks| - 1]) + [acks[|acks| - 1].payload]
  }

  /** The scan after a reconnection leaves exactly the QoS records, in their order, and puts the packet of
      each on the new connection once and in that order. */
  lemma ScanAtOnce(c: Client, expired: seq<bool>, oks: seq<bool>)
    requires |expired| == |c.acks| == |oks| && TableOk(c) && c.state == Connected
    ensures var o := Scan(c, 0, expired, oks);
            && o.c.acks == QosOnly(c.acks) && o.c.number == |QosOnly(c.acks)|
            && ((forall i :: 0 <= i < |oks| ==> oks[i]) ==> o.sent == Payloads(QosOnly(c.acks)))
  {
    var due := Due(0, expired);
    if c.acks != [] {
      KeptQos(c.acks, due);
      if forall i :: 0 <= i < |oks| ==> oks[i] { ResentAll(c.acks, due, oks); }
      ScanKeeps(c, 0, expired, oks);
      CountIs(Scan(c, 0, expired, oks).c);
    }
  }

  lemma {:induction false} KeptQos(acks: seq<Record>, due: seq<bool>)
    requires |due| == |acks| && forall i :: 0 <= i < |due| ==> due[i]
    ensures Kept(acks, due) == QosOnly(acks)
  {
    if acks != [] { KeptQos(acks[..|acks| - 1], due[..|acks| - 1]); }
  }

  lemma {:induction false} ResentAll(acks: seq<Record>, due: seq<bool>, oks: seq<bool>)
    requires |due| == |acks| == |oks| && forall i :: 0 <= i < |due| ==> due[i] && oks[i]
    ensures Resent(acks, due, oks) == Payloads(QosOnly(acks))
  {
    if acks != [] {
      var n := |acks| - 1;
      ResentAll(acks[..n], due[..n], oks[..n]);
      PayloadsSnoc(QosOnly(acks[..n]), acks[n]);
      assert QosOnly(acks[..n]) + [] == QosOnly(acks[..n]);
    }
  }

  lemma PayloadsSnoc(front: seq<Record>, r: Record)
    ensures Payloads(front + [r]) == Payloads(front) + [r.payload]
  {
    assert (front + [r])[..|front|] == front;
  }
}
