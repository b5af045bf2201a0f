/** The client engine on the heap: the tables are linked lists, packets are written into one buffer, and every
    method is proved to do what the functions of ClientSpec say. */
module ClientEngine {
  import opened Bytes
  import opened Codec
  import opened Options
  import opened ClientSpec
  import opened ClientTable
  import opened List
  import L = CodecLists
  import T = TopicMatch

  /** A record of the acknowledgement table; `handler` points to a subscription that is either pending, linked
      to nothing but itself, or installed in the subscription table. */
  datatype Waiting = Waiting(kind: nat, id: nat, payload: seq<byte>, handler: Option<Node<Handler>>)

  function Deref(h: Option<Node<Handler>>): Option<Handler> {
    match h case None => None case Some(n) => Some(n.val)
  }

  function ToRecord(w: Waiting): Record { Record(w.kind, w.id, w.payload, Deref(w.handler)) }

  function Records(ns: seq<Node<Waiting>>): (r: seq<Record>)
    ensures |r| == |ns| && forall i :: 0 <= i < |r| ==> r[i] == ToRecord(ns[i].val)
  {
    seq(|ns|, i requires 0 <= i < |ns| => ToRecord(ns[i].val))
  }

  function Handlers(ns: seq<Node<Handler>>): (r: seq<Handler>)
    ensures |r| == |ns| && forall i :: 0 <= i < |r| ==> r[i] == ns[i].val
  {
    seq(|ns|, i requires 0 <= i < |ns| => ns[i].val)
  }

  // ---- facts about lists with a head ----

  lemma Around<T>(h: Node<T>, ns: seq<Node<T>>, i: nat)
    requires Ring([h] + ns) && i <= |ns|
    ensures h.next == (if ns == [] then h else ns[0]) && h.prev == (if ns == [] then h else ns[|ns| - 1])
    ensures i < |ns| ==> ns[i] != h && ns[i].next == (if i + 1 < |ns| then ns[i + 1] else h)
    ensures i < |ns| ==> ns[i].prev == (if i == 0 then h else ns[i - 1])
  {
    RingNeighbours([h] + ns, 0);
    if i < |ns| {
      assert ([h] + ns)[i + 1] == ns[i] && ([h] + ns)[0] == h;
      RingNeighbours([h] + ns, i + 1);
    }
  }

  lemma Neighbours<T>(h: Node<T>, s: seq<Node<T>>, k: nat, ns: seq<Node<T>>)
    requires Ring([h] + s) && k < |s| && forall n :: n in s ==> n in ns
    ensures s[k].next in [h] + ns && s[k].prev in [h] + ns
  {
    Around(h, s, k);
  }

  lemma CutSeq<T>(h: T, ns: seq<T>, k: nat)
    requires k < |ns|
    ensures ([h] + ns)[..k + 1] + ([h] + ns)[k + 2..] == [h] + (ns[..k] + ns[k + 1..])
    ensures ([h] + ns)[k + 1] == ns[k]
  {}

  lemma AddSeq<T>(h: T, ns: seq<T>, x: T)
    ensures ([h] + ns) + [x] == [h] + (ns + [x])
  {}

  /** What is left of a list that is being filtered, one node further. */
  lemma Rest<T>(kept: seq<T>, ns: seq<T>, i: nat)
    requires i < |ns| && forall n :: n in kept ==> n in ns
    ensures var s, k := kept + ns[i..], |kept|;
            && s[k] == ns[i] && s[..k] + s[k + 1..] == kept + ns[i + 1..] && s == (kept + [ns[i]]) + ns[i + 1..]
            && forall n :: n in s ==> n in ns
  {
    assert ns[i..] == [ns[i]] + ns[i + 1..];
  }

  lemma RecordsTake(a: seq<Node<Waiting>>, i: nat)
    requires i < |a|
    ensures Records(a[..i + 1]) == Records(a[..i]) + [ToRecord(a[i].val)]
    ensures Records(a[..i + 1])[..i] == Records(a[..i]) && Records(a)[..i] == Records(a[..i])
  {}

  /** Removal, one record further. */
  lemma RemoveTake(a: seq<Node<Waiting>>, i: nat, kind: nat, id: nat)
    requires i < |a|
    ensures Remove(Records(a[..i + 1]), kind, id) ==
      Remove(Records(a[..i]), kind, id) + if Is(ToRecord(a[i].val), kind, id) then [] else [ToRecord(a[i].val)]
    ensures Found(Records(a[..i + 1]), kind, id) ==
      if Is(ToRecord(a[i].val), kind, id) then Deref(a[i].val.handler) else Found(Records(a[..i]), kind, id)
  {
    RecordsTake(a, i);
  }

  lemma RecordsOne(a: seq<Node<Waiting>>, n: Node<Waiting>)
    ensures Records(a + [n]) == Records(a) + [ToRecord(n.val)]
  {}

  lemma HandlersParts(a: seq<Node<Handler>>, b: seq<Node<Handler>>)
    ensures Handlers(a + b) == Handlers(a) + Handlers(b)
  {}

  predicate IsNode(n: Node<Waiting>, kind: nat, id: nat)
    ensures IsNode(n, kind, id) == Is(ToRecord(n.val), kind, id)
  {
    id == n.val.id && kind == n.val.kind
  }

  /** The handler is that of a record of this kind and identifier. */
  ghost predicate FromTable(handler: Option<Node<Handler>>, ns: seq<Node<Waiting>>, kind: nat, id: nat) {
    handler.Some? ==> exists k :: 0 <= k < |ns| && IsNode(ns[k], kind, id) && ns[k].val.handler == handler
  }

  lemma FromTableAt(ns: seq<Node<Waiting>>, i: nat, kind: nat, id: nat)
    requires i < |ns| && IsNode(ns[i], kind, id)
    ensures FromTable(ns[i].val.handler, ns, kind, id)
  {}

  lemma NothingRemoved(ns: seq<Node<Waiting>>, kind: nat, id: nat, n: nat)
    ensures Records([]) == [] && Remove(Records(ns[..0]), kind, id) == [] && Found(Records(ns[..0]), kind, id) == None
    ensures Less(n, 0) == n && FromTable(None, ns, kind, id)
  {}

  lemma LessAgain(n: nat, k: nat)
    ensures Less(Less(n, k), 1) == Less(n, k + 1)
  {}

  // ---- how records and subscriptions are tied together ----

  ghost predicate TieOk(w: Waiting, head: Node<Handler>, msgs: seq<Node<Handler>>, len: nat) {
    && |w.payload| <= len
    && (w.kind == SUBACK ==> w.handler.Some? && w.handler.value != head && w.handler.value !in msgs)
    && (w.kind == UNSUBACK ==> w.handler.Some? && w.handler.value in msgs)
  }

  ghost function Pending(ns: seq<Node<Waiting>>): set<Node<Handler>> {
    set i | 0 <= i < |ns| && ns[i].val.handler.Some? :: ns[i].val.handler.value
  }

  /** The subscriptions that wait for their SUBACK are linked to nothing but themselves. */
  ghost predicate Loose(ns: seq<Node<Waiting>>)
    reads Pending(ns)
  {
    forall i :: 0 <= i < |ns| && ns[i].val.kind == SUBACK && ns[i].val.handler.Some? ==>
      Linked(ns[i].val.handler.value, ns[i].val.handler.value)
  }

  lemma RingOne<T>(n: Node<T>)
    ensures Ring([n]) <==> Linked(n, n)
  {
    if Ring([n]) { assert Linked([n][0], [n][Succ(0, 1)]); }
  }

  /** A record waiting for SUBACK owns a subscription outside the subscription table; one waiting for UNSUBACK
      points into it. */
  ghost predicate Tied(ns: seq<Node<Waiting>>, head: Node<Handler>, msgs: seq<Node<Handler>>, len: nat) {
    && (forall i :: 0 <= i < |ns| ==> TieOk(ns[i].val, head, msgs, len))
    && (forall i, j :: 0 <= i < j < |ns| && ns[i].val.kind == SUBACK && ns[j].val.kind == SUBACK ==>
          ns[i].val.handler != ns[j].val.handler)
  }

  /** Fewer records are tied as well. */
  lemma TiedFewer(ns: seq<Node<Waiting>>, ms: seq<Node<Waiting>>, head: Node<Handler>, msgs: seq<Node<Handler>>,
    len: nat)
    requires Tied(ns, head, msgs, len) && forall n :: n in ms ==> n in ns
    requires forall i, j :: 0 <= i < j < |ms| ==> ms[i] != ms[j]
    ensures Tied(ms, head, msgs, len)
  {
    forall i | 0 <= i < |ms| ensures TieOk(ms[i].val, head, msgs, len) {
      assert ms[i] in ns;
      var k :| 0 <= k < |ns| && ns[k] == ms[i];
      assert TieOk(ns[k].val, head, msgs, len);
    }
    forall i, j | 0 <= i < j < |ms| && ms[i].val.kind == SUBACK && ms[j].val.kind == SUBACK
      ensures ms[i].val.handler != ms[j].val.handler
    {
      assert ms[i] in ns && ms[j] in ns && ms[i] != ms[j];
    }
  }

  lemma TiedOne(ns: seq<Node<Waiting>>, k: nat, head: Node<Handler>, msgs: seq<Node<Handler>>, len: nat)
    requires Tied(ns, head, msgs, len) && k < |ns|
    ensures TieOk(ns[k].val, head, msgs, len)
  {}

  lemma RingDistinct<T>(h: Node<T>, ns: seq<Node<T>>)
    requires Ring([h] + ns)
    ensures forall i, j :: 0 <= i < j < |ns| ==> ns[i] != ns[j]
    ensures h !in ns
  {
    var r := [h] + ns;
    forall i, j | 0 <= i < j < |ns| ensures ns[i] != ns[j] { assert r[i + 1] != r[j + 1]; }
    forall i | 0 <= i < |ns| ensures ns[i] != h { assert r[0] != r[i + 1]; }
  }

  /** One more record. */
  lemma TiedMore(ns: seq<Node<Waiting>>, n: Node<Waiting>, head: Node<Handler>, msgs: seq<Node<Handler>>, len: nat)
    requires Tied(ns, head, msgs, len) && TieOk(n.val, head, msgs, len)
    requires n.val.kind == SUBACK && n.val.handler.Some? ==> n.val.handler.value !in Pending(ns)
    ensures Tied(ns + [n], head, msgs, len)
  {
    var t := ns + [n];
    forall i | 0 <= i < |t| ensures TieOk(t[i].val, head, msgs, len) {
      if i < |ns| { TiedOne(ns, i, head, msgs, len); }
    }
    forall i, j | 0 <= i < j < |t| && t[i].val.kind == SUBACK && t[j].val.kind == SUBACK
      ensures t[i].val.handler != t[j].val.handler
    {
      if j == |ns| {
        TiedOne(ns, i, head, msgs, len);
        assert ns[i].val.handler.value in Pending(ns);
      }
    }
  }

  /** In a table with distinct filters a subscription is cut out of its place. */
  lemma {:induction false} WithoutAt(hs: seq<Handler>, j: nat)
    requires DistinctFilters(hs) && j < |hs|
    ensures WithoutFilter(hs, hs[j].filter) == hs[..j] + hs[j + 1..]
  {
    var n := |hs| - 1;
    if j == n {
      WithoutNone(hs[..n], hs[j].filter);
      assert hs[n + 1..] == [];
    } else {
      WithoutAt(hs[..n], j);
      assert hs[..n][..j] == hs[..j] && hs[..n][j + 1..] + [hs[n]] == hs[j + 1..];
      assert (hs[..j] + hs[..n][j + 1..]) + [hs[n]] == hs[..j] + (hs[..n][j + 1..] + [hs[n]]);
    }
  }

  lemma {:induction false} WithoutNone(hs: seq<Handler>, filter: seq<byte>)
    requires !HasFilter(hs, filter)
    ensures WithoutFilter(hs, filter) == hs
  {
    if hs != [] {
      var n := |hs| - 1;
      NotInFront(hs, filter);
      hide HasFilter;
      WithoutNone(hs[..n], filter);
      assert hs[..n] + [hs[n]] == hs;
    }
  }

  lemma NotInFront(hs: seq<Handler>, filter: seq<byte>)
    requires !HasFilter(hs, filter) && hs != []
    ensures var n := |hs| - 1; !HasFilter(hs[..n], filter) && hs[n].filter != filter
  {
    var n := |hs| - 1;
    forall i | 0 <= i < n ensures hs[..n][i].filter != filter { assert hs[..n][i] == hs[i]; }
  }

  /** Records that remain tied when the j-th subscription is destroyed: none of them points to it. */
  lemma TiedLeave(ns: seq<Node<Waiting>>, head: Node<Handler>, msgs: seq<Node<Handler>>, len: nat, j: nat)
    requires Tied(ns, head, msgs, len) && j < |msgs|
    requires forall i :: 0 <= i < |ns| && ns[i].val.kind == UNSUBACK ==> ns[i].val.handler != Some(msgs[j])
    ensures Tied(ns, head, msgs[..j] + msgs[j + 1..], len)
  {
    var t := msgs[..j] + msgs[j + 1..];
    forall i | 0 <= i < |ns| ensures TieOk(ns[i].val, head, t, len) {
      TiedOne(ns, i, head, msgs, len);
      if ns[i].val.kind == UNSUBACK {
        var k :| 0 <= k < |msgs| && msgs[k] == ns[i].val.handler.value;
        assert t[if k < j then k else k - 1] == msgs[k];
      }
    }
  }

  /** No record of a sound table points to a subscription that the table does not have. */
  lemma NotPointedTo(ns: seq<Node<Waiting>>, hs: seq<Handler>, h: Node<Handler>)
    requires Owned(Records(ns), hs) && RecordsOk(Records(ns)) && h.val !in hs
    ensures forall i :: 0 <= i < |ns| && ns[i].val.kind == UNSUBACK ==> ns[i].val.handler != Some(h)
  {
    forall i | 0 <= i < |ns| && ns[i].val.kind == UNSUBACK ensures ns[i].val.handler != Some(h) {
      assert RecordOk(Records(ns)[i]) && Leaving(Records(ns)[i]);
    }
  }

  lemma WrittenPrefix(before: seq<byte>, now: seq<byte>, b: seq<byte>)
    requires Written(before, now, b)
    ensures |b| <= |now| && now[..|b|] == b
  {}

  lemma BufSizeIs(c: Client)
    requires TableOk(c)
    ensures 4 <= c.bufSize <= MAX_REMAINING && c.packetId <= MAX_ID
  {}

  lemma RecordAckRc(c: Client, kind: nat, id: nat, b: seq<byte>)
    ensures (RecordAck(c, kind, id, b, None).1 == Success) == !Exists(c.acks, kind, id)
  {
    hide Exists;
  }

  lemma OneFilter(f: L.Filter)
    ensures |L.FiltersBytes([f])| == 3 + |f.topic|
  {
    assert [f][1..] == [];
  }

  lemma OneTopic(t: seq<byte>)
    ensures |L.TopicsBytes([t])| == 2 + |t|
  {
    assert [t][1..] == [];
  }

  /** Taking a filter out of a sound table. */
  lemma CutFilter(c: Client, hs: seq<Handler>, j: nat)
    requires TableOk(c) && hs == c.msgs && j < |hs|
    ensures WithoutFilter(hs, hs[j].filter) == hs[..j] + hs[j + 1..]
    ensures hs[j] !in hs[..j] + hs[j + 1..]
  {
    WithoutAt(hs, j);
    WithoutMembers(hs, hs[j].filter);
  }

  ghost predicate Nodup(ns: seq<Node<Waiting>>) { forall i, j :: 0 <= i < j < |ns| ==> ns[i] != ns[j] }

  /** The tables after the k-th record was given up together with its subscription, the j-th. */
  lemma AfterLeave(c: Client, ns: seq<Node<Waiting>>, ms: seq<Node<Handler>>, head: Node<Handler>, len: nat, k: nat,
    j: nat)
    requires TableOk(c) && c.acks == Records(ns) && c.msgs == Handlers(ms) && Tied(ns, head, ms, len) && Nodup(ns)
    requires k < |ns| && j < |ms| && ns[k].val.kind == UNSUBACK && ns[k].val.handler == Some(ms[j])
    ensures var ns', ms' := ns[..k] + ns[k + 1..], ms[..j] + ms[j + 1..];
            && Records(ns') == c.acks[..k] + c.acks[k + 1..]
            && Handlers(ms') == WithoutFilter(c.msgs, c.acks[k].handler.value.filter)
            && TableOk(c.(acks := Records(ns'), number := |c.acks| - 1, msgs := Handlers(ms')))
            && Tied(ns', head, ms', len)
  {
    hide TableOk, Tied, WithoutFilter;
    var ns', ms' := ns[..k] + ns[k + 1..], ms[..j] + ms[j + 1..];
    LeaveKeeps(c, k);
    CutFilter(c, c.msgs, j);
    HandlersCut(ms, j);
    CutTied(ns, head, ms, len, k);
    var c' := c.(acks := Records(ns'), number := |c.acks| - 1, msgs := Handlers(ms'));
    SoundParts(c');
    NotPointedTo(ns', Handlers(ms'), ms[j]);
    TiedLeave(ns', head, ms, len, j);
  }

  /** The tables after the k-th record went. */
  lemma CutTied(ns: seq<Node<Waiting>>, head: Node<Handler>, ms: seq<Node<Handler>>, len: nat, k: nat)
    requires Tied(ns, head, ms, len) && Nodup(ns) && k < |ns|
    ensures Tied(ns[..k] + ns[k + 1..], head, ms, len)
      && Records(ns[..k] + ns[k + 1..]) == Records(ns)[..k] + Records(ns)[k + 1..]
    ensures forall n :: n in ns[..k] + ns[k + 1..] ==> n in ns
  {
    var t := ns[..k] + ns[k + 1..];
    assert forall i :: 0 <= i < |t| ==> t[i] == ns[if i < k then i else i + 1];
    TiedFewer(ns, t, head, ms, len);
  }

  lemma HandlersCut(ms: seq<Node<Handler>>, j: nat)
    requires j < |ms|
    ensures Handlers(ms[..j] + ms[j + 1..]) == Handlers(ms)[..j] + Handlers(ms)[j + 1..]
  {}

  lemma QosStays(r: Record)
    ensures IsQos(r) ==> !Leaving(r)
  {}

  lemma ByIndex<T>(a: seq<T>, b: seq<T>)
    requires forall n :: n in a ==> n in b
    ensures forall k :: 0 <= k < |a| ==> a[k] in b
  {}

  lemma AppendAssoc(a: seq<seq<byte>>, b: seq<seq<byte>>, d: seq<seq<byte>>)
    ensures a + (b + d) == (a + b) + d && a + [] == a
  {}

  lemma SoundParts(c: Client)
    requires TableOk(c)
    ensures Owned(c.acks, c.msgs) && RecordsOk(c.acks)
  {}

  /** The tables after an UNSUBACK, when the records that stay are ns'. */
  lemma AfterUnsuback(c: Client, ns: seq<Node<Waiting>>, ns': seq<Node<Waiting>>, ms: seq<Node<Handler>>,
    head: Node<Handler>, len: nat,
                      id: nat, k: nat, j: nat)
    requires TableOk(c) && c.state == Connected && c.acks == Records(ns) && c.msgs == Handlers(ms)
    requires Tied(ns', head, ms, len) && Records(ns') == Unrecord(c, UNSUBACK, id).acks
    requires k < |ns| && j < |ms| && IsNode(ns[k], UNSUBACK, id) && ns[k].val.handler == Some(ms[j])
    requires Found(c.acks, UNSUBACK, id) == Some(ms[j].val)
    ensures var ms' := ms[..j] + ms[j + 1..]; var c' := OnUnsuback(c, id).c;
            && Handlers(ms') == c'.msgs && Records(ns') == c'.acks && TableOk(c') && Tied(ns', head, ms', len)
  {
    hide TableOk, Tied, WithoutFilter, Remove, Less, Found;
    OnUnsubackKeeps(c, id);
    CutFilter(c, c.msgs, j);
    HandlersCut(ms, j);
    SoundParts(OnUnsuback(c, id).c);
    NotPointedTo(ns', Handlers(ms[..j] + ms[j + 1..]), ms[j]);
    TiedLeave(ns', head, ms, len, j);
  }

  class MqttClient {
    var state: State
    var packetId: nat
    var ackNumber: nat
    const writeBuf: array<byte>
    const ackList: Node<Waiting>
    const msgList: Node<Handler>
    /** What was put on the connection, and what was passed on to the application. */
    var wire: seq<seq<byte>>
    var delivered: seq<Delivery>
    ghost var acks: seq<Node<Waiting>>
    ghost var msgs: seq<Node<Handler>>

    ghost predicate Shape()
      reads this, ackList, acks, msgList, msgs
    {
      Ring([ackList] + acks) && Ring([msgList] + msgs)
    }

    ghost function View(): Client
      reads this
    {
      Client(state, packetId, ackNumber, writeBuf.Length, Records(acks), Handlers(msgs))
    }

    /** mqtt_init. */
    constructor (bufSize: nat)
      ensures Shape() && fresh(writeBuf) && fresh(ackList) && fresh(msgList)
      ensures View() == Client(Initialized, 1, 0, bufSize, [], []) && wire == [] && delivered == []
      ensures acks == [] && msgs == []
    {
      state, packetId, ackNumber, wire, delivered := Initialized, 1, 0, [], [];
      writeBuf := new byte[bufSize];
      ackList := new Node<Waiting>(Waiting(0, 0, [], None));
      msgList := new Node<Handler>(Handler([], 0, 0));
      acks, msgs := [], [];
      new;
      assert [ackList] + acks == [ackList] && [msgList] + msgs == [msgList];
    }

    // ---- the table of expected acknowledgements ----

    /** mqtt_ack_list_node_is_exist. */
    method NodeIsExist(kind: nat, id: nat) returns (b: bool)
      requires Shape()
      ensures b == Exists(Records(acks), kind, id)
    {
      var empty := IsEmpty(ackList, [ackList] + acks);
      if empty {
        assert acks == [];
        return false;
      }
      Around(ackList, acks, 0);
      var curr := ackList.next;
      ghost var i := 0;
      while curr != ackList
        invariant 0 <= i <= |acks| && curr == if i < |acks| then acks[i] else ackList
        invariant forall k :: 0 <= k < i ==> !Is(Records(acks)[k], kind, id)
        decreases |acks| - i
      {
        Around(ackList, acks, i);
        if id == curr.val.id && kind == curr.val.kind {
          assert Is(Records(acks)[i], kind, id);
          return true;
        }
        curr := curr.next;
        i := i + 1;
      }
      Around(ackList, acks, if i < |acks| then i else 0);
      return false;
    }

    /** mqtt_ack_list_record, on the packet of `len` bytes in the write buffer. */
    method RecordWaiting(kind: nat, id: nat, len: nat, handler: Option<Node<Handler>>) returns (rc: Rc)
      requires Shape() && len <= writeBuf.Length
      modifies this`acks, this`ackNumber, ackList, acks
      ensures Shape()
      ensures (View(), rc) == RecordAck(old(View()), kind, id, old(writeBuf[..len]), Deref(handler))
      ensures rc == Success || (rc == NodeExists && acks == old(acks))
      ensures rc == Success ==>
        && |acks| == |old(acks)| + 1 && acks[..|acks| - 1] == old(acks)
        && fresh(acks[|acks| - 1]) && acks[|acks| - 1].val.handler == handler
        && acks[|acks| - 1].val.kind == kind && |acks[|acks| - 1].val.payload| <= len
    {
      hide Ring, Exists, Records;
      var exist := NodeIsExist(kind, id);
      if exist {
        return NodeExists;
      }
      var payloadLen := len % 65536;
      assert writeBuf[..len][..payloadLen] == writeBuf[..payloadLen];
      var node := new Node<Waiting>(Waiting(kind, id, writeBuf[..payloadLen], handler));
      ackNumber := (ackNumber + 1) % NUMBER_RANGE;
      Around(ackList, acks, 0);
      AddTail(node, ackList, [ackList] + acks);
      AddSeq(ackList, acks, node);
      RecordsOne(acks, node);
      acks := acks + [node];
      rc := Success;
    }

    /** mqtt_ack_handler_destroy, of the k-th record. */
    method AckHandlerDestroy(node: Node<Waiting>, ghost k: nat)
      requires Shape() && k < |acks| && node == acks[k]
      modifies this`acks, node.prev, node.next
      ensures Shape() && acks == old(acks[..k] + acks[k + 1..])
    {
      hide Ring;
      Around(ackList, acks, k);
      CutSeq(ackList, acks, k);
      Del(node, [ackList] + acks, k + 1);
      acks := acks[..k] + acks[k + 1..];
    }

    /** mqtt_subtract_ack_handler_num. */
    method SubtractAckNumber()
      modifies this`ackNumber
      ensures ackNumber == Less(old(ackNumber), 1)
    {
      if ackNumber > 0 {
        ackNumber := ackNumber - 1;
      }
    }

    /** The two together. */
    method DropWaiting(node: Node<Waiting>, ghost k: nat)
      requires Shape() && k < |acks| && node == acks[k]
      modifies this`acks, this`ackNumber, node.prev, node.next
      ensures Shape() && acks == old(acks[..k] + acks[k + 1..]) && ackNumber == Less(old(ackNumber), 1)
    {
      hide Ring;
      AckHandlerDestroy(node, k);
      SubtractAckNumber();
    }

    /** The table while records are being removed: `kept` is what stays of the first i nodes of `ns`. */
    ghost predicate Removing(ns: seq<Node<Waiting>>, kept: seq<Node<Waiting>>, i: nat, kind: nat, id: nat, n0: nat,
                             handler: Option<Node<Handler>>)
      reads this
    {
      && i <= |ns| && |kept| <= i && acks == kept + ns[i..] && (forall n :: n in kept ==> n in ns)
      && Records(kept) == Remove(Records(ns[..i]), kind, id) && ackNumber == Less(n0, i - |kept|)
      && Deref(handler) == Found(Records(ns[..i]), kind, id) && FromTable(handler, ns, kind, id)
    }

    /** The body of the removing loop. */
    method RemoveIf(curr: Node<Waiting>, kind: nat, id: nat, found: Option<Node<Handler>>,
                    ghost ns: seq<Node<Waiting>>, ghost kept: seq<Node<Waiting>>, ghost i: nat, ghost n0: nat)
      returns (handler: Option<Node<Handler>>, ghost kept': seq<Node<Waiting>>)
      requires Shape() && Removing(ns, kept, i, kind, id, n0, found) && i < |ns| && curr == ns[i]
      modifies this`acks, this`ackNumber, curr.prev, curr.next
      ensures Shape() && Removing(ns, kept', i + 1, kind, id, n0, handler)
    {
      hide Ring, Records, Remove, Found, Less, Is, IsNode, FromTable;
      RemoveTake(ns, i, kind, id);
      Rest(kept, ns, i);
      if IsNode(curr, kind, id) {
        handler := curr.val.handler;
        FromTableAt(ns, i, kind, id);
        DropWaiting(curr, |kept|);
        LessAgain(n0, i - |kept|);
        kept' := kept;
      } else {
        handler := found;
        RecordsOne(kept, curr);
        kept' := kept + [curr];
      }
    }

    /** Where the loop goes on, and that its next step stays within the old table. */
    lemma RemovingNext(ns: seq<Node<Waiting>>, kept: seq<Node<Waiting>>, i: nat, kind: nat, id: nat, n0: nat,
                       handler: Option<Node<Handler>>)
      requires Shape() && Removing(ns, kept, i, kind, id, n0, handler)
      ensures |kept| <= |acks| && i <= |ns|
      ensures i < |ns| ==>
        && |kept| < |acks| && acks[|kept|] == ns[i] && ns[i] != ackList
        && ns[i].next == (if i + 1 < |ns| then ns[i + 1] else ackList)
        && ns[i].next in [ackList] + ns && ns[i].prev in [ackList] + ns
      ensures i == |ns| ==> acks == kept
    {
      if i < |ns| {
        Rest(kept, ns, i);
        Around(ackList, acks, |kept|);
        Neighbours(ackList, acks, |kept|, ns);
        assert i + 1 < |ns| ==> acks[|kept| + 1] == ns[i + 1];
      }
    }

    /** mqtt_ack_list_unrecord: the handler of the record, if it was there. */
    method UnrecordWaiting(kind: nat, id: nat) returns (handler: Option<Node<Handler>>)
      requires Shape()
      modifies this`acks, this`ackNumber, ackList, acks
      ensures Shape()
      ensures View() == Unrecord(old(View()), kind, id)
      ensures Deref(handler) == Found(old(View()).acks, kind, id)
      ensures FromTable(handler, old(acks), kind, id)
      ensures forall n :: n in acks ==> n in old(acks)
    {
      hide Ring, Records, Remove, Found, Less, FromTable, Removing, ToRecord, Linked, IsNode, Handlers;
      ghost var ns, n0 := acks, ackNumber;
      ghost var kept: seq<Node<Waiting>> := [];
      ghost var i := 0;
      handler := None;
      Around(ackList, acks, 0);
      var curr := ackList.next;
      var next := curr.next;
      RemovingStart(kind, id);
      while curr != ackList
        modifies this`acks, this`ackNumber, ackList, ns
        invariant Shape() && i <= |ns| && Removing(ns, kept, i, kind, id, n0, handler)
        invariant curr == (if i < |ns| then ns[i] else ackList) && next == curr.next
        decreases |ns| - i
      {
        RemovingNext(ns, kept, i, kind, id, n0, handler);
        handler, kept := RemoveIf(curr, kind, id, handler, ns, kept, i, n0);
        i := i + 1;
        RemovingNext(ns, kept, i, kind, id, n0, handler);
        curr := next;
        next := curr.next;
      }
      RemovingNext(ns, kept, i, kind, id, n0, handler);
      RemovingDone(ns, kept, kind, id, n0, handler);
    }

    lemma RemovingStart(kind: nat, id: nat)
      ensures Removing(acks, [], 0, kind, id, ackNumber, None)
    {
      NothingRemoved(acks, kind, id, ackNumber);
      assert [] + acks[0..] == acks;
    }

    lemma RemovingDone(ns: seq<Node<Waiting>>, kept: seq<Node<Waiting>>, kind: nat, id: nat, n0: nat,
      handler: Option<Node<Handler>>)
      requires Removing(ns, kept, |ns|, kind, id, n0, handler)
      ensures Records(acks) == Remove(Records(ns), kind, id) && ackNumber == Less(n0, |ns| - |Records(acks)|)
      ensures Deref(handler) == Found(Records(ns), kind, id) && FromTable(handler, ns, kind, id)
      ensures forall n :: n in acks ==> n in ns
    {
      hide Records, Remove, Found, Less, FromTable;
      assert ns[|ns|..] == [] && ns[..|ns|] == ns && acks == kept;
    }

    // ---- the subscription table ----

    ghost predicate Valid()
      reads this, ackList, acks, msgList, msgs, Pending(acks)
    {
      Shape() && TableOk(View()) && Tied(acks, msgList, msgs, writeBuf.Length) && Loose(acks)
    }

    /** mqtt_msg_handler_is_exist. */
    method MsgHandlerIsExist(filter: seq<byte>) returns (b: bool)
      requires Shape()
      ensures b == HasFilter(Handlers(msgs), filter)
    {
      hide Ring;
      var empty := IsEmpty(msgList, [msgList] + msgs);
      if empty {
        assert msgs == [];
        return false;
      }
      Around(msgList, msgs, 0);
      var curr := msgList.next;
      ghost var i := 0;
      while curr != msgList
        invariant 0 <= i <= |msgs| && curr == if i < |msgs| then msgs[i] else msgList
        invariant forall k :: 0 <= k < i ==> Handlers(msgs)[k].filter != filter
        decreases |msgs| - i
      {
        Around(msgList, msgs, i);
        if curr.val.filter == filter {
          assert Handlers(msgs)[i].filter == filter;
          return true;
        }
        curr := curr.next;
        i := i + 1;
      }
      Around(msgList, msgs, if i < |msgs| then i else 0);
      return false;
    }

    /** mqtt_get_msg_handler. */
    method GetMsgHandler(text: seq<byte>, name: seq<byte>) returns (h: Option<Node<Handler>>)
      requires Shape()
      ensures Deref(h) == Lookup(Handlers(msgs), text, name)
      ensures h.Some? ==> h.value in msgs
    {
      hide Ring, T.Walk, Handlers, Lookup;
      Around(msgList, msgs, 0);
      var curr := msgList.next;
      ghost var i := 0;
      assert Handlers(msgs)[0..] == Handlers(msgs);
      while curr != msgList
        invariant 0 <= i <= |msgs| && curr == if i < |msgs| then msgs[i] else msgList
        invariant Lookup(Handlers(msgs), text, name) == Lookup(Handlers(msgs)[i..], text, name)
        decreases |msgs| - i
      {
        Around(msgList, msgs, i);
        LookupStep(msgs, i, text, name);
        var matched := T.TopicIsMatched(curr.val.filter, name);
        if text == curr.val.filter || matched {
          return Some(curr);
        }
        curr := curr.next;
        i := i + 1;
      }
      Around(msgList, msgs, if i < |msgs| then i else 0);
      LookupStep(msgs, i, text, name);
      return None;
    }

    lemma LookupStep(ns: seq<Node<Handler>>, i: nat, text: seq<byte>, name: seq<byte>)
      requires i <= |ns|
      ensures Lookup(Handlers(ns)[i..], text, name) ==
        if i == |ns| then None
        else if text == ns[i].val.filter || T.Walk(ns[i].val.filter, name) then Some(ns[i].val)
        else Lookup(Handlers(ns)[i + 1..], text, name)
    {
      hide T.Walk;
      if i < |ns| {
        assert Handlers(ns)[i..][1..] == Handlers(ns)[i + 1..];
      }
    }

    /** mqtt_msg_handlers_install, of a subscription linked to nothing. */
    method InstallHandler(node: Node<Handler>)
      requires Shape() && Ring([node]) && node != msgList && node !in msgs
      modifies this`msgs, node, msgList, msgs
      ensures Shape() && View() == Install(old(View()), node.val)
      ensures msgs == old(msgs) || msgs == old(msgs) + [node]
    {
      hide Ring, HasFilter;
      var exist := MsgHandlerIsExist(node.val.filter);
      if exist {
        RingOne(node);
        MsgHandlerDestroy(node, None);
      } else {
        Around(msgList, msgs, 0);
        AddTail(node, msgList, [msgList] + msgs);
        AddSeq(msgList, msgs, node);
        HandlersParts(msgs, [node]);
        msgs := msgs + [node];
      }
    }

    /** mqtt_msg_handler_destory, of the k-th installed subscription, or of one linked to nothing. */
    method MsgHandlerDestroy(node: Node<Handler>, ghost k: Option<nat>)
      requires Shape()
      requires match k
        case None => Linked(node, node) && node != msgList && node !in msgs
        case Some(j) => j < |msgs| && node == msgs[j]
      modifies this`msgs, node.prev, node.next
      ensures Shape()
      ensures k == None ==> msgs == old(msgs) && Linked(node, node)
      ensures k.Some? ==> msgs == old(msgs[..k.value] + msgs[k.value + 1..])
      ensures k.Some? ==> Handlers(msgs) == old(Handlers(msgs)[..k.value] + Handlers(msgs)[k.value + 1..])
    {
      hide Ring;
      ghost var ring := if k.Some? then [msgList] + msgs else [node];
      RingOne(node);
      if k.Some? {
        Around(msgList, msgs, k.value);
        CutSeq(msgList, msgs, k.value);
      }
      Del(node, ring, if k.Some? then k.value + 1 else 0);
      if k.Some? {
        msgs := msgs[..k.value] + msgs[k.value + 1..];
      }
      RingOne(node);
    }

    // ---- sending and delivering ----

    /** mqtt_send_packet: all of the packet goes out, or the send fails. */
    method SendPacket(len: nat, ok: bool) returns (rc: Rc)
      requires len <= writeBuf.Length
      modifies this`wire
      ensures rc == if ok then Success else SendFailed
      ensures wire == old(wire) + Sends(ok, writeBuf[..len])
    {
      if ok {
        wire := wire + [writeBuf[..len]];
        rc := Success;
      } else {
        rc := SendFailed;
      }
    }

    /** mqtt_deliver_message. */
    method DeliverMessage(m: Publish)
      requires Shape()
      modifies this`delivered
      ensures delivered == old(delivered) + [Delivery(m, Lookup(Handlers(msgs), m.topic, m.topic))]
    {
      var h := GetMsgHandler(m.topic, m.topic);
      delivered := delivered + [Delivery(m, Deref(h))];
    }

    /** mqtt_get_next_packet_id. */
    method NextPacketId() returns (id: nat)
      modifies this`packetId
      ensures packetId == id == NextId(old(packetId))
      ensures old(packetId) <= MAX_ID ==> 1 <= id <= MAX_ID
      ensures old(packetId) < MAX_ID ==> id == old(packetId) + 1
    {
      packetId := if packetId == MAX_ID then 1 else (packetId + 1) % 65536;
      id := packetId;
    }

    /** mqtt_set_publish_dup, on the packet of `len` bytes in the write buffer. */
    method SetPublishDup(ghost len: nat)
      requires 1 <= len <= writeBuf.Length
      modifies writeBuf
      ensures writeBuf[..len] == SetDup(old(writeBuf[..len]))
    {
      hide Header, HeaderKind, HeaderQos, HeaderRetain;
      var h := writeBuf[0];
      if HeaderKind(h) == PUBLISH {
        writeBuf[0] := Header(PUBLISH, 1, HeaderQos(h), HeaderRetain(h));
      }
    }

    /** The state, the connection and the application saw exactly this outcome. */
    ghost predicate Outcome(o: Out, w0: seq<seq<byte>>, d0: seq<Delivery>, rc: Rc)
      reads this
    {
      View() == o.c && wire == w0 + o.sent && delivered == d0 + o.delivered && rc == o.rc
    }

    // ---- what arrives ----

    /** What stays of the ties when records have gone. */
    lemma TiedRest(ns: seq<Node<Waiting>>)
      requires Ring([ackList] + acks) && Tied(ns, msgList, msgs, writeBuf.Length) && Loose(ns)
      requires forall n :: n in acks ==> n in ns
      ensures Tied(acks, msgList, msgs, writeBuf.Length) && Loose(acks)
    {
      RingDistinct(ackList, acks);
      TiedFewer(ns, acks, msgList, msgs, writeBuf.Length);
      LooseFewer(ns);
    }

    lemma LooseFewer(ns: seq<Node<Waiting>>)
      requires Loose(ns) && forall n :: n in acks ==> n in ns
      ensures Loose(acks)
    {
      forall i | 0 <= i < |acks| && acks[i].val.kind == SUBACK && acks[i].val.handler.Some?
        ensures Linked(acks[i].val.handler.value, acks[i].val.handler.value)
      {
        assert acks[i] in ns;
      }
    }

    /** mqtt_ack_list_record for packets that need no handler. */
    method RecordPlain(kind: nat, id: nat, len: nat) returns (rc: Rc)
      requires Valid() && len <= writeBuf.Length && kind in {PUBACK, PUBREC, PUBREL, PUBCOMP} && id < 65536
      modifies this`acks, this`ackNumber, ackList, acks
      ensures Valid() && forall n :: n in acks ==> n in old(acks) || fresh(n)
      ensures (View(), rc) == RecordAck(old(View()), kind, id, old(writeBuf[..len]), None)
      ensures rc == Success || rc == NodeExists
    {
      hide Ring, TableOk, Tied, Pending, Exists;
      RecordKeeps(View(), kind, id, writeBuf[..len], None);
      rc := RecordWaiting(kind, id, len, None);
      if rc == Success {
        TiedMore(old(acks), acks[|acks| - 1], msgList, msgs, writeBuf.Length);
        assert acks == old(acks) + [acks[|acks| - 1]];
      }
    }

    /** mqtt_ack_list_record for SUBSCRIBE, with a new subscription. */
    method RecordJoining(id: nat, len: nat, node: Node<Handler>) returns (rc: Rc)
      requires Valid() && len <= writeBuf.Length && id < 65536
      requires Linked(node, node) && node != msgList && node !in msgs && node !in Pending(acks)
      modifies this`acks, this`ackNumber, ackList, acks
      ensures Valid() && (View(), rc) == RecordAck(old(View()), SUBACK, id, old(writeBuf[..len]), Some(node.val))
    {
      hide Ring, TableOk, Tied, Pending, Exists;
      RecordKeeps(View(), SUBACK, id, writeBuf[..len], Some(node.val));
      rc := RecordWaiting(SUBACK, id, len, Some(node));
      if rc == Success {
        TiedMore(old(acks), acks[|acks| - 1], msgList, msgs, writeBuf.Length);
        assert acks == old(acks) + [acks[|acks| - 1]];
      }
    }

    /** mqtt_ack_list_record for UNSUBSCRIBE, with an installed subscription. */
    method RecordLeaving(id: nat, len: nat, node: Node<Handler>) returns (rc: Rc)
      requires Valid() && len <= writeBuf.Length && id < 65536 && node in msgs && NotLeaving(View(), Some(node.val))
      modifies this`acks, this`ackNumber, ackList, acks
      ensures Valid() && (View(), rc) == RecordAck(old(View()), UNSUBACK, id, old(writeBuf[..len]), Some(node.val))
    {
      hide Ring, TableOk, Tied, Pending, Exists;
      RecordKeeps(View(), UNSUBACK, id, writeBuf[..len], Some(node.val));
      rc := RecordWaiting(UNSUBACK, id, len, Some(node));
      if rc == Success {
        TiedMore(old(acks), acks[|acks| - 1], msgList, msgs, writeBuf.Length);
        assert acks == old(acks) + [acks[|acks| - 1]];
      }
    }

    /** mqtt_puback_and_pubcomp_packet_handle. */
    method HandlePubackPubcomp(kind: nat, id: nat) returns (rc: Rc)
      requires Valid()
      modifies this, ackList, acks
      ensures Valid() && Outcome(OnPubackPubcomp(old(View()), kind, id), old(wire), old(delivered), rc)
    {
      hide Ring, TableOk, Tied, Unrecord;
      if state != Connected {
        return if state == CleanSession then Cleaning else NotConnected;
      }
      ghost var c, ns := View(), acks;
      OnPubackPubcompKeeps(c, kind, id);
      var h := UnrecordWaiting(kind, id);
      TiedRest(ns);
      rc := Success;
    }

    /** mqtt_publish_ack_packet. */
    method PublishAckPacket(id: nat, kind: nat, ok: bool) returns (rc: Rc)
      requires Valid() && id < 65536
      modifies this, ackList, acks, writeBuf
      ensures Valid() && forall n :: n in acks ==> n in old(acks) || fresh(n)
      ensures kind == PUBREC
        ==> View() == RecordAck(old(View()), PUBCOMP, id, AckBytes(Codec.Ack(PUBREL, 0, id)), None).0
      ensures kind != PUBREC ==> View() == old(View())
      ensures wire == old(wire) +
        if kind == PUBREC then
          if Exists(old(View()).acks, PUBCOMP, id) then [] else Sends(ok, AckBytes(Codec.Ack(PUBREL, 0, id)))
        else if kind == PUBREL then Sends(ok, AckBytes(Codec.Ack(PUBCOMP, 0, id)))
        else []
      ensures delivered == old(delivered)
    {
      hide Ring, TableOk, Tied, AckBytes, Written, Exists, Records, RecordAck;
      ghost var c := View();
      BufSizeIs(c);
      if kind == PUBREC {
        var len := SerializeAck(writeBuf, writeBuf.Length, Codec.Ack(PUBREL, 0, id));
        WrittenPrefix(old(writeBuf[..]), writeBuf[..], AckBytes(Codec.Ack(PUBREL, 0, id)));
        assert writeBuf[..len] == AckBytes(Codec.Ack(PUBREL, 0, id));
        rc := RecordPlain(PUBCOMP, id, len);
        if rc != Success {
          RecordAckRc(c, PUBCOMP, id, AckBytes(Codec.Ack(PUBREL, 0, id)));
          return;
        }
        RecordAckRc(c, PUBCOMP, id, AckBytes(Codec.Ack(PUBREL, 0, id)));
        rc := SendPacket(len, ok);
      } else if kind == PUBREL {
        var len := SerializeAck(writeBuf, writeBuf.Length, Codec.Ack(PUBCOMP, 0, id));
        WrittenPrefix(old(writeBuf[..]), writeBuf[..], AckBytes(Codec.Ack(PUBCOMP, 0, id)));
        assert writeBuf[..len] == AckBytes(Codec.Ack(PUBCOMP, 0, id));
        rc := SendPacket(len, ok);
      } else {
        rc := AckTypeError;
      }
    }

    /** mqtt_pubrec_and_pubrel_packet_handle. */
    method HandlePubrecPubrel(kind: nat, id: nat, ok: bool) returns (rc: Rc)
      requires Valid() && id < 65536
      modifies this, ackList, acks, writeBuf
      ensures Valid() && Outcome(OnPubrecPubrel(old(View()), kind, id, ok), old(wire), old(delivered), rc)
    {
      hide Ring, TableOk, Tied, Records, Handlers, Unrecord, AckBytes, RecordAck, Exists;
      if state != Connected {
        return if state == CleanSession then Cleaning else NotConnected;
      }
      ghost var c := View();
      OnPubrecPubrelKeeps(c, kind, id, ok);
      var sent := PublishAckPacket(id, kind, ok);
      ghost var ns := acks;
      assert forall k :: 0 <= k < |acks| ==> acks[k] in old(acks) || fresh(acks[k]);
      var h := UnrecordWaiting(kind, id);
      TiedRest(ns);
      RecordAckRc(c, PUBCOMP, id, AckBytes(Codec.Ack(PUBREL, 0, id)));
      rc := Success;
    }

    /** mqtt_publish_packet_handle. */
    method HandlePublish(m: Publish, ok: bool) returns (rc: Rc)
      requires Valid() && m.id < 65536
      modifies this, ackList, acks, writeBuf
      ensures Valid() && Outcome(OnPublish(old(View()), m, ok), old(wire), old(delivered), rc)
    {
      hide Ring, TableOk, Tied, Records, Handlers, AckBytes, RecordAck, Exists, Written, Lookup, ToRecord, Linked,
        Splice;
      if state != Connected {
        return if state == CleanSession then Cleaning else NotConnected;
      }
      ghost var c := View();
      OnPublishKeeps(c, m, ok);
      BufSizeIs(c);
      rc := Success;
      var len := 0;
      if m.qos != 0 {
        if m.qos == 1 {
          len := SerializeAck(writeBuf, writeBuf.Length, Codec.Ack(PUBACK, 0, m.id));
          WrittenPrefix(old(writeBuf[..]), writeBuf[..], AckBytes(Codec.Ack(PUBACK, 0, m.id)));
        } else if m.qos == 2 {
          len := SerializeAck(writeBuf, writeBuf.Length, Codec.Ack(PUBREC, 0, m.id));
          WrittenPrefix(old(writeBuf[..]), writeBuf[..], AckBytes(Codec.Ack(PUBREC, 0, m.id)));
        }
        if len <= 0 {
          rc := SerializeAckFailed;
        } else {
          rc := SendPacket(len, ok);
        }
      }
      if rc != Success {
        return;
      }
      if m.qos != 2 {
        DeliverMessage(m);
      } else {
        rc := RecordPlain(PUBREL, m.id, len);
        if rc != NodeExists {
          DeliverMessage(m);
        }
      }
    }

    // ---- what the application calls ----

    /** Serializing a PUBLISH into the write buffer; no bytes when it does not fit. */
    method PutPublish(n: Publish) returns (len: nat)
      requires |n.topic| < 65536 && writeBuf.Length <= MAX_REMAINING
      modifies writeBuf
      ensures len <= writeBuf.Length && (len == 0 <==> !(PacketLen(PublishLength(n)) <= writeBuf.Length))
      ensures len > 0 ==> writeBuf[..len] == PublishBytes(n)
    {
      hide Written, LenBytes, PublishBody, PublishLength, PacketLen, Header;
      var rc := SerializePublish(writeBuf, writeBuf.Length, n);
      if rc < 0 {
        return 0;
      }
      WrittenPrefix(old(writeBuf[..]), writeBuf[..], PublishBytes(n));
      len := rc;
    }

    /** mqtt_publish. */
    method PublishMessage(m: Publish, ok: bool) returns (rc: Rc, n: Publish)
      requires Valid() && |m.topic| < 65536
      modifies this, ackList, acks, writeBuf
      ensures Valid()
      ensures Outcome(UserPublish(old(View()), m, ok).0, old(wire), old(delivered), rc)
        && n == UserPublish(old(View()), m, ok).1
    {
      hide Ring, TableOk, Tied, Records, Handlers, RecordAck, Written, PublishBytes, SetDup, PublishLength, PacketLen,
        ToRecord, Linked, Splice, Exists;
      ghost var c := View();
      PublishKeeps(c, m, ok);
      BufSizeIs(c);
      n := m;
      if state != Connected {
        return NotConnected, n;
      }
      if |m.payload| > writeBuf.Length {
        return BufferTooShort, n;
      }
      if m.qos != 0 {
        if ackNumber >= MAX_HANDLERS {
          state := Disconnected;
          return TooManyHandlers, n;
        }
        var id := NextPacketId();
        n := m.(id := id);
        NextIdRange(c);
        Renumbered(c, id);
      }
      var len := PutPublish(n);
      if len <= 0 {
        return Failed, n;
      }
      rc := SendPacket(len, ok);
      if rc != Success {
        return;
      }
      if m.qos != 0 {
        SetPublishDup(len);
        if m.qos == 1 {
          rc := RecordPlain(PUBACK, n.id, len);
        } else if m.qos == 2 {
          rc := RecordPlain(PUBREC, n.id, len);
        }
      }
    }

    method PutSubscribe(id: nat, h: Handler) returns (len: nat)
      requires |h.filter| < 65536 && writeBuf.Length <= MAX_REMAINING
      modifies writeBuf
      ensures var fs := [L.Filter(h.filter, h.qos)];
              && len <= writeBuf.Length && (len == 0 <==> !(PacketLen(2 + |L.FiltersBytes(fs)|) <= writeBuf.Length))
              && (len > 0 ==> writeBuf[..len] == L.SubscribeBytes(0, id, fs))
    {
      hide Written, LenBytes, PacketLen, Header, U16;
      var fs := [L.Filter(h.filter, h.qos)];
      OneFilter(fs[0]);
      var rc := L.SerializeSubscribe(writeBuf, writeBuf.Length, 0, id, fs);
      if rc < 0 {
        return 0;
      }
      WrittenPrefix(old(writeBuf[..]), writeBuf[..], L.SubscribeBytes(0, id, fs));
      len := rc;
    }

    /** mqtt_subscribe. */
    method Subscribe(h: Handler, ok: bool) returns (rc: Rc)
      requires Valid() && |h.filter| < 65536
      modifies this, ackList, acks, writeBuf
      ensures Valid() && Outcome(UserSubscribe(old(View()), h, ok), old(wire), old(delivered), rc)
    {
      hide Ring, TableOk, Tied, Pending, Records, Handlers, Exists, L.SubscribeBytes, L.FiltersBytes, PacketLen;
      ghost var c := View();
      SubscribeKeeps(c, h, ok);
      BufSizeIs(c);
      if state != Connected {
        return NotConnected;
      }
      var id := NextPacketId();
      NextIdRange(c);
      Renumbered(c, id);
      var len := PutSubscribe(id, h);
      if len <= 0 {
        return SubscribeError;
      }
      rc := SendPacket(len, ok);
      if rc != Success {
        return;
      }
      var node := new Node<Handler>(h);
      PendingOld(old(acks), node);
      rc := RecordJoining(id, len, node);
    }

    twostate lemma PendingOld(ns: seq<Node<Waiting>>, new node: Node<Handler>)
      requires fresh(node)
      ensures node !in Pending(ns)
    {}

    method PutUnsubscribe(id: nat, filter: seq<byte>) returns (len: nat)
      requires |filter| < 65536 && writeBuf.Length <= MAX_REMAINING
      modifies writeBuf
      ensures && len <= writeBuf.Length
        && (len == 0 <==> !(PacketLen(2 + |L.TopicsBytes([filter])|) <= writeBuf.Length))
              && (len > 0 ==> writeBuf[..len] == L.UnsubscribeBytes(0, id, [filter]))
    {
      hide Written, LenBytes, PacketLen, Header, U16;
      OneTopic(filter);
      var rc := L.SerializeUnsubscribe(writeBuf, writeBuf.Length, 0, id, [filter]);
      if rc < 0 {
        return 0;
      }
      WrittenPrefix(old(writeBuf[..]), writeBuf[..], L.UnsubscribeBytes(0, id, [filter]));
      len := rc;
    }

    /** mqtt_unsubscribe, of a subscription that is not being given up already. */
    method Unsubscribe(filter: seq<byte>, ok: bool) returns (rc: Rc)
      requires Valid() && |filter| < 65536 && NotLeaving(View(), Lookup(View().msgs, filter, []))
      modifies this, ackList, acks, writeBuf
      ensures Valid() && Outcome(UserUnsubscribe(old(View()), filter, ok), old(wire), old(delivered), rc)
    {
      hide Ring, TableOk, Tied, Pending, Records, Handlers, Exists, L.UnsubscribeBytes, L.TopicsBytes, PacketLen,
        NotLeaving, Lookup;
      ghost var c := View();
      UnsubscribeKeeps(c, filter, ok);
      BufSizeIs(c);
      if state != Connected {
        return NotConnected;
      }
      var id := NextPacketId();
      NextIdRange(c);
      Renumbered(c, id);
      var len := PutUnsubscribe(id, filter);
      if len <= 0 {
        return Failed;
      }
      rc := SendPacket(len, ok);
      if rc != Success {
        return;
      }
      var h := GetMsgHandler(filter, []);
      if h == None {
        return MemNotEnough;
      }
      SameLeaving(c, View(), Deref(h));
      rc := RecordLeaving(id, len, h.value);
    }

    lemma SameLeaving(c: Client, d: Client, h: Option<Handler>)
      requires NotLeaving(c, h) && c.acks == d.acks
      ensures NotLeaving(d, h)
    {}

    /** mqtt_suback_packet_handle. */
    method HandleSuback(id: nat, nack: bool) returns (rc: Rc)
      requires Valid()
      modifies this, ackList, acks, msgList, msgs, Pending(acks)
      ensures Valid() && Outcome(OnSuback(old(View()), id, nack), old(wire), old(delivered), rc)
    {
      hide Ring, TableOk, Tied, Unrecord, Found, Install, Pending, Records, Handlers, FromTable;
      if state != Connected {
        return if state == CleanSession then Cleaning else NotConnected;
      }
      ghost var c, ns := View(), acks;
      OnSubackKeeps(c, id, nack);
      UnrecordKeeps(c, SUBACK, id);
      var h := UnrecordWaiting(SUBACK, id);
      TiedRest(ns);
      if h == None {
        return MemNotEnough;
      }
      WasPending(ns, h, id);
      OthersApart(ns, h, id);
      if nack {
        MsgHandlerDestroy(h.value, None);
        return SubscribeNotAck;
      }
      InstallHandler(h.value);
      StillTied(ns, h, id, old(msgs));
      rc := Success;
    }

    /** The subscription that an acknowledged record owned. */
    lemma WasPending(ns: seq<Node<Waiting>>, h: Option<Node<Handler>>, id: nat)
      requires h.Some? && FromTable(h, ns, SUBACK, id) && Tied(ns, msgList, msgs, writeBuf.Length) && Loose(ns)
      ensures h.value != msgList && h.value !in msgs && h.value in Pending(ns) && Ring([h.value])
        && Linked(h.value, h.value)
    {
      var k :| 0 <= k < |ns| && IsNode(ns[k], SUBACK, id) && ns[k].val.handler == h;
      TiedOne(ns, k, msgList, msgs, writeBuf.Length);
      RingOne(h.value);
    }

    /** The subscriptions of the other records are other nodes. */
    lemma OthersApart(ns: seq<Node<Waiting>>, h: Option<Node<Handler>>, id: nat)
      requires h.Some? && FromTable(h, ns, SUBACK, id) && Tied(ns, msgList, msgs, writeBuf.Length)
      requires (forall n :: n in acks ==> n in ns) && !Exists(Records(acks), SUBACK, id)
      ensures forall i :: 0 <= i < |acks| && acks[i].val.kind == SUBACK && acks[i].val.handler.Some? ==>
        var x := acks[i].val.handler.value; x != h.value && x != msgList && x !in msgs
    {
      var k :| 0 <= k < |ns| && IsNode(ns[k], SUBACK, id) && ns[k].val.handler == h;
      forall i | 0 <= i < |acks| && acks[i].val.kind == SUBACK && acks[i].val.handler.Some?
        ensures var x := acks[i].val.handler.value; x != h.value && x != msgList && x !in msgs
      {
        assert !Is(Records(acks)[i], SUBACK, id);
        assert acks[i] in ns;
        var j :| 0 <= j < |ns| && ns[j] == acks[i];
        TiedOne(ns, j, msgList, msgs, writeBuf.Length);
      }
    }

    /** Installing it leaves the other records tied as they were. */
    lemma StillTied(ns: seq<Node<Waiting>>, h: Option<Node<Handler>>, id: nat, ms: seq<Node<Handler>>)
      requires h.Some? && FromTable(h, ns, SUBACK, id) && Tied(ns, msgList, ms, writeBuf.Length)
      requires Tied(acks, msgList, ms, writeBuf.Length) && (msgs == ms || msgs == ms + [h.value])
      requires (forall n :: n in acks ==> n in ns) && !Exists(Records(acks), SUBACK, id)
      ensures Tied(acks, msgList, msgs, writeBuf.Length)
    {
      var k :| 0 <= k < |ns| && IsNode(ns[k], SUBACK, id) && ns[k].val.handler == h;
      forall i | 0 <= i < |acks| ensures TieOk(acks[i].val, msgList, msgs, writeBuf.Length) {
        TiedOne(acks, i, msgList, ms, writeBuf.Length);
        assert !Is(Records(acks)[i], SUBACK, id);
        assert acks[i] in ns;
      }
    }

    /** Where in the subscription table a record that waits for UNSUBACK points. */
    lemma WasInstalled(ns: seq<Node<Waiting>>, k: nat) returns (j: nat)
      requires Tied(ns, msgList, msgs, writeBuf.Length) && k < |ns| && ns[k].val.kind == UNSUBACK
      ensures ns[k].val.handler.Some? && j < |msgs| && msgs[j] == ns[k].val.handler.value
    {
      TiedOne(ns, k, msgList, msgs, writeBuf.Length);
      j :| 0 <= j < |msgs| && msgs[j] == ns[k].val.handler.value;
    }

    /** The record that a handler was taken from, and the subscription that it points to. */
    lemma WhichRecord(ns: seq<Node<Waiting>>, h: Option<Node<Handler>>, id: nat) returns (k: nat, j: nat)
      requires h.Some? && FromTable(h, ns, UNSUBACK, id) && Tied(ns, msgList, msgs, writeBuf.Length)
      ensures k < |ns| && IsNode(ns[k], UNSUBACK, id) && ns[k].val.handler == h && j < |msgs| && msgs[j] == h.value
    {
      hide Tied;
      k :| 0 <= k < |ns| && IsNode(ns[k], UNSUBACK, id) && ns[k].val.handler == h;
      j := WasInstalled(ns, k);
    }

    /** mqtt_unsuback_packet_handle, for an identifier that is on record. */
    method HandleUnsuback(id: nat) returns (rc: Rc)
      requires Valid() && (state == Connected ==> Found(View().acks, UNSUBACK, id).Some?)
      modifies this, ackList, acks, msgList, msgs
      ensures Valid() && Outcome(OnUnsuback(old(View()), id), old(wire), old(delivered), rc)
    {
      hide Ring, TableOk, Tied, Unrecord, Found, Pending, Records, Handlers, WithoutFilter, ToRecord, FromTable, IsNode;
      if state != Connected {
        return if state == CleanSession then Cleaning else NotConnected;
      }
      ghost var c, ns, ms := View(), acks, msgs;
      var h := UnrecordWaiting(UNSUBACK, id);
      TiedRest(ns);
      ghost var k, j := WhichRecord(ns, h, id);
      LooseApart(acks);
      Around(msgList, msgs, j);
      MsgHandlerDestroy(h.value, Some(j));
      AfterUnsuback(c, ns, acks, ms, msgList, writeBuf.Length, id, k, j);
      rc := Success;
    }

    /** Subscriptions that wait for their SUBACK are not in the table. */
    lemma LooseApart(ns: seq<Node<Waiting>>)
      requires Tied(ns, msgList, msgs, writeBuf.Length)
      ensures forall i :: 0 <= i < |ns| && ns[i].val.kind == SUBACK && ns[i].val.handler.Some? ==>
        ns[i].val.handler.value != msgList && ns[i].val.handler.value !in msgs
    {
      forall i | 0 <= i < |ns| && ns[i].val.kind == SUBACK && ns[i].val.handler.Some?
        ensures ns[i].val.handler.value != msgList && ns[i].val.handler.value !in msgs
      {
        TiedOne(ns, i, msgList, msgs, writeBuf.Length);
      }
    }

    // ---- timeouts ----

    /** mqtt_ack_handler_resend. */
    method ResendWaiting(node: Node<Waiting>, ok: bool)
      requires Valid() && |node.val.payload| <= writeBuf.Length
      modifies writeBuf, this`wire
      ensures Valid() && View() == old(View()) && wire == old(wire) + Sends(ok, node.val.payload)
    {
      hide Ring, TableOk, Tied;
      var n := CopyBytes(writeBuf, 0, node.val.payload);
      assert writeBuf[..|node.val.payload|] == node.val.payload;
      var rc := SendPacket(|node.val.payload|, ok);
    }

    /** Giving up the k-th record, which is of no QoS exchange, with its subscription. */
    method GiveUp(node: Node<Waiting>, ghost k: nat)
      requires Valid() && k < |acks| && node == acks[k] && !IsQos(ToRecord(node.val))
      modifies this`acks, this`ackNumber, this`msgs, ackList, acks, msgList, msgs, Pending(acks)
      ensures Valid() && acks == old(acks[..k] + acks[k + 1..]) && forall n :: n in msgs ==> n in old(msgs)
      ensures var c := old(View()); var r := c.acks[k];
              View() == c.(acks := c.acks[..k] + c.acks[k + 1..], number := |c.acks| - 1,
                           msgs := if Leaving(r) then WithoutFilter(c.msgs, r.handler.value.filter) else c.msgs)
    {
      hide Ring, TableOk, Tied, Pending, WithoutFilter, Records, Handlers;
      ghost var c, ns, ms, len := View(), acks, msgs, writeBuf.Length;
      NodeFacts(k);
      LooseApart(acks);
      ghost var j := 0;
      if node.val.kind == SUBACK || node.val.kind == UNSUBACK {
        j := DestroyHandlerOf(node, ns, k);
      }
      if node.val.kind == UNSUBACK { AfterLeave(c, ns, ms, msgList, len, k, j); } else { CutKeeps(c, k); }
      CutTied(ns, msgList, ms, len, k);
      DropWaiting(node, k);
      LooseFewer(ns);
    }

    /** Destroying the subscription a record points to, if any: the j-th of the table, or one outside it. */
    method DestroyHandlerOf(node: Node<Waiting>, ghost ns: seq<Node<Waiting>>, ghost k: nat) returns (ghost j: nat)
      requires Shape() && Tied(ns, msgList, msgs, writeBuf.Length) && Loose(ns)
      requires k < |ns| && node == ns[k] && RecordOk(ToRecord(node.val))
      modifies this`msgs, msgList, msgs, Pending(ns)
      ensures Shape() && Loose(ns)
      ensures node.val.kind == UNSUBACK ==>
        j < |old(msgs)| && node.val.handler == Some(old(msgs)[j]) && msgs == old(msgs)[..j] + old(msgs)[j + 1..]
      ensures node.val.kind != UNSUBACK ==> msgs == old(msgs)
      ensures forall n :: n in msgs ==> n in old(msgs)
    {
      hide Ring, Tied, Pending;
      j := 0;
      if node.val.handler != None {
        if node.val.kind == UNSUBACK {
          j := WasInstalled(ns, k);
          Around(msgList, msgs, j);
        }
        LooseApart(ns);
        PendingHas(ns, k);
        MsgHandlerDestroy(node.val.handler.value, if node.val.kind == UNSUBACK then Some(j) else None);
      }
    }

    lemma PendingHas(ns: seq<Node<Waiting>>, k: nat)
      requires k < |ns| && ns[k].val.handler.Some?
      ensures ns[k].val.handler.value in Pending(ns)
    {}

    /** What validity says of one node of the table. */
    lemma NodeFacts(k: nat)
      requires Valid() && k < |acks|
      ensures var r := ToRecord(acks[k].val);
              && View().acks[k] == r && RecordOk(r) && ackNumber == |acks| && Nodup(acks)
              && acks[k].prev in [ackList] + acks && acks[k].next in [ackList] + acks
              && (acks[k].val.kind == SUBACK ==> acks[k].val.handler.Some?)
              && |acks[k].val.payload| <= writeBuf.Length
    {
      hide Ring;
      RingDistinct(ackList, acks);
      Neighbours(ackList, acks, k, acks);
      assert RecordOk(View().acks[k]);
    }

    /** The scan when it has passed i of the nodes `ns`; `kept` are those of them that stay. */
    ghost predicate Scanning(ns: seq<Node<Waiting>>, kept: seq<Node<Waiting>>, i: nat, c: Client, due: seq<bool>,
      oks: seq<bool>,
                             w0: seq<seq<byte>>)
      reads this
    {
      && i <= |ns| == |due| == |oks| == |c.acks| && Records(ns) == c.acks
      && acks == kept + ns[i..] && (forall n :: n in kept ==> n in ns)
      && |kept| == |Kept(c.acks[..i], due[..i])| && View() == Passed(c, due, i)
      && wire == w0 + Resent(c.acks[..i], due[..i], oks[..i])
    }

    lemma ScanningNext(ns: seq<Node<Waiting>>, kept: seq<Node<Waiting>>, i: nat, c: Client, due: seq<bool>,
      oks: seq<bool>, w0: seq<seq<byte>>)
      requires Valid() && Scanning(ns, kept, i, c, due, oks, w0)
      ensures i < |ns| ==>
        && |kept| < |acks| && acks[|kept|] == ns[i] && ns[i] != ackList
        && ns[i].next == (if i + 1 < |ns| then ns[i + 1] else ackList)
        && ToRecord(ns[i].val) == c.acks[i] && forall n :: n in acks ==> n in ns
      ensures i == |ns| ==> acks == kept
    {
      hide Ring, TableOk, Tied, Passed, Kept, Resent;
      if i < |ns| {
        Rest(kept, ns, i);
        Around(ackList, acks, |kept|);
        assert i + 1 < |ns| ==> acks[|kept| + 1] == ns[i + 1];
      }
    }

    /** One node further, the record staying where it is. */
    lemma ScanStays(ns: seq<Node<Waiting>>, kept: seq<Node<Waiting>>, i: nat, c: Client, due: seq<bool>, oks: seq<bool>,
                    w0: seq<seq<byte>>, w: seq<seq<byte>>)
      requires i < |ns| == |due| == |oks| == |c.acks| && Records(ns) == c.acks && acks == kept + ns[i..]
      requires (forall n :: n in kept ==> n in ns) && |kept| == |Kept(c.acks[..i], due[..i])|
        && View() == Passed(c, due, i)
      requires w == w0 + Resent(c.acks[..i], due[..i], oks[..i])
      requires wire == w + Sends(due[i] && IsQos(c.acks[i]) && oks[i], c.acks[i].payload)
      requires due[i] ==> IsQos(c.acks[i])
      ensures Scanning(ns, kept + [ns[i]], i + 1, c, due, oks, w0)
    {
      hide Passed, Kept, Resent, Surviving, WithoutFilter, Leaving, IsQos;
      PassOne(c, due, i);
      TakeOneMore(c.acks, due, oks, c.msgs, i);
      Rest(kept, ns, i);
      QosStays(c.acks[i]);
      AppendAssoc(w0, Resent(c.acks[..i], due[..i], oks[..i]),
        Sends(due[i] && IsQos(c.acks[i]) && oks[i], c.acks[i].payload));
      SameParts(View(), Passed(c, due, i + 1));
    }

    /** One node further, the record having been given up. */
    lemma ScanDrops(ns: seq<Node<Waiting>>, kept: seq<Node<Waiting>>, i: nat, c: Client, due: seq<bool>, oks: seq<bool>,
                    w0: seq<seq<byte>>, was: Client)
      requires i < |ns| == |due| == |oks| == |c.acks| && Records(ns) == c.acks && acks == kept + ns[i + 1..]
      requires (forall n :: n in kept ==> n in ns) && |kept| == |Kept(c.acks[..i], due[..i])|
        && was == Passed(c, due, i)
      requires wire == w0 + Resent(c.acks[..i], due[..i], oks[..i])
      requires due[i] && !IsQos(c.acks[i]) && |kept| < |was.acks| && was.acks[|kept|] == c.acks[i]
      requires View() == was.(acks := was.acks[..|kept|] + was.acks[|kept| + 1..], number := |was.acks| - 1,
                              msgs := if Leaving(c.acks[i]) then WithoutFilter(was.msgs,
                                c.acks[i].handler.value.filter) else was.msgs)
      ensures Scanning(ns, kept, i + 1, c, due, oks, w0)
    {
      hide Passed, Kept, Resent, Surviving, WithoutFilter, Leaving, IsQos;
      PassOne(c, due, i);
      TakeOneMore(c.acks, due, oks, c.msgs, i);
      AppendAssoc(w0, Resent(c.acks[..i], due[..i], oks[..i]), []);
      SameParts(View(), Passed(c, due, i + 1));
    }

    /** The body of the scanning loop. */
    method ScanOne(curr: Node<Waiting>, flag: nat, expired: bool, ok: bool,
                   ghost ns: seq<Node<Waiting>>, ghost kept: seq<Node<Waiting>>, ghost i: nat, ghost c: Client,
                   ghost due: seq<bool>, ghost oks: seq<bool>, ghost w0: seq<seq<byte>>)
      returns (ghost kept': seq<Node<Waiting>>)
      requires Valid() && Scanning(ns, kept, i, c, due, oks, w0) && i < |ns| && curr == ns[i]
      requires due[i] == (expired || flag != 1) && oks[i] == ok
      modifies this`acks, this`ackNumber, this`msgs, this`wire, writeBuf, ackList, acks, msgList, msgs, Pending(acks)
      ensures Valid() && Scanning(ns, kept', i + 1, c, due, oks, w0)
      ensures (forall n :: n in msgs ==> n in old(msgs)) && (forall n :: n in acks ==> n in old(acks))
    {
      hide Valid, Passed, Kept, Resent, Surviving, Pending, WithoutFilter, Records, Handlers, Leaving, IsQos;
      ScanningNext(ns, kept, i, c, due, oks, w0);
      Rest(kept, ns, i);
      NodeFacts(|kept|);
      ghost var was := View();
      AppendAssoc(wire, [], []);
      if !expired && flag == 1 {
        kept' := kept + [curr];
        ScanStays(ns, kept, i, c, due, oks, w0, wire);
        return;
      }
      if IsQos(ToRecord(curr.val)) {
        ResendWaiting(curr, ok);
        kept' := kept + [curr];
        ScanStays(ns, kept, i, c, due, oks, w0, old(wire));
        return;
      }
      GiveUp(curr, |kept|);
      kept' := kept;
      ScanDrops(ns, kept, i, c, due, oks, w0, was);
    }

    /** mqtt_ack_list_scan; whether each record's timer has expired, and whether each resend succeeds, is given
        by its place in the table. */
    method AckListScan(flag: nat, expired: seq<bool>, oks: seq<bool>)
      requires Valid() && |expired| == |acks| == |oks|
      modifies this, writeBuf, ackList, acks, msgList, msgs, Pending(acks)
      ensures Valid() && Outcome(Scan(old(View()), flag, expired, oks), old(wire), old(delivered), Success)
    {
      hide Valid, Ring, Kept, Resent, Surviving, Passed, Scanning, Records, Handlers;
      ShapeHolds();
      assert delivered + [] == delivered;
      AppendAssoc(wire, [], []);
      var empty := IsEmpty(ackList, [ackList] + acks);
      if empty || state != Connected {
        assert empty ==> acks == [];
        return;
      }
      ghost var c, w0, n := View(), wire, |acks|;
      ghost var due := Due(flag, expired);
      ghost var ns, kept := ScanAll(flag, expired, oks);
      ScanDone(ns, kept, n, c, due, oks, w0);
    }

    /** The scanning loop. */
    method ScanAll(flag: nat, expired: seq<bool>, oks: seq<bool>)
      returns (ghost ns: seq<Node<Waiting>>, ghost kept: seq<Node<Waiting>>)
      requires Valid() && |expired| == |acks| == |oks|
      modifies this`acks, this`ackNumber, this`msgs, this`wire, writeBuf, ackList, acks, msgList, msgs, Pending(acks)
      ensures Valid() && |ns| == |old(acks)|
        && Scanning(ns, kept, |ns|, old(View()), Due(flag, expired), oks, old(wire))
    {
      hide Valid, Ring, Kept, Resent, Surviving, Passed, Scanning, Records, Handlers, TableOk, Shape, View, Due, Tied,
        ToRecord, Linked;
      ShapeHolds();
      ns, kept := acks, [];
      ghost var ms, ps, c, w0 := msgs, Pending(acks), View(), wire;
      ghost var due := Due(flag, expired);
      var i := 0;
      Around(ackList, acks, 0);
      var curr := ackList.next;
      var next := curr.next;
      ScanStart(due, oks);
      while curr != ackList
        modifies this`acks, this`ackNumber, this`msgs, this`wire, writeBuf, ackList, ns, msgList, ms, ps
        invariant 0 <= i <= |ns| && Valid() && Scanning(ns, kept, i, c, due, oks, w0)
        invariant curr == (if i < |ns| then ns[i] else ackList) && next == curr.next
        invariant (forall n :: n in acks ==> n in ns) && (forall n :: n in msgs ==> n in ms)
        decreases |ns| - i
      {
        ScanningNext(ns, kept, i, c, due, oks, w0);
        PendingFewer(acks, ns);
        ByIndex(acks, ns);
        ByIndex(msgs, ms);
        kept := ScanOne(curr, flag, expired[i], oks[i], ns, kept, i, c, due, oks, w0);
        i := i + 1;
        ScanningNext(ns, kept, i, c, due, oks, w0);
        curr := next;
        next := curr.next;
      }
      ScanningNext(ns, kept, i, c, due, oks, w0);
    }

    lemma ShapeHolds()
      requires Valid()
      ensures Shape() && TableOk(View()) && Records(acks) == View().acks && |Records(acks)| == |acks|
    {}

    lemma ScanStart(due: seq<bool>, oks: seq<bool>)
      requires Valid() && |due| == |oks| == |acks|
      ensures Scanning(acks, [], 0, View(), due, oks, wire)
    {
      hide Ring, TableOk, Tied;
      var c := View();
      CountIs(c);
      assert c.acks[0..] == c.acks && c.acks[..0] == [] && [] + acks[0..] == acks && wire + [] == wire;
      SameParts(c, Passed(c, due, 0));
    }

    lemma ScanDone(ns: seq<Node<Waiting>>, kept: seq<Node<Waiting>>, n: nat, c: Client, due: seq<bool>,
      oks: seq<bool>, w0: seq<seq<byte>>)
      requires Scanning(ns, kept, n, c, due, oks, w0) && n == |ns| && TableOk(c)
      ensures var k := Kept(c.acks, due);
              && View() == c.(acks := k, number := Less(c.number, |c.acks| - |k|),
                msgs := Surviving(c.acks, due, c.msgs))
              && wire == w0 + Resent(c.acks, due, oks)
    {
      hide TableOk, Kept, Resent, Surviving, Records, Handlers;
      CountIs(c);
      assert c.acks[..n] == c.acks && due[..n] == due && oks[..n] == oks && c.acks[n..] == [];
      assert Kept(c.acks, due) + [] == Kept(c.acks, due);
    }

    lemma PendingFewer(ms: seq<Node<Waiting>>, ns: seq<Node<Waiting>>)
      requires forall n :: n in ms ==> n in ns
      ensures Pending(ms) <= Pending(ns)
    {
      forall h | h in Pending(ms) ensures h in Pending(ns) {
        var i :| 0 <= i < |ms| && ms[i].val.handler == Some(h);
        assert ms[i] in ns;
      }
    }

    // ---- the end of a session ----

    /** Validity while the table is being emptied, which leaves the counter behind. */
    ghost predicate Emptying()
      reads this, ackList, acks, msgList, msgs, Pending(acks)
    {
      Shape() && TableOk(View().(number := |acks|)) && Tied(acks, msgList, msgs, writeBuf.Length) && Loose(acks)
    }

    /** Freeing the first record, with the subscription it points to. */
    method FreeFirst(node: Node<Waiting>)
      requires Emptying() && acks != [] && node == acks[0]
      modifies this`acks, this`msgs, ackList, acks, msgList, msgs, Pending(acks)
      ensures Emptying() && acks == old(acks[..0] + acks[1..])
      ensures forall n :: n in msgs ==> n in old(msgs)
    {
      hide Ring, TableOk, Tied, Pending, WithoutFilter, Records, Handlers, ToRecord, Linked, RecordOk;
      ghost var c, ns, ms, len := View().(number := |acks|), acks, msgs, writeBuf.Length;
      FirstFacts(c);
      Around(ackList, acks, 0);
      AckHandlerDestroy(node, 0);
      ghost var j := DestroyHandlerOf(node, ns, 0);
      if node.val.kind == UNSUBACK { AfterLeave(c, ns, ms, msgList, len, 0, j); } else { CutKeeps(c, 0); }
      CutTied(ns, msgList, ms, len, 0);
      LooseFewer(ns);
    }

    lemma FirstFacts(c: Client)
      requires Emptying() && acks != [] && c == View().(number := |acks|)
      ensures c.acks == Records(acks) && c.msgs == Handlers(msgs) && Nodup(acks) && RecordOk(ToRecord(acks[0].val))
        && |c.acks| == |acks|
      ensures acks[0].val.handler.Some? ==> acks[0].val.kind == SUBACK || acks[0].val.kind == UNSUBACK
    {
      hide Ring;
      RingDistinct(ackList, acks);
      assert RecordOk(c.acks[0]);
    }

    /** mqtt_clean_session. */
    method CleanUp()
      requires Valid()
      modifies this, ackList, acks, msgList, msgs, Pending(acks)
      ensures Valid() && View() == Cleaned(old(View())) && wire == old(wire) && delivered == old(delivered)
    {
      hide Ring, Records, Handlers, TableOk, Tied;
      FreeRecords();
      ackNumber := 0;
      assert forall k :: 0 <= k < |msgs| ==> msgs[k] in old(msgs);
      FreeSubscriptions();
      state := Invalid;
      NothingLeft(old(View()), View());
    }

    /** The first half: the records, each with the subscription it points to. */
    method FreeRecords()
      requires Valid()
      modifies this`acks, this`msgs, ackList, acks, msgList, msgs, Pending(acks)
      ensures Shape() && acks == [] && forall n :: n in msgs ==> n in old(msgs)
    {
      hide Ring, Emptying, Records, Handlers;
      CountIs(View());
      var empty := IsEmpty(ackList, [ackList] + acks);
      if empty {
        assert acks == [];
        return;
      }
      EmptyingNow();
      FreeEach();
      assert [ackList] + acks == [ackList];
      RingNeighbours([ackList], 0);
      DelInit(ackList, [ackList], 0);
    }

    method FreeEach()
      requires Emptying()
      modifies this`acks, this`msgs, ackList, acks, msgList, msgs, Pending(acks)
      ensures Shape() && acks == [] && forall n :: n in msgs ==> n in old(msgs)
    {
      hide Ring, Emptying, Records, Handlers;
      ghost var ns, ms, ps := acks, msgs, Pending(acks);
      EmptyingShape();
      Around(ackList, acks, 0);
      var curr := ackList.next;
      var next := curr.next;
      while curr != ackList
        modifies this`acks, this`msgs, ackList, ns, msgList, ms, ps
        invariant Emptying() && curr == (if acks == [] then ackList else acks[0]) && next == curr.next
        invariant (forall n :: n in acks ==> n in ns) && (forall n :: n in msgs ==> n in ms)
        decreases |acks|
      {
        EmptyingShape();
        Around(ackList, acks, 0);
        PendingFewer(acks, ns);
        assert forall k :: 0 <= k < |acks| ==> acks[k] in ns;
        assert forall k :: 0 <= k < |msgs| ==> msgs[k] in ms;
        TailOf(acks);
        FreeFirst(curr);
        curr := next;
        next := curr.next;
      }
      EmptyingShape();
      Around(ackList, acks, 0);
    }

    lemma TailOf(ns: seq<Node<Waiting>>)
      requires ns != []
      ensures ns[..0] + ns[1..] == ns[1..] && forall n :: n in ns[1..] ==> n in ns
    {}

    lemma EmptyingNow()
      requires Valid() && ackNumber == |acks|
      ensures Emptying()
    {
      hide Ring, TableOk, Tied, Loose;
      assert View().(number := |acks|) == View();
    }

    lemma EmptyingShape()
      requires Emptying()
      ensures Shape()
    {}

    /** The second half: the subscriptions. */
    method FreeSubscriptions()
      requires Shape() && acks == []
      modifies this`msgs, msgList, msgs
      ensures Shape() && msgs == []
    {
      hide Ring, Handlers;
      var empty := IsEmpty(msgList, [msgList] + msgs);
      if empty {
        assert msgs == [];
        return;
      }
      ghost var ms := msgs;
      Around(msgList, msgs, 0);
      var curr := msgList.next;
      var next := curr.next;
      while curr != msgList
        modifies this`msgs, msgList, ms
        invariant Shape() && curr == (if msgs == [] then msgList else msgs[0]) && next == curr.next
        invariant forall n :: n in msgs ==> n in ms
        decreases |msgs|
      {
        Around(msgList, msgs, 0);
        Neighbours(msgList, msgs, 0, ms);
        MsgHandlerDestroy(curr, Some(0));
        Around(msgList, msgs, 0);
        curr := next;
        next := curr.next;
      }
      Around(msgList, msgs, 0);
      assert [msgList] + msgs == [msgList];
      DelInit(msgList, [msgList], 0);
    }

    lemma NothingLeft(c: Client, d: Client)
      requires TableOk(c) && acks == [] && msgs == [] && d.acks == Records(acks) && d.msgs == Handlers(msgs)
        && d.number == 0
      requires d.packetId == c.packetId && d.bufSize == c.bufSize
      ensures TableOk(d) && Tied(acks, msgList, msgs, writeBuf.Length) && Loose(acks) && d.acks == [] && d.msgs == []
    {}
  }
}
