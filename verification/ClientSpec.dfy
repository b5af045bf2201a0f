/** The client engine's operations as functions of its state: the table of expected acknowledgements, the
    subscription table, packet identifiers, and the handlers of incoming packets.

    A send is told to succeed or fail by its caller, and so are timer expiries. What a successful send puts on
    the connection is part of the outcome. */
module ClientSpec {
  import opened Bytes
  import opened Codec
  import opened Options
  import L = CodecLists
  import T = TopicMatch

  datatype State = Invalid | Initialized | Connected | Disconnected | CleanSession

  /** An installed or pending subscription; `callback` stands for the function pointer. */
  datatype Handler = Handler(filter: seq<byte>, qos: nat, callback: nat)

  /** An expected acknowledgement: which packet must come, and the bytes to resend until then. */
  datatype Record = Record(kind: nat, id: nat, payload: seq<byte>, handler: Option<Handler>)

  datatype Client = Client(state: State, packetId: nat, number: nat, bufSize: nat,
                           acks: seq<Record>, msgs: seq<Handler>)

  datatype Rc =
    | Success | Failed | NotConnected | Cleaning | NodeExists | SendFailed | TooManyHandlers | BufferTooShort
    | AckTypeError | SerializeAckFailed | MemNotEnough | SubscribeError | SubscribeNotAck

  /** A message handed on, and the subscription it goes to; none means the interceptor, if any. */
  datatype Delivery = Delivery(m: Publish, to: Option<Handler>)

  datatype Out = Out(c: Client, sent: seq<seq<byte>>, delivered: seq<Delivery>, rc: Rc)

  const MAX_HANDLERS := 64
  const MAX_ID := 65534
  const NUMBER_RANGE := 16777216

  function Quiet(c: Client, rc: Rc): Out { Out(c, [], [], rc) }
  function Sends(ok: bool, b: seq<byte>): seq<seq<byte>> { if ok then [b] else [] }

  /** mqtt_is_connected. */
  function ConnectedRc(c: Client): Rc {
    if c.state == CleanSession then Cleaning else if c.state != Connected then NotConnected else Success
  }

  // ---- the table of expected acknowledgements ----

  predicate Is(r: Record, kind: nat, id: nat) { r.kind == kind && r.id == id }

  predicate Exists(acks: seq<Record>, kind: nat, id: nat) { exists i :: 0 <= i < |acks| && Is(acks[i], kind, id) }

  /** The table without the records of that kind and identifier. */
  function Remove(acks: seq<Record>, kind: nat, id: nat): (r: seq<Record>)
    ensures |r| <= |acks|
  {
    if acks == [] then []
    else
      var last := acks[|acks| - 1];
      Remove(acks[..|acks| - 1], kind, id) + if Is(last, kind, id) then [] else [last]
  }

  /** The handler of the last such record. */
  function Found(acks: seq<Record>, kind: nat, id: nat): Option<Handler> {
    if acks == [] then None
    else if Is(acks[|acks| - 1], kind, id) then acks[|acks| - 1].handler
    else Found(acks[..|acks| - 1], kind, id)
  }

  /** The counter after n decrements, each of which stops at zero. */
  function Less(number: nat, n: nat): nat { if n <= number then number - n else 0 }

  /** mqtt_ack_list_record. The length travels through a 16-bit parameter. */
  function RecordAck(c: Client, kind: nat, id: nat, b: seq<byte>, h: Option<Handler>): (Client, Rc) {
    if Exists(c.acks, kind, id) then (c, NodeExists)
    else
      (c.(number := (c.number + 1) % NUMBER_RANGE, acks := c.acks + [Record(kind, id, b[..|b| % 65536], h)]), Success)
  }

  /** mqtt_ack_list_unrecord. */
  function Unrecord(c: Client, kind: nat, id: nat): Client {
    var rest := Remove(c.acks, kind, id);
    c.(number := Less(c.number, |c.acks| - |rest|), acks := rest)
  }

  function NextId(n: nat): nat { if n == MAX_ID then 1 else (n + 1) % 65536 }

  /** The identifier of the k-th request after the counter stood at n. */
  function IdAfter(n: nat, k: nat): nat { if k == 0 then n else NextId(IdAfter(n, k - 1)) }

  lemma {:induction false} IdAfterIs(n: nat, k: nat)
    requires 1 <= n <= MAX_ID
    ensures IdAfter(n, k) == (n - 1 + k) % MAX_ID + 1
  {
    if k > 0 {
      IdAfterIs(n, k - 1);
      NextResidue(n - 1 + (k - 1));
    }
  }

  lemma NextResidue(x: nat)
    ensures (x + 1) % MAX_ID == if x % MAX_ID + 1 == MAX_ID then 0 else x % MAX_ID + 1
  {
    var q, r := x / MAX_ID, x % MAX_ID;
    assert x == MAX_ID * q + r;
  }

  /** Two requests have the same identifier exactly when their distance is a multiple of 65534: the identifiers
      of any 65534 consecutive requests are distinct, and then they come round again in the same order. */
  lemma IdsComeRound(n: nat, j: nat, k: nat)
    requires 1 <= n <= MAX_ID && j <= k
    ensures 1 <= IdAfter(n, k) <= 65534
    ensures IdAfter(n, j) == IdAfter(n, k) <==> (k - j) % 65534 == 0
  {
    hide IdAfter;
    IdAfterIs(n, j);
    IdAfterIs(n, k);
    SameResidue(n - 1 + j, n - 1 + k);
  }

  lemma SameResidue(x: nat, y: nat)
    requires x <= y
    ensures x % MAX_ID == y % MAX_ID <==> (y - x) % MAX_ID == 0
  {
    var a, b, c := x / MAX_ID, y / MAX_ID, (y - x) / MAX_ID;
    assert x == MAX_ID * a + x % MAX_ID && y == MAX_ID * b + y % MAX_ID && y - x == MAX_ID * c + (y - x) % MAX_ID;
  }

  // ---- the subscription table ----

  predicate HasFilter(msgs: seq<Handler>, filter: seq<byte>) {
    exists i :: 0 <= i < |msgs| && msgs[i].filter == filter
  }

  function WithoutFilter(msgs: seq<Handler>, filter: seq<byte>): seq<Handler> {
    if msgs == [] then []
    else
      var last := msgs[|msgs| - 1];
      WithoutFilter(msgs[..|msgs| - 1], filter) + if last.filter == filter then [] else [last]
  }

  /** mqtt_get_msg_handler: the first subscription whose filter is the given text, or matches the given name
      with wildcards. For an arrived message the two are the same; unsubscribing passes a C string, which the
      matcher takes for an empty name. */
  function Lookup(msgs: seq<Handler>, text: seq<byte>, name: seq<byte>): (r: Option<Handler>)
    ensures r.Some? ==> r.value in msgs
  {
    if msgs == [] then None
    else if msgs[0].filter == text || T.Walk(msgs[0].filter, name) then Some(msgs[0])
    else Lookup(msgs[1..], text, name)
  }

  /** mqtt_msg_handlers_install: a second handler for the same filter is thrown away. */
  function Install(c: Client, h: Handler): Client {
    if HasFilter(c.msgs, h.filter) then c else c.(msgs := c.msgs + [h])
  }

  // ---- what the application calls ----

  /** Whether a packet with `rem` bytes after the size field fits the write buffer. */
  predicate Fits(c: Client, rem: nat) { PacketLen(rem) <= c.bufSize }

  /** mqtt_set_publish_dup on the serialized packet. */
  function SetDup(b: seq<byte>): seq<byte> {
    if |b| == 0 || HeaderKind(b[0]) != PUBLISH then b
    else b[0 := Header(PUBLISH, 1, HeaderQos(b[0]), HeaderRetain(b[0]))]
  }

  /** mqtt_publish; the identifier of the given message is overwritten when its QoS is not 0. */
  function UserPublish(c: Client, m: Publish, ok: bool): (Out, Publish) {
    if c.state != Connected then (Quiet(c, NotConnected), m)
    else if |m.payload| > c.bufSize then (Quiet(c, BufferTooShort), m)
    else if m.qos != 0 && c.number >= MAX_HANDLERS then (Quiet(c.(state := Disconnected), TooManyHandlers), m)
    else
      var c1 := if m.qos != 0 then c.(packetId := NextId(c.packetId)) else c;
      var m1 := if m.qos != 0 then m.(id := c1.packetId) else m;
      if !Fits(c, PublishLength(m1)) then (Quiet(c1, Failed), m1)
      else if !ok then (Quiet(c1, SendFailed), m1)
      else
        var b := PublishBytes(m1);
        var (c2, rc) :=
          if m.qos == 1 then RecordAck(c1, PUBACK, c1.packetId, SetDup(b), None)
          else if m.qos == 2 then RecordAck(c1, PUBREC, c1.packetId, SetDup(b), None)
          else (c1, Success);
        (Out(c2, [b], [], rc), m1)
  }

  /** mqtt_subscribe. */
  function UserSubscribe(c: Client, h: Handler, ok: bool): Out {
    if c.state != Connected then Quiet(c, NotConnected)
    else
      var c1 := c.(packetId := NextId(c.packetId));
      var fs := [L.Filter(h.filter, h.qos)];
      if !Fits(c, 2 + |L.FiltersBytes(fs)|) then Quiet(c1, SubscribeError)
      else if !ok then Quiet(c1, SendFailed)
      else
        var b := L.SubscribeBytes(0, c1.packetId, fs);
        var (c2, rc) := RecordAck(c1, SUBACK, c1.packetId, b, Some(h));
        Out(c2, [b], [], rc)
  }

  /** mqtt_unsubscribe. */
  function UserUnsubscribe(c: Client, filter: seq<byte>, ok: bool): Out {
    if c.state != Connected then Quiet(c, NotConnected)
    else
      var c1 := c.(packetId := NextId(c.packetId));
      if !Fits(c, 2 + |L.TopicsBytes([filter])|) then Quiet(c1, Failed)
      else if !ok then Quiet(c1, SendFailed)
      else
        var b := L.UnsubscribeBytes(0, c1.packetId, [filter]);
        match Lookup(c.msgs, filter, [])
        case None => Out(c1, [b], [], MemNotEnough)
        case Some(h) =>
          var (c2, rc) := RecordAck(c1, UNSUBACK, c1.packetId, b, Some(h));
          Out(c2, [b], [], rc)
  }

  // ---- what arrives ----

  /** mqtt_publish_packet_handle. The acknowledgement goes out first; a QoS 2 message is passed on only if
      its identifier was not on record. */
  function OnPublish(c: Client, m: Publish, ok: bool): Out {
    if c.state != Connected then Quiet(c, ConnectedRc(c))
    else
      var d := [Delivery(m, Lookup(c.msgs, m.topic, m.topic))];
      if m.qos == 0 then Out(c, [], d, Success)
      else if m.qos > 2 then Quiet(c, SerializeAckFailed)
      else
        var b := AckBytes(Codec.Ack(if m.qos == 1 then PUBACK else PUBREC, 0, m.id));
        if !ok then Quiet(c, SendFailed)
        else if m.qos == 1 then Out(c, [b], d, Success)
        else
          var (c1, rc) := RecordAck(c, PUBREL, m.id, b, None);
          Out(c1, [b], if rc == NodeExists then [] else d, rc)
  }

  /** The client after a PUBREC: a record that waits for PUBCOMP is there, one that waits for PUBREC is not. */
  function AfterPubrec(c: Client, id: nat): Client {
    Unrecord(RecordAck(c, PUBCOMP, id, AckBytes(Codec.Ack(PUBREL, 0, id)), None).0, PUBREC, id)
  }

  /** mqtt_pubrec_and_pubrel_packet_handle: PUBREC is answered by PUBREL unless that was done before, PUBREL
      by PUBCOMP; then the record that waited for the packet goes, whatever became of the answer. */
  function OnPubrecPubrel(c: Client, kind: nat, id: nat, ok: bool): Out {
    if c.state != Connected then Quiet(c, ConnectedRc(c))
    else if kind == PUBREC then
      Out(AfterPubrec(c, id),
          if Exists(c.acks, PUBCOMP, id) then [] else Sends(ok, AckBytes(Codec.Ack(PUBREL, 0, id))), [], Success)
    else if kind == PUBREL then
      Out(Unrecord(c, PUBREL, id), Sends(ok, AckBytes(Codec.Ack(PUBCOMP, 0, id))), [], Success)
    else Quiet(Unrecord(c, kind, id), Success)
  }

  /** mqtt_puback_and_pubcomp_packet_handle. */
  function OnPubackPubcomp(c: Client, kind: nat, id: nat): Out {
    if c.state != Connected then Quiet(c, ConnectedRc(c)) else Quiet(Unrecord(c, kind, id), Success)
  }

  /** mqtt_suback_packet_handle. */
  function OnSuback(c: Client, id: nat, nack: bool): Out {
    if c.state != Connected then Quiet(c, ConnectedRc(c))
    else
      var c1 := Unrecord(c, SUBACK, id);
      match Found(c.acks, SUBACK, id)
      case None => Quiet(c1, MemNotEnough)
      case Some(h) => if nack then Quiet(c1, SubscribeNotAck) else Quiet(Install(c1, h), Success)
  }

  /** mqtt_unsuback_packet_handle, for an identifier that is on record: without a record the code reads a
      pointer it never set. */
  function OnUnsuback(c: Client, id: nat): Out
    requires c.state == Connected ==> Found(c.acks, UNSUBACK, id).Some?
  {
    if c.state != Connected then Quiet(c, ConnectedRc(c))
    else
      var h := Found(c.acks, UNSUBACK, id).value;
      var c1 := Unrecord(c, UNSUBACK, id);
      Quiet(c1.(msgs := WithoutFilter(c1.msgs, h.filter)), Success)
  }

  // ---- timeouts ----

  predicate IsQos(r: Record) { r.kind == PUBACK || r.kind == PUBREC || r.kind == PUBREL || r.kind == PUBCOMP }

  /** What a scan keeps of the records it has passed: those not due, and the QoS records. */
  function Kept(acks: seq<Record>, due: seq<bool>): (r: seq<Record>)
    requires |due| == |acks|
    ensures |r| <= |acks|
  {
    if acks == [] then []
    else
      var n := |acks| - 1;
      Kept(acks[..n], due[..n]) + if due[n] && !IsQos(acks[n]) then [] else [acks[n]]
  }

  function Resent(acks: seq<Record>, due: seq<bool>, oks: seq<bool>): seq<seq<byte>>
    requires |due| == |acks| == |oks|
  {
    if acks == [] then []
    else
      var n := |acks| - 1;
      Resent(acks[..n], due[..n], oks[..n]) + Sends(due[n] && IsQos(acks[n]) && oks[n], acks[n].payload)
  }

  /** The subscriptions left when the due unsubscriptions have been given up: they go as if acknowledged. */
  function Surviving(acks: seq<Record>, due: seq<bool>, msgs: seq<Handler>): seq<Handler>
    requires |due| == |acks|
  {
    if acks == [] then msgs
    else
      var n := |acks| - 1;
      var rest := Surviving(acks[..n], due[..n], msgs);
      if due[n] && acks[n].kind == UNSUBACK && acks[n].handler.Some?
      then WithoutFilter(rest, acks[n].handler.value.filter)
      else rest
  }

  /** With flag 0 every record is due at once. */
  function Due(flag: nat, expired: seq<bool>): (r: seq<bool>)
    ensures |r| == |expired| && forall i :: 0 <= i < |r| ==> r[i] == (expired[i] || flag != 1)
  {
    seq(|expired|, i requires 0 <= i < |expired| => expired[i] || flag != 1)
  }

  /** mqtt_ack_list_scan. */
  function Scan(c: Client, flag: nat, expired: seq<bool>, oks: seq<bool>): Out
    requires |expired| == |c.acks| == |oks|
  {
    if c.acks == [] || c.state != Connected then Quiet(c, Success)
    else
      var due := Due(flag, expired);
      var kept := Kept(c.acks, due);
      Out(c.(acks := kept, number := Less(c.number, |c.acks| - |kept|), msgs := Surviving(c.acks, due, c.msgs)),
          Resent(c.acks, due, oks), [], Success)
  }

  /** mqtt_clean_session. */
  function Cleaned(c: Client): Client { c.(acks := [], number := 0, msgs := [], state := Invalid) }
}
