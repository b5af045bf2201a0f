/** The client engine, a server that follows section 4.3.3 of MQTT 3.1.1, and the two byte streams between
    them, as a step system. Connections may be cut and resumed at any time, packets may go unread, and both
    sides may resend as often as they like. The session is never cleaned and allocation never fails. */
module QosSystem {
  import opened Bytes
  import opened Codec
  import opened Options
  import opened ClientSpec
  import opened ClientTable
  import E = ExactlyOnce
  import L = CodecLists

  // ---- what the bytes say ----

  datatype Packet = Pub(m: Publish) | Ackn(a: Codec.Ack) | Other

  function Decode(b: seq<byte>): Packet {
    if b == [] then Other
    else if HeaderKind(b[0]) == PUBLISH then
      match ParsePublish(b)
      case Parsed((m, _)) => Pub(m)
      case _ => Other
    else if HeaderKind(b[0]) in {PUBACK, PUBREC, PUBREL, PUBCOMP} then
      match ParseAck(b)
      case Parsed(a) => Ackn(a)
      case _ => Other
    else Other
  }

  lemma DecodePublish(m: Publish)
    requires GoodPublish(m)
    ensures Decode(PublishBytes(m)) == Pub(m)
  {
    hide LenBytes, PublishBody, ParsePublish, Header;
    PublishRoundTrip(m, []);
    assert PublishBytes(m) + [] == PublishBytes(m);
    assert PublishBytes(m)[0] == Header(PUBLISH, m.dup, m.qos, m.retained);
  }

  lemma DecodeAck(a: Codec.Ack)
    requires a.kind in {PUBACK, PUBREC, PUBREL, PUBCOMP} && a.dup < 2 && a.id < 65536
    ensures Decode(AckBytes(a)) == Ackn(a)
  {
    hide LenBytes, ParseAck, Header;
    AckRoundTrip(a, []);
    assert AckBytes(a) + [] == AckBytes(a);
  }

  // ---- what they say about one identifier ----

  datatype Content = Content(retained: nat, topic: seq<byte>, payload: seq<byte>)

  function ContentOf(m: Publish): Content { Content(m.retained, m.topic, m.payload) }

  predicate About(m: Publish, id: nat) { m.qos == 2 && m.id == id }

  function DownOne(p: Packet, id: nat): seq<E.Down<Content>> {
    if p.Pub? && About(p.m, id) then [E.Pub(ContentOf(p.m))]
    else if p.Ackn? && p.a.kind == PUBREL && p.a.id == id then [E.Rel]
    else []
  }

  function UpOne(p: Packet, id: nat): seq<E.Up> {
    if p.Ackn? && p.a.id == id && p.a.kind == PUBREC then [E.Rec]
    else if p.Ackn? && p.a.id == id && p.a.kind == PUBCOMP then [E.Comp]
    else []
  }

  function Downs(ch: seq<seq<byte>>, id: nat): seq<E.Down<Content>> {
    if ch == [] then [] else DownOne(Decode(ch[0]), id) + Downs(ch[1..], id)
  }

  function Ups(ch: seq<seq<byte>>, id: nat): seq<E.Up> {
    if ch == [] then [] else UpOne(Decode(ch[0]), id) + Ups(ch[1..], id)
  }

  lemma {:induction false} DownsAppend(ch: seq<seq<byte>>, b: seq<byte>, id: nat)
    ensures Downs(ch + [b], id) == Downs(ch, id) + DownOne(Decode(b), id)
  {
    hide DownOne, Decode;
    if ch == [] {
      assert ch + [b] == [b] && [b][1..] == [];
      assert Downs([], id) == [];
    } else {
      assert (ch + [b])[1..] == ch[1..] + [b];
      DownsAppend(ch[1..], b, id);
    }
  }

  lemma {:induction false} UpsAppend(ch: seq<seq<byte>>, b: seq<byte>, id: nat)
    ensures Ups(ch + [b], id) == Ups(ch, id) + UpOne(Decode(b), id)
  {
    hide UpOne, Decode;
    if ch == [] {
      assert ch + [b] == [b] && [b][1..] == [];
      assert Ups([], id) == [];
    } else {
      assert (ch + [b])[1..] == ch[1..] + [b];
      UpsAppend(ch[1..], b, id);
    }
  }

  /** The contents of the QoS 2 messages with that identifier, in order. */
  function Told(log: seq<Publish>, id: nat): seq<Content> {
    if log == [] then []
    else
      var last := log[|log| - 1];
      Told(log[..|log| - 1], id) + if About(last, id) then [ContentOf(last)] else []
  }

  function LastTold(log: seq<Publish>, id: nat): Option<Publish> {
    if log == [] then None
    else if About(log[|log| - 1], id) then Some(log[|log| - 1])
    else LastTold(log[..|log| - 1], id)
  }

  lemma ToldAppend(log: seq<Publish>, m: Publish, id: nat)
    ensures Told(log + [m], id) == Told(log, id) + if About(m, id) then [ContentOf(m)] else []
    ensures LastTold(log + [m], id) == if About(m, id) then Some(m) else LastTold(log, id)
  {
    assert (log + [m])[..|log|] == log;
  }

  // ---- the system ----

  /** `server` is the server as a sender, identifier by identifier; `serverHeld` the identifiers it holds as a
      receiver. The four logs are histories: what the server was given to send and the client passed on, and
      what the client accepted from the application and the server passed on. */
  datatype Sys = Sys(c: Client, toServer: seq<seq<byte>>, toClient: seq<seq<byte>>,
                     server: map<nat, E.Sender<Content>>, serverHeld: set<nat>,
                     serverAccepted: seq<Publish>, clientDelivered: seq<Publish>,
                     clientAccepted: seq<Publish>, serverDelivered: seq<Publish>)

  function ServerAt(s: Sys, id: nat): E.Sender<Content> { if id in s.server then s.server[id] else E.Idle }

  function LastContent(log: seq<Publish>, id: nat): Content {
    match LastTold(log, id)
    case Some(m) => ContentOf(m)
    case None => Content(0, [], [])
  }

  /** Where the client stands with an outgoing message: which of the two records it has. */
  function ClientStage(acks: seq<Record>, log: seq<Publish>, id: nat): E.Sender<Content> {
    if Exists(acks, PUBREC, id) then E.Sent(LastContent(log, id))
    else if Exists(acks, PUBCOMP, id) then E.Released(LastContent(log, id))
    else E.Idle
  }

  /** The exchange of one identifier from client to server. */
  function OutLink(s: Sys, id: nat): E.Link<Content> {
    E.Link(ClientStage(s.c.acks, s.clientAccepted, id), id in s.serverHeld, Downs(s.toServer, id), Ups(s.toClient, id),
           Told(s.clientAccepted, id), Told(s.serverDelivered, id))
  }

  /** And from server to client: the client holds the identifiers that have a PUBREL record. */
  function InLink(s: Sys, id: nat): E.Link<Content> {
    E.Link(ServerAt(s, id), Exists(s.c.acks, PUBREL, id), Downs(s.toClient, id), Ups(s.toServer, id),
           Told(s.serverAccepted, id), Told(s.clientDelivered, id))
  }

  // ---- steps ----

  /** Packets outside the QoS exchanges, as far as they matter to the client's tables. */
  datatype Note = Suback(id: nat, nack: bool) | Unsuback(id: nat) | NoNote

  const SUBFAIL := 0x80

  /** What the handlers of SUBACK and UNSUBACK take from a packet: the identifier, and whether the first code refuses.
      An UNSUBACK in which no identifier is found is taken for one of identifier 0, which is never on record. */
  function NoteOf(b: seq<byte>): Note {
    if b == [] then NoNote
    else if HeaderKind(b[0]) == SUBACK then
      var g := L.ParseSuback(b, 1);
      match g.answer
      case Parsed(id) => Suback(id, g.stored != [] && g.stored[0] == SUBFAIL)
      case _ => NoNote
    else if HeaderKind(b[0]) == UNSUBACK then
      match ParseAck(b)
      case Parsed(a) => Unsuback(a.id)
      case _ => Unsuback(0)
    else NoNote
  }

  /** The packets of the QoS exchanges are none of these. */
  lemma NoteOfQos(b: seq<byte>)
    requires !Decode(b).Other?
    ensures NoteOf(b) == NoNote
  {
    hide ParsePublish, ParseAck, HeaderKind;
  }

  datatype Move =
    | AppPublish(m: Publish, ok: bool)
    | AppSubscribe(h: Handler, ok: bool)
    | AppUnsubscribe(filter: seq<byte>, ok: bool)
    | ClientReads(ok: bool, note: Note)
    | ClientSkips
    | ClientScans(flag: nat, expired: seq<bool>, oks: seq<bool>)
    | Cut(state: State)
    | Connects
    | ServerAccepts(m: Publish, put: bool)
    | ServerResends(id: nat)
    | ServerReads(put: bool)
    | ServerSkips
    | ServerSends(b: seq<byte>)

  /** A packet that belongs to no QoS 2 exchange. */
  predicate Unrelated(b: seq<byte>) {
    match Decode(b)
    case Pub(m) => m.qos != 2
    case Ackn(a) => a.kind == PUBACK
    case Other => true
  }

  /** The message as it goes out: with the next identifier if its QoS is not 0. */
  function Numbered(c: Client, m: Publish): Publish { if m.qos != 0 then m.(id := NextId(c.packetId)) else m }

  /** What the application owes the engine: a well-formed message whose packet length fits 16 bits, and an
      identifier that came round again is no longer in use. */
  ghost predicate GoodRequest(c: Client, m: Publish) {
    var m1 := Numbered(c, m);
    && GoodPublish(m1) && m.qos <= 2 && m.dup == 0 && |PublishBytes(m1)| <= 65535
    && (m.qos != 0 ==>
          !Exists(c.acks, PUBREC, m1.id) && !Exists(c.acks, PUBCOMP, m1.id) && !Exists(c.acks, PUBACK, m1.id))
  }

  ghost predicate Enabled(s: Sys, mv: Move) {
    match mv
    case AppPublish(m, ok) => GoodRequest(s.c, m)
    case AppUnsubscribe(filter, ok) => NotLeaving(s.c, Lookup(s.c.msgs, filter, []))
    case ClientReads(ok, note) =>
      && s.toClient != [] && note == NoteOf(s.toClient[0])
      && (note.Unsuback? && s.c.state == Connected ==> Found(s.c.acks, UNSUBACK, note.id).Some?)
    case ClientSkips => s.toClient != []
    case ClientScans(flag, expired, oks) => |expired| == |s.c.acks| == |oks|
    case Cut(state) => state == Disconnected || state == Initialized
    case ServerAccepts(m, put) => GoodPublish(m) && m.qos == 2 && m.dup == 0 && ServerAt(s, m.id).Idle?
    case ServerReads(put) => s.toServer != []
    case ServerSkips => s.toServer != []
    case ServerSends(b) => Unrelated(b)
    case _ => true
  }

  /** The client's handler for a packet. */
  function OnPacket(c: Client, p: Packet, ok: bool, note: Note): Out
    requires note.Unsuback? && c.state == Connected ==> Found(c.acks, UNSUBACK, note.id).Some?
  {
    match p
    case Pub(m) => OnPublish(c, m, ok)
    case Ackn(a) =>
      if a.kind == PUBREC || a.kind == PUBREL then OnPubrecPubrel(c, a.kind, a.id, ok)
      else OnPubackPubcomp(c, a.kind, a.id)
    case Other =>
      match note
      case Suback(id, nack) => OnSuback(c, id, nack)
      case Unsuback(id) => OnUnsuback(c, id)
      case NoNote => Quiet(c, Success)
  }

  function Messages(ds: seq<Delivery>): seq<Publish> { if ds == [] then [] else [ds[0].m] + Messages(ds[1..]) }

  function PubPacket(m: Content, id: nat): Publish { Publish(1, 2, m.retained, id, m.topic, m.payload) }

  function PubRel(id: nat): seq<byte> { AckBytes(Codec.Ack(PUBREL, 0, id)) }

  function ServerReceives(s: Sys, p: Packet, put: bool): Sys {
    match p
    case Pub(m) =>
      if m.qos != 2 then s
      else
        s.(serverHeld := s.serverHeld + {m.id},
           serverDelivered := s.serverDelivered + if m.id in s.serverHeld then [] else [m],
           toClient := s.toClient + Sends(put, AckBytes(Codec.Ack(PUBREC, 0, m.id))))
    case Ackn(a) =>
      if a.kind == PUBREL then
        s.(serverHeld := s.serverHeld - {a.id},
           toClient := s.toClient + Sends(put, AckBytes(Codec.Ack(PUBCOMP, 0, a.id))))
      else if a.kind == PUBREC then
        (match ServerAt(s, a.id)
         case Idle => s
         case Sent(m) => s.(server := s.server[a.id := E.Released(m)],
           toClient := s.toClient + Sends(put, PubRel(a.id)))
         case Released(_) => s.(toClient := s.toClient + Sends(put, PubRel(a.id))))
      else if a.kind == PUBCOMP && ServerAt(s, a.id).Released? then s.(server := s.server[a.id := E.Idle])
      else s
    case Other => s
  }

  function Step(s: Sys, mv: Move): Sys
    requires Enabled(s, mv)
  {
    match mv
    case AppPublish(m, ok) =>
      var (o, m1) := UserPublish(s.c, m, ok);
      s.(c := o.c, toServer := s.toServer + o.sent,
         clientAccepted := s.clientAccepted + if o.rc == Success then [m1] else [])
    case AppSubscribe(h, ok) =>
      var o := UserSubscribe(s.c, h, ok);
      s.(c := o.c, toServer := s.toServer + o.sent)
    case AppUnsubscribe(filter, ok) =>
      var o := UserUnsubscribe(s.c, filter, ok);
      s.(c := o.c, toServer := s.toServer + o.sent)
    case ClientReads(ok, note) =>
      var o := OnPacket(s.c, Decode(s.toClient[0]), ok, note);
      s.(c := o.c, toServer := s.toServer + o.sent, toClient := s.toClient[1..],
         clientDelivered := s.clientDelivered + Messages(o.delivered))
    case ClientSkips => s.(toClient := s.toClient[1..])
    case ClientScans(flag, expired, oks) =>
      var o := Scan(s.c, flag, expired, oks);
      s.(c := o.c, toServer := s.toServer + o.sent)
    case Cut(state) => s.(c := s.c.(state := state), toServer := [], toClient := [])
    case Connects => s.(c := s.c.(state := Connected), toServer := [], toClient := [])
    case ServerAccepts(m, put) =>
      s.(server := s.server[m.id := E.Sent(ContentOf(m))], serverAccepted := s.serverAccepted + [m],
         toClient := s.toClient + Sends(put, PublishBytes(m)))
    case ServerResends(id) =>
      (match ServerAt(s, id)
       case Idle => s
       case Sent(m) => s.(toClient := s.toClient + [PublishBytes(PubPacket(m, id))])
       case Released(_) => s.(toClient := s.toClient + [PubRel(id)]))
    case ServerReads(put) => ServerReceives(s.(toServer := s.toServer[1..]), Decode(s.toServer[0]), put)
    case ServerSkips => s.(toServer := s.toServer[1..])
    case ServerSends(b) => s.(toClient := s.toClient + [b])
  }

  // ---- the invariant ----

  /** The bytes a record would resend are those of its packet. */
  ghost predicate Backed(r: Record, log: seq<Publish>) {
    if r.kind == PUBREC then
      var m := LastTold(log, r.id);
      m.Some? && GoodPublish(m.value) && r.payload == PublishBytes(m.value.(dup := 1))
    else if r.kind == PUBCOMP then r.payload == PubRel(r.id)
    else if r.kind == PUBREL then r.payload == AckBytes(Codec.Ack(PUBREC, 0, r.id))
    else if r.kind == PUBACK then Unrelated(r.payload)
    else true
  }

  ghost predicate AllBacked(acks: seq<Record>, log: seq<Publish>) {
    forall i :: 0 <= i < |acks| ==> Backed(acks[i], log)
  }

  ghost predicate OneStage(acks: seq<Record>) {
    forall id: nat :: !(Exists(acks, PUBREC, id) && Exists(acks, PUBCOMP, id))
  }

  ghost predicate ServerOk(s: Sys) {
    forall id :: id in s.server ==>
      id < 65536 && (s.server[id].Idle? || GoodPublish(PubPacket(s.server[id].m, id)))
  }

  ghost predicate Inv(s: Sys) {
    && TableOk(s.c) && AllBacked(s.c.acks, s.clientAccepted) && OneStage(s.c.acks) && ServerOk(s)
    && forall id: nat :: E.Inv(OutLink(s, id)) && E.Inv(InLink(s, id))
  }
}
