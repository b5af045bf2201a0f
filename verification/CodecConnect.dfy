/** CONNECT: optional fields driven by a flags byte (MQTT 3.1.1, section 3.1). */
module CodecConnect {
  import opened Bytes
  import opened Options
  import opened Codec

  datatype Will = Will(topic: seq<byte>, message: seq<byte>, qos: nat, retained: nat)

  datatype Connect = Connect(version: nat, clean: nat, keepAlive: nat, clientId: seq<byte>,
                             will: Option<Will>, username: Option<seq<byte>>, password: Option<seq<byte>>)

  function Name(version: nat): (r: seq<byte>)
    ensures |r| == if version == 4 then 4 else 6
  {
    if version == 4 then [77, 81, 84, 84] else [77, 81, 73, 115, 100, 112]
  }

  /** The connect flags, from the low bit: unused, clean session, will, will QoS (2), will retain, password, user
      name. */
  function Flags(o: Connect): (b: byte)
  {
    FlagsByte(o.clean % 2, if o.will.Some? then 1 else 0,
              if o.will.Some? then o.will.value.qos % 4 else 0,
              if o.will.Some? then o.will.value.retained % 2 else 0,
              if o.password.Some? then 1 else 0, if o.username.Some? then 1 else 0)
  }

  function FlagsByte(clean: nat, will: nat, qos: nat, retain: nat, password: nat, username: nat): (b: byte)
    requires clean < 2 && will < 2 && qos < 4 && retain < 2 && password < 2 && username < 2
    ensures b / 2 % 2 == clean && b / 4 % 2 == will && b / 8 % 4 == qos && b / 32 % 2 == retain
         && b / 64 % 2 == password && b / 128 == username
  {
    var b := clean * 2 + will * 4 + qos * 8 + retain * 32 + password * 64 + username * 128;
    assert b / 64 == password + 2 * username;
    assert b / 32 == retain + 2 * (password + 2 * username);
    assert b / 8 == qos + 4 * (retain + 2 * (password + 2 * username));
    assert b / 4 == will + 2 * (b / 8);
    assert b / 2 == clean + 2 * (b / 4);
    b
  }

  function OptBytes(s: Option<seq<byte>>): seq<byte> {
    if s.Some? then StrBytes(s.value) else []
  }

  function WillBytes(w: Option<Will>): seq<byte> {
    if w.Some? then StrBytes(w.value.topic) + StrBytes(w.value.message) else []
  }

  /** The fields after the flags. */
  function ConnectTail(o: Connect): seq<byte> {
    U16(o.keepAlive) + (StrBytes(o.clientId) + (WillBytes(o.will) + (OptBytes(o.username) + OptBytes(o.password))))
  }

  function ConnectBody(o: Connect): seq<byte> {
    StrBytes(Name(o.version)) + ([if o.version == 4 then 4 else 3, Flags(o)] + ConnectTail(o))
  }

  function ConnectBytes(o: Connect): seq<byte> {
    [Header(CONNECT, 0, 0, 0)] + LenBytes(|ConnectBody(o)|) + ConnectBody(o)
  }

  /** The length computation, field by field. */
  method ConnectLength(o: Connect) returns (len: nat)
    requires o.version in {3, 4}
    ensures len == |ConnectBody(o)|
  {
    len := 0;
    if o.version == 3 {
      len := 12;
    } else if o.version == 4 {
      len := 10;
    }
    len := len + |o.clientId| + 2;
    if o.will.Some? {
      len := len + |o.will.value.topic| + 2 + |o.will.value.message| + 2;
    }
    if o.username.Some? {
      len := len + |o.username.value| + 2;
    }
    if o.password.Some? {
      len := len + |o.password.value| + 2;
    }
  }

  method SerializeConnect(buf: array<byte>, buflen: nat, o: Connect) returns (rc: int)
    requires buflen <= buf.Length && o.version in {3, 4}
    requires buflen <= MAX_REMAINING || |ConnectBody(o)| <= MAX_REMAINING
    modifies buf
    ensures rc == if PacketLen(|ConnectBody(o)|) > buflen then BUFFER_TOO_SHORT else |ConnectBytes(o)|
    ensures rc < 0 ==> buf[..] == old(buf[..])
    ensures rc >= 0 ==> Written(old(buf[..]), buf[..], ConnectBytes(o))
  {
    hide Splice, LenBytes, Header, PacketLen, Flags, ConnectTail, StrBytes, Name, Written;
    var len := ConnectLength(o);
    PacketLenLonger(len);
    if PacketLen(len) > buflen {
      return BUFFER_TOO_SHORT;
    }
    PacketLenCovers(len);
    ghost var b := buf[..];
    ghost var h, name := [Header(CONNECT, 0, 0, 0)] + LenBytes(len), StrBytes(Name(o.version));
    var v: byte := if o.version == 4 then 4 else 3;
    var p := WriteFixed(buf, Header(CONNECT, 0, 0, 0), len);
    p := WriteString(buf, p, Name(o.version));
    SpliceTwice(b, 0, h, name);
    p := WriteChar(buf, p, v);
    SpliceTwice(b, 0, h + name, [v]);
    p := WriteChar(buf, p, Flags(o));
    SpliceTwice(b, 0, h + name + [v], [Flags(o)]);
    p := WriteTail(buf, p, o, b, h + name + [v] + [Flags(o)]);
    JoinBody(h, name, v, Flags(o), ConnectTail(o));
    WrittenIs(b, buf[..], ConnectBytes(o));
    rc := p;
  }

  lemma JoinBody(h: seq<byte>, name: seq<byte>, v: byte, f: byte, tail: seq<byte>)
    ensures h + name + [v] + [f] + tail == h + (name + ([v, f] + tail))
  {
    assert [v] + [f] == [v, f];
  }

  /** An optional string. */
  method WriteOpt(buf: array<byte>, p0: nat, o: Option<seq<byte>>, ghost b: seq<byte>, ghost done: seq<byte>)
    returns (p: nat)
    requires |b| == buf.Length && p0 == |done| && |done| + |OptBytes(o)| <= buf.Length && buf[..] == Splice(b, 0, done)
    modifies buf
    ensures p == |done| + |OptBytes(o)| && buf[..] == Splice(b, 0, done + OptBytes(o))
  {
    hide Splice, StrBytes;
    p := p0;
    if o.Some? {
      p := WriteString(buf, p, o.value);
      SpliceTwice(b, 0, done, StrBytes(o.value));
    } else {
      assert done + [] == done;
    }
  }

  method WriteWill(buf: array<byte>, p0: nat, w: Option<Will>, ghost b: seq<byte>, ghost done: seq<byte>)
    returns (p: nat)
    requires |b| == buf.Length && p0 == |done| && |done| + |WillBytes(w)| <= buf.Length && buf[..] == Splice(b, 0, done)
    modifies buf
    ensures p == |done| + |WillBytes(w)| && buf[..] == Splice(b, 0, done + WillBytes(w))
  {
    hide Splice, StrBytes;
    p := p0;
    if w.Some? {
      p := WriteString(buf, p, w.value.topic);
      SpliceTwice(b, 0, done, StrBytes(w.value.topic));
      p := WriteString(buf, p, w.value.message);
      SpliceTwice(b, 0, done + StrBytes(w.value.topic), StrBytes(w.value.message));
      Join(done, StrBytes(w.value.topic), StrBytes(w.value.message));
    } else {
      assert done + [] == done;
    }
  }

  lemma Join(a: seq<byte>, b: seq<byte>, c: seq<byte>)
    ensures (a + b) + c == a + (b + c)
  {}

  method WriteTail(buf: array<byte>, p0: nat, o: Connect, ghost b: seq<byte>, ghost done: seq<byte>) returns (p: nat)
    requires |b| == buf.Length && p0 == |done| && |done| + |ConnectTail(o)| <= buf.Length
    requires buf[..] == Splice(b, 0, done)
    modifies buf
    ensures p == |done| + |ConnectTail(o)| && buf[..] == Splice(b, 0, done + ConnectTail(o))
  {
    hide Splice, U16, StrBytes, WillBytes, OptBytes;
    ghost var k, i, w, u, l := U16(o.keepAlive), StrBytes(o.clientId), WillBytes(o.will), OptBytes(o.username),
      OptBytes(o.password);
    p := WriteInt(buf, p0, o.keepAlive);
    SpliceTwice(b, 0, done, k);
    p := WriteString(buf, p, o.clientId);
    SpliceTwice(b, 0, done + k, i);
    p := WriteWill(buf, p, o.will, b, done + k + i);
    p := WriteOpt(buf, p, o.username, b, done + k + i + w);
    p := WriteOpt(buf, p, o.password, b, done + k + i + w + u);
    JoinFive(done, k, i, w, u, l);
  }

  lemma JoinFive(a: seq<byte>, k: seq<byte>, i: seq<byte>, w: seq<byte>, u: seq<byte>, l: seq<byte>)
    ensures a + k + i + w + u + l == a + (k + (i + (w + (u + l))))
  {}

  // ---- parsing ----

  /** memcmp over the shorter of the two lengths. */
  predicate SameStart(a: seq<byte>, b: seq<byte>) {
    var n := if |a| < |b| then |a| else |b|;
    a[..n] == b[..n]
  }

  predicate CheckVersion(protocol: seq<byte>, version: byte) {
    (version == 3 && SameStart(protocol, Name(3))) || (version == 4 && SameStart(protocol, Name(4)))
  }

  /** An optional field that must leave at least three bytes, so an empty string at the very end is refused. */
  function ReadOptional(s: seq<byte>, p: nat, end: int, present: bool): (r: Parse<(Option<seq<byte>>, nat)>)
  {
    if !present then Parsed((None, p))
    else if end - p < 3 then Rejected(0)
    else
      match ReadString(s, p, end)
      case Rejected(rc) => Rejected(0)
      case Overread => Overread
      case Parsed((t, q)) => Parsed((Some(t), q))
  }

  function ReadWill(s: seq<byte>, p: nat, end: int, flags: byte): Parse<(Option<Will>, nat)> {
    if flags / 4 % 2 == 0 then Parsed((None, p))
    else
      match ReadString(s, p, end)
      case Rejected(rc) => Rejected(0)
      case Overread => Overread
      case Parsed((topic, q)) =>
        match ReadString(s, q, end)
        case Rejected(rc) => Rejected(0)
        case Overread => Overread
        case Parsed((message, q')) =>
          Parsed((Some(Will(topic, message, flags / 8 % 4, flags / 32 % 2)), q'))
  }

  /** User name and password: a password needs a user name. */
  function ReadLogin(s: seq<byte>, p: nat, end: int, flags: byte): Parse<(Option<seq<byte>>, Option<seq<byte>>)> {
    var user, pass := flags / 128 == 1, flags / 64 % 2 == 1;
    if user then
      match ReadOptional(s, p, end, true)
      case Rejected(rc) => Rejected(rc)
      case Overread => Overread
      case Parsed((u, q)) =>
        match ReadOptional(s, q, end, pass)
        case Rejected(rc) => Rejected(rc)
        case Overread => Overread
        case Parsed((w, _)) => Parsed((u, w))
    else if pass then Rejected(0)
    else Parsed((None, None))
  }

  function ParseTail(s: seq<byte>, p: nat, end: int, version: byte, flags: byte): Parse<Connect> {
    if p + 2 > |s| then Overread
    else
      var keepAlive := FromU16(s[p], s[p + 1]);
      match ReadString(s, p + 2, end)
      case Rejected(_) => Rejected(0)
      case Overread => Overread
      case Parsed((clientId, q)) =>
        match ReadWill(s, q, end, flags)
        case Rejected(rc) => Rejected(rc)
        case Overread => Overread
        case Parsed((will, q')) =>
          match ReadLogin(s, q', end, flags)
          case Rejected(rc) => Rejected(rc)
          case Overread => Overread
          case Parsed((user, pass)) =>
            Parsed(Connect(version, flags / 2 % 2, keepAlive, clientId, will, user, pass))
  }

  /** The parser is given the number of bytes received, and uses it, not the size field, as the end. */
  function ParseConnect(s: seq<byte>, len: nat): Parse<Connect> {
    if OtherKind(s, CONNECT) then Rejected(0)
    else
      match ReadFixed(s)
      case Rejected(rc) => Rejected(rc)
      case Overread => Overread
      case Parsed(f) =>
        match ReadString(s, f.start, len)
        case Rejected(_) => Rejected(0)
        case Overread => Overread
        case Parsed((protocol, p)) =>
          if p >= |s| then Overread
          else if !CheckVersion(protocol, s[p]) then Rejected(0)
          else if p + 1 >= |s| then Overread
          else ParseTail(s, p + 2, len, s[p], s[p + 1])
  }

  /** MQTTDeserialize_connect: the cursor moves from field to field, as the flags say. */
  method DeserializeConnect(s: seq<byte>, len: nat) returns (r: Parse<Connect>)
    ensures r == ParseConnect(s, len)
  {
    hide ReadFixed, ReadString, Within, HeaderKind, FromU16, CheckVersion;
    if OtherKind(s, CONNECT) {
      return Rejected(0);
    }
    var fixed := DeserializeFixed(s);
    if !fixed.Parsed? {
      return if fixed.Overread? then Overread else Rejected(fixed.rc);
    }
    var cur := fixed.v.start;
    var protocol := ReadString(s, cur, len);
    if !protocol.Parsed? {
      return Refused(protocol);
    }
    cur := protocol.v.1;
    if cur >= |s| {
      return Overread;
    }
    var version := s[cur];
    if !CheckVersion(protocol.v.0, version) {
      return Rejected(0);
    }
    if cur + 1 >= |s| {
      return Overread;
    }
    r := DeserializeFields(s, cur + 2, len, version, s[cur + 1]);
  }

  /** What a field that could not be read makes of the whole parse. */
  function Refused<T>(field: Parse<T>): Parse<Connect> {
    if field.Overread? then Overread else Rejected(0)
  }

  /** The fields behind the flags. */
  method DeserializeFields(s: seq<byte>, start: nat, end: int, version: byte, flags: byte) returns (r: Parse<Connect>)
    ensures r == ParseTail(s, start, end, version, flags)
  {
    hide ReadString, Within, FromU16;
    var cur, will, user, pass := start, None, None, None;
    if cur + 2 > |s| {
      return Overread;
    }
    var keepAlive := FromU16(s[cur], s[cur + 1]);
    var clientId := ReadString(s, cur + 2, end);
    if !clientId.Parsed? {
      return Refused(clientId);
    }
    cur := clientId.v.1;
    if flags / 4 % 2 == 1 {
      var topic := ReadString(s, cur, end);
      if !topic.Parsed? {
        return Refused(topic);
      }
      cur := topic.v.1;
      var message := ReadString(s, cur, end);
      if !message.Parsed? {
        return Refused(message);
      }
      cur := message.v.1;
      will := Some(Will(topic.v.0, message.v.0, flags / 8 % 4, flags / 32 % 2));
    }
    if flags / 128 == 1 {
      if end - cur < 3 {
        return Rejected(0);
      }
      var name := ReadString(s, cur, end);
      if !name.Parsed? {
        return Refused(name);
      }
      cur := name.v.1;
      user := Some(name.v.0);
      if flags / 64 % 2 == 1 {
        if end - cur < 3 {
          return Rejected(0);
        }
        var word := ReadString(s, cur, end);
        if !word.Parsed? {
          return Refused(word);
        }
        pass := Some(word.v.0);
      }
    } else if flags / 64 % 2 == 1 {
      return Rejected(0);
    }
    r := Parsed(Connect(version, flags / 2 % 2, keepAlive, clientId.v.0, will, user, pass));
  }

  // ---- the round trip ----

  ghost predicate GoodWill(w: Will) {
    |w.topic| < 65536 && |w.message| < 65536 && w.qos < 4 && w.retained < 2
  }

  ghost predicate GoodConnect(o: Connect) {
    && o.version in {3, 4} && o.clean < 2 && o.keepAlive < 65536 && |o.clientId| < 65536
    && (o.will.Some? ==> GoodWill(o.will.value))
    && (o.username.Some? ==> |o.username.value| < 65536)
    && (o.password.Some? ==> |o.password.value| < 65536)
    && |ConnectBody(o)| <= MAX_REMAINING
  }

  /** What the parser accepts of the login fields. */
  predicate LoginAccepted(o: Connect) {
    && (o.password.Some? ==> o.username.Some? && |o.password.value| >= 1)
    && (o.username.Some? && o.password.None? ==> |o.username.value| >= 1)
  }

  lemma LoginHeld(s: seq<byte>, p: nat, o: Connect)
    requires GoodConnect(o) && Holds(s, p, OptBytes(o.username) + OptBytes(o.password))
    requires |s| == p + |OptBytes(o.username)| + |OptBytes(o.password)|
    ensures ReadLogin(s, p, |s|, Flags(o))
         == if LoginAccepted(o) then Parsed((o.username, o.password)) else Rejected(0)
  {
    hide U16, FromU16, Holds, ReadString, Within;
    HoldsSplit(s, p, OptBytes(o.username), OptBytes(o.password));
    if o.username.Some? {
      ReadStringHeld(s, p, |s|, o.username.value);
      if o.password.Some? {
        ReadStringHeld(s, p + 2 + |o.username.value|, |s|, o.password.value);
      }
    }
  }

  lemma WillHeld(s: seq<byte>, p: nat, o: Connect)
    requires GoodConnect(o) && Holds(s, p, WillBytes(o.will))
    ensures ReadWill(s, p, |s|, Flags(o)) == Parsed((o.will, p + |WillBytes(o.will)|))
  {
    hide U16, FromU16, Holds, ReadString, Within;
    if o.will.Some? {
      var w := o.will.value;
      HoldsSplit(s, p, StrBytes(w.topic), StrBytes(w.message));
      HoldsEnd(s, p, WillBytes(o.will));
      ReadStringHeld(s, p, |s|, w.topic);
      ReadStringHeld(s, p + 2 + |w.topic|, |s|, w.message);
    }
  }

  lemma TailHeld(s: seq<byte>, p: nat, o: Connect)
    requires GoodConnect(o) && Holds(s, p, ConnectTail(o)) && |s| == p + |ConnectTail(o)|
    ensures ParseTail(s, p, |s|, o.version, Flags(o)) == if LoginAccepted(o) then Parsed(o) else Rejected(0)
  {
    hide U16, FromU16, Holds, ReadString, Within, StrBytes, WillBytes, OptBytes, ReadWill, ReadLogin, LoginAccepted,
      FlagsByte;
    var login := OptBytes(o.username) + OptBytes(o.password);
    var afterId := WillBytes(o.will) + login;
    HoldsSplit(s, p, U16(o.keepAlive), StrBytes(o.clientId) + afterId);
    ReadU16Held(s, p, o.keepAlive);
    HoldsSplit(s, p + 2, StrBytes(o.clientId), afterId);
    ReadStringHeld(s, p + 2, |s|, o.clientId);
    var q := p + 2 + |StrBytes(o.clientId)|;
    HoldsSplit(s, q, WillBytes(o.will), login);
    WillHeld(s, q, o);
    LoginHeld(s, q + |WillBytes(o.will)|, o);
  }

  /** Where the fields of a serialized CONNECT lie, when its body has n bytes and the protocol name ends at p. */
  ghost predicate HeadLaid(s: seq<byte>, o: Connect, n: nat, p: nat) {
    var q := 1 + |LenBytes(n)|;
    ReadFixed(s) == Parsed(Fixed(Header(CONNECT, 0, 0, 0), q, q + n, q - 1))
      && ReadString(s, q, |s|) == Parsed((Name(o.version), p))
  }

  ghost predicate RestLaid(s: seq<byte>, o: Connect, p: nat) {
    && p + 2 <= |s| && s[p] == (if o.version == 4 then 4 else 3) && s[p + 1] == Flags(o)
    && Holds(s, p + 2, ConnectTail(o)) && |s| == p + 2 + |ConnectTail(o)|
  }

  lemma ConnectHead(s: seq<byte>, o: Connect, n: nat, p: nat)
    requires n == |ConnectBody(o)| && p == 3 + |LenBytes(n)| + |Name(o.version)|
    requires GoodConnect(o) && s == ConnectBytes(o)
    ensures HeadLaid(s, o, n, p)
  {
    hide LenBytes, DecodeFrom, Header, U16, FromU16, ReadString, Within, ReadFixed, Holds, StrBytes, ConnectTail,
      Flags, Name;
    var name, v: byte := Name(o.version), if o.version == 4 then 4 else 3;
    var fix := [Header(CONNECT, 0, 0, 0)] + LenBytes(n);
    assert s == (fix + ConnectBody(o)) + [];
    HoldsPrefix(fix + ConnectBody(o), []);
    HoldsSplit(s, 0, fix, ConnectBody(o));
    ReadFixedHeld(s, Header(CONNECT, 0, 0, 0), n);
    HoldsSplit(s, |fix|, StrBytes(name), [v, Flags(o)] + ConnectTail(o));
    ReadStringHeld(s, |fix|, |s|, name);
  }

  lemma ConnectRest(s: seq<byte>, o: Connect, n: nat, p: nat)
    requires n == |ConnectBody(o)| && p == 3 + |LenBytes(n)| + |Name(o.version)|
    requires s == ConnectBytes(o)
    ensures RestLaid(s, o, p)
  {
    hide LenBytes, Header, Holds, StrBytes, ConnectTail, Flags, Name;
    var name, v: byte := Name(o.version), if o.version == 4 then 4 else 3;
    var front := [Header(CONNECT, 0, 0, 0)] + LenBytes(n) + StrBytes(name);
    var two := [v, Flags(o)];
    assert s == front + (two + ConnectTail(o));
    HoldsBehind(front, two, ConnectTail(o));
    assert s[p] == two[0] && s[p + 1] == two[1];
  }

  lemma HoldsBehind(a: seq<byte>, b: seq<byte>, c: seq<byte>)
    ensures Holds(a + (b + c), |a| + |b|, c)
  {}

  lemma HeaderIsConnect()
    ensures HeaderKind(Header(CONNECT, 0, 0, 0)) == CONNECT
  {
    hide HeaderKind, HeaderDup, HeaderQos, HeaderRetain;
  }

  /** Serializing and parsing gives the options back exactly when the login fields are ones the parser
      accepts: no password without a user name, and no empty string as the last field. */
  lemma ConnectRoundTrip(o: Connect)
    requires GoodConnect(o)
    ensures ParseConnect(ConnectBytes(o), |ConnectBytes(o)|) == if LoginAccepted(o) then Parsed(o) else Rejected(0)
  {
    hide LenBytes, DecodeFrom, Header, HeaderKind, ReadString, Within, ReadFixed, Holds, StrBytes, ConnectTail,
      ConnectBody,
      ParseTail, Flags, LoginAccepted, Name, ConnectBytes;
    var n := |ConnectBody(o)|;
    var p := 3 + |LenBytes(n)| + |Name(o.version)|;
    ConnectHead(ConnectBytes(o), o, n, p);
    ConnectRest(ConnectBytes(o), o, n, p);
    HeaderIsConnect();
    VersionChecks(o.version);
    TailHeld(ConnectBytes(o), p + 2, o);
  }

  lemma VersionChecks(version: nat)
    requires version in {3, 4}
    ensures CheckVersion(Name(version), if version == 4 then 4 else 3)
  {}
}
