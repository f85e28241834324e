/**
 The MQTT packets that the client writes (mqtt_core.c), as octets, and a reader of MQTT 3.1.1 packets written
 after sections 2.2, 3.1, 3.3 and 3.8 of that standard.
 */
module MqttFrames {
  import opened Bytes
  import opened Options

  const TWO16: nat := 0x1_0000

  /** What the client's memory can hold: no string reaches 65536 octets. */
  predicate Short(s: seq<byte>) {
    |s| < TWO16
  }

  function U16(n: nat): (r: seq<byte>)
    requires n < TWO16
    ensures |r| == 2
  {
    [n / 256, n % 256]
  }

  /** A string behind its length. */
  function Text(s: seq<byte>): (r: seq<byte>)
    requires Short(s)
    ensures |r| == 2 + |s|
  {
    U16(|s|) + s
  }

  // ----- Remaining length -----

  /** Section 2.2.3: seven bits an octet, the lowest first, the top bit set on all but the last. */
  function EncodeRemaining(n: nat): (r: seq<byte>)
    ensures 1 <= |r|
  {
    if n < 128 then [n] else [n % 128 + 128] + EncodeRemaining(n / 128)
  }

  datatype Taken<+T> = Taken(value: T, rest: seq<byte>)

  /** The length at the start of some octets, in at most `most` of them. */
  function TakeRemaining(s: seq<byte>, most: nat): (r: Option<Taken<nat>>)
    decreases most
  {
    if most == 0 || s == [] then None
    else if s[0] < 128 then Some(Taken(s[0], s[1..]))
    else
      match TakeRemaining(s[1..], most - 1)
      case None => None
      case Some(t) => Some(Taken(s[0] - 128 + 128 * t.value, t.rest))
  }

  function Pow128(k: nat): (r: nat)
    ensures r >= 1
  {
    if k == 0 then 1 else 128 * Pow128(k - 1)
  }

  lemma {:induction false} RemainingRoundTrip(n: nat, most: nat, suffix: seq<byte>)
    requires most > 0 && n < Pow128(most)
    ensures TakeRemaining(EncodeRemaining(n) + suffix, most) == Some(Taken(n, suffix))
    ensures |EncodeRemaining(n)| <= most
    decreases most
  {
    if n >= 128 {
      assert most > 1;
      RemainingRoundTrip(n / 128, most - 1, suffix);
      assert (EncodeRemaining(n) + suffix)[1..] == EncodeRemaining(n / 128) + suffix;
    }
  }

  /** A length in one to four octets. */
  lemma RemainingForms(n: nat)
    requires n < 0x1000_0000
    ensures n < 0x80 ==> EncodeRemaining(n) == [n]
    ensures 0x80 <= n < 0x4000 ==> EncodeRemaining(n) == [n % 128 + 128, n / 128]
    ensures 0x4000 <= n < 0x20_0000 ==>
              EncodeRemaining(n) == [n % 128 + 128, n / 128 % 128 + 128, n / 0x4000]
    ensures 0x20_0000 <= n ==>
              EncodeRemaining(n) == [n % 128 + 128, n / 128 % 128 + 128, n / 0x4000 % 128 + 128, n / 0x20_0000]
  {
    hide EncodeRemaining;
    var a, b, c := n / 128, n / 0x4000, n / 0x20_0000;
    Sevens(n);
    RemainingStep(n, a);
    RemainingStep(a, b);
    RemainingStep(b, c);
    RemainingStep(c, 0);
  }

  lemma RemainingStep(n: nat, next: nat)
    requires next == n / 128
    ensures EncodeRemaining(n) == if next == 0 then [n] else [n % 128 + 128] + EncodeRemaining(next)
  {}

  lemma Sevens(n: nat)
    requires n < 0x1000_0000
    ensures n / 128 / 128 == n / 0x4000 && n / 0x4000 / 128 == n / 0x20_0000 && n / 0x20_0000 < 128
    ensures n / 128 == 0 <==> n < 0x80
    ensures n / 0x4000 == 0 <==> n < 0x4000
    ensures n / 0x20_0000 == 0 <==> n < 0x20_0000
  {}

  lemma Bits28()
    ensures Pow128(4) == 0x1000_0000 && Pow128(3) == 0x20_0000
  {
    assert Pow128(2) == 0x4000;
  }

  // ----- The packets that the client writes -----

  datatype ConnectPacket = ConnectPacket(keepAlive: nat, clientId: seq<byte>, username: seq<byte>, password: seq<byte>)

  datatype PublishPacket = PublishPacket(duplicate: bool, qos: nat, retain: bool,
                                         topic: seq<byte>, id: nat, payload: seq<byte>)

  datatype Filter = Filter(topic: seq<byte>, qos: byte)

  datatype SubscribePacket = SubscribePacket(id: nat, first: Filter, second: Filter)

  predicate ValidConnect(p: ConnectPacket) {
    p.keepAlive < TWO16 && Short(p.clientId) && Short(p.username) && Short(p.password)
  }

  predicate ValidPublish(p: PublishPacket) {
    p.qos < 4 && p.id < TWO16 && Short(p.topic) && |p.payload| < 256
  }

  predicate ValidSubscribe(p: SubscribePacket) {
    p.id < TWO16 && Short(p.first.topic) && Short(p.second.topic)
  }

  predicate HasLogin(p: ConnectPacket) {
    |p.password| > 0 || |p.username| > 0
  }

  function Login(p: ConnectPacket): seq<byte>
    requires ValidConnect(p)
  {
    if HasLogin(p) then Text(p.username) + Text(p.password) else []
  }

  /** The variable header of CONNECT: protocol name and level, flags, keep alive. */
  function ConnectHeader(p: ConnectPacket): (r: seq<byte>)
    requires ValidConnect(p)
    ensures |r| == 10
  {
    [0, 4, 77, 81, 84, 84, 4, if HasLogin(p) then 0xC2 else 2] + U16(p.keepAlive)
  }

  function ConnectBody(p: ConnectPacket): seq<byte>
    requires ValidConnect(p)
  {
    ConnectHeader(p) + (Text(p.clientId) + Login(p))
  }

  /** The total length that MQTT_CreateConnectPacket computes in 16 bits. */
  function ConnectTotal(p: ConnectPacket): (r: nat)
    ensures r < TWO16
  {
    (10 + 2 + (if HasLogin(p) then |p.clientId| + |p.password| + |p.username| + 4 else |p.clientId|)) % TWO16
  }

  function Bit(b: bool): nat {
    if b then 1 else 0
  }

  /** The first octet of PUBLISH; the duplicate flag is dropped at quality of service 0. */
  function PublishFlags(p: PublishPacket): byte
    requires ValidPublish(p)
  {
    0x30 + Bit(p.duplicate && p.qos != 0) * 8 + p.qos * 2 + Bit(p.retain)
  }

  function PublishBody(p: PublishPacket): seq<byte>
    requires ValidPublish(p)
  {
    Text(p.topic) + ((if p.qos == 1 then U16(p.id) else []) + p.payload)
  }

  function PublishTotal(p: PublishPacket): (r: nat)
    ensures r < TWO16
  {
    ((if p.qos > 0 then 2 else 0) + 2 + |p.topic| + |p.payload|) % TWO16
  }

  function FilterBody(f: Filter): seq<byte>
    requires Short(f.topic)
  {
    Text(f.topic) + [f.qos]
  }

  function SubscribeBody(p: SubscribePacket): seq<byte>
    requires ValidSubscribe(p)
  {
    U16(p.id) + (FilterBody(p.first) + FilterBody(p.second))
  }

  function SubscribeTotal(p: SubscribePacket): (r: nat)
    ensures r < TWO16
  {
    (2 + |p.first.topic| + 1 + 2 + |p.second.topic| + 1 + 2) % TWO16
  }

  /** A packet as it is sent: first octet, length field, body. */
  function Frame(first: byte, total: nat, body: seq<byte>): seq<byte> {
    [first] + (EncodeRemaining(total) + body)
  }

  // ----- A reader of packets -----

  datatype Packet =
    | Connect(keepAlive: nat, clientId: seq<byte>, login: Option<(seq<byte>, seq<byte>)>)
    | Publish(duplicate: bool, qos: nat, retain: bool, topic: seq<byte>, id: Option<nat>, payload: seq<byte>)
    | Subscribe(number: nat, filters: seq<Filter>)

  function TakeU16(s: seq<byte>): Option<Taken<nat>> {
    if |s| < 2 then None else Some(Taken(s[0] as int * 256 + s[1], s[2..]))
  }

  function TakeText(s: seq<byte>): (r: Option<Taken<seq<byte>>>)
    ensures r.Some? ==> |r.value.rest| + 2 <= |s|
  {
    match TakeU16(s)
    case None => None
    case Some(n) => if |n.rest| < n.value then None else Some(Taken(n.rest[..n.value], n.rest[n.value..]))
  }

  /** Section 3.1, for clients with a clean session and no will. */
  function ReadConnect(s: seq<byte>): Option<Packet> {
    if |s| < 10 || s[..7] != [0, 4, 77, 81, 84, 84, 4] || (s[7] != 2 && s[7] != 0xC2) then None
    else
      match TakeText(s[10..])
      case None => None
      case Some(clientId) =>
        var keepAlive := s[8] as int * 256 + s[9];
        if s[7] == 2 then (if clientId.rest == [] then Some(Connect(keepAlive, clientId.value, None)) else None)
        else
          match TakeText(clientId.rest)
          case None => None
          case Some(username) =>
            match TakeText(username.rest)
            case None => None
            case Some(password) =>
              if password.rest != [] then None
              else Some(Connect(keepAlive, clientId.value, Some((username.value, password.value))))
  }

  /** Section 3.3. */
  function ReadPublish(flags: nat, s: seq<byte>): Option<Packet> {
    var duplicate, qos, retain := flags / 8 == 1, flags / 2 % 4, flags % 2 == 1;
    match TakeText(s)
    case None => None
    case Some(topic) =>
      if qos > 2 || (qos == 0 && duplicate) then None
      else if qos == 0 then Some(Publish(duplicate, qos, retain, topic.value, None, topic.rest))
      else
        match TakeU16(topic.rest)
        case None => None
        case Some(id) => Some(Publish(duplicate, qos, retain, topic.value, Some(id.value), id.rest))
  }

  function ReadFilters(s: seq<byte>): Option<seq<Filter>>
    decreases |s|
  {
    if s == [] then Some([])
    else
      match TakeText(s)
      case None => None
      case Some(topic) =>
        if topic.rest == [] || topic.rest[0] > 2 then None
        else
          match ReadFilters(topic.rest[1..])
          case None => None
          case Some(others) => Some([Filter(topic.value, topic.rest[0])] + others)
  }

  /** Section 3.8. */
  function ReadSubscribe(s: seq<byte>): Option<Packet> {
    match TakeU16(s)
    case None => None
    case Some(id) =>
      match ReadFilters(id.rest)
      case None => None
      case Some(filters) => if filters == [] then None else Some(Subscribe(id.value, filters))
  }

  function ReadBody(first: byte, body: seq<byte>): Option<Packet> {
    if first == 0x10 then ReadConnect(body)
    else if first / 16 == 3 then ReadPublish(first % 16, body)
    else if first == 0x82 then ReadSubscribe(body)
    else None
  }

  /** Section 2.2: a packet ends where its remaining length says. */
  function ReadPacket(s: seq<byte>): Option<Packet> {
    if s == [] then None
    else
      match TakeRemaining(s[1..], 4)
      case None => None
      case Some(n) => if n.value != |n.rest| then None else ReadBody(s[0], n.rest)
  }

  // ----- Laws -----

  lemma TakeU16Of(n: nat, rest: seq<byte>)
    requires n < TWO16
    ensures TakeU16(U16(n) + rest) == Some(Taken(n, rest))
  {
    assert (U16(n) + rest)[2..] == rest;
  }

  lemma TakeTextOf(s: seq<byte>, rest: seq<byte>)
    requires Short(s)
    ensures TakeText(Text(s) + rest) == Some(Taken(s, rest))
  {
    assert Text(s) + rest == U16(|s|) + (s + rest);
    TakeU16Of(|s|, s + rest);
    assert (s + rest)[..|s|] == s && (s + rest)[|s|..] == rest;
  }

  /** A packet reads back from its frame when its length field is that of its body, and not otherwise. */
  lemma FrameReads(first: byte, total: nat, body: seq<byte>)
    requires total < TWO16
    ensures ReadPacket(Frame(first, total, body)) == if total == |body| then ReadBody(first, body) else None
  {
    hide ReadBody;
    Bits28();
    RemainingRoundTrip(total, 4, body);
    var s := Frame(first, total, body);
    assert s[1..] == EncodeRemaining(total) + body;
  }

  /** The length field of CONNECT is that of its body exactly when the body fits 16 bits. */
  lemma ConnectLength(p: ConnectPacket)
    requires ValidConnect(p)
    ensures ConnectTotal(p) == |ConnectBody(p)| <==> |ConnectBody(p)| < TWO16
  {}

  lemma ConnectReads(p: ConnectPacket)
    requires ValidConnect(p)
    ensures ReadConnect(ConnectBody(p))
            == Some(Connect(p.keepAlive, p.clientId, if HasLogin(p) then Some((p.username, p.password)) else None))
  {
    hide Text, TakeText;
    var s := ConnectBody(p);
    ConnectStart(p, Text(p.clientId) + Login(p));
    TakeTextOf(p.clientId, Login(p));
    if HasLogin(p) {
      TakeTextOf(p.username, Text(p.password));
      TakeTextOf(p.password, []);
      assert Text(p.password) + [] == Text(p.password);
    }
  }

  lemma ConnectStart(p: ConnectPacket, rest: seq<byte>)
    requires ValidConnect(p)
    ensures var s := ConnectHeader(p) + rest;
            && s[..7] == [0, 4, 77, 81, 84, 84, 4] && s[7] == (if HasLogin(p) then 0xC2 else 2)
            && s[8] as int * 256 + s[9] == p.keepAlive && s[10..] == rest
  {
    var s := ConnectHeader(p) + rest;
    assert s[8] == U16(p.keepAlive)[0] && s[9] == U16(p.keepAlive)[1];
  }

  /** The octets of CONNECT: "MQTT" at level 4, a clean session, and a login of user name before password. */
  lemma ConnectOctets(p: ConnectPacket)
    requires ValidConnect(p)
    ensures var login := p.username != [] || p.password != [];
            var c, u, w := |p.clientId|, |p.username|, |p.password|;
            Frame(0x10, ConnectTotal(p), ConnectBody(p))
            == [0x10] + EncodeRemaining(ConnectTotal(p))
               + [0, 4, 77, 81, 84, 84, 4, if login then 0xC2 else 0x02, p.keepAlive / 256, p.keepAlive % 256]
               + [c / 256, c % 256] + p.clientId
               + if login then [u / 256, u % 256] + p.username + [w / 256, w % 256] + p.password else []
  {
    hide EncodeRemaining;
    if HasLogin(p) {
      TextOctets(p.username);
      TextOctets(p.password);
    }
    TextOctets(p.clientId);
    Joined([0x10], EncodeRemaining(ConnectTotal(p)), ConnectHeader(p), Text(p.clientId), Login(p));
  }

  lemma TextOctets(s: seq<byte>)
    requires Short(s)
    ensures Text(s) == [|s| / 256, |s| % 256] + s
  {}

  lemma Joined(a: seq<byte>, b: seq<byte>, c: seq<byte>, d: seq<byte>, e: seq<byte>)
    ensures a + (b + (c + (d + e))) == a + b + c + d + e
  {}

  /** A CONNECT frame whose body fits 16 bits reads back as what was asked for. */
  lemma ConnectRoundTrip(p: ConnectPacket)
    requires ValidConnect(p) && |ConnectBody(p)| < TWO16
    ensures ReadPacket(Frame(0x10, ConnectTotal(p), ConnectBody(p)))
            == Some(Connect(p.keepAlive, p.clientId, if HasLogin(p) then Some((p.username, p.password)) else None))
  {
    hide ConnectBody, ConnectTotal, ReadConnect, HasLogin;
    ConnectLength(p);
    ConnectReads(p);
    FrameReads(0x10, ConnectTotal(p), ConnectBody(p));
  }

  /** The length field of PUBLISH is that of its body exactly at quality of service 0 and 1: at 2 it counts a
      packet identifier that is never written. */
  lemma PublishLength(p: PublishPacket)
    requires ValidPublish(p)
    ensures PublishTotal(p) == |PublishBody(p)| <==> p.qos <= 1 && |PublishBody(p)| < TWO16
  {}

  /** A PUBLISH frame reads back as what was asked for, up to the duplicate flag, exactly at quality of service
      0 and 1; any other is malformed. */
  lemma PublishRoundTrip(p: PublishPacket)
    requires ValidPublish(p) && |PublishBody(p)| < TWO16
    ensures ReadPacket(Frame(PublishFlags(p), PublishTotal(p), PublishBody(p)))
            == if p.qos > 1 then None
               else Some(Publish(p.duplicate && p.qos != 0, p.qos, p.retain, p.topic,
                                 if p.qos == 1 then Some(p.id) else None, p.payload))
  {
    hide PublishBody, PublishTotal, ReadPublish;
    PublishLength(p);
    FrameReads(PublishFlags(p), PublishTotal(p), PublishBody(p));
    assert PublishFlags(p) / 16 == 3;
    if p.qos <= 1 { PublishReads(p); }
  }

  /** The octets of PUBLISH: bit 3 for a duplicate, bits 1 and 2 for the quality of service, bit 0 to retain. */
  lemma PublishOctets(p: PublishPacket)
    requires ValidPublish(p)
    ensures var n := |p.topic|;
            Frame(PublishFlags(p), PublishTotal(p), PublishBody(p))
            == [0x30 + (if p.duplicate && p.qos != 0 then 8 else 0) + 2 * p.qos + (if p.retain then 1 else 0)]
               + EncodeRemaining(PublishTotal(p)) + [n / 256, n % 256] + p.topic
               + ((if p.qos == 1 then [p.id / 256, p.id % 256] else []) + p.payload)
  {
    hide EncodeRemaining;
    TextOctets(p.topic);
    Joined([PublishFlags(p)], EncodeRemaining(PublishTotal(p)), [|p.topic| / 256, |p.topic| % 256], p.topic,
           (if p.qos == 1 then U16(p.id) else []) + p.payload);
  }

  lemma PublishReads(p: PublishPacket)
    requires ValidPublish(p) && p.qos <= 1
    ensures ReadPublish(PublishFlags(p) % 16, PublishBody(p))
            == Some(Publish(p.duplicate && p.qos != 0, p.qos, p.retain, p.topic,
                            if p.qos == 1 then Some(p.id) else None, p.payload))
  {
    hide Text, TakeText, U16, TakeU16;
    var rest := (if p.qos == 1 then U16(p.id) else []) + p.payload;
    TakeTextOf(p.topic, rest);
    if p.qos == 1 { TakeU16Of(p.id, p.payload); } else { assert rest == p.payload; }
    FlagsRead(p);
  }

  lemma FlagsRead(p: PublishPacket)
    requires ValidPublish(p)
    ensures var flags: int := PublishFlags(p) % 16;
            (flags / 8 == 1 <==> p.duplicate && p.qos != 0) && flags / 2 % 4 == p.qos && (flags % 2 == 1 <==> p.retain)
  {
    var flags: int := PublishFlags(p) % 16;
    var d, r := Bit(p.duplicate && p.qos != 0), Bit(p.retain);
    assert flags == d * 8 + p.qos * 2 + r;
    assert flags / 2 == d * 4 + p.qos;
  }

  lemma SubscribeLength(p: SubscribePacket)
    requires ValidSubscribe(p)
    ensures SubscribeTotal(p) == |SubscribeBody(p)| <==> |SubscribeBody(p)| < TWO16
  {
    hide U16;
    assert |SubscribeBody(p)| == 8 + |p.first.topic| + |p.second.topic|;
  }

  lemma FilterReads(f: Filter, rest: seq<byte>)
    requires Short(f.topic)
    ensures ReadFilters(FilterBody(f) + rest)
            == if f.qos > 2 || ReadFilters(rest).None? then None else Some([f] + ReadFilters(rest).value)
  {
    hide Text, TakeText;
    assert FilterBody(f) + rest == Text(f.topic) + ([f.qos] + rest);
    TakeTextOf(f.topic, [f.qos] + rest);
    assert ([f.qos] + rest)[1..] == rest;
  }

  lemma SubscribeReads(p: SubscribePacket)
    requires ValidSubscribe(p)
    ensures ReadSubscribe(SubscribeBody(p))
            == if p.first.qos > 2 || p.second.qos > 2 then None else Some(Subscribe(p.id, [p.first, p.second]))
  {
    hide U16, TakeU16, FilterBody;
    TakeU16Of(p.id, FilterBody(p.first) + FilterBody(p.second));
    FilterReads(p.first, FilterBody(p.second));
    FilterReads(p.second, []);
    assert FilterBody(p.second) + [] == FilterBody(p.second);
    assert [p.second] + [] == [p.second] && [p.first] + [p.second] == [p.first, p.second];
  }

  /** The octets of SUBSCRIBE: the packet's number, and each filter with its quality of service behind it. */
  lemma SubscribeOctets(p: SubscribePacket)
    requires ValidSubscribe(p)
    ensures var f, g := p.first, p.second;
            Frame(0x82, SubscribeTotal(p), SubscribeBody(p))
            == [0x82] + EncodeRemaining(SubscribeTotal(p)) + [p.id / 256, p.id % 256]
               + ([|f.topic| / 256, |f.topic| % 256] + f.topic + [f.qos])
               + ([|g.topic| / 256, |g.topic| % 256] + g.topic + [g.qos])
  {
    hide EncodeRemaining;
    Joined([0x82], EncodeRemaining(SubscribeTotal(p)), U16(p.id), FilterBody(p.first), FilterBody(p.second));
  }

  /** A SUBSCRIBE frame whose body fits 16 bits reads back as what was asked for, exactly when both requested
      qualities of service exist. */
  lemma SubscribeRoundTrip(p: SubscribePacket)
    requires ValidSubscribe(p) && |SubscribeBody(p)| < TWO16
    ensures ReadPacket(Frame(0x82, SubscribeTotal(p), SubscribeBody(p)))
            == if p.first.qos > 2 || p.second.qos > 2 then None else Some(Subscribe(p.id, [p.first, p.second]))
  {
    hide SubscribeBody, SubscribeTotal, ReadSubscribe;
    SubscribeLength(p);
    SubscribeReads(p);
    FrameReads(0x82, SubscribeTotal(p), SubscribeBody(p));
  }
}
