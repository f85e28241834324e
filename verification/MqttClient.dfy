/** The client's creation, sending and receiving of packets (mqtt_core.c), through its exchange buffers. */
module MqttClient {
  import opened Bytes
  import opened ExchangeBuffer
  import opened MqttFrames
  import opened Options

  datatype ConnectionState = Disconnected | Connecting | WaitForConnack | Connected

  // ----- Remaining length -----

  /** mqttEncodeLength */
  method EncodeLength(length: nat, output: array<byte>) returns (i: nat)
    requires length < TWO16 && output.Length == 4
    modifies output
    ensures i <= 3 && output[..i] == EncodeRemaining(length)
  {
    hide EncodeRemaining, TakeRemaining;
    i := 0;
    var n, more := length, true;
    Bits28();
    RemainingRoundTrip(length, 3, []);
    ghost var left := EncodeRemaining(length);
    while more
      invariant 0 <= n && i + |left| <= 3 && left == (if more then EncodeRemaining(n) else [])
      invariant EncodeRemaining(length) == output[..i] + left
      decreases more, n
    {
      EncodeStep(n);
      var encodedByte := n % 128;
      n := n / 128;
      if n > 0 {
        encodedByte := encodedByte + 128;
      }
      ghost var put := output[..i];
      output[i] := encodedByte;
      i := i + 1;
      assert output[..i] == put + [encodedByte];
      more := n > 0;
      left := left[1..];
    }
  }

  lemma EncodeStep(n: nat)
    ensures var e := EncodeRemaining(n);
            && e[0] == n % 128 + (if n / 128 > 0 then 128 else 0)
            && e[1..] == if n / 128 > 0 then EncodeRemaining(n / 128) else []
  {}

  lemma TakeStep(s: seq<byte>, most: nat)
    requires TakeRemaining(s, most).Some?
    ensures most > 0 && s != []
    ensures s[0] < 128 ==> TakeRemaining(s, most).value.value == s[0]
    ensures s[0] >= 128 ==> TakeRemaining(s[1..], most - 1).Some?
    ensures s[0] >= 128 ==>
              TakeRemaining(s, most).value.value == s[0] - 128 + 128 * TakeRemaining(s[1..], most - 1).value.value
  {}

  /** mqttDecodeLength, on a length of at most four octets */
  method DecodeLength(encoded: seq<byte>) returns (value: nat)
    requires TakeRemaining(encoded, 4).Some?
    ensures value == TakeRemaining(encoded, 4).value.value
  {
    hide TakeRemaining;
    var i: nat, multiplier: nat := 0, 1;
    value := 0;
    ghost var left: nat := TakeRemaining(encoded, 4).value.value;
    assert encoded[0..] == encoded;
    while i == 0 || encoded[i - 1] >= 128
      invariant i <= |encoded| && i <= 4
      invariant if i == 0 || encoded[i - 1] >= 128
                then TakeRemaining(encoded[i..], 4 - i).Some? && left == TakeRemaining(encoded[i..], 4 - i).value.value
                else left == 0
      invariant value + multiplier * left == TakeRemaining(encoded, 4).value.value
      decreases 4 - i
    {
      TakeStep(encoded[i..], 4 - i);
      assert encoded[i..][1..] == encoded[i + 1..];
      ghost var next := if encoded[i] < 128 then 0 else TakeRemaining(encoded[i + 1..], 4 - i - 1).value.value;
      var bits := encoded[i] % 128;
      assert left == bits + 128 * next;
      Scaled(value, multiplier, bits, next);
      value := value + bits * multiplier;
      multiplier := multiplier * 128;
      left := next;
      i := i + 1;
    }
  }

  lemma Scaled(value: nat, p: nat, b: nat, v: nat)
    ensures value + p * (b + 128 * v) == (value + b * p) + p * 128 * v && b * p >= 0
  {}

  // ----- Clipped writing -----

  /** What a buffer holds of some octets written to it while it was empty. */
  function Clipped(s: seq<byte>, capacity: nat): (r: seq<byte>)
    ensures r <= s && |r| <= capacity
  {
    s[..Min(|s|, capacity)]
  }

  /** Piece by piece, a buffer is filled with as much of the whole as fits. */
  lemma ClippedPiece(done: seq<byte>, piece: seq<byte>, capacity: nat)
    ensures var q := Clipped(done, capacity); q + Fitting(q, capacity, piece) == Clipped(done + piece, capacity)
  {}

  /** A frame that fits the buffer is all there, and its body is within 16 bits. */
  lemma WholeFrame(first: byte, total: nat, body: seq<byte>, capacity: nat)
    requires |Frame(first, total, body)| <= capacity < TWO16
    ensures Clipped(Frame(first, total, body), capacity) == Frame(first, total, body) && Short(body)
  {}

  /** Whatever is sent and fits the buffer reads back as the packet that was created. */
  lemma SentReadsBack(connect: ConnectPacket, publish: PublishPacket, subscribe: SubscribePacket, capacity: nat)
    requires ValidConnect(connect) && ValidPublish(publish) && ValidSubscribe(subscribe) && capacity < TWO16
    ensures var s := Frame(0x10, ConnectTotal(connect), ConnectBody(connect));
            |s| <= capacity ==>
              ReadPacket(Clipped(s, capacity))
              == Some(Connect(connect.keepAlive, connect.clientId,
                              if HasLogin(connect) then Some((connect.username, connect.password)) else None))
    ensures var s := Frame(PublishFlags(publish), PublishTotal(publish), PublishBody(publish));
            |s| <= capacity && publish.qos <= 1 ==>
              ReadPacket(Clipped(s, capacity))
              == Some(Publish(publish.duplicate && publish.qos != 0, publish.qos, publish.retain, publish.topic,
                              if publish.qos == 1 then Some(publish.id) else None, publish.payload))
    ensures var s := Frame(0x82, SubscribeTotal(subscribe), SubscribeBody(subscribe));
            |s| <= capacity && subscribe.first.qos <= 2 && subscribe.second.qos <= 2 ==>
              ReadPacket(Clipped(s, capacity)) == Some(Subscribe(subscribe.id, [subscribe.first, subscribe.second]))
  {
    hide Frame, ReadPacket, Clipped, ConnectBody, PublishBody, SubscribeBody, ConnectTotal, PublishTotal,
      SubscribeTotal, PublishFlags, HasLogin;
    if |Frame(0x10, ConnectTotal(connect), ConnectBody(connect))| <= capacity {
      WholeFrame(0x10, ConnectTotal(connect), ConnectBody(connect), capacity);
      ConnectRoundTrip(connect);
    }
    if |Frame(PublishFlags(publish), PublishTotal(publish), PublishBody(publish))| <= capacity {
      WholeFrame(PublishFlags(publish), PublishTotal(publish), PublishBody(publish), capacity);
      PublishRoundTrip(publish);
    }
    if |Frame(0x82, SubscribeTotal(subscribe), SubscribeBody(subscribe))| <= capacity {
      WholeFrame(0x82, SubscribeTotal(subscribe), SubscribeBody(subscribe), capacity);
      SubscribeRoundTrip(subscribe);
    }
  }

  class Client {
    const tx: Buffer
    const rx: Buffer
    var state: ConnectionState
    var txConnect: ConnectPacket
    var txPublish: PublishPacket
    var txSubscribe: SubscribePacket
    var connectTotal: nat
    var publishTotal: nat
    var subscribeTotal: nat

    ghost predicate Valid()
      reads this, tx, tx.start, rx, rx.start
    {
      && tx != rx && tx.start != rx.start && tx.Valid() && rx.Valid()
      && ValidConnect(txConnect) && connectTotal == ConnectTotal(txConnect)
      && ValidPublish(txPublish) && publishTotal == PublishTotal(txPublish)
      && ValidSubscribe(txSubscribe) && subscribeTotal == SubscribeTotal(txSubscribe)
    }

    /** The client at reset: all packets are zero. */
    constructor (txMemory: array<byte>, rxMemory: array<byte>)
      requires txMemory != rxMemory && 0 < txMemory.Length <= 0xFFFF && 0 < rxMemory.Length <= 0xFFFF
      ensures txConnect == ConnectPacket(0, [], [], []) && txPublish == PublishPacket(false, 0, false, [], 0, [])
      ensures txSubscribe == SubscribePacket(0, Filter([], 0), Filter([], 0))
      ensures tx.contents == rx.contents == []
      ensures Valid() && state == Disconnected && tx.start == txMemory && rx.start == rxMemory && fresh(tx) && fresh(rx)
    {
      tx := new Buffer(txMemory);
      rx := new Buffer(rxMemory);
      state := Disconnected;
      txConnect, connectTotal := ConnectPacket(0, [], [], []), 12;
      txPublish, publishTotal := PublishPacket(false, 0, false, [], 0, []), 2;
      txSubscribe, subscribeTotal := SubscribePacket(0, Filter([], 0), Filter([], 0)), 8;
    }

    /** MQTT_CreateConnectPacket */
    method CreateConnect(p: ConnectPacket)
      requires Valid() && ValidConnect(p)
      modifies this
      ensures Valid() && txConnect == p && state == Connecting
      ensures txPublish == old(txPublish) && txSubscribe == old(txSubscribe)
    {
      hide Buffer.Valid, PublishTotal, SubscribeTotal;
      var payloadLength;
      if |p.password| > 0 || |p.username| > 0 {
        payloadLength := (|p.clientId| + |p.password| + |p.username| + 4) % TWO16;
      } else {
        payloadLength := |p.clientId|;
      }
      txConnect := p;
      connectTotal := (10 + 2 + payloadLength) % TWO16;
      state := Connecting;
    }

    /** MQTT_CreatePublishPacket, which does nothing unless connected */
    method CreatePublish(p: PublishPacket) returns (ret: bool)
      requires Valid() && ValidPublish(p)
      modifies this
      ensures Valid() && ret == (old(state) == Connected) && state == old(state)
      ensures txConnect == old(txConnect) && txSubscribe == old(txSubscribe)
      ensures txPublish == if ret then p.(duplicate := p.duplicate && p.qos != 0)
                           else PublishPacket(false, 0, false, [], 0, [])
    {
      hide Buffer.Valid, ConnectTotal, SubscribeTotal;
      ret := false;
      txPublish, publishTotal := PublishPacket(false, 0, false, [], 0, []), 2;
      if state == Connected {
        var duplicate := p.duplicate;
        if p.qos == 0 && duplicate {
          duplicate := false;
        }
        txPublish := p.(duplicate := duplicate);
        publishTotal := 0;
        if p.qos > 0 {
          publishTotal := publishTotal + 2;
        }
        publishTotal := (publishTotal + 2 + |p.topic| + |p.payload|) % TWO16;
        ret := true;
      }
    }

    /** MQTT_CreateSubscribePacket, which does nothing unless connected */
    method CreateSubscribe(p: SubscribePacket) returns (ret: bool)
      requires Valid() && ValidSubscribe(p)
      modifies this
      ensures Valid() && ret == (old(state) == Connected) && state == old(state)
      ensures txConnect == old(txConnect) && txPublish == old(txPublish)
      ensures txSubscribe == if ret then p else SubscribePacket(0, Filter([], 0), Filter([], 0))
    {
      hide Buffer.Valid, ConnectTotal, PublishTotal, SubscribeTotal;
      ret := false;
      txSubscribe, subscribeTotal := SubscribePacket(0, Filter([], 0), Filter([], 0)), 8;
      EmptySubscribe();
      if state == Connected {
        txSubscribe := p;
        subscribeTotal := SubscribeLength(p);
        ret := true;
      }
    }

    /** The sum of MQTT_CreateSubscribePacket, kept in 16 bits. */
    static method SubscribeLength(p: SubscribePacket) returns (total: nat)
      requires ValidSubscribe(p)
      ensures total == SubscribeTotal(p)
    {
      SubscribeSum(|p.first.topic|, |p.second.topic|);
      total := (2 + |p.first.topic| + 1) % TWO16;
      total := (total + 2 + |p.second.topic| + 1) % TWO16;
      total := (total + 2) % TWO16;
    }

    /** One write to the transmit buffer, behind those done. */
    method Put(piece: seq<byte>, ghost done: seq<byte>)
      requires tx.Valid() && Short(piece) && tx.contents == Clipped(done, tx.start.Length)
      modifies tx, tx.start
      ensures tx.Valid() && tx.contents == Clipped(done + piece, tx.start.Length)
    {
      ClippedPiece(done, piece, tx.start.Length);
      var length := tx.Write(piece);
    }

    /** A string behind its length, in two writes. */
    method PutText(s: seq<byte>, ghost done: seq<byte>)
      requires tx.Valid() && Short(s) && tx.contents == Clipped(done, tx.start.Length)
      modifies tx, tx.start
      ensures tx.Valid() && tx.contents == Clipped(done + Text(s), tx.start.Length)
    {
      Put(U16(|s|), done);
      Put(s, done + U16(|s|));
      assert done + U16(|s|) + s == done + Text(s);
    }

    /** The start of every send: both buffers are emptied, and the fixed header is written. */
    method PutHeader(first: byte, total: nat)
      requires Valid() && total < TWO16
      modifies tx, tx.start, rx
      ensures tx.Valid() && rx.Valid() && rx.contents == []
      ensures tx.contents == Clipped([first] + EncodeRemaining(total), tx.start.Length)
    {
      hide EncodeRemaining;
      tx.Init();
      rx.Init();
      Put([first], []);
      var remainingLength := new byte[4](_ => 0);
      var n := EncodeLength(total, remainingLength);
      assert [] + [first] == [first];
      Put(remainingLength[..n], [first]);
    }

    /** mqttSendConnect, up to the network: the frame, or as much of it as the buffer holds */
    method SendConnect()
      requires Valid()
      modifies tx, tx.start, rx
      ensures Valid() && rx.contents == []
      ensures tx.contents == Clipped(Frame(0x10, ConnectTotal(txConnect), ConnectBody(txConnect)), tx.start.Length)
    {
      hide EncodeRemaining, Text, U16, ConnectHeader, Clipped, Buffer.Valid;
      var p := txConnect;
      ghost var a := [0x10] + EncodeRemaining(connectTotal);
      PutHeader(0x10, connectTotal);
      Put(ConnectHeader(p), a);
      PutText(p.clientId, a + ConnectHeader(p));
      if |p.password| > 0 || |p.username| > 0 {
        PutText(p.username, a + ConnectHeader(p) + Text(p.clientId));
        PutText(p.password, a + ConnectHeader(p) + Text(p.clientId) + Text(p.username));
        Joined4([0x10], EncodeRemaining(connectTotal), ConnectHeader(p), Text(p.clientId),
                Text(p.username) + Text(p.password));
        assert a + ConnectHeader(p) + Text(p.clientId) + Text(p.username) + Text(p.password)
            == a + ConnectHeader(p) + Text(p.clientId) + (Text(p.username) + Text(p.password));
      } else {
        Joined4([0x10], EncodeRemaining(connectTotal), ConnectHeader(p), Text(p.clientId), []);
        assert a + ConnectHeader(p) + Text(p.clientId) + [] == a + ConnectHeader(p) + Text(p.clientId);
      }
    }

    /** mqttSendPublish, up to the network */
    method SendPublish()
      requires Valid()
      modifies tx, tx.start, rx
      ensures Valid() && rx.contents == []
      ensures tx.contents
           == Clipped(Frame(PublishFlags(txPublish), PublishTotal(txPublish), PublishBody(txPublish)), tx.start.Length)
    {
      hide EncodeRemaining, Text, U16, PublishFlags, Clipped;
      var p := txPublish;
      ghost var a := [PublishFlags(p)] + EncodeRemaining(publishTotal);
      PutHeader(PublishFlags(p), publishTotal);
      PutText(p.topic, a);
      ghost var b := a + Text(p.topic);
      ghost var id: seq<byte> := [];
      assert b + [] == b;
      if p.qos == 1 {
        Put([p.id / 256], b);
        Put([p.id % 256], b + [p.id / 256]);
        id := U16(p.id);
        IdOctets(p.id, b);
      }
      Put(p.payload, b + id);
      Joined4([PublishFlags(p)], EncodeRemaining(publishTotal), Text(p.topic), id, p.payload);
    }

    /** mqttSendSubscribe, up to the network */
    method SendSubscribe()
      requires Valid()
      modifies tx, tx.start, rx
      ensures Valid() && rx.contents == []
      ensures tx.contents
           == Clipped(Frame(0x82, SubscribeTotal(txSubscribe), SubscribeBody(txSubscribe)), tx.start.Length)
    {
      hide EncodeRemaining, Text, U16, Clipped, FilterBody;
      var p := txSubscribe;
      ghost var a := [0x82] + EncodeRemaining(subscribeTotal);
      PutHeader(0x82, subscribeTotal);
      Put([p.id / 256], a);
      Put([p.id % 256], a + [p.id / 256]);
      IdOctets(p.id, a);
      PutFilter(p.first, a + U16(p.id));
      PutFilter(p.second, a + U16(p.id) + FilterBody(p.first));
      Joined4([0x82], EncodeRemaining(subscribeTotal), U16(p.id), FilterBody(p.first), FilterBody(p.second));
    }

    /** One turn of the loop of mqttSendSubscribe. */
    method PutFilter(f: Filter, ghost done: seq<byte>)
      requires tx.Valid() && Short(f.topic) && tx.contents == Clipped(done, tx.start.Length)
      modifies tx, tx.start
      ensures tx.Valid() && tx.contents == Clipped(done + FilterBody(f), tx.start.Length)
    {
      hide Text, Clipped;
      PutText(f.topic, done);
      Put([f.qos], done + Text(f.topic));
      assert done + Text(f.topic) + [f.qos] == done + FilterBody(f);
    }

    /** mqttProcessPublish, of a packet at quality of service 0 with a length field of one octet: the topic and
        the payload that were sent. */
    method ProcessPublish(ghost p: PublishPacket, ghost more: seq<byte>) returns (topic: seq<byte>, payload: seq<byte>)
      requires Valid() && ValidPublish(p) && p.qos == 0 && PublishTotal(p) <= 127 && |p.topic| <= 100
      requires rx.contents == Frame(PublishFlags(p), PublishTotal(p), PublishBody(p)) + more
      modifies rx
      ensures Valid() && rx.contents == [] && topic == p.topic && payload == p.payload
    {
      hide PublishFlags, PublishBody, PublishTotal, Frame, U16, TakeRemaining, Buffer.Valid, ConnectTotal,
        SubscribeTotal;
      ghost var total := PublishTotal(p);
      ghost var r4 := p.payload + more;
      ghost var r3 := p.topic + r4;
      ghost var r2 := U16(|p.topic|) + r3;
      ghost var r1 := [total] + r2;
      FrameParts(p, more);
      SmallLength(total);
      var first := ReadPart(1, [PublishFlags(p)], r1);
      var octet := ReadPart(1, [total], r2);
      var remainingLength: seq<byte> := [octet[0], 0, 0, 0];
      // The loop for further octets starts at the third, on the second's top bit. The second is still zero.
      assert remainingLength[1] < 128;
      var decodedLength := DecodeLength(remainingLength);
      var topicLength := ReadLength(|p.topic|, r3);
      Unwrapped(total - 2);
      decodedLength := (decodedLength - 2) % TWO32;
      topic := ReadPart(topicLength, p.topic, r4);
      Unwrapped(|p.payload|);
      decodedLength := (decodedLength - topicLength) % TWO32;
      payload := ReadPart(decodedLength % TWO16, p.payload, more);
      rx.Init();
    }

    /** The length of the topic, with its octets swapped. */
    method ReadLength(ghost n: nat, ghost rest: seq<byte>) returns (topicLength: nat)
      requires rx.Valid() && n < TWO16 && rx.contents == U16(n) + rest
      modifies rx
      ensures rx.Valid() && topicLength == n && rx.contents == rest
    {
      hide U16, Buffer.Valid;
      var lengthOctets := ReadPart(2, U16(n), rest);
      U16Back(n);
      topicLength := lengthOctets[0] as int * 256 + lengthOctets[1];
    }

    /** A read of as many bytes as a part at the front has. */
    method ReadPart(length: nat, ghost part: seq<byte>, ghost rest: seq<byte>) returns (data: seq<byte>)
      requires rx.Valid() && rx.contents == part + rest && length == |part|
      modifies rx
      ensures rx.Valid() && data == part && rx.contents == rest
    {
      data := rx.Read(length);
    }
  }

  lemma Unwrapped(n: nat)
    requires n < TWO16
    ensures n % TWO32 == n && n % TWO16 == n
  {}

  lemma SmallLength(n: nat)
    requires n < 128
    ensures TakeRemaining([n, 0, 0, 0], 4).Some? && TakeRemaining([n, 0, 0, 0], 4).value.value == n
  {}

  lemma U16Back(n: nat)
    requires n < TWO16
    ensures U16(n)[0] as int * 256 + U16(n)[1] == n
  {}

  lemma EmptySubscribe()
    ensures ValidSubscribe(SubscribePacket(0, Filter([], 0), Filter([], 0)))
    ensures SubscribeTotal(SubscribePacket(0, Filter([], 0), Filter([], 0))) == 8
  {}

  lemma SubscribeSum(a: nat, b: nat)
    ensures (((2 + a + 1) % TWO16 + 2 + b + 1) % TWO16 + 2) % TWO16 == (2 + a + 1 + 2 + b + 1 + 2) % TWO16
  {
    ModAdd16(2 + a + 1, 2 + b + 1);
    ModAdd16(2 + a + 1 + 2 + b + 1, 2);
  }

  lemma ModAdd16(x: int, y: int)
    ensures (x % TWO16 + y) % TWO16 == (x + y) % TWO16
  {}

  lemma IdOctets(id: nat, done: seq<byte>)
    requires id < TWO16
    ensures done + [id / 256] + [id % 256] == done + U16(id)
  {}

  lemma Joined4(a: seq<byte>, b: seq<byte>, c: seq<byte>, d: seq<byte>, e: seq<byte>)
    ensures a + b + c + d + e == a + (b + (c + (d + e)))
  {}

  lemma FrameParts(p: PublishPacket, more: seq<byte>)
    requires ValidPublish(p) && p.qos == 0 && PublishTotal(p) <= 127 && |p.topic| <= 100
    ensures PublishTotal(p) == 2 + |p.topic| + |p.payload|
    ensures Frame(PublishFlags(p), PublishTotal(p), PublishBody(p)) + more
         == [PublishFlags(p)] + ([PublishTotal(p)] + (U16(|p.topic|) + (p.topic + (p.payload + more))))
  {
    hide PublishFlags, U16;
    assert EncodeRemaining(PublishTotal(p)) == [PublishTotal(p)];
  }

  /** The two octets that mqttProcessPublish takes for the length of the topic. */
  function TopicLengthRead(packet: seq<byte>): nat
    requires |packet| >= 4
  {
    packet[2] as int * 256 + packet[3]
  }

  /** It is the topic's length exactly when the length field is one octet: of a longer field, a further octet is taken
      for the first of the two. */
  lemma TopicLengthExactly(p: PublishPacket)
    requires ValidPublish(p) && |p.topic| < 0x8000
    ensures var f := Frame(PublishFlags(p), PublishTotal(p), PublishBody(p));
            |f| >= 4 && (TopicLengthRead(f) == |p.topic| <==> PublishTotal(p) <= 127)
  {
    hide PublishFlags, EncodeRemaining;
    var total, n := PublishTotal(p), |p.topic|;
    var f, rest := Frame(PublishFlags(p), total, PublishBody(p)), PublishBody(p);
    assert rest[0] == n / 256 && rest[1] == n % 256;
    LengthOctets(total);
    if total <= 127 {
      assert f == [PublishFlags(p), total] + rest;
    } else if total < 128 * 128 {
      assert f == [PublishFlags(p), total % 128 + 128, total / 128] + rest;
      NoTopicLength(n, total);
    } else {
      assert f[2] == EncodeRemaining(total)[1];
    }
  }

  lemma NoTopicLength(n: nat, total: nat)
    requires 128 <= total && n < total
    ensures total / 128 * 256 + n / 256 != n
  {
    assert total < total / 128 * 128 + 128;
  }

  lemma LengthOctets(total: nat)
    ensures total <= 127 ==> EncodeRemaining(total) == [total]
    ensures 128 <= total < 128 * 128 ==> EncodeRemaining(total) == [total % 128 + 128, total / 128]
    ensures total >= 128 * 128 ==> |EncodeRemaining(total)| >= 3 && EncodeRemaining(total)[1] >= 128
  {
    if total >= 128 * 128 { assert EncodeRemaining(total)[1..] == EncodeRemaining(total / 128); }
  }

  /** With a topic of one octet and a payload of 200, the topic is taken to have 256. */
  lemma LongPublishMisread(p: PublishPacket)
    requires ValidPublish(p) && p.qos == 0 && |p.topic| == 1 && |p.payload| == 200
    ensures var f := Frame(PublishFlags(p), PublishTotal(p), PublishBody(p)); |f| >= 4 && TopicLengthRead(f) == 256
  {
    hide PublishFlags, EncodeRemaining;
    LengthOctets(PublishTotal(p));
    var rest := PublishBody(p);
    assert rest[0] == 0;
    assert Frame(PublishFlags(p), PublishTotal(p), rest) == [PublishFlags(p), 203, 1] + rest;
  }
}
