/**
 * `src/MqttServer.php`: the server's own copies of the decoders, which thread
 * a by-reference offset instead of a cursor object; the two constant
 * responses; `handleData`, which dispatches on the packet type; and the
 * `$clients` registry written on CONNECT and cleared on close. What the
 * server sends on the connection becomes an output of the model.
 */
module Broker {
  import opened Bytes
  import opened Wire

  const TYPE_CONNECT: nat := 1
  const TYPE_CONNACK: nat := 2
  const TYPE_PUBLISH: nat := 3
  const TYPE_SUBSCRIBE: nat := 8
  const TYPE_UNSUBSCRIBE: nat := 10
  const TYPE_PINGREQ: nat := 12
  const TYPE_PINGRESP: nat := 13
  const TYPE_DISCONNECT: nat := 14

  /** The server's header array: as the reader's, without the reserved nibble. */
  datatype ServerHeader = ServerHeader(kind: nat, dup: nat, qos: nat, retain: nat, length: nat)

  /**
   * The server's connect-info array. It has no user name, password or
   * reserved entries, and its session flag is called `cleanStart`.
   */
  datatype ServerConnectInfo = ServerConnectInfo(
    protocolName: seq<Byte>,
    version: Byte,
    willRetain: Byte,
    willQos: Byte,
    willFlag: Byte,
    cleanStart: Byte,
    keepalive: nat,
    clientId: seq<Byte>)

  /** `Client`: the connection it belongs to and what its CONNECT carried. */
  datatype Client = Client(fd: int, connectInfo: ServerConnectInfo)

  datatype Option<T> = None | Some(value: T)

  /** The topic and message the PUBLISH branch extracts. */
  datatype Publish = Publish(topic: seq<Byte>, message: seq<Byte>)

  /** What one `handleData` call sends (one entry per `send`) and what its PUBLISH branch extracted. */
  datatype Reply = Reply(sent: seq<seq<Byte>>, publish: Option<Publish>)

  /** A reply together with the client registry it leaves. */
  datatype Effect = Effect(sent: seq<seq<Byte>>, clients: map<int, Client>, publish: Option<Publish>)

  // ---------------------------------------------------------------------------
  // Specification of the server's decoders

  /** The server's `getFixedHeader`: the reader's header without its reserved nibble. */
  function DecodeServerHeader(s: seq<Byte>, p: int): Parsed<ServerHeader>
  {
    var r := DecodeFixedHeader(s, p);
    match r.result
    case Err(e) => Parsed(Err(e), r.next)
    case Ok(h) => Parsed(Ok(ServerHeader(h.kind, h.dup, h.qos, h.retain, h.length)), r.next)
  }

  /**
   * The server's `getConnectInfo`: a bad protocol name throws (with the
   * "illegal MQTT Control Packet type" message) right after the length was
   * read; there is no reserved-bit check. Flags as written, as in the reader.
   */
  function DecodeServerConnect(s: seq<Byte>, p: int): Parsed<ServerConnectInfo>
  {
    var name := DecodeString(s, p);
    if name.result.value != Mqtt then Parsed(Err(IllegalPacketType), p + 2)
    else
      var q := name.next;
      var flags := At(s, q + 1);
      var clientId := DecodeString(s, q + 4);
      Parsed(Ok(ServerConnectInfo(Mqtt, At(s, q), flags % 2, flags % 4, flags % 2, flags % 2,
                            DecodeU16(s, q + 2), clientId.result.value)),
             clientId.next)
  }

  /** The PUBLISH branch: a length-prefixed topic after the fixed header, and everything after it as the message. */
  function ParsePublish(s: seq<Byte>, p: int): Publish
  {
    var topic := DecodeString(s, p);
    Publish(topic.result.value, SubstrFrom(s, topic.next))
  }

  /** `handleData` as a function of the registry, the connection and the buffer. */
  function Handle(clients: map<int, Client>, fd: int, data: seq<Byte>): Result<Effect>
  {
    var h := DecodeServerHeader(data, 0);
    match h.result
    case Err(e) => Err(e)
    case Ok(header) =>
      if header.kind == TYPE_CONNECT then
        var c := DecodeServerConnect(data, h.next);
        match c.result
        case Err(e) => Err(e)
        case Ok(info) => Ok(Effect([MqttServer.MakeConnackData()], clients[fd := Client(fd, info)], None))
      else if header.kind == TYPE_PUBLISH then
        Ok(Effect([], clients, Some(ParsePublish(data, h.next))))
      else if header.kind == TYPE_SUBSCRIBE || header.kind == TYPE_UNSUBSCRIBE || header.kind == TYPE_DISCONNECT then
        Ok(Effect([], clients, None))
      else if header.kind == TYPE_PINGREQ then
        Ok(Effect([MqttServer.MakePingreqData()], clients, None))
      else
        Err(IllegalPacketType)
  }

  // ---------------------------------------------------------------------------
  // Properties of the server's decoders

  /**
   * The server's `getFixedHeader` throws exactly when the buffer is shorter
   * than two bytes or the Remaining Length runs off its end; otherwise the
   * type is the high nibble of byte 0 and DUP, QoS and RETAIN are its bit 3,
   * bits 2-1 and bit 0, and the offset ends just past the length digits.
   */
  lemma ServerHeaderFailsIff(s: seq<Byte>, p: int)
    requires 0 <= p
    ensures DecodeServerHeader(s, p).result.Err?
        <==> (|s| < 2 || forall i :: p + 1 <= i < |s| ==> s[i] >= 128)
    ensures DecodeServerHeader(s, p).result.Ok? ==>
      var h := DecodeServerHeader(s, p).result.value;
      && h.kind == s[0] / 16 && h.dup == (s[0] / 8) % 2 && h.qos == (s[0] / 2) % 4 && h.retain == s[0] % 2
      && h.length == DecodeVarint(s, p + 1).result.value
      && DecodeServerHeader(s, p).next == DecodeVarint(s, p + 1).next
  {
    FixedHeaderFailsIff(s, p);
  }

  /** The server's `getConnectInfo` throws exactly when the protocol name is not "MQTT": flags play no part. */
  lemma ServerConnectFailsIff(s: seq<Byte>, p: int)
    ensures DecodeServerConnect(s, p).result.Err? <==> DecodeString(s, p).result.value != Mqtt
    ensures DecodeServerConnect(s, p).result.Err? ==> DecodeServerConnect(s, p) == Parsed(Err(IllegalPacketType), p + 2)
  {
  }

  /**
   * Wherever the reader's `getConnectInfo` accepts, the server's copy accepts
   * too, with the same fields and the same end offset.
   */
  lemma ServerAcceptsWhatReaderAccepts(s: seq<Byte>, p: int)
    requires Wire.DecodeConnect(s, p).result.Ok?
    ensures var c := Wire.DecodeConnect(s, p);
      var d := DecodeServerConnect(s, p);
      && d.result.Ok? && d.next == c.next
      && d.result.value.protocolName == c.result.value.protocolName
      && d.result.value.version == c.result.value.version
      && d.result.value.willRetain == c.result.value.willRetain
      && d.result.value.willQos == c.result.value.willQos
      && d.result.value.willFlag == c.result.value.willFlag
      && d.result.value.cleanStart == c.result.value.cleanSession
      && d.result.value.keepalive == c.result.value.keepalive
      && d.result.value.clientId == c.result.value.clientId
  {
  }

  /**
   * The server has no reserved-bit check: a CONNECT whose flags byte has bit 0
   * set is rejected by the reader and accepted by the server.
   */
  lemma ServerSkipsReservedCheck(version: Byte, flags: Byte, keepalive: nat, clientId: seq<Byte>)
    requires keepalive < 65536 && |clientId| < 65536
    requires flags % 2 == 1
    ensures var s := EncodeConnect(version, flags, keepalive, clientId);
      && Wire.DecodeConnect(s, 0).result == Err(ReservedNotZero)
      && DecodeServerConnect(s, 0).result
         == Ok(ServerConnectInfo(Mqtt, version, 1, flags % 4, 1, 1, keepalive, clientId))
  {
    var s := EncodeConnect(version, flags, keepalive, clientId);
    assert [] + s + [] == s;
    Wire.ConnectRoundTrip(version, flags, keepalive, clientId, [], []);
    ServerConnectRoundTrip(version, flags, keepalive, clientId, [], []);
  }

  /** The server's connect decoding recovers name, version, keep-alive and client id, and yields bit 0 / bits 1-0 of the flags for the flag fields. */
  lemma ServerConnectRoundTrip(version: Byte, flags: Byte, keepalive: nat, clientId: seq<Byte>, pre: seq<Byte>, post: seq<Byte>)
    requires keepalive < 65536 && |clientId| < 65536
    ensures var s := pre + EncodeConnect(version, flags, keepalive, clientId) + post;
      DecodeServerConnect(s, |pre|)
        == Parsed(Ok(ServerConnectInfo(Mqtt, version, flags % 2, flags % 4, flags % 2, flags % 2, keepalive, clientId)),
                  |pre| + 12 + |clientId|)
  {
    var s := pre + EncodeConnect(version, flags, keepalive, clientId) + post;
    var p := |pre|;
    var rest := [version, flags] + EncodeU16(keepalive) + EncodeString(clientId) + post;
    assert s == pre + EncodeString(Mqtt) + rest;
    StringRoundTrip(Mqtt, pre, rest);
    assert s[p + 6] == version && s[p + 7] == flags;
    var pre2 := pre + EncodeString(Mqtt) + [version, flags];
    assert s == pre2 + EncodeU16(keepalive) + (EncodeString(clientId) + post);
    U16RoundTrip(keepalive, pre2, EncodeString(clientId) + post);
    var pre3 := pre2 + EncodeU16(keepalive);
    assert s == pre3 + EncodeString(clientId) + post;
    StringRoundTrip(clientId, pre3, post);
  }

  // ---------------------------------------------------------------------------
  // Properties of the dispatcher

  /**
   * Any packet type other than 1, 3, 8, 10, 12 and 14 is refused once the
   * fixed header decodes; types 3, 8, 10, 12 and 14 are always accepted.
   */
  lemma HandleTypes(clients: map<int, Client>, fd: int, data: seq<Byte>)
    requires DecodeServerHeader(data, 0).result.Ok?
    ensures var kind := DecodeServerHeader(data, 0).result.value.kind;
      (kind !in {TYPE_CONNECT, TYPE_PUBLISH, TYPE_SUBSCRIBE, TYPE_UNSUBSCRIBE, TYPE_PINGREQ, TYPE_DISCONNECT})
        ==> (Handle(clients, fd, data) == Err(IllegalPacketType))
    ensures var kind := DecodeServerHeader(data, 0).result.value.kind;
      (kind in {TYPE_PUBLISH, TYPE_SUBSCRIBE, TYPE_UNSUBSCRIBE, TYPE_PINGREQ, TYPE_DISCONNECT})
        ==> Handle(clients, fd, data).Ok?
  {
  }

  /** `handleData` refuses a buffer exactly when its header fails, its CONNECT body fails, or its type is not handled. */
  lemma HandleFailsIff(clients: map<int, Client>, fd: int, data: seq<Byte>)
    ensures var h := DecodeServerHeader(data, 0);
      (Handle(clients, fd, data).Err?)
        <==> (|| h.result.Err?
              || (h.result.value.kind == TYPE_CONNECT && DecodeString(data, h.next).result.value != Mqtt)
              || h.result.value.kind !in {TYPE_CONNECT, TYPE_PUBLISH, TYPE_SUBSCRIBE, TYPE_UNSUBSCRIBE, TYPE_PINGREQ, TYPE_DISCONNECT})
  {
    var h := DecodeServerHeader(data, 0);
    if h.result.Ok? && h.result.value.kind == TYPE_CONNECT {
      ServerConnectFailsIff(data, h.next);
    }
  }

  /**
   * A CONNECT that decodes sends exactly one CONNACK and registers the client
   * under its connection, leaving every other entry as it was.
   */
  lemma HandleConnect(clients: map<int, Client>, fd: int, data: seq<Byte>)
    requires DecodeServerHeader(data, 0).result.Ok?
    requires DecodeServerHeader(data, 0).result.value.kind == TYPE_CONNECT
    requires DecodeServerConnect(data, DecodeServerHeader(data, 0).next).result.Ok?
    ensures var info := DecodeServerConnect(data, DecodeServerHeader(data, 0).next).result.value;
      var r := Handle(clients, fd, data);
      && r.Ok? && r.value.sent == [[0x20, 0x02, 0x00, 0x00]] && r.value.publish == None
      && fd in r.value.clients && r.value.clients[fd] == Client(fd, info)
      && (forall k :: k != fd ==> (k in r.value.clients <==> k in clients))
      && (forall k :: k != fd && k in clients ==> r.value.clients[k] == clients[k])
  {
  }

  /** Every packet type other than CONNECT leaves the registry as it was; only PINGREQ sends, and exactly one PINGRESP. */
  lemma HandleNonConnect(clients: map<int, Client>, fd: int, data: seq<Byte>)
    requires DecodeServerHeader(data, 0).result.Ok?
    requires DecodeServerHeader(data, 0).result.value.kind != TYPE_CONNECT
    requires Handle(clients, fd, data).Ok?
    ensures var kind := DecodeServerHeader(data, 0).result.value.kind;
      var e := Handle(clients, fd, data).value;
      && e.clients == clients
      && (kind == TYPE_PINGREQ ==> e.sent == [[0xD0, 0x00]])
      && (kind != TYPE_PINGREQ ==> e.sent == [])
      && (e.publish.Some? <==> kind == TYPE_PUBLISH)
  {
  }

  /** Sending happens only on CONNECT (one CONNACK) and PINGREQ (one PINGRESP). */
  lemma HandleSends(clients: map<int, Client>, fd: int, data: seq<Byte>)
    requires Handle(clients, fd, data).Ok?
    ensures var e := Handle(clients, fd, data).value;
      var kind := DecodeServerHeader(data, 0).result.value.kind;
      && |e.sent| <= 1
      && (e.sent == [[0x20, 0x02, 0x00, 0x00]] <==> kind == TYPE_CONNECT)
      && (e.sent == [[0xD0, 0x00]] <==> kind == TYPE_PINGREQ)
  {
  }

  /**
   * A PUBLISH whose body is a length-prefixed topic followed by a message
   * yields that topic and that message, and changes nothing else.
   */
  lemma PublishRoundTrip(clients: map<int, Client>, fd: int, b: Byte, n: nat, topic: seq<Byte>, message: seq<Byte>)
    requires b / 16 == TYPE_PUBLISH
    requires |topic| < 65536
    ensures var data := [b] + EncodeVarint(n) + EncodeString(topic) + message;
      Handle(clients, fd, data) == Ok(Effect([], clients, Some(Publish(topic, message))))
  {
    var data := [b] + EncodeVarint(n) + EncodeString(topic) + message;
    var hdr := [b] + EncodeVarint(n);
    var s1 := EncodeVarint(n) + EncodeString(topic) + message;
    assert data == [b] + s1;
    assert s1 == [] + EncodeVarint(n) + (EncodeString(topic) + message);
    VarintRoundTrip(n, [b], EncodeString(topic) + message);
    assert data == [b] + EncodeVarint(n) + (EncodeString(topic) + message);
    assert |EncodeVarint(n)| >= 1;
    assert data == hdr + EncodeString(topic) + message;
    StringRoundTrip(topic, hdr, message);
    var next := |hdr| + 2 + |topic|;
    assert data[..next] == hdr + EncodeString(topic);
    assert SubstrFrom(data, next) == message by {
      assert data[..next] + message == data;
    }
  }

  /**
   * A CONNECT whose body is a well-formed variable header and client id is
   * answered with one CONNACK and registers that client id, whatever the
   * Remaining Length says and whatever the flags byte holds.
   */
  lemma HandleConnectRoundTrip(clients: map<int, Client>, fd: int, b: Byte, n: nat,
                         version: Byte, flags: Byte, keepalive: nat, clientId: seq<Byte>)
    requires b / 16 == TYPE_CONNECT
    requires keepalive < 65536 && |clientId| < 65536
    ensures var data := [b] + EncodeVarint(n) + EncodeConnect(version, flags, keepalive, clientId);
      var info := ServerConnectInfo(Mqtt, version, flags % 2, flags % 4, flags % 2, flags % 2, keepalive, clientId);
      Handle(clients, fd, data) == Ok(Effect([[0x20, 0x02, 0x00, 0x00]], clients[fd := Client(fd, info)], None))
  {
    var body := EncodeConnect(version, flags, keepalive, clientId);
    var data := [b] + EncodeVarint(n) + body;
    VarintRoundTrip(n, [b], body);
    assert |EncodeVarint(n)| >= 1;
    var hdr := [b] + EncodeVarint(n);
    assert data == hdr + body + [];
    ServerConnectRoundTrip(version, flags, keepalive, clientId, hdr, []);
  }

  /** The body of a CONNECT for protocol level 4, flags 0x02 and keep-alive 60, piece by piece. */
  lemma Level4Body(clientId: seq<Byte>)
    requires |clientId| == 4
    ensures EncodeConnect(4, 0x02, 60, clientId) == [0, 4] + Mqtt + [4, 0x02] + [0, 60] + [0, 4] + clientId
  {
    assert EncodeU16(4) == [0, 4];
    assert EncodeU16(60) == [0, 60];
  }

  /** The 18 bytes of the "dev1" CONNECT packet, grouped the way the encoders produce them. */
  lemma Dev1Bytes(data: seq<Byte>, dev1: seq<Byte>)
    requires data == [0x10, 16, 0, 4, 0x4D, 0x51, 0x54, 0x54, 4, 0x02, 0, 60, 0, 4, 0x64, 0x65, 0x76, 0x31]
    requires dev1 == [0x64, 0x65, 0x76, 0x31]
    ensures data == [0x10] + [16] + ([0, 4] + Mqtt + [4, 0x02] + [0, 60] + [0, 4] + dev1)
  {
  }

  /** The "dev1" CONNECT packet is what the encoders produce. */
  lemma Dev1Layout(data: seq<Byte>)
    requires data == [0x10, 16, 0, 4, 0x4D, 0x51, 0x54, 0x54, 4, 0x02, 0, 60, 0, 4, 0x64, 0x65, 0x76, 0x31]
    ensures data == [0x10] + EncodeVarint(16) + EncodeConnect(4, 0x02, 60, [0x64, 0x65, 0x76, 0x31])
  {
    var dev1: seq<Byte> := [0x64, 0x65, 0x76, 0x31];
    Level4Body(dev1);
    assert EncodeVarint(16) == [16];
    Dev1Bytes(data, dev1);
  }

  /** CONNECT from client id "dev1" (flags 0x02, keep-alive 60) is answered with 20 02 00 00. */
  lemma ConnectDev1(clients: map<int, Client>, fd: int, data: seq<Byte>)
    requires data == [0x10, 16, 0, 4, 0x4D, 0x51, 0x54, 0x54, 4, 0x02, 0, 60, 0, 4, 0x64, 0x65, 0x76, 0x31]
    ensures var r := Handle(clients, fd, data);
      && r.Ok? && r.value.sent == [[0x20, 0x02, 0x00, 0x00]]
      && r.value.clients[fd].connectInfo.clientId == [0x64, 0x65, 0x76, 0x31]
  {
    var dev1: seq<Byte> := [0x64, 0x65, 0x76, 0x31];
    Dev1Layout(data);
    HandleConnectRoundTrip(clients, fd, 0x10, 16, 4, 0x02, 60, dev1);
  }

  /** PINGREQ (C0 00) is answered with D0 00. */
  lemma PingreqAnswered(clients: map<int, Client>, fd: int)
    ensures Handle(clients, fd, [0xC0, 0x00]) == Ok(Effect([[0xD0, 0x00]], clients, None))
  {
    assert DecodeVarint([0xC0, 0x00], 1) == Parsed(Ok(0), 2);
  }

  /** Packet type 15 is refused, so the receive handler closes the connection. */
  lemma TypeFifteenRefused(clients: map<int, Client>, fd: int)
    ensures Handle(clients, fd, [0xF0, 0x00]) == Err(IllegalPacketType)
  {
    assert DecodeVarint([0xF0, 0x00], 1) == Parsed(Ok(0), 2);
  }

  class MqttServer {
    var clients: map<int, Client>

    constructor ()
      ensures clients == map[]
    {
      clients := map[];
    }

    /** A CONNACK (section 3.2 of MQTT 3.1.1): packet type 2, remaining length 2, no session present, return code 0 (accepted). */
    static function MakeConnackData(): (r: seq<Byte>)
      ensures DecodeFixedHeader(r, 0) == Parsed(Ok(FixedHeader(TYPE_CONNACK, 0, 0, 0, 0, 2)), 2)
      ensures |r| == 4 && r[2] == 0 && r[3] == 0
    {
      [32, 2, 0, 0]
    }

    /** Despite its name, a PINGRESP (section 3.13 of MQTT 3.1.1): packet type 13, remaining length 0. */
    static function MakePingreqData(): (r: seq<Byte>)
      ensures DecodeFixedHeader(r, 0) == Parsed(Ok(FixedHeader(TYPE_PINGRESP, 0, 0, 0, 0, 0)), 2)
      ensures |r| == 2
    {
      [208, 0]
    }

    /** `getLength(data, &offset)`: the reader's loop over a by-reference offset. */
    static method GetLength(data: seq<Byte>, offset: int) returns (length: Result<nat>, offset': int)
      ensures DecodeVarint(data, offset) == Parsed(length, offset')
    {
      offset' := offset;
      var dataSize := |data|;
      var multiplier: nat := 1;
      var value: nat := 0;
      var more := true;
      ghost var target := DecodeVarint(data, offset);
      CarryStart(target);
      while more
        invariant offset <= offset'
        invariant more ==> target == Carry(value, multiplier, DecodeVarint(data, offset'))
        invariant !more ==> target == Parsed(Ok(value), offset')
        decreases dataSize - offset'
      {
        if offset' > dataSize - 1 {
          VarintPastEnd(data, offset', value, multiplier, target);
          return Err(IllegalProtocol), offset';
        }
        var digit := At(data, offset');
        DigitMasks(digit);
        var low := And(digit, 127);
        var high := And(digit, 128);
        CarryAdvance(data, offset', value, multiplier, target);
        ghost var v0, m0 := value, multiplier;
        value := value + low * multiplier;
        multiplier := multiplier * 128;
        assert value == v0 + (digit % 128) * m0 && multiplier == m0 * 128;
        offset' := offset' + 1;
        more := high != 0;
      }
      length := Ok(value);
    }

    /** `getMSBAndLSBValue(data, &offset)`: the big-endian pair at the offset, which moves by 2. */
    static method GetMSBAndLSBValue(data: seq<Byte>, offset: int) returns (value: nat, offset': int)
      ensures value == DecodeU16(data, offset) && value < 65536
      ensures value / 256 == At(data, offset) && value % 256 == At(data, offset + 1)
      ensures offset' == offset + 2
    {
      value := 256 * At(data, offset) + At(data, offset + 1);
      offset' := offset + 2;
    }

    static method GetFixedHeader(data: seq<Byte>, offset: int) returns (header: Result<ServerHeader>, offset': int)
      ensures DecodeServerHeader(data, offset) == Parsed(header, offset')
    {
      offset' := offset;
      if |data| < 2 {
        return Err(IllegalProtocol), offset';
      }
      var b := data[0];
      offset' := offset' + 1;
      HeaderMasks(b);
      var kind := Shr(And(b, 0xF0), 4);
      var dup := Shr(And(b, 0x08), 3);
      var qos := Shr(And(b, 0x06), 1);
      var retain := And(b, 0x01);
      var length;
      length, offset' := GetLength(data, offset');
      if length.Err? {
        return Err(length.error), offset';
      }
      header := Ok(ServerHeader(kind, dup, qos, retain, length.value));
    }

    static method GetConnectInfo(data: seq<Byte>, offset: int) returns (info: Result<ServerConnectInfo>, offset': int)
      ensures DecodeServerConnect(data, offset) == Parsed(info, offset')
    {
      var length;
      length, offset' := GetMSBAndLSBValue(data, offset);
      var protocolName := Substr(data, offset', length);
      if protocolName != Mqtt {
        return Err(IllegalPacketType), offset';
      }
      offset' := offset' + length;
      var version := At(data, offset');
      offset' := offset' + 1;
      var b := At(data, offset');
      LowMasks(b);
      // PHP precedence, literally: `$byte & 0x20 == 0x20` is `$byte & (0x20 == 0x20)`.
      var willRetain := And(b, BoolToInt(0x20 == 0x20));
      var willQos := And(b, Shr(0x18, 3));
      var willFlag := And(b, BoolToInt(0x04 == 0x04));
      var cleanStart := And(b, BoolToInt(0x02 == 0x02));
      offset' := offset' + 1;
      var keepalive;
      keepalive, offset' := GetMSBAndLSBValue(data, offset');
      length, offset' := GetMSBAndLSBValue(data, offset');
      var clientId := Substr(data, offset', length);
      offset' := offset' + length;
      info := Ok(ServerConnectInfo(protocolName, version, willRetain, willQos, willFlag, cleanStart, keepalive, clientId));
    }

    /** `handleData`: on any exception nothing has been sent and the registry is as before. */
    method HandleData(fd: int, data: seq<Byte>) returns (r: Result<Reply>)
      modifies this
      ensures match Handle(old(clients), fd, data)
        case Ok(e) => r == Ok(Reply(e.sent, e.publish)) && clients == e.clients
        case Err(err) => r == Err(err) && clients == old(clients)
    {
      var offset := 0;
      var header;
      header, offset := GetFixedHeader(data, offset);
      if header.Err? {
        return Err(header.error);
      }
      var kind := header.value.kind;
      if kind == TYPE_CONNECT {
        var connectInfo;
        connectInfo, offset := GetConnectInfo(data, offset);
        if connectInfo.Err? {
          return Err(connectInfo.error);
        }
        var resp := MakeConnackData();
        clients := clients[fd := Client(fd, connectInfo.value)];
        r := Ok(Reply([resp], None));
      } else if kind == TYPE_PUBLISH {
        var length;
        length, offset := GetMSBAndLSBValue(data, offset);
        var topic := Substr(data, offset, length);
        offset := offset + length;
        var msg := SubstrFrom(data, offset);
        r := Ok(Reply([], Some(Publish(topic, msg))));
      } else if kind == TYPE_SUBSCRIBE || kind == TYPE_UNSUBSCRIBE || kind == TYPE_DISCONNECT {
        r := Ok(Reply([], None));
      } else if kind == TYPE_PINGREQ {
        var resp := MakePingreqData();
        r := Ok(Reply([resp], None));
      } else {
        r := Err(IllegalPacketType);
      }
    }

    /** The receive callback: an exception from `handleData` makes the server close the connection. */
    method OnReceive(fd: int, data: seq<Byte>) returns (sent: seq<seq<Byte>>, close: bool)
      modifies this
      ensures close <==> Handle(old(clients), fd, data).Err?
      ensures close ==> sent == [] && clients == old(clients)
      ensures !close ==> (sent == Handle(old(clients), fd, data).value.sent
                          && clients == Handle(old(clients), fd, data).value.clients)
    {
      var r := HandleData(fd, data);
      if r.Err? {
        sent, close := [], true;
      } else {
        sent, close := r.value.sent, false;
      }
    }

    /** The close callback: `unset($this->clients[$fd])`. */
    method OnClose(fd: int)
      modifies this
      ensures clients == old(clients) - {fd}
      ensures fd !in clients
      ensures forall k :: k != fd ==> (k in clients <==> k in old(clients))
      ensures forall k :: k in clients ==> clients[k] == old(clients)[k]
      ensures fd !in old(clients) ==> clients == old(clients)
    {
      clients := clients - {fd};
    }
  }
}
