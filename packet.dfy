/**
 * The byte-cursor reader of `src/Packet.php`: one immutable buffer and a
 * position that every getter advances. Each getter is proved against the
 * matching decoder of module Wire; a getter that throws leaves the cursor
 * where the PHP code leaves it.
 */
module PacketReader {
  import opened Bytes
  import opened Wire

  class Packet {
    const data: seq<Byte>
    var pos: int

    /**
     * The cursor never falls below -1, and is negative only after
     * `getRemain` on an empty buffer (which sets it to `strlen - 1`).
     */
    ghost predicate Valid()
      reads this
    {
      -1 <= pos && (pos < 0 ==> data == [])
    }

    constructor (data: seq<Byte>)
      ensures this.data == data && pos == 0
      ensures Valid()
    {
      this.data := data;
      pos := 0;
    }

    /** The do-while loop of `getLength`. */
    method GetLength() returns (length: Result<nat>)
      requires Valid()
      modifies this
      ensures Valid()
      ensures DecodeVarint(data, old(pos)) == Parsed(length, pos)
    {
      var dataSize := |data|;
      var multiplier: nat := 1;
      var value: nat := 0;
      var more := true;
      ghost var target := DecodeVarint(data, pos);
      CarryStart(target);
      while more
        invariant Valid() && old(pos) <= pos
        invariant more ==> target == Carry(value, multiplier, DecodeVarint(data, pos))
        invariant !more ==> target == Parsed(Ok(value), pos)
        decreases dataSize - pos
      {
        if pos > dataSize - 1 {
          VarintPastEnd(data, pos, value, multiplier, target);
          return Err(IllegalProtocol);
        }
        var digit := At(data, pos);
        DigitMasks(digit);
        var low := And(digit, 127);
        var high := And(digit, 128);
        CarryAdvance(data, pos, value, multiplier, target);
        ghost var v0, m0 := value, multiplier;
        value := value + low * multiplier;
        multiplier := multiplier * 128;
        assert value == v0 + (digit % 128) * m0 && multiplier == m0 * 128;
        pos := pos + 1;
        more := high != 0;
      }
      length := Ok(value);
    }

    method GetFixedHeader() returns (header: Result<FixedHeader>)
      requires Valid()
      modifies this
      ensures Valid()
      ensures DecodeFixedHeader(data, old(pos)) == Parsed(header, pos)
    {
      if |data| < 2 {
        return Err(IllegalProtocol);
      }
      var b := data[0];
      pos := pos + 1;
      HeaderMasks(b);
      var kind := Shr(And(b, 0xF0), 4);
      var reserved := And(b, 0x0F);
      var dup := Shr(And(b, 0x08), 3);
      var qos := Shr(And(b, 0x06), 1);
      var retain := And(b, 0x01);
      var length := GetLength();
      if length.Err? {
        return Err(length.error);
      }
      header := Ok(FixedHeader(kind, reserved, dup, qos, retain, length.value));
    }

    method GetMSBAndLSBValue() returns (value: nat)
      requires Valid()
      modifies this
      ensures Valid()
      ensures value == DecodeU16(data, old(pos)) && pos == old(pos) + 2
    {
      value := 256 * At(data, pos) + At(data, pos + 1);
      pos := pos + 2;
    }

    method GetByte() returns (b: Byte)
      requires Valid()
      modifies this
      ensures Valid()
      ensures b == At(data, old(pos)) && pos == old(pos) + 1
    {
      b := At(data, pos);
      pos := pos + 1;
    }

    method GetString() returns (s: seq<Byte>)
      requires Valid()
      modifies this
      ensures Valid()
      ensures DecodeString(data, old(pos)) == Parsed(Ok(s), pos)
    {
      var length := GetMSBAndLSBValue();
      s := Substr(data, pos, length);
      pos := pos + length;
    }

    /** Everything after the cursor; the cursor then rests on the last byte, not past it. */
    method GetRemain() returns (remain: seq<Byte>)
      requires Valid()
      modifies this
      ensures Valid()
      ensures remain == SubstrFrom(data, old(pos)) && pos == |data| - 1
      ensures 0 <= old(pos) <= |data| ==> data[..old(pos)] + remain == data
    {
      remain := SubstrFrom(data, pos);
      pos := |data| - 1;
    }

    method GetConnectInfo() returns (info: Result<ConnectInfo>)
      requires Valid()
      modifies this
      ensures Valid()
      ensures DecodeConnect(data, old(pos)) == Parsed(info, pos)
    {
      var protocolName := GetString();
      if protocolName != Mqtt {
        return Err(NotMqtt);
      }
      var version := At(data, pos);
      pos := pos + 1;
      var b := At(data, pos);
      LowMasks(b);
      // PHP precedence, literally: `$byte & 0x80 == 0x80` is `$byte & (0x80 == 0x80)`.
      var userNameFlag := And(b, BoolToInt(0x80 == 0x80));
      var passwordFlag := And(b, BoolToInt(0x40 == 0x40));
      var willRetain := And(b, BoolToInt(0x20 == 0x20));
      var willQos := And(b, Shr(0x18, 3));
      var willFlag := And(b, BoolToInt(0x04 == 0x04));
      var cleanSession := And(b, BoolToInt(0x02 == 0x02));
      var reserved := And(b, BoolToInt(0x01 == 0x01));
      assert userNameFlag == b % 2 && passwordFlag == b % 2 && willRetain == b % 2 && willQos == b % 4;
      assert willFlag == b % 2 && cleanSession == b % 2 && reserved == b % 2;
      if reserved != 0 {
        return Err(ReservedNotZero);
      }
      pos := pos + 1;
      var keepalive := GetMSBAndLSBValue();
      var clientId := GetString();
      info := Ok(ConnectInfo(protocolName, version, userNameFlag, passwordFlag, willRetain, willQos,
                             willFlag, cleanSession, reserved, keepalive, clientId));
    }
  }
}
