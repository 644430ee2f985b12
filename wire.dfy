/**
 * The MQTT 3.1.1 wire fields that both decoders of the server read, as pure
 * functions of a buffer and a cursor position, with the encodings they
 * invert. Each decoder returns what the PHP getter returns (or the exception
 * it throws) together with the cursor position it leaves behind.
 */
module Wire {
  import opened Bytes

  /** The exceptions the decoders throw, one constructor per message. */
  datatype Error =
    | IllegalProtocol    // "illegal MQTT protocol": short buffer, or the Remaining Length runs off its end
    | NotMqtt            // "protocol is not MQTT"
    | ReservedNotZero    // "reserved is not 0"
    | IllegalPacketType  // "illegal MQTT Control Packet type"

  datatype Result<T> = Ok(value: T) | Err(error: Error)

  /** What a read produced, and where the cursor stands afterwards, whether the read returned or threw. */
  datatype Parsed<T> = Parsed(result: Result<T>, next: int)

  /** The fields `Packet::getFixedHeader` puts in its header array. */
  datatype FixedHeader = FixedHeader(kind: nat, reserved: nat, dup: nat, qos: nat, retain: nat, length: nat)

  /**
   * The fields `Packet::getConnectInfo` puts in its connect-info array. The
   * flag fields hold the integers the PHP expressions yield, not booleans.
   */
  datatype ConnectInfo = ConnectInfo(
    protocolName: seq<Byte>,
    version: Byte,
    userNameFlag: Byte,
    passwordFlag: Byte,
    willRetain: Byte,
    willQos: Byte,
    willFlag: Byte,
    cleanSession: Byte,
    reserved: Byte,
    keepalive: nat,
    clientId: seq<Byte>)

  /** The protocol name "MQTT". */
  const Mqtt: seq<Byte> := [0x4D, 0x51, 0x54, 0x54]

  // ---------------------------------------------------------------------------
  // Two-byte big-endian integers (section 1.5.2 of MQTT 3.1.1)

  /** `getMSBAndLSBValue`: most significant byte first; bytes past the end read as 0. */
  function DecodeU16(s: seq<Byte>, p: int): nat
  {
    256 * At(s, p) + At(s, p + 1)
  }

  function EncodeU16(n: nat): (e: seq<Byte>)
    requires n < 65536
  {
    [n / 256, n % 256]
  }

  lemma U16Bytes(s: seq<Byte>, p: int)
    ensures DecodeU16(s, p) < 65536
    ensures DecodeU16(s, p) / 256 == At(s, p)
    ensures DecodeU16(s, p) % 256 == At(s, p + 1)
  {
  }

  lemma U16RoundTrip(n: nat, pre: seq<Byte>, post: seq<Byte>)
    requires n < 65536
    ensures DecodeU16(pre + EncodeU16(n) + post, |pre|) == n
  {
    var s := pre + EncodeU16(n) + post;
    assert s[|pre|] == n / 256 && s[|pre| + 1] == n % 256;
  }

  // ---------------------------------------------------------------------------
  // Remaining Length (section 2.2.3 of MQTT 3.1.1)

  function Pow128(k: nat): (r: nat)
    ensures r >= 1
  {
    if k == 0 then 1 else 128 * Pow128(k - 1)
  }

  /** The sum of `(ds[i] & 127) * 128^i`: the value a run of length digits stands for. */
  function DigitSum(ds: seq<Byte>): nat
  {
    if ds == [] then 0 else DigitSum(ds[..|ds| - 1]) + (ds[|ds| - 1] % 128) * Pow128(|ds| - 1)
  }

  /** The value of one digit added below an already-scaled remainder. */
  function Shift(low: nat, r: Result<nat>): Result<nat>
  {
    match r
    case Ok(v) => Ok(low + 128 * v)
    case Err(e) => Err(e)
  }

  /**
   * `getLength`: digits from `p` up to and including the first one whose
   * high bit is clear; throws once the cursor passes the last byte, leaving
   * the cursor there. No limit on the number of digits.
   */
  function DecodeVarint(s: seq<Byte>, p: int): (r: Parsed<nat>)
    ensures r.result.Ok? ==> p < r.next <= |s|
    ensures r.result.Err? ==> r.result.error == IllegalProtocol && r.next == (if p < |s| then |s| else p)
    decreases |s| - p
  {
    if p > |s| - 1 then Parsed(Err(IllegalProtocol), p)
    else
      var d := At(s, p);
      if d < 128 then Parsed(Ok(d), p + 1)
      else
        var rest := DecodeVarint(s, p + 1);
        Parsed(Shift(d % 128, rest.result), rest.next)
  }

  /** The encoding of section 2.2.3: seven bits per byte, least significant first, high bit = more. */
  function EncodeVarint(n: nat): (e: seq<Byte>)
    decreases n
  {
    if n < 128 then [n] else [n % 128 + 128] + EncodeVarint(n / 128)
  }

  /** The loop state of `getLength`: `value` so far and the `multiplier` of the next digit, in front of the rest of the read. */
  function Carry(value: nat, multiplier: nat, r: Parsed<nat>): Parsed<nat>
  {
    match r.result
    case Ok(v) => Parsed(Ok(value + multiplier * v), r.next)
    case Err(e) => Parsed(Err(e), r.next)
  }

  lemma CarryStep(value: nat, multiplier: nat, low: nat, r: Parsed<nat>)
    ensures Carry(value, multiplier, Parsed(Shift(low, r.result), r.next))
         == Carry(value + low * multiplier, multiplier * 128, r)
  {
    if r.result.Ok? {
      var v := r.result.value;
      calc {
        value + multiplier * (low + 128 * v);
        value + multiplier * low + multiplier * (128 * v);
        value + low * multiplier + (multiplier * 128) * v;
      }
    }
  }

  lemma CarryStart(r: Parsed<nat>)
    ensures Carry(0, 1, r) == r
  {
  }

  /** One turn of the `getLength` loop, seen from the decoder: the digit at `p` moves from the rest of the read into the carried value. */
  lemma CarryAdvance(s: seq<Byte>, p: int, value: nat, multiplier: nat, target: Parsed<nat>)
    requires p <= |s| - 1
    requires target == Carry(value, multiplier, DecodeVarint(s, p))
    ensures var d := At(s, p);
      && (d >= 128 ==> target == Carry(value + (d % 128) * multiplier, multiplier * 128, DecodeVarint(s, p + 1)))
      && (d < 128 ==> target == Parsed(Ok(value + (d % 128) * multiplier), p + 1))
  {
    var d := At(s, p);
    if d >= 128 {
      CarryStep(value, multiplier, d % 128, DecodeVarint(s, p + 1));
    } else {
      assert DecodeVarint(s, p) == Parsed(Ok(d), p + 1);
      assert d % 128 == d;
    }
  }

  lemma VarintPastEnd(s: seq<Byte>, p: int, value: nat, multiplier: nat, target: Parsed<nat>)
    requires p > |s| - 1
    requires target == Carry(value, multiplier, DecodeVarint(s, p))
    ensures target == Parsed(Err(IllegalProtocol), p)
  {
  }

  lemma {:induction false} DigitSumCons(d: Byte, t: seq<Byte>)
    ensures DigitSum([d] + t) == d % 128 + 128 * DigitSum(t)
    decreases |t|
  {
    if t == [] {
      assert [d] + t == [d];
      assert [d][..0] == [];
    } else {
      var u := [d] + t;
      var t' := t[..|t| - 1];
      var x := t[|t| - 1];
      assert u[..|u| - 1] == [d] + t';
      assert u[|u| - 1] == x;
      DigitSumCons(d, t');
      calc {
        DigitSum(u);
        DigitSum([d] + t') + (x % 128) * Pow128(|t|);
        d % 128 + 128 * DigitSum(t') + (x % 128) * (128 * Pow128(|t'|));
        d % 128 + 128 * (DigitSum(t') + (x % 128) * Pow128(|t'|));
        d % 128 + 128 * DigitSum(t);
      }
    }
  }

  /**
   * A successful `getLength` stops at the first byte with the high bit clear,
   * having consumed only bytes with the high bit set before it, and returns
   * the sum of `(b_i & 127) * 128^i` over the bytes it consumed.
   */
  lemma {:induction false} VarintConsumed(s: seq<Byte>, p: int)
    requires 0 <= p
    requires DecodeVarint(s, p).result.Ok?
    ensures var r := DecodeVarint(s, p);
      && p < r.next <= |s|
      && s[r.next - 1] < 128
      && (forall i :: p <= i < r.next - 1 ==> s[i] >= 128)
      && r.result.value == DigitSum(s[p..r.next])
    decreases |s| - p
  {
    var r := DecodeVarint(s, p);
    var d := s[p];
    if d < 128 {
      assert s[p..p + 1] == [d];
      assert [d][..0] == [];
    } else {
      VarintConsumed(s, p + 1);
      var q := r.next;
      assert s[p..q] == [d] + s[p + 1..q];
      DigitSumCons(d, s[p + 1..q]);
    }
  }

  /** `getLength` throws exactly when every byte from the cursor to the end has its high bit set. */
  lemma {:induction false} VarintFailsIff(s: seq<Byte>, p: int)
    requires 0 <= p
    ensures DecodeVarint(s, p).result.Err? <==> forall i :: p <= i < |s| ==> s[i] >= 128
    decreases |s| - p
  {
    if p < |s| {
      VarintFailsIff(s, p + 1);
    }
  }

  /** Decoding the section 2.2.3 encoding of any `n` yields `n` and consumes exactly the encoding. */
  lemma {:induction false} VarintRoundTrip(n: nat, pre: seq<Byte>, post: seq<Byte>)
    ensures DecodeVarint(pre + EncodeVarint(n) + post, |pre|) == Parsed(Ok(n), |pre| + |EncodeVarint(n)|)
    decreases n
  {
    var s := pre + EncodeVarint(n) + post;
    if n < 128 {
      assert s[|pre|] == n;
    } else {
      var d := n % 128 + 128;
      assert s[|pre|] == d;
      assert s == (pre + [d]) + EncodeVarint(n / 128) + post;
      VarintRoundTrip(n / 128, pre + [d], post);
    }
  }

  /** Values up to 268,435,455 encode in one to four bytes. */
  lemma {:induction false} VarintLength(n: nat)
    requires n <= 268435455
    ensures 1 <= |EncodeVarint(n)| <= 4
    ensures |EncodeVarint(n)| == 1 <==> n < 128
  {
    if n >= 128 {
      var m := n / 128;
      assert |EncodeVarint(n)| == 1 + |EncodeVarint(m)|;
      if m >= 128 {
        var k := m / 128;
        assert |EncodeVarint(m)| == 1 + |EncodeVarint(k)|;
        if k >= 128 {
          assert k / 128 < 128;
          assert |EncodeVarint(k)| == 1 + |EncodeVarint(k / 128)|;
          assert |EncodeVarint(k / 128)| == 1;
        }
      }
    }
  }

  /**
   * Every Remaining Length that section 2.2.3 of MQTT 3.1.1 allows is read
   * back by `getLength`, which consumes one to four bytes for it, so the
   * missing four-byte cap never rejects a well-formed length.
   */
  lemma StandardLengthRoundTrip(n: nat, pre: seq<Byte>, post: seq<Byte>)
    requires n <= 268435455
    ensures var r := DecodeVarint(pre + EncodeVarint(n) + post, |pre|);
      && r.result == Ok(n)
      && |pre| + 1 <= r.next <= |pre| + 4
      && (r.next == |pre| + 1 <==> n < 128)
  {
    VarintRoundTrip(n, pre, post);
    VarintLength(n);
  }

  // ---------------------------------------------------------------------------
  // Fixed header (section 2.2 of MQTT 3.1.1)

  /**
   * `getFixedHeader`: throws on a buffer shorter than two bytes; otherwise
   * splits byte 0 (always byte 0, whatever the cursor) and reads the
   * Remaining Length right after the cursor, which it advances by one.
   */
  function DecodeFixedHeader(s: seq<Byte>, p: int): Parsed<FixedHeader>
  {
    if |s| < 2 then Parsed(Err(IllegalProtocol), p)
    else
      var b := s[0];
      var length := DecodeVarint(s, p + 1);
      match length.result
      case Err(e) => Parsed(Err(e), length.next)
      case Ok(n) => Parsed(Ok(FixedHeader(b / 16, b % 16, (b / 8) % 2, (b / 2) % 4, b % 2, n)), length.next)
  }

  /** The first byte of a fixed header with the given packet type and flags. */
  function HeaderByte(kind: nat, dup: nat, qos: nat, retain: nat): Byte
    requires kind < 16 && dup < 2 && qos < 4 && retain < 2
  {
    16 * kind + 8 * dup + 2 * qos + retain
  }

  lemma {:induction false} FixedHeaderFailsIff(s: seq<Byte>, p: int)
    requires 0 <= p
    ensures DecodeFixedHeader(s, p).result.Err?
        <==> |s| < 2 || forall i :: p + 1 <= i < |s| ==> s[i] >= 128
  {
    VarintFailsIff(s, p + 1);
  }

  /**
   * The header fields are the nibbles and bits of byte 0: type is the high
   * nibble, the reserved nibble is the low one, and DUP, QoS and RETAIN
   * are its bit 3, bits 2-1 and bit 0, so the nibble is their combination.
   */
  lemma HeaderFields(s: seq<Byte>, p: int)
    requires DecodeFixedHeader(s, p).result.Ok?
    ensures var h := DecodeFixedHeader(s, p).result.value;
      && h.kind < 16 && h.dup < 2 && h.qos < 4 && h.retain < 2
      && s[0] == 16 * h.kind + h.reserved
      && h.reserved == 8 * h.dup + 2 * h.qos + h.retain
      && h.length == DecodeVarint(s, p + 1).result.value
      && DecodeFixedHeader(s, p).next == DecodeVarint(s, p + 1).next
  {
    NibbleBits(s[0]);
  }

  /** The low nibble of a byte is bit 3, bits 2-1 and bit 0 put together. */
  lemma NibbleBits(b: Byte)
    ensures b % 16 == 8 * ((b / 8) % 2) + 2 * ((b / 2) % 4) + b % 2
  {
    var hi, lo := b / 16, b % 16;
    assert b == 16 * hi + lo;
    assert b / 8 == 2 * hi + lo / 8;
    assert (b / 8) % 2 == lo / 8;
    assert b / 2 == 8 * hi + lo / 2;
    assert (b / 2) % 4 == (lo / 2) % 4;
    assert b % 2 == lo % 2;
  }

  /** A header byte followed by the encoding of `n` decodes to the same type, flags and length. */
  lemma HeaderRoundTrip(kind: nat, dup: nat, qos: nat, retain: nat, n: nat, post: seq<Byte>)
    requires kind < 16 && dup < 2 && qos < 4 && retain < 2
    ensures var s := [HeaderByte(kind, dup, qos, retain)] + EncodeVarint(n) + post;
      DecodeFixedHeader(s, 0)
        == Parsed(Ok(FixedHeader(kind, 8 * dup + 2 * qos + retain, dup, qos, retain, n)), 1 + |EncodeVarint(n)|)
  {
    var b := HeaderByte(kind, dup, qos, retain);
    var s := [b] + EncodeVarint(n) + post;
    VarintRoundTrip(n, [b], post);
    assert |EncodeVarint(n)| >= 1;
    assert s[0] == b;
    var lo := 8 * dup + 2 * qos + retain;
    assert b / 16 == kind && b % 16 == lo;
    assert (b / 8) % 2 == dup && (b / 2) % 4 == qos && b % 2 == retain by {
      assert b / 8 == 2 * kind + dup;
      assert b / 2 == 8 * kind + 4 * dup + qos;
    }
  }

  // ---------------------------------------------------------------------------
  // Length-prefixed strings (section 1.5.3 of MQTT 3.1.1)

  /** `getString`: a two-byte length, then that many bytes, cut off at the end of the buffer. */
  function DecodeString(s: seq<Byte>, p: int): (r: Parsed<seq<Byte>>)
    ensures r.result.Ok?
  {
    var n := DecodeU16(s, p);
    Parsed(Ok(Substr(s, p + 2, n)), p + 2 + n)
  }

  function EncodeString(str: seq<Byte>): seq<Byte>
    requires |str| < 65536
  {
    EncodeU16(|str|) + str
  }

  /** The string read is the bytes after the length, clamped at the end; the cursor moves past the full declared length. */
  lemma StringClamped(s: seq<Byte>, p: int)
    requires 0 <= p && p + 2 <= |s|
    ensures var r := DecodeString(s, p);
      && r.next == p + 2 + DecodeU16(s, p)
      && r.result.value == s[p + 2..Min(r.next, |s|)]
  {
  }

  lemma StringRoundTrip(str: seq<Byte>, pre: seq<Byte>, post: seq<Byte>)
    requires |str| < 65536
    ensures DecodeString(pre + EncodeString(str) + post, |pre|) == Parsed(Ok(str), |pre| + 2 + |str|)
  {
    var s := pre + EncodeString(str) + post;
    assert s == pre + EncodeU16(|str|) + (str + post);
    U16RoundTrip(|str|, pre, str + post);
    assert s[|pre| + 2..|pre| + 2 + |str|] == str;
  }

  // ---------------------------------------------------------------------------
  // CONNECT variable header and payload (sections 3.1.2 and 3.1.3 of MQTT 3.1.1)

  /**
   * `Packet::getConnectInfo`, as written. PHP binds `==` tighter than `&`
   * and `>>` tighter than `&`, so every `$byte & 0xM == 0xM` is `$byte & 1`
   * and `$byte & 0x18 >> 3` is `$byte & 3`.
   */
  function DecodeConnect(s: seq<Byte>, p: int): Parsed<ConnectInfo>
  {
    var name := DecodeString(s, p);
    if name.result.value != Mqtt then Parsed(Err(NotMqtt), name.next)
    else
      var q := name.next;
      var flags := At(s, q + 1);
      var bit0 := flags % 2;
      if bit0 != 0 then Parsed(Err(ReservedNotZero), q + 1)
      else
        var clientId := DecodeString(s, q + 4);
        Parsed(Ok(ConnectInfo(Mqtt, At(s, q), bit0, bit0, bit0, flags % 4, bit0, bit0, bit0,
                              DecodeU16(s, q + 2), clientId.result.value)),
               clientId.next)
  }

  /** A CONNECT variable header with protocol name "MQTT", followed by a client id. */
  function EncodeConnect(version: Byte, flags: Byte, keepalive: nat, clientId: seq<Byte>): seq<Byte>
    requires keepalive < 65536 && |clientId| < 65536
  {
    EncodeString(Mqtt) + [version, flags] + EncodeU16(keepalive) + EncodeString(clientId)
  }

  /** `getConnectInfo` throws exactly when the name is not "MQTT" or bit 0 of the flags byte is set. */
  lemma ConnectFailsIff(s: seq<Byte>, p: int)
    ensures var name := DecodeString(s, p);
      var r := DecodeConnect(s, p);
      && (r.result.Err? <==> name.result.value != Mqtt || At(s, name.next + 1) % 2 == 1)
      && (name.result.value != Mqtt ==> r == Parsed(Err(NotMqtt), name.next))
      && (name.result.value == Mqtt && At(s, name.next + 1) % 2 == 1 ==> r == Parsed(Err(ReservedNotZero), name.next + 1))
  {
  }

  /**
   * As written, every flag field of an accepted CONNECT is 0, because each is
   * bit 0 of the flags byte and bit 0 must be clear; the will QoS is the low
   * two bits of the flags byte, hence 0 or 2.
   */
  lemma ConnectFlagsAsWritten(s: seq<Byte>, p: int)
    requires DecodeConnect(s, p).result.Ok?
    ensures var c := DecodeConnect(s, p).result.value;
      var flags := At(s, DecodeString(s, p).next + 1);
      && c.protocolName == Mqtt
      && c.userNameFlag == 0 && c.passwordFlag == 0 && c.willRetain == 0
      && c.willFlag == 0 && c.cleanSession == 0 && c.reserved == 0
      && c.willQos == flags % 4 && (c.willQos == 0 || c.willQos == 2)
  {
  }

  /** Name, version, keep-alive and client id round-trip; the flag fields come back as the as-written expressions yield them. */
  lemma ConnectRoundTrip(version: Byte, flags: Byte, keepalive: nat, clientId: seq<Byte>, pre: seq<Byte>, post: seq<Byte>)
    requires keepalive < 65536 && |clientId| < 65536
    ensures var s := pre + EncodeConnect(version, flags, keepalive, clientId) + post;
      var r := DecodeConnect(s, |pre|);
      if flags % 2 == 1 then r == Parsed(Err(ReservedNotZero), |pre| + 7)
      else r == Parsed(Ok(ConnectInfo(Mqtt, version, 0, 0, 0, flags % 4, 0, 0, 0, keepalive, clientId)),
                       |pre| + 12 + |clientId|)
  {
    var s := pre + EncodeConnect(version, flags, keepalive, clientId) + post;
    var p := |pre|;
    var rest := [version, flags] + EncodeU16(keepalive) + EncodeString(clientId) + post;
    assert s == pre + EncodeString(Mqtt) + rest;
    StringRoundTrip(Mqtt, pre, rest);
    assert s[p + 6] == version && s[p + 7] == flags;
    var pre2 := pre + EncodeString(Mqtt) + [version, flags];
    assert |pre2| == p + 8;
    assert s == pre2 + EncodeU16(keepalive) + (EncodeString(clientId) + post);
    U16RoundTrip(keepalive, pre2, EncodeString(clientId) + post);
    var pre3 := pre2 + EncodeU16(keepalive);
    assert s == pre3 + EncodeString(clientId) + post;
    StringRoundTrip(clientId, pre3, post);
  }

  // ---------------------------------------------------------------------------
  // The connect flags as the MQTT layout defines them

  /** The connect flags byte of section 3.1.2.3, one field per flag. */
  datatype ConnectFlags = ConnectFlags(
    userName: bool, password: bool, willRetain: bool, willQos: nat,
    will: bool, cleanSession: bool, reserved: bool)

  /** Each flag isolated by masking first and then comparing (or shifting), as the commented intent of the source reads. */
  function IntendedConnectFlags(flags: Byte): (f: ConnectFlags)
    ensures f.userName == ((flags / 128) % 2 == 1)
    ensures f.password == ((flags / 64) % 2 == 1)
    ensures f.willRetain == ((flags / 32) % 2 == 1)
    ensures f.willQos == (flags / 8) % 4
    ensures f.will == ((flags / 4) % 2 == 1)
    ensures f.cleanSession == ((flags / 2) % 2 == 1)
    ensures f.reserved == (flags % 2 == 1)
  {
    FlagMasks(flags);
    ConnectFlags(And(flags, 0x80) == 0x80, And(flags, 0x40) == 0x40, And(flags, 0x20) == 0x20,
                 Shr(And(flags, 0x18), 3), And(flags, 0x04) == 0x04, And(flags, 0x02) == 0x02,
                 And(flags, 0x01) == 0x01)
  }

  function Bit(b: bool): nat { if b then 1 else 0 }

  /** The flags byte that carries the given flags. */
  function EncodeConnectFlags(f: ConnectFlags): Byte
    requires f.willQos < 4
  {
    128 * Bit(f.userName) + 64 * Bit(f.password) + 32 * Bit(f.willRetain) + 8 * f.willQos
      + 4 * Bit(f.will) + 2 * Bit(f.cleanSession) + Bit(f.reserved)
  }

  /** The bit fields of a byte assembled from binary digits (and a two-bit QoS) are those digits. */
  lemma FlagDigits(b: int, u: nat, pw: nat, wr: nat, q: nat, w: nat, c: nat, r: nat)
    requires u < 2 && pw < 2 && wr < 2 && q < 4 && w < 2 && c < 2 && r < 2
    requires b == 128 * u + 64 * pw + 32 * wr + 8 * q + 4 * w + 2 * c + r
    ensures (b / 128) % 2 == u && (b / 64) % 2 == pw && (b / 32) % 2 == wr && (b / 8) % 4 == q
    ensures (b / 4) % 2 == w && (b / 2) % 2 == c && b % 2 == r
  {
    assert b / 2 == 64 * u + 32 * pw + 16 * wr + 4 * q + 2 * w + c;
    assert b / 4 == 32 * u + 16 * pw + 8 * wr + 2 * q + w;
    assert b / 8 == 16 * u + 8 * pw + 4 * wr + q;
    assert b / 32 == 4 * u + 2 * pw + wr;
    assert b / 64 == 2 * u + pw;
    assert b / 128 == u;
  }

  /** The intended decoding is determined by the bit fields of the byte. */
  lemma IntendedFromFields(b: Byte, f: ConnectFlags)
    requires f.userName == ((b / 128) % 2 == 1) && f.password == ((b / 64) % 2 == 1)
    requires f.willRetain == ((b / 32) % 2 == 1) && f.willQos == (b / 8) % 4
    requires f.will == ((b / 4) % 2 == 1) && f.cleanSession == ((b / 2) % 2 == 1)
    requires f.reserved == (b % 2 == 1)
    ensures IntendedConnectFlags(b) == f
  {
  }

  /** The intended decoding recovers every flag that was encoded. */
  lemma IntendedFlagsRoundTrip(f: ConnectFlags)
    requires f.willQos < 4
    ensures IntendedConnectFlags(EncodeConnectFlags(f)) == f
  {
    var b := EncodeConnectFlags(f);
    FlagDigits(b, Bit(f.userName), Bit(f.password), Bit(f.willRetain), f.willQos,
               Bit(f.will), Bit(f.cleanSession), Bit(f.reserved));
    IntendedFromFields(b, f);
  }

  /** Flags byte 0xCE, decoded as intended: user name, password, will with QoS 1, clean session. */
  lemma IntendedFlagsCE()
    ensures IntendedConnectFlags(0xCE) == ConnectFlags(true, true, false, 1, true, true, false)
  {
    var f := IntendedConnectFlags(0xCE);
    assert f.userName && f.password && !f.willRetain && f.willQos == 1;
    assert f.will && f.cleanSession && !f.reserved;
  }

  /**
   * The precedence slip loses flags: a CONNECT whose flags byte is 0xCE
   * (user name, password, will flag with will QoS 1, clean session) decodes,
   * as written, with every flag 0 and will QoS 2, while the intended decoding
   * reports exactly those flags.
   */
  lemma PrecedenceDropsFlags(clientId: seq<Byte>)
    requires |clientId| < 65536
    ensures var r := DecodeConnect(EncodeConnect(4, 0xCE, 60, clientId), 0);
      && r.result.Ok?
      && r.result.value.userNameFlag == 0 && r.result.value.passwordFlag == 0
      && r.result.value.willFlag == 0 && r.result.value.cleanSession == 0
      && r.result.value.willQos == 2
      && IntendedConnectFlags(0xCE) == ConnectFlags(true, true, false, 1, true, true, false)
  {
    var s := EncodeConnect(4, 0xCE, 60, clientId);
    ConnectRoundTrip(4, 0xCE, 60, clientId, [], []);
    assert [] + s + [] == s;
    IntendedFlagsCE();
  }
}
