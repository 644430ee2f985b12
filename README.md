# A model of a minimal PHP MQTT 3.1.1 broker

This project models the core of a small MQTT 3.1.1 server written in PHP on
top of Swoole. The core has two overlapping decoders and the dispatcher that
uses one of them:

- **`Packet`** (`src/Packet.php`) is a byte-cursor reader. It holds one
  immutable buffer and a mutable position. Every getter reads one wire field
  and advances the position. The fields are:
  - the fixed header;
  - the Remaining Length variable-length integer;
  - big-endian 16-bit integers;
  - length-prefixed strings;
  - single bytes;
  - the rest of the buffer;
  - the CONNECT variable header and client id.
- **`MqttServer`** (`src/MqttServer.php`) has its own copies of the header,
  length, 16-bit and CONNECT decoders. They thread a by-reference offset.
  The server also has:
  - two constant responses, CONNACK and PINGRESP;
  - `handleData`, which dispatches on the packet type;
  - the `$clients` registry of `Client` records, which CONNECT writes and the
    close callback clears.

The Dafny files:

- `bytes.dfy` (module `Bytes`) defines octets and the PHP primitives the
  decoders use: `ord($s[$i])`, `substr`, and `&` and `>>` on bytes. The
  bitwise operators are defined through `bv8`. Lemmas relate them to
  arithmetic.
- `wire.dfy` (module `Wire`) gives each wire field as a pure decoder and, where
  it makes sense, an encoder. Every decoder returns a `Parsed` value. It holds
  the getter's result or the exception it throws, and where the cursor stands
  afterwards. Round trips, fails-iff conditions and field layouts are proved
  here.
- `packet.dfy` (module `PacketReader`) has class `Packet`, with the buffer as a
  `const` and the cursor as a field. Each getter is a method proved against the
  matching `Wire` decoder. `getLength` is the original do-while loop, carried
  by its invariant.
- `broker.dfy` (module `Broker`) contains:
  - the server's decoders, as static methods over a by-reference offset
    (modelled as an in-parameter and an out-parameter);
  - `handleData`, as `Broker.Handle`, a function of the registry, the
    connection id and the buffer;
  - class `MqttServer` with its `clients` map. `HandleData` is proved against
    `Handle`. `OnReceive` and `OnClose` model the receive and close callbacks.

### Modelling choices

- **PHP version.** The semantics are those of PHP 7. The code's `$data{$i}` string
  offsets do not parse in PHP 8.
- **Buffers.** A buffer is a `seq<Byte>` with `Byte = 0..255`.
- **Out-of-range reads.** Reading a byte past the end of the buffer gives 0.
  This covers `$data[$i]`, `ord(substr($data, $i, 1))` and the connect-flags
  read. In PHP 7, `$data[$i]` past the end yields the empty string, and
  `substr` past the end yields `false`. `ord` of either is 0. So the getters
  without bounds checks keep having no precondition.
- **`substr`.** It is a slice clamped at the end of the buffer, and it is empty
  when the start is at or past the end. PHP 7 agrees when the start equals the
  length (it returns `""`). When the start lies past the end, PHP 7 returns
  `false`, and the model returns the empty sequence instead (see "## Left out").
- **Operator precedence.** The connect-flag expressions follow PHP precedence
  literally:
  - `$byte & 0x20 == 0x20` is `$byte & (0x20 == 0x20)`, that is `$byte & 1`;
  - `$byte & 0x18 >> 3` is `$byte & 3`.

  The layout the expressions were meant to read is given separately, as
  `Wire.IntendedConnectFlags`. See "## Findings".
- **Errors.** Each kind of thrown message is one `Wire.Error` constructor. There
  are four kinds; the logged text differences inside each kind are merged. The server's
  `getConnectInfo` throws the "illegal MQTT Control Packet type" message for a
  bad protocol name, exactly as the code does.
- **Remaining Length.** There is no limit on the number of length digits.
  Values are unbounded naturals.
- **`getRemain`.** It leaves the reader's cursor on the last byte
  (`strlen - 1`), not past it. On an empty buffer that is -1; `Packet.Valid`
  allows exactly that case.

### Where MQTT 3.1.1 and the code differ

The model follows the code in each of these cases:

- **Remaining Length cap.** Section 2.2.3 allows at most four length bytes, so
  a fifth continuation byte is malformed. The code has no cap: any run of
  continuation bytes is decoded. `Wire.StandardLengthRoundTrip` shows that every
  length the section allows is still read back in one to four bytes.
- **SUBSCRIBE and UNSUBSCRIBE.** Section 3.8.1 fixes the SUBSCRIBE flag bits
  (0010) and treats other values as malformed, and sections 3.9 and 3.11 define
  the SUBACK and UNSUBACK replies. In the code both branches are empty. PUBLISH
  only extracts the topic and message; nothing is fanned out.
- **Connect flags.** Section 3.1.2.3 lays out one flag per bit. Both copies of
  the code have the precedence slip above.
- **Server CONNECT decoder.** Section 3.1.2.3 requires the server to reject a
  set reserved flag. The server's copy has no reserved-bit check, and it fills
  only the will and clean-start flags.

## Model

| member | source | states |
|---|---|---|
| Wire.U16Bytes | src/Packet.php:51-55 | the big-endian pair is below 65536, its high byte is the byte at the cursor and its low byte the next one |
| Wire.U16RoundTrip | src/Packet.php:51-55 | decoding the two-byte encoding of any n < 65536, wherever it sits in a buffer, yields n |
| Wire.DecodeVarint | src/Packet.php:76-90 | a successful Remaining Length read ends past the cursor and within the buffer; a failure is "illegal MQTT protocol" with the cursor at the end of the buffer (or where it was, if already past it) |
| Wire.VarintConsumed | src/Packet.php:76-90 | a successful read stops at the first byte whose high bit is clear, every byte before it has the high bit set, and the value is the sum of (b_i & 127)·128^i over the bytes consumed |
| Wire.VarintFailsIff | src/Packet.php:80-88 | the length read throws exactly when every byte from the cursor to the end has its high bit set |
| Wire.VarintRoundTrip | src/Packet.php:76-90 | decoding the seven-bits-per-byte encoding of any n, inside any buffer, yields n and consumes exactly the encoding |
| Wire.StandardLengthRoundTrip | src/Packet.php:76-90 | every Remaining Length up to 268,435,455 (the four-byte range of MQTT 3.1.1 section 2.2.3) is read back, consuming one to four bytes, and one byte exactly when it is below 128 |
| Wire.FixedHeaderFailsIff | src/Packet.php:11-24 | getFixedHeader throws exactly when the buffer has fewer than 2 bytes or the length digits after the cursor run off the end |
| Wire.HeaderFields | src/Packet.php:15-22 | on success type is the high nibble of byte 0, reserved the low nibble, dup/qos/retain are bit 3, bits 2-1 and bit 0, so reserved == 8·dup + 2·qos + retain; the length is the varint after the cursor, whose end is the new cursor |
| Wire.HeaderRoundTrip | src/Packet.php:11-24 | a header byte built from type and flags followed by the encoding of n decodes to that type, those flags and n |
| Wire.DecodeString | src/Packet.php:63-68 | getString never throws: it yields the clamped slice after the two length bytes and moves the cursor by 2 plus the declared length |
| Wire.StringClamped | src/Packet.php:63-68 | with the length bytes inside the buffer, the string read is the bytes after them up to the declared end or the buffer's end, and the cursor moves past the full declared length |
| Wire.StringRoundTrip | src/Packet.php:63-68 | a length-prefixed string of fewer than 65536 bytes decodes to itself and the cursor moves by 2 + its length |
| Wire.ConnectFailsIff | src/Packet.php:26-48 | getConnectInfo throws exactly when the protocol name is not "MQTT" ("protocol is not MQTT", cursor after the name) or bit 0 of the flags byte is set ("reserved is not 0", cursor on the flags byte) |
| Wire.ConnectFlagsAsWritten | src/Packet.php:33-40 | as written, on success the name is "MQTT", every flag field is 0 and will QoS is the low two bits of the flags byte, hence 0 or 2 |
| Wire.ConnectRoundTrip | src/Packet.php:26-48 | a CONNECT header built from version, flags, keep-alive and client id decodes to those version, keep-alive and client id with the as-written flag values and the cursor past the client id, or throws "reserved is not 0" with the cursor on the flags byte when bit 0 is set |
| Wire.IntendedConnectFlags | src/Packet.php:34-40 | the flag decoding the masks were meant for: user name bit 7, password bit 6, will retain bit 5, will QoS bits 4-3, will flag bit 2, clean session bit 1, reserved bit 0 |
| Wire.IntendedFlagsRoundTrip | src/Packet.php:34-40 | the intended decoding recovers every flag of any flags byte built from them |
| Wire.PrecedenceDropsFlags | src/Packet.php:34-40 | flags byte 0xCE (user name, password, will flag, will QoS 1, clean session) is accepted as written with those flags all 0 and will QoS 2, while the intended decoding reports them |
| PacketReader.Packet.constructor | src/Packet.php:6-9 | a new reader holds the given buffer with the cursor at 0; the buffer is a constant no getter can change |
| PacketReader.Packet.GetFixedHeader | src/Packet.php:11-24 | returns Wire.DecodeFixedHeader of the buffer at the old cursor, or its exception, and leaves the cursor where that decoder says |
| PacketReader.Packet.GetConnectInfo | src/Packet.php:26-48 | returns Wire.DecodeConnect of the buffer at the old cursor, or its exception, and leaves the cursor where that decoder says |
| PacketReader.Packet.GetMSBAndLSBValue | src/Packet.php:51-55 | returns the big-endian pair at the cursor and advances it by exactly 2 |
| PacketReader.Packet.GetByte | src/Packet.php:57-61 | returns the byte at the cursor (0 past the end) and advances it by exactly 1 |
| PacketReader.Packet.GetString | src/Packet.php:63-68 | returns Wire.DecodeString at the old cursor and moves the cursor by 2 plus the declared length |
| PacketReader.Packet.GetRemain | src/Packet.php:70-74 | returns everything from the cursor to the end, so that the consumed prefix followed by it is the buffer, and sets the cursor to the buffer length minus 1 |
| PacketReader.Packet.GetLength | src/Packet.php:76-90 | the do-while loop returns Wire.DecodeVarint at the old cursor, or its exception, and leaves the cursor where that decoder says |
| Broker.ServerHeaderFailsIff | src/MqttServer.php:105-117 | the server's getFixedHeader throws exactly when the buffer is shorter than 2 bytes or the length digits run off the end; otherwise type, dup, qos and retain are the high nibble, bit 3, bits 2-1 and bit 0 of byte 0 and the offset ends just past the length digits |
| Broker.ServerConnectFailsIff | src/MqttServer.php:119-124 | the server's getConnectInfo throws exactly when the protocol name is not "MQTT", with its "illegal MQTT Control Packet type" message and the offset just after the name's length bytes |
| Broker.ServerAcceptsWhatReaderAccepts | src/MqttServer.php:119-142 | whatever the reader's getConnectInfo accepts, the server's accepts too, with the same name, version, will and clean-session values, keep-alive, client id and end offset |
| Broker.ServerSkipsReservedCheck | src/MqttServer.php:131-136 | the server has no reserved-bit check: a CONNECT whose flags byte has bit 0 set is rejected by the reader and accepted by the server, with will retain, will flag and clean start all 1 |
| Broker.ServerConnectRoundTrip | src/MqttServer.php:119-142 | a CONNECT header built from version, flags, keep-alive and client id decodes on the server to those values, the as-written flags (bit 0, low two bits) and the offset past the client id |
| Broker.HandleTypes | src/MqttServer.php:61-93 | once the header decodes, every type other than 1, 3, 8, 10, 12, 14 is refused with "illegal MQTT Control Packet type", and types 3, 8, 10, 12, 14 are always accepted |
| Broker.HandleFailsIff | src/MqttServer.php:58-95 | handleData throws exactly when the header fails, a CONNECT names a protocol other than "MQTT", or the type is not handled |
| Broker.HandleConnect | src/MqttServer.php:62-71 | a CONNECT that decodes sends exactly one CONNACK 20 02 00 00 and maps the connection to a Client holding the decoded info, every other registry entry unchanged |
| Broker.HandleNonConnect | src/MqttServer.php:72-94 | any other accepted type leaves the registry unchanged; PINGREQ sends exactly one D0 00, the others send nothing; only PUBLISH extracts a topic and message |
| Broker.HandleSends | src/MqttServer.php:58-95 | an accepted packet sends at most one response: the CONNACK exactly for CONNECT and the PINGRESP exactly for PINGREQ |
| Broker.PublishRoundTrip | src/MqttServer.php:72-79 | a PUBLISH of any header byte and Remaining Length whose body is a length-prefixed topic and then a message yields that topic and that message, sends nothing and leaves the registry unchanged |
| Broker.HandleConnectRoundTrip | src/MqttServer.php:58-71 | a CONNECT of any Remaining Length carrying version, flags, keep-alive and client id is answered with one CONNACK and registers those values with the as-written flags, whatever bit 0 holds |
| Broker.ConnectDev1 | src/MqttServer.php:62-71 | a CONNECT with client id "dev1", flags 0x02 and keep-alive 60 is answered with 20 02 00 00 and registers client id "dev1" |
| Broker.PingreqAnswered | src/MqttServer.php:84-88 | PINGREQ C0 00 is answered with D0 00 and changes nothing else |
| Broker.TypeFifteenRefused | src/MqttServer.php:91-93 | a packet of type 15 is refused with "illegal MQTT Control Packet type" |
| Broker.MqttServer.constructor | src/MqttServer.php:15 | the registry starts empty |
| Broker.MqttServer.MakeConnackData | src/MqttServer.php:97-99 | the CONNACK is four bytes that decode as type 2 with remaining length 2, followed by session-present 0 and return code 0 |
| Broker.MqttServer.MakePingreqData | src/MqttServer.php:101-103 | despite its name, the response is two bytes that decode as type 13 (PINGRESP) with remaining length 0 |
| Broker.MqttServer.GetLength | src/MqttServer.php:144-158 | the server's do-while loop returns Wire.DecodeVarint at the given offset, or its exception, and the offset that decoder leaves |
| Broker.MqttServer.GetMSBAndLSBValue | src/MqttServer.php:160-165 | the value is Wire.DecodeU16 at the offset: below 65536, its high byte the byte at the offset, its low byte the next one; the offset moves by exactly 2 |
| Broker.MqttServer.GetFixedHeader | src/MqttServer.php:105-117 | returns Broker.DecodeServerHeader at the given offset, or its exception, and the offset that decoder leaves |
| Broker.MqttServer.GetConnectInfo | src/MqttServer.php:119-142 | returns Broker.DecodeServerConnect at the given offset, or its exception, and the offset that decoder leaves |
| Broker.MqttServer.HandleData | src/MqttServer.php:58-95 | sends what Broker.Handle says and leaves the registry it says; on an exception nothing is sent and the registry is as before |
| Broker.MqttServer.OnReceive | src/MqttServer.php:43-50 | the connection is closed exactly when handleData throws, in which case nothing was sent and the registry is unchanged |
| Broker.MqttServer.OnClose | src/MqttServer.php:51-54 | the close callback removes exactly the connection's entry, leaves every other entry as it was, and changes nothing when there is none |

## Left out

- `MqttServer::start` and the top-level `(new MqttServer())->start()`
  (src/MqttServer.php:32-56, 168) are left out. They build the Swoole server on
  port 1883, register the callbacks and start the event loop, which is all I/O.
  Only the callbacks' effects are modelled, by `OnReceive` and `OnClose`. The
  connect callback only logs.
- `echo` and `var_dump` output is left out; it is logging only.
- `send` is not I/O here. What `handleData` sends is returned as a list of byte
  strings. It is synchronous in the code, and a failed send is not modelled.
- Concurrency is left out. The server runs one worker and the code has no
  locks.
- PHP's integer-to-float overflow in `getLength` is not modelled. After nine
  continuation digits the multiplier is 128^9 = 2^63, which exceeds
  `PHP_INT_MAX` (2^63 - 1), so PHP turns it into a float. The model uses unbounded naturals.
- Negative string offsets are not modelled. The reader's cursor is negative
  only after `getRemain` on an empty buffer, where every read yields 0 or the
  empty string either way.
- Bytes.Substr, Wire.DecodeString, Broker.DecodeServerConnect: a string whose
  start lies past the end of the buffer is the empty sequence, where PHP 7's
  `substr` returns `false`. That `false` is stored and returned: the client id
  of src/MqttServer.php:139, registered at :68-69, and the results of
  `getString` and `getRemain` (src/Packet.php:65-67, 71-73). For the server
  CONNECT `10 06 00 04 4D 51 54 54`, PHP registers a `Client` whose client id
  is `false`, while `Broker.Handle` registers `[]`. The model has no `false`
  string value.
- The `Client` class is a plain record of its two private fields.
- The `Packet` reader is not used by the server's code path. It is modelled on
  its own, and lemmas compare the two CONNECT decoders.
- PHP's loose `!=` between the protocol name and `'MQTT'` is modelled as
  sequence inequality. The name comes off the wire and may be a numeric
  string such as "1234". But `'MQTT'` is not numeric, so PHP 7 compares the
  bytes, and `false` also compares unequal to it. So the two agree.
- Subscriptions, PUBLISH fan-out, SUBACK and UNSUBACK have no code to model.
  The SUBSCRIBE, UNSUBSCRIBE and DISCONNECT branches are empty.

## Findings

| source | as written | input that shows it | evidently intended | confidence | as-written member | corrected member |
|---|---|---|---|---|---|---|
| src/Packet.php:34-40 (also src/MqttServer.php:132-135) | `$byte & 0x80 == 0x80` parses as `$byte & (0x80 == 0x80)`, that is `$byte & 1`, and `$byte & 0x18 >> 3` as `$byte & 3`; every flag becomes bit 0 and will QoS the low two bits | a CONNECT whose flags byte is 0xCE (user name, password, will flag, will QoS 1, clean session) is accepted with all those flags 0 and will QoS 2 | mask first and then compare or shift: `($byte & 0x80) == 0x80`, `($byte & 0x18) >> 3` | not executed | Wire.PrecedenceDropsFlags | Wire.IntendedFlagsRoundTrip |

The reader's and the server's decoders keep the as-written expressions,
because they model what the program computes. The corrected decoding is
`Wire.IntendedConnectFlags`, and the round-trip property is proved about it.
