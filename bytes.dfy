/**
 * Octets and the handful of PHP string and integer primitives the decoders
 * are built from: indexing a string (`ord($s[$i])`), `substr`, and the
 * bitwise `&` and `>>` on values that fit in a byte.
 */
module Bytes {

  /** One octet of a buffer, as PHP's `ord` returns it. */
  type Byte = b: int | 0 <= b < 256

  function Min(a: int, b: int): int { if a <= b then a else b }

  /**
   * `ord($s[$i])` and `ord(substr($s, $i, 1))`: the byte at `i`, or 0 when `i`
   * lies outside the string (PHP 7 reads `""` or, from `substr`, `false`
   * there, and `ord` of either is 0).
   */
  function At(s: seq<Byte>, i: int): (b: Byte)
    ensures 0 <= i < |s| ==> b == s[i]
    ensures !(0 <= i < |s|) ==> b == 0
  {
    if 0 <= i < |s| then s[i] else 0
  }

  /**
   * `substr($s, $start, $len)` for a non-negative length: the bytes from
   * `start`, cut off at the end of the string; empty when `start` is at or
   * past the end (where PHP 7 returns `false` rather than `""` once `start`
   * exceeds the length; the model has no `false` string). A negative `start` (counted from the end in PHP) only
   * arises in this model on an empty buffer, where every slice is empty.
   */
  function Substr(s: seq<Byte>, start: int, len: nat): (r: seq<Byte>)
    ensures |r| <= len
    ensures 0 <= start && start + len <= |s| ==> r == s[start..start + len]
    ensures 0 <= start <= |s| ==> r == s[start..Min(start + len, |s|)]
  {
    if start < 0 || |s| <= start then [] else s[start..Min(start + len, |s|)]
  }

  /** `substr($s, $start)`: everything from `start` to the end of the string. */
  function SubstrFrom(s: seq<Byte>, start: int): (r: seq<Byte>)
    ensures 0 <= start <= |s| ==> s[..start] + r == s
    ensures |s| <= start ==> r == []
  {
    if start < 0 || |s| <= start then [] else s[start..]
  }

  /** PHP's conversion of a boolean operand of `&` to an integer. */
  function BoolToInt(b: bool): Byte { if b then 1 else 0 }

  /** PHP `$a & $m` on two byte-sized integers. */
  function And(a: Byte, m: Byte): Byte
  {
    ((a as bv8) & (m as bv8)) as int
  }

  /** PHP `$a >> $k` on a byte-sized integer. */
  function Shr(a: Byte, k: nat): Byte
    requires k < 8
  {
    ((a as bv8) >> k) as int
  }

  // The facts below relate the bitwise operations to arithmetic. Each is
  // proved on bv8 first, in small steps (a pure bit-vector identity, then
  // the value of a shift or a low mask), and then carried over to Byte.

  lemma NibbleAsBv(x: int)
    requires 0 <= x < 16
    ensures (x as bv8) as int == x
  {
  }

  lemma JoinNibbles(h: bv8, l: bv8)
    requires h as int < 16 && l as int < 16
    ensures ((h << 4) | l) as int == 16 * (h as int) + l as int
  {
  }

  lemma SameValue(v: bv8, b: Byte)
    requires v as int == b
    ensures v == b as bv8
  {
  }

  /** Converting a byte to `bv8` keeps its value; shown one nibble at a time. */
  lemma AsBv(b: Byte)
    ensures (b as bv8) as int == b
  {
    var h, l := b / 16, b % 16;
    NibbleAsBv(h);
    NibbleAsBv(l);
    JoinNibbles(h as bv8, l as bv8);
    SameValue(((h as bv8) << 4) | (l as bv8), b);
  }

  /** Two bit-vectors are equal exactly when their values are. */
  lemma BvEqValue(w: bv8, m: bv8)
    ensures (w as int == m as int) == (w == m)
  {
  }

  lemma DivMod2(x: int, q: int, r: int)
    requires x == 2 * q + r && 0 <= r < 2
    ensures x % 2 == r
  {
  }

  lemma DivMod4(x: int, q: int, r: int)
    requires x == 4 * q + r && 0 <= r < 4
    ensures x % 4 == r
  {
  }

  lemma SplitLow1(u: bv8)
    ensures u as int == 2 * ((u >> 1) as int) + (u & 1) as int && (u & 1) as int < 2
  {
  }

  lemma SplitLow2(u: bv8)
    ensures u as int == 4 * ((u >> 2) as int) + (u & 3) as int && (u & 3) as int < 4
  {
  }

  lemma BvLow1(u: bv8)
    ensures (u & 1) as int == (u as int) % 2
  {
    SplitLow1(u);
    DivMod2(u as int, (u >> 1) as int, (u & 1) as int);
  }

  lemma BvLow2(u: bv8)
    ensures (u & 3) as int == (u as int) % 4
  {
    SplitLow2(u);
    DivMod4(u as int, (u >> 2) as int, (u & 3) as int);
  }

  lemma BvLow7(v: bv8)
    ensures (v & 0x7F) as int == (v as int) % 128
  {
  }

  lemma BvLowNibble(v: bv8)
    ensures (v & 0x0F) as int == (v as int) % 16
  {
  }

  lemma BvIsOne(u: bv8)
    ensures (u & 1 == 1) == ((u & 1) as int == 1)
  {
  }

  /** Bit 0 of `u`, as a truth value and as the parity of its value. */
  lemma BvBit0(u: bv8)
    ensures (u & 1 == 1) == ((u as int) % 2 == 1)
  {
    BvLow1(u);
    BvIsOne(u);
  }

  lemma BvShr1(v: bv8) ensures (v >> 1) as int == (v as int) / 2 { }
  lemma BvShr2(v: bv8) ensures (v >> 2) as int == (v as int) / 4 { }
  lemma BvShr3(v: bv8) ensures (v >> 3) as int == (v as int) / 8 { }
  lemma BvShr5(v: bv8) ensures (v >> 5) as int == (v as int) / 32 { }
  lemma BvShr6(v: bv8) ensures (v >> 6) as int == (v as int) / 64 { }

  lemma BvHighNibble(v: bv8)
    ensures ((v & 0xF0) >> 4) as int == (v as int) / 16
  {
  }

  lemma BvHigh(v: bv8)
    ensures ((v & 0x80) != 0) == ((v as int) >= 128)
    ensures ((v & 0x80) == 0x80) == ((v as int) >= 128)
  {
  }

  lemma BvBit1(v: bv8)
    ensures ((v & 0x02) == 0x02) == (((v as int) / 2) % 2 == 1)
  {
    assert ((v & 0x02) == 0x02) == ((v >> 1) & 1 == 1);
    BvShr1(v);
    BvBit0(v >> 1);
  }

  lemma BvBit2(v: bv8)
    ensures ((v & 0x04) == 0x04) == (((v as int) / 4) % 2 == 1)
  {
    assert ((v & 0x04) == 0x04) == ((v >> 2) & 1 == 1);
    BvShr2(v);
    BvBit0(v >> 2);
  }

  lemma BvBit5(v: bv8)
    ensures ((v & 0x20) == 0x20) == (((v as int) / 32) % 2 == 1)
  {
    assert ((v & 0x20) == 0x20) == ((v >> 5) & 1 == 1);
    BvShr5(v);
    BvBit0(v >> 5);
  }

  lemma BvBit6(v: bv8)
    ensures ((v & 0x40) == 0x40) == (((v as int) / 64) % 2 == 1)
  {
    assert ((v & 0x40) == 0x40) == ((v >> 6) & 1 == 1);
    BvShr6(v);
    BvBit0(v >> 6);
  }

  lemma BvBit3(v: bv8)
    ensures ((v & 0x08) >> 3) as int == ((v as int) / 8) % 2
  {
    assert (v & 0x08) >> 3 == (v >> 3) & 1;
    BvShr3(v);
    BvLow1(v >> 3);
  }

  lemma BvBits21(v: bv8)
    ensures ((v & 0x06) >> 1) as int == ((v as int) / 2) % 4
  {
    assert (v & 0x06) >> 1 == (v >> 1) & 3;
    BvShr1(v);
    BvLow2(v >> 1);
  }

  lemma BvBits43(v: bv8)
    ensures ((v & 0x18) >> 3) as int == ((v as int) / 8) % 4
  {
    assert (v & 0x18) >> 3 == (v >> 3) & 3;
    BvShr3(v);
    BvLow2(v >> 3);
  }

  lemma KindMask(b: Byte)
    ensures Shr(And(b, 0xF0), 4) == b / 16
  {
    var v := b as bv8;
    AsBv(b);
    var w := v & 0xF0;
    assert And(b, 0xF0) == w as int;
    assert Shr(And(b, 0xF0), 4) == (w >> 4) as int;
    BvHighNibble(v);
  }

  lemma ReservedMask(b: Byte)
    ensures And(b, 0x0F) == b % 16
  {
    var v := b as bv8;
    AsBv(b);
    assert And(b, 0x0F) == (v & 0x0F) as int;
    BvLowNibble(v);
  }

  lemma DupMask(b: Byte)
    ensures Shr(And(b, 0x08), 3) == (b / 8) % 2
  {
    var v := b as bv8;
    AsBv(b);
    var w := v & 0x08;
    assert And(b, 0x08) == w as int;
    assert Shr(And(b, 0x08), 3) == (w >> 3) as int;
    BvBit3(v);
  }

  lemma QosMask(b: Byte)
    ensures Shr(And(b, 0x06), 1) == (b / 2) % 4
  {
    var v := b as bv8;
    AsBv(b);
    var w := v & 0x06;
    assert And(b, 0x06) == w as int;
    assert Shr(And(b, 0x06), 1) == (w >> 1) as int;
    BvBits21(v);
  }

  lemma RetainMask(b: Byte)
    ensures And(b, 0x01) == b % 2
  {
    var v := b as bv8;
    AsBv(b);
    assert And(b, 0x01) == (v & 0x01) as int;
    BvLow1(v);
  }

  /** The masks of the fixed-header byte, as arithmetic on the byte's value. */
  lemma HeaderMasks(b: Byte)
    ensures Shr(And(b, 0xF0), 4) == b / 16
    ensures And(b, 0x0F) == b % 16
    ensures Shr(And(b, 0x08), 3) == (b / 8) % 2
    ensures Shr(And(b, 0x06), 1) == (b / 2) % 4
    ensures And(b, 0x01) == b % 2
  {
    KindMask(b);
    ReservedMask(b);
    DupMask(b);
    QosMask(b);
    RetainMask(b);
  }

  lemma ValueMask(b: Byte)
    ensures And(b, 127) == b % 128
  {
    var v := b as bv8;
    AsBv(b);
    assert And(b, 127) == (v & 0x7F) as int;
    BvLow7(v);
  }

  lemma ContinuationMask(b: Byte)
    ensures (And(b, 128) != 0) == (b >= 128)
  {
    var v := b as bv8;
    AsBv(b);
    var w := v & 0x80;
    assert And(b, 128) == w as int;
    BvEqValue(w, 0);
    BvHigh(v);
  }

  /** The two masks of a Remaining Length digit: value bits and continuation bit. */
  lemma DigitMasks(b: Byte)
    ensures And(b, 127) == b % 128
    ensures (And(b, 128) != 0) == (b >= 128)
  {
    ValueMask(b);
    ContinuationMask(b);
  }

  lemma Low2Mask(b: Byte)
    ensures And(b, 3) == b % 4
  {
    var v := b as bv8;
    AsBv(b);
    assert And(b, 3) == (v & 3) as int;
    BvLow2(v);
  }

  /** The low-bit masks that the connect-flag expressions reduce to as written. */
  lemma LowMasks(b: Byte)
    ensures And(b, 1) == b % 2
    ensures And(b, 3) == b % 4
  {
    RetainMask(b);
    Low2Mask(b);
  }

  lemma Flag7(b: Byte)
    ensures (And(b, 0x80) == 0x80) == ((b / 128) % 2 == 1)
  {
    var v := b as bv8;
    AsBv(b);
    var w := v & 0x80;
    assert And(b, 0x80) == w as int;
    BvEqValue(w, 0x80);
    BvHigh(v);
  }

  lemma Flag6(b: Byte)
    ensures (And(b, 0x40) == 0x40) == ((b / 64) % 2 == 1)
  {
    var v := b as bv8;
    AsBv(b);
    var w := v & 0x40;
    assert And(b, 0x40) == w as int;
    BvEqValue(w, 0x40);
    BvBit6(v);
  }

  lemma Flag5(b: Byte)
    ensures (And(b, 0x20) == 0x20) == ((b / 32) % 2 == 1)
  {
    var v := b as bv8;
    AsBv(b);
    var w := v & 0x20;
    assert And(b, 0x20) == w as int;
    BvEqValue(w, 0x20);
    BvBit5(v);
  }

  lemma Flags43(b: Byte)
    ensures Shr(And(b, 0x18), 3) == (b / 8) % 4
  {
    var v := b as bv8;
    AsBv(b);
    var w := v & 0x18;
    assert And(b, 0x18) == w as int;
    assert Shr(And(b, 0x18), 3) == (w >> 3) as int;
    BvBits43(v);
  }

  lemma Flag2(b: Byte)
    ensures (And(b, 0x04) == 0x04) == ((b / 4) % 2 == 1)
  {
    var v := b as bv8;
    AsBv(b);
    var w := v & 0x04;
    assert And(b, 0x04) == w as int;
    BvEqValue(w, 0x04);
    BvBit2(v);
  }

  lemma Flag1(b: Byte)
    ensures (And(b, 0x02) == 0x02) == ((b / 2) % 2 == 1)
  {
    var v := b as bv8;
    AsBv(b);
    var w := v & 0x02;
    assert And(b, 0x02) == w as int;
    BvEqValue(w, 0x02);
    BvBit1(v);
  }

  lemma Flag0(b: Byte)
    ensures (And(b, 0x01) == 0x01) == (b % 2 == 1)
  {
    var v := b as bv8;
    AsBv(b);
    var w := v & 0x01;
    assert And(b, 0x01) == w as int;
    BvEqValue(w, 0x01);
    BvBit0(v);
  }

  /**
   * The connect-flag masks used the way the MQTT layout means them: the bit
   * is set exactly when masking leaves the mask, and bits 4-3 are isolated
   * by masking before shifting.
   */
  lemma FlagMasks(b: Byte)
    ensures (And(b, 0x80) == 0x80) == ((b / 128) % 2 == 1)
    ensures (And(b, 0x40) == 0x40) == ((b / 64) % 2 == 1)
    ensures (And(b, 0x20) == 0x20) == ((b / 32) % 2 == 1)
    ensures Shr(And(b, 0x18), 3) == (b / 8) % 4
    ensures (And(b, 0x04) == 0x04) == ((b / 4) % 2 == 1)
    ensures (And(b, 0x02) == 0x02) == ((b / 2) % 2 == 1)
    ensures (And(b, 0x01) == 0x01) == (b % 2 == 1)
  {
    Flag7(b);
    Flag6(b);
    Flag5(b);
    Flags43(b);
    Flag2(b);
    Flag1(b);
    Flag0(b);
  }
}
