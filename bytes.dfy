/** Fixed-width integers of the C++ driver and the conversions between them.
    Wire bytes are `bv8` and 16-bit wire words (`uint16_t` register numbers
    and values) are `bv16`; counts and decoded readings are mathematical
    integers restricted to the C type's range. Every implicit C conversion
    the driver relies on (int to `int16_t`, `int16_t` to `uint16_t`, unsigned
    to `int32_t`) is written out as a function. */
module Bytes {

  type byte = bv8
  type word = bv16

  /** `uint8_t` used as a count or an index. */
  type uint8 = x: int | 0 <= x < 0x100
  type uint16 = x: int | 0 <= x < 0x1_0000
  type int16 = x: int | -0x8000 <= x < 0x8000
  type uint32 = x: int | 0 <= x < 0x1_0000_0000
  type int32 = x: int | -0x8000_0000 <= x < 0x8000_0000

  /** The unsigned value of a byte. */
  function Val(b: byte): (n: nat)
    ensures n < 0x100
  {
    b as int
  }

  /** Shifting one more bit in at the low end doubles the value and adds
      the bit. */
  lemma ShiftIn(x: byte, bit: bool)
    requires Val(x) < 0x80
    ensures Val((x << 1) | (if bit then 1 else 0)) == 2 * Val(x) + (if bit then 1 else 0)
  {
  }

  /** The byte whose unsigned value is `n`, built bit by bit from the top. */
  function ByteOf(n: nat): (b: byte)
    requires n < 0x100
    ensures Val(b) == n
    decreases n
  {
    if n == 0 then 0
    else
      var x := ByteOf(n / 2);
      ShiftIn(x, n % 2 == 1);
      (x << 1) | (if n % 2 == 1 then 1 else 0)
  }

  lemma ValInjective(a: byte, b: byte)
    requires Val(a) == Val(b)
    ensures a == b
  {
  }

  /** `(w >> 8) & 0x00FF` */
  function HighByte(w: word): byte
  {
    (w >> 8) as bv8
  }

  /** `w & 0x00FF` */
  function LowByte(w: word): byte
  {
    (w & 0xFF) as bv8
  }

  /** The word whose high and low bytes are `hi` and `lo`. */
  function Word16(hi: byte, lo: byte): (w: word)
    ensures HighByte(w) == hi && LowByte(w) == lo
  {
    ((hi as bv16) << 8) | (lo as bv16)
  }

  lemma Word16OfBytes(w: word)
    ensures Word16(HighByte(w), LowByte(w)) == w
  {
  }

  /** `((hi << 8) & 0xFF00) | (lo & 0x00FF)` evaluated as a C `int`. */
  function Unsigned16(hi: byte, lo: byte): (n: uint16)
  {
    Val(hi) * 0x100 + Val(lo)
  }

  lemma DigitPairInjective(h1: nat, l1: nat, h2: nat, l2: nat)
    requires l1 < 0x100 && l2 < 0x100 && h1 * 0x100 + l1 == h2 * 0x100 + l2
    ensures h1 == h2 && l1 == l2
  {
    DivModByte(h1, l1);
    DivModByte(h2, l2);
  }

  /** Two byte pairs with the same value are the same pair. */
  lemma Unsigned16Injective(h1: byte, l1: byte, h2: byte, l2: byte)
    requires Unsigned16(h1, l1) == Unsigned16(h2, l2)
    ensures h1 == h2 && l1 == l2
  {
    DigitPairInjective(Val(h1), Val(l1), Val(h2), Val(l2));
    ValInjective(h1, h2);
    ValInjective(l1, l2);
  }

  /** The unsigned value of a wire word. */
  function WordValue(w: word): (n: uint16)
  {
    Unsigned16(HighByte(w), LowByte(w))
  }

  lemma DivModByte(h: nat, l: nat)
    requires l < 0x100
    ensures (h * 0x100 + l) / 0x100 == h && (h * 0x100 + l) % 0x100 == l
  {
  }

  lemma DivModWord(u: uint32)
    ensures u / 0x1_0000 * 0x1_0000 + u % 0x1_0000 == u
    ensures u / 0x1_0000 < 0x1_0000
  {
  }

  /** The wire word whose unsigned value is `n`: a C `uint16_t` on the wire. */
  function WordOf(n: uint16): (w: word)
    ensures WordValue(w) == n
  {
    DivModByte(n / 0x100, n % 0x100);
    Word16(ByteOf(n / 0x100), ByteOf(n % 0x100))
  }

  /** `((b3 << 24) & 0xFF000000) | ((b4 << 16) & 0x00FF0000) | ((b5 << 8) & 0x0000FF00) | (b6 & 0x000000FF)` */
  function Unsigned32(b3: byte, b4: byte, b5: byte, b6: byte): (u: uint32)
  {
    Unsigned16(b3, b4) * 0x1_0000 + Unsigned16(b5, b6)
  }

  /** Storing an unsigned 16-bit value in an `int16_t`: the one value of the
      signed range that is congruent to it modulo 2^16. */
  function ToInt16(n: uint16): (v: int16)
    ensures (n - v) % 0x1_0000 == 0
    ensures n < 0x8000 <==> v >= 0
  {
    if n < 0x8000 then n else n - 0x1_0000
  }

  /** Passing an `int16_t` where a `uint16_t` is expected. */
  function FromInt16(v: int16): (n: uint16)
    ensures (n - v) % 0x1_0000 == 0
  {
    if v < 0 then v + 0x1_0000 else v
  }

  /** Storing an unsigned 32-bit value in an `int32_t`. */
  function ToInt32(u: uint32): (v: int32)
    ensures (u - v) % 0x1_0000_0000 == 0
    ensures u < 0x8000_0000 <==> v >= 0
  {
    if u < 0x8000_0000 then u else u - 0x1_0000_0000
  }

  function FromInt32(v: int32): (u: uint32)
    ensures (u - v) % 0x1_0000_0000 == 0
  {
    if v < 0 then v + 0x1_0000_0000 else v
  }

  /** The signed and unsigned readings of 16 and 32 bits are inverse
      bijections between the two ranges. */
  lemma Int16RoundTrip(v: int16, n: uint16)
    ensures ToInt16(FromInt16(v)) == v
    ensures FromInt16(ToInt16(n)) == n
  {
  }

  lemma Int32RoundTrip(v: int32, u: uint32)
    ensures ToInt32(FromInt32(v)) == v
    ensures FromInt32(ToInt32(u)) == u
  {
  }
}
