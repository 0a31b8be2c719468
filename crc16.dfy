/** The Modbus CRC16 that `modbus_CRC16` computes. The header that defines it
    (`modbus_crc.h`) is not part of this model; the definition below follows
    section 6.2.2 of the MODBUS over Serial Line Specification and
    Implementation Guide V1.02: the register starts at 0xFFFF, each byte is
    XORed into its low half, and each of the byte's eight bits shifts the
    register right once, XORing in the reflected polynomial 0xA001 when the
    bit shifted out was 1. The low byte is transmitted first. */
module ModbusCrc {
  import opened Bytes

  const CRC_INIT: word := 0xFFFF
  const CRC_POLY: word := 0xA001

  /** One bit step of the register. */
  function CrcShift(crc: word): word
  {
    if crc & 1 == 1 then (crc >> 1) ^ CRC_POLY else crc >> 1
  }

  function CrcShifts(crc: word, n: nat): word
    decreases n
  {
    if n == 0 then crc else CrcShifts(CrcShift(crc), n - 1)
  }

  /** The register after one more byte. */
  function CrcByte(crc: word, b: byte): word
  {
    CrcShifts(crc ^ (b as bv16), 8)
  }

  /** The register after `data`, starting from `crc`. */
  function CrcFrom(crc: word, data: seq<byte>): word
    decreases |data|
  {
    if data == [] then crc else CrcFrom(CrcByte(crc, data[0]), data[1..])
  }

  /** `modbus_CRC16(data, |data|)` */
  function Crc16(data: seq<byte>): word
  {
    CrcFrom(CRC_INIT, data)
  }

  /** The two CRC bytes in transmission order: low byte, then high byte. */
  function CrcTrailer(data: seq<byte>): (t: seq<byte>)
    ensures |t| == 2 && Word16(t[1], t[0]) == Crc16(data)
  {
    Word16OfBytes(Crc16(data));
    [LowByte(Crc16(data)), HighByte(Crc16(data))]
  }

  /** Running the register over `a + b` is running it over `a`, then over `b`. */
  lemma {:induction false} CrcFromAppend(crc: word, a: seq<byte>, b: seq<byte>)
    ensures CrcFrom(crc, a + b) == CrcFrom(CrcFrom(crc, a), b)
    decreases |a|
  {
    if a == [] {
      assert a + b == b;
    } else {
      assert (a + b)[1..] == a[1..] + b;
      CrcFromAppend(CrcByte(crc, a[0]), a[1..], b);
    }
  }

  lemma CrcShiftInjective(x: word, y: word)
    requires CrcShift(x) == CrcShift(y)
    ensures x == y
  {
  }

  lemma {:induction false} CrcShiftsInjective(x: word, y: word, n: nat)
    requires CrcShifts(x, n) == CrcShifts(y, n)
    ensures x == y
    decreases n
  {
    if n > 0 {
      CrcShiftsInjective(CrcShift(x), CrcShift(y), n - 1);
      CrcShiftInjective(x, y);
    }
  }

  /** One byte step forgets nothing: for a fixed register it tells the bytes
      apart, and for a fixed byte it tells the registers apart. */
  lemma CrcByteInjective(c1: word, b1: byte, c2: word, b2: byte)
    requires CrcByte(c1, b1) == CrcByte(c2, b2)
    ensures c1 == c2 ==> b1 == b2
    ensures b1 == b2 ==> c1 == c2
  {
    CrcShiftsInjective(c1 ^ (b1 as bv16), c2 ^ (b2 as bv16), 8);
    XorByteCancel(c1, b1, c2, b2);
  }

  lemma XorByteCancel(c1: word, b1: byte, c2: word, b2: byte)
    requires c1 ^ (b1 as bv16) == c2 ^ (b2 as bv16)
    ensures c1 == c2 ==> b1 == b2
    ensures b1 == b2 ==> c1 == c2
  {
  }

  lemma {:induction false} CrcFromInjective(c1: word, c2: word, data: seq<byte>)
    requires CrcFrom(c1, data) == CrcFrom(c2, data)
    ensures c1 == c2
    decreases |data|
  {
    if data != [] {
      CrcFromInjective(CrcByte(c1, data[0]), CrcByte(c2, data[0]), data[1..]);
      CrcByteInjective(c1, data[0], c2, data[0]);
    }
  }

  /** Any change confined to one byte changes the CRC; in particular every
      single flipped bit is detected. */
  lemma CrcDetectsSingleByteChange(a: seq<byte>, b: seq<byte>, i: nat)
    requires |a| == |b| && i < |a| && a[i] != b[i]
    requires forall j :: 0 <= j < |a| && j != i ==> a[j] == b[j]
    ensures Crc16(a) != Crc16(b)
  {
    var prefix, suffix := a[..i], a[i + 1..];
    assert a == prefix + [a[i]] + suffix;
    assert b == prefix + [b[i]] + suffix;
    var c := CrcFrom(CRC_INIT, prefix);
    CrcFromAppend(CRC_INIT, prefix + [a[i]], suffix);
    CrcFromAppend(CRC_INIT, prefix, [a[i]]);
    CrcFromAppend(CRC_INIT, prefix + [b[i]], suffix);
    CrcFromAppend(CRC_INIT, prefix, [b[i]]);
    if Crc16(a) == Crc16(b) {
      CrcFromInjective(CrcByte(c, a[i]), CrcByte(c, b[i]), suffix);
      CrcByteInjective(c, a[i], c, b[i]);
    }
  }

  /** A byte step with the register's own low byte leaves the high byte. */
  lemma CrcByteOwnLow(c: word)
    ensures CrcByte(c, LowByte(c)) == c >> 8
  {
  }

  lemma CrcByteOwnHigh(c: word)
    ensures CrcByte(c >> 8, HighByte(c)) == 0
  {
  }

  /** The CRC over a frame that ends in its own trailer is zero. */
  lemma CrcResidue(data: seq<byte>)
    ensures Crc16(data + CrcTrailer(data)) == 0
  {
    var c := Crc16(data);
    var t := CrcTrailer(data);
    assert t == [LowByte(c), HighByte(c)];
    CrcFromAppend(CRC_INIT, data, t);
    CrcByteOwnLow(c);
    CrcByteOwnHigh(c);
    calc {
      CrcFrom(c, t);
      CrcFrom(CrcByte(c, LowByte(c)), t[1..]);
      { assert t[1..] == [HighByte(c)]; }
      CrcFrom(c >> 8, [HighByte(c)]);
      CrcFrom(CrcByte(c >> 8, HighByte(c)), []);
    }
  }

  /** Two trailing bytes bring the register from `c` to zero only if they are
      `c`'s own low and high bytes. */
  lemma CrcZeroOnlyOwnTrailer(c: word, x: byte, y: byte)
    requires CrcByte(CrcByte(c, x), y) == 0
    ensures x == LowByte(c) && y == HighByte(c)
  {
  }

  /** Checking a received trailer against the CRC of what precedes it is the
      same as checking that the CRC over the whole frame is zero. */
  lemma CrcCheckIff(data: seq<byte>, x: byte, y: byte)
    ensures Crc16(data + [x, y]) == 0 <==> [x, y] == CrcTrailer(data)
  {
    var c := Crc16(data);
    CrcFromAppend(CRC_INIT, data, [x, y]);
    calc {
      CrcFrom(c, [x, y]);
      { assert [x, y][1..] == [y]; }
      CrcFrom(CrcByte(c, x), [y]);
      CrcFrom(CrcByte(CrcByte(c, x), y), []);
    }
    if Crc16(data + [x, y]) == 0 {
      CrcZeroOnlyOwnTrailer(c, x, y);
    } else if [x, y] == CrcTrailer(data) {
      CrcResidue(data);
    }
  }

  /** The reference check value: `FE 04 00 04 00 01` has CRC 0x0464, sent as `64 04`. */
  lemma CrcCheckVector()
    ensures Crc16([0xFE, 0x04, 0x00, 0x04, 0x00, 0x01]) == 0x0464
    ensures CrcTrailer([0xFE, 0x04, 0x00, 0x04, 0x00, 0x01]) == [0x64, 0x04]
  {
    var d: seq<byte> := [0xFE, 0x04, 0x00, 0x04, 0x00, 0x01];
    assert CrcByte(0xFFFF, 0xFE) == 0xC03E;
    assert CrcByte(0xC03E, 0x04) == 0x1340;
    assert CrcByte(0x1340, 0x00) == 0xF012;
    assert CrcByte(0xF012, 0x04) == 0xCE71;
    assert CrcByte(0xCE71, 0x00) == 0x240E;
    assert CrcByte(0x240E, 0x01) == 0x0464;
    assert d[1..][1..][1..][1..][1..][1..] == [];
  }
}
