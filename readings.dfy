/** How the getters turn the payload of an accepted reply into a value: the
    big-endian words reinterpreted as `int16_t` / `int32_t`, the temperature
    formula, the serial number copied with `strncat`, and the software version
    printed with `snprintf("%0u.%0u")`. C `int` is taken to be 32 bits wide,
    as on the 32-bit boards the header selects hardware serial for. */
module Readings {
  import opened Bytes
  import opened Options
  import opened CrirM1Defs

  // ----------------------------------------------------------- register words

  /** `((hi << 8) & 0xFF00) | (lo & 0x00FF)` stored in an `int16_t`. */
  function Int16Reading(hi: byte, lo: byte): (v: int16)
    ensures FromInt16(v) == Unsigned16(hi, lo)
    ensures v >= 0 <==> Val(hi) < 0x80
  {
    Int16RoundTrip(0, Unsigned16(hi, lo));
    ToInt16(Unsigned16(hi, lo))
  }

  /** The four payload bytes of a two-word reply, big-endian, stored in an
      `int32_t`. */
  function Int32Reading(b3: byte, b4: byte, b5: byte, b6: byte): (v: int32)
    ensures FromInt32(v) == Unsigned32(b3, b4, b5, b6)
    ensures v >= 0 <==> Val(b3) < 0x80
  {
    Int32RoundTrip(0, Unsigned32(b3, b4, b5, b6));
    ToInt32(Unsigned32(b3, b4, b5, b6))
  }

  /** Two different payloads never give the same 16-bit reading. */
  lemma Int16ReadingInjective(h1: byte, l1: byte, h2: byte, l2: byte)
    requires Int16Reading(h1, l1) == Int16Reading(h2, l2)
    ensures h1 == h2 && l1 == l2
  {
    assert FromInt16(Int16Reading(h1, l1)) == Unsigned16(h1, l1);
    assert FromInt16(Int16Reading(h2, l2)) == Unsigned16(h2, l2);
    Unsigned16Injective(h1, l1, h2, l2);
  }

  /** Every `int16_t` the sensor can report is read back from the word the
      driver would send for it: reading is the inverse of `WordOf(FromInt16)`. */
  lemma Int16ReadingOfWord(v: int16)
    ensures Int16Reading(HighByte(WordOf(FromInt16(v))), LowByte(WordOf(FromInt16(v)))) == v
  {
    Int16RoundTrip(v, 0);
  }

  // -------------------------------------------------------------- temperature

  /** `(((hi * 256) + lo) / 100) - 100`: whole degrees Celsius, the register
      holding hundredths of a degree above -100 °C. */
  function Temperature(hi: byte, lo: byte): (t: int16)
  {
    Unsigned16(hi, lo) / 100 - 100
  }

  /** The temperature is the whole number of degrees the register's hundredths
      fall in, and lies between -100 and 555. */
  lemma TemperatureBounds(hi: byte, lo: byte)
    ensures -100 <= Temperature(hi, lo) <= 555
    ensures (Temperature(hi, lo) + 100) * 100 <= Unsigned16(hi, lo) < (Temperature(hi, lo) + 101) * 100
  {
    var u := Unsigned16(hi, lo);
    var q := u / 100;
    assert u == q * 100 + u % 100;
    assert q <= 655;
  }

  /** Raising the register never lowers the temperature. */
  lemma TemperatureMonotonic(h1: byte, l1: byte, h2: byte, l2: byte)
    requires Unsigned16(h1, l1) <= Unsigned16(h2, l2)
    ensures Temperature(h1, l1) <= Temperature(h2, l2)
  {
    TemperatureBounds(h1, l1);
    TemperatureBounds(h2, l2);
  }

  // ------------------------------------------------------------ serial number

  /** What `strncat(dst, src, max)` appends to an empty `dst`: the bytes of
      `src` up to the first NUL, at most `max` of them. */
  function CStringPrefix(src: seq<byte>, max: nat): (s: seq<byte>)
    ensures |s| <= max && |s| <= |src| && s == src[..|s|]
    ensures forall i :: 0 <= i < |s| ==> s[i] != 0
    ensures |s| == max || |s| == |src| || src[|s|] == 0
    decreases max
  {
    if max == 0 || src == [] || src[0] == 0 then []
    else [src[0]] + CStringPrefix(src[1..], max - 1)
  }

  /** Those three properties pin the copy down: any prefix of `src` without a
      NUL that stops at a NUL, at `max` bytes or at the end is the copy. */
  lemma {:induction false} CStringPrefixUnique(src: seq<byte>, max: nat, s: seq<byte>)
    requires |s| <= max && |s| <= |src| && s == src[..|s|]
    requires forall i :: 0 <= i < |s| ==> s[i] != 0
    requires |s| == max || |s| == |src| || src[|s|] == 0
    ensures s == CStringPrefix(src, max)
    decreases max
  {
    assert s != [] ==> s[0] == src[0];
    if max == 0 || src == [] || src[0] == 0 {
    } else {
      assert s != [];
      assert s[1..] == src[1..][..|s| - 1];
      forall i | 0 <= i < |s[1..]|
        ensures s[1..][i] != 0
      {
        assert s[1..][i] == s[i + 1];
      }
      CStringPrefixUnique(src[1..], max - 1, s[1..]);
      assert s == [s[0]] + s[1..];
    }
  }

  /** A byte as the `char` it is copied into. */
  function Char(b: byte): char
  {
    Val(b) as char
  }

  function Chars(bs: seq<byte>): (s: string)
    ensures |s| == |bs|
    ensures forall i :: 0 <= i < |bs| ==> s[i] == Char(bs[i])
  {
    seq(|bs|, i requires 0 <= i < |bs| => Char(bs[i]))
  }

  /** `strncat(sn, &buf_msg[3], CRIR_M1_LEN_SN)` on an empty `sn`: the ten
      payload bytes of the serial-number reply, up to the first NUL. */
  function SerialNumber(payload: seq<byte>): (sn: string)
    ensures |sn| <= LEN_SN
  {
    Chars(CStringPrefix(payload, LEN_SN))
  }

  /** The serial number is the payload's own characters, with no NUL inside,
      and ends where the payload has a NUL or after ten characters. */
  lemma SerialNumberSpec(payload: seq<byte>)
    requires |payload| == LEN_SN
    ensures var sn := SerialNumber(payload);
      (forall i :: 0 <= i < |sn| ==> sn[i] == Char(payload[i]) && sn[i] != 0 as char)
      && (|sn| == LEN_SN || payload[|sn|] == 0)
  {
    var s := CStringPrefix(payload, LEN_SN);
    forall i | 0 <= i < |s|
      ensures Char(s[i]) != 0 as char
    {
      assert Val(s[i]) != 0 by {
        if Val(s[i]) == 0 {
          ValInjective(s[i], 0);
        }
      }
    }
  }

  // --------------------------------------------------------- software version

  function Digit(d: nat): (c: char)
    requires d < 10
    ensures '0' <= c <= '9'
  {
    (48 + d) as char
  }

  function DigitValue(c: char): (d: nat)
    requires '0' <= c <= '9'
    ensures d < 10
  {
    c as int - 48
  }

  predicate AllDigits(s: string)
  {
    forall i :: 0 <= i < |s| ==> '0' <= s[i] <= '9'
  }

  /** `%u`: the unsigned decimal numeral of `n`, without leading zeros. */
  function Decimal(n: nat): (s: string)
    ensures 1 <= |s| && AllDigits(s)
    ensures n < 10 ==> |s| == 1
    ensures n < 100 ==> |s| <= 2
    ensures n < 1000 ==> |s| <= 3
    decreases n
  {
    if n < 10 then [Digit(n)] else Decimal(n / 10) + [Digit(n % 10)]
  }

  /** The value of a numeral. */
  function DecimalValue(s: string): nat
    requires AllDigits(s)
    decreases |s|
  {
    if s == [] then 0 else DecimalValue(s[..|s| - 1]) * 10 + DigitValue(s[|s| - 1])
  }

  /** The numeral `%u` prints reads back as the number printed. */
  lemma {:induction false} DecimalRoundTrip(n: nat)
    ensures DecimalValue(Decimal(n)) == n
    decreases n
  {
    if n >= 10 {
      var s := Decimal(n);
      assert s[..|s| - 1] == Decimal(n / 10);
      DecimalRoundTrip(n / 10);
    }
  }

  /** `snprintf(dst, size, ...)` stores at most `size - 1` characters. */
  function Snprintf(size: nat, s: string): (r: string)
    requires size >= 1
    ensures |r| < size && |r| <= |s| && r == s[..|r|]
    ensures |s| < size ==> r == s
  {
    if |s| < size then s else s[..size - 1]
  }

  /** `snprintf(softver, CRIR_M1_LEN_SOFTVER, "%0u.%0u", major, minor)` */
  function SoftwareVersion(major: byte, minor: byte): (v: string)
  {
    Snprintf(LEN_SOFTVER, Decimal(Val(major)) + "." + Decimal(Val(minor)))
  }

  /** The version string is never truncated: it is at most "255.255", seven
      characters, and always "<major>.<minor>" in full. */
  lemma SoftwareVersionFits(major: byte, minor: byte)
    ensures SoftwareVersion(major, minor) == Decimal(Val(major)) + "." + Decimal(Val(minor))
    ensures 3 <= |SoftwareVersion(major, minor)| <= 7
  {
  }

  /** Index of the first '.' in `s`, or `|s|` when there is none. */
  function DotIndex(s: string): (i: nat)
    ensures i <= |s| && (i < |s| ==> s[i] == '.')
    ensures forall j :: 0 <= j < i ==> s[j] != '.'
    decreases |s|
  {
    if s == [] || s[0] == '.' then 0 else 1 + DotIndex(s[1..])
  }

  /** Reading a version string back: two numerals around the first '.'. */
  function ParseVersion(s: string): Option<(nat, nat)>
  {
    var i := DotIndex(s);
    if i < |s| && 1 <= i && AllDigits(s[..i]) && AllDigits(s[i + 1..]) && i + 1 < |s|
    then Some((DecimalValue(s[..i]), DecimalValue(s[i + 1..])))
    else None
  }

  /** The version string names both bytes: it parses back to them, so no two
      different versions print alike. */
  lemma SoftwareVersionRoundTrip(major: byte, minor: byte)
    ensures ParseVersion(SoftwareVersion(major, minor)) == Some((Val(major), Val(minor)))
  {
    var a, b := Decimal(Val(major)), Decimal(Val(minor));
    var s := SoftwareVersion(major, minor);
    SoftwareVersionFits(major, minor);
    assert s == a + "." + b;
    assert s[|a|] == '.';
    assert forall j :: 0 <= j < |a| ==> s[j] == a[j];
    assert DotIndex(s) == |a|;
    assert s[..|a|] == a;
    assert s[|a| + 1..] == b;
    DecimalRoundTrip(Val(major));
    DecimalRoundTrip(Val(minor));
  }
}
