/** The `CRIR_M1` driver object: one 20-byte message buffer that every
    operation rewrites in place. Each public operation sends one request
    frame built in the buffer, clears the buffer, reads the sensor's answer
    into it and decodes or compares what it holds.

    The serial link is a parameter: `rx` is the sequence of bytes the one
    `readBytes` call of an exchange delivers (`[]` when nothing arrives
    before the timeout), and the frames written to the link are recorded in
    the ghost log `written`. */
module CrirM1Driver {
  import opened Bytes
  import opened ModbusCrc
  import opened CrirM1Defs
  import opened Frames
  import opened Readings

  /** The range `set_ABC_period` accepts: 0 (ABC off) or 4 to 4800 hours. */
  predicate AbcPeriodAllowed(period: int16)
  {
    period == 0 || (4 <= period <= 4800)
  }

  /** The range `set_user_concentration` accepts: 400 to 2000 ppm. */
  predicate ConcentrationAllowed(concentration: int16)
  {
    400 <= concentration <= 2000
  }

  /** The frame a setter sends: preset `reg` to the `int16_t` argument, passed
      to `send_cmd` as a `uint16_t`. */
  function PresetFrame(reg: word, v: int16): (f: seq<byte>)
    ensures |f| == LEN_REQUEST && f[1] == FUNC_PRESET_SINGLE_REGISTER
    ensures Word16(f[2], f[3]) == reg && Int16Reading(f[4], f[5]) == v
  {
    Int16ReadingOfWord(v);
    RequestFrame(FUNC_PRESET_SINGLE_REGISTER, reg, WordOf(FromInt16(v)))
  }

  /** What a sensor whose register holds `v` answers to a one-word read
      with function `f`. */
  function OneWordReply(f: byte, v: int16): seq<byte>
  {
    var w := WordOf(FromInt16(v));
    ResponseFrame(f, [HighByte(w), LowByte(w)])
  }

  /** A one-word getter returns the register's value: the sensor's answer is
      accepted and its payload decodes to `v`. */
  lemma OneWordRoundTrip(func: byte, f: byte, v: int16)
    requires f == FUNC_READ_HOLDING_REGISTERS || f == FUNC_READ_INPUT_REGISTERS
    ensures var rx := OneWordReply(f, v);
      ReplyAccepted(func, rx, LEN_REPLY_ONE_WORD) && Int16Reading(rx[3], rx[4]) == v
  {
    var w := WordOf(FromInt16(v));
    ResponseFrameAccepted(func, f, [HighByte(w), LowByte(w)]);
    Int16ReadingOfWord(v);
  }

  /** The register value for `t` whole degrees: `(t + 100) * 100`
      hundredths. */
  function TemperatureReply(t: int): seq<byte>
    requires -100 <= t <= 555
  {
    var w := WordOf((t + 100) * 100);
    ResponseFrame(FUNC_READ_INPUT_REGISTERS, [HighByte(w), LowByte(w)])
  }

  /** `get_temperature` reads back every whole temperature in its range. */
  lemma TemperatureRoundTrip(func: byte, t: int)
    requires -100 <= t <= 555
    ensures var rx := TemperatureReply(t);
      ReplyAccepted(func, rx, LEN_REPLY_ONE_WORD) && Temperature(rx[3], rx[4]) == t
  {
    var w := WordOf((t + 100) * 100);
    ResponseFrameAccepted(func, FUNC_READ_INPUT_REGISTERS, [HighByte(w), LowByte(w)]);
    assert Unsigned16(HighByte(w), LowByte(w)) == (t + 100) * 100;
  }

  /** What a sensor whose two registers hold the 32-bit `v` answers to a
      two-word read. */
  function TwoWordReply(f: byte, v: int32): seq<byte>
  {
    var u := FromInt32(v);
    var hi, lo := WordOf(u / 0x1_0000), WordOf(u % 0x1_0000);
    ResponseFrame(f, [HighByte(hi), LowByte(hi), HighByte(lo), LowByte(lo)])
  }

  /** A two-word getter returns the 32-bit value the registers hold. */
  lemma TwoWordRoundTrip(func: byte, f: byte, v: int32)
    requires f == FUNC_READ_HOLDING_REGISTERS || f == FUNC_READ_INPUT_REGISTERS
    ensures var rx := TwoWordReply(f, v);
      ReplyAccepted(func, rx, LEN_REPLY_TWO_WORDS) && Int32Reading(rx[3], rx[4], rx[5], rx[6]) == v
  {
    var u := FromInt32(v);
    DivModWord(u);
    var hi, lo := WordOf(u / 0x1_0000), WordOf(u % 0x1_0000);
    var payload := [HighByte(hi), LowByte(hi), HighByte(lo), LowByte(lo)];
    ResponseFrameAccepted(func, f, payload);
    assert Unsigned32(payload[0], payload[1], payload[2], payload[3]) == u;
    Int32RoundTrip(v, 0);
  }

  /** What a sensor with serial number `s` (at most ten non-NUL bytes)
      answers: the bytes, padded with NULs to ten. */
  function SerialNumberReply(s: seq<byte>): seq<byte>
    requires |s| <= LEN_SN
  {
    ResponseFrame(FUNC_READ_INPUT_REGISTERS, s + seq(LEN_SN - |s|, _ => 0))
  }

  /** `get_serial_number` returns the sensor's serial number in full. */
  lemma SerialNumberRoundTrip(func: byte, s: seq<byte>)
    requires |s| <= LEN_SN && forall i :: 0 <= i < |s| ==> s[i] != 0
    ensures var rx := SerialNumberReply(s);
      ReplyAccepted(func, rx, LEN_REPLY_SERIAL_NUMBER) && SerialNumber(rx[3..13]) == Chars(s)
  {
    var payload := s + seq(LEN_SN - |s|, _ => 0);
    ResponseFrameAccepted(func, FUNC_READ_INPUT_REGISTERS, payload);
    assert payload[..|s|] == s;
    CStringPrefixUnique(payload, LEN_SN, s);
  }

  /** Whatever the sensor answers, the strings the getters return fit the
      character arrays of `CRIR_M1_sensor` with their terminating NUL, and
      the version string fits the ten bytes handed to `snprintf`. */
  lemma SensorRecordFits(payload: seq<byte>, major: byte, minor: byte, co2: int16, temperature: int16)
    ensures FitsSensorRecord(Sensor(SerialNumber(payload), SoftwareVersion(major, minor), co2, temperature))
    ensures |SoftwareVersion(major, minor)| + 1 <= LEN_SOFTVER
  {
    SoftwareVersionFits(major, minor);
  }

  class CrirM1 {
    /** `buf_msg` */
    var buf: array<byte>
    /** The frames `serial_write_bytes` has written to the link, oldest first. */
    ghost var written: seq<seq<byte>>

    ghost predicate Valid()
      reads this`buf
    {
      buf.Length == LEN_BUF_MSG
    }

    /** `CRIR_M1(Stream &serial)`: the buffer's contents are left as they are. */
    constructor()
      ensures Valid() && fresh(buf) && written == []
    {
      buf := new byte[LEN_BUF_MSG];
      written := [];
    }

    // --------------------------------------------------------------- link

    /** `serial_write_bytes(size)`: the first `size` bytes of the buffer go
        out on the link. */
    method SerialWriteBytes(size: uint8)
      requires Valid() && size <= LEN_BUF_MSG
      modifies this`written
      ensures written == old(written) + [buf[..size]]
    {
      written := written + [buf[..size]];
    }

    /** `serial_read_bytes(maxBytes, timeoutSeconds)`: nothing is read when
        either argument is not positive; otherwise the bytes delivered, at most
        `maxBytes` of them, land at the start of the buffer and the rest of
        the buffer keeps its contents. */
    method SerialReadBytes(maxBytes: uint8, timeoutSeconds: int, rx: seq<byte>) returns (nb: uint8)
      requires Valid() && maxBytes <= LEN_BUF_MSG
      modifies buf
      ensures nb == ReadCount(rx, maxBytes, timeoutSeconds)
      ensures buf[..nb] == rx[..nb] && buf[nb..] == old(buf[nb..])
    {
      nb := 0;
      if maxBytes > 0 && timeoutSeconds > 0 {
        var n := Min(|rx|, maxBytes);
        var i := 0;
        while i < n
          invariant 0 <= i <= n
          invariant forall j :: 0 <= j < i ==> buf[j] == rx[j]
          invariant forall j :: i <= j < buf.Length ==> buf[j] == old(buf[j])
        {
          buf[i] := rx[i];
          i := i + 1;
        }
        nb := n;
      }
      assert buf[..nb] == rx[..nb];
    }

    /** `memset(buf_msg, 0, CRIR_M1_LEN_BUF_MSG)` */
    method ClearBuffer()
      requires Valid()
      modifies buf
      ensures buf[..] == seq(LEN_BUF_MSG, _ => 0)
    {
      var i := 0;
      while i < buf.Length
        invariant 0 <= i <= buf.Length
        invariant forall j :: 0 <= j < i ==> buf[j] == 0
      {
        buf[i] := 0;
        i := i + 1;
      }
    }

    // ------------------------------------------------------------ frames

    /** `send_cmd(func, cmd, value)`: for a read of at least one word or a
        preset, bytes 0 to 7 of the buffer become the request frame and are
        written to the link; any other call changes nothing. Bytes 8 to 19
        are never touched. */
    method SendCmd(func: byte, cmd: word, value: word)
      requires Valid()
      modifies buf, this`written
      ensures SendAccepted(func, value) ==>
        buf[..LEN_REQUEST] == RequestFrame(func, cmd, value)
        && written == old(written) + [RequestFrame(func, cmd, value)]
      ensures !SendAccepted(func, value) ==> buf[..LEN_REQUEST] == old(buf[..LEN_REQUEST]) && written == old(written)
      ensures buf[LEN_REQUEST..] == old(buf[LEN_REQUEST..])
    {
      if SendAccepted(func, value) {
        buf[0] := ANY_ADDRESS;
        buf[1] := func;
        buf[2] := HighByte(cmd);
        buf[3] := LowByte(cmd);
        buf[4] := HighByte(value);
        buf[5] := LowByte(value);
        assert buf[..6] == RequestBody(func, cmd, value);
        var crc := Crc16(buf[..6]);
        buf[6] := LowByte(crc);
        buf[7] := HighByte(crc);
        assert buf[..LEN_REQUEST] == RequestFrame(func, cmd, value);
        SerialWriteBytes(LEN_REQUEST);
      }
    }

    /** `valid_response_len(func, nb, len)` on the buffer. */
    predicate BufferValidResponseLen(func: byte, nb: uint8, len: uint8)
      requires Valid() && nb <= LEN_BUF_MSG
      reads this`buf, buf
    {
      ValidResponseLen(func, buf[..], nb, len)
    }

    /** The exchange every getter performs: request `count` words from `reg`,
        clear the buffer, read at most `len` bytes and check them. */
    method ReadRegisters(func: byte, reg: word, count: word, len: uint8, rx: seq<byte>) returns (ok: bool)
      requires Valid() && len <= LEN_BUF_MSG && SendAccepted(func, count)
      modifies buf, this`written
      ensures ok <==> ReplyAccepted(func, rx, len)
      ensures buf[..] == Capture(rx, len)
      ensures written == old(written) + [RequestFrame(func, reg, count)]
    {
      SendCmd(func, reg, count);
      ClearBuffer();
      var nb := SerialReadBytes(len, TIMEOUT, rx);
      assert buf[..] == Capture(rx, len);
      ok := BufferValidResponseLen(func, nb, len);
      CapturedReplyIff(func, rx, len);
    }

    /** The exchange every setter performs: send the preset, keep a copy of
        the eight bytes sent, clear the buffer, read at most eight bytes
        (ignoring how many arrived) and compare the eight buffer bytes with
        the copy. */
    method WriteRegister(reg: word, value: word, rx: seq<byte>) returns (ok: bool)
      requires Valid()
      modifies buf, this`written
      ensures ok <==> EchoAccepted(RequestFrame(FUNC_PRESET_SINGLE_REGISTER, reg, value), rx)
      ensures buf[..] == Capture(rx, LEN_ECHO)
      ensures written == old(written) + [RequestFrame(FUNC_PRESET_SINGLE_REGISTER, reg, value)]
    {
      SendCmd(FUNC_PRESET_SINGLE_REGISTER, reg, value);
      var sent := buf[..LEN_ECHO];
      ClearBuffer();
      var _ := SerialReadBytes(LEN_ECHO, TIMEOUT, rx);
      assert buf[..] == Capture(rx, LEN_ECHO);
      ok := EchoMatches(sent, buf[..]);
      EchoIff(sent, rx);
    }

    // ----------------------------------------------------------- getters

    /** `get_serial_number(sn)`: up to ten characters of the 15-byte reply
        to a read of five words from IR16, or "" when it is rejected. */
    method GetSerialNumber(rx: seq<byte>) returns (sn: string)
      requires Valid()
      modifies buf, this`written
      ensures sn == if ReplyAccepted(FUNC_READ_INPUT_REGISTERS, rx, 15) then SerialNumber(rx[3..13]) else ""
      ensures buf[..] == Capture(rx, 15)
      ensures written == old(written) + [RequestFrame(FUNC_READ_INPUT_REGISTERS, IR16, 0x0005)]
    {
      sn := "";
      var ok := ReadRegisters(FUNC_READ_INPUT_REGISTERS, IR16, 0x0005, LEN_REPLY_SERIAL_NUMBER, rx);
      if ok {
        assert buf[3..13] == rx[3..13];
        sn := SerialNumber(buf[3..13]);
      }
    }

    /** `get_software_version(softver)`: "major.minor" from IR13, or "". */
    method GetSoftwareVersion(rx: seq<byte>) returns (softver: string)
      requires Valid()
      modifies buf, this`written
      ensures softver == if ReplyAccepted(FUNC_READ_INPUT_REGISTERS, rx, 7) then SoftwareVersion(rx[3], rx[4]) else ""
      ensures buf[..] == Capture(rx, 7)
      ensures written == old(written) + [RequestFrame(FUNC_READ_INPUT_REGISTERS, IR13, 0x0001)]
    {
      softver := "";
      var ok := ReadRegisters(FUNC_READ_INPUT_REGISTERS, IR13, 0x0001, LEN_REPLY_ONE_WORD, rx);
      if ok {
        softver := SoftwareVersion(buf[3], buf[4]);
      }
    }

    /** `get_co2()`: IR8 in ppm, or 0. */
    method GetCo2(rx: seq<byte>) returns (co2: int16)
      requires Valid()
      modifies buf, this`written
      ensures co2 == if ReplyAccepted(FUNC_READ_INPUT_REGISTERS, rx, 7) then Int16Reading(rx[3], rx[4]) else 0
      ensures buf[..] == Capture(rx, 7)
      ensures written == old(written) + [RequestFrame(FUNC_READ_INPUT_REGISTERS, IR8, 0x0001)]
    {
      co2 := 0;
      var ok := ReadRegisters(FUNC_READ_INPUT_REGISTERS, IR8, 0x0001, LEN_REPLY_ONE_WORD, rx);
      if ok {
        co2 := Int16Reading(buf[3], buf[4]);
      }
    }

    /** `get_temperature()`: IR5 in whole degrees Celsius, or 0. */
    method GetTemperature(rx: seq<byte>) returns (temp: int16)
      requires Valid()
      modifies buf, this`written
      ensures temp == if ReplyAccepted(FUNC_READ_INPUT_REGISTERS, rx, 7) then Temperature(rx[3], rx[4]) else 0
      ensures buf[..] == Capture(rx, 7)
      ensures written == old(written) + [RequestFrame(FUNC_READ_INPUT_REGISTERS, IR5, 0x0001)]
    {
      temp := 0;
      var ok := ReadRegisters(FUNC_READ_INPUT_REGISTERS, IR5, 0x0001, LEN_REPLY_ONE_WORD, rx);
      if ok {
        temp := Temperature(buf[3], buf[4]);
      }
    }

    /** `get_ABC_period()`: HR5 in hours, or 0. */
    method GetAbcPeriod(rx: seq<byte>) returns (period: int16)
      requires Valid()
      modifies buf, this`written
      ensures period == if ReplyAccepted(FUNC_READ_HOLDING_REGISTERS, rx, 7) then Int16Reading(rx[3], rx[4]) else 0
      ensures buf[..] == Capture(rx, 7)
      ensures written == old(written) + [RequestFrame(FUNC_READ_HOLDING_REGISTERS, HR5, 0x0001)]
    {
      period := 0;
      var ok := ReadRegisters(FUNC_READ_HOLDING_REGISTERS, HR5, 0x0001, LEN_REPLY_ONE_WORD, rx);
      if ok {
        period := Int16Reading(buf[3], buf[4]);
      }
    }

    /** `get_user_concentration()`: HR8 in ppm, or 0. */
    method GetUserConcentration(rx: seq<byte>) returns (concentration: int16)
      requires Valid()
      modifies buf, this`written
      ensures concentration == if ReplyAccepted(FUNC_READ_HOLDING_REGISTERS, rx, 7) then Int16Reading(rx[3], rx[4]) else 0
      ensures buf[..] == Capture(rx, 7)
      ensures written == old(written) + [RequestFrame(FUNC_READ_HOLDING_REGISTERS, HR8, 0x0001)]
    {
      concentration := 0;
      var ok := ReadRegisters(FUNC_READ_HOLDING_REGISTERS, HR8, 0x0001, LEN_REPLY_ONE_WORD, rx);
      if ok {
        concentration := Int16Reading(buf[3], buf[4]);
      }
    }

    /** `get_user_acknowledgement()`: HR6, or 0. */
    method GetUserAcknowledgement(rx: seq<byte>) returns (flag: int16)
      requires Valid()
      modifies buf, this`written
      ensures flag == if ReplyAccepted(FUNC_READ_HOLDING_REGISTERS, rx, 7) then Int16Reading(rx[3], rx[4]) else 0
      ensures buf[..] == Capture(rx, 7)
      ensures written == old(written) + [RequestFrame(FUNC_READ_HOLDING_REGISTERS, HR6, 0x0001)]
    {
      flag := 0;
      var ok := ReadRegisters(FUNC_READ_HOLDING_REGISTERS, HR6, 0x0001, LEN_REPLY_ONE_WORD, rx);
      if ok {
        flag := Int16Reading(buf[3], buf[4]);
      }
    }

    /** `get_meter_status()`: IR6, or 0. */
    method GetMeterStatus(rx: seq<byte>) returns (status: int16)
      requires Valid()
      modifies buf, this`written
      ensures status == if ReplyAccepted(FUNC_READ_INPUT_REGISTERS, rx, 7) then Int16Reading(rx[3], rx[4]) else 0
      ensures buf[..] == Capture(rx, 7)
      ensures written == old(written) + [RequestFrame(FUNC_READ_INPUT_REGISTERS, IR6, 0x0001)]
    {
      status := 0;
      var ok := ReadRegisters(FUNC_READ_INPUT_REGISTERS, IR6, 0x0001, LEN_REPLY_ONE_WORD, rx);
      if ok {
        status := Int16Reading(buf[3], buf[4]);
      }
    }

    /** `get_output_status()`: IR7, or 0. */
    method GetOutputStatus(rx: seq<byte>) returns (status: int16)
      requires Valid()
      modifies buf, this`written
      ensures status == if ReplyAccepted(FUNC_READ_INPUT_REGISTERS, rx, 7) then Int16Reading(rx[3], rx[4]) else 0
      ensures buf[..] == Capture(rx, 7)
      ensures written == old(written) + [RequestFrame(FUNC_READ_INPUT_REGISTERS, IR7, 0x0001)]
    {
      status := 0;
      var ok := ReadRegisters(FUNC_READ_INPUT_REGISTERS, IR7, 0x0001, LEN_REPLY_ONE_WORD, rx);
      if ok {
        status := Int16Reading(buf[3], buf[4]);
      }
    }

    /** `get_PWM_output()`: IR9, or 0. */
    method GetPwmOutput(rx: seq<byte>) returns (pwm: int16)
      requires Valid()
      modifies buf, this`written
      ensures pwm == if ReplyAccepted(FUNC_READ_INPUT_REGISTERS, rx, 7) then Int16Reading(rx[3], rx[4]) else 0
      ensures buf[..] == Capture(rx, 7)
      ensures written == old(written) + [RequestFrame(FUNC_READ_INPUT_REGISTERS, IR9, 0x0001)]
    {
      pwm := 0;
      var ok := ReadRegisters(FUNC_READ_INPUT_REGISTERS, IR9, 0x0001, LEN_REPLY_ONE_WORD, rx);
      if ok {
        pwm := Int16Reading(buf[3], buf[4]);
      }
    }

    /** `get_sensor_type_ID()`: IR10 and IR11 as one 32-bit value, or 0. */
    method GetSensorTypeId(rx: seq<byte>) returns (sensorType: int32)
      requires Valid()
      modifies buf, this`written
      ensures sensorType == if ReplyAccepted(FUNC_READ_INPUT_REGISTERS, rx, 9) then Int32Reading(rx[3], rx[4], rx[5], rx[6]) else 0
      ensures buf[..] == Capture(rx, 9)
      ensures written == old(written) + [RequestFrame(FUNC_READ_INPUT_REGISTERS, IR10, 0x0002)]
    {
      sensorType := 0;
      var ok := ReadRegisters(FUNC_READ_INPUT_REGISTERS, IR10, 0x0002, LEN_REPLY_TWO_WORDS, rx);
      if ok {
        sensorType := Int32Reading(buf[3], buf[4], buf[5], buf[6]);
      }
    }

    /** `get_sensor_ID()`: IR14 and IR15 as one 32-bit value, or 0. */
    method GetSensorId(rx: seq<byte>) returns (sensorId: int32)
      requires Valid()
      modifies buf, this`written
      ensures sensorId == if ReplyAccepted(FUNC_READ_INPUT_REGISTERS, rx, 9) then Int32Reading(rx[3], rx[4], rx[5], rx[6]) else 0
      ensures buf[..] == Capture(rx, 9)
      ensures written == old(written) + [RequestFrame(FUNC_READ_INPUT_REGISTERS, IR14, 0x0002)]
    {
      sensorId := 0;
      var ok := ReadRegisters(FUNC_READ_INPUT_REGISTERS, IR14, 0x0002, LEN_REPLY_TWO_WORDS, rx);
      if ok {
        sensorId := Int32Reading(buf[3], buf[4], buf[5], buf[6]);
      }
    }

    /** `get_memory_map_version()`: as written it reads IR9, the PWM output
        register, not IR12; or 0. */
    method GetMemoryMapVersion(rx: seq<byte>) returns (mmVersion: int16)
      requires Valid()
      modifies buf, this`written
      ensures mmVersion == if ReplyAccepted(FUNC_READ_INPUT_REGISTERS, rx, 7) then Int16Reading(rx[3], rx[4]) else 0
      ensures buf[..] == Capture(rx, 7)
      ensures written == old(written) + [RequestFrame(FUNC_READ_INPUT_REGISTERS, IR9, 0x0001)]
    {
      mmVersion := 0;
      var ok := ReadRegisters(FUNC_READ_INPUT_REGISTERS, IR9, 0x0001, LEN_REPLY_ONE_WORD, rx);
      if ok {
        mmVersion := Int16Reading(buf[3], buf[4]);
      }
    }

    // ----------------------------------------------------------- setters

    /** `set_ABC_period(period)`: out of range, nothing is sent and the
        result is false; otherwise the result is whether the echo matches. */
    method SetAbcPeriod(period: int16, rx: seq<byte>) returns (result: bool)
      requires Valid()
      modifies buf, this`written
      ensures result <==> AbcPeriodAllowed(period) && EchoAccepted(PresetFrame(HR5, period), rx)
      ensures AbcPeriodAllowed(period) ==>
        buf[..] == Capture(rx, LEN_ECHO) && written == old(written) + [PresetFrame(HR5, period)]
      ensures !AbcPeriodAllowed(period) ==> buf[..] == old(buf[..]) && written == old(written)
    {
      result := false;
      if AbcPeriodAllowed(period) {
        result := WriteRegister(HR5, WordOf(FromInt16(period)), rx);
      }
    }

    /** `set_user_concentration(concentration)`: as `SetAbcPeriod`, with the
        range 400 to 2000 ppm. */
    method SetUserConcentration(concentration: int16, rx: seq<byte>) returns (result: bool)
      requires Valid()
      modifies buf, this`written
      ensures result <==> ConcentrationAllowed(concentration) && EchoAccepted(PresetFrame(HR8, concentration), rx)
      ensures ConcentrationAllowed(concentration) ==>
        buf[..] == Capture(rx, LEN_ECHO) && written == old(written) + [PresetFrame(HR8, concentration)]
      ensures !ConcentrationAllowed(concentration) ==> buf[..] == old(buf[..]) && written == old(written)
    {
      result := false;
      if ConcentrationAllowed(concentration) {
        result := WriteRegister(HR8, WordOf(FromInt16(concentration)), rx);
      }
    }

    /** `set_user_acknowledgement(flag)`: no range check. */
    method SetUserAcknowledgement(flag: int16, rx: seq<byte>) returns (result: bool)
      requires Valid()
      modifies buf, this`written
      ensures result <==> EchoAccepted(PresetFrame(HR6, flag), rx)
      ensures buf[..] == Capture(rx, LEN_ECHO) && written == old(written) + [PresetFrame(HR6, flag)]
    {
      result := WriteRegister(HR6, WordOf(FromInt16(flag)), rx);
    }

    /** `set_user_special_command(command)`: no range check. */
    method SetUserSpecialCommand(command: int16, rx: seq<byte>) returns (result: bool)
      requires Valid()
      modifies buf, this`written
      ensures result <==> EchoAccepted(PresetFrame(HR7, command), rx)
      ensures buf[..] == Capture(rx, LEN_ECHO) && written == old(written) + [PresetFrame(HR7, command)]
    {
      result := WriteRegister(HR7, WordOf(FromInt16(command)), rx);
    }
  }
}
