/** The example exchange in the header's opening comment, and the frames of
    the driver's two register-level quirks, worked out byte for byte. */
module DocumentedFrames {
  import opened Bytes
  import opened ModbusCrc
  import opened Options
  import opened CrirM1Defs
  import opened Frames
  import opened Readings
  import opened CrirM1Driver

  /** The documented request `FE 04 00 04 00 01 64 04` is the frame
      `send_cmd` builds to read one word of input register 0x0004, the
      temperature, and it carries its own CRC. */
  lemma DocumentedRequest()
    ensures RequestFrame(FUNC_READ_INPUT_REGISTERS, IR5, 0x0001) == [0xFE, 0x04, 0x00, 0x04, 0x00, 0x01, 0x64, 0x04]
    ensures ParseRequest([0xFE, 0x04, 0x00, 0x04, 0x00, 0x01, 0x64, 0x04]) == Some(Request(FUNC_READ_INPUT_REGISTERS, IR5, 0x0001))
  {
    assert RequestBody(FUNC_READ_INPUT_REGISTERS, IR5, 0x0001) == [0xFE, 0x04, 0x00, 0x04, 0x00, 0x01];
    CrcCheckVector();
    RequestFrameRoundTrip(FUNC_READ_INPUT_REGISTERS, IR5, 0x0001);
  }

  /** The documented answer `FE 04 02 30 D4 51 9A` has the address, the
      function and the byte count `valid_response` looks for, and its payload
      0x30D4 (12500 hundredths) is 25 degrees; but the CRC of its first five
      bytes is 0x7BB9, so its trailer would be `B9 7B` and the frame as
      printed is rejected. With that trailer it is the sensor's reply. */
  lemma DocumentedAnswer()
    ensures var a: seq<byte> := [0xFE, 0x04, 0x02, 0x30, 0xD4, 0x51, 0x9A];
      a[0] == ANY_ADDRESS && a[1] == FUNC_READ_INPUT_REGISTERS && Val(a[2]) == |a| - 5
      && Temperature(a[3], a[4]) == 25
      && Crc16(a[..5]) == 0x7BB9
      && !ValidResponse(FUNC_READ_INPUT_REGISTERS, a, 7)
    ensures ResponseFrame(FUNC_READ_INPUT_REGISTERS, [0x30, 0xD4]) == [0xFE, 0x04, 0x02, 0x30, 0xD4, 0xB9, 0x7B]
    ensures ValidResponse(FUNC_READ_INPUT_REGISTERS, [0xFE, 0x04, 0x02, 0x30, 0xD4, 0xB9, 0x7B], 7)
  {
    var a: seq<byte> := [0xFE, 0x04, 0x02, 0x30, 0xD4, 0x51, 0x9A];
    var h := a[..5];
    assert h == [0xFE, 0x04, 0x02, 0x30, 0xD4];
    assert CrcByte(0xFFFF, 0xFE) == 0xC03E;
    assert CrcByte(0xC03E, 0x04) == 0x1340;
    assert CrcByte(0x1340, 0x02) == 0x3193;
    assert CrcByte(0x3193, 0x30) == 0x7971;
    assert CrcByte(0x7971, 0xD4) == 0x7BB9;
    assert h[1..][1..][1..][1..][1..] == [];
    assert Val(0x30) == 0x30 && Val(0xD4) == 0xD4;
    assert [ANY_ADDRESS, FUNC_READ_INPUT_REGISTERS, ByteOf(2)] + [0x30, 0xD4] == h;
    ResponseFrameAccepted(FUNC_READ_INPUT_REGISTERS, FUNC_READ_INPUT_REGISTERS, [0x30, 0xD4]);
  }

  /** `set_ABC_period(15)` sends `FE 06 00 04 00 0F 9C 00`. */
  lemma AbcPeriod15Frame()
    ensures PresetFrame(HR5, 15) == [0xFE, 0x06, 0x00, 0x04, 0x00, 0x0F, 0x9C, 0x00]
  {
    var body: seq<byte> := [0xFE, 0x06, 0x00, 0x04, 0x00, 0x0F];
    assert WordOf(FromInt16(15)) == 0x000F by {
      ValInjective(ByteOf(0), 0x00);
      ValInjective(ByteOf(15), 0x0F);
    }
    assert RequestBody(FUNC_PRESET_SINGLE_REGISTER, HR5, 0x000F) == body;
    AbcPeriod15Crc();
  }

  lemma AbcPeriod15Crc()
    ensures Crc16([0xFE, 0x06, 0x00, 0x04, 0x00, 0x0F]) == 0x009C
  {
    var body: seq<byte> := [0xFE, 0x06, 0x00, 0x04, 0x00, 0x0F];
    assert CrcByte(0xFFFF, 0xFE) == 0xC03E;
    assert CrcByte(0xC03E, 0x06) == 0xD2C1;
    assert CrcByte(0xD2C1, 0x00) == 0x9013;
    assert CrcByte(0x9013, 0x04) == 0x0ED0;
    assert CrcByte(0x0ED0, 0x00) == 0x9C0F;
    assert CrcByte(0x9C0F, 0x0F) == 0x009C;
    assert body[1..][1..][1..][1..][1..][1..] == [];
  }

  /** Because that frame's CRC high byte is zero, a reply that stops after
      `9C` still confirms the write: the cleared buffer supplies the missing
      byte. */
  lemma ShortEchoAccepted()
    ensures AbcPeriodAllowed(15)
    ensures EchoAccepted(PresetFrame(HR5, 15), [0xFE, 0x06, 0x00, 0x04, 0x00, 0x0F, 0x9C])
  {
    AbcPeriod15Frame();
    ShortEchoIff(PresetFrame(HR5, 15), [0xFE, 0x06, 0x00, 0x04, 0x00, 0x0F, 0x9C]);
  }

  /** `get_memory_map_version` sends the very frame `get_PWM_output` sends,
      a read of register 0x0008 (IR9), ... */
  lemma MemoryMapVersionReadsPwm()
    ensures RequestFrame(FUNC_READ_INPUT_REGISTERS, IR9, 0x0001) == [0xFE, 0x04, 0x00, 0x08, 0x00, 0x01, 0xA4, 0x07]
  {
    var b: seq<byte> := [0xFE, 0x04, 0x00, 0x08, 0x00, 0x01];
    assert RequestBody(FUNC_READ_INPUT_REGISTERS, IR9, 0x0001) == b;
    assert CrcByte(0xFFFF, 0xFE) == 0xC03E;
    assert CrcByte(0xC03E, 0x04) == 0x1340;
    assert CrcByte(0x1340, 0x00) == 0xF012;
    assert CrcByte(0xF012, 0x08) == 0xCB71;
    assert CrcByte(0xCB71, 0x00) == 0x240B;
    assert CrcByte(0x240B, 0x01) == 0x07A4;
    assert b[1..][1..][1..][1..][1..][1..] == [];
  }

  /** ... and not this read of 0x000B (IR12), the register the header's map
      names the memory map version. */
  lemma MemoryMapVersionRegisterFrame()
    ensures RequestFrame(FUNC_READ_INPUT_REGISTERS, IR12, 0x0001) == [0xFE, 0x04, 0x00, 0x0B, 0x00, 0x01, 0x54, 0x07]
  {
    var b: seq<byte> := [0xFE, 0x04, 0x00, 0x0B, 0x00, 0x01];
    assert RequestBody(FUNC_READ_INPUT_REGISTERS, IR12, 0x0001) == b;
    assert CrcByte(0xFFFF, 0xFE) == 0xC03E;
    assert CrcByte(0xC03E, 0x04) == 0x1340;
    assert CrcByte(0x1340, 0x00) == 0xF012;
    assert CrcByte(0xF012, 0x0B) == 0xCA31;
    assert CrcByte(0xCA31, 0x00) == 0xD40B;
    assert CrcByte(0xD40B, 0x01) == 0x0754;
    assert b[1..][1..][1..][1..][1..][1..] == [];
  }
}
