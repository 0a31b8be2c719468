/** The protocol constants, register map, buffer sizes and result record that
    the driver's header declares. */
module CrirM1Defs {
  import opened Bytes

  /** Serial parameters and buffer sizes. */
  const BAUDRATE: nat := 9600
  /** Seconds serial_read_bytes waits for the first byte of a reply. */
  const TIMEOUT: int := 5
  /** Capacity of `buf_msg`. */
  const LEN_BUF_MSG: nat := 20
  /** Characters of the serial number and of the software version. */
  const LEN_SN: nat := 10
  const LEN_SOFTVER: nat := 10

  /** Modbus: the sensor answers to any address; three function codes are used. */
  const ANY_ADDRESS: byte := 0xFE
  const FUNC_READ_HOLDING_REGISTERS: byte := 0x03
  const FUNC_READ_INPUT_REGISTERS: byte := 0x04
  const FUNC_PRESET_SINGLE_REGISTER: byte := 0x06

  /** Input registers. */
  const IR5: word := 0x0004   // temperature
  const IR6: word := 0x0005   // meter status
  const IR7: word := 0x0006   // output status
  const IR8: word := 0x0007   // space CO2
  const IR9: word := 0x0008   // PWM output
  const IR10: word := 0x0009  // sensor type ID, high word
  const IR11: word := 0x000A  // sensor type ID, low word
  const IR12: word := 0x000B  // memory map version
  const IR13: word := 0x000C  // firmware version major.minor
  const IR14: word := 0x000D  // sensor ID, high word
  const IR15: word := 0x000E  // sensor ID, low word
  const IR16: word := 0x000F  // serial number, words 1 to 5
  const IR17: word := 0x0010
  const IR18: word := 0x0011
  const IR19: word := 0x0012
  const IR20: word := 0x0013

  /** Holding registers. */
  const HR5: word := 0x0004   // ABC period
  const HR6: word := 0x0005   // user acknowledgement
  const HR7: word := 0x0006   // user special command
  const HR8: word := 0x0007   // user concentration

  const INPUT_REGISTERS: seq<word> :=
    [IR5, IR6, IR7, IR8, IR9, IR10, IR11, IR12, IR13, IR14, IR15, IR16, IR17, IR18, IR19, IR20]
  const HOLDING_REGISTERS: seq<word> := [HR5, HR6, HR7, HR8]

  /** Meter status and output status bits. */
  const MASK_METER_OUT_OF_RANGE: word := 0x0020
  const MASK_METER_MEMORY_ERROR: word := 0x0040
  const MASK_OUTPUT_ALARM: word := 0x0001
  const MASK_OUTPUT_PWM: word := 0x0002

  /** Calibration command words. */
  const CLEAR_CALIBRATION_COMPLETION: word := 0x0000
  const START_USER_CALIBRATION: word := 0x7C01
  const CALIBRATION_COMPLETED: word := 0x0001

  /** Lengths of the exchanges the driver performs: every request is 8 bytes,
      a one-word reply 7, a two-word reply 9, the five-word serial number 15,
      and a preset is echoed in 8. */
  const LEN_REQUEST: nat := 8
  const LEN_REPLY_ONE_WORD: nat := 7
  const LEN_REPLY_TWO_WORDS: nat := 9
  const LEN_REPLY_SERIAL_NUMBER: nat := 15
  const LEN_ECHO: nat := 8

  /** `struct CRIR_M1_sensor`: text fields are character arrays one longer
      than their longest string, to hold the terminating NUL. */
  datatype Sensor = Sensor(sn: string, softver: string, co2: int16, temperature: int16)

  predicate FitsSensorRecord(s: Sensor)
  {
    |s.sn| + 1 <= LEN_SN + 1 && |s.softver| + 1 <= LEN_SOFTVER + 1
  }

  /** The sixteen input registers are the consecutive addresses 0x0004 to
      0x0013, and the four holding registers 0x0004 to 0x0007. */
  lemma RegisterMapConsecutive()
    ensures |INPUT_REGISTERS| == 16 && INPUT_REGISTERS[0] == 0x0004
    ensures forall i :: 0 < i < |INPUT_REGISTERS| ==> INPUT_REGISTERS[i] == INPUT_REGISTERS[i - 1] + 1
    ensures |HOLDING_REGISTERS| == 4 && HOLDING_REGISTERS[0] == 0x0004
    ensures forall i :: 0 < i < |HOLDING_REGISTERS| ==> HOLDING_REGISTERS[i] == HOLDING_REGISTERS[i - 1] + 1
  {
  }

  /** The buffer holds the largest exchange, the 15-byte serial number reply. */
  lemma BufferCoversExchanges()
    ensures LEN_REQUEST <= LEN_BUF_MSG && LEN_ECHO <= LEN_BUF_MSG
    ensures LEN_REPLY_ONE_WORD <= LEN_BUF_MSG && LEN_REPLY_TWO_WORDS <= LEN_BUF_MSG
    ensures LEN_REPLY_SERIAL_NUMBER <= LEN_BUF_MSG
  {
  }
}
