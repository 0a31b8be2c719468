# CRIR M1 Modbus master, modelled in Dafny

The CRIR M1 library drives a CO2 sensor over a restricted form of Modbus RTU.
The class `CRIR_M1` is the master. It owns one 20-byte message buffer,
`buf_msg`. Every public operation runs one exchange through that buffer:

1. `send_cmd` builds an eight-byte request in bytes 0 to 7: address 0xFE,
   function code, big-endian register, big-endian count or value, then the
   CRC low byte and high byte. It then writes the request to the link.
2. The buffer is zeroed with `memset`.
3. `serial_read_bytes` reads the sensor's answer into the buffer.
4. The answer is checked and decoded:
   - A getter checks it with `valid_response_len` / `valid_response`. That
     means exact length, CRC over all but the last two bytes, address 0xFE,
     function 0x03 or 0x04, and byte count `nb - 5`. The getter then decodes
     the payload: a signed 16- or 32-bit value, a temperature, a serial-number
     string or a version string. It returns 0 or "" when the check fails.
   - A setter first applies its own range check. It then accepts the write
     only if the eight buffer bytes after the read equal the eight bytes it
     sent.

The model has seven modules:

- `Bytes` (bytes.dfy): wire bytes (`bv8`) and words (`bv16`). It also has the
  C integer types and each implicit C conversion the driver relies on, written
  as a function.
- `ModbusCrc` (crc16.dfy): the Modbus CRC-16 that `modbus_CRC16` computes,
  plus its properties. These are: the residue of a frame with its own
  trailer, the trailer check as an iff, detection of any single-byte change,
  and the check vector.
- `CrirM1Defs` (crir_m1_defs.dfy): the header's constants, register map, sizes
  and the `CRIR_M1_sensor` record.
- `Frames` (frames.dfy): the request frame, the response validator, what the
  buffer holds after a read, and the echo comparison. Each is a pure function
  or predicate over buffer contents, with lemmas.
- `Readings` (readings.dfy): the payload decoders.
- `CrirM1Driver` (crir_m1.dfy): the class `CrirM1`. Its `buf: array<bv8>`
  field is rewritten in place. A ghost log `written` records the frames sent.
  All seventeen public operations are methods proved against the functions
  above. The module also has round-trip lemmas: a sensor answering with value
  v makes each getter return v.
- `DocumentedFrames` (documented.dfy): the example frames of the header
  comment, worked out byte for byte. It also covers the frames behind two
  behaviours of the code as written.

The link is a parameter. Each exchange takes `rx`, the bytes the one
`readBytes` call delivers, with `[]` meaning nothing arrived before the
timeout.

The driver is modelled as written, including these behaviours:

- `valid_response` ignores its `func` argument. `Frames.ValidResponseIff`
  accepts function 0x03 or 0x04 whatever was requested.
- `get_memory_map_version` sends the IR9 (PWM output) request, not IR12. See
  `DocumentedFrames.MemoryMapVersionReadsPwm`.
- The setters ignore the count `serial_read_bytes` returns. The zeroed buffer
  therefore fills in any missing trailing bytes, so a short echo confirms a
  write when the frame sent ends in zero bytes. `Frames.ShortEchoIff` states
  this in general. `DocumentedFrames.ShortEchoAccepted` shows it for
  `set_ABC_period(15)`, whose frame is `FE 06 00 04 00 0F 9C 00`.
- The answer frame in the header comment, `FE 04 02 30 D4 51 9A`, has the
  right structure and decodes to 25 °C. Under the Modbus CRC, however, its
  trailer should be `B9 7B`, so `valid_response` rejects it as printed. See
  `DocumentedFrames.DocumentedAnswer`.

C `int` is taken as 32 bits wide. These are the boards the header gives
hardware serial to: SAMD, ESP32, Due and Apollo3. The CRC is defined from
section 6.2.2 of the MODBUS over Serial Line Specification and Implementation
Guide V1.02, because `modbus_crc.h` is not part of this model. That
definition is confirmed against the documented request's check bytes `64 04`.

## Model

| member | source | states |
|---|---|---|
| Bytes.Word16 | src/crir_m1.cpp:532-535 | a word's high and low bytes, as `send_cmd` splits it, are exactly the two bytes it is built from |
| Bytes.WordOf | src/crir_m1.cpp:174 | an `int16_t` argument passed as `uint16_t` goes on the wire as the word whose unsigned value it is |
| Bytes.Unsigned16Injective | src/crir_m1.cpp:111 | two payload byte pairs with the same big-endian value are the same pair |
| Bytes.ToInt16 | src/crir_m1.cpp:111 | storing the 16-bit value in `int16_t` keeps it modulo 2^16 and is negative exactly from 0x8000 up |
| Bytes.ToInt32 | src/crir_m1.cpp:423 | storing the 32-bit value in `int32_t` keeps it modulo 2^32 and is negative exactly from 0x80000000 up |
| Bytes.Int16RoundTrip | src/crir_m1.cpp:174 | the `int16_t`/`uint16_t` conversions are inverse bijections |
| Bytes.Int32RoundTrip | src/crir_m1.cpp:423 | the `int32_t`/`uint32_t` conversions are inverse bijections |
| ModbusCrc.CrcTrailer | src/crir_m1.cpp:536-538 | the two CRC bytes are sent low byte first and together make up the CRC |
| ModbusCrc.CrcFromAppend | src/crir_m1.cpp:498 | the CRC of a concatenation is the CRC of the second part, started from the CRC of the first |
| ModbusCrc.CrcFromInjective | src/crir_m1.cpp:498 | over the same bytes, different starting registers end in different CRCs |
| ModbusCrc.CrcDetectsSingleByteChange | src/crir_m1.cpp:498-499 | any change confined to one byte, and so every single-bit error, changes the CRC |
| ModbusCrc.CrcResidue | src/crir_m1.cpp:536-538 | a frame that ends in its own CRC trailer has CRC zero |
| ModbusCrc.CrcZeroOnlyOwnTrailer | src/crir_m1.cpp:499 | two bytes bring the register to zero only if they are its own low and high bytes |
| ModbusCrc.CrcCheckIff | src/crir_m1.cpp:498-499 | comparing the trailer with the CRC of the rest is the same as a zero CRC over the whole frame |
| ModbusCrc.CrcCheckVector | src/crir_m1.h:25-32 | `FE 04 00 04 00 01` has CRC 0x0464, sent as `64 04` |
| CrirM1Defs.RegisterMapConsecutive | src/crir_m1.h:116-138 | IR5..IR20 are the consecutive registers 0x0004..0x0013 and HR5..HR8 are 0x0004..0x0007 |
| CrirM1Defs.BufferCoversExchanges | src/crir_m1.h:102 | the 20-byte buffer holds every request, echo and reply, up to the 15-byte serial-number reply |
| Frames.RequestFrame | src/crir_m1.cpp:530-539 | the request is 8 bytes: 0xFE, the function, register high/low, value high/low, then the CRC trailer of the first six |
| Frames.RequestFrameRoundTrip | src/crir_m1.cpp:530-539 | every request parses back to its function, register and value |
| Frames.ParseRequestExact | src/crir_m1.cpp:530-539 | every 8-byte frame that parses as a request is the frame built for it, so the format is a bijection |
| Frames.RequestFrameResidue | src/crir_m1.cpp:536-538 | the CRC over a whole request is zero |
| Frames.ValidResponseIff | src/crir_m1.cpp:493-521 | `valid_response` holds iff `nb >= 7`, function 0x03 or 0x04, and the first `nb` bytes are the reply frame for the payload between count and CRC; `func` plays no part |
| Frames.ReplyHeadIff | src/crir_m1.cpp:502 | the head of the frame is right iff the address is 0xFE and the count byte is `nb - 5` |
| Frames.TrailerIff | src/crir_m1.cpp:498-499 | the last two bytes are the CRC trailer iff they match the CRC's low and high bytes |
| Frames.ResponseFrameAccepted | src/crir_m1.cpp:493-521 | every reply the sensor builds for a read of one or more words passes the check, whatever `func` is, with its payload at byte 3 |
| Frames.ValidResponsePrefix | src/crir_m1.cpp:493-521 | only the first `nb` bytes of the buffer take part in the check |
| Frames.LengthMismatchRejected | src/crir_m1.cpp:479-489 | `valid_response_len` is false whenever `nb != len`, whatever the buffer holds |
| Frames.CorruptedResponseRejected | src/crir_m1.cpp:493-521 | changing any one byte of an accepted reply makes the check fail |
| Frames.ReadCount | src/crir_m1.cpp:559-588 | the count read is at most `max_bytes` and at most what arrived, and is 0 iff `max_bytes` is 0, the timeout is not positive or nothing arrived |
| Frames.Capture | src/crir_m1.cpp:54-55 | after the `memset` and the read, byte i of the buffer is the i-th byte received if one was read there, else 0 |
| Frames.CapturedReplyIff | src/crir_m1.cpp:106-110 | `valid_response_len` on the buffer after the read holds iff at least `len` bytes arrived and the first `len` are a valid reply |
| Frames.EchoIff | src/crir_m1.cpp:177-184 | the `memcmp` succeeds iff each byte sent equals the byte received at its place, or 0 where none arrived |
| Frames.VerbatimEchoAccepted | src/crir_m1.cpp:177-184 | an echo of the eight bytes sent always confirms the write |
| Frames.ShortEchoIff | src/crir_m1.cpp:181-184 | a reply shorter than eight bytes confirms the write iff it is a prefix of the frame sent and the frame's missing bytes are zero |
| Readings.Int16Reading | src/crir_m1.cpp:111 | the reading is the signed value whose `uint16_t` form is `buf[3]*256+buf[4]`, and it is negative iff `buf[3] >= 0x80` |
| Readings.Int32Reading | src/crir_m1.cpp:423 | the reading is the signed value whose `uint32_t` form is `buf[3..6]` big-endian, and it is negative iff `buf[3] >= 0x80` |
| Readings.Int16ReadingInjective | src/crir_m1.cpp:111 | different payloads give different 16-bit readings |
| Readings.Int16ReadingOfWord | src/crir_m1.cpp:111 | reading the word written for v gives v back |
| Readings.TemperatureBounds | src/crir_m1.cpp:134 | the temperature lies in [-100, 555] and is the whole degree the register's hundredths fall in |
| Readings.TemperatureMonotonic | src/crir_m1.cpp:134 | a larger register value never gives a lower temperature |
| Readings.CStringPrefix | src/crir_m1.cpp:60 | `strncat` copies a prefix of the source without NULs, stopping at a NUL, at the limit or at the end |
| Readings.CStringPrefixUnique | src/crir_m1.cpp:60 | those properties determine the copy uniquely |
| Readings.SerialNumber | src/crir_m1.cpp:60 | the serial number has at most 10 characters |
| Readings.SerialNumberSpec | src/crir_m1.cpp:48-66 | the serial number is the payload's characters up to the first NUL or the tenth byte, with no NUL inside |
| Readings.Decimal | src/crir_m1.cpp:88 | `%u` prints a non-empty string of digits, at most three for a byte |
| Readings.DecimalRoundTrip | src/crir_m1.cpp:88 | the printed numeral reads back as the number |
| Readings.Snprintf | src/crir_m1.cpp:88 | `snprintf` stores a prefix shorter than the buffer, and the whole string when it fits |
| Readings.SoftwareVersionFits | src/crir_m1.cpp:88 | the version is never truncated: it is "major.minor" in full, 3 to 7 characters |
| Readings.SoftwareVersionRoundTrip | src/crir_m1.cpp:88 | the version string parses back to both bytes |
| CrirM1Driver.PresetFrame | src/crir_m1.cpp:174 | a setter's frame is a preset of the register whose value field reads back as the `int16_t` argument |
| CrirM1Driver.OneWordRoundTrip | src/crir_m1.cpp:98-116 | the sensor's one-word reply for value v is accepted and decodes to v |
| CrirM1Driver.TemperatureRoundTrip | src/crir_m1.cpp:121-139 | every whole temperature in range is read back from its register value |
| CrirM1Driver.TwoWordRoundTrip | src/crir_m1.cpp:410-428 | the sensor's two-word reply for the 32-bit value v is accepted and decodes to v |
| CrirM1Driver.SerialNumberRoundTrip | src/crir_m1.cpp:42-66 | a serial number of up to ten non-NUL bytes, padded with NULs, is returned in full |
| CrirM1Driver.SensorRecordFits | src/crir_m1.h:157-162 | the strings the getters return fit `CRIR_M1_sensor` with their NUL, and the version fits the 10-byte `snprintf` buffer |
| CrirM1Driver.CrirM1.constructor | src/crir_m1.cpp:36-39 | the driver owns a fresh 20-byte buffer and has written nothing |
| CrirM1Driver.CrirM1.SerialWriteBytes | src/crir_m1.cpp:546-555 | the first `size` buffer bytes are appended to what was written |
| CrirM1Driver.CrirM1.SerialReadBytes | src/crir_m1.cpp:559-588 | returns `ReadCount`; the bytes read land at the start of the buffer and the rest is unchanged |
| CrirM1Driver.CrirM1.ClearBuffer | src/crir_m1.cpp:54 | every buffer byte becomes 0 |
| CrirM1Driver.CrirM1.SendCmd | src/crir_m1.cpp:525-542 | for a read of at least one word or a preset, bytes 0..7 become the request frame and it is written; otherwise nothing changes; bytes 8..19 never change |
| CrirM1Driver.CrirM1.ReadRegisters | src/crir_m1.cpp:103-110 | one read exchange: the request is written, the buffer holds the captured reply, and the result is whether the reply is accepted |
| CrirM1Driver.CrirM1.WriteRegister | src/crir_m1.cpp:174-184 | one preset exchange: the request is written, the buffer holds the captured echo, and the result is whether the echo is accepted |
| CrirM1Driver.CrirM1.GetSerialNumber | src/crir_m1.cpp:42-67 | reads 5 words from IR16; returns the serial number of an accepted 15-byte reply, else "" |
| CrirM1Driver.CrirM1.GetSoftwareVersion | src/crir_m1.cpp:71-94 | reads IR13; returns "major.minor" of an accepted reply, else "" |
| CrirM1Driver.CrirM1.GetCo2 | src/crir_m1.cpp:98-117 | reads IR8; returns the signed payload of an accepted 7-byte reply, else 0 |
| CrirM1Driver.CrirM1.GetTemperature | src/crir_m1.cpp:121-140 | reads IR5; returns the temperature of an accepted reply, else 0 |
| CrirM1Driver.CrirM1.GetAbcPeriod | src/crir_m1.cpp:144-163 | reads HR5 with function 0x03; returns the signed payload, else 0 |
| CrirM1Driver.CrirM1.GetUserConcentration | src/crir_m1.cpp:200-219 | reads HR8; returns the signed payload, else 0 |
| CrirM1Driver.CrirM1.GetUserAcknowledgement | src/crir_m1.cpp:256-275 | reads HR6; returns the signed payload, else 0 |
| CrirM1Driver.CrirM1.GetMeterStatus | src/crir_m1.cpp:333-356 | reads IR6; returns the signed payload, else 0 |
| CrirM1Driver.CrirM1.GetOutputStatus | src/crir_m1.cpp:360-383 | reads IR7; returns the signed payload, else 0 |
| CrirM1Driver.CrirM1.GetPwmOutput | src/crir_m1.cpp:387-406 | reads IR9; returns the signed payload, else 0 |
| CrirM1Driver.CrirM1.GetSensorTypeId | src/crir_m1.cpp:410-429 | reads 2 words from IR10; returns the signed 32-bit payload of an accepted 9-byte reply, else 0 |
| CrirM1Driver.CrirM1.GetSensorId | src/crir_m1.cpp:433-452 | reads 2 words from IR14; returns the signed 32-bit payload, else 0 |
| CrirM1Driver.CrirM1.GetMemoryMapVersion | src/crir_m1.cpp:456-475 | reads IR9, as written; returns the signed payload, else 0 |
| CrirM1Driver.CrirM1.SetAbcPeriod | src/crir_m1.cpp:167-196 | outside 0 or 4..4800 it returns false and changes nothing; otherwise it presets HR5 and returns whether the echo is accepted |
| CrirM1Driver.CrirM1.SetUserConcentration | src/crir_m1.cpp:223-252 | outside 400..2000 it returns false and changes nothing; otherwise it presets HR8 and returns whether the echo is accepted |
| CrirM1Driver.CrirM1.SetUserAcknowledgement | src/crir_m1.cpp:279-302 | presets HR6 with no range check and returns whether the echo is accepted |
| CrirM1Driver.CrirM1.SetUserSpecialCommand | src/crir_m1.cpp:306-329 | presets HR7 with no range check and returns whether the echo is accepted |
| DocumentedFrames.DocumentedRequest | src/crir_m1.h:25-32 | the documented request is `send_cmd`'s frame for one word of IR5, CRC `64 04` included |
| DocumentedFrames.DocumentedAnswer | src/crir_m1.h:35-42 | the documented answer has the right address, function and count and decodes to 25 °C, but its CRC bytes should be `B9 7B`, so it is rejected as printed |
| DocumentedFrames.AbcPeriod15Frame | src/crir_m1.cpp:174 | `set_ABC_period(15)` sends `FE 06 00 04 00 0F 9C 00` |
| DocumentedFrames.ShortEchoAccepted | src/crir_m1.cpp:177-184 | the 7-byte reply `FE 06 00 04 00 0F 9C` confirms that write |
| DocumentedFrames.MemoryMapVersionReadsPwm | src/crir_m1.cpp:461 | `get_memory_map_version` sends `FE 04 00 08 00 01 A4 07`, the PWM-output request |
| DocumentedFrames.MemoryMapVersionRegisterFrame | src/crir_m1.h:123 | the IR12 request it does not send would be `FE 04 00 0B 00 01 54 07` |

## Left out

- The timing loop of `serial_read_bytes` (`time`, `difftime`, `available`) is left out. Its effect is modelled by `rx`, the bytes one `readBytes` call delivers. Stream-level timeouts and partial deliveries across calls are not modelled.
- `serial_write_bytes` and `flush` are transport I/O. The frame written is appended to the ghost log `written`.
- `modbus_CRC16` is in `modbus_crc.h`, which is not part of this model. The CRC is defined from the Modbus serial-line standard, and that definition is an assumption.
- Logging (`CRIR_M1_LOG`), `print_buffer` and `print_binary` are debug output only.
- The platform selection (`SoftwareSerial`, `Arduino.h`) and the debug serial port are left out. C `int` is taken as 32 bits. On a 16-bit-int board, `buf_msg[3] << 24` and `buf_msg[3] * 256` overflow, and that behaviour is not modelled.
- The NULL checks on the `char[]` out-parameters are left out. Strings are returned instead, so the caller's array is not modelled.
- The constructor's `Stream &serial` argument is left out. The link is the `rx` parameter of each operation.
- The constructor does not initialise the buffer's contents, and the model states nothing about them.
- `CrirM1Driver.CrirM1.SerialReadBytes` requires `maxBytes <= 20`. `readBytes` would write past the 20-byte buffer for larger counts, and every caller passes at most 15.
