/** The frame side of the driver: the request frame `send_cmd` builds, the
    reply checks `valid_response` and `valid_response_len` apply to the
    buffer, what the buffer holds after a read, and the echo comparison of
    the register writes. Frames follow section 2.5.1 of the MODBUS over
    Serial Line Specification V1.02 (address, function, data, CRC). */
module Frames {
  import opened Bytes
  import opened ModbusCrc
  import opened Options
  import opened CrirM1Defs

  // ---------------------------------------------------------------- requests

  /** The guard of `send_cmd`: a read of at least one word, or a preset. */
  predicate SendAccepted(func: byte, value: word)
  {
    ((func == FUNC_READ_HOLDING_REGISTERS || func == FUNC_READ_INPUT_REGISTERS) && value >= 1)
    || func == FUNC_PRESET_SINGLE_REGISTER
  }

  /** The six bytes `send_cmd` writes ahead of the CRC. */
  function RequestBody(func: byte, reg: word, value: word): seq<byte>
  {
    [ANY_ADDRESS, func, HighByte(reg), LowByte(reg), HighByte(value), LowByte(value)]
  }

  /** The eight bytes `send_cmd` writes into `buf_msg[0..8)` and sends. */
  function RequestFrame(func: byte, reg: word, value: word): (f: seq<byte>)
    ensures |f| == LEN_REQUEST && f[0] == ANY_ADDRESS && f[1] == func
    ensures Word16(f[2], f[3]) == reg && Word16(f[4], f[5]) == value
    ensures f[6..] == CrcTrailer(f[..6])
  {
    var body := RequestBody(func, reg, value);
    Word16OfBytes(reg);
    Word16OfBytes(value);
    assert (body + CrcTrailer(body))[..6] == body;
    body + CrcTrailer(body)
  }

  datatype Request = Request(func: byte, register: word, value: word)

  /** How the slave reads a request: address, function, register and value
      big-endian, and a trailer that must be the CRC of the first six bytes. */
  function ParseRequest(f: seq<byte>): Option<Request>
  {
    if |f| == LEN_REQUEST && f[0] == ANY_ADDRESS && f[6..] == CrcTrailer(f[..6])
    then Some(Request(f[1], Word16(f[2], f[3]), Word16(f[4], f[5])))
    else None
  }

  /** Every frame `send_cmd` builds reads back as the request it encodes. */
  lemma RequestFrameRoundTrip(func: byte, reg: word, value: word)
    ensures ParseRequest(RequestFrame(func, reg, value)) == Some(Request(func, reg, value))
  {
  }

  /** and every frame that reads back as a request is the frame `send_cmd`
      builds for it: the request format is a bijection. */
  lemma ParseRequestExact(f: seq<byte>)
    requires ParseRequest(f).Some?
    ensures f == RequestFrame(f[1], Word16(f[2], f[3]), Word16(f[4], f[5]))
  {
    var g := RequestFrame(f[1], Word16(f[2], f[3]), Word16(f[4], f[5]));
    assert f[..6] == g[..6];
    assert f == f[..6] + f[6..];
    assert g == g[..6] + g[6..];
  }

  /** The CRC over a whole request frame is zero. */
  lemma RequestFrameResidue(func: byte, reg: word, value: word)
    ensures Crc16(RequestFrame(func, reg, value)) == 0
  {
    CrcResidue(RequestBody(func, reg, value));
  }

  // ----------------------------------------------------------------- replies

  /** `valid_response(func, nb)` over the buffer contents `b`. The `func`
      argument plays no part: a reply to a read of either kind passes. */
  predicate ValidResponse(func: byte, b: seq<byte>, nb: uint8)
    requires nb <= |b|
  {
    nb >= 7
    && b[nb - 2] == LowByte(Crc16(b[..nb - 2]))
    && b[nb - 1] == HighByte(Crc16(b[..nb - 2]))
    && b[0] == ANY_ADDRESS
    && (b[1] == FUNC_READ_HOLDING_REGISTERS || b[1] == FUNC_READ_INPUT_REGISTERS)
    && Val(b[2]) == nb - 5
  }

  /** `valid_response_len(func, nb, len)` */
  predicate ValidResponseLen(func: byte, b: seq<byte>, nb: uint8, len: uint8)
    requires nb <= |b|
  {
    nb == len && ValidResponse(func, b, nb)
  }

  /** A read reply as the sensor sends it: address, function, byte count,
      payload, CRC. */
  function ResponseFrame(func: byte, payload: seq<byte>): (f: seq<byte>)
    requires |payload| < 0x100
    ensures |f| == |payload| + 5
  {
    var head := [ANY_ADDRESS, func, ByteOf(|payload|)] + payload;
    head + CrcTrailer(head)
  }

  /** Only the first `nb` bytes of the buffer take part in the check. */
  lemma ValidResponsePrefix(func: byte, b: seq<byte>, nb: uint8)
    requires nb <= |b|
    ensures ValidResponse(func, b, nb) == ValidResponse(func, b[..nb], nb)
  {
    if nb >= 7 {
      assert b[..nb][..nb - 2] == b[..nb - 2];
    }
  }

  lemma ByteCountField(b: byte, n: nat)
    requires n < 0x100
    ensures Val(b) == n <==> b == ByteOf(n)
  {
    if Val(b) == n {
      ValInjective(b, ByteOf(n));
    }
  }

  lemma ConcatEq(a1: seq<byte>, a2: seq<byte>, b1: seq<byte>, b2: seq<byte>)
    requires |a1| == |b1|
    ensures a1 + a2 == b1 + b2 <==> a1 == b1 && a2 == b2
  {
    if a1 + a2 == b1 + b2 {
      assert a1 == (a1 + a2)[..|a1|] && b1 == (b1 + b2)[..|a1|];
      assert a2 == (a1 + a2)[|a1|..] && b2 == (b1 + b2)[|a1|..];
    }
  }

  lemma HeadSplit(b: seq<byte>, nb: uint8)
    requires 7 <= nb <= |b|
    ensures b[..nb - 2] == [b[0], b[1], b[2]] + b[3..nb - 2]
    ensures b[..nb] == b[..nb - 2] + [b[nb - 2], b[nb - 1]]
  {
  }

  lemma HeadEq(x: seq<byte>, b0: byte, b1: byte, b2: byte, c2: byte)
    ensures [b0, b1, b2] + x == [ANY_ADDRESS, b1, c2] + x <==> b0 == ANY_ADDRESS && b2 == c2
  {
    ConcatEq([b0, b1, b2], x, [ANY_ADDRESS, b1, c2], x);
  }

  /** The first `nb - 2` bytes are the head of a reply iff the address and
      the byte count are right. */
  lemma ReplyHeadIff(b: seq<byte>, nb: uint8)
    requires 7 <= nb <= |b|
    ensures b[..nb - 2] == [ANY_ADDRESS, b[1], ByteOf(nb - 5)] + b[3..nb - 2] <==>
      b[0] == ANY_ADDRESS && Val(b[2]) == nb - 5
  {
    HeadSplit(b, nb);
    HeadEq(b[3..nb - 2], b[0], b[1], b[2], ByteOf(nb - 5));
    ByteCountField(b[2], nb - 5);
  }

  /** The last two bytes are the CRC trailer of the rest iff they match the
      low and high bytes of its CRC. */
  lemma TrailerIff(b: seq<byte>, nb: uint8)
    requires 7 <= nb <= |b|
    ensures [b[nb - 2], b[nb - 1]] == CrcTrailer(b[..nb - 2]) <==>
      b[nb - 2] == LowByte(Crc16(b[..nb - 2])) && b[nb - 1] == HighByte(Crc16(b[..nb - 2]))
  {
  }

  /** `valid_response` accepts exactly the well-formed replies to a read,
      whatever function it is told was requested: at least seven bytes that
      are a `ResponseFrame` for function 0x03 or 0x04 and the payload between
      the byte count and the CRC. */
  lemma ValidResponseIff(func: byte, b: seq<byte>, nb: uint8)
    requires nb <= |b|
    ensures ValidResponse(func, b, nb) <==>
      nb >= 7
      && (b[1] == FUNC_READ_HOLDING_REGISTERS || b[1] == FUNC_READ_INPUT_REGISTERS)
      && b[..nb] == ResponseFrame(b[1], b[3..nb - 2])
  {
    if nb >= 7 {
      var head := [ANY_ADDRESS, b[1], ByteOf(nb - 5)] + b[3..nb - 2];
      HeadSplit(b, nb);
      ConcatEq(b[..nb - 2], [b[nb - 2], b[nb - 1]], head, CrcTrailer(head));
      ReplyHeadIff(b, nb);
      TrailerIff(b, nb);
    }
  }

  /** Every reply the sensor builds for a read of at least one word passes
      the check, whichever read function the driver names, and its payload
      sits at bytes 3 and on. */
  lemma ResponseFrameAccepted(func: byte, f: byte, payload: seq<byte>)
    requires f == FUNC_READ_HOLDING_REGISTERS || f == FUNC_READ_INPUT_REGISTERS
    requires 2 <= |payload| <= 250
    ensures ValidResponse(func, ResponseFrame(f, payload), |payload| + 5)
    ensures ResponseFrame(f, payload)[3..|payload| + 3] == payload
  {
    var r := ResponseFrame(f, payload);
    var nb := |payload| + 5;
    assert r[1] == f;
    assert r[3..nb - 2] == payload;
    assert r[..nb] == r;
    ValidResponseIff(func, r, nb);
  }

  /** A reply whose length is not the one expected is rejected, even when
      its CRC and fields are right. */
  lemma LengthMismatchRejected(func: byte, b: seq<byte>, nb: uint8, len: uint8)
    requires nb <= |b| && nb != len
    ensures !ValidResponseLen(func, b, nb, len)
  {
  }

  /** Changing any one byte of an accepted reply, payload or trailer, makes
      `valid_response` reject it; in particular every single flipped bit. */
  lemma CorruptedResponseRejected(func: byte, b: seq<byte>, c: seq<byte>, nb: uint8, i: nat)
    requires nb <= |b| && |c| == |b| && i < nb
    requires ValidResponse(func, b, nb)
    requires c[i] != b[i] && forall j :: 0 <= j < nb && j != i ==> c[j] == b[j]
    ensures !ValidResponse(func, c, nb)
  {
    if i < nb - 2 {
      CorruptedBodyRejected(func, b, c, nb, i);
    } else {
      assert b[..nb - 2] == c[..nb - 2];
    }
  }

  lemma CorruptedBodyRejected(func: byte, b: seq<byte>, c: seq<byte>, nb: uint8, i: nat)
    requires nb <= |b| && |c| == |b| && 7 <= nb && i < nb - 2
    requires ValidResponse(func, b, nb)
    requires c[i] != b[i] && forall j :: 0 <= j < nb && j != i ==> c[j] == b[j]
    ensures !ValidResponse(func, c, nb)
  {
    var p, q := b[..nb - 2], c[..nb - 2];
    CrcDetectsSingleByteChange(p, q, i);
    assert c[nb - 2] == b[nb - 2] && c[nb - 1] == b[nb - 1];
    Word16OfBytes(Crc16(p));
    Word16OfBytes(Crc16(q));
  }

  // ------------------------------------------------------ reads and echoes

  function Min(a: int, b: int): int
  {
    if a < b then a else b
  }

  /** The count `serial_read_bytes(maxBytes, timeout)` returns when the one
      `readBytes` call it makes delivers `rx` (`[]` when nothing arrives
      before the deadline). */
  function ReadCount(rx: seq<byte>, maxBytes: uint8, timeout: int): (n: uint8)
    ensures n <= maxBytes && n <= |rx|
    ensures n == 0 <==> maxBytes == 0 || timeout <= 0 || rx == []
  {
    if maxBytes > 0 && timeout > 0 then Min(|rx|, maxBytes) else 0
  }

  /** `buf_msg` after `memset(buf_msg, 0, 20)` and a read of at most
      `maxBytes` bytes that delivers `rx`. */
  function Capture(rx: seq<byte>, maxBytes: uint8): (b: seq<byte>)
    requires maxBytes <= LEN_BUF_MSG
    ensures |b| == LEN_BUF_MSG
    ensures forall i :: 0 <= i < LEN_BUF_MSG ==> b[i] == if i < |rx| && i < maxBytes then rx[i] else 0
  {
    var n := ReadCount(rx, maxBytes, TIMEOUT);
    rx[..n] + seq(LEN_BUF_MSG - n, _ => 0)
  }

  /** The sensor sent at least `len` bytes and the first `len` of them are a
      valid reply. */
  predicate ReplyAccepted(func: byte, rx: seq<byte>, len: uint8)
  {
    len <= |rx| && ValidResponse(func, rx, len)
  }

  /** The outcome of a read-register exchange: `valid_response_len` on the
      buffer after the read holds iff the bytes received are accepted. */
  lemma CapturedReplyIff(func: byte, rx: seq<byte>, len: uint8)
    requires len <= LEN_BUF_MSG
    ensures ValidResponseLen(func, Capture(rx, len), ReadCount(rx, len, TIMEOUT), len)
        <==> ReplyAccepted(func, rx, len)
  {
    var b := Capture(rx, len);
    if len <= |rx| && len > 0 {
      assert b[..len] == rx[..len];
      ValidResponsePrefix(func, b, len);
      ValidResponsePrefix(func, rx, len);
    }
  }

  /** `memcmp(buf_msg_sent, buf_msg, 8) == 0` */
  predicate EchoMatches(sent: seq<byte>, b: seq<byte>)
    requires |sent| >= LEN_ECHO && |b| >= LEN_ECHO
  {
    sent[..LEN_ECHO] == b[..LEN_ECHO]
  }

  /** The bytes the sensor sent back, padded with the zeros the buffer was
      cleared to, are the frame sent: the count the read returns plays no
      part. */
  predicate EchoAccepted(sent: seq<byte>, rx: seq<byte>)
    requires |sent| == LEN_ECHO
  {
    forall i :: 0 <= i < LEN_ECHO ==> sent[i] == if i < |rx| then rx[i] else 0
  }

  /** A write is confirmed by the `memcmp` iff the echo is accepted. */
  lemma EchoIff(sent: seq<byte>, rx: seq<byte>)
    requires |sent| == LEN_ECHO
    ensures EchoMatches(sent, Capture(rx, LEN_ECHO)) <==> EchoAccepted(sent, rx)
  {
    var b := Capture(rx, LEN_ECHO);
    if EchoAccepted(sent, rx) {
      assert sent[..LEN_ECHO] == b[..LEN_ECHO];
    }
    if EchoMatches(sent, b) {
      forall i | 0 <= i < LEN_ECHO
        ensures sent[i] == if i < |rx| then rx[i] else 0
      {
        assert sent[..LEN_ECHO][i] == b[..LEN_ECHO][i];
      }
    }
  }

  /** A verbatim echo always confirms the write. */
  lemma VerbatimEchoAccepted(sent: seq<byte>, rx: seq<byte>)
    requires |sent| == LEN_ECHO && LEN_ECHO <= |rx| && rx[..LEN_ECHO] == sent
    ensures EchoAccepted(sent, rx)
  {
    forall i | 0 <= i < LEN_ECHO
      ensures sent[i] == rx[i]
    {
      assert rx[..LEN_ECHO][i] == rx[i];
    }
  }

  /** A reply shorter than the frame sent still confirms the write when the
      bytes it lacks are zeros in the frame sent: the zero-filled buffer
      supplies them. */
  lemma ShortEchoIff(sent: seq<byte>, rx: seq<byte>)
    requires |sent| == LEN_ECHO && |rx| < LEN_ECHO
    ensures EchoAccepted(sent, rx) <==>
      sent[..|rx|] == rx && forall i :: |rx| <= i < LEN_ECHO ==> sent[i] == 0
  {
    if EchoAccepted(sent, rx) {
      assert sent[..|rx|] == rx;
    }
  }
}
