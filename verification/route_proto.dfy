/** unix_domain/lib/route_proto.cpp: messages and the length- and CRC-checked exchange block. */
module RouteProto {
  import opened Bytes
  import opened Crc
  import opened CrcErrors

  datatype MsgType = PING | PONG | DATA | DATA_ACK | ERROR {
    function Code(): byte {
      match this
      case PING => 0x01
      case PONG => 0x02
      case DATA => 0x10
      case DATA_ACK => 0x11
      case ERROR => 0xFF
    }
  }

  datatype RouteError = InvalidMessage | UnknownType

  datatype ExchangeError = InvalidData | LengthMismatch | ExchangeCrcMismatch | CountMismatch

  datatype Message = Message(msgType: MsgType, flags: byte, msgId: u16, payload: bytes)

  datatype ExchangeData = ExchangeData(numCommands: u16, commands: bytes)

  const FLAG_NONE: byte := 0x00
  const MSG_HEADER_SIZE := 4
  const EXCHANGE_MIN_SIZE := 6
  /** The longest command block whose total length still fits the 16-bit data_length field. */
  const MAX_COMMANDS := 0xFFFF - EXCHANGE_MIN_SIZE

  function TypeOfCode(b: byte): Option<MsgType> {
    if b == 0x01 then Some(PING)
    else if b == 0x02 then Some(PONG)
    else if b == 0x10 then Some(DATA)
    else if b == 0x11 then Some(DATA_ACK)
    else if b == 0xFF then Some(ERROR)
    else None
  }

  function MakeData(msgId: u16, payload: bytes): Message {
    Message(DATA, FLAG_NONE, msgId, payload)
  }

  // ----- messages

  function EncodedMessage(msg: Message): bytes {
    [msg.msgType.Code(), msg.flags] + Be16(msg.msgId) + msg.payload
  }

  method EncodeMessage(msg: Message) returns (out: bytes)
    ensures out == EncodedMessage(msg)
    ensures |out| == 4 + |msg.payload| && out[1] == msg.flags && out[4..] == msg.payload
    ensures out[0] ==
      match msg.msgType case PING => 1 case PONG => 2 case DATA => 0x10 case DATA_ACK => 0x11 case ERROR => 0xFF
    ensures out[2] == msg.msgId / 0x100 && out[3] == msg.msgId % 0x100
  {
    out := [];
    out := out + [msg.msgType.Code()];
    out := out + [msg.flags];
    out := out + Be16(msg.msgId);
    out := out + msg.payload;
  }

  function DecodedMessage(raw: bytes): Result<Message, RouteError> {
    if |raw| < MSG_HEADER_SIZE then Err(InvalidMessage)
    else if TypeOfCode(raw[0]).None? then Err(UnknownType)
    else Ok(Message(TypeOfCode(raw[0]).value, raw[1], At16(raw, 2), raw[MSG_HEADER_SIZE..]))
  }

  method DecodeMessage(raw: bytes) returns (r: Result<Message, RouteError>)
    ensures r == DecodedMessage(raw)
    ensures |raw| < 4 ==> r == Err(InvalidMessage)
    ensures |raw| >= 4 && raw[0] !in {1, 2, 0x10, 0x11, 0xFF} ==> r == Err(UnknownType)
    ensures |raw| >= 4 && raw[0] in {1, 2, 0x10, 0x11, 0xFF} ==> r.Ok?
  {
    if |raw| < MSG_HEADER_SIZE {
      return Err(InvalidMessage);
    }
    var msgType := TypeOfCode(raw[0]);
    if msgType.None? {
      return Err(UnknownType);
    }
    return Ok(Message(msgType.value, raw[1], At16(raw, 2), raw[MSG_HEADER_SIZE..]));
  }

  /** Encoding and decoding are inverse: a message is accepted from exactly its own encoding. */
  lemma MessageCodec(raw: bytes, msg: Message)
    ensures DecodedMessage(raw) == Ok(msg) <==> raw == EncodedMessage(msg)
  {
    if |raw| >= MSG_HEADER_SIZE {
      Be16RoundTrip(raw, 2, msg.msgId);
      var head := [raw[0], raw[1]] + raw[2..4];
      assert raw == head + raw[4..];
      SameHalves(head, raw[4..], [msg.msgType.Code(), msg.flags] + Be16(msg.msgId), msg.payload);
      SameHalves([raw[0], raw[1]], raw[2..4], [msg.msgType.Code(), msg.flags], Be16(msg.msgId));
      assert [raw[0], raw[1]] == [msg.msgType.Code(), msg.flags]
        <==> raw[0] == msg.msgType.Code() && raw[1] == msg.flags by {
        var x, y := [raw[0], raw[1]], [msg.msgType.Code(), msg.flags];
        assert x == y <==> x[0] == y[0] && x[1] == y[1];
      }
    }
  }

  // ----- exchange blocks

  function ExchangeBody(commands: bytes): bytes {
    Be16(ToU16(|commands|)) + Be16(ToU16(EXCHANGE_MIN_SIZE + |commands|)) + commands
  }

  /** The block written for a command string; the caller's own command count is not looked at. */
  function EncodedExchange(ed: ExchangeData): bytes {
    var body := ExchangeBody(ed.commands);
    body + Be16(Crc16(body))
  }

  method EncodeExchange(ed: ExchangeData) returns (out: bytes)
    ensures out == EncodedExchange(ed)
    ensures var n := |ed.commands|;
      && |out| == 6 + n && out[4..4 + n] == ed.commands
      && out[..4] == [n / 0x100 % 0x100, n % 0x100, (n + 6) / 0x100 % 0x100, (n + 6) % 0x100]
      && out[4 + n..] == [Crc16(out[..4 + n]) / 0x100, Crc16(out[..4 + n]) % 0x100]
  {
    var numCmds := ToU16(|ed.commands|);
    var dataLength := ToU16(EXCHANGE_MIN_SIZE + |ed.commands|);
    out := Be16(numCmds);
    out := out + Be16(dataLength);
    out := out + ed.commands;
    assert out[4..4 + |ed.commands|] == ed.commands;
    Be16Cast(|ed.commands|);
    Be16Cast(6 + |ed.commands|);
    ghost var front := out;
    var checksum := ComputeCrc16(out);
    out := out + Be16(checksum);
    assert out[..4 + |ed.commands|] == front && out[..4] == front[..4];
  }

  function DecodedExchange(raw: bytes): Result<ExchangeData, ExchangeError> {
    if |raw| < EXCHANGE_MIN_SIZE then Err(InvalidData)
    else if At16(raw, 2) != |raw| then Err(LengthMismatch)
    else if !Sealed(raw) then Err(ExchangeCrcMismatch)
    else if At16(raw, 0) != |raw| - EXCHANGE_MIN_SIZE then Err(CountMismatch)
    else Ok(ExchangeData(At16(raw, 0), raw[4..|raw| - 2]))
  }

  method DecodeExchange(raw: bytes) returns (r: Result<ExchangeData, ExchangeError>)
    ensures r == DecodedExchange(raw)
    ensures |raw| < 6 ==> r == Err(InvalidData)
    ensures |raw| >= 6 && At16(raw, 2) != |raw| ==> r == Err(LengthMismatch)
    ensures |raw| >= 6 && At16(raw, 2) == |raw| && At16(raw, |raw| - 2) != Crc16(raw[..|raw| - 2]) ==>
      r == Err(ExchangeCrcMismatch)
    ensures |raw| >= 6 && At16(raw, 2) == |raw| && At16(raw, |raw| - 2) == Crc16(raw[..|raw| - 2]) ==>
      r == if At16(raw, 0) == |raw| - 6 then Ok(ExchangeData(|raw| - 6, raw[4..|raw| - 2])) else Err(CountMismatch)
  {
    if |raw| < EXCHANGE_MIN_SIZE {
      return Err(InvalidData);
    }
    var dataLength := At16(raw, 2);
    if dataLength != |raw| {
      return Err(LengthMismatch);
    }
    var crcStored := At16(raw, |raw| - 2);
    var crcComputed := ComputeCrc16(raw[..|raw| - 2]);
    if crcStored != crcComputed {
      return Err(ExchangeCrcMismatch);
    }
    var numCommands := At16(raw, 0);
    var commandsLen := |raw| - EXCHANGE_MIN_SIZE;
    if numCommands != commandsLen {
      return Err(CountMismatch);
    }
    return Ok(ExchangeData(numCommands, raw[4..4 + commandsLen]));
  }

  lemma BodyFields(body: bytes, commands: bytes)
    ensures body == ExchangeBody(commands) <==>
      && |body| == 4 + |commands|
      && At16(body, 0) == ToU16(|commands|)
      && At16(body, 2) == ToU16(EXCHANGE_MIN_SIZE + |commands|)
      && body[4..] == commands
  {
    if |body| == 4 + |commands| {
      var n, l := ToU16(|commands|), ToU16(EXCHANGE_MIN_SIZE + |commands|);
      Be16RoundTrip(body, 0, n);
      Be16RoundTrip(body, 2, l);
      assert body == (body[0..2] + body[2..4]) + body[4..];
      SameHalves(body[0..2] + body[2..4], body[4..], Be16(n) + Be16(l), commands);
      SameHalves(body[0..2], body[2..4], Be16(n), Be16(l));
    }
  }

  /** A block is the encoding of a command string exactly when its fields say so and it is sealed. */
  lemma ExchangeFields(raw: bytes, ed: ExchangeData)
    ensures raw == EncodedExchange(ed) <==>
      && |raw| == EXCHANGE_MIN_SIZE + |ed.commands|
      && At16(raw, 0) == ToU16(|ed.commands|)
      && At16(raw, 2) == ToU16(EXCHANGE_MIN_SIZE + |ed.commands|)
      && raw[4..|raw| - 2] == ed.commands
      && Sealed(raw)
  {
    if |raw| == EXCHANGE_MIN_SIZE + |ed.commands| {
      var body := raw[..|raw| - 2];
      BodyFields(body, ed.commands);
      assert body[4..] == raw[4..|raw| - 2];
      SealedSplit(raw, ExchangeBody(ed.commands));
    }
  }

  /**
   * A block is accepted exactly when it is the encoding of its command string, the count is the number of
   * command bytes, and the whole fits the 16-bit length field.
   */
  lemma ExchangeCodec(raw: bytes, ed: ExchangeData)
    ensures DecodedExchange(raw) == Ok(ed) <==>
      raw == EncodedExchange(ed) && ed.numCommands == |ed.commands| <= MAX_COMMANDS
  {
    ExchangeFields(raw, ed);
    ToU16Exact(|ed.commands|);
    ToU16Exact(EXCHANGE_MIN_SIZE + |ed.commands|);
    if DecodedExchange(raw) == Ok(ed) {
      assert |ed.commands| == |raw| - EXCHANGE_MIN_SIZE;
    }
  }

  /** Encoding never fails, but a command string that overflows the length field is refused on arrival. */
  lemma ExchangeRoundTrip(ed: ExchangeData)
    ensures DecodedExchange(EncodedExchange(ed)) ==
      if |ed.commands| <= MAX_COMMANDS then Ok(ExchangeData(|ed.commands|, ed.commands)) else Err(LengthMismatch)
  {
    ExchangeFields(EncodedExchange(ed), ed);
    if |ed.commands| <= MAX_COMMANDS {
      ExchangeCodec(EncodedExchange(ed), ExchangeData(|ed.commands|, ed.commands));
    }
  }

  /** No odd number of flipped bits in an accepted block, checksum included, survives. */
  lemma OddExchangeRejected(p: bytes, q: bytes)
    requires DecodedExchange(p).Ok? && |q| == |p|
    requires Distance(Stream(p), Stream(q)) % 2 == 1
    ensures DecodedExchange(q).Err?
  {
    OddErrorsDetected(p, q);
  }

  /** Nor does any burst of at most 16 bits before the checksum. */
  lemma BurstExchangeRejected(p: bytes, q: bytes, at: nat)
    requires DecodedExchange(p).Ok? && |q| == |p| && q != p && q[|p| - 2..] == p[|p| - 2..]
    requires DifferOnlyIn(Stream(p[..|p| - 2]), Stream(q[..|p| - 2]), at, 16)
    ensures DecodedExchange(q).Err?
  {
    SealedBurstDetected(p, q, at);
  }

  lemma HeaderFields(p: bytes, q: bytes)
    requires |p| == |q| >= EXCHANGE_MIN_SIZE
    ensures p[..4] == q[..4] <==> At16(p, 0) == At16(q, 0) && At16(p, 2) == At16(q, 2)
  {
    Be16RoundTrip(p, 0, At16(q, 0));
    Be16RoundTrip(p, 2, At16(q, 2));
    Be16RoundTrip(q, 0, At16(q, 0));
    Be16RoundTrip(q, 2, At16(q, 2));
    assert p[..4] == p[0..2] + p[2..4] && q[..4] == q[0..2] + q[2..4];
    SameHalves(p[0..2], p[2..4], q[0..2], q[2..4]);
  }

  /** The exact condition for any corruption of a block, checksum included, to be accepted. */
  lemma ExchangeCorruptionJudged(p: bytes, q: bytes)
    requires DecodedExchange(p).Ok? && |q| == |p|
    ensures DecodedExchange(q).Ok? <==> Unnoticed(p, q) && q[..4] == p[..4]
  {
    SealedAfterError(p, q);
    HeaderFields(p, q);
  }

  /** A burst of at most 8 bits is rejected wherever it is. */
  lemma ShortBurstExchangeRejected(p: bytes, q: bytes, at: nat)
    requires DecodedExchange(p).Ok? && |q| == |p| && q != p && DifferOnlyIn(Stream(p), Stream(q), at, 8)
    ensures DecodedExchange(q).Err?
  {
    ShortBurstDetected(p, q, at);
  }

  /** Every block that has commands has a burst of 9 bits after which it is accepted. */
  lemma NineBitsExchangeAccepted(p: bytes) returns (q: bytes)
    requires DecodedExchange(p).Ok? && |p| > EXCHANGE_MIN_SIZE
    ensures |q| == |p| && q != p && DifferOnlyIn(Stream(p), Stream(q), 8 * (|p| - 3), 9)
    ensures DecodedExchange(q).Ok?
  {
    q := NineBitPartner(p);
    NineBitsUnnoticed(p, q);
    NineBitWindow(p, q);
    NineBitsDiffer(p, q);
    NineBitsFront(p, q);
    var n := |p| - 3;
    assert forall i :: 0 <= i < 4 ==> p[i] == p[..n][i] && q[i] == q[..n][i];
  }
}
