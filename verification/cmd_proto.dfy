/** unix_domain/lib/cmd_proto.cpp: commands, their TLV fields, and command sequences. */
module CmdProto {
  import opened Bytes

  datatype CmdId = ROUTE_ADD | ROUTE_DEL | ROUTE_LIST {
    function Code(): byte {
      match this
      case ROUTE_ADD => 0x01
      case ROUTE_DEL => 0x02
      case ROUTE_LIST => 0x03
    }
  }

  datatype CmdError = InvalidCommand | UnknownCommand | MissingField | InvalidField

  /** The decoder keeps any field identifier byte, known or not. */
  datatype Field = Field(fieldId: byte, data: bytes)

  datatype Command = Command(cmdId: CmdId, fields: seq<Field>, rawPayload: bytes)

  const CMD_HEADER_SIZE := 3
  const FIELD_HEADER_SIZE := 2
  const MAX_PAYLOAD := 0xFFFF

  function IdOfCode(b: byte): Option<CmdId> {
    if b == 0x01 then Some(ROUTE_ADD)
    else if b == 0x02 then Some(ROUTE_DEL)
    else if b == 0x03 then Some(ROUTE_LIST)
    else None
  }

  // ----- fields

  function SerializedField(f: Field): bytes {
    [f.fieldId, ToU8(|f.data|)] + f.data
  }

  function Serialized(fs: seq<Field>): bytes {
    if fs == [] then [] else SerializedField(fs[0]) + Serialized(fs[1..])
  }

  /** Each field is written as its identifier, the low byte of its length, and its data. */
  lemma {:induction false} FieldLayout(fs: seq<Field>, f: Field)
    ensures Serialized([]) == []
    ensures Serialized(fs + [f]) == Serialized(fs) + [f.fieldId, |f.data| % 0x100] + f.data
  {
    if fs == [] {
      assert fs + [f] == [f] && Serialized([f][1..]) == [];
    } else {
      assert (fs + [f])[1..] == fs[1..] + [f];
      FieldLayout(fs[1..], f);
    }
  }

  /** A remainder in which no further field fits: a cut-off header or cut-off data. */
  predicate Truncated(s: bytes) {
    |s| < FIELD_HEADER_SIZE || |s| - FIELD_HEADER_SIZE < s[1]
  }

  /** Best-effort parsing: all leading fields, stopping quietly at a truncated one. */
  function ParsedFields(s: bytes): seq<Field> {
    if Truncated(s) then []
    else [Field(s[0], s[2..2 + s[1]])] + ParsedFields(s[2 + s[1]..])
  }

  /** The bytes best-effort parsing leaves behind. */
  function Leftover(s: bytes): bytes {
    if Truncated(s) then s else Leftover(s[2 + s[1]..])
  }

  predicate SmallFields(fs: seq<Field>) {
    forall f :: f in fs ==> |f.data| <= 0xFF
  }

  /** For any bytes whatever, the parsed fields re-serialise to a prefix, and what remains is a truncated entry. */
  lemma {:induction false} BestEffort(s: bytes)
    ensures s == Serialized(ParsedFields(s)) + Leftover(s)
    ensures Truncated(Leftover(s)) && SmallFields(ParsedFields(s))
  {
    if !Truncated(s) {
      var rest := s[2 + s[1]..];
      var f := Field(s[0], s[2..2 + s[1]]);
      BestEffort(rest);
      FirstField(s, f, rest);
      ConcatAssoc(SerializedField(f), Serialized(ParsedFields(rest)), Leftover(rest));
    }
  }

  lemma FirstField(s: bytes, f: Field, rest: bytes)
    requires !Truncated(s) && f == Field(s[0], s[2..2 + s[1]]) && rest == s[2 + s[1]..]
    ensures s == SerializedField(f) + rest && |f.data| <= 0xFF
    ensures ParsedFields(s) == [f] + ParsedFields(rest) && Leftover(s) == Leftover(rest)
    ensures Serialized(ParsedFields(s)) == SerializedField(f) + Serialized(ParsedFields(rest))
  {
    assert ([f] + ParsedFields(rest))[1..] == ParsedFields(rest);
  }

  /** The parser finds exactly the fields that were serialised in front of a truncated entry. */
  lemma {:induction false} ParsedSerialized(fs: seq<Field>, rest: bytes)
    requires SmallFields(fs) && Truncated(rest)
    ensures ParsedFields(Serialized(fs) + rest) == fs && Leftover(Serialized(fs) + rest) == rest
  {
    if fs == [] {
      assert [] + rest == rest;
    } else {
      ParsedSerialized(fs[1..], rest);
      var h, later := SerializedField(fs[0]), Serialized(fs[1..]) + rest;
      ConcatAssoc(h, Serialized(fs[1..]), rest);
      var s := h + later;
      assert fs[0] in fs;
      assert s[1] == |fs[0].data|;
      assert s[2..2 + s[1]] == fs[0].data && s[2 + s[1]..] == later;
    }
  }

  /** A field list survives serialisation exactly when every field's length fits its one-byte length. */
  lemma FieldsRoundTrip(fs: seq<Field>)
    ensures ParsedFields(Serialized(fs)) == fs <==> SmallFields(fs)
  {
    if SmallFields(fs) {
      ParsedSerialized(fs, []);
      assert Serialized(fs) + [] == Serialized(fs);
    }
    BestEffort(Serialized(fs));
  }

  // ----- single commands

  /** What a command carries: its binary payload if it has one, otherwise its fields. */
  function PayloadOf(cmd: Command): bytes {
    if cmd.rawPayload != [] then cmd.rawPayload else Serialized(cmd.fields)
  }

  function EncodedCommand(cmd: Command): bytes {
    [cmd.cmdId.Code()] + Be16(ToU16(|PayloadOf(cmd)|)) + PayloadOf(cmd)
  }

  function FieldsSize(fs: seq<Field>): nat {
    if fs == [] then 0 else FIELD_HEADER_SIZE + |fs[0].data| + FieldsSize(fs[1..])
  }

  lemma {:induction false} SerializedSize(fs: seq<Field>)
    ensures |Serialized(fs)| == FieldsSize(fs)
  {
    if fs != [] {
      SerializedSize(fs[1..]);
    }
  }

  lemma CommandHeader(cmd: Command)
    ensures var out := EncodedCommand(cmd);
      out[3..] == PayloadOf(cmd) && out[1..3] == [(|out| - 3) / 0x100 % 0x100, (|out| - 3) % 0x100]
  {
    Be16Cast(|PayloadOf(cmd)|);
  }

  method EncodeCommand(cmd: Command) returns (out: bytes)
    ensures out == EncodedCommand(cmd)
    ensures |out| >= 3 && out[0] == match cmd.cmdId case ROUTE_ADD => 1 case ROUTE_DEL => 2 case ROUTE_LIST => 3
    ensures out[1..3] == [(|out| - 3) / 0x100 % 0x100, (|out| - 3) % 0x100]
    ensures out[3..] == if cmd.rawPayload != [] then cmd.rawPayload else Serialized(cmd.fields)
  {
    CommandHeader(cmd);
    out := [];
    if cmd.rawPayload != [] {
      out := out + [cmd.cmdId.Code()];
      out := out + Be16(ToU16(|cmd.rawPayload|));
      out := out + cmd.rawPayload;
      return;
    }
    var fieldsSize := 0;
    for i := 0 to |cmd.fields|
      invariant fieldsSize + FieldsSize(cmd.fields[i..]) == FieldsSize(cmd.fields)
    {
      fieldsSize := fieldsSize + FIELD_HEADER_SIZE + |cmd.fields[i].data|;
    }
    SerializedSize(cmd.fields);
    out := out + [cmd.cmdId.Code()];
    out := out + Be16(ToU16(fieldsSize));
    for i := 0 to |cmd.fields|
      invariant out + Serialized(cmd.fields[i..]) == EncodedCommand(cmd)
    {
      ghost var before, f := out, cmd.fields[i];
      out := out + [cmd.fields[i].fieldId];
      out := out + [ToU8(|cmd.fields[i].data|)];
      out := out + cmd.fields[i].data;
      assert out == before + SerializedField(f);
      ConcatAssoc(before, SerializedField(f), Serialized(cmd.fields[i + 1..]));
    }
  }

  /** The size a well-formed command occupies at the front of a buffer. */
  function CommandSize(raw: bytes): nat
    requires |raw| >= CMD_HEADER_SIZE
  {
    CMD_HEADER_SIZE + At16(raw, 1)
  }

  function DecodedCommand(raw: bytes): (r: Result<Command, CmdError>)
    ensures r.Ok? ==> CMD_HEADER_SIZE <= |raw| && CommandSize(raw) <= |raw|
  {
    if |raw| < CMD_HEADER_SIZE then Err(InvalidCommand)
    else if IdOfCode(raw[0]).None? then Err(UnknownCommand)
    else if |raw| < CommandSize(raw) then Err(InvalidCommand)
    else
      var payload := raw[CMD_HEADER_SIZE..CommandSize(raw)];
      Ok(Command(IdOfCode(raw[0]).value, ParsedFields(payload), payload))
  }

  lemma ParsedStep(s: bytes, pos: nat)
    requires pos + FIELD_HEADER_SIZE <= |s|
    requires pos + FIELD_HEADER_SIZE + s[pos + 1] <= |s|
    ensures ParsedFields(s[pos..]) ==
      [Field(s[pos], s[pos + 2..pos + 2 + s[pos + 1]])] + ParsedFields(s[pos + 2 + s[pos + 1]..])
  {
    var t := s[pos..];
    assert t[2..2 + t[1]] == s[pos + 2..pos + 2 + s[pos + 1]] && t[2 + t[1]..] == s[pos + 2 + s[pos + 1]..];
  }

  lemma NothingParsed(payload: bytes, pos: nat, fields: seq<Field>)
    requires pos <= |payload|
    requires |payload| < pos + FIELD_HEADER_SIZE || |payload| < pos + FIELD_HEADER_SIZE + payload[pos + 1]
    ensures fields + ParsedFields(payload[pos..]) == fields
  {
    assert Truncated(payload[pos..]);
  }

  lemma FieldTaken(payload: bytes, pos: nat, fields: seq<Field>, f: Field, next: nat)
    requires pos + FIELD_HEADER_SIZE <= |payload| && next == pos + FIELD_HEADER_SIZE + payload[pos + 1] <= |payload|
    requires f == Field(payload[pos], payload[pos + FIELD_HEADER_SIZE..next])
    ensures fields + [f] + ParsedFields(payload[next..]) == fields + ParsedFields(payload[pos..])
  {
    ParsedStep(payload, pos);
    ConcatAssoc(fields, [f], ParsedFields(payload[next..]));
  }

  /** The field loop of the decoder: `payload` is the part of the buffer between the header and `end`. */
  method ParseFields(payload: bytes) returns (fields: seq<Field>)
    ensures fields == ParsedFields(payload)
  {
    fields := [];
    var pos := 0;
    assert payload[0..] == payload;
    while pos < |payload|
      invariant pos <= |payload|
      invariant fields + ParsedFields(payload[pos..]) == ParsedFields(payload)
      decreases |payload| - pos
    {
      if |payload| - pos < FIELD_HEADER_SIZE {
        NothingParsed(payload, pos, fields);
        return;
      }
      var fieldId, fieldLen := payload[pos], payload[pos + 1];
      var start := pos + FIELD_HEADER_SIZE;
      if |payload| - start < fieldLen {
        NothingParsed(payload, pos, fields);
        return;
      }
      var f := Field(fieldId, payload[start..start + fieldLen]);
      FieldTaken(payload, pos, fields, f, start + fieldLen);
      pos := start + fieldLen;
      fields := fields + [f];
    }
    NothingParsed(payload, pos, fields);
  }

  method DecodeCommand(raw: bytes) returns (r: Result<Command, CmdError>)
    ensures r == DecodedCommand(raw)
    ensures |raw| < 3 ==> r == Err(InvalidCommand)
    ensures |raw| >= 3 && raw[0] !in {1, 2, 3} ==> r == Err(UnknownCommand)
    ensures |raw| >= 3 && raw[0] in {1, 2, 3} ==>
      if |raw| < 3 + At16(raw, 1) then r == Err(InvalidCommand)
      else r.Ok? && r.value.rawPayload == raw[3..3 + At16(raw, 1)]
  {
    if |raw| < CMD_HEADER_SIZE {
      return Err(InvalidCommand);
    }
    var cmdId := IdOfCode(raw[0]);
    if cmdId.None? {
      return Err(UnknownCommand);
    }
    var dataLen := At16(raw, 1);
    if |raw| < CMD_HEADER_SIZE + dataLen {
      return Err(InvalidCommand);
    }
    var payload := raw[CMD_HEADER_SIZE..CMD_HEADER_SIZE + dataLen];
    var fields := ParseFields(payload);
    return Ok(Command(cmdId.value, fields, payload));
  }

  /** What the receiver of a command holds: its payload, and the fields found in it. */
  function AsReceived(cmd: Command): Command {
    Command(cmd.cmdId, ParsedFields(PayloadOf(cmd)), PayloadOf(cmd))
  }

  /** Commands as the decoder produces them. */
  predicate Canonical(cmd: Command) {
    |cmd.rawPayload| <= MAX_PAYLOAD && cmd.fields == ParsedFields(cmd.rawPayload)
  }

  /**
   * Encoding then decoding never fails, whatever follows on the wire, and yields the received form exactly
   * when the payload fits the 16-bit length; a longer payload arrives cut off.
   */
  lemma CommandRoundTrip(cmd: Command, more: bytes)
    ensures var r := DecodedCommand(EncodedCommand(cmd) + more);
      && r.Ok?
      && (r.value == AsReceived(cmd) <==> |PayloadOf(cmd)| <= MAX_PAYLOAD)
      && (|PayloadOf(cmd)| <= MAX_PAYLOAD ==> CommandSize(EncodedCommand(cmd) + more) == |EncodedCommand(cmd)|)
  {
    var p := PayloadOf(cmd);
    var n := ToU16(|p|);
    var raw := EncodedCommand(cmd) + more;
    assert raw[1..3] == Be16(n);
    Be16RoundTrip(raw, 1, n);
    ToU16Exact(|p|);
    assert raw[3..3 + n] == p[..n];
    if |p| <= MAX_PAYLOAD {
      assert p[..n] == p;
    }
  }

  /** A buffer that starts with a decodable command starts with that command's encoding. */
  lemma CommandCanonical(raw: bytes)
    requires DecodedCommand(raw).Ok?
    ensures Canonical(DecodedCommand(raw).value)
    ensures EncodedCommand(DecodedCommand(raw).value) == raw[..CommandSize(raw)]
  {
    var cmd := DecodedCommand(raw).value;
    var n := At16(raw, 1);
    var p := cmd.rawPayload;
    assert PayloadOf(cmd) == p;
    Be16RoundTrip(raw, 1, n);
    assert raw[..CommandSize(raw)] == [raw[0]] + raw[1..3] + p;
  }

  // ----- command sequences

  function DecodedCommands(raw: bytes): Result<seq<Command>, CmdError>
    decreases |raw|
  {
    if raw == [] then Ok([])
    else
      var c := DecodedCommand(raw);
      if c.Err? then Err(c.error) else Prepend([c.value], DecodedCommands(raw[CommandSize(raw)..]))
  }

  /** Where the command at `pos` ends. */
  function NextCommand(raw: bytes, pos: nat): nat
    requires pos + CMD_HEADER_SIZE <= |raw|
  {
    pos + CMD_HEADER_SIZE + At16(raw, pos + 1)
  }

  lemma CommandTaken(raw: bytes, pos: nat, taken: seq<Command>, cmd: Command)
    requires pos < |raw| && DecodedCommand(raw[pos..]) == Ok(cmd)
    ensures pos + CMD_HEADER_SIZE <= |raw| && NextCommand(raw, pos) <= |raw|
    ensures Prepend(taken, DecodedCommands(raw[pos..]))
         == Prepend(taken + [cmd], DecodedCommands(raw[NextCommand(raw, pos)..]))
  {
    var sub := raw[pos..];
    assert sub[CommandSize(sub)..] == raw[pos + CommandSize(sub)..];
    PrependTwice(taken, [cmd], DecodedCommands(sub[CommandSize(sub)..]));
  }

  lemma CommandRefused(raw: bytes, pos: nat, taken: seq<Command>, e: CmdError)
    requires pos < |raw| && DecodedCommand(raw[pos..]) == Err(e)
    ensures Prepend(taken, DecodedCommands(raw[pos..])) == Err(e)
  {
  }

  lemma CommandsDone(raw: bytes, pos: nat, taken: seq<Command>)
    requires pos == |raw|
    ensures Prepend(taken, DecodedCommands(raw[pos..])) == Ok(taken)
  {
    assert raw[pos..] == [] && taken + [] == taken;
  }

  method DecodeCommands(raw: bytes) returns (r: Result<seq<Command>, CmdError>)
    ensures r == DecodedCommands(raw)
  {
    var result: seq<Command> := [];
    var pos := 0;
    assert raw[0..] == raw;
    PrependNothing(DecodedCommands(raw));
    while pos < |raw|
      invariant pos <= |raw|
      invariant DecodedCommands(raw) == Prepend(result, DecodedCommands(raw[pos..]))
      decreases |raw| - pos
    {
      var res := DecodeCommand(raw[pos..]);
      if res.Err? {
        CommandRefused(raw, pos, result, res.error);
        return Err(res.error);
      }
      CommandTaken(raw, pos, result, res.value);
      result := result + [res.value];
      pos := NextCommand(raw, pos);
    }
    CommandsDone(raw, pos, result);
    return Ok(result);
  }

  function EncodedCommands(cs: seq<Command>): bytes {
    if cs == [] then [] else EncodedCommand(cs[0]) + EncodedCommands(cs[1..])
  }

  function AllAsReceived(cs: seq<Command>): (rs: seq<Command>)
    ensures |rs| == |cs|
    ensures forall i :: 0 <= i < |cs| ==> rs[i] == AsReceived(cs[i])
  {
    if cs == [] then [] else [AsReceived(cs[0])] + AllAsReceived(cs[1..])
  }

  /** Any list of commands with payloads that fit is received in order, each in its received form. */
  lemma {:induction false} CommandsRoundTrip(cs: seq<Command>)
    requires forall c :: c in cs ==> |PayloadOf(c)| <= MAX_PAYLOAD
    ensures DecodedCommands(EncodedCommands(cs)) == Ok(AllAsReceived(cs))
  {
    if cs != [] {
      var first, later := EncodedCommand(cs[0]), EncodedCommands(cs[1..]);
      CommandsRoundTrip(cs[1..]);
      CommandRoundTrip(cs[0], later);
      assert (first + later)[|first|..] == later;
    }
  }

  /** A part that is refused behind acceptable commands refuses the whole, with its own error. */
  lemma {:induction false} CommandsRefused(cs: seq<Command>, rest: bytes)
    requires forall c :: c in cs ==> |PayloadOf(c)| <= MAX_PAYLOAD
    requires rest != [] && DecodedCommand(rest).Err?
    ensures DecodedCommands(EncodedCommands(cs) + rest) == Err(DecodedCommand(rest).error)
  {
    if cs == [] {
      assert EncodedCommands(cs) + rest == rest;
    } else {
      var first, later := EncodedCommand(cs[0]), EncodedCommands(cs[1..]) + rest;
      CommandsRefused(cs[1..], rest);
      CommandRoundTrip(cs[0], later);
      ConcatAssoc(first, EncodedCommands(cs[1..]), rest);
      assert (first + later)[|first|..] == later;
    }
  }

  /** Whatever byte string decodes is the concatenated encoding of the canonical commands it decodes to. */
  lemma {:induction false} CommandsCanonical(raw: bytes)
    requires DecodedCommands(raw).Ok?
    ensures EncodedCommands(DecodedCommands(raw).value) == raw
    ensures forall c :: c in DecodedCommands(raw).value ==> Canonical(c)
    decreases |raw|
  {
    if raw != [] {
      var n := CommandSize(raw);
      CommandCanonical(raw);
      CommandsCanonical(raw[n..]);
      var cs := DecodedCommands(raw).value;
      assert cs[1..] == DecodedCommands(raw[n..]).value;
      SplitAt(raw, n);
    }
  }

  /** Decoding a sequence and encoding it are inverse between accepted byte strings and canonical commands. */
  lemma CommandsCodec(raw: bytes, cs: seq<Command>)
    ensures DecodedCommands(raw) == Ok(cs) <==>
      raw == EncodedCommands(cs) && forall c :: c in cs ==> Canonical(c)
  {
    if DecodedCommands(raw) == Ok(cs) {
      CommandsCanonical(raw);
    }
    if raw == EncodedCommands(cs) && forall c :: c in cs ==> Canonical(c) {
      forall c | c in cs
        ensures |PayloadOf(c)| <= MAX_PAYLOAD && AsReceived(c) == c
      {
        assert Canonical(c);
        assert c.rawPayload == [] ==> c.fields == [];
      }
      CommandsRoundTrip(cs);
      assert AllAsReceived(cs) == cs;
    }
  }
}
