/**
 * unix_domain/lib/ud_proto.cpp: octet stuffing, packet payloads, frames and the stream scanner.
 * Each method follows the source's loop and is proved against the function named after its result.
 */
module UdProto {
  import opened Bytes
  import opened Crc

  const FRAME_DELIM: byte := 0x7E
  const ESCAPE_BYTE: byte := 0x7D
  const ESC_DELIM: byte := 0x5E
  const ESC_ESCAPE: byte := 0x5D
  const HEADER_SIZE := 10
  const CRC_SIZE := 2
  const MIN_PAYLOAD := HEADER_SIZE + CRC_SIZE

  datatype ProtoError = InvalidFrame | BadLength | CrcMismatch | BufferTooSmall | IncompleteFrame

  datatype Packet = Packet(length: u32, pktNum: u16, totalPkts: u16, ctrl: u16, data: bytes)

  datatype Response = Response(length: u32, pktNum: u16, totalPkts: u16, ctrl: u16, status: byte)

  // ----- octet stuffing

  function StuffedByte(b: byte): bytes {
    if b == FRAME_DELIM then [ESCAPE_BYTE, ESC_DELIM]
    else if b == ESCAPE_BYTE then [ESCAPE_BYTE, ESC_ESCAPE]
    else [b]
  }

  function Stuffed(raw: bytes): bytes {
    if raw == [] then [] else StuffedByte(raw[0]) + Stuffed(raw[1..])
  }

  lemma {:induction false} StuffedSnoc(raw: bytes, b: byte)
    ensures Stuffed(raw + [b]) == Stuffed(raw) + StuffedByte(b)
  {
    if raw == [] {
      assert raw + [b] == [b] && Stuffed([b][1..]) == [];
    } else {
      assert (raw + [b])[1..] == raw[1..] + [b];
      StuffedSnoc(raw[1..], b);
    }
  }

  method Stuff(raw: bytes) returns (out: bytes)
    ensures out == Stuffed(raw)
  {
    out := [];
    for i := 0 to |raw|
      invariant out == Stuffed(raw[..i])
    {
      var b := raw[i];
      assert raw[..i + 1] == raw[..i] + [b];
      StuffedSnoc(raw[..i], b);
      if b == FRAME_DELIM {
        out := out + [ESCAPE_BYTE];
        out := out + [ESC_DELIM];
      } else if b == ESCAPE_BYTE {
        out := out + [ESCAPE_BYTE];
        out := out + [ESC_ESCAPE];
      } else {
        out := out + [b];
      }
    }
    assert raw[..|raw|] == raw;
  }

  /** Unstuffing with one byte of lookahead; the source's flag-driven loop refines it. */
  function Destuffed(s: bytes): Result<bytes, ProtoError> {
    if s == [] then Ok([])
    else if s[0] != ESCAPE_BYTE then Prepend([s[0]], Destuffed(s[1..]))
    else if |s| >= 2 && s[1] == ESC_DELIM then Prepend([FRAME_DELIM], Destuffed(s[2..]))
    else if |s| >= 2 && s[1] == ESC_ESCAPE then Prepend([ESCAPE_BYTE], Destuffed(s[2..]))
    else Err(InvalidFrame)
  }

  method Destuff(stuffed: bytes) returns (r: Result<bytes, ProtoError>)
    ensures r == Destuffed(stuffed)
  {
    var out: bytes := [];
    var escaped := false;
    assert stuffed[0..] == stuffed && Prepend(out, Destuffed(stuffed)) == Destuffed(stuffed) by {
      PrependNothing(Destuffed(stuffed));
    }
    for i := 0 to |stuffed|
      invariant escaped ==> i > 0 && stuffed[i - 1] == ESCAPE_BYTE
      invariant Destuffed(stuffed) == Prepend(out, Destuffed(stuffed[if escaped then i - 1 else i..]))
    {
      var b := stuffed[i];
      ghost var rest := stuffed[if escaped then i - 1 else i..];
      if escaped {
        assert rest[2..] == stuffed[i + 1..];
        if b == ESC_DELIM {
          PrependTwice(out, [FRAME_DELIM], Destuffed(rest[2..]));
          out := out + [FRAME_DELIM];
        } else if b == ESC_ESCAPE {
          PrependTwice(out, [ESCAPE_BYTE], Destuffed(rest[2..]));
          out := out + [ESCAPE_BYTE];
        } else {
          return Err(InvalidFrame);
        }
        escaped := false;
      } else if b == ESCAPE_BYTE {
        escaped := true;
      } else {
        PrependTwice(out, [b], Destuffed(rest[1..]));
        assert rest[1..] == stuffed[i + 1..];
        out := out + [b];
      }
    }
    if escaped {
      return Err(InvalidFrame);
    }
    assert stuffed[|stuffed|..] == [] && out + [] == out;
    return Ok(out);
  }

  predicate DelimFree(s: bytes) {
    FRAME_DELIM !in s
  }

  lemma {:induction false} StuffedDelimFree(raw: bytes)
    ensures DelimFree(Stuffed(raw))
  {
    if raw != [] {
      StuffedDelimFree(raw[1..]);
    }
  }

  lemma {:induction false} DestuffedStuffed(raw: bytes)
    ensures Destuffed(Stuffed(raw)) == Ok(raw)
  {
    if raw != [] {
      DestuffedStuffed(raw[1..]);
      var s := Stuffed(raw);
      if raw[0] == FRAME_DELIM || raw[0] == ESCAPE_BYTE {
        assert s[2..] == Stuffed(raw[1..]);
      } else {
        assert s[1..] == Stuffed(raw[1..]);
      }
      assert [raw[0]] + raw[1..] == raw;
    }
  }

  /** Unstuffing accepts bare delimiters; of the inputs it accepts, exactly the delimiter-free ones are stuffed data. */
  lemma {:induction false} StuffedDestuffed(s: bytes)
    requires Destuffed(s).Ok?
    ensures Stuffed(Destuffed(s).value) == s <==> DelimFree(s)
  {
    StuffedDelimFree(Destuffed(s).value);
    if DelimFree(s) {
      RestuffDelimFree(s);
    }
  }

  lemma {:induction false} RestuffDelimFree(s: bytes)
    requires Destuffed(s).Ok? && DelimFree(s)
    ensures Stuffed(Destuffed(s).value) == s
  {
    if s != [] {
      var k := if s[0] == ESCAPE_BYTE then 2 else 1;
      RestuffDelimFree(s[k..]);
      var v := Destuffed(s).value;
      assert v[1..] == Destuffed(s[k..]).value;
      assert s == s[..k] + s[k..];
      assert StuffedByte(v[0]) == s[..k];
    }
  }

  /** What each byte becomes on the wire. */
  lemma StuffingTable(raw: bytes, b: byte)
    ensures Stuffed([]) == []
    ensures Stuffed(raw + [b]) ==
      Stuffed(raw) + if b == 0x7E then [0x7D, 0x5E] else if b == 0x7D then [0x7D, 0x5D] else [b]
  {
    StuffedSnoc(raw, b);
  }

  /** Behind complete stuffed data, an escape byte stands at k with nothing it can escape after it. */
  predicate BadEscape(s: bytes, k: nat) {
    && k < |s| && Destuffed(s[..k]).Ok? && s[k] == 0x7D
    && (k + 1 == |s| || (s[k + 1] != 0x5E && s[k + 1] != 0x5D))
  }

  /** The first byte of s, or its first two, stand for one byte. */
  predicate GoodHead(s: bytes, n: nat) {
    && 1 <= n <= |s| && n == (if s[0] == 0x7D then 2 else 1)
    && (n == 2 ==> s[1] == 0x5E || s[1] == 0x5D)
  }

  lemma BehindHead(s: bytes, n: nat)
    requires GoodHead(s, n)
    ensures Destuffed(s).Err? <==> Destuffed(s[n..]).Err?
    ensures Destuffed(s).Err? ==> Destuffed(s) == Destuffed(s[n..])
  {
  }

  lemma BadEscapeLater(s: bytes, n: nat, k: nat)
    requires GoodHead(s, n) && k + n < |s|
    ensures BadEscape(s, k + n) <==> BadEscape(s[n..], k)
  {
    var t := s[..k + n];
    assert Destuffed(t).Ok? <==> Destuffed(s[n..][..k]).Ok? by {
      assert t[n..] == s[n..][..k];
      BehindHead(t, n);
    }
  }

  /** Unstuffing fails on such an escape byte, at the end of the data included, and on nothing else. */
  lemma {:induction false} DestuffRefuses(s: bytes)
    ensures Destuffed(s).Err? <==> exists k: nat :: BadEscape(s, k)
    ensures Destuffed(s).Err? ==> Destuffed(s).error == InvalidFrame
  {
    if s != [] {
      if s[0] == 0x7D && (|s| == 1 || (s[1] != 0x5E && s[1] != 0x5D)) {
        assert s[..0] == [] && BadEscape(s, 0);
      } else {
        var n := if s[0] == 0x7D then 2 else 1;
        DestuffRefuses(s[n..]);
        BehindHead(s, n);
        assert n == 2 ==> s[..1] == [0x7D] && Destuffed(s[..1]).Err?;
        if Destuffed(s).Err? {
          var k: nat :| BadEscape(s[n..], k);
          BadEscapeLater(s, n, k);
        } else if k: nat :| BadEscape(s, k) {
          BadEscapeLater(s, n, k - n);
        }
      }
    }
  }

  // ----- packet payloads

  function Header(length: u32, pktNum: u16, totalPkts: u16, ctrl: u16): (h: bytes)
    ensures |h| == HEADER_SIZE
  {
    Be32(length) + Be16(pktNum) + Be16(totalPkts) + Be16(ctrl)
  }

  function PacketOf(raw: bytes): Packet
    requires |raw| >= MIN_PAYLOAD
  {
    Packet(At32(raw, 0), At16(raw, 4), At16(raw, 6), At16(raw, 8), raw[HEADER_SIZE..|raw| - CRC_SIZE])
  }

  function Payload(length: u32, pktNum: u16, totalPkts: u16, ctrl: u16, data: bytes): bytes {
    var body := Header(length, pktNum, totalPkts, ctrl) + data;
    body + Be16(Crc16(body))
  }

  method BuildRequestPayload(length: u32, pktNum: u16, totalPkts: u16, ctrl: u16, data: bytes)
    returns (payload: bytes)
    ensures payload == Payload(length, pktNum, totalPkts, ctrl, data)
  {
    payload := Be32(length);
    payload := payload + Be16(pktNum);
    payload := payload + Be16(totalPkts);
    payload := payload + Be16(ctrl);
    payload := payload + data;
    var checksum := ComputeCrc16(payload);
    payload := payload + Be16(checksum);
  }

  /** A byte string is the payload of given fields exactly when it reads back as those fields and is sealed. */
  lemma PayloadFields(raw: bytes, length: u32, pktNum: u16, totalPkts: u16, ctrl: u16, data: bytes)
    ensures raw == Payload(length, pktNum, totalPkts, ctrl, data) <==>
      && |raw| >= MIN_PAYLOAD
      && PacketOf(raw) == Packet(length, pktNum, totalPkts, ctrl, data)
      && Sealed(raw)
  {
    if |raw| == MIN_PAYLOAD + |data| {
      var n := |raw| - CRC_SIZE;
      var h := raw[..HEADER_SIZE];
      assert h == Header(length, pktNum, totalPkts, ctrl) <==>
        At32(raw, 0) == length && At16(raw, 4) == pktNum && At16(raw, 6) == totalPkts && At16(raw, 8) == ctrl by {
        HeaderSlices(h, length, pktNum, totalPkts, ctrl);
        Be32RoundTrip(h, 0, length);
        Be16RoundTrip(h, 4, pktNum);
        Be16RoundTrip(h, 6, totalPkts);
        Be16RoundTrip(h, 8, ctrl);
      }
      assert raw[..n] == h + raw[HEADER_SIZE..n];
      SameHalves(h, raw[HEADER_SIZE..n], Header(length, pktNum, totalPkts, ctrl), data);
      SealedSplit(raw, Header(length, pktNum, totalPkts, ctrl) + data);
    }
  }

  lemma HeaderSlices(h: bytes, length: u32, pktNum: u16, totalPkts: u16, ctrl: u16)
    requires |h| == HEADER_SIZE
    ensures h == Header(length, pktNum, totalPkts, ctrl) <==>
      h[0..4] == Be32(length) && h[4..6] == Be16(pktNum) && h[6..8] == Be16(totalPkts) && h[8..10] == Be16(ctrl)
  {
    assert h == h[0..4] + h[4..6] + h[6..8] + h[8..10];
    var a, b, c, d := Be32(length), Be16(pktNum), Be16(totalPkts), Be16(ctrl);
    SameHalves(h[0..4] + h[4..6] + h[6..8], h[8..10], a + b + c, d);
    SameHalves(h[0..4] + h[4..6], h[6..8], a + b, c);
    SameHalves(h[0..4], h[4..6], a, b);
  }

  function Framed(raw: bytes): bytes {
    [FRAME_DELIM] + Stuffed(raw) + [FRAME_DELIM]
  }

  method Frame(raw: bytes) returns (frame: bytes)
    ensures frame == Framed(raw)
  {
    var stuffed := Stuff(raw);
    frame := [];
    frame := frame + [FRAME_DELIM];
    frame := frame + stuffed;
    frame := frame + [FRAME_DELIM];
  }

  // ----- encoding

  /** The length field a packet carrying n data bytes gets when the caller leaves it at zero. */
  function TotalLength(n: nat): (l: u32)
    ensures MIN_PAYLOAD + n < 0x1_0000_0000 ==> l == MIN_PAYLOAD + n
  {
    ToU32(HEADER_SIZE + n + CRC_SIZE)
  }

  function LengthField(length: u32, n: nat): u32 {
    if length != 0 then length else TotalLength(n)
  }

  function EncodedPacket(pkt: Packet): bytes {
    Framed(Payload(LengthField(pkt.length, |pkt.data|), pkt.pktNum, pkt.totalPkts, pkt.ctrl, pkt.data))
  }

  method EncodePacket(pkt: Packet) returns (frame: bytes)
    ensures frame == EncodedPacket(pkt)
  {
    var totalLen := ToU32(HEADER_SIZE + |pkt.data| + CRC_SIZE);
    var lengthField := if pkt.length != 0 then pkt.length else totalLen;
    var raw := BuildRequestPayload(lengthField, pkt.pktNum, pkt.totalPkts, pkt.ctrl, pkt.data);
    frame := Frame(raw);
  }

  /**
   * A packet on the wire: length, number, total and control word, each highest byte first, the data, the
   * checksum of all of these, and delimiters around it. A length of zero is filled in.
   */
  lemma PacketLayout(pkt: Packet, l: u32, body: bytes)
    requires l == if pkt.length != 0 then pkt.length else (12 + |pkt.data|) % 0x1_0000_0000
    requires body == [l / 0x100_0000, l / 0x1_0000 % 0x100, l / 0x100 % 0x100, l % 0x100,
      pkt.pktNum / 0x100, pkt.pktNum % 0x100, pkt.totalPkts / 0x100, pkt.totalPkts % 0x100,
      pkt.ctrl / 0x100, pkt.ctrl % 0x100] + pkt.data
    ensures EncodedPacket(pkt) == [0x7E] + Stuffed(body + [Crc16(body) / 0x100, Crc16(body) % 0x100]) + [0x7E]
  {
    Be32Bytes(l);
    assert Header(l, pkt.pktNum, pkt.totalPkts, pkt.ctrl) + pkt.data == body;
    assert Be16(Crc16(body)) == [Crc16(body) / 0x100, Crc16(body) % 0x100];
  }

  /** A response is the packet whose only data byte is the status. */
  function PacketOfResponse(rsp: Response): Packet {
    Packet(rsp.length, rsp.pktNum, rsp.totalPkts, rsp.ctrl, [rsp.status])
  }

  function EncodedResponse(rsp: Response): bytes {
    EncodedPacket(PacketOfResponse(rsp))
  }

  method EncodeResponse(rsp: Response) returns (frame: bytes)
    ensures frame == EncodedResponse(rsp)
    ensures frame == EncodedPacket(Packet(rsp.length, rsp.pktNum, rsp.totalPkts, rsp.ctrl, [rsp.status]))
  {
    var totalLen := ToU32(HEADER_SIZE + 1 + CRC_SIZE);
    var lengthField := if rsp.length != 0 then rsp.length else totalLen;
    var raw := BuildRequestPayload(lengthField, rsp.pktNum, rsp.totalPkts, rsp.ctrl, [rsp.status]);
    frame := Frame(raw);
  }

  // ----- decoding

  /** The checks made on an unstuffed payload, in the source's order. */
  function CheckedPayload(raw: bytes): Result<bytes, ProtoError> {
    if |raw| < MIN_PAYLOAD then Err(BadLength)
    else if !Sealed(raw) then Err(CrcMismatch)
    else if At32(raw, 0) != ToU32(|raw|) then Err(BadLength)
    else Ok(raw)
  }

  function ExtractedPayload(frm: bytes): Result<bytes, ProtoError> {
    if |frm| < 2 || frm[0] != FRAME_DELIM || frm[|frm| - 1] != FRAME_DELIM then Err(InvalidFrame)
    else
      var inner := Destuffed(frm[1..|frm| - 1]);
      if inner.Err? then inner else CheckedPayload(inner.value)
  }

  method ExtractPayload(frm: bytes) returns (r: Result<bytes, ProtoError>)
    ensures r == ExtractedPayload(frm)
    ensures |frm| < 2 || frm[0] != 0x7E || frm[|frm| - 1] != 0x7E ==> r == Err(InvalidFrame)
    ensures |frm| >= 2 && frm[0] == 0x7E && frm[|frm| - 1] == 0x7E && Destuffed(frm[1..|frm| - 1]).Err? ==>
      r == Err(InvalidFrame)
    ensures |frm| >= 2 && frm[0] == 0x7E && frm[|frm| - 1] == 0x7E && Destuffed(frm[1..|frm| - 1]).Ok? ==>
      r == CheckedPayload(Destuffed(frm[1..|frm| - 1]).value)
  {
    if |frm| < 2 || frm[0] != FRAME_DELIM || frm[|frm| - 1] != FRAME_DELIM {
      return Err(InvalidFrame);
    }
    r := Destuff(frm[1..|frm| - 1]);
    DestuffRefuses(frm[1..|frm| - 1]);
    if r.Ok? {
      r := CheckPayload(r.value);
    }
  }

  method CheckPayload(raw: bytes) returns (r: Result<bytes, ProtoError>)
    ensures r == CheckedPayload(raw)
    ensures |raw| < 12 ==> r == Err(BadLength)
    ensures |raw| >= 12 && At16(raw, |raw| - 2) != Crc16(raw[..|raw| - 2]) ==> r == Err(CrcMismatch)
    ensures |raw| >= 12 && At16(raw, |raw| - 2) == Crc16(raw[..|raw| - 2]) ==>
      r == if At32(raw, 0) == |raw| % 0x1_0000_0000 then Ok(raw) else Err(BadLength)
  {
    if |raw| < MIN_PAYLOAD {
      return Err(BadLength);
    }
    var crcComputed := ComputeCrc16(raw[..|raw| - CRC_SIZE]);
    if At16(raw, |raw| - CRC_SIZE) != crcComputed {
      return Err(CrcMismatch);
    }
    if At32(raw, 0) != ToU32(|raw|) {
      return Err(BadLength);
    }
    return Ok(raw);
  }

  function DecodedPacket(frm: bytes): Result<Packet, ProtoError> {
    var payload := ExtractedPayload(frm);
    if payload.Err? then Err(payload.error) else Ok(PacketOf(payload.value))
  }

  method DecodePacket(frm: bytes) returns (r: Result<Packet, ProtoError>)
    ensures r == DecodedPacket(frm)
    ensures ExtractedPayload(frm).Err? ==> r == Err(ExtractedPayload(frm).error)
  {
    var payload := ExtractPayload(frm);
    if payload.Err? {
      return Err(payload.error);
    }
    var raw := payload.value;
    var dataStart, dataEnd := HEADER_SIZE, |raw| - CRC_SIZE;
    return Ok(Packet(At32(raw, 0), At16(raw, 4), At16(raw, 6), At16(raw, 8), raw[dataStart..dataEnd]));
  }

  function DecodedResponse(frm: bytes): Result<Response, ProtoError> {
    var payload := ExtractedPayload(frm);
    if payload.Err? then Err(payload.error)
    else
      var raw := payload.value;
      if |raw| - MIN_PAYLOAD != 1 then Err(BadLength)
      else Ok(Response(At32(raw, 0), At16(raw, 4), At16(raw, 6), At16(raw, 8), raw[HEADER_SIZE]))
  }

  method DecodeResponse(frm: bytes) returns (r: Result<Response, ProtoError>)
    ensures r == DecodedResponse(frm)
  {
    var payload := ExtractPayload(frm);
    if payload.Err? {
      return Err(payload.error);
    }
    var raw := payload.value;
    var dataLen := |raw| - MIN_PAYLOAD;
    if dataLen != 1 {
      return Err(BadLength);
    }
    return Ok(Response(At32(raw, 0), At16(raw, 4), At16(raw, 6), At16(raw, 8), raw[HEADER_SIZE]));
  }

  // ----- round trips

  lemma ExtractFramed(raw: bytes)
    ensures ExtractedPayload(Framed(raw)) == CheckedPayload(raw)
  {
    var f := Framed(raw);
    assert f[1..|f| - 1] == Stuffed(raw);
    DestuffedStuffed(raw);
  }

  /** What the checks say of a freshly built payload. */
  lemma CheckBuilt(length: u32, pktNum: u16, totalPkts: u16, ctrl: u16, data: bytes)
    ensures var raw := Payload(length, pktNum, totalPkts, ctrl, data);
      && CheckedPayload(raw) == (if length == TotalLength(|data|) then Ok(raw) else Err(BadLength))
      && |raw| == MIN_PAYLOAD + |data|
      && PacketOf(raw) == Packet(length, pktNum, totalPkts, ctrl, data)
  {
    PayloadFields(Payload(length, pktNum, totalPkts, ctrl, data), length, pktNum, totalPkts, ctrl, data);
  }

  /**
   * Decoding an encoded packet returns it with the length filled in, unless the caller supplied a
   * non-zero length that is not the real one: then, and only then, the frame is refused.
   */
  lemma PacketRoundTrip(pkt: Packet)
    ensures DecodedPacket(EncodedPacket(pkt)) ==
      var total := TotalLength(|pkt.data|);
      if pkt.length == 0 || pkt.length == total then Ok(pkt.(length := total)) else Err(BadLength)
  {
    var length := LengthField(pkt.length, |pkt.data|);
    CheckBuilt(length, pkt.pktNum, pkt.totalPkts, pkt.ctrl, pkt.data);
    ExtractFramed(Payload(length, pkt.pktNum, pkt.totalPkts, pkt.ctrl, pkt.data));
  }

  /** Decoding a response is decoding a packet and insisting on one data byte. */
  lemma ResponseIsPacket(f: bytes)
    ensures DecodedResponse(f) ==
      match DecodedPacket(f)
      case Err(e) => Err(e)
      case Ok(p) =>
        if |p.data| != 1 then Err(BadLength)
        else Ok(Response(p.length, p.pktNum, p.totalPkts, p.ctrl, p.data[0]))
  {
  }

  lemma ResponseRoundTrip(rsp: Response)
    ensures DecodedResponse(EncodedResponse(rsp)) ==
      if rsp.length == 0 || rsp.length == 13 then Ok(rsp.(length := 13)) else Err(BadLength)
  {
    PacketRoundTrip(PacketOfResponse(rsp));
    StatusOfPacket(EncodedResponse(rsp), rsp);
  }

  lemma StatusOfPacket(f: bytes, rsp: Response)
    requires DecodedPacket(f) ==
      if rsp.length == 0 || rsp.length == 13 then Ok(PacketOfResponse(rsp.(length := 13))) else Err(BadLength)
    ensures DecodedResponse(f) ==
      if rsp.length == 0 || rsp.length == 13 then Ok(rsp.(length := 13)) else Err(BadLength)
  {
    ResponseIsPacket(f);
  }

  /** Two delimiters with none in between: what the scanner hands to the decoder. */
  predicate Delimited(f: bytes) {
    |f| >= 2 && f[0] == FRAME_DELIM && f[|f| - 1] == FRAME_DELIM && DelimFree(f[1..|f| - 1])
  }

  /**
   * A frame that decodes is, byte for byte, the encoding of what it decodes to, exactly when it has no
   * delimiter inside: a bare delimiter is accepted by the decoder but never produced by the encoder.
   */
  lemma FrameCanonical(f: bytes)
    requires DecodedPacket(f).Ok?
    ensures EncodedPacket(DecodedPacket(f).value) == f <==> Delimited(f)
  {
    var inner := f[1..|f| - 1];
    var raw := Destuffed(inner).value;
    var pkt := PacketOf(raw);
    PayloadFields(raw, pkt.length, pkt.pktNum, pkt.totalPkts, pkt.ctrl, pkt.data);
    CanonicalInner(f, raw);
  }

  lemma ResponseCanonical(f: bytes)
    requires DecodedResponse(f).Ok?
    ensures EncodedResponse(DecodedResponse(f).value) == f <==> Delimited(f)
  {
    ResponseIsPacket(f);
    FrameCanonical(f);
    assert PacketOfResponse(DecodedResponse(f).value) == DecodedPacket(f).value;
  }

  lemma CanonicalInner(f: bytes, raw: bytes)
    requires |f| >= 2 && f[0] == FRAME_DELIM && f[|f| - 1] == FRAME_DELIM
    requires Destuffed(f[1..|f| - 1]) == Ok(raw)
    ensures Framed(raw) == f <==> Delimited(f)
  {
    var inner := f[1..|f| - 1];
    StuffedDestuffed(inner);
    assert f == [FRAME_DELIM] + inner + [FRAME_DELIM];
    var g := Framed(raw);
    assert g[1..|g| - 1] == Stuffed(raw);
  }

  /** Flipping an odd number of payload bits, checksum included, makes the decoder report a CRC error. */
  lemma OddCorruptionRejected(p: bytes, q: bytes)
    requires CheckedPayload(p).Ok? && |q| == |p|
    requires Distance(Stream(p), Stream(q)) % 2 == 1
    ensures ExtractedPayload(Framed(q)) == Err(CrcMismatch)
  {
    OddErrorsDetected(p, q);
    ExtractFramed(q);
  }

  /** So does any other change of header and data confined to 16 consecutive bits. */
  lemma BurstCorruptionRejected(p: bytes, q: bytes, at: nat)
    requires CheckedPayload(p).Ok? && |q| == |p| && q != p
    requires q[|p| - CRC_SIZE..] == p[|p| - CRC_SIZE..]
    requires DifferOnlyIn(Stream(p[..|p| - CRC_SIZE]), Stream(q[..|p| - CRC_SIZE]), at, 16)
    ensures ExtractedPayload(Framed(q)) == Err(CrcMismatch)
  {
    SealedBurstDetected(p, q, at);
    ExtractFramed(q);
  }
}
