/**
 * client/src/vrf_udp_client.cpp: non-blocking transfer of frames, the request pipeline through all four
 * protocol layers, and what the far end makes of it.
 */
module VrfClient {
  import opened Bytes
  import opened Net
  import opened UdProto
  import opened UdStream
  import opened RouteProto
  import opened CmdProto
  import opened Crc
  import opened RoutePayloads
  import opened RouteRequests
  import opened RouteStatus

  const READ_SIZE := 1024

  // ----- non-blocking transfer

  /** How many bytes the kernel takes, one ready poll before every call and blocked calls retried. */
  function NbCapacity(polls: seq<Poll>, sends: seq<SendStep>): nat
    decreases |polls|
  {
    if polls == [] || !polls[0].Ready? || sends == [] || sends[0].SendBroken? then 0
    else (if sends[0].Wrote? then sends[0].n else 0) + NbCapacity(polls[1..], sends[1..])
  }

  /** How the transfer fails if that is not enough. */
  function NbRefusal(polls: seq<Poll>, sends: seq<SendStep>): NetError
    decreases |polls|
  {
    if polls == [] || polls[0].TimedOut? then SendFailed
    else if polls[0].PollFailed? then SystemError
    else if sends == [] || sends[0].SendBroken? then SendFailed
    else NbRefusal(polls[1..], sends[1..])
  }

  function NbSent(polls: seq<Poll>, sends: seq<SendStep>, n: nat): Result<(), NetError> {
    if n <= NbCapacity(polls, sends) then Ok(()) else Err(NbRefusal(polls, sends))
  }

  /** The poll script that such a transfer leaves. */
  function PollsAfterSend(polls: seq<Poll>, sends: seq<SendStep>, n: nat): seq<Poll>
    decreases |polls|
  {
    if n == 0 || polls == [] then polls
    else if !polls[0].Ready? then polls[1..]
    else
      var (r, rest) := Accepted(sends, n);
      if r.Ok? then PollsAfterSend(polls[1..], rest, n - r.value)
      else if r.error == WouldBlock then PollsAfterSend(polls[1..], rest, n)
      else polls[1..]
  }

  /** What each poll and the call behind it contribute, and what ends the transfer. */
  lemma NbCapacityAddsUp(p: Poll, polls: seq<Poll>, step: SendStep, sends: seq<SendStep>)
    ensures NbCapacity([], sends) == 0 && NbRefusal([], sends) == SendFailed
    ensures p.TimedOut? ==> NbCapacity([p] + polls, sends) == 0 && NbRefusal([p] + polls, sends) == SendFailed
    ensures p.PollFailed? ==> NbCapacity([p] + polls, sends) == 0 && NbRefusal([p] + polls, sends) == SystemError
    ensures p.Ready? ==> NbCapacity([p] + polls, []) == 0 && NbRefusal([p] + polls, []) == SendFailed
    ensures p.Ready? && step.SendBroken? ==>
      NbCapacity([p] + polls, [step] + sends) == 0 && NbRefusal([p] + polls, [step] + sends) == SendFailed
    ensures p.Ready? && step.SendBlocked? ==>
      && NbCapacity([p] + polls, [step] + sends) == NbCapacity(polls, sends)
      && NbRefusal([p] + polls, [step] + sends) == NbRefusal(polls, sends)
    ensures p.Ready? && step.Wrote? ==>
      && NbCapacity([p] + polls, [step] + sends) == step.n + NbCapacity(polls, sends)
      && NbRefusal([p] + polls, [step] + sends) == NbRefusal(polls, sends)
  {
    assert ([p] + polls)[1..] == polls && ([step] + sends)[1..] == sends;
  }

  lemma CapacityOfPrefix(polls: seq<Poll>, sends: seq<SendStep>, j: nat)
    requires 0 < j <= |polls| && polls[0].Ready? && sends != [] && !sends[0].SendBroken?
    ensures NbCapacity(polls[..j], sends)
         == (if sends[0].Wrote? then sends[0].n else 0) + NbCapacity(polls[1..][..j - 1], sends[1..])
  {
    assert polls[..j][1..] == polls[1..][..j - 1];
  }

  /** The first k polls, and no fewer, and the calls behind them take n bytes. */
  predicate JustEnough(polls: seq<Poll>, sends: seq<SendStep>, n: nat, k: nat) {
    && k <= |polls| && n <= NbCapacity(polls[..k], sends)
    && forall j :: 0 <= j < k ==> NbCapacity(polls[..j], sends) < n
  }

  lemma OnePollMore(polls: seq<Poll>, sends: seq<SendStep>, n: nat, later: nat, k: nat)
    requires n > 0 && polls != [] && polls[0].Ready? && sends != [] && !sends[0].SendBroken?
    requires var taken := if sends[0].Wrote? then sends[0].n else 0; later == if taken <= n then n - taken else 0
    requires JustEnough(polls[1..], sends[1..], later, k)
    ensures JustEnough(polls, sends, n, k + 1)
  {
    CapacityOfPrefix(polls, sends, k + 1);
    forall j | 0 <= j < k + 1
      ensures NbCapacity(polls[..j], sends) < n
    {
      if j > 0 {
        CapacityOfPrefix(polls, sends, j);
        assert NbCapacity(polls[1..][..j - 1], sends[1..]) < later;
      }
    }
  }

  /** A transfer that succeeds leaves the polls behind the first ones whose calls take all n bytes. */
  lemma {:induction false} PollsLeft(polls: seq<Poll>, sends: seq<SendStep>, n: nat) returns (k: nat)
    requires n <= NbCapacity(polls, sends)
    ensures JustEnough(polls, sends, n, k) && PollsAfterSend(polls, sends, n) == polls[k..]
    decreases |polls|
  {
    if n == 0 {
      k := 0;
    } else {
      var taken := if sends[0].Wrote? then sends[0].n else 0;
      var later := if taken <= n then n - taken else 0;
      k := PollsLeft(polls[1..], sends[1..], later);
      OnePollMore(polls, sends, n, later, k);
      assert polls[1..][k..] == polls[k + 1..];
      k := k + 1;
    }
  }

  /** What goes out is the part of the data there is room for, and success means that it is all of it. */
  method NbSendAll(sock: Socket, data: bytes) returns (r: Result<(), NetError>)
    modifies sock`polls, sock`sends, sock`wire
    ensures r == NbSent(old(sock.polls), old(sock.sends), |data|)
    ensures sock.wire == old(sock.wire) + Prefix(data, NbCapacity(old(sock.polls), old(sock.sends)))
    ensures sock.polls == PollsAfterSend(old(sock.polls), old(sock.sends), |data|)
  {
    var total: nat := 0;
    assert sock.wire + [] == sock.wire;
    while total < |data|
      invariant total <= |data|
      invariant sock.wire == old(sock.wire) + data[..total]
      invariant total < |data| ==>
        NbCapacity(old(sock.polls), old(sock.sends)) == total + NbCapacity(sock.polls, sock.sends)
      invariant total < |data| ==> NbRefusal(old(sock.polls), old(sock.sends)) == NbRefusal(sock.polls, sock.sends)
      invariant total == |data| ==> |data| <= NbCapacity(old(sock.polls), old(sock.sends))
      invariant PollsAfterSend(old(sock.polls), old(sock.sends), |data|)
             == PollsAfterSend(sock.polls, sock.sends, |data| - total)
      decreases |sock.polls|
    {
      assert total < |data| && sock.wire == old(sock.wire) + data[..total];
      var p := sock.PollOnce();
      if p.PollFailed? {
        return Err(SystemError);
      }
      if p.TimedOut? {
        return Err(SendFailed);
      }
      var n := sock.SendData(data[total..]);
      if n.Err? {
        assert sock.wire == old(sock.wire) + data[..total];
        if n.error == WouldBlock {
          continue;
        }
        return Err(n.error);
      }
      assert data[..total + n.value] == data[..total] + data[total..][..n.value];
      total := total + n.value;
    }
    assert data[..|data|] == data;
    return Ok(());
  }

  /** All bytes that will be read, one poll before each read, before something fatal happens. */
  function Incoming(polls: seq<Poll>, recvs: seq<RecvStep>): bytes
    decreases |polls|
  {
    if polls == [] || !polls[0].Ready? then []
    else
      var (r, rest) := Delivered(recvs, READ_SIZE);
      if r.Ok? then r.value + Incoming(polls[1..], rest)
      else if r.error == WouldBlock then Incoming(polls[1..], rest)
      else []
  }

  /** The fatal thing that will happen. */
  function ReadError(polls: seq<Poll>, recvs: seq<RecvStep>): NetError
    decreases |polls|
  {
    if polls == [] || polls[0].TimedOut? then RecvFailed
    else if polls[0].PollFailed? then SystemError
    else
      var (r, rest) := Delivered(recvs, READ_SIZE);
      if r.Ok? || r.error == WouldBlock then ReadError(polls[1..], rest) else r.error
  }

  /** What each poll and the call behind it contribute to the incoming bytes, and what ends them. */
  lemma IncomingAddsUp(p: Poll, polls: seq<Poll>, step: RecvStep, recvs: seq<RecvStep>)
    ensures Incoming([], recvs) == [] && ReadError([], recvs) == RecvFailed
    ensures p.TimedOut? ==> Incoming([p] + polls, recvs) == [] && ReadError([p] + polls, recvs) == RecvFailed
    ensures p.PollFailed? ==> Incoming([p] + polls, recvs) == [] && ReadError([p] + polls, recvs) == SystemError
    ensures p.Ready? ==> Incoming([p] + polls, []) == [] && ReadError([p] + polls, []) == RecvFailed
    ensures p.Ready? && step.RecvBroken? ==>
      Incoming([p] + polls, [step] + recvs) == [] && ReadError([p] + polls, [step] + recvs) == RecvFailed
    ensures p.Ready? && step == Chunk([]) ==>
      Incoming([p] + polls, [step] + recvs) == [] && ReadError([p] + polls, [step] + recvs) == ConnectionClosed
    ensures p.Ready? && step.RecvBlocked? ==>
      && Incoming([p] + polls, [step] + recvs) == Incoming(polls, recvs)
      && ReadError([p] + polls, [step] + recvs) == ReadError(polls, recvs)
    ensures p.Ready? && step.Chunk? && 0 < |step.data| <= 1024 ==>
      && Incoming([p] + polls, [step] + recvs) == step.data + Incoming(polls, recvs)
      && ReadError([p] + polls, [step] + recvs) == ReadError(polls, recvs)
    ensures p.Ready? && step.Chunk? && |step.data| > 1024 ==>
      && Incoming([p] + polls, [step] + recvs)
         == step.data[..1024] + Incoming(polls, [Chunk(step.data[1024..])] + recvs)
      && ReadError([p] + polls, [step] + recvs) == ReadError(polls, [Chunk(step.data[1024..])] + recvs)
  {
    assert ([p] + polls)[1..] == polls && ([step] + recvs)[1..] == recvs;
  }

  function FirstFrame(stream: bytes, error: NetError): Result<bytes, NetError> {
    match FoundFrame(stream)
    case Ok(span) => Ok(stream[span.start..span.end])
    case Err(_) => Err(error)
  }

  lemma FirstFrameStable(stream: bytes, more: bytes, error: NetError)
    requires FoundFrame(stream).Ok?
    ensures FirstFrame(stream + more, error)
         == Ok(stream[FoundFrame(stream).value.start..FoundFrame(stream).value.end])
  {
    var all, span := stream + more, FoundFrame(stream).value;
    FoundFrameStable(stream, more);
    assert all[span.start..span.end] == stream[span.start..span.end];
  }

  /** The frame received is a function of the incoming bytes alone: how they are cut into reads does not matter. */
  method NbRecvFrame(sock: Socket) returns (r: Result<bytes, NetError>)
    modifies sock`polls, sock`recvs
    ensures r == FirstFrame(Incoming(old(sock.polls), old(sock.recvs)), ReadError(old(sock.polls), old(sock.recvs)))
  {
    ghost var all, error := Incoming(sock.polls, sock.recvs), ReadError(sock.polls, sock.recvs);
    var buf: bytes := [];
    while true
      invariant buf + Incoming(sock.polls, sock.recvs) == all
      invariant ReadError(sock.polls, sock.recvs) == error
      invariant FoundFrame(buf).Err?
      decreases |sock.polls|
    {
      var p := sock.PollOnce();
      if !p.Ready? {
        assert buf + [] == buf;
        return Err(if p.PollFailed? then SystemError else RecvFailed);
      }
      var n := sock.RecvData(READ_SIZE);
      if n.Err? {
        if n.error == WouldBlock {
          continue;
        }
        assert buf + [] == buf;
        return Err(n.error);
      }
      ConcatAssoc(buf, n.value, Incoming(sock.polls, sock.recvs));
      buf := buf + n.value;
      var frame := FindFrame(buf);
      if frame.Ok? {
        FirstFrameStable(buf, Incoming(sock.polls, sock.recvs), error);
        var span := frame.value;
        return Ok(buf[span.start..span.end]);
      }
    }
  }

  /** Once a frame is complete, no schedule that delivers at least those bytes can yield another one. */
  lemma ScheduleIndependence(stream: bytes, polls: seq<Poll>, recvs: seq<RecvStep>)
    requires FoundFrame(stream).Ok? && stream <= Incoming(polls, recvs)
    ensures FirstFrame(Incoming(polls, recvs), ReadError(polls, recvs))
         == Ok(stream[FoundFrame(stream).value.start..FoundFrame(stream).value.end])
  {
    var all := Incoming(polls, recvs);
    assert all == stream + all[|stream|..];
    FirstFrameStable(stream, all[|stream|..], ReadError(polls, recvs));
  }

  // ----- the request pipeline

  /** A request that cannot be encoded silently becomes a command without payload. */
  function MakeRouteAddVrfs(vrs: seq<VrfsRequest>): Command {
    var b := EncodedVrfs(vrs);
    Command(ROUTE_ADD, [], if b.Ok? then b.value else [])
  }

  function RequestBlock(vrs: seq<VrfsRequest>): bytes {
    EncodedExchange(ExchangeData(1, EncodedCommand(MakeRouteAddVrfs(vrs))))
  }

  function RequestPacket(vrs: seq<VrfsRequest>, msgId: u16): Packet {
    Packet(0, msgId, 1, 0, EncodedMessage(MakeData(msgId, RequestBlock(vrs))))
  }

  function RequestFrame(vrs: seq<VrfsRequest>, msgId: u16): bytes {
    EncodedPacket(RequestPacket(vrs, msgId))
  }

  method BuildRequest(vrs: seq<VrfsRequest>, msgId: u16) returns (frame: bytes)
    ensures frame == RequestFrame(vrs, msgId)
  {
    var payload := EncodeVrfs(vrs);
    var cmd := Command(ROUTE_ADD, [], if payload.Ok? then payload.value else []);
    var cmdBytes := EncodeCommand(cmd);
    var exchBytes := EncodeExchange(ExchangeData(1, cmdBytes));
    var msgBytes := EncodeMessage(MakeData(msgId, exchBytes));
    frame := EncodePacket(Packet(0, msgId, 1, 0, msgBytes));
  }

  /** What the headers of a request frame say, layer by layer, whatever the request. */
  lemma RequestHeaders(vrs: seq<VrfsRequest>, msgId: u16)
    ensures var pkt := DecodedPacket(RequestFrame(vrs, msgId));
      && pkt.Ok? && pkt.value.pktNum == msgId && pkt.value.totalPkts == 1 && pkt.value.ctrl == 0
      && var msg := DecodedMessage(pkt.value.data);
      && msg.Ok? && msg.value.msgType == DATA && msg.value.flags == 0 && msg.value.msgId == msgId
  {
    var msg := MakeData(msgId, RequestBlock(vrs));
    PacketRoundTrip(RequestPacket(vrs, msgId));
    MessageCodec(EncodedMessage(msg), msg);
  }

  /** A length as two bytes, cut down to 16 bits. */
  function Short(n: nat): bytes {
    [n / 0x100 % 0x100, n % 0x100]
  }

  /**
   * A whole request on the wire, layer by layer: the list of entries behind its kind 1, in a command 1, in a
   * block with its count, size and checksum, in a message 10 without flags, in packet 1 of 1 with its size and
   * checksum, stuffed between delimiters.
   */
  lemma RequestBytes(vrs: seq<VrfsRequest>, msgId: u16, cmd: bytes, front: bytes, block: bytes, msg: bytes,
                     l: u32, body: bytes)
    requires EncodedVrfs(vrs).Ok?
    requires cmd == [1] + Short(1 + |VrfsBytes(vrs)|) + ([1] + VrfsBytes(vrs))
    requires front == Short(|cmd|) + Short(6 + |cmd|) + cmd
    requires block == front + [Crc16(front) / 0x100, Crc16(front) % 0x100]
    requires msg == [0x10, 0, msgId / 0x100, msgId % 0x100] + block
    requires l == (12 + |msg|) % 0x1_0000_0000
    requires body == [l / 0x100_0000, l / 0x1_0000 % 0x100, l / 0x100 % 0x100, l % 0x100,
      msgId / 0x100, msgId % 0x100, 0, 1, 0, 0] + msg
    ensures RequestFrame(vrs, msgId) == [0x7E] + Stuffed(body + [Crc16(body) / 0x100, Crc16(body) % 0x100]) + [0x7E]
  {
    CommandBytes(vrs);
    BlockBytes(cmd);
    assert RequestBlock(vrs) == block;
    MessageBytes(msgId, block);
    PacketLayout(Packet(0, msgId, 1, 0, msg), l, body);
  }

  lemma CommandBytes(vrs: seq<VrfsRequest>)
    requires EncodedVrfs(vrs).Ok?
    ensures EncodedCommand(MakeRouteAddVrfs(vrs)) == [1] + Short(1 + |VrfsBytes(vrs)|) + ([1] + VrfsBytes(vrs))
  {
    Be16Cast(1 + |VrfsBytes(vrs)|);
  }

  lemma BlockBytes(cmd: bytes)
    ensures var front := Short(|cmd|) + Short(6 + |cmd|) + cmd;
      EncodedExchange(ExchangeData(1, cmd)) == front + [Crc16(front) / 0x100, Crc16(front) % 0x100]
  {
    Be16Cast(|cmd|);
    Be16Cast(6 + |cmd|);
  }

  lemma MessageBytes(msgId: u16, block: bytes)
    ensures EncodedMessage(MakeData(msgId, block)) == [0x10, 0, msgId / 0x100, msgId % 0x100] + block
  {
  }

  // ----- the far end

  /** The VRF request in a message payload: an exchange block with a single ROUTE_ADD command. */
  function UnderstoodBlock(block: bytes): Option<seq<VrfsRequest>> {
    var ed := DecodedExchange(block);
    if ed.Err? then None else
    var cmds := DecodedCommands(ed.value.commands);
    if cmds.Err? || |cmds.value| != 1 || cmds.value[0].cmdId != ROUTE_ADD then None else
    var vrs := DecodedVrfs(cmds.value[0].rawPayload);
    if vrs.Err? then None else Some(vrs.value)
  }

  /** The layered decoding of a received frame, down to the message identifier and the VRF request. */
  function Understood(frame: bytes): Option<(u16, seq<VrfsRequest>)> {
    var pkt := DecodedPacket(frame);
    if pkt.Err? then None else
    var msg := DecodedMessage(pkt.value.data);
    if msg.Err? || msg.value.msgType != DATA then None else
    var vrs := UnderstoodBlock(msg.value.payload);
    if vrs.None? then None else Some((msg.value.msgId, vrs.value))
  }

  /** What a caller can check beforehand: no list or mask out of range, and the bytes fit the exchange block. */
  predicate Sendable(vrs: seq<VrfsRequest>) {
    EncodableVrfs(vrs) && 1 + |VrfsBytes(vrs)| <= MAX_COMMANDS - CMD_HEADER_SIZE
  }

  lemma CommandUnderstood(cmd: Command)
    requires cmd.fields == []
    ensures DecodedCommands(EncodedCommand(cmd)).Ok? ==> |cmd.rawPayload| <= MAX_PAYLOAD ==>
      |DecodedCommands(EncodedCommand(cmd)).value| == 1
      && DecodedCommands(EncodedCommand(cmd)).value[0] == AsReceived(cmd)
    ensures |cmd.rawPayload| <= MAX_PAYLOAD ==> DecodedCommands(EncodedCommand(cmd)).Ok?
  {
    if |cmd.rawPayload| <= MAX_PAYLOAD {
      assert PayloadOf(cmd) == cmd.rawPayload;
      CommandsRoundTrip([cmd]);
      assert EncodedCommands([cmd]) == EncodedCommand(cmd) by {
        assert [cmd][1..] == [] && EncodedCommand(cmd) + [] == EncodedCommand(cmd);
      }
    }
  }

  lemma BlockUnderstood(vrs: seq<VrfsRequest>)
    ensures UnderstoodBlock(RequestBlock(vrs)) == if Sendable(vrs) then Some(vrs) else None
  {
    var cmd := MakeRouteAddVrfs(vrs);
    var bytes := EncodedCommand(cmd);
    assert |bytes| == CMD_HEADER_SIZE + |cmd.rawPayload|;
    ExchangeRoundTrip(ExchangeData(1, bytes));
    if |bytes| <= MAX_COMMANDS {
      CommandUnderstood(cmd);
      VrfsCodec(cmd.rawPayload, vrs);
    }
  }

  /**
   * End to end: a request frame is understood, with its message identifier, exactly when the request is
   * sendable. Any other request is sent all the same and refused on arrival.
   */
  lemma RequestUnderstood(vrs: seq<VrfsRequest>, msgId: u16)
    ensures Understood(RequestFrame(vrs, msgId)) == if Sendable(vrs) then Some((msgId, vrs)) else None
  {
    var msg := MakeData(msgId, RequestBlock(vrs));
    PacketRoundTrip(RequestPacket(vrs, msgId));
    MessageCodec(EncodedMessage(msg), msg);
    BlockUnderstood(vrs);
  }

  /** The same over the wire: for every way the sent bytes may be cut into reads, delayed or followed by more. */
  lemma DeliveredRequest(vrs: seq<VrfsRequest>, msgId: u16, polls: seq<Poll>, recvs: seq<RecvStep>)
    requires Sendable(vrs) && RequestFrame(vrs, msgId) <= Incoming(polls, recvs)
    ensures var f := FirstFrame(Incoming(polls, recvs), ReadError(polls, recvs));
      f == Ok(RequestFrame(vrs, msgId)) && Understood(f.value) == Some((msgId, vrs))
  {
    var f := RequestFrame(vrs, msgId);
    EncodedDelimited(RequestPacket(vrs, msgId));
    FoundAfterNoise([], f, []);
    assert [] + f + [] == f;
    ScheduleIndependence(f, polls, recvs);
    RequestUnderstood(vrs, msgId);
  }

  /** Cut short, a frame is not found at all. */
  lemma PartNotFound(f: bytes, k: nat)
    requires Delimited(f) && k < |f|
    ensures FoundFrame(f[..k]).Err?
  {
    SplitAt(f, k);
    DelimCountConcat(f[..k], f[k..]);
    DelimitedCount(f);
    DelimFreeCount(f[k..]);
    assert f[k..][|f| - 1 - k] == FRAME_DELIM;
    if FoundFrame(f[..k]).Ok? {
      var noise, g, later := SplitFound(f[..k]);
    }
  }

  /**
   * From one end to the other: whatever part of the frame the sender's kernel takes is what arrives, cut and
   * delayed in any way. The far end finds a frame if and only if the sender could send all of it, and makes
   * the original request of it, under its identifier, if and only if the request was in range as well.
   */
  lemma EndToEnd(vrs: seq<VrfsRequest>, msgId: u16, sendPolls: seq<Poll>, sends: seq<SendStep>,
                 recvPolls: seq<Poll>, recvs: seq<RecvStep>)
    requires Incoming(recvPolls, recvs) == Prefix(RequestFrame(vrs, msgId), NbCapacity(sendPolls, sends))
    ensures var g := FirstFrame(Incoming(recvPolls, recvs), ReadError(recvPolls, recvs));
      && (g.Ok? <==> NbSent(sendPolls, sends, |RequestFrame(vrs, msgId)|).Ok?)
      && (g.Ok? ==> Understood(g.value) == if Sendable(vrs) then Some((msgId, vrs)) else None)
  {
    var f, k := RequestFrame(vrs, msgId), NbCapacity(sendPolls, sends);
    EncodedDelimited(RequestPacket(vrs, msgId));
    if k < |f| {
      PartNotFound(f, k);
    } else {
      FoundAfterNoise([], f, []);
      assert [] + f + [] == f;
      RequestUnderstood(vrs, msgId);
    }
  }

  // ----- the reply

  /** The acknowledgement byte and the VRF response in a reply frame; neither type nor identifier is checked. */
  function UnderstoodReply(frame: bytes): Option<(byte, VrfsResponse)> {
    var pkt := DecodedPacket(frame);
    if pkt.Err? then None else
    var msg := DecodedMessage(pkt.value.data);
    if msg.Err? || |msg.value.payload| < 2 then None else
    var resp := DecodedVrfsResponse(msg.value.payload[1..]);
    if resp.Err? then None else Some((msg.value.payload[0], resp.value))
  }

  method DecodeReply(frame: bytes) returns (r: Option<(byte, VrfsResponse)>)
    ensures r == UnderstoodReply(frame)
  {
    var pkt := DecodePacket(frame);
    if pkt.Err? {
      return None;
    }
    var msg := DecodeMessage(pkt.value.data);
    if msg.Err? {
      return None;
    }
    if |msg.value.payload| < 2 {
      return None;
    }
    var ack := msg.value.payload[0];
    var resp := DecodeVrfsResponse(msg.value.payload[1..]);
    if resp.Err? {
      return None;
    }
    return Some((ack, resp.value));
  }

  /** A reply built in the documented layout delivers its acknowledgement and response, whatever else it carries. */
  lemma ReplyUnderstood(pkt: Packet, msg: Message, ack: byte, resp: VrfsResponse)
    requires pkt.length == 0 && pkt.data == EncodedMessage(msg)
    requires msg.payload == [ack] + EncodedVrfsResponse(resp)
    ensures UnderstoodReply(EncodedPacket(pkt)) == Some((ack, resp))
  {
    PacketRoundTrip(pkt);
    MessageCodec(pkt.data, msg);
    VrfsResponseCodec(resp, []);
    assert msg.payload[1..] == EncodedVrfsResponse(resp);
  }

  /** How far setting up the socket got: created, made non-blocking, connected. */
  datatype Setup = NoSocket | NotNonblocking | NotConnected | Connected

  datatype Outcome = NotSetUp(at: Setup) | NotSent(error: NetError) | NoFrame(error: NetError) | BadReply
    | Reply(ack: byte, resp: VrfsResponse)

  /** What comes of sending n bytes and waiting for a reply. */
  function ExpectedOutcome(polls: seq<Poll>, sends: seq<SendStep>, recvs: seq<RecvStep>, n: nat): Outcome {
    var sent := NbSent(polls, sends, n);
    if sent.Err? then NotSent(sent.error) else
    var rest := PollsAfterSend(polls, sends, n);
    var frame := FirstFrame(Incoming(rest, recvs), ReadError(rest, recvs));
    if frame.Err? then NoFrame(frame.error) else
    match UnderstoodReply(frame.value)
    case None => BadReply
    case Some((ack, resp)) => Reply(ack, resp)
  }

  /** A frame whose payload is an acknowledgement byte and a VRF response. */
  predicate CarriesReply(frame: bytes, ack: byte, resp: VrfsResponse) {
    var pkt := DecodedPacket(frame);
    && pkt.Ok?
    && var msg := DecodedMessage(pkt.value.data);
    && msg.Ok? && |msg.value.payload| >= 2
    && msg.value.payload[0] == ack && DecodedVrfsResponse(msg.value.payload[1..]) == Ok(resp)
  }

  /** Exactly when each outcome comes about. */
  lemma OutcomeExplained(polls: seq<Poll>, sends: seq<SendStep>, recvs: seq<RecvStep>, n: nat)
    ensures var r, rest := ExpectedOutcome(polls, sends, recvs, n), PollsAfterSend(polls, sends, n);
      var found := FirstFrame(Incoming(rest, recvs), ReadError(rest, recvs));
      && (forall e: NetError :: r == NotSent(e) <==> n > NbCapacity(polls, sends) && e == NbRefusal(polls, sends))
      && (forall e: NetError :: r == NoFrame(e) <==> n <= NbCapacity(polls, sends) && found == Err(e))
      && (forall ack: byte, resp: VrfsResponse :: r == Reply(ack, resp) <==>
           n <= NbCapacity(polls, sends) && found.Ok? && CarriesReply(found.value, ack, resp))
      && (r == BadReply <==>
           && n <= NbCapacity(polls, sends) && found.Ok?
           && forall ack: byte, resp: VrfsResponse :: !CarriesReply(found.value, ack, resp))
  {
    var rest := PollsAfterSend(polls, sends, n);
    var found := FirstFrame(Incoming(rest, recvs), ReadError(rest, recvs));
    if found.Ok? {
      ReplyCarried(found.value);
    }
  }

  lemma ReplyCarried(frame: bytes)
    ensures forall ack: byte, resp: VrfsResponse ::
      CarriesReply(frame, ack, resp) <==> UnderstoodReply(frame) == Some((ack, resp))
    ensures UnderstoodReply(frame).None? <==> forall ack: byte, resp: VrfsResponse :: !CarriesReply(frame, ack, resp)
  {
    if UnderstoodReply(frame).Some? {
      assert CarriesReply(frame, UnderstoodReply(frame).value.0, UnderstoodReply(frame).value.1);
    }
  }

  /**
   * A reply in the documented layout is what ProcessRequest returns, however the request was taken and the reply
   * is cut, and whatever noise without delimiters precedes it.
   */
  lemma ReplyDelivered(polls: seq<Poll>, sends: seq<SendStep>, recvs: seq<RecvStep>, n: nat,
                       noise: bytes, pkt: Packet, msg: Message, ack: byte, resp: VrfsResponse, more: bytes)
    requires n <= NbCapacity(polls, sends) && DelimFree(noise)
    requires pkt.length == 0 && pkt.data == EncodedMessage(msg) && msg.payload == [ack] + EncodedVrfsResponse(resp)
    requires Incoming(PollsAfterSend(polls, sends, n), recvs) == noise + EncodedPacket(pkt) + more
    ensures ExpectedOutcome(polls, sends, recvs, n) == Reply(ack, resp)
  {
    var f, s := EncodedPacket(pkt), noise + EncodedPacket(pkt) + more;
    EncodedDelimited(pkt);
    FoundAfterNoise(noise, f, more);
    assert s[|noise|..|noise| + |f|] == f;
    ReplyUnderstood(pkt, msg, ack, resp);
  }

  class Client {
    var nextMsgId: u16

    constructor ()
      ensures nextMsgId == 1
    {
      nextMsgId := 1;
    }

    /**
     * One request over a fresh socket. The identifier is used up whatever happens and wraps at 16 bits; what
     * goes out is the part of the request frame there is room for, nothing without a connection; and a reply
     * is only ever read off a frame received after the whole of it was sent.
     */
    method ProcessRequest(vrs: seq<VrfsRequest>, setup: Setup, sock: Socket) returns (r: Outcome)
      modifies this`nextMsgId, sock
      ensures nextMsgId == (old(nextMsgId) + 1) % 0x1_0000
      ensures setup.Connected? ==>
        && sock.wire == old(sock.wire)
                        + Prefix(RequestFrame(vrs, old(nextMsgId)), NbCapacity(old(sock.polls), old(sock.sends)))
        && r == ExpectedOutcome(old(sock.polls), old(sock.sends), old(sock.recvs), |RequestFrame(vrs, old(nextMsgId))|)
      ensures r.Reply? ==>
        exists polls :: var found := FirstFrame(Incoming(polls, old(sock.recvs)), ReadError(polls, old(sock.recvs)));
          found.Ok? && CarriesReply(found.value, r.ack, r.resp)
      ensures !setup.Connected? ==> sock.wire == old(sock.wire) && r == NotSetUp(setup)
    {
      var msgId := nextMsgId;
      nextMsgId := ToU16(nextMsgId + 1);
      var frame := BuildRequest(vrs, msgId);
      if !setup.Connected? {
        return NotSetUp(setup);
      }
      var sent := NbSendAll(sock, frame);
      if sent.Err? {
        return NotSent(sent.error);
      }
      var received := NbRecvFrame(sock);
      if received.Err? {
        return NoFrame(received.error);
      }
      var reply := DecodeReply(received.value);
      if reply.None? {
        return BadReply;
      }
      ReplyCarried(received.value);
      return Reply(reply.value.0, reply.value.1);
    }
  }
}
