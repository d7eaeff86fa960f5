/**
 * unix_domain/lib/net.cpp: sending and receiving over a connected socket. The operating system is a script:
 * what each poll, send and recv call will answer, in order. The script is arbitrary, so a result proved for
 * every script holds for every way the kernel may split, delay or break the transfer.
 */
module Net {
  import opened Bytes

  datatype NetError = SystemError | SendFailed | RecvFailed | WouldBlock | ConnectionClosed

  datatype Poll = Ready | TimedOut | PollFailed

  /** A send call accepts at most n of the offered bytes, or none for the moment, or breaks. */
  datatype SendStep = Wrote(n: nat) | SendBlocked | SendBroken

  /** A recv call finds these bytes waiting (none at all means that the peer has closed), or nothing yet, or breaks. */
  datatype RecvStep = Chunk(data: bytes) | RecvBlocked | RecvBroken

  class Socket {
    var polls: seq<Poll>
    var sends: seq<SendStep>
    var recvs: seq<RecvStep>
    /** Every byte the kernel has accepted for transmission. */
    var wire: bytes

    constructor (polls: seq<Poll>, sends: seq<SendStep>, recvs: seq<RecvStep>)
      ensures this.polls == polls && this.sends == sends && this.recvs == recvs && wire == []
    {
      this.polls, this.sends, this.recvs, wire := polls, sends, recvs, [];
    }

    /** An exhausted script reads as a timeout. */
    method PollOnce() returns (p: Poll)
      modifies this`polls
      ensures old(polls) == [] ==> p == TimedOut && polls == []
      ensures old(polls) != [] ==> p == old(polls)[0] && polls == old(polls)[1..]
    {
      if polls == [] {
        return TimedOut;
      }
      p, polls := polls[0], polls[1..];
    }

    /** Offers data to the kernel in a single call. */
    method SendData(data: bytes) returns (r: Result<nat, NetError>)
      modifies this`sends, this`wire
      ensures (r, sends) == Accepted(old(sends), |data|)
      ensures wire == old(wire) + if r.Ok? then data[..r.value] else []
      ensures old(sends) != [] ==> sends == old(sends)[1..]
      ensures old(sends) != [] && old(sends)[0].Wrote? ==>
        r == Ok(if old(sends)[0].n <= |data| then old(sends)[0].n else |data|)
      ensures old(sends) != [] && old(sends)[0] == SendBlocked ==> r == Err(WouldBlock)
      ensures old(sends) == [] || old(sends)[0] == SendBroken ==> r == Err(SendFailed)
    {
      if sends == [] {
        return Err(SendFailed);
      }
      var s := sends[0];
      sends := sends[1..];
      match s
      case Wrote(n) =>
        var m := if n <= |data| then n else |data|;
        wire := wire + data[..m];
        return Ok(m);
      case SendBlocked =>
        return Err(WouldBlock);
      case SendBroken =>
        return Err(SendFailed);
    }

    /** What a recv call with room for `max` bytes answers, and the script it leaves. */
    method RecvData(max: nat) returns (r: Result<bytes, NetError>)
      requires max > 0
      modifies this`recvs
      ensures (r, recvs) == Delivered(old(recvs), max)
      ensures old(recvs) != [] && old(recvs)[0].Chunk? && 0 < |old(recvs)[0].data| <= max ==>
        r == Ok(old(recvs)[0].data) && recvs == old(recvs)[1..]
      ensures old(recvs) != [] && old(recvs)[0].Chunk? && |old(recvs)[0].data| > max ==>
        r == Ok(old(recvs)[0].data[..max]) && recvs == [Chunk(old(recvs)[0].data[max..])] + old(recvs)[1..]
      ensures old(recvs) != [] && old(recvs)[0] == Chunk([]) ==> r == Err(ConnectionClosed) && recvs == old(recvs)[1..]
      ensures old(recvs) != [] && old(recvs)[0] == RecvBlocked ==> r == Err(WouldBlock) && recvs == old(recvs)[1..]
      ensures old(recvs) == [] || old(recvs)[0] == RecvBroken ==> r == Err(RecvFailed)
    {
      if recvs == [] {
        return Err(RecvFailed);
      }
      match recvs[0]
      case Chunk(d) =>
        if d == [] {
          recvs := recvs[1..];
          return Err(ConnectionClosed);
        }
        if |d| <= max {
          recvs := recvs[1..];
          return Ok(d);
        }
        recvs := [Chunk(d[max..])] + recvs[1..];
        return Ok(d[..max]);
      case RecvBlocked =>
        recvs := recvs[1..];
        return Err(WouldBlock);
      case RecvBroken =>
        recvs := recvs[1..];
        return Err(RecvFailed);
    }
  }

  function Delivered(recvs: seq<RecvStep>, max: nat): (Result<bytes, NetError>, seq<RecvStep>)
    requires max > 0
  {
    if recvs == [] then (Err(RecvFailed), [])
    else match recvs[0]
      case Chunk(d) =>
        if d == [] then (Err(ConnectionClosed), recvs[1..])
        else if |d| <= max then (Ok(d), recvs[1..])
        else (Ok(d[..max]), [Chunk(d[max..])] + recvs[1..])
      case RecvBlocked => (Err(WouldBlock), recvs[1..])
      case RecvBroken => (Err(RecvFailed), recvs[1..])
  }

  /** The answer to offering n bytes, and the script it leaves. */
  function Accepted(sends: seq<SendStep>, n: nat): (r: (Result<nat, NetError>, seq<SendStep>))
    ensures r.0.Ok? ==> r.0.value <= n && |r.1| < |sends|
  {
    if sends == [] then (Err(SendFailed), [])
    else match sends[0]
      case Wrote(m) => (Ok(if m <= n then m else n), sends[1..])
      case SendBlocked => (Err(WouldBlock), sends[1..])
      case SendBroken => (Err(SendFailed), sends[1..])
  }

  /** How many bytes the kernel takes before a call that takes none. */
  function Capacity(sends: seq<SendStep>): nat {
    if sends == [] || !sends[0].Wrote? then 0 else sends[0].n + Capacity(sends[1..])
  }

  /** How that call fails. */
  function Refusal(sends: seq<SendStep>): NetError {
    if sends == [] then SendFailed
    else match sends[0]
      case Wrote(_) => Refusal(sends[1..])
      case SendBlocked => WouldBlock
      case SendBroken => SendFailed
  }

  /** Writes add up until the first call that is not one, and that call is the failure. */
  lemma CapacityAddsUp(step: SendStep, rest: seq<SendStep>)
    ensures Capacity([]) == 0 && Refusal([]) == SendFailed
    ensures step.Wrote? ==> Capacity([step] + rest) == step.n + Capacity(rest)
    ensures step.Wrote? ==> Refusal([step] + rest) == Refusal(rest)
    ensures step.SendBlocked? ==> Capacity([step] + rest) == 0 && Refusal([step] + rest) == WouldBlock
    ensures step.SendBroken? ==> Capacity([step] + rest) == 0 && Refusal([step] + rest) == SendFailed
  {
    assert ([step] + rest)[1..] == rest;
  }

  /** The first k bytes of the data, or all of it. */
  function Prefix(data: bytes, k: nat): (p: bytes)
    ensures p <= data && |p| == if k < |data| then k else |data|
  {
    if k < |data| then data[..k] else data
  }

  /**
   * However the writes are split, what goes out is the part of the data the kernel has room for, and success
   * means that it is all of it: partial writes that sum up to the size suffice.
   */
  method SendAll(sock: Socket, data: bytes) returns (r: Result<(), NetError>)
    modifies sock`sends, sock`wire
    ensures r == if |data| <= Capacity(old(sock.sends)) then Ok(()) else Err(Refusal(old(sock.sends)))
    ensures sock.wire == old(sock.wire) + Prefix(data, Capacity(old(sock.sends)))
  {
    var sent: nat := 0;
    assert sock.wire + [] == sock.wire;
    while sent < |data|
      invariant sent <= |data|
      invariant sent < |data| ==> Capacity(old(sock.sends)) == sent + Capacity(sock.sends)
      invariant sent < |data| ==> Refusal(old(sock.sends)) == Refusal(sock.sends)
      invariant sent == |data| ==> |data| <= Capacity(old(sock.sends))
      invariant sock.wire == old(sock.wire) + data[..sent]
      decreases |sock.sends|
    {
      var result := sock.SendData(data[sent..]);
      if result.Err? {
        assert sock.wire == old(sock.wire) + data[..sent];
        return Err(result.error);
      }
      assert data[..sent + result.value] == data[..sent] + data[sent..][..result.value];
      sent := sent + result.value;
    }
    assert data[..|data|] == data;
    return Ok(());
  }

  /** The bytes that blocking reads will deliver before the first call that is not a read of data. */
  function Waiting(recvs: seq<RecvStep>): bytes {
    if recvs == [] || !recvs[0].Chunk? || recvs[0].data == [] then [] else recvs[0].data + Waiting(recvs[1..])
  }

  /** Chunks add up until the first call that delivers nothing. */
  lemma WaitingAddsUp(step: RecvStep, rest: seq<RecvStep>)
    ensures Waiting([]) == []
    ensures step.Chunk? && step.data != [] ==> Waiting([step] + rest) == step.data + Waiting(rest)
    ensures !step.Chunk? || step.data == [] ==> Waiting([step] + rest) == []
  {
    assert ([step] + rest)[1..] == rest;
  }

  lemma WaitingStep(recvs: seq<RecvStep>, max: nat)
    requires max > 0
    ensures var (r, rest) := Delivered(recvs, max);
      && (r.Ok? ==> Waiting(recvs) == r.value + Waiting(rest) && 0 < |r.value| <= max)
      && (r.Err? ==> Waiting(recvs) == [])
  {
    if recvs != [] && recvs[0].Chunk? && |recvs[0].data| > max {
      var d := recvs[0].data;
      assert ([Chunk(d[max..])] + recvs[1..])[1..] == recvs[1..];
      assert d == d[..max] + d[max..];
      ConcatAssoc(d[..max], d[max..], Waiting(recvs[1..]));
    }
  }

  /** One read, told by the bytes it takes from those waiting. */
  method RecvSome(sock: Socket, max: nat) returns (r: Result<bytes, NetError>)
    requires max > 0
    modifies sock`recvs
    ensures r.Ok? ==> 0 < |r.value| <= max && Waiting(old(sock.recvs)) == r.value + Waiting(sock.recvs)
    ensures r.Err? ==> Waiting(old(sock.recvs)) == []
  {
    WaitingStep(sock.recvs, max);
    r := sock.RecvData(max);
  }

  /**
   * Filling a buffer of n bytes in place. It succeeds exactly when n bytes arrive before anything else
   * happens, returns the first n bytes whatever the sizes of the reads, and takes no byte more.
   */
  method RecvExact(sock: Socket, n: nat) returns (r: Result<bytes, NetError>)
    modifies sock`recvs
    ensures r.Ok? <==> n <= |Waiting(old(sock.recvs))|
    ensures r.Ok? ==> r.value == Waiting(old(sock.recvs))[..n] && Waiting(sock.recvs) == Waiting(old(sock.recvs))[n..]
  {
    ghost var all := Waiting(sock.recvs);
    var buf := new byte[n](_ => 0);
    var received: nat := 0;
    while received < n
      invariant received <= n && received <= |all|
      invariant buf[..received] == all[..received]
      invariant Waiting(sock.recvs) == all[received..]
    {
      var result := RecvSome(sock, n - received);
      if result.Err? {
        return Err(result.error);
      }
      SliceOfConcat(all, received, result.value, Waiting(sock.recvs));
      CopyInto(buf, received, result.value);
      received := received + |result.value|;
    }
    assert buf[..] == buf[..n];
    return Ok(buf[..]);
  }

  lemma SliceOfConcat(all: bytes, k: nat, chunk: bytes, rest: bytes)
    requires k <= |all| && all[k..] == chunk + rest
    ensures k + |chunk| <= |all| && all[..k + |chunk|] == all[..k] + chunk && all[k + |chunk|..] == rest
  {
    assert all == all[..k] + (chunk + rest);
  }
}
