/**
 * unix_domain/lib/cmd_proto.cpp: the binary ROUTE_ADD request payloads, one list of interfaces with their
 * prefixes (INTERFACE_ROUTE) and one list of VRF entries (SINGLE_ROUTE).
 */
module RoutePayloads {
  import opened Bytes
  import opened CmdProto

  const IFACE_NAME_SIZE := 32
  const VRFS_NAME_SIZE := 16
  const INTERFACE_FIXED_SIZE := 42
  const VRFS_REQUEST_FIXED_SIZE := 58
  const PREFIX_IPV4_WIRE_SIZE := 5
  const SINGLE_ROUTE: byte := 1
  const INTERFACE_ROUTE: byte := 2

  type IfaceName = n: bytes | |n| == IFACE_NAME_SIZE witness ZeroBytes(IFACE_NAME_SIZE)
  type VrfsName = n: bytes | |n| == VRFS_NAME_SIZE witness ZeroBytes(VRFS_NAME_SIZE)

  datatype PrefixIpv4 = PrefixIpv4(addr: Ipv4, maskLen: byte)

  datatype Interface = Interface(ifaceName: IfaceName, nexthopAddr: Ipv4, nexthopId: u32, prefixes: seq<PrefixIpv4>)

  /** A VRF entry has the fields of an interface entry after its own name, on the wire too. */
  datatype VrfsRequest = VrfsRequest(vrfsName: VrfsName, hop: Interface)

  // ----- prefixes

  predicate ValidPrefixes(ps: seq<PrefixIpv4>) {
    forall p :: p in ps ==> p.maskLen <= 32
  }

  function PrefixBytes(ps: seq<PrefixIpv4>): (r: bytes)
    ensures |r| == PREFIX_IPV4_WIRE_SIZE * |ps|
  {
    if ps == [] then [] else ps[0].addr + [ps[0].maskLen] + PrefixBytes(ps[1..])
  }

  /** Each prefix takes its address and then its mask length. */
  lemma {:induction false} PrefixLayout(ps: seq<PrefixIpv4>, p: PrefixIpv4)
    ensures PrefixBytes([]) == []
    ensures PrefixBytes(ps + [p]) == PrefixBytes(ps) + p.addr + [p.maskLen]
  {
    if ps == [] {
      assert ps + [p] == [p] && PrefixBytes([p][1..]) == [];
    } else {
      assert (ps + [p])[1..] == ps[1..] + [p];
      PrefixLayout(ps[1..], p);
    }
  }

  /** The append loop of both encoders; it gives up at the first mask that is too long. */
  method AppendPrefixes(start: bytes, ps: seq<PrefixIpv4>) returns (r: Result<bytes, CmdError>)
    ensures r == if ValidPrefixes(ps) then Ok(start + PrefixBytes(ps)) else Err(InvalidField)
    ensures r.Err? <==> exists p :: p in ps && p.maskLen > 32
  {
    var out := start;
    for i := 0 to |ps|
      invariant out + PrefixBytes(ps[i..]) == start + PrefixBytes(ps)
      invariant ValidPrefixes(ps[..i])
    {
      if ps[i].maskLen > 32 {
        return Err(InvalidField);
      }
      ghost var entry := ps[i].addr + [ps[i].maskLen];
      assert PrefixBytes(ps[i..]) == entry + PrefixBytes(ps[i + 1..]);
      ConcatAssoc(out, entry, PrefixBytes(ps[i + 1..]));
      ConcatAssoc(out, ps[i].addr, [ps[i].maskLen]);
      out := out + ps[i].addr;
      out := out + [ps[i].maskLen];
      assert ps[..i + 1] == ps[..i] + [ps[i]];
    }
    assert ps[..|ps|] == ps && out + [] == out;
    return Ok(out);
  }

  /** The first n prefixes of s. */
  function DecodedPrefixes(s: bytes, n: nat): (r: Result<seq<PrefixIpv4>, CmdError>)
    requires |s| >= PREFIX_IPV4_WIRE_SIZE * n
    ensures r.Ok? ==> |r.value| == n
  {
    if n == 0 then Ok([])
    else if s[4] > 32 then Err(InvalidField)
    else Prepend([PrefixIpv4(s[..4], s[4])], DecodedPrefixes(s[PREFIX_IPV4_WIRE_SIZE..], n - 1))
  }

  /** The k-th prefix from a position on has a mask that is too long. */
  predicate LongMask(raw: bytes, at: nat, k: nat)
    requires at + 5 * (k + 1) <= |raw|
  {
    raw[at + 5 * k + 4] > 32
  }

  predicate AnyLongMask(raw: bytes, at: nat, count: nat)
    requires at + 5 * count <= |raw|
  {
    exists k: nat :: k < count && LongMask(raw, at, k)
  }

  method DecodePrefixes(raw: bytes, at: nat, count: nat) returns (r: Result<seq<PrefixIpv4>, CmdError>)
    requires at + PREFIX_IPV4_WIRE_SIZE * count <= |raw|
    ensures r == DecodedPrefixes(raw[at..], count)
    ensures r.Err? <==> AnyLongMask(raw, at, count)
    ensures r.Err? ==> r.error == InvalidField
  {
    var pos := at;
    var prefixes: seq<PrefixIpv4> := [];
    PrependNothing(DecodedPrefixes(raw[at..], count));
    for i := 0 to count
      invariant pos == at + PREFIX_IPV4_WIRE_SIZE * i
      invariant forall k: nat :: k < i ==> !LongMask(raw, at, k)
      invariant DecodedPrefixes(raw[at..], count) == Prepend(prefixes, DecodedPrefixes(raw[pos..], count - i))
    {
      var s := raw[pos..];
      var p := PrefixIpv4(raw[pos..pos + 4], raw[pos + 4]);
      assert s[..4] == p.addr && s[4] == p.maskLen && s[PREFIX_IPV4_WIRE_SIZE..] == raw[pos + PREFIX_IPV4_WIRE_SIZE..];
      if p.maskLen > 32 {
        assert LongMask(raw, at, i);
        return Err(InvalidField);
      }
      pos := pos + PREFIX_IPV4_WIRE_SIZE;
      PrependTwice(prefixes, [p], DecodedPrefixes(raw[pos..], count - i - 1));
      prefixes := prefixes + [p];
    }
    assert prefixes + [] == prefixes;
    return Ok(prefixes);
  }

  lemma {:induction false} PrefixesCodec(s: bytes, ps: seq<PrefixIpv4>)
    requires |s| >= PREFIX_IPV4_WIRE_SIZE * |ps|
    ensures DecodedPrefixes(s, |ps|) == Ok(ps) <==> ValidPrefixes(ps) && PrefixBytes(ps) <= s
  {
    if ps != [] {
      var t := s[PREFIX_IPV4_WIRE_SIZE..];
      PrefixesCodec(t, ps[1..]);
      assert ps == [ps[0]] + ps[1..];
      var entry := ps[0].addr + [ps[0].maskLen];
      PrefixSplit(entry, PrefixBytes(ps[1..]), s);
      assert s[..5] == s[..4] + [s[4]];
      SameHalves(s[..4], [s[4]], ps[0].addr, [ps[0].maskLen]);
      assert [s[4]] == [ps[0].maskLen] <==> [s[4]][0] == [ps[0].maskLen][0];
    }
  }

  // ----- one interface entry

  predicate EncodableInterface(i: Interface) {
    |i.prefixes| <= 0xFFFF && ValidPrefixes(i.prefixes)
  }

  function InterfaceHead(i: Interface): (r: bytes)
    ensures |r| == INTERFACE_FIXED_SIZE
  {
    i.ifaceName + i.nexthopAddr + Be32(i.nexthopId) + Be16(ToU16(|i.prefixes|))
  }

  function InterfaceBytes(i: Interface): bytes {
    InterfaceHead(i) + PrefixBytes(i.prefixes)
  }

  method AppendInterface(start: bytes, i: Interface) returns (r: Result<bytes, CmdError>)
    ensures r == if EncodableInterface(i) then Ok(start + InterfaceBytes(i)) else Err(InvalidField)
    ensures r.Err? <==> |i.prefixes| > 0xFFFF || exists p :: p in i.prefixes && p.maskLen > 32
  {
    if |i.prefixes| > 0xFFFF {
      return Err(InvalidField);
    }
    var out := start;
    for k := 0 to IFACE_NAME_SIZE
      invariant out == start + i.ifaceName[..k]
    {
      out := out + [i.ifaceName[k]];
    }
    out := out + i.nexthopAddr;
    out := out + Be32(i.nexthopId);
    out := out + Be16(ToU16(|i.prefixes|));
    assert out == start + InterfaceHead(i);
    r := AppendPrefixes(out, i.prefixes);
    ConcatAssoc(start, InterfaceHead(i), PrefixBytes(i.prefixes));
  }

  /** An entry on the wire: name, next hop, its identifier, the number of prefixes, and the prefixes. */
  lemma InterfaceLayout(i: Interface)
    requires |i.prefixes| <= 0xFFFF
    ensures var n, id := |i.prefixes|, i.nexthopId;
      InterfaceBytes(i) == i.ifaceName + i.nexthopAddr
        + [id / 0x100_0000, id / 0x1_0000 % 0x100, id / 0x100 % 0x100, id % 0x100] + [n / 0x100, n % 0x100]
        + PrefixBytes(i.prefixes)
  {
    Be32Bytes(i.nexthopId);
    ToU16Exact(|i.prefixes|);
    HeadJoined(i, Be32(i.nexthopId), Be16(|i.prefixes|));
  }

  lemma HeadJoined(i: Interface, id: bytes, count: bytes)
    requires id == Be32(i.nexthopId) && count == Be16(ToU16(|i.prefixes|))
    ensures InterfaceBytes(i) == i.ifaceName + i.nexthopAddr + id + count + PrefixBytes(i.prefixes)
  {
  }

  /** The size of the interface entry at the front of s. */
  function InterfaceSize(s: bytes): nat
    requires |s| >= INTERFACE_FIXED_SIZE
  {
    INTERFACE_FIXED_SIZE + PREFIX_IPV4_WIRE_SIZE * At16(s, 40)
  }

  function DecodedInterface(s: bytes): (r: Result<Interface, CmdError>)
    ensures r.Ok? ==> INTERFACE_FIXED_SIZE <= |s| && InterfaceSize(s) <= |s|
  {
    if |s| < INTERFACE_FIXED_SIZE || |s| < InterfaceSize(s) then Err(InvalidCommand)
    else
      var ps := DecodedPrefixes(s[INTERFACE_FIXED_SIZE..], At16(s, 40));
      if ps.Err? then Err(ps.error) else Ok(Interface(s[..32], s[32..36], At32(s, 36), ps.value))
  }

  /** The body of both decoders' entry loops, at a position where the fixed part is known to fit. */
  method DecodeInterface(raw: bytes, at: nat) returns (r: Result<Interface, CmdError>, pos: nat)
    requires at + INTERFACE_FIXED_SIZE <= |raw|
    ensures r == DecodedInterface(raw[at..])
    ensures r.Ok? ==> pos == at + InterfaceSize(raw[at..])
    ensures |raw| - at - 42 < 5 * At16(raw, at + 40) ==> r == Err(InvalidCommand)
    ensures |raw| - at - 42 >= 5 * At16(raw, at + 40) ==>
      (r.Err? <==> AnyLongMask(raw, at + 42, At16(raw, at + 40)))
    ensures |raw| - at - 42 >= 5 * At16(raw, at + 40) && r.Err? ==> r == Err(InvalidField)
  {
    ghost var s := raw[at..];
    pos := at;
    var name: bytes := [];
    for j := 0 to IFACE_NAME_SIZE
      invariant name == raw[pos..pos + j]
    {
      name := name + [raw[pos + j]];
    }
    pos := pos + IFACE_NAME_SIZE;
    var nexthop := raw[pos..pos + 4];
    pos := pos + 4;
    var nexthopId := At32(raw, pos);
    pos := pos + 4;
    var prefixCount := At16(raw, pos);
    pos := pos + 2;
    assert s[..32] == name && s[32..36] == nexthop && At32(s, 36) == nexthopId && At16(s, 40) == prefixCount;
    assert s[INTERFACE_FIXED_SIZE..] == raw[pos..];
    var prefixBytes := prefixCount * PREFIX_IPV4_WIRE_SIZE;
    if |raw| - pos < prefixBytes {
      return Err(InvalidCommand), pos;
    }
    var prefixes := DecodePrefixes(raw, pos, prefixCount);
    if prefixes.Err? {
      return Err(prefixes.error), pos;
    }
    pos := pos + prefixBytes;
    return Ok(Interface(name, nexthop, nexthopId, prefixes.value)), pos;
  }

  lemma HeadFields(h: bytes, i: Interface)
    requires |h| == INTERFACE_FIXED_SIZE
    ensures h == InterfaceHead(i) <==>
      && h[..32] == i.ifaceName && h[32..36] == i.nexthopAddr
      && At32(h, 36) == i.nexthopId && At16(h, 40) == ToU16(|i.prefixes|)
  {
    Be32RoundTrip(h, 36, i.nexthopId);
    Be16RoundTrip(h, 40, ToU16(|i.prefixes|));
    var a, b, c, d := h[..32], h[32..36], h[36..40], h[40..42];
    assert h == a + b + c + d;
    var w, x := Be32(i.nexthopId), Be16(ToU16(|i.prefixes|));
    SameHalves(a + b + c, d, i.ifaceName + i.nexthopAddr + w, x);
    SameHalves(a + b, c, i.ifaceName + i.nexthopAddr, w);
    SameHalves(a, b, i.ifaceName, i.nexthopAddr);
  }

  /** An entry is read off the front of s exactly when its encoding stands there. */
  lemma InterfaceCodec(s: bytes, i: Interface)
    ensures DecodedInterface(s) == Ok(i) <==> EncodableInterface(i) && InterfaceBytes(i) <= s
    ensures DecodedInterface(s) == Ok(i) ==> InterfaceSize(s) == |InterfaceBytes(i)|
  {
    if |s| >= INTERFACE_FIXED_SIZE {
      var h, t := s[..INTERFACE_FIXED_SIZE], s[INTERFACE_FIXED_SIZE..];
      HeadFields(h, i);
      assert h[..32] == s[..32] && h[32..36] == s[32..36] && At32(h, 36) == At32(s, 36) && At16(h, 40) == At16(s, 40);
      ToU16Exact(|i.prefixes|);
      PrefixSplit(InterfaceHead(i), PrefixBytes(i.prefixes), s);
      if |t| >= PREFIX_IPV4_WIRE_SIZE * |i.prefixes| {
        PrefixesCodec(t, i.prefixes);
      }
    }
  }
}
