/**
 * unix_domain/lib/cmd_proto.cpp: whole ROUTE_ADD request payloads. A VRF request runs to the end of its
 * payload; an interface request is counted and ignores what follows.
 */
module RouteRequests {
  import opened Bytes
  import opened CmdProto
  import opened RoutePayloads

  // ----- VRF requests

  predicate EncodableVrfs(vrs: seq<VrfsRequest>) {
    forall v :: v in vrs ==> EncodableInterface(v.hop)
  }

  function VrfBytes(v: VrfsRequest): (r: bytes)
    ensures |r| >= VRFS_REQUEST_FIXED_SIZE
  {
    v.vrfsName + InterfaceBytes(v.hop)
  }

  function VrfsBytes(vrs: seq<VrfsRequest>): bytes {
    if vrs == [] then [] else VrfBytes(vrs[0]) + VrfsBytes(vrs[1..])
  }

  /** An entry is its own name and then what an interface entry has; entries follow each other in order. */
  lemma {:induction false} VrfLayout(vrs: seq<VrfsRequest>, v: VrfsRequest)
    ensures VrfsBytes([]) == []
    ensures VrfsBytes(vrs + [v]) == VrfsBytes(vrs) + v.vrfsName + InterfaceBytes(v.hop)
  {
    if vrs == [] {
      assert vrs + [v] == [v] && VrfsBytes([v][1..]) == [];
    } else {
      assert (vrs + [v])[1..] == vrs[1..] + [v];
      VrfLayout(vrs[1..], v);
    }
  }

  function EncodedVrfs(vrs: seq<VrfsRequest>): Result<bytes, CmdError> {
    if EncodableVrfs(vrs) then Ok([SINGLE_ROUTE] + VrfsBytes(vrs)) else Err(InvalidField)
  }

  method AppendVrf(start: bytes, v: VrfsRequest) returns (r: Result<bytes, CmdError>)
    ensures r == if EncodableInterface(v.hop) then Ok(start + VrfBytes(v)) else Err(InvalidField)
  {
    if |v.hop.prefixes| > 0xFFFF {
      return Err(InvalidField);
    }
    var out := start;
    for i := 0 to VRFS_NAME_SIZE
      invariant out == start + v.vrfsName[..i]
    {
      out := out + [v.vrfsName[i]];
    }
    assert out == start + v.vrfsName;
    r := AppendInterface(out, v.hop);
    ConcatAssoc(start, v.vrfsName, InterfaceBytes(v.hop));
  }

  method EncodeVrfs(vrs: seq<VrfsRequest>) returns (r: Result<bytes, CmdError>)
    ensures r == EncodedVrfs(vrs)
    ensures r.Err? ==> r == Err(InvalidField)
    ensures r.Err? <==>
      exists v :: v in vrs && (|v.hop.prefixes| > 0xFFFF || exists p :: p in v.hop.prefixes && p.maskLen > 32)
    ensures r.Ok? ==> r.value == [1] + VrfsBytes(vrs)
  {
    var out := [SINGLE_ROUTE];
    for vi := 0 to |vrs|
      invariant out + VrfsBytes(vrs[vi..]) == [SINGLE_ROUTE] + VrfsBytes(vrs)
      invariant EncodableVrfs(vrs[..vi])
    {
      r := AppendVrf(out, vrs[vi]);
      if r.Err? {
        return;
      }
      ConcatAssoc(out, VrfBytes(vrs[vi]), VrfsBytes(vrs[vi + 1..]));
      out := r.value;
      assert vrs[..vi + 1] == vrs[..vi] + [vrs[vi]];
    }
    assert vrs[..|vrs|] == vrs && out + [] == out;
    return Ok(out);
  }

  function DecodedVrf(s: bytes): (r: Result<VrfsRequest, CmdError>)
    ensures r.Ok? ==> VRFS_REQUEST_FIXED_SIZE <= |s| && VrfSize(s) <= |s|
  {
    if |s| < VRFS_REQUEST_FIXED_SIZE then Err(InvalidCommand)
    else
      var hop := DecodedInterface(s[VRFS_NAME_SIZE..]);
      if hop.Err? then Err(hop.error) else Ok(VrfsRequest(s[..VRFS_NAME_SIZE], hop.value))
  }

  function VrfSize(s: bytes): nat
    requires |s| >= VRFS_REQUEST_FIXED_SIZE
  {
    VRFS_NAME_SIZE + InterfaceSize(s[VRFS_NAME_SIZE..])
  }

  /** The entries that fill s to its end. */
  function DecodedEntries(s: bytes): Result<seq<VrfsRequest>, CmdError>
    decreases |s|
  {
    if s == [] then Ok([])
    else
      var v := DecodedVrf(s);
      if v.Err? then Err(v.error) else Prepend([v.value], DecodedEntries(s[VrfSize(s)..]))
  }

  function DecodedVrfs(raw: bytes): Result<seq<VrfsRequest>, CmdError> {
    if raw == [] || raw[0] != SINGLE_ROUTE then Err(InvalidCommand) else DecodedEntries(raw[1..])
  }

  /** One turn of the decoder's loop. */
  method DecodeVrf(raw: bytes, at: nat) returns (r: Result<VrfsRequest, CmdError>, pos: nat)
    requires at <= |raw|
    ensures r == DecodedVrf(raw[at..])
    ensures r.Ok? ==> pos == at + VrfSize(raw[at..])
    ensures |raw| - at < 58 || |raw| - at - 58 < 5 * At16(raw, at + 56) ==> r == Err(InvalidCommand)
    ensures |raw| - at >= 58 && |raw| - at - 58 >= 5 * At16(raw, at + 56) && r.Err? ==> r == Err(InvalidField)
  {
    pos := at;
    if |raw| - pos < VRFS_REQUEST_FIXED_SIZE {
      return Err(InvalidCommand), pos;
    }
    ghost var s := raw[pos..];
    var name: bytes := [];
    for i := 0 to VRFS_NAME_SIZE
      invariant name == raw[pos..pos + i]
    {
      name := name + [raw[pos + i]];
    }
    assert s[..VRFS_NAME_SIZE] == name && s[VRFS_NAME_SIZE..] == raw[pos + VRFS_NAME_SIZE..];
    var hop;
    hop, pos := DecodeInterface(raw, pos + VRFS_NAME_SIZE);
    if hop.Err? {
      return Err(hop.error), pos;
    }
    return Ok(VrfsRequest(name, hop.value)), pos;
  }

  method DecodeVrfs(raw: bytes) returns (r: Result<seq<VrfsRequest>, CmdError>)
    ensures r == DecodedVrfs(raw)
    ensures raw == [] || raw[0] != 1 ==> r == Err(InvalidCommand)
    ensures raw == [1] ==> r == Ok([])
  {
    if raw == [] || raw[0] != SINGLE_ROUTE {
      return Err(InvalidCommand);
    }
    var req: seq<VrfsRequest> := [];
    var pos := 1;
    PrependNothing(DecodedEntries(raw[1..]));
    while pos < |raw|
      invariant 1 <= pos <= |raw|
      invariant DecodedVrfs(raw) == Prepend(req, DecodedEntries(raw[pos..]))
      decreases |raw| - pos
    {
      var vr, next := DecodeVrf(raw, pos);
      if vr.Err? {
        return Err(vr.error);
      }
      assert raw[pos..][VrfSize(raw[pos..])..] == raw[next..];
      PrependTwice(req, [vr.value], DecodedEntries(raw[next..]));
      req := req + [vr.value];
      pos := next;
    }
    assert req + [] == req;
    return Ok(req);
  }

  lemma VrfCodec(s: bytes, v: VrfsRequest)
    ensures DecodedVrf(s) == Ok(v) <==> EncodableInterface(v.hop) && VrfBytes(v) <= s
    ensures DecodedVrf(s) == Ok(v) ==> VrfSize(s) == |VrfBytes(v)|
  {
    PrefixSplit(v.vrfsName, InterfaceBytes(v.hop), s);
    if |s| >= VRFS_REQUEST_FIXED_SIZE {
      InterfaceCodec(s[VRFS_NAME_SIZE..], v.hop);
      assert v.vrfsName <= s <==> s[..VRFS_NAME_SIZE] == v.vrfsName;
    }
  }

  lemma EntriesStep(v: VrfsRequest, rest: bytes)
    requires EncodableInterface(v.hop)
    ensures DecodedEntries(VrfBytes(v) + rest) == Prepend([v], DecodedEntries(rest))
  {
    var s := VrfBytes(v) + rest;
    VrfCodec(s, v);
    assert s[|VrfBytes(v)|..] == rest;
  }

  lemma EntriesUnstep(s: bytes) returns (v: VrfsRequest, rest: bytes)
    requires s != [] && DecodedEntries(s).Ok?
    ensures EncodableInterface(v.hop) && s == VrfBytes(v) + rest
    ensures DecodedEntries(s) == Prepend([v], DecodedEntries(rest))
  {
    v, rest := DecodedVrf(s).value, s[VrfSize(s)..];
    VrfCodec(s, v);
  }

  lemma {:induction false} EntriesEncode(vrs: seq<VrfsRequest>)
    requires EncodableVrfs(vrs)
    ensures DecodedEntries(VrfsBytes(vrs)) == Ok(vrs)
  {
    if vrs != [] {
      EntriesEncode(vrs[1..]);
      EntriesStep(vrs[0], VrfsBytes(vrs[1..]));
      assert [vrs[0]] + vrs[1..] == vrs;
    }
  }

  lemma {:induction false} EntriesDecode(s: bytes)
    requires DecodedEntries(s).Ok?
    ensures EncodableVrfs(DecodedEntries(s).value) && VrfsBytes(DecodedEntries(s).value) == s
    decreases |s|
  {
    if s != [] {
      var v, rest := EntriesUnstep(s);
      EntriesDecode(rest);
      assert DecodedEntries(s).value[1..] == DecodedEntries(rest).value;
    }
  }

  /** A part that is refused behind good entries refuses the whole request, with its own error. */
  lemma {:induction false} EntriesRefused(vrs: seq<VrfsRequest>, rest: bytes)
    requires EncodableVrfs(vrs) && rest != [] && DecodedVrf(rest).Err?
    ensures DecodedEntries(VrfsBytes(vrs) + rest) == Err(DecodedVrf(rest).error)
  {
    if vrs == [] {
      assert VrfsBytes(vrs) + rest == rest;
    } else {
      EntriesRefused(vrs[1..], rest);
      ConcatAssoc(VrfBytes(vrs[0]), VrfsBytes(vrs[1..]), rest);
      EntriesStep(vrs[0], VrfsBytes(vrs[1..]) + rest);
    }
  }

  /** VRF requests: the decoder accepts exactly what the encoder emits, and the two are mutual inverses. */
  lemma VrfsCodec(raw: bytes, vrs: seq<VrfsRequest>)
    ensures DecodedVrfs(raw) == Ok(vrs) <==> EncodedVrfs(vrs) == Ok(raw)
  {
    if DecodedVrfs(raw) == Ok(vrs) {
      EntriesDecode(raw[1..]);
      assert raw == [raw[0]] + raw[1..];
    }
    if EncodedVrfs(vrs) == Ok(raw) {
      EntriesEncode(vrs);
      assert raw[1..] == VrfsBytes(vrs);
    }
  }

  // ----- interface requests

  predicate EncodableInterfaces(ifs: seq<Interface>) {
    |ifs| <= 0xFFFF && forall i :: i in ifs ==> EncodableInterface(i)
  }

  function InterfacesBytes(ifs: seq<Interface>): bytes {
    if ifs == [] then [] else InterfaceBytes(ifs[0]) + InterfacesBytes(ifs[1..])
  }

  lemma {:induction false} InterfacesInOrder(ifs: seq<Interface>, i: Interface)
    ensures InterfacesBytes([]) == []
    ensures InterfacesBytes(ifs + [i]) == InterfacesBytes(ifs) + InterfaceBytes(i)
  {
    if ifs == [] {
      assert ifs + [i] == [i] && InterfacesBytes([i][1..]) == [];
    } else {
      assert (ifs + [i])[1..] == ifs[1..] + [i];
      InterfacesInOrder(ifs[1..], i);
    }
  }

  function EncodedInterfaces(ifs: seq<Interface>): Result<bytes, CmdError> {
    if EncodableInterfaces(ifs) then Ok([INTERFACE_ROUTE] + Be16(|ifs|) + InterfacesBytes(ifs)) else Err(InvalidField)
  }

  method EncodeInterfaces(ifs: seq<Interface>) returns (r: Result<bytes, CmdError>)
    ensures r == EncodedInterfaces(ifs)
    ensures r.Err? ==> r == Err(InvalidField)
    ensures r.Err? <==> (|ifs| > 0xFFFF ||
      exists i :: i in ifs && (|i.prefixes| > 0xFFFF || exists p :: p in i.prefixes && p.maskLen > 32))
    ensures r.Ok? ==> r.value == [2, |ifs| / 0x100, |ifs| % 0x100] + InterfacesBytes(ifs)
  {
    if |ifs| > 0xFFFF {
      return Err(InvalidField);
    }
    var out := [INTERFACE_ROUTE];
    out := out + Be16(|ifs|);
    ghost var head := out;
    for k := 0 to |ifs|
      invariant out + InterfacesBytes(ifs[k..]) == head + InterfacesBytes(ifs)
      invariant forall i :: i in ifs[..k] ==> EncodableInterface(i)
    {
      var before := out;
      r := AppendInterface(out, ifs[k]);
      if r.Err? {
        return;
      }
      out := r.value;
      ConcatAssoc(before, InterfaceBytes(ifs[k]), InterfacesBytes(ifs[k + 1..]));
      assert ifs[..k + 1] == ifs[..k] + [ifs[k]];
    }
    assert ifs[..|ifs|] == ifs && out + [] == out;
    return Ok(out);
  }

  /** The first n interface entries of s. */
  function DecodedCounted(s: bytes, n: nat): (r: Result<seq<Interface>, CmdError>)
    ensures r.Ok? ==> |r.value| == n
    decreases n
  {
    if n == 0 then Ok([])
    else
      var i := DecodedInterface(s);
      if i.Err? then Err(i.error) else Prepend([i.value], DecodedCounted(s[InterfaceSize(s)..], n - 1))
  }

  function DecodedInterfaces(raw: bytes): Result<seq<Interface>, CmdError> {
    if |raw| < 3 || raw[0] != INTERFACE_ROUTE then Err(InvalidCommand) else DecodedCounted(raw[3..], At16(raw, 1))
  }

  method DecodeInterfaces(raw: bytes) returns (r: Result<seq<Interface>, CmdError>)
    ensures r == DecodedInterfaces(raw)
    ensures |raw| < 3 || raw[0] != 2 ==> r == Err(InvalidCommand)
    ensures |raw| >= 3 && raw[0] == 2 && r.Ok? ==> |r.value| == At16(raw, 1)
  {
    if |raw| < 3 {
      return Err(InvalidCommand);
    }
    if raw[0] != INTERFACE_ROUTE {
      return Err(InvalidCommand);
    }
    var ifaceCount := At16(raw, 1);
    var req: seq<Interface> := [];
    var pos := 3;
    PrependNothing(DecodedInterfaces(raw));
    for i := 0 to ifaceCount
      invariant 3 <= pos <= |raw|
      invariant DecodedInterfaces(raw) == Prepend(req, DecodedCounted(raw[pos..], ifaceCount - i))
    {
      if |raw| - pos < INTERFACE_FIXED_SIZE {
        return Err(InvalidCommand);
      }
      ghost var s := raw[pos..];
      var iface, next := DecodeInterface(raw, pos);
      if iface.Err? {
        return Err(iface.error);
      }
      assert s[InterfaceSize(s)..] == raw[next..];
      PrependTwice(req, [iface.value], DecodedCounted(raw[next..], ifaceCount - i - 1));
      req := req + [iface.value];
      pos := next;
    }
    assert req + [] == req;
    return Ok(req);
  }

  lemma {:induction false} CountedCodec(s: bytes, ifs: seq<Interface>)
    ensures DecodedCounted(s, |ifs|) == Ok(ifs) <==>
      (forall i :: i in ifs ==> EncodableInterface(i)) && InterfacesBytes(ifs) <= s
  {
    if ifs != [] {
      var h := InterfaceBytes(ifs[0]);
      InterfaceCodec(s, ifs[0]);
      PrefixSplit(h, InterfacesBytes(ifs[1..]), s);
      assert ifs == [ifs[0]] + ifs[1..];
      if h <= s {
        CountedCodec(s[|h|..], ifs[1..]);
      }
    }
  }

  /** An entry that is refused behind good ones refuses the whole request, with its own error. */
  lemma {:induction false} CountedRefused(ifs: seq<Interface>, rest: bytes, n: nat)
    requires (forall i :: i in ifs ==> EncodableInterface(i)) && n > |ifs| && DecodedInterface(rest).Err?
    ensures DecodedCounted(InterfacesBytes(ifs) + rest, n) == Err(DecodedInterface(rest).error)
  {
    if ifs == [] {
      assert InterfacesBytes(ifs) + rest == rest;
    } else {
      var h := InterfaceBytes(ifs[0]);
      CountedRefused(ifs[1..], rest, n - 1);
      ConcatAssoc(h, InterfacesBytes(ifs[1..]), rest);
      var s := h + (InterfacesBytes(ifs[1..]) + rest);
      InterfaceCodec(s, ifs[0]);
      assert s[|h|..] == InterfacesBytes(ifs[1..]) + rest;
    }
  }

  /** Interface requests: accepted exactly when the payload starts with the request's encoding; the rest is ignored. */
  lemma InterfacesCodec(raw: bytes, ifs: seq<Interface>)
    ensures DecodedInterfaces(raw) == Ok(ifs) <==> EncodedInterfaces(ifs).Ok? && EncodedInterfaces(ifs).value <= raw
  {
    if |raw| >= 3 && |ifs| <= 0xFFFF {
      var head := [INTERFACE_ROUTE] + Be16(|ifs|);
      Be16RoundTrip(raw, 1, |ifs|);
      assert raw[..3] == [raw[0]] + raw[1..3];
      SameHalves([raw[0]], raw[1..3], [INTERFACE_ROUTE], Be16(|ifs|));
      assert [raw[0]] == [INTERFACE_ROUTE] <==> [raw[0]][0] == INTERFACE_ROUTE;
      CountedCodec(raw[3..], ifs);
      PrefixSplit(head, InterfacesBytes(ifs), raw);
    }
  }
}
