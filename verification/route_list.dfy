/** unix_domain/lib/cmd_proto.cpp: the ROUTE_LIST response payload. */
module RouteList {
  import opened Bytes
  import opened CmdProto

  const ROUTE_ENTRY_MIN_SIZE := 12

  datatype RouteEntry = RouteEntry(dstAddr: Ipv4, prefixLen: byte, gateway: Ipv4, metric: u16, ifName: bytes)

  function EntryHead(r: RouteEntry): (h: bytes)
    ensures |h| == ROUTE_ENTRY_MIN_SIZE
  {
    r.dstAddr + [r.prefixLen] + r.gateway + Be16(r.metric) + [ToU8(|r.ifName|)]
  }

  function EntryBytes(r: RouteEntry): bytes {
    EntryHead(r) + r.ifName
  }

  function EncodedRoutes(rs: seq<RouteEntry>): bytes {
    if rs == [] then [] else EntryBytes(rs[0]) + EncodedRoutes(rs[1..])
  }

  /** Each entry: destination, prefix length, gateway, metric, the low byte of the name's length, and the name. */
  lemma {:induction false} EntryLayout(rs: seq<RouteEntry>, r: RouteEntry)
    ensures EncodedRoutes([]) == []
    ensures EncodedRoutes(rs + [r]) == EncodedRoutes(rs)
      + (r.dstAddr + [r.prefixLen] + r.gateway + [r.metric / 0x100, r.metric % 0x100] + [|r.ifName| % 0x100] + r.ifName)
  {
    if rs == [] {
      assert rs + [r] == [r] && EncodedRoutes([r][1..]) == [];
    } else {
      assert (rs + [r])[1..] == rs[1..] + [r];
      EntryLayout(rs[1..], r);
    }
  }

  method EncodeRouteList(rs: seq<RouteEntry>) returns (out: bytes)
    ensures out == EncodedRoutes(rs)
  {
    out := [];
    for i := 0 to |rs|
      invariant out + EncodedRoutes(rs[i..]) == EncodedRoutes(rs)
    {
      ghost var before, r := out, rs[i];
      out := out + rs[i].dstAddr;
      out := out + [rs[i].prefixLen];
      out := out + rs[i].gateway;
      out := out + Be16(rs[i].metric);
      out := out + [ToU8(|rs[i].ifName|)];
      assert out == before + EntryHead(r);
      out := out + rs[i].ifName;
      ConcatAssoc(before, EntryHead(r), r.ifName);
      ConcatAssoc(before, EntryBytes(r), EncodedRoutes(rs[i + 1..]));
    }
  }

  function EntrySize(s: bytes): nat
    requires |s| >= ROUTE_ENTRY_MIN_SIZE
  {
    ROUTE_ENTRY_MIN_SIZE + s[11]
  }

  function DecodedEntry(s: bytes): (r: Result<RouteEntry, CmdError>)
    ensures r.Ok? ==> ROUTE_ENTRY_MIN_SIZE <= |s| && EntrySize(s) <= |s|
  {
    if |s| < ROUTE_ENTRY_MIN_SIZE || |s| < EntrySize(s) then Err(InvalidCommand)
    else Ok(RouteEntry(s[..4], s[4], s[5..9], At16(s, 9), s[12..EntrySize(s)]))
  }

  function DecodedRoutes(s: bytes): Result<seq<RouteEntry>, CmdError>
    decreases |s|
  {
    if s == [] then Ok([])
    else
      var r := DecodedEntry(s);
      if r.Err? then Err(r.error) else Prepend([r.value], DecodedRoutes(s[EntrySize(s)..]))
  }

  /** One turn of the decoder's loop. */
  method DecodeEntry(raw: bytes, at: nat) returns (r: Result<RouteEntry, CmdError>, pos: nat)
    requires at < |raw|
    ensures r == DecodedEntry(raw[at..])
    ensures r.Ok? ==> pos == at + EntrySize(raw[at..])
    ensures |raw| - at < 12 ==> r == Err(InvalidCommand)
    ensures |raw| - at >= 12 ==> if |raw| - at - 12 < raw[at + 11] then r == Err(InvalidCommand) else r.Ok?
  {
    pos := at;
    if |raw| - pos < ROUTE_ENTRY_MIN_SIZE {
      return Err(InvalidCommand), pos;
    }
    ghost var s := raw[at..];
    var dst := raw[pos..pos + 4];
    pos := pos + 4;
    var prefixLen := raw[pos];
    pos := pos + 1;
    var gateway := raw[pos..pos + 4];
    pos := pos + 4;
    var metric := At16(raw, pos);
    pos := pos + 2;
    var nameLen := raw[pos];
    pos := pos + 1;
    assert s[..4] == dst && s[4] == prefixLen && s[5..9] == gateway && At16(s, 9) == metric && s[11] == nameLen;
    if |raw| - pos < nameLen {
      return Err(InvalidCommand), pos;
    }
    var name := raw[pos..pos + nameLen];
    assert s[12..12 + nameLen] == name;
    pos := pos + nameLen;
    return Ok(RouteEntry(dst, prefixLen, gateway, metric, name)), pos;
  }

  method DecodeRouteList(raw: bytes) returns (r: Result<seq<RouteEntry>, CmdError>)
    ensures r == DecodedRoutes(raw)
  {
    var routes: seq<RouteEntry> := [];
    var pos := 0;
    assert raw[0..] == raw;
    PrependNothing(DecodedRoutes(raw));
    while pos < |raw|
      invariant pos <= |raw|
      invariant DecodedRoutes(raw) == Prepend(routes, DecodedRoutes(raw[pos..]))
      decreases |raw| - pos
    {
      var entry, next := DecodeEntry(raw, pos);
      if entry.Err? {
        return Err(entry.error);
      }
      assert raw[pos..][EntrySize(raw[pos..])..] == raw[next..];
      PrependTwice(routes, [entry.value], DecodedRoutes(raw[next..]));
      routes := routes + [entry.value];
      pos := next;
    }
    assert routes + [] == routes;
    return Ok(routes);
  }

  lemma HeadFields(h: bytes, r: RouteEntry)
    requires |h| == ROUTE_ENTRY_MIN_SIZE
    ensures h == EntryHead(r) <==>
      && h[..4] == r.dstAddr && h[4] == r.prefixLen && h[5..9] == r.gateway
      && At16(h, 9) == r.metric && h[11] == ToU8(|r.ifName|)
  {
    Be16RoundTrip(h, 9, r.metric);
    var a, b, c, d, e := h[..4], [h[4]], h[5..9], h[9..11], [h[11]];
    assert h == a + b + c + d + e;
    SameHalves(a + b + c + d, e, r.dstAddr + [r.prefixLen] + r.gateway + Be16(r.metric), [ToU8(|r.ifName|)]);
    SameHalves(a + b + c, d, r.dstAddr + [r.prefixLen] + r.gateway, Be16(r.metric));
    SameHalves(a + b, c, r.dstAddr + [r.prefixLen], r.gateway);
    SameHalves(a, b, r.dstAddr, [r.prefixLen]);
    assert b == [r.prefixLen] <==> b[0] == r.prefixLen;
    assert e == [ToU8(|r.ifName|)] <==> e[0] == ToU8(|r.ifName|);
  }

  lemma EntryCodec(s: bytes, r: RouteEntry)
    ensures DecodedEntry(s) == Ok(r) <==> |r.ifName| <= 0xFF && EntryBytes(r) <= s
    ensures DecodedEntry(s) == Ok(r) ==> EntrySize(s) == |EntryBytes(r)|
  {
    PrefixSplit(EntryHead(r), r.ifName, s);
    if |s| >= ROUTE_ENTRY_MIN_SIZE {
      var h, t := s[..ROUTE_ENTRY_MIN_SIZE], s[ROUTE_ENTRY_MIN_SIZE..];
      HeadFields(h, r);
      assert h[..4] == s[..4] && h[5..9] == s[5..9] && At16(h, 9) == At16(s, 9);
      if |r.ifName| <= |t| {
        assert r.ifName <= t <==> r.ifName == t[..|r.ifName|];
        assert t[..|r.ifName|] == s[12..12 + |r.ifName|];
      }
    }
  }

  lemma RoutesStep(r: RouteEntry, rest: bytes)
    requires |r.ifName| <= 0xFF
    ensures DecodedRoutes(EntryBytes(r) + rest) == Prepend([r], DecodedRoutes(rest))
  {
    var s := EntryBytes(r) + rest;
    EntryCodec(s, r);
    assert s[|EntryBytes(r)|..] == rest;
  }

  lemma RoutesUnstep(s: bytes) returns (r: RouteEntry, rest: bytes)
    requires s != [] && DecodedRoutes(s).Ok?
    ensures |r.ifName| <= 0xFF && s == EntryBytes(r) + rest
    ensures DecodedRoutes(s) == Prepend([r], DecodedRoutes(rest))
  {
    r, rest := DecodedEntry(s).value, s[EntrySize(s)..];
    EntryCodec(s, r);
  }

  /** A cut-off entry behind good ones refuses the whole list. */
  lemma {:induction false} RoutesRefused(rs: seq<RouteEntry>, rest: bytes)
    requires ShortNames(rs) && rest != [] && DecodedEntry(rest).Err?
    ensures DecodedRoutes(EncodedRoutes(rs) + rest) == Err(InvalidCommand)
  {
    if rs == [] {
      assert EncodedRoutes(rs) + rest == rest;
    } else {
      RoutesRefused(rs[1..], rest);
      ConcatAssoc(EntryBytes(rs[0]), EncodedRoutes(rs[1..]), rest);
      RoutesStep(rs[0], EncodedRoutes(rs[1..]) + rest);
    }
  }

  predicate ShortNames(rs: seq<RouteEntry>) {
    forall r :: r in rs ==> |r.ifName| <= 0xFF
  }

  lemma {:induction false} RoutesEncode(rs: seq<RouteEntry>)
    requires ShortNames(rs)
    ensures DecodedRoutes(EncodedRoutes(rs)) == Ok(rs)
  {
    if rs != [] {
      RoutesEncode(rs[1..]);
      RoutesStep(rs[0], EncodedRoutes(rs[1..]));
      assert [rs[0]] + rs[1..] == rs;
    }
  }

  lemma {:induction false} RoutesDecode(s: bytes)
    requires DecodedRoutes(s).Ok?
    ensures ShortNames(DecodedRoutes(s).value) && EncodedRoutes(DecodedRoutes(s).value) == s
    decreases |s|
  {
    if s != [] {
      var r, rest := RoutesUnstep(s);
      RoutesDecode(rest);
      assert DecodedRoutes(s).value[1..] == DecodedRoutes(rest).value;
    }
  }

  /**
   * A response decodes to a route list exactly when it is the encoding of that list and every interface
   * name fits its one-byte length.
   */
  lemma RouteListCodec(raw: bytes, rs: seq<RouteEntry>)
    ensures DecodedRoutes(raw) == Ok(rs) <==> raw == EncodedRoutes(rs) && ShortNames(rs)
  {
    if DecodedRoutes(raw) == Ok(rs) {
      RoutesDecode(raw);
    }
    if raw == EncodedRoutes(rs) && ShortNames(rs) {
      RoutesEncode(rs);
    }
  }
}
