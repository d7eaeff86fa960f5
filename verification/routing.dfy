/**
 * client/src/routing.cpp: the message sendRouteRequest builds for either address family, and the attribute
 * walk of listRoutes. The bounded append and the chain of attributes are those of Netlink.
 */
module Routing {
  import opened Bytes
  import opened Netlink

  const NL_REQ_SIZE := 1024
  const AF_INET6: byte := 10
  const RT_TABLE_COMPAT: byte := 252
  const RT_SCOPE_UNIVERSE: byte := 0
  const RT_SCOPE_LINK: byte := 253
  const RTA_MULTIPATH: u16 := 9
  const HOP_HDRLEN := 8

  /** Room for an address of either family. */
  type AddrBuf = a: bytes | |a| == 16 witness ZeroBytes(16)

  function AddrLen(family: byte): (n: nat)
    ensures 4 <= n <= 16
  {
    if family == AF_INET6 then 16 else 4
  }

  /** A parsed request; an interface index of 0 stands for no interface. */
  datatype Request = Request(family: byte, dst: AddrBuf, prefixLen: byte, gateway: Option<AddrBuf>, oif: u32,
                             metric: u32, table: u32, protocol: byte, scope: byte, kind: byte)

  /** A route without a destination is the default route. */
  datatype KernelRoute = KernelRoute(family: byte, destination: Option<bytes>, prefixLen: byte, gateway: Option<bytes>,
                                     interfaceIndex: u32, metric: u32, table: u32, protocol: byte, scope: byte,
                                     kind: byte)

  // ----- the request

  /** A route to a directly attached interface never has universal scope. */
  function EffectiveScope(p: Request): byte {
    if p.scope == RT_SCOPE_UNIVERSE && p.gateway.None? && p.oif != 0 then RT_SCOPE_LINK else p.scope
  }

  function RequestBody(p: Request): (b: bytes)
    ensures |b| == RTMSG_SIZE
  {
    [p.family, p.prefixLen, 0, 0, if p.table <= 255 then p.table else RT_TABLE_COMPAT, p.protocol, EffectiveScope(p),
     p.kind, 0, 0, 0, 0]
  }

  function GatewayBytes(p: Request): bytes {
    if p.gateway.Some? then p.gateway.value[..AddrLen(p.family)] else []
  }

  function RequestAttrs(p: Request): seq<Attr> {
    [Attr(RTA_DST, p.dst[..AddrLen(p.family)])]
    + OptionalAttr(p.gateway.Some?, RTA_GATEWAY, GatewayBytes(p))
    + OptionalAttr(p.oif != 0, RTA_OIF, Le32(p.oif))
    + OptionalAttr(p.metric != 0, RTA_PRIORITY, Le32(p.metric))
    + OptionalAttr(p.table > 255, RTA_TABLE, Le32(p.table))
  }

  function Space(present: bool, size: nat): nat {
    if present then Align4(RTA_HDRLEN + size) else 0
  }

  function RequestSize(p: Request): nat {
    ATTRS_START + Space(true, AddrLen(p.family)) + Space(p.gateway.Some?, AddrLen(p.family))
    + Space(p.oif != 0, 4) + Space(p.metric != 0, 4) + Space(p.table > 255, 4)
  }

  method AppendIf(msg: NlMsg, present: bool, kind: u16, data: bytes) returns (ok: bool)
    requires msg.Valid()
    modifies msg, msg.buf
    ensures msg.Valid()
    ensures ok <==> old(msg.len) + Space(present, |data|) <= msg.buf.Length
    ensures ok ==> msg.len == old(msg.len) + Space(present, |data|)
    ensures ok ==> msg.attrs == old(msg.attrs) + OptionalAttr(present, kind, data)
  {
    if !present {
      return true;
    }
    ok := msg.AddRtAttr(kind, data);
  }

  /** Destination and next hop; the answer names the attribute that found no room. */
  method AppendAddresses(msg: NlMsg, p: Request) returns (missing: Option<u16>)
    requires msg.Valid()
    modifies msg, msg.buf
    ensures msg.Valid()
    ensures missing.None? <==>
      old(msg.len) + Space(true, AddrLen(p.family)) + Space(p.gateway.Some?, AddrLen(p.family)) <= msg.buf.Length
    ensures missing.None? ==>
      && msg.len == old(msg.len) + Space(true, AddrLen(p.family)) + Space(p.gateway.Some?, AddrLen(p.family))
      && msg.attrs == old(msg.attrs) + [Attr(RTA_DST, p.dst[..AddrLen(p.family)])]
                      + OptionalAttr(p.gateway.Some?, RTA_GATEWAY, GatewayBytes(p))
  {
    var ok := AppendIf(msg, true, RTA_DST, p.dst[..AddrLen(p.family)]);
    if !ok { return Some(RTA_DST); }
    ok := AppendIf(msg, p.gateway.Some?, RTA_GATEWAY, GatewayBytes(p));
    return if ok then None else Some(RTA_GATEWAY);
  }

  /** The message, or the kind of attribute that found no room: it succeeds exactly when the capacity suffices. */
  method BuildRouteRequest(p: Request, head: Head, capacity: nat) returns (r: Result<NlMsg, u16>)
    requires ATTRS_START <= capacity <= 0xFFFF
    ensures r.Ok? <==> RequestSize(p) <= capacity
    ensures r.Ok? ==> r.value.Valid() && IsMessage(r.value.buf[..r.value.len], head, RequestBody(p), RequestAttrs(p))
  {
    var msg := new NlMsg(capacity, head, RequestBody(p));
    var missing := AppendAddresses(msg, p);
    if missing.Some? { return Err(missing.value); }
    assert [] + [Attr(RTA_DST, p.dst[..AddrLen(p.family)])] == [Attr(RTA_DST, p.dst[..AddrLen(p.family)])];
    var ok := AppendIf(msg, p.oif != 0, RTA_OIF, Le32(p.oif));
    if !ok { return Err(RTA_OIF); }
    ok := AppendIf(msg, p.metric != 0, RTA_PRIORITY, Le32(p.metric));
    if !ok { return Err(RTA_PRIORITY); }
    ok := AppendIf(msg, p.table > 255, RTA_TABLE, Le32(p.table));
    if !ok { return Err(RTA_TABLE); }
    WholeMessage(msg);
    return Ok(msg);
  }

  /** No request overflows the buffer that is reserved for it. */
  lemma RequestFits(p: Request)
    ensures RequestSize(p) <= NL_REQ_SIZE
  {
    Align4Formula(RTA_HDRLEN + AddrLen(p.family));
    Align4Formula(RTA_HDRLEN + 4);
  }

  // ----- nexthop lists

  /** One way of a route with several: its gateway, if it has one, and its interface. */
  datatype Hop = Hop(gateway: Option<bytes>, oif: u32)

  /** RTNH_OK: a complete nexthop starts here. */
  predicate HopOk(s: bytes) {
    |s| >= HOP_HDRLEN && HOP_HDRLEN <= LeAt16(s, 0) <= |s|
  }

  function NextHop(s: bytes): (t: bytes)
    requires HopOk(s)
    ensures |t| < |s|
  {
    var len: nat := LeAt16(s, 0);
    if Align4(len) <= |s| then s[Align4(len)..] else []
  }

  /** The attributes inside a nexthop. */
  function Inner(s: bytes): seq<Attr>
    requires HopOk(s)
  {
    Walk(s[HOP_HDRLEN..LeAt16(s, 0)])
  }

  predicate Sized(family: byte, attrs: seq<Attr>) {
    forall i :: 0 <= i < |attrs| && attrs[i].kind == RTA_GATEWAY ==> |attrs[i].data| >= AddrLen(family)
  }

  /** The last gateway among the attributes. */
  function LastGateway(family: byte, attrs: seq<Attr>, so_far: Option<bytes>): Option<bytes>
    requires Sized(family, attrs)
    decreases |attrs|
  {
    if attrs == [] then so_far
    else
      var now := if attrs[0].kind == RTA_GATEWAY then Some(attrs[0].data[..AddrLen(family)]) else so_far;
      LastGateway(family, attrs[1..], now)
  }

  predicate HopsSized(family: byte, s: bytes)
    decreases |s|
  {
    HopOk(s) ==> Sized(family, Inner(s)) && HopsSized(family, NextHop(s))
  }

  function Hops(family: byte, s: bytes): seq<Hop>
    requires HopsSized(family, s)
    decreases |s|
  {
    if !HopOk(s) then [] else [Hop(LastGateway(family, Inner(s), None), LeAt32(s, 4))] + Hops(family, NextHop(s))
  }

  /** The walk through a nexthop list. */
  method WalkHops(family: byte, payload: bytes) returns (hops: seq<Hop>)
    requires HopsSized(family, payload)
    ensures hops == Hops(family, payload)
  {
    hops := [];
    var rest := payload;
    while HopOk(rest)
      invariant HopsSized(family, rest) && hops + Hops(family, rest) == Hops(family, payload)
      decreases |rest|
    {
      var gateway := WalkGateway(family, rest[HOP_HDRLEN..LeAt16(rest, 0)]);
      var hop := Hop(gateway, LeAt32(rest, 4));
      ConcatAssoc(hops, [hop], Hops(family, NextHop(rest)));
      hops := hops + [hop];
      rest := NextHop(rest);
    }
    assert hops + [] == hops;
  }

  method WalkGateway(family: byte, region: bytes) returns (gateway: Option<bytes>)
    requires Sized(family, Walk(region))
    ensures gateway == LastGateway(family, Walk(region), None)
  {
    gateway := None;
    var rest := region;
    while RtaOk(rest)
      invariant Sized(family, Walk(rest))
      invariant LastGateway(family, Walk(rest), gateway) == LastGateway(family, Walk(region), None)
      decreases |rest|
    {
      var rtaLen: nat := LeAt16(rest, 0);
      var a := Attr(LeAt16(rest, 2), rest[RTA_HDRLEN..rtaLen]);
      assert Walk(rest)[0] == a;
      ghost var later := Walk(rest)[1..];
      if a.kind == RTA_GATEWAY {
        gateway := Some(a.data[..AddrLen(family)]);
      }
      rest := if Align4(rtaLen) <= |rest| then rest[Align4(rtaLen)..] else [];
      assert later == Walk(rest);
    }
  }

  // ----- the walk

  /** What the kernel guarantees of the sizes of attributes. */
  predicate WellFormed(family: byte, a: Attr) {
    && (a.kind == RTA_DST || a.kind == RTA_GATEWAY ==> |a.data| >= AddrLen(family))
    && (a.kind == RTA_OIF || a.kind == RTA_PRIORITY || a.kind == RTA_TABLE ==> |a.data| >= 4)
    && (a.kind == RTA_MULTIPATH ==> HopsSized(family, a.data))
  }

  predicate AllWellFormed(family: byte, attrs: seq<Attr>) {
    forall i :: 0 <= i < |attrs| ==> WellFormed(family, attrs[i])
  }

  /** A route being read, with the nexthops met so far. */
  datatype Reading = Reading(route: KernelRoute, hops: seq<Hop>)

  function Noted(r: Reading, a: Attr): (s: Reading)
    requires WellFormed(r.route.family, a)
    ensures s.route.family == r.route.family
  {
    var k := r.route;
    if a.kind == RTA_DST then r.(route := k.(destination := Some(a.data[..AddrLen(k.family)])))
    else if a.kind == RTA_GATEWAY then r.(route := k.(gateway := Some(a.data[..AddrLen(k.family)])))
    else if a.kind == RTA_OIF then r.(route := k.(interfaceIndex := LeAt32(a.data, 0)))
    else if a.kind == RTA_PRIORITY then r.(route := k.(metric := LeAt32(a.data, 0)))
    else if a.kind == RTA_TABLE then r.(route := k.(table := LeAt32(a.data, 0)))
    else if a.kind == RTA_MULTIPATH then r.(hops := r.hops + Hops(k.family, a.data))
    else r
  }

  function Collected(r: Reading, attrs: seq<Attr>): Reading
    requires AllWellFormed(r.route.family, attrs)
    decreases |attrs|
  {
    if attrs == [] then r else Collected(Noted(r, attrs[0]), attrs[1..])
  }

  /** What the fixed header alone says. */
  function FromBody(body: bytes): KernelRoute
    requires |body| == RTMSG_SIZE
  {
    KernelRoute(body[0], None, body[1], None, 0, 0, body[4], body[5], body[6], body[7])
  }

  function AlongHop(r: KernelRoute, h: Hop): KernelRoute {
    r.(gateway := h.gateway, interfaceIndex := h.oif)
  }

  /** One route for each nexthop, or the route itself if it has none. */
  function Spread(r: Reading): seq<KernelRoute> {
    if r.hops == [] then [r.route] else seq(|r.hops|, i requires 0 <= i < |r.hops| => AlongHop(r.route, r.hops[i]))
  }

  /** The routes of a table that a message announces; table 0 stands for all tables. */
  function ListedRoutes(body: bytes, attrs: seq<Attr>, table: u32): seq<KernelRoute>
    requires |body| == RTMSG_SIZE && AllWellFormed(body[0], attrs)
  {
    var r := Collected(Reading(FromBody(body), []), attrs);
    if table != 0 && r.route.table != table then [] else Spread(r)
  }

  predicate Readable(msg: bytes) {
    |msg| >= NLMSG_HDRLEN && (LeAt16(msg, 4) == RTM_NEWROUTE ==>
      |msg| >= ATTRS_START && AllWellFormed(msg[NLMSG_HDRLEN], Walk(msg[ATTRS_START..])))
  }

  function RoutesOf(msg: bytes, table: u32): seq<KernelRoute>
    requires Readable(msg)
  {
    if LeAt16(msg, 4) != RTM_NEWROUTE then []
    else ListedRoutes(msg[NLMSG_HDRLEN..ATTRS_START], Walk(msg[ATTRS_START..]), table)
  }

  predicate SameHeader(a: KernelRoute, b: KernelRoute) {
    && a.family == b.family && a.prefixLen == b.prefixLen && a.protocol == b.protocol
    && a.scope == b.scope && a.kind == b.kind
  }

  /** Attributes never change what the fixed part said, except for the table. */
  lemma {:induction false} HeaderKept(r: Reading, attrs: seq<Attr>)
    requires AllWellFormed(r.route.family, attrs)
    ensures SameHeader(Collected(r, attrs).route, r.route)
    decreases |attrs|
  {
    if attrs != [] {
      HeaderKept(Noted(r, attrs[0]), attrs[1..]);
    }
  }

  /** What attributes that stay silent about a field leave in it. */
  lemma {:induction false} SilentKept(r: Reading, attrs: seq<Attr>, kind: u16)
    requires AllWellFormed(r.route.family, attrs) && forall i :: 0 <= i < |attrs| ==> attrs[i].kind != kind
    ensures var s := Collected(r, attrs).route;
      && (kind == 1 ==> s.destination == r.route.destination) && (kind == 5 ==> s.gateway == r.route.gateway)
      && (kind == 4 ==> s.interfaceIndex == r.route.interfaceIndex)
      && (kind == 6 ==> s.metric == r.route.metric) && (kind == 15 ==> s.table == r.route.table)
      && (kind == 9 ==> Collected(r, attrs).hops == r.hops)
    decreases |attrs|
  {
    if attrs != [] {
      SilentKept(Noted(r, attrs[0]), attrs[1..], kind);
    }
  }

  /** The last attribute of a kind settles its field; the bytes past the size of the field are not looked at. */
  lemma {:induction false} LastAttrSettles(r: Reading, attrs: seq<Attr>, i: nat)
    requires AllWellFormed(r.route.family, attrs) && i < |attrs|
    requires forall j :: i < j < |attrs| ==> attrs[j].kind != attrs[i].kind
    ensures var s, a, n := Collected(r, attrs).route, attrs[i], if r.route.family == 10 then 16 else 4;
      && WellFormed(r.route.family, a)
      && (a.kind == 1 ==> s.destination == Some(a.data[..n])) && (a.kind == 5 ==> s.gateway == Some(a.data[..n]))
      && (a.kind == 4 ==> s.interfaceIndex == LeAt32(a.data, 0))
      && (a.kind == 6 ==> s.metric == LeAt32(a.data, 0)) && (a.kind == 15 ==> s.table == LeAt32(a.data, 0))
    decreases |attrs|
  {
    var s := Noted(r, attrs[0]);
    if i > 0 {
      assert attrs[1..][i - 1] == attrs[i];
      LastAttrSettles(s, attrs[1..], i - 1);
    } else {
      SilentKept(s, attrs[1..], attrs[0].kind);
    }
  }

  /** The last gateway inside a nexthop is its gateway. */
  lemma {:induction false} LastGatewayWins(family: byte, attrs: seq<Attr>, i: nat, so_far: Option<bytes>)
    requires Sized(family, attrs) && i < |attrs| && attrs[i].kind == 5
    requires forall j :: i < j < |attrs| ==> attrs[j].kind != 5
    ensures LastGateway(family, attrs, so_far) == Some(attrs[i].data[..if family == 10 then 16 else 4])
    decreases |attrs|
  {
    var now := if attrs[0].kind == RTA_GATEWAY then Some(attrs[0].data[..AddrLen(family)]) else so_far;
    if i > 0 {
      LastGatewayWins(family, attrs[1..], i - 1, now);
    } else {
      NoGatewayKept(family, attrs[1..], now);
    }
  }

  lemma {:induction false} NoGatewayKept(family: byte, attrs: seq<Attr>, so_far: Option<bytes>)
    requires forall i :: 0 <= i < |attrs| ==> attrs[i].kind != 5
    ensures LastGateway(family, attrs, so_far) == so_far
    decreases |attrs|
  {
    if attrs != [] {
      NoGatewayKept(family, attrs[1..], so_far);
    }
  }

  /** What one message of a dump adds to the list. */
  method ReadKernelRoutes(msg: bytes, table: u32) returns (routes: seq<KernelRoute>)
    requires Readable(msg)
    ensures routes == RoutesOf(msg, table)
    ensures routes != [] ==> LeAt16(msg, 4) == 24
    ensures forall r :: r in routes ==> (table == 0 || r.table == table) && r.family == msg[16]
    ensures forall r :: r in routes ==> r.prefixLen == msg[17] && r.protocol == msg[21]
    ensures forall r :: r in routes ==> r.scope == msg[22] && r.kind == msg[23]
    ensures table == 0 && LeAt16(msg, 4) == 24 ==> routes != []
  {
    routes := [];
    if LeAt16(msg, 4) != RTM_NEWROUTE {
      return;
    }
    var r := WalkAttrs(FromBody(msg[NLMSG_HDRLEN..ATTRS_START]), msg[ATTRS_START..]);
    HeaderKept(Reading(FromBody(msg[NLMSG_HDRLEN..ATTRS_START]), []), Walk(msg[ATTRS_START..]));
    if r.hops == [] {
      if table != 0 && r.route.table != table {
        return;
      }
      return [r.route];
    }
    for i := 0 to |r.hops|
      invariant routes == if table != 0 && r.route.table != table then [] else Spread(r)[..i]
    {
      if table != 0 && r.route.table != table {
        continue;
      }
      assert Spread(r)[..i + 1] == Spread(r)[..i] + [Spread(r)[i]];
      routes := routes + [r.route.(gateway := r.hops[i].gateway, interfaceIndex := r.hops[i].oif)];
    }
  }

  method WalkAttrs(start: KernelRoute, region: bytes) returns (r: Reading)
    requires AllWellFormed(start.family, Walk(region))
    ensures r == Collected(Reading(start, []), Walk(region))
  {
    r := Reading(start, []);
    var rest := region;
    while RtaOk(rest)
      invariant r.route.family == start.family && AllWellFormed(start.family, Walk(rest))
      invariant Collected(r, Walk(rest)) == Collected(Reading(start, []), Walk(region))
      decreases |rest|
    {
      var rtaLen: nat := LeAt16(rest, 0);
      var a := Attr(LeAt16(rest, 2), rest[RTA_HDRLEN..rtaLen]);
      assert Walk(rest)[0] == a;
      ghost var later := Walk(rest)[1..];
      r := NoteAttr(r, a);
      rest := if Align4(rtaLen) <= |rest| then rest[Align4(rtaLen)..] else [];
      assert later == Walk(rest);
    }
  }

  /** One turn of the switch. */
  method NoteAttr(r: Reading, a: Attr) returns (s: Reading)
    requires WellFormed(r.route.family, a)
    ensures s == Noted(r, a)
  {
    var route, n := r.route, AddrLen(r.route.family);
    if a.kind == RTA_DST {
      route := route.(destination := Some(a.data[..n]));
    } else if a.kind == RTA_GATEWAY {
      route := route.(gateway := Some(a.data[..n]));
    } else if a.kind == RTA_OIF {
      route := route.(interfaceIndex := LeAt32(a.data, 0));
    } else if a.kind == RTA_PRIORITY {
      route := route.(metric := LeAt32(a.data, 0));
    } else if a.kind == RTA_TABLE {
      route := route.(table := LeAt32(a.data, 0));
    } else if a.kind == RTA_MULTIPATH {
      var more := WalkHops(route.family, a.data);
      return Reading(route, r.hops + more);
    }
    return Reading(route, r.hops);
  }

  // ----- both together

  /** The route as requested, but for the promoted scope. */
  function Expected(p: Request): KernelRoute {
    KernelRoute(p.family, Some(p.dst[..AddrLen(p.family)]), p.prefixLen,
                if p.gateway.Some? then Some(p.gateway.value[..AddrLen(p.family)]) else None,
                p.oif, p.metric, p.table, p.protocol, EffectiveScope(p), p.kind)
  }

  lemma {:induction false} CollectedConcat(r: Reading, s: seq<Attr>, t: seq<Attr>)
    requires AllWellFormed(r.route.family, s) && AllWellFormed(r.route.family, t)
    ensures AllWellFormed(r.route.family, s + t)
    ensures Collected(r, s).route.family == r.route.family
    ensures Collected(r, s + t) == Collected(Collected(r, s), t)
    decreases |s|
  {
    if s == [] {
      assert s + t == t;
    } else {
      assert (s + t)[1..] == s[1..] + t;
      CollectedConcat(Noted(r, s[0]), s[1..], t);
    }
  }

  lemma CollectedOptional(r: Reading, present: bool, kind: u16, data: bytes)
    requires present ==> WellFormed(r.route.family, Attr(kind, data))
    ensures AllWellFormed(r.route.family, OptionalAttr(present, kind, data))
    ensures Collected(r, OptionalAttr(present, kind, data)) == if present then Noted(r, Attr(kind, data)) else r
  {
    assert present ==> OptionalAttr(present, kind, data)[1..] == [];
  }

  /** One more optional attribute behind a list already accounted for. */
  lemma CollectedMore(r: Reading, s: seq<Attr>, present: bool, kind: u16, data: bytes)
    requires AllWellFormed(r.route.family, s) && (present ==> WellFormed(r.route.family, Attr(kind, data)))
    ensures AllWellFormed(r.route.family, s + OptionalAttr(present, kind, data))
    ensures Collected(r, s).route.family == r.route.family
    ensures Collected(r, s + OptionalAttr(present, kind, data)) ==
      if present then Noted(Collected(r, s), Attr(kind, data)) else Collected(r, s)
  {
    CollectedConcat(r, s, []);
    CollectedOptional(Collected(r, s), present, kind, data);
    CollectedConcat(r, s, OptionalAttr(present, kind, data));
  }

  lemma RequestCollected(p: Request)
    ensures AllWellFormed(p.family, RequestAttrs(p))
    ensures Collected(Reading(FromBody(RequestBody(p)), []), RequestAttrs(p)) == Reading(Expected(p), [])
  {
    var r := Reading(FromBody(RequestBody(p)), []);
    var n := AddrLen(p.family);
    var a := [Attr(RTA_DST, p.dst[..n])];
    CollectedOptional(r, true, RTA_DST, p.dst[..n]);
    assert a == OptionalAttr(true, RTA_DST, p.dst[..n]);
    var b := a + OptionalAttr(p.gateway.Some?, RTA_GATEWAY, GatewayBytes(p));
    CollectedMore(r, a, p.gateway.Some?, RTA_GATEWAY, GatewayBytes(p));
    var c := b + OptionalAttr(p.oif != 0, RTA_OIF, Le32(p.oif));
    CollectedMore(r, b, p.oif != 0, RTA_OIF, Le32(p.oif));
    Le32RoundTrip(p.oif);
    var d := c + OptionalAttr(p.metric != 0, RTA_PRIORITY, Le32(p.metric));
    CollectedMore(r, c, p.metric != 0, RTA_PRIORITY, Le32(p.metric));
    Le32RoundTrip(p.metric);
    CollectedMore(r, d, p.table > 255, RTA_TABLE, Le32(p.table));
    Le32RoundTrip(p.table);
    assert p.dst[..n][..n] == p.dst[..n] && (p.gateway.Some? ==> GatewayBytes(p)[..n] == GatewayBytes(p));
  }

  /**
   * Reading the bytes of the message built for a request recovers every parameter in either family, with the
   * scope as promoted and the table whole even when the fixed header cannot hold it. A listing has it exactly
   * when it asks for that table or for all.
   */
  lemma RequestReadBack(s: bytes, p: Request, flags: u16, seqNo: u32, table: u32)
    requires IsMessage(s, Head(RTM_NEWROUTE, flags, seqNo), RequestBody(p), RequestAttrs(p))
    ensures Readable(s)
    ensures RoutesOf(s, table) == if table == 0 || table == p.table then [Expected(p)] else []
  {
    MessageParts(s, Head(RTM_NEWROUTE, flags, seqNo), RequestBody(p), RequestAttrs(p));
    assert s[NLMSG_HDRLEN] == s[NLMSG_HDRLEN..ATTRS_START][0];
    RequestCollected(p);
  }

  lemma RequestAttrsFlat(p: Request, n: nat)
    requires n == if p.family == 10 then 16 else 4
    ensures Unpadded(RequestAttrs(p))
    ensures Flat(RequestAttrs(p)) ==
      [4 + n, 0, 1, 0] + p.dst[..n] + Spelled(p.gateway.Some?, 5, if p.gateway.Some? then p.gateway.value[..n] else [])
      + Spelled32(p.oif != 0, 4, p.oif) + Spelled32(p.metric != 0, 6, p.metric) + Spelled32(p.table > 255, 15, p.table)
  {
    var a := [Attr(RTA_DST, p.dst[..n])];
    var b := a + OptionalAttr(p.gateway.Some?, RTA_GATEWAY, GatewayBytes(p));
    var c := b + OptionalAttr(p.oif != 0, RTA_OIF, Le32(p.oif));
    var d := c + OptionalAttr(p.metric != 0, RTA_PRIORITY, Le32(p.metric));
    assert Unpadded(a) && Flat(a) == [4 + n, 0, 1, 0] + p.dst[..n] by {
      assert a[1..] == [] && FlatOne(a[0]) + [] == FlatOne(a[0]);
    }
    FlatOptional(a, p.gateway.Some?, RTA_GATEWAY, GatewayBytes(p));
    FlatOptional32(b, p.oif != 0, RTA_OIF, p.oif);
    FlatOptional32(c, p.metric != 0, RTA_PRIORITY, p.metric);
    FlatOptional32(d, p.table > 255, RTA_TABLE, p.table);
  }

  /**
   * The request byte by byte from the fixed part on: addresses of 16 bytes in family 10 and of 4 otherwise,
   * scope 0 sent as 253 for a route that names an interface and no gateway, and table 252 where the table
   * needs an attribute.
   */
  lemma RequestLayout(s: bytes, h: Head, p: Request, n: nat)
    requires IsMessage(s, h, RequestBody(p), RequestAttrs(p)) && n == if p.family == 10 then 16 else 4
    ensures s[16..28] == [
      p.family, p.prefixLen, 0, 0, if p.table <= 255 then p.table else 252, p.protocol,
      if p.scope == 0 && p.gateway.None? && p.oif != 0 then 253 else p.scope, p.kind, 0, 0, 0, 0]
    ensures s[28..] ==
      [4 + n, 0, 1, 0] + p.dst[..n] + Spelled(p.gateway.Some?, 5, if p.gateway.Some? then p.gateway.value[..n] else [])
      + Spelled32(p.oif != 0, 4, p.oif) + Spelled32(p.metric != 0, 6, p.metric) + Spelled32(p.table > 255, 15, p.table)
  {
    HeaderLayout(s, h, RequestBody(p), RequestAttrs(p));
    RequestAttrsFlat(p, n);
    assert s[28..|s|] == s[28..];
    ChainFlat(s[28..], RequestAttrs(p));
  }

  /** The writer and the reader in one piece, with the buffer that is reserved. */
  method WriteAndRead(p: Request, flags: u16, seqNo: u32, table: u32) returns (routes: seq<KernelRoute>)
    ensures routes == if table == 0 || table == p.table then [Expected(p)] else []
    ensures |routes| == if table == 0 || table == p.table then 1 else 0
    ensures routes != [] ==> routes[0].family == p.family && routes[0].prefixLen == p.prefixLen
    ensures routes != [] ==> routes[0].destination == Some(p.dst[..if p.family == 10 then 16 else 4])
    ensures routes != [] ==> (routes[0].gateway == if p.gateway.None? then None else
      Some(p.gateway.value[..if p.family == 10 then 16 else 4]))
    ensures routes != [] ==> routes[0].interfaceIndex == p.oif && routes[0].metric == p.metric
    ensures routes != [] ==> routes[0].table == p.table && routes[0].protocol == p.protocol && routes[0].kind == p.kind
    ensures routes != [] ==>
      routes[0].scope == if p.scope == 0 && p.gateway.None? && p.oif != 0 then 253 else p.scope
  {
    RequestFits(p);
    var r := BuildRouteRequest(p, Head(RTM_NEWROUTE, flags, seqNo), NL_REQ_SIZE);
    var msg := r.value;
    RequestReadBack(msg.buf[..msg.len], p, flags, seqNo, table);
    routes := ReadKernelRoutes(msg.buf[..msg.len], table);
  }

  // ----- nexthop lists as the kernel writes them

  function HopSize(h: Hop): nat {
    HOP_HDRLEN + if h.gateway.Some? then RTA_HDRLEN + |h.gateway.value| else 0
  }

  function HopHead(h: Hop): (b: bytes)
    requires HopSize(h) <= 0xFFFF
    ensures |b| == HOP_HDRLEN
  {
    Le16(HopSize(h)) + [0, 0] + Le32(h.oif)
  }

  function HopInner(h: Hop): bytes
    requires HopSize(h) <= 0xFFFF
  {
    if h.gateway.Some? then AttrBytes(Attr(RTA_GATEWAY, h.gateway.value)) else []
  }

  function HopBytes(h: Hop): (b: bytes)
    requires HopSize(h) <= 0xFFFF
    ensures |b| == HopSize(h)
  {
    HopHead(h) + HopInner(h)
  }

  /** A nexthop byte by byte: its length, two bytes for flags and hops, its interface, then its gateway if any. */
  lemma HopLayout(h: Hop)
    requires HopSize(h) <= 0xFFFF
    ensures var n := HopSize(h);
      HopBytes(h) == [n % 0x100, n / 0x100, 0, 0,
        h.oif % 0x100, h.oif / 0x100 % 0x100, h.oif / 0x1_0000 % 0x100, h.oif / 0x100_0000]
        + if h.gateway.Some? then [(n - 8) % 0x100, (n - 8) / 0x100, 5, 0] + h.gateway.value else []
  {
    Le32Bytes(h.oif);
  }

  predicate KernelHop(family: byte, h: Hop) {
    h.gateway.Some? ==> |h.gateway.value| == AddrLen(family)
  }

  function HopsBytes(family: byte, hs: seq<Hop>): bytes
    requires forall i :: 0 <= i < |hs| ==> KernelHop(family, hs[i])
  {
    if hs == [] then []
    else
      assert KernelHop(family, hs[0]);
      HopBytes(hs[0]) + HopsBytes(family, hs[1..])
  }

  lemma OneAttr(a: Attr)
    requires RTA_HDRLEN + |a.data| <= 0xFFFF && Aligned(|a.data|)
    ensures Walk(AttrBytes(a)) == [a] && |AttrBytes(a)| == RTA_HDRLEN + |a.data|
  {
    var s := AttrBytes(a);
    Align4Formula(|a.data|);
    Align4Formula(RTA_HDRLEN + |a.data|);
    assert s + [] == s && [] + s == s;
    WrittenStands([], s, a);
    assert s[0..AttrSpace(a)] == s;
    assert Chain(s, [a]) by {
      assert s[AttrSpace(a)..] == [] && [a][1..] == [];
    }
    WalkChain(s, [a]);
  }

  lemma InnerRead(family: byte, h: Hop)
    requires KernelHop(family, h)
    ensures Sized(family, Walk(HopInner(h))) && LastGateway(family, Walk(HopInner(h)), None) == h.gateway
  {
    if h.gateway.Some? {
      var a := Attr(RTA_GATEWAY, h.gateway.value);
      Align4Formula(|a.data|);
      OneAttr(a);
      assert [a][1..] == [] && a.data[..AddrLen(family)] == a.data;
    }
  }

  lemma HeadRead(h: Hop, s: bytes)
    requires HopSize(h) <= 0xFFFF && HopHead(h) <= s && HopSize(h) <= |s|
    ensures HopOk(s) && LeAt16(s, 0) == HopSize(h) && LeAt32(s, 4) == h.oif
  {
    var b := HopHead(h);
    assert forall i :: 0 <= i < HOP_HDRLEN ==> s[i] == b[i];
    Le32RoundTrip(h.oif);
  }

  lemma HopRead(family: byte, h: Hop, rest: bytes)
    requires KernelHop(family, h)
    ensures var s := HopBytes(h) + rest;
      && HopOk(s) && NextHop(s) == rest && LeAt32(s, 4) == h.oif
      && Sized(family, Inner(s)) && LastGateway(family, Inner(s), None) == h.gateway
  {
    var s := HopBytes(h) + rest;
    HeadRead(h, s);
    Align4Formula(HopSize(h));
    assert s[HopSize(h)..] == rest;
    assert s[HOP_HDRLEN..HopSize(h)] == HopInner(h);
    InnerRead(family, h);
  }

  /** A nexthop list of any length is read back in order, ways without a gateway included. */
  lemma {:induction false} HopsReadBack(family: byte, hs: seq<Hop>)
    requires forall i :: 0 <= i < |hs| ==> KernelHop(family, hs[i])
    ensures HopsSized(family, HopsBytes(family, hs)) && Hops(family, HopsBytes(family, hs)) == hs
  {
    if hs != [] {
      HopRead(family, hs[0], HopsBytes(family, hs[1..]));
      HopsReadBack(family, hs[1..]);
      assert [hs[0]] + hs[1..] == hs;
    }
  }

  /** So a route announced with several ways is listed once for each, everything else shared. */
  lemma MultipathSpread(body: bytes, attrs: seq<Attr>, hs: seq<Hop>, i: nat)
    requires |body| == RTMSG_SIZE && AllWellFormed(body[0], attrs) && i < |hs|
    requires Collected(Reading(FromBody(body), []), attrs).hops == []
    requires forall i :: 0 <= i < |hs| ==> KernelHop(body[0], hs[i])
    ensures AllWellFormed(body[0], attrs + [Attr(RTA_MULTIPATH, HopsBytes(body[0], hs))])
    ensures var one := ListedRoutes(body, attrs, 0);
      var all := ListedRoutes(body, attrs + [Attr(RTA_MULTIPATH, HopsBytes(body[0], hs))], 0);
      |one| == 1 && |all| == |hs| && all[i] == AlongHop(one[0], hs[i])
  {
    var r, a := Reading(FromBody(body), []), Attr(RTA_MULTIPATH, HopsBytes(body[0], hs));
    HopsReadBack(body[0], hs);
    CollectedMore(r, attrs, true, RTA_MULTIPATH, a.data);
    assert OptionalAttr(true, RTA_MULTIPATH, a.data) == [a];
    assert [] + hs == hs;
  }
}
