/** unix_domain/lib/cmd_proto.cpp: typed ROUTE_ADD and ROUTE_DEL parameters carried in TLV fields. */
module RouteParams {
  import opened Bytes
  import opened CmdProto

  const ANY_GATEWAY: Ipv4 := [0, 0, 0, 0]

  const DST_ADDR: byte := 0x01
  const PREFIX_LEN: byte := 0x02
  const GATEWAY: byte := 0x03
  const IF_NAME: byte := 0x04
  const METRIC: byte := 0x05

  datatype RouteAddParams = RouteAddParams(dstAddr: Ipv4, prefixLen: byte, gateway: Ipv4, ifName: bytes, metric: u16)

  datatype RouteDelParams = RouteDelParams(dstAddr: Ipv4, prefixLen: byte, gateway: Ipv4)

  function MakeRouteAdd(p: RouteAddParams): Command {
    Command(ROUTE_ADD,
            [Field(DST_ADDR, p.dstAddr), Field(PREFIX_LEN, [p.prefixLen]),
             Field(GATEWAY, p.gateway), Field(IF_NAME, p.ifName)]
            + (if p.metric != 0 then [Field(METRIC, Be16(p.metric))] else []),
            [])
  }

  function MakeRouteDel(p: RouteDelParams): Command {
    Command(ROUTE_DEL,
            [Field(DST_ADDR, p.dstAddr), Field(PREFIX_LEN, [p.prefixLen])]
            + (if p.gateway != ANY_GATEWAY then [Field(GATEWAY, p.gateway)] else []),
            [])
  }

  /** The data of the first field with the given identifier. */
  function FoundField(fs: seq<Field>, id: byte): (r: Option<bytes>)
    ensures r.Some? ==> Field(id, r.value) in fs
    ensures r.None? ==> forall f :: f in fs ==> f.fieldId != id
  {
    if fs == [] then None
    else if fs[0].fieldId == id then Some(fs[0].data)
    else FoundField(fs[1..], id)
  }

  method FindField(fs: seq<Field>, id: byte) returns (r: Option<bytes>)
    ensures r == FoundField(fs, id)
  {
    for i := 0 to |fs|
      invariant FoundField(fs, id) == FoundField(fs[i..], id)
    {
      if fs[i].fieldId == id {
        return Some(fs[i].data);
      }
    }
    return None;
  }

  /** A mandatory field of exactly n bytes. */
  function Fixed(fs: seq<Field>, id: byte, n: nat): (r: Result<bytes, CmdError>)
    ensures r.Ok? ==> |r.value| == n
  {
    match FoundField(fs, id)
    case None => Err(MissingField)
    case Some(d) => if |d| != n then Err(InvalidField) else Ok(d)
  }

  function ParsedPrefixLen(fs: seq<Field>): Result<byte, CmdError> {
    var pfx := Fixed(fs, PREFIX_LEN, 1);
    if pfx.Err? then Err(pfx.error)
    else if pfx.value[0] > 32 then Err(InvalidField)
    else Ok(pfx.value[0])
  }

  function ParsedRouteAdd(fs: seq<Field>): Result<RouteAddParams, CmdError> {
    var dst := Fixed(fs, DST_ADDR, 4);
    if dst.Err? then Err(dst.error) else
    var pfx := ParsedPrefixLen(fs);
    if pfx.Err? then Err(pfx.error) else
    var gw := Fixed(fs, GATEWAY, 4);
    if gw.Err? then Err(gw.error) else
    var name := FoundField(fs, IF_NAME);
    if name.None? then Err(MissingField) else
    if name.value == [] then Err(InvalidField) else
    var metric := FoundField(fs, METRIC);
    if metric.Some? && |metric.value| != 2 then Err(InvalidField) else
    Ok(RouteAddParams(dst.value, pfx.value, gw.value, name.value, if metric.Some? then At16(metric.value, 0) else 0))
  }

  function ParsedRouteDel(fs: seq<Field>): Result<RouteDelParams, CmdError> {
    var dst := Fixed(fs, DST_ADDR, 4);
    if dst.Err? then Err(dst.error) else
    var pfx := ParsedPrefixLen(fs);
    if pfx.Err? then Err(pfx.error) else
    var gw := FoundField(fs, GATEWAY);
    if gw.Some? && |gw.value| != 4 then Err(InvalidField) else
    Ok(RouteDelParams(dst.value, pfx.value, if gw.Some? then gw.value else ANY_GATEWAY))
  }

  /** The extractor in the source's shape: five look-ups, each checked before the next. */
  method ParseRouteAdd(cmd: Command) returns (r: Result<RouteAddParams, CmdError>)
    ensures r == ParsedRouteAdd(cmd.fields)
    ensures var dst, pfx, gw, name, metric := FoundField(cmd.fields, 1), FoundField(cmd.fields, 2),
        FoundField(cmd.fields, 3), FoundField(cmd.fields, 4), FoundField(cmd.fields, 5);
      if dst.None? then r == Err(MissingField)
      else if |dst.value| != 4 then r == Err(InvalidField)
      else if pfx.None? then r == Err(MissingField)
      else if |pfx.value| != 1 || pfx.value[0] > 32 then r == Err(InvalidField)
      else if gw.None? then r == Err(MissingField)
      else if |gw.value| != 4 then r == Err(InvalidField)
      else if name.None? then r == Err(MissingField)
      else if |name.value| == 0 || (metric.Some? && |metric.value| != 2) then r == Err(InvalidField)
      else (
        && r.Ok? && r.value.dstAddr == dst.value && r.value.prefixLen == pfx.value[0]
        && r.value.gateway == gw.value && r.value.ifName == name.value
        && r.value.metric == if metric.Some? then metric.value[0] as nat * 0x100 + metric.value[1] else 0)
  {
    var dst := FindField(cmd.fields, DST_ADDR);
    if dst.None? { return Err(MissingField); }
    if |dst.value| != 4 { return Err(InvalidField); }
    var pfx := FindField(cmd.fields, PREFIX_LEN);
    if pfx.None? { return Err(MissingField); }
    if |pfx.value| != 1 || pfx.value[0] > 32 { return Err(InvalidField); }
    var gw := FindField(cmd.fields, GATEWAY);
    if gw.None? { return Err(MissingField); }
    if |gw.value| != 4 { return Err(InvalidField); }
    var name := FindField(cmd.fields, IF_NAME);
    if name.None? { return Err(MissingField); }
    if name.value == [] { return Err(InvalidField); }
    var metric: u16 := 0;
    var met := FindField(cmd.fields, METRIC);
    if met.Some? {
      if |met.value| != 2 { return Err(InvalidField); }
      metric := At16(met.value, 0);
    }
    return Ok(RouteAddParams(dst.value, pfx.value[0], gw.value, name.value, metric));
  }

  method ParseRouteDel(cmd: Command) returns (r: Result<RouteDelParams, CmdError>)
    ensures r == ParsedRouteDel(cmd.fields)
    ensures var dst, pfx, gw := FoundField(cmd.fields, 1), FoundField(cmd.fields, 2), FoundField(cmd.fields, 3);
      if dst.None? then r == Err(MissingField)
      else if |dst.value| != 4 then r == Err(InvalidField)
      else if pfx.None? then r == Err(MissingField)
      else if |pfx.value| != 1 || pfx.value[0] > 32 || (gw.Some? && |gw.value| != 4) then r == Err(InvalidField)
      else (
        && r.Ok? && r.value.dstAddr == dst.value && r.value.prefixLen == pfx.value[0]
        && r.value.gateway == if gw.Some? then gw.value else [0, 0, 0, 0])
  {
    var dst := FindField(cmd.fields, DST_ADDR);
    if dst.None? { return Err(MissingField); }
    if |dst.value| != 4 { return Err(InvalidField); }
    var pfx := FindField(cmd.fields, PREFIX_LEN);
    if pfx.None? { return Err(MissingField); }
    if |pfx.value| != 1 || pfx.value[0] > 32 { return Err(InvalidField); }
    var gateway := ANY_GATEWAY;
    var gw := FindField(cmd.fields, GATEWAY);
    if gw.Some? {
      if |gw.value| != 4 { return Err(InvalidField); }
      gateway := gw.value;
    }
    return Ok(RouteDelParams(dst.value, pfx.value[0], gateway));
  }

  /** Looking up the k-th field by its own identifier finds it if no earlier field has that identifier. */
  lemma {:induction false} FieldAt(fs: seq<Field>, k: nat)
    requires k < |fs| && forall i :: 0 <= i < k ==> fs[i].fieldId != fs[k].fieldId
    ensures FoundField(fs, fs[k].fieldId) == Some(fs[k].data)
  {
    if k > 0 {
      assert fs[0].fieldId != fs[k].fieldId;
      FieldAt(fs[1..], k - 1);
    }
  }

  lemma MetricBytes(m: u16)
    ensures At16(Be16(m), 0) == m
  {
    Be16RoundTrip(Be16(m), 0, m);
    assert Be16(m)[0..2] == Be16(m);
  }

  /** What the extractor looks up, for fs to describe the parameters p. */
  predicate Describes(fs: seq<Field>, p: RouteAddParams) {
    && FoundField(fs, DST_ADDR) == Some(p.dstAddr)
    && FoundField(fs, PREFIX_LEN) == Some([p.prefixLen])
    && FoundField(fs, GATEWAY) == Some(p.gateway)
    && FoundField(fs, IF_NAME) == Some(p.ifName)
    && FoundField(fs, METRIC) == if p.metric != 0 then Some(Be16(p.metric)) else None
  }

  lemma ListDescribes(fs: seq<Field>, p: RouteAddParams)
    requires |fs| == if p.metric != 0 then 5 else 4
    requires fs[0] == Field(DST_ADDR, p.dstAddr) && fs[1] == Field(PREFIX_LEN, [p.prefixLen])
    requires fs[2] == Field(GATEWAY, p.gateway) && fs[3] == Field(IF_NAME, p.ifName)
    requires p.metric != 0 ==> fs[4] == Field(METRIC, Be16(p.metric))
    ensures Describes(fs, p)
  {
    assert FoundField(fs, DST_ADDR) == Some(p.dstAddr) by { FieldAt(fs, 0); }
    assert FoundField(fs, PREFIX_LEN) == Some([p.prefixLen]) by { FieldAt(fs, 1); }
    assert FoundField(fs, GATEWAY) == Some(p.gateway) by { FieldAt(fs, 2); }
    assert FoundField(fs, IF_NAME) == Some(p.ifName) by { FieldAt(fs, 3); }
    if p.metric != 0 {
      FieldAt(fs, 4);
    }
  }

  lemma ParsedDescribed(fs: seq<Field>, p: RouteAddParams)
    requires Describes(fs, p)
    ensures ParsedRouteAdd(fs) == if p.prefixLen <= 32 && p.ifName != [] then Ok(p) else Err(InvalidField)
  {
    MetricBytes(p.metric);
  }

  /** Parsing a freshly built command returns its parameters, the omitted zero metric included. */
  lemma MadeRouteAdd(p: RouteAddParams)
    ensures ParsedRouteAdd(MakeRouteAdd(p).fields) ==
      if p.prefixLen <= 32 && p.ifName != [] then Ok(p) else Err(InvalidField)
  {
    ListDescribes(MakeRouteAdd(p).fields, p);
    ParsedDescribed(MakeRouteAdd(p).fields, p);
  }

  lemma MadeRouteDel(p: RouteDelParams)
    ensures ParsedRouteDel(MakeRouteDel(p).fields) == if p.prefixLen <= 32 then Ok(p) else Err(InvalidField)
  {
    var fs := MakeRouteDel(p).fields;
    FieldAt(fs, 0);
    FieldAt(fs, 1);
    if p.gateway != ANY_GATEWAY {
      FieldAt(fs, 2);
    }
  }

  /** One more field behind fields whose bytes are known. */
  lemma FieldAppended(fs: seq<Field>, before: bytes, id: byte, data: bytes)
    requires Serialized(fs) == before
    ensures Serialized(fs + [Field(id, data)]) == before + [id, |data| % 0x100] + data
  {
    FieldLayout(fs, Field(id, data));
  }

  /** A command without a binary payload: its code, the size of its fields, and the fields. */
  lemma CommandLayout(cmd: Command, payload: bytes)
    requires cmd.rawPayload == [] && Serialized(cmd.fields) == payload
    ensures EncodedCommand(cmd) == [cmd.cmdId.Code(), |payload| / 0x100 % 0x100, |payload| % 0x100] + payload
  {
    Be16Cast(|payload|);
  }

  /** A ROUTE_ADD command on the wire, byte by byte. */
  lemma RouteAddLayout(p: RouteAddParams, n: nat)
    requires n == 17 + |p.ifName| + if p.metric != 0 then 4 else 0
    ensures EncodedCommand(MakeRouteAdd(p)) ==
      [1, n / 0x100 % 0x100, n % 0x100]
      + ([1, 4] + p.dstAddr + [2, 1] + [p.prefixLen] + [3, 4] + p.gateway + [4, |p.ifName| % 0x100] + p.ifName
         + if p.metric != 0 then [5, 2, p.metric / 0x100, p.metric % 0x100] else [])
  {
    var fs := MakeRouteAdd(p).fields;
    var front := [1, 4] + p.dstAddr + [2, 1] + [p.prefixLen] + [3, 4] + p.gateway + [4, |p.ifName| % 0x100] + p.ifName;
    assert Serialized(fs[..4]) == front by {
      FirstTwo(fs, p.dstAddr, p.prefixLen);
      FieldAppended(fs[..2], [1, 4] + p.dstAddr + [2, 1] + [p.prefixLen], 3, p.gateway);
      Grown(fs, 3);
      FieldAppended(fs[..3], [1, 4] + p.dstAddr + [2, 1] + [p.prefixLen] + [3, 4] + p.gateway, 4, p.ifName);
      Grown(fs, 4);
    }
    if p.metric != 0 {
      FieldAppended(fs[..4], front, 5, Be16(p.metric));
      Grown(fs, 5);
      assert fs[..5] == fs;
      assert front + [5, 2] + Be16(p.metric) == front + [5, 2, p.metric / 0x100, p.metric % 0x100];
    } else {
      assert fs[..4] == fs && front + [] == front;
    }
    CommandLayout(MakeRouteAdd(p), Serialized(fs));
  }

  /** A ROUTE_DEL command on the wire, byte by byte. */
  lemma RouteDelLayout(p: RouteDelParams)
    ensures EncodedCommand(MakeRouteDel(p)) ==
      if p.gateway == [0, 0, 0, 0] then [2, 0, 9] + ([1, 4] + p.dstAddr + [2, 1] + [p.prefixLen])
      else [2, 0, 15] + ([1, 4] + p.dstAddr + [2, 1] + [p.prefixLen] + [3, 4] + p.gateway)
  {
    var fs := MakeRouteDel(p).fields;
    var front := [1, 4] + p.dstAddr + [2, 1] + [p.prefixLen];
    FirstTwo(fs, p.dstAddr, p.prefixLen);
    if p.gateway != [0, 0, 0, 0] {
      FieldAppended(fs[..2], front, 3, p.gateway);
      Grown(fs, 3);
      assert fs[..3] == fs;
    } else {
      assert fs[..2] == fs;
    }
    CommandLayout(MakeRouteDel(p), Serialized(fs));
  }

  lemma FirstTwo(fs: seq<Field>, dst: Ipv4, prefixLen: byte)
    requires |fs| >= 2 && fs[0] == Field(1, dst) && fs[1] == Field(2, [prefixLen])
    ensures Serialized(fs[..2]) == [1, 4] + dst + [2, 1] + [prefixLen]
  {
    FieldAppended([], [], 1, dst);
    Grown(fs, 1);
    FieldAppended(fs[..1], [1, 4] + dst, 2, [prefixLen]);
    Grown(fs, 2);
  }

  lemma Grown(fs: seq<Field>, k: nat)
    requires 1 <= k <= |fs|
    ensures fs[..k] == fs[..k - 1] + [fs[k - 1]] && fs[..0] == []
  {
  }

  lemma {:induction false} SmallSize(fs: seq<Field>)
    requires SmallFields(fs)
    ensures FieldsSize(fs) <= 257 * |fs|
  {
    if fs != [] {
      assert fs[0] in fs;
      SmallSize(fs[1..]);
    }
  }

  /** A command of at most 250 small fields arrives with those very fields. */
  lemma FieldsArrive(cmd: Command, more: bytes)
    requires cmd.rawPayload == [] && SmallFields(cmd.fields) && |cmd.fields| <= 250
    ensures DecodedCommand(EncodedCommand(cmd) + more).Ok?
    ensures DecodedCommand(EncodedCommand(cmd) + more).value.fields == cmd.fields
  {
    SmallSize(cmd.fields);
    SerializedSize(cmd.fields);
    CommandRoundTrip(cmd, more);
    FieldsRoundTrip(cmd.fields);
  }

  lemma ParsedAreSmall(cmd: Command, more: bytes)
    ensures DecodedCommand(EncodedCommand(cmd) + more).Ok?
    ensures SmallFields(DecodedCommand(EncodedCommand(cmd) + more).value.fields)
  {
    CommandRoundTrip(cmd, more);
    BestEffort(DecodedCommand(EncodedCommand(cmd) + more).value.rawPayload);
  }

  lemma ParsedBounds(fs: seq<Field>)
    requires ParsedRouteAdd(fs).Ok? && SmallFields(fs)
    ensures var p := ParsedRouteAdd(fs).value; p.prefixLen <= 32 && 1 <= |p.ifName| <= 0xFF
  {
    assert Field(IF_NAME, ParsedRouteAdd(fs).value.ifName) in fs;
  }

  /**
   * Build, encode, decode, extract: the original parameters come back exactly when the prefix length is
   * valid and the interface name has 1 to 255 bytes, which a caller can check beforehand.
   */
  lemma RouteAddRoundTrip(p: RouteAddParams, more: bytes)
    ensures DecodedCommand(EncodedCommand(MakeRouteAdd(p)) + more).Ok?
    ensures ParsedRouteAdd(DecodedCommand(EncodedCommand(MakeRouteAdd(p)) + more).value.fields) == Ok(p)
      <==> p.prefixLen <= 32 && 1 <= |p.ifName| <= 0xFF
  {
    ParsedAreSmall(MakeRouteAdd(p), more);
    var got := DecodedCommand(EncodedCommand(MakeRouteAdd(p)) + more).value.fields;
    if ParsedRouteAdd(got) == Ok(p) {
      ParsedBounds(got);
    }
    if |p.ifName| <= 0xFF {
      FieldsArrive(MakeRouteAdd(p), more);
      MadeRouteAdd(p);
    }
  }

  lemma RouteDelRoundTrip(p: RouteDelParams, more: bytes)
    ensures DecodedCommand(EncodedCommand(MakeRouteDel(p)) + more).Ok?
    ensures ParsedRouteDel(DecodedCommand(EncodedCommand(MakeRouteDel(p)) + more).value.fields)
      == if p.prefixLen <= 32 then Ok(p) else Err(InvalidField)
  {
    FieldsArrive(MakeRouteDel(p), more);
    MadeRouteDel(p);
  }
}
