/**
 * unix_domain/lib/netlink.cpp and client/src/routing.cpp: appending routing attributes to a message in a
 * fixed buffer, walking them, and recovering a route from the message that installs it. Numbers inside a
 * message are in host order, which is little-endian here.
 */
module Netlink {
  import opened Bytes

  const NLMSG_HDRLEN := 16
  const RTMSG_SIZE := 12
  const ATTRS_START := NLMSG_HDRLEN + RTMSG_SIZE
  const RTA_HDRLEN := 4
  const BUF_CAP := 4096

  const RTA_DST: u16 := 1
  const RTA_OIF: u16 := 4
  const RTA_GATEWAY: u16 := 5
  const RTA_PRIORITY: u16 := 6
  const RTA_TABLE: u16 := 15
  const RTM_NEWROUTE: u16 := 24
  const AF_INET: byte := 2
  const RT_TABLE_UNSPEC: byte := 0

  datatype Attr = Attr(kind: u16, data: bytes)

  /** NLMSG_ALIGN and RTA_ALIGN: the next multiple of four. */
  function Align4(n: nat): (r: nat)
    ensures n <= r < n + 4
  {
    if n == 0 then 0 else if n <= 4 then 4 else 4 + Align4(n - 4)
  }

  lemma {:induction false} Align4Formula(n: nat)
    ensures Align4(n) == (n + 3) / 4 * 4
  {
    if n > 4 {
      Align4Formula(n - 4);
    }
  }

  predicate Aligned(n: nat) {
    Align4(n) == n
  }

  lemma AlignedSum(a: nat, b: nat)
    requires Aligned(a)
    ensures Aligned(a + Align4(b))
  {
    Align4Formula(a);
    Align4Formula(b);
    Align4Formula(a + Align4(b));
  }

  function Le16(v: u16): (r: bytes)
    ensures |r| == 2
  {
    [v % 0x100, v / 0x100]
  }

  function LeAt16(s: bytes, i: nat): u16
    requires i + 2 <= |s|
  {
    s[i] + (s[i + 1] as nat) * 0x100
  }

  function Le32(v: u32): (r: bytes)
    ensures |r| == 4
  {
    Le16(v % 0x1_0000) + Le16(v / 0x1_0000)
  }

  function LeAt32(s: bytes, i: nat): u32
    requires i + 4 <= |s|
  {
    LeAt16(s, i) + (LeAt16(s, i + 2) as nat) * 0x1_0000
  }

  lemma Le32RoundTrip(v: u32)
    ensures LeAt32(Le32(v), 0) == v
  {
    var s := Le32(v);
    assert s[0] == v % 0x1_0000 % 0x100 && s[1] == v % 0x1_0000 / 0x100;
    assert s[2] == v / 0x1_0000 % 0x100 && s[3] == v / 0x1_0000 / 0x100;
    assert LeAt16(s, 0) == v % 0x1_0000 && LeAt16(s, 2) == v / 0x1_0000;
  }

  /** The same number spelled with its four bytes, lowest first. */
  lemma Le32Bytes(v: u32)
    ensures Le32(v) == [v % 0x100, v / 0x100 % 0x100, v / 0x1_0000 % 0x100, v / 0x100_0000]
  {
    var low, high := v % 0x1_0000, v / 0x1_0000;
    assert Le32(v) == [low % 0x100, low / 0x100, high % 0x100, high / 0x100];
    var k := 0x100 * high + low / 0x100;
    assert v == 0x100 * k + low % 0x100;
    assert v / 0x100 == k && v % 0x100 == low % 0x100;
    assert k % 0x100 == low / 0x100;
    assert v / 0x100_0000 == high / 0x100;
  }

  // ----- attribute chains

  function AttrSpace(a: Attr): nat {
    Align4(RTA_HDRLEN + |a.data|)
  }

  /** An attribute stands at the front of s; the bytes up to its aligned end may be anything. */
  predicate StandsAt(s: bytes, a: Attr) {
    && AttrSpace(a) <= |s|
    && LeAt16(s, 0) == RTA_HDRLEN + |a.data| && LeAt16(s, 2) == a.kind
    && s[RTA_HDRLEN..RTA_HDRLEN + |a.data|] == a.data
  }

  /** s consists of these attributes, one after the other. */
  predicate Chain(s: bytes, attrs: seq<Attr>)
    decreases |attrs|
  {
    if attrs == [] then s == [] else StandsAt(s, attrs[0]) && Chain(s[AttrSpace(attrs[0])..], attrs[1..])
  }

  /** RTA_OK: a complete attribute starts here. */
  predicate RtaOk(s: bytes) {
    |s| >= RTA_HDRLEN && RTA_HDRLEN <= LeAt16(s, 0) <= |s|
  }

  /** The attributes visited by RTA_OK and RTA_NEXT. */
  function Walk(s: bytes): seq<Attr> {
    if !RtaOk(s) then []
    else
      var len: nat := LeAt16(s, 0);
      [Attr(LeAt16(s, 2), s[RTA_HDRLEN..len])] + if Align4(len) <= |s| then Walk(s[Align4(len)..]) else []
  }

  lemma StandsMore(s: bytes, t: bytes, a: Attr)
    requires StandsAt(s, a)
    ensures StandsAt(s + t, a) && (s + t)[AttrSpace(a)..] == s[AttrSpace(a)..] + t
  {
    assert (s + t)[RTA_HDRLEN..RTA_HDRLEN + |a.data|] == s[RTA_HDRLEN..RTA_HDRLEN + |a.data|];
  }

  lemma {:induction false} ChainConcat(s: bytes, attrs: seq<Attr>, t: bytes, a: Attr)
    requires Chain(s, attrs) && StandsAt(t, a) && |t| == AttrSpace(a)
    ensures Chain(s + t, attrs + [a])
  {
    if attrs == [] {
      assert s + t == t && [a][1..] == [] && t[AttrSpace(a)..] == [];
    } else {
      ChainConcat(s[AttrSpace(attrs[0])..], attrs[1..], t, a);
      StandsMore(s, t, attrs[0]);
      assert (attrs + [a])[1..] == attrs[1..] + [a];
    }
  }

  /** Walking a chain visits exactly its attributes, in order. */
  lemma {:induction false} WalkChain(s: bytes, attrs: seq<Attr>)
    requires Chain(s, attrs)
    ensures Walk(s) == attrs
    decreases |attrs|
  {
    if attrs != [] {
      WalkChain(s[AttrSpace(attrs[0])..], attrs[1..]);
    }
  }

  /** Whatever follows a chain without starting with a complete attribute is not looked at. */
  lemma {:induction false} WalkStops(s: bytes, attrs: seq<Attr>, rest: bytes)
    requires Chain(s, attrs) && !RtaOk(rest)
    ensures Walk(s + rest) == attrs
    decreases |attrs|
  {
    if attrs == [] {
      assert s + rest == rest;
    } else {
      StandsMore(s, rest, attrs[0]);
      WalkStops(s[AttrSpace(attrs[0])..], attrs[1..], rest);
    }
  }

  /** Every attribute holds a number or an address, so that none needs padding. */
  predicate Unpadded(attrs: seq<Attr>) {
    forall i :: 0 <= i < |attrs| ==> |attrs[i].data| == 4 || |attrs[i].data| == 16
  }

  /** One such attribute, spelled byte by byte. */
  function FlatOne(a: Attr): bytes
    requires |a.data| == 4 || |a.data| == 16
  {
    [4 + |a.data|, 0, a.kind % 0x100, a.kind / 0x100] + a.data
  }

  function Flat(attrs: seq<Attr>): bytes
    requires Unpadded(attrs)
  {
    if attrs == [] then [] else FlatOne(attrs[0]) + Flat(attrs[1..])
  }

  lemma {:induction false} FlatConcat(a: seq<Attr>, b: seq<Attr>)
    requires Unpadded(a) && Unpadded(b)
    ensures Unpadded(a + b) && Flat(a + b) == Flat(a) + Flat(b)
  {
    if a == [] {
      assert a + b == b;
    } else {
      assert (a + b)[1..] == a[1..] + b;
      FlatConcat(a[1..], b);
      ConcatAssoc(FlatOne(a[0]), Flat(a[1..]), Flat(b));
    }
  }

  /** A chain of attributes that need no padding has exactly these bytes. */
  lemma {:induction false} ChainFlat(s: bytes, attrs: seq<Attr>)
    requires Chain(s, attrs) && Unpadded(attrs)
    ensures s == Flat(attrs)
    decreases |attrs|
  {
    if attrs != [] {
      var n := AttrSpace(attrs[0]);
      StandsFlat(s, attrs[0]);
      ChainFlat(s[n..], attrs[1..]);
      SplitAt(s, n);
    }
  }

  lemma StandsFlat(s: bytes, a: Attr)
    requires StandsAt(s, a) && (|a.data| == 4 || |a.data| == 16)
    ensures s[..AttrSpace(a)] == FlatOne(a)
  {
    var n := 4 + |a.data|;
    assert AttrSpace(a) == n by { Align4Formula(n); }
    assert s[..n] == s[..4] + s[4..n];
    assert s[..4] == [s[0], s[1], s[2], s[3]];
  }

  function AttrBytes(a: Attr): bytes
    requires RTA_HDRLEN + |a.data| <= 0xFFFF
  {
    Le16(RTA_HDRLEN + |a.data|) + Le16(a.kind) + a.data
  }

  /**
   * Writing an attribute's bytes behind a chain, without touching what is before them, extends the chain;
   * the padding up to the aligned end may hold anything.
   */
  lemma ExtendChain(before: bytes, after: bytes, start: nat, attrs: seq<Attr>, a: Attr)
    requires RTA_HDRLEN + |a.data| <= 0xFFFF
    requires start <= |before| && |before| + AttrSpace(a) <= |after|
    requires Chain(before[start..], attrs) && before + AttrBytes(a) <= after
    ensures Chain(after[start..|before| + AttrSpace(a)], attrs + [a])
  {
    var back := after[|before|..|before| + AttrSpace(a)];
    PrefixSplit(before, AttrBytes(a), after);
    WrittenStands(before, after, a);
    SliceJoin(before, after, start, |before| + AttrSpace(a));
    ChainJoined(before[start..] + back, before[start..], attrs, back, a);
  }

  lemma ChainJoined(s: bytes, front: bytes, attrs: seq<Attr>, back: bytes, a: Attr)
    requires s == front + back && Chain(front, attrs) && StandsAt(back, a) && |back| == AttrSpace(a)
    ensures Chain(s, attrs + [a])
  {
    ChainConcat(front, attrs, back, a);
  }

  lemma SliceJoin(before: bytes, after: bytes, start: nat, end: nat)
    requires start <= |before| <= end <= |after| && before <= after
    ensures after[start..end] == before[start..] + after[|before|..end]
  {
    assert after[start..|before|] == before[start..];
  }

  lemma WrittenStands(before: bytes, after: bytes, a: Attr)
    requires RTA_HDRLEN + |a.data| <= 0xFFFF && |before| + AttrSpace(a) <= |after|
    requires before + AttrBytes(a) <= after
    ensures StandsAt(after[|before|..|before| + AttrSpace(a)], a)
  {
    PrefixSplit(before, AttrBytes(a), after);
    var b, t := AttrBytes(a), after[|before|..|before| + AttrSpace(a)];
    assert t == after[|before|..][..AttrSpace(a)];
    assert t[..|b|] == b;
    assert t[0] == b[0] && t[1] == b[1] && t[2] == b[2] && t[3] == b[3];
    assert t[RTA_HDRLEN..|b|] == t[..|b|][RTA_HDRLEN..] == b[RTA_HDRLEN..] == a.data;
  }

  // ----- the message builder

  /** The first len bytes of a buffer hold a header, the route header `body` and a chain of attributes. */
  predicate Holds(s: bytes, len: nat, body: bytes, attrs: seq<Attr>) {
    ATTRS_START <= len <= |s| && s[NLMSG_HDRLEN..ATTRS_START] == body && Chain(s[ATTRS_START..len], attrs)
  }

  lemma HoldsMore(before: bytes, after: bytes, len: nat, body: bytes, attrs: seq<Attr>, a: Attr)
    requires RTA_HDRLEN + |a.data| <= 0xFFFF && len + AttrSpace(a) <= |after|
    requires Holds(before, len, body, attrs) && before[..len] + AttrBytes(a) <= after
    ensures Holds(after, len + AttrSpace(a), body, attrs + [a]) && after[..len] == before[..len]
  {
    var done := before[..len];
    assert done[ATTRS_START..] == before[ATTRS_START..len];
    ExtendChain(done, after, ATTRS_START, attrs, a);
    PrefixSplit(done, AttrBytes(a), after);
    SameFront(before, after, len, NLMSG_HDRLEN, ATTRS_START);
  }

  lemma SameFront(s: bytes, t: bytes, n: nat, i: nat, j: nat)
    requires n <= |s| && s[..n] <= t && i <= j <= n
    ensures t[..n] == s[..n] && t[i..j] == s[i..j]
  {
    assert t[i..j] == t[..n][i..j] && s[i..j] == s[..n][i..j];
  }

  /** The fields of a message header besides the length; the port identifier is always zero. */
  datatype Head = Head(kind: u16, flags: u16, seqNo: u32)

  function HeadBytes(h: Head, len: u32): (r: bytes)
    ensures |r| == NLMSG_HDRLEN
  {
    Le32(len) + (Le16(h.kind) + Le16(h.flags) + Le32(h.seqNo) + Le32(0))
  }

  /** Bytes that are a whole message. */
  ghost predicate IsMessage(s: bytes, h: Head, body: bytes, attrs: seq<Attr>) {
    && |s| < 0x1_0000_0000 && Aligned(|s|) && Holds(s, |s|, body, attrs)
    && s[..NLMSG_HDRLEN] == HeadBytes(h, |s|)
  }

  /** Storing a new length in the header leaves the other fields, the body and the attributes alone. */
  lemma LengthStored(s: bytes, t: bytes, h: Head, old_len: u32, len: u32, body: bytes, attrs: seq<Attr>)
    requires |s| == |t| && Holds(s, len, body, attrs) && s[..NLMSG_HDRLEN] == HeadBytes(h, old_len)
    requires t[..4] == Le32(len) && t[4..] == s[4..]
    ensures Holds(t, len, body, attrs) && t[..NLMSG_HDRLEN] == HeadBytes(h, len)
  {
    Above(s, t, NLMSG_HDRLEN, ATTRS_START);
    Above(s, t, ATTRS_START, len);
    Above(s, t, 4, NLMSG_HDRLEN);
    var rest := Le16(h.kind) + Le16(h.flags) + Le32(h.seqNo) + Le32(0);
    assert s[4..NLMSG_HDRLEN] == s[..NLMSG_HDRLEN][4..] == rest;
    assert t[..NLMSG_HDRLEN] == t[..4] + t[4..NLMSG_HDRLEN];
  }

  lemma Above(s: bytes, t: bytes, i: nat, j: nat)
    requires |s| == |t| && 4 <= i <= j <= |s| && t[4..] == s[4..]
    ensures t[i..j] == s[i..j]
  {
    assert t[i..j] == t[4..][i - 4..j - 4] && s[i..j] == s[4..][i - 4..j - 4];
  }

  class NlMsg {
    const buf: array<byte>
    /** nlmsg_len, which is also stored in the first bytes of the header */
    var len: nat
    ghost const head: Head
    ghost const body: bytes
    ghost var attrs: seq<Attr>

    ghost predicate Valid()
      reads this, buf
    {
      && ATTRS_START <= len <= buf.Length <= 0xFFFF
      && Aligned(len)
      && Holds(buf[..], len, body, attrs)
      && buf[..][..NLMSG_HDRLEN] == HeadBytes(head, len)
    }

    /** init and put_body: a zeroed buffer whose only content is the header and the fixed route header. */
    constructor (capacity: nat, head: Head, body: bytes)
      requires ATTRS_START <= capacity <= 0xFFFF && |body| == RTMSG_SIZE
      ensures Valid() && fresh(buf) && buf.Length == capacity
      ensures len == ATTRS_START && attrs == [] && this.head == head && this.body == body
    {
      buf := new byte[capacity](_ => 0);
      len := ATTRS_START;
      this.head := head;
      this.body := body;
      attrs := [];
      new;
      Align4Formula(ATTRS_START);
      CopyInto(buf, 0, HeadBytes(head, ATTRS_START));
      CopyInto(buf, NLMSG_HDRLEN, body);
      FreshParts(buf[..], HeadBytes(head, ATTRS_START), body);
    }

    /** The attribute's header and data, written at `at`; padding is left as it is. */
    method Write(at: nat, kind: u16, data: bytes)
      requires at + RTA_HDRLEN + |data| <= buf.Length <= 0xFFFF
      modifies buf
      ensures old(buf[..at]) + AttrBytes(Attr(kind, data)) <= buf[..]
    {
      ghost var before := buf[..at];
      CopyInto(buf, at, Le16(RTA_HDRLEN + |data|));
      CopyInto(buf, at + 2, Le16(kind));
      CopyInto(buf, at + RTA_HDRLEN, data);
      assert buf[..at + RTA_HDRLEN + |data|] <= buf[..];
      assert before + AttrBytes(Attr(kind, data)) == before + Le16(RTA_HDRLEN + |data|) + Le16(kind) + data;
    }

    /** The unchecked append of unix_domain/lib/netlink.cpp, for callers whose attributes are known to fit. */
    method AddAttr(kind: u16, data: bytes)
      requires Valid() && len + Align4(RTA_HDRLEN + |data|) <= buf.Length
      modifies this, buf
      ensures Valid()
      ensures attrs == old(attrs) + [Attr(kind, data)] && len == old(len) + Align4(RTA_HDRLEN + |data|)
      ensures buf[4..old(len)] == old(buf[4..len])
    {
      ghost var before := buf[..];
      var next := len + Align4(RTA_HDRLEN + |data|);
      assert before[..len] == buf[..len];
      Write(len, kind, data);
      ghost var after := buf[..];
      StoreLength(next);
      Appended(before, after, buf[..], head, len, body, attrs, Attr(kind, data));
      assert buf[4..len] == buf[..][4..len];
      len := next;
      attrs := attrs + [Attr(kind, data)];
    }

    method StoreLength(next: u32)
      requires buf.Length >= 4
      modifies buf
      ensures buf[..][..4] == Le32(next) && buf[..][4..] == old(buf[..])[4..]
    {
      CopyInto(buf, 0, Le32(next));
      assert buf[..][..4] == buf[..4] && buf[..][4..] == buf[4..];
    }

    /**
     * The checked append of client/src/routing.cpp. It succeeds exactly when the attribute fits; otherwise
     * nothing changes at all.
     */
    method AddRtAttr(kind: u16, data: bytes) returns (ok: bool)
      requires Valid()
      modifies this, buf
      ensures Valid()
      ensures ok <==> old(len) + Align4(RTA_HDRLEN + |data|) <= buf.Length
      ensures ok ==> attrs == old(attrs) + [Attr(kind, data)] && len == old(len) + Align4(RTA_HDRLEN + |data|)
      ensures !ok ==> attrs == old(attrs) && len == old(len) && buf[..] == old(buf[..])
      ensures buf[4..old(len)] == old(buf[4..len])
    {
      var rtaLen := RTA_HDRLEN + |data|;
      if Align4(len) + Align4(rtaLen) > buf.Length {
        return false;
      }
      AddAttr(kind, data);
      return true;
    }
  }

  /** Whatever was appended, and through whatever refusals, the bytes up to the length are a whole message. */
  lemma WholeMessage(msg: NlMsg)
    requires msg.Valid()
    ensures IsMessage(msg.buf[..msg.len], msg.head, msg.body, msg.attrs)
  {
    var s, t := msg.buf[..], msg.buf[..msg.len];
    assert t == s[..msg.len];
    assert t[..NLMSG_HDRLEN] == s[..NLMSG_HDRLEN];
    assert t[NLMSG_HDRLEN..ATTRS_START] == s[NLMSG_HDRLEN..ATTRS_START];
    assert t[ATTRS_START..] == s[ATTRS_START..msg.len];
    assert t[ATTRS_START..|t|] == t[ATTRS_START..];
  }

  /** Reading a message: its kind, its fixed part, and its attributes in order. */
  lemma MessageParts(s: bytes, h: Head, body: bytes, attrs: seq<Attr>)
    requires IsMessage(s, h, body, attrs)
    ensures LeAt32(s, 0) == |s| && LeAt16(s, 4) == h.kind
    ensures s[NLMSG_HDRLEN..ATTRS_START] == body && Walk(s[ATTRS_START..]) == attrs
  {
    var hd := HeadBytes(h, |s|);
    assert forall i :: 0 <= i < 6 ==> s[i] == s[..NLMSG_HDRLEN][i] == hd[i];
    Le32RoundTrip(|s|);
    assert s[ATTRS_START..|s|] == s[ATTRS_START..];
    WalkChain(s[ATTRS_START..], attrs);
  }

  /**
   * The header byte by byte: length at 0, kind at 4, flags at 6, sequence number at 8 and a zero port identifier
   * at 12, each with its lowest byte first.
   */
  lemma HeaderLayout(s: bytes, h: Head, body: bytes, attrs: seq<Attr>)
    requires IsMessage(s, h, body, attrs)
    ensures s[..16] == [
      |s| % 0x100, |s| / 0x100 % 0x100, |s| / 0x1_0000 % 0x100, |s| / 0x100_0000,
      h.kind % 0x100, h.kind / 0x100, h.flags % 0x100, h.flags / 0x100,
      h.seqNo % 0x100, h.seqNo / 0x100 % 0x100, h.seqNo / 0x1_0000 % 0x100, h.seqNo / 0x100_0000, 0, 0, 0, 0]
    ensures s[16..28] == body
  {
    Le32Bytes(|s|);
    Le32Bytes(h.seqNo);
    assert Le32(0) == [0, 0, 0, 0] by { Le32Bytes(0); }
  }

  lemma FreshParts(s: bytes, head: bytes, body: bytes)
    requires |head| == NLMSG_HDRLEN && |body| == RTMSG_SIZE && |s| >= ATTRS_START && s[..ATTRS_START] == head + body
    ensures s[..NLMSG_HDRLEN] == head && Holds(s, ATTRS_START, body, [])
  {
    assert s[..NLMSG_HDRLEN] == s[..ATTRS_START][..NLMSG_HDRLEN];
    assert s[NLMSG_HDRLEN..ATTRS_START] == s[..ATTRS_START][NLMSG_HDRLEN..];
    assert s[ATTRS_START..ATTRS_START] == [];
  }

  /** An attribute written behind the message and the new length stored make the longer message. */
  lemma Appended(before: bytes, after: bytes, last: bytes, h: Head, len: u32, body: bytes, attrs: seq<Attr>, a: Attr)
    requires RTA_HDRLEN + |a.data| <= 0xFFFF && |before| == |after| == |last| < 0x1_0000_0000
    requires Holds(before, len, body, attrs) && before[..NLMSG_HDRLEN] == HeadBytes(h, len) && Aligned(len)
    requires len + AttrSpace(a) <= |after| && before[..len] + AttrBytes(a) <= after
    requires last[..4] == Le32(len + AttrSpace(a)) && last[4..] == after[4..]
    ensures Holds(last, len + AttrSpace(a), body, attrs + [a])
    ensures last[..NLMSG_HDRLEN] == HeadBytes(h, len + AttrSpace(a)) && Aligned(len + AttrSpace(a))
    ensures last[4..len] == before[4..len]
  {
    HoldsMore(before, after, len, body, attrs, a);
    KeptBytes(before, after, last, len);
    AlignedSum(len, RTA_HDRLEN + |a.data|);
    LengthStored(after, last, h, len, len + AttrSpace(a), body, attrs + [a]);
  }

  lemma KeptBytes(before: bytes, after: bytes, last: bytes, len: nat)
    requires NLMSG_HDRLEN <= len <= |before| && |before| == |after| == |last|
    requires after[..len] == before[..len] && last[4..] == after[4..]
    ensures after[..NLMSG_HDRLEN] == before[..NLMSG_HDRLEN] && last[4..len] == before[4..len]
  {
    Above(after, last, 4, len);
    assert after[..NLMSG_HDRLEN] == after[..len][..NLMSG_HDRLEN];
    assert before[..NLMSG_HDRLEN] == before[..len][..NLMSG_HDRLEN];
    assert after[4..len] == after[..len][4..] && before[4..len] == before[..len][4..];
  }

  // ----- attribute maps

  /** The last attribute of each kind wins. */
  function MapOf(attrs: seq<Attr>): map<u16, bytes> {
    if attrs == [] then map[]
    else MapOf(attrs[..|attrs| - 1])[attrs[|attrs| - 1].kind := attrs[|attrs| - 1].data]
  }

  lemma MapOfSnoc(attrs: seq<Attr>, a: Attr)
    ensures MapOf(attrs + [a]) == MapOf(attrs)[a.kind := a.data]
  {
    assert (attrs + [a])[..|attrs|] == attrs;
  }

  /** An attribute with no later one of its kind is what the map has for that kind. */
  lemma {:induction false} LastOfKindWins(attrs: seq<Attr>, i: nat)
    requires i < |attrs| && forall j :: i < j < |attrs| ==> attrs[j].kind != attrs[i].kind
    ensures attrs[i].kind in MapOf(attrs) && MapOf(attrs)[attrs[i].kind] == attrs[i].data
  {
    var n := |attrs| - 1;
    if i < n {
      LastOfKindWins(attrs[..n], i);
    }
  }

  /** A kind no attribute has is not in the map. */
  lemma {:induction false} AbsentKind(attrs: seq<Attr>, kind: u16)
    requires forall i :: 0 <= i < |attrs| ==> attrs[i].kind != kind
    ensures kind !in MapOf(attrs)
  {
    if attrs != [] {
      AbsentKind(attrs[..|attrs| - 1], kind);
    }
  }

  /** `rest` is what the attribute pointer and the remaining length denote; a negative length leaves nothing. */
  method ParseAttrs(region: bytes) returns (m: map<u16, bytes>)
    ensures m == MapOf(Walk(region))
  {
    m := map[];
    var rest := region;
    ghost var seen: seq<Attr> := [];
    while RtaOk(rest)
      invariant m == MapOf(seen) && seen + Walk(rest) == Walk(region)
      decreases |rest|
    {
      var rtaLen: nat := LeAt16(rest, 0);
      var a := Attr(LeAt16(rest, 2), rest[RTA_HDRLEN..rtaLen]);
      MapOfSnoc(seen, a);
      m := m[a.kind := a.data];
      var next := if Align4(rtaLen) <= |rest| then rest[Align4(rtaLen)..] else [];
      assert Walk(rest) == [a] + Walk(next);
      ConcatAssoc(seen, [a], Walk(next));
      seen, rest := seen + [a], next;
    }
    assert seen + [] == seen;
  }

  /** The data of an attribute, unless it is absent or not of the expected size. */
  function AttrData(m: map<u16, bytes>, kind: u16, expected: nat): (r: Option<bytes>)
    ensures r.Some? && expected != 0 ==> |r.value| == expected
  {
    if kind !in m then None
    else if expected != 0 && |m[kind]| != expected then None
    else Some(m[kind])
  }

  // ----- routes

  datatype RouteParams = RouteParams(dst: Ipv4, prefixLen: byte, gateway: Option<Ipv4>, oif: Option<u32>,
                                     metric: u32, table: u32, protocol: byte, scope: byte, kind: byte)

  datatype RouteEntry = RouteEntry(dst: Ipv4, prefixLen: byte, gateway: Option<Ipv4>, ifIndex: u32,
                                   metric: u32, table: u32, protocol: byte, scope: byte, kind: byte)

  function RouteBody(p: RouteParams): (b: bytes)
    ensures |b| == RTMSG_SIZE
  {
    [AF_INET, p.prefixLen, 0, 0, if p.table <= 255 then p.table else RT_TABLE_UNSPEC, p.protocol, p.scope, p.kind,
     0, 0, 0, 0]
  }

  function OptionalAttr(present: bool, kind: u16, data: bytes): seq<Attr> {
    if present then [Attr(kind, data)] else []
  }

  function RouteAttrs(p: RouteParams): seq<Attr> {
    [Attr(RTA_DST, p.dst)]
    + OptionalAttr(p.gateway.Some?, RTA_GATEWAY, if p.gateway.Some? then p.gateway.value else [])
    + OptionalAttr(p.oif.Some?, RTA_OIF, Le32(if p.oif.Some? then p.oif.value else 0))
    + OptionalAttr(p.metric != 0, RTA_PRIORITY, Le32(p.metric))
    + OptionalAttr(p.table > 255, RTA_TABLE, Le32(p.table))
  }

  method AddOptional(msg: NlMsg, present: bool, kind: u16, data: bytes)
    requires msg.Valid() && (present ==> |data| == 4) && msg.len + 8 <= msg.buf.Length
    modifies msg, msg.buf
    ensures msg.Valid() && msg.attrs == old(msg.attrs) + OptionalAttr(present, kind, data)
    ensures msg.len <= old(msg.len) + 8
  {
    if present {
      assert Align4(8) == 8;
      msg.AddAttr(kind, data);
    }
  }

  /** The message that installs a route, up to sending it. */
  method BuildRouteNew(p: RouteParams, flags: u16, seqNo: u32) returns (msg: NlMsg)
    ensures msg.Valid() && IsMessage(msg.buf[..msg.len], Head(RTM_NEWROUTE, flags, seqNo), RouteBody(p), RouteAttrs(p))
  {
    msg := new NlMsg(BUF_CAP, Head(RTM_NEWROUTE, flags, seqNo), RouteBody(p));
    AddOptional(msg, true, RTA_DST, p.dst);
    AddOptional(msg, p.gateway.Some?, RTA_GATEWAY, if p.gateway.Some? then p.gateway.value else []);
    AddOptional(msg, p.oif.Some?, RTA_OIF, Le32(if p.oif.Some? then p.oif.value else 0));
    AddOptional(msg, p.metric != 0, RTA_PRIORITY, Le32(p.metric));
    AddOptional(msg, p.table > 255, RTA_TABLE, Le32(p.table));
    assert [] + OptionalAttr(true, RTA_DST, p.dst) == [Attr(RTA_DST, p.dst)];
    WholeMessage(msg);
  }

  /** The per-message reader of a route dump. */
  function ReadRoute(body: bytes, m: map<u16, bytes>): RouteEntry
    requires |body| == RTMSG_SIZE
  {
    var dst := AttrData(m, RTA_DST, 4);
    var gateway := AttrData(m, RTA_GATEWAY, 4);
    var oif := AttrData(m, RTA_OIF, 4);
    var metric := AttrData(m, RTA_PRIORITY, 4);
    var table := AttrData(m, RTA_TABLE, 4);
    RouteEntry(
      if dst.Some? then dst.value else [0, 0, 0, 0],
      body[1],
      if gateway.Some? then Some(gateway.value) else None,
      if oif.Some? then LeAt32(oif.value, 0) else 0,
      if metric.Some? then LeAt32(metric.value, 0) else 0,
      if table.Some? then LeAt32(table.value, 0) else body[4],
      body[5], body[6], body[7])
  }

  /** What a listing of one table keeps of a message; table 0 stands for all tables. */
  function Listed(body: bytes, m: map<u16, bytes>, table: u32): Option<RouteEntry>
    requires |body| == RTMSG_SIZE
  {
    var e := ReadRoute(body, m);
    if body[0] != AF_INET || (table != 0 && e.table != table) then None else Some(e)
  }

  /** What a listing keeps of a whole message: nothing unless it announces a route. */
  function ListedMessage(msg: bytes, table: u32): Option<RouteEntry>
    requires |msg| >= NLMSG_HDRLEN && (LeAt16(msg, 4) == RTM_NEWROUTE ==> |msg| >= ATTRS_START)
  {
    if LeAt16(msg, 4) != RTM_NEWROUTE then None
    else Listed(msg[NLMSG_HDRLEN..ATTRS_START], MapOf(Walk(msg[ATTRS_START..])), table)
  }

  /** The table attribute counts before the header's own byte. */
  function TableIn(short: byte, m: map<u16, bytes>): u32 {
    if 15 in m && |m[15]| == 4 then LeAt32(m[15], 0) else short
  }

  method ReadMessage(msg: bytes, table: u32) returns (r: Option<RouteEntry>)
    requires |msg| >= NLMSG_HDRLEN && (LeAt16(msg, 4) == RTM_NEWROUTE ==> |msg| >= ATTRS_START)
    ensures r == ListedMessage(msg, table)
    ensures LeAt16(msg, 4) == 24 && msg[16] == 2 ==>
      (r.None? <==> table != 0 && table != TableIn(msg[20], MapOf(Walk(msg[28..]))))
    ensures r.Some? ==> LeAt16(msg, 4) == 24 && msg[16] == 2 && r.value.prefixLen == msg[17]
    ensures r.Some? ==> r.value.protocol == msg[21] && r.value.scope == msg[22] && r.value.kind == msg[23]
    ensures r.Some? ==> r.value.table == TableIn(msg[20], MapOf(Walk(msg[28..])))
  {
    if LeAt16(msg, 4) != RTM_NEWROUTE {
      return None;
    }
    var body := msg[NLMSG_HDRLEN..ATTRS_START];
    if body[0] != AF_INET {
      return None;
    }
    var m := ParseAttrs(msg[ATTRS_START..]);
    var e := ReadRoute(body, m);
    if table != 0 && e.table != table {
      return None;
    }
    return Some(e);
  }

  /** The parameters as a reader should see them: absent options read as zero. */
  function Expected(p: RouteParams): RouteEntry {
    RouteEntry(p.dst, p.prefixLen, p.gateway, if p.oif.Some? then p.oif.value else 0, p.metric, p.table,
               p.protocol, p.scope, p.kind)
  }

  function Found(attrs: seq<Attr>, kind: u16): Option<bytes> {
    AttrData(MapOf(attrs), kind, 4)
  }

  /** Looking up behind one more optional attribute finds that attribute or what was found before. */
  lemma OptionalLookup(attrs: seq<Attr>, present: bool, kind: u16, data: bytes, k: u16)
    requires present ==> |data| == 4
    ensures Found(attrs + OptionalAttr(present, kind, data), k) ==
      if present && k == kind then Some(data) else Found(attrs, k)
  {
    if present {
      MapOfSnoc(attrs, Attr(kind, data));
    } else {
      assert attrs + [] == attrs;
    }
  }

  lemma LookupAt(p: RouteParams, k: u16)
    ensures Found(RouteAttrs(p), k) ==
      if k == RTA_TABLE && p.table > 255 then Some(Le32(p.table))
      else if k == RTA_PRIORITY && p.metric != 0 then Some(Le32(p.metric))
      else if k == RTA_OIF && p.oif.Some? then Some(Le32(p.oif.value))
      else if k == RTA_GATEWAY && p.gateway.Some? then Some(p.gateway.value)
      else if k == RTA_DST then Some(p.dst)
      else None
  {
    var a := [Attr(RTA_DST, p.dst)];
    assert [] + OptionalAttr(true, RTA_DST, p.dst) == a;
    OptionalLookup([], true, RTA_DST, p.dst, k);
    var gw := if p.gateway.Some? then p.gateway.value else [];
    OptionalLookup(a, p.gateway.Some?, RTA_GATEWAY, gw, k);
    var b := a + OptionalAttr(p.gateway.Some?, RTA_GATEWAY, gw);
    var oif := Le32(if p.oif.Some? then p.oif.value else 0);
    OptionalLookup(b, p.oif.Some?, RTA_OIF, oif, k);
    var c := b + OptionalAttr(p.oif.Some?, RTA_OIF, oif);
    OptionalLookup(c, p.metric != 0, RTA_PRIORITY, Le32(p.metric), k);
    var d := c + OptionalAttr(p.metric != 0, RTA_PRIORITY, Le32(p.metric));
    OptionalLookup(d, p.table > 255, RTA_TABLE, Le32(p.table), k);
  }

  lemma ReadBack(p: RouteParams)
    ensures ReadRoute(RouteBody(p), MapOf(RouteAttrs(p))) == Expected(p)
  {
    LookupAt(p, RTA_DST);
    LookupAt(p, RTA_GATEWAY);
    LookupAt(p, RTA_OIF);
    LookupAt(p, RTA_PRIORITY);
    LookupAt(p, RTA_TABLE);
    Le32RoundTrip(if p.oif.Some? then p.oif.value else 0);
    Le32RoundTrip(p.metric);
    Le32RoundTrip(p.table);
  }

  /** An attribute spelled out; nothing when it is left out. */
  function Spelled(present: bool, kind: byte, data: bytes): bytes
    requires |data| <= 16
  {
    if present then [4 + |data|, 0, kind, 0] + data else []
  }

  function Spelled32(present: bool, kind: byte, v: u32): bytes {
    Spelled(present, kind, [v % 0x100, v / 0x100 % 0x100, v / 0x1_0000 % 0x100, v / 0x100_0000])
  }

  lemma FlatOptional(front: seq<Attr>, present: bool, kind: byte, data: bytes)
    requires Unpadded(front) && |data| <= 16 && (present ==> |data| == 4 || |data| == 16)
    ensures Unpadded(front + OptionalAttr(present, kind, data))
    ensures Flat(front + OptionalAttr(present, kind, data)) == Flat(front) + Spelled(present, kind, data)
  {
    var one := OptionalAttr(present, kind, data);
    FlatConcat(front, one);
    if present {
      assert one[1..] == [] && FlatOne(one[0]) + [] == FlatOne(one[0]);
    }
  }

  lemma FlatOptional32(front: seq<Attr>, present: bool, kind: byte, v: u32)
    requires Unpadded(front)
    ensures Unpadded(front + OptionalAttr(present, kind, Le32(v)))
    ensures Flat(front + OptionalAttr(present, kind, Le32(v))) == Flat(front) + Spelled32(present, kind, v)
  {
    FlatOptional(front, present, kind, Le32(v));
    Le32Bytes(v);
  }

  lemma RouteAttrsFlat(p: RouteParams)
    ensures Unpadded(RouteAttrs(p))
    ensures Flat(RouteAttrs(p)) ==
      [8, 0, 1, 0] + p.dst + Spelled(p.gateway.Some?, 5, if p.gateway.Some? then p.gateway.value else [])
      + Spelled32(p.oif.Some?, 4, if p.oif.Some? then p.oif.value else 0)
      + Spelled32(p.metric != 0, 6, p.metric) + Spelled32(p.table > 255, 15, p.table)
  {
    var gw := if p.gateway.Some? then p.gateway.value else [];
    var oif := if p.oif.Some? then p.oif.value else 0;
    var a := [Attr(RTA_DST, p.dst)];
    var b := a + OptionalAttr(p.gateway.Some?, RTA_GATEWAY, gw);
    var c := b + OptionalAttr(p.oif.Some?, RTA_OIF, Le32(oif));
    var d := c + OptionalAttr(p.metric != 0, RTA_PRIORITY, Le32(p.metric));
    assert Unpadded(a) && Flat(a) == [8, 0, 1, 0] + p.dst by {
      assert a[1..] == [] && FlatOne(a[0]) + [] == FlatOne(a[0]);
    }
    FlatOptional(a, p.gateway.Some?, RTA_GATEWAY, gw);
    FlatOptional32(b, p.oif.Some?, RTA_OIF, oif);
    FlatOptional32(c, p.metric != 0, RTA_PRIORITY, p.metric);
    FlatOptional32(d, p.table > 255, RTA_TABLE, p.table);
  }

  /** The message that installs a route, byte by byte from the fixed part on. */
  lemma RouteLayout(s: bytes, flags: u16, seqNo: u32, p: RouteParams)
    requires IsMessage(s, Head(RTM_NEWROUTE, flags, seqNo), RouteBody(p), RouteAttrs(p))
    ensures s[4..8] == [24, 0, flags % 0x100, flags / 0x100]
    ensures s[16..28] ==
      [2, p.prefixLen, 0, 0, if p.table <= 255 then p.table else 0, p.protocol, p.scope, p.kind, 0, 0, 0, 0]
    ensures s[28..] ==
      [8, 0, 1, 0] + p.dst + Spelled(p.gateway.Some?, 5, if p.gateway.Some? then p.gateway.value else [])
      + Spelled32(p.oif.Some?, 4, if p.oif.Some? then p.oif.value else 0)
      + Spelled32(p.metric != 0, 6, p.metric) + Spelled32(p.table > 255, 15, p.table)
  {
    HeaderLayout(s, Head(RTM_NEWROUTE, flags, seqNo), RouteBody(p), RouteAttrs(p));
    RouteAttrsFlat(p);
    assert s[28..|s|] == s[28..];
    ChainFlat(s[28..], RouteAttrs(p));
  }

  /** Bytes that install the route p. */
  ghost predicate Installs(s: bytes, p: RouteParams) {
    exists flags, seqNo :: IsMessage(s, Head(RTM_NEWROUTE, flags, seqNo), RouteBody(p), RouteAttrs(p))
  }

  /**
   * Reading the message that installs a route recovers every parameter, for all 32-bit table identifiers; a
   * listing has it exactly when it asks for that table or for all.
   */
  lemma RouteRoundTrip(s: bytes, p: RouteParams, table: u32)
    requires Installs(s, p)
    ensures |s| >= ATTRS_START && LeAt32(s, 0) == |s| && Aligned(|s|)
    ensures ListedMessage(s, table) == if table == 0 || table == p.table then Some(Expected(p)) else None
  {
    var flags, seqNo :| IsMessage(s, Head(RTM_NEWROUTE, flags, seqNo), RouteBody(p), RouteAttrs(p));
    MessageParts(s, Head(RTM_NEWROUTE, flags, seqNo), RouteBody(p), RouteAttrs(p));
    ReadBack(p);
  }

  /** The writer and the reader in one piece. */
  method WriteAndRead(p: RouteParams, flags: u16, seqNo: u32, table: u32) returns (r: Option<RouteEntry>)
    ensures r == if table == 0 || table == p.table then Some(Expected(p)) else None
    ensures r.Some? <==> table == 0 || table == p.table
    ensures r.Some? ==> r.value.dst == p.dst && r.value.prefixLen == p.prefixLen && r.value.gateway == p.gateway
    ensures r.Some? ==> r.value.ifIndex == if p.oif.Some? then p.oif.value else 0
    ensures r.Some? ==> r.value.metric == p.metric && r.value.table == p.table && r.value.protocol == p.protocol
    ensures r.Some? ==> r.value.scope == p.scope && r.value.kind == p.kind
  {
    var msg := BuildRouteNew(p, flags, seqNo);
    assert Installs(msg.buf[..msg.len], p);
    RouteRoundTrip(msg.buf[..msg.len], p, table);
    r := ReadMessage(msg.buf[..msg.len], table);
  }

  // ----- dumps

  /** NLMSG_OK: a complete message starts here. */
  predicate MsgOk(s: bytes) {
    |s| >= NLMSG_HDRLEN && NLMSG_HDRLEN <= LeAt32(s, 0) <= |s|
  }

  /** NLMSG_NEXT: what is left behind the padded message. */
  function Rest(s: bytes): (t: bytes)
    requires MsgOk(s) && Align4(LeAt32(s, 0)) <= |s|
    ensures |t| < |s|
  {
    s[Align4(LeAt32(s, 0))..]
  }

  /**
   * What the kernel guarantees of a dump: messages are padded in full, and one that announces a route has the
   * fixed route header.
   */
  predicate DumpOk(s: bytes)
    decreases |s|
  {
    MsgOk(s) ==>
      && Align4(LeAt32(s, 0)) <= |s|
      && (LeAt16(s, 4) == RTM_NEWROUTE ==> LeAt32(s, 0) >= ATTRS_START)
      && DumpOk(Rest(s))
  }

  function One(r: Option<RouteEntry>): seq<RouteEntry> {
    if r.Some? then [r.value] else []
  }

  function ListedDump(s: bytes, table: u32): seq<RouteEntry>
    requires DumpOk(s)
    decreases |s|
  {
    if !MsgOk(s) then [] else One(ListedMessage(s[..LeAt32(s, 0)], table)) + ListedDump(Rest(s), table)
  }

  method ListRoutes(data: bytes, table: u32) returns (routes: seq<RouteEntry>)
    requires DumpOk(data)
    ensures routes == ListedDump(data, table)
  {
    routes := [];
    var rest := data;
    while MsgOk(rest)
      invariant DumpOk(rest) && routes + ListedDump(rest, table) == ListedDump(data, table)
      decreases |rest|
    {
      var msg := rest[..LeAt32(rest, 0)];
      var r := ReadMessage(msg, table);
      ConcatAssoc(routes, One(r), ListedDump(Rest(rest), table));
      routes := routes + One(r);
      rest := Rest(rest);
    }
    assert routes + [] == routes;
  }

  function Joined(ss: seq<bytes>): bytes {
    if ss == [] then [] else ss[0] + Joined(ss[1..])
  }

  function WantedRoutes(ps: seq<RouteParams>, table: u32): seq<RouteEntry> {
    if ps == [] then []
    else One(if table == 0 || table == ps[0].table then Some(Expected(ps[0])) else None) + WantedRoutes(ps[1..], table)
  }

  lemma FirstOfDump(s: bytes, rest: bytes, p: RouteParams)
    requires Installs(s, p)
    ensures MsgOk(s + rest) && (s + rest)[..LeAt32(s + rest, 0)] == s
    ensures Align4(LeAt32(s + rest, 0)) <= |s + rest| && Rest(s + rest) == rest
    ensures LeAt16(s + rest, 4) == LeAt16(s, 4) && LeAt32(s + rest, 0) >= ATTRS_START
  {
    RouteRoundTrip(s, p, 0);
    var t := s + rest;
    assert forall i :: 0 <= i < 6 ==> t[i] == s[i];
    assert LeAt32(t, 0) == |s| && t[..|s|] == s && t[|s|..] == rest;
  }

  /** A dump of any number of route messages lists exactly the routes of the wanted table, in order. */
  lemma {:induction false} DumpRoundTrip(ss: seq<bytes>, ps: seq<RouteParams>, table: u32)
    requires |ss| == |ps| && forall i :: 0 <= i < |ss| ==> Installs(ss[i], ps[i])
    ensures DumpOk(Joined(ss)) && ListedDump(Joined(ss), table) == WantedRoutes(ps, table)
  {
    if ss != [] {
      FirstOfDump(ss[0], Joined(ss[1..]), ps[0]);
      RouteRoundTrip(ss[0], ps[0], table);
      DumpRoundTrip(ss[1..], ps[1..], table);
    }
  }
}
