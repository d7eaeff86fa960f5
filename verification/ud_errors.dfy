/**
 * unix_domain/lib/ud_proto.cpp: which damaged frames the decoder accepts. Corruption of the payload is judged
 * by the checksum alone; corruption of the stuffed bytes may also change the length.
 */
module UdErrors {
  import opened Bytes
  import opened Crc
  import opened CrcErrors
  import opened CrcMachine
  import opened UdProto

  // ----- corrupted payloads

  /** Any corruption of an accepted payload that keeps its size, with the error that is reported. */
  lemma CorruptionJudged(p: bytes, q: bytes)
    requires CheckedPayload(p).Ok? && |q| == |p|
    ensures ExtractedPayload(Framed(q)) ==
      if !Unnoticed(p, q) then Err(CrcMismatch)
      else if At32(q, 0) != At32(p, 0) then Err(BadLength)
      else Ok(q)
  {
    SealedAfterError(p, q);
    ExtractFramed(q);
  }

  /** A burst of at most 8 bits, wherever it is, is reported as a CRC error. */
  lemma ShortBurstRejected(p: bytes, q: bytes, at: nat)
    requires CheckedPayload(p).Ok? && |q| == |p| && q != p && DifferOnlyIn(Stream(p), Stream(q), at, 8)
    ensures ExtractedPayload(Framed(q)) == Err(CrcMismatch)
  {
    ShortBurstDetected(p, q, at);
    ExtractFramed(q);
  }

  /** Every accepted payload has a burst of 9 bits after which it is still accepted. */
  lemma NineBitsAccepted(p: bytes) returns (q: bytes)
    requires CheckedPayload(p).Ok?
    ensures |q| == |p| && q != p && DifferOnlyIn(Stream(p), Stream(q), 8 * (|p| - 3), 9)
    ensures ExtractedPayload(Framed(q)) == Ok(q)
  {
    q := NineBitPartner(p);
    NineBitsUnnoticed(p, q);
    NineBitWindow(p, q);
    ExtractFramed(q);
    NineBitsDiffer(p, q);
    LengthIntact(p, q);
  }

  lemma LengthIntact(p: bytes, q: bytes)
    requires |p| >= MIN_PAYLOAD && NineBitBurst(p, q)
    ensures At32(q, 0) == At32(p, 0)
  {
    NineBitsFront(p, q);
    var n := |p| - 3;
    assert forall i :: 0 <= i < 4 ==> p[i] == p[..n][i] && q[i] == q[..n][i];
  }

  // ----- bare delimiters

  /** Data stuffed only half: escape bytes are escaped, delimiters are left bare. */
  function HalfStuffed(raw: bytes): bytes {
    if raw == [] then []
    else (if raw[0] == ESCAPE_BYTE then StuffedByte(raw[0]) else [raw[0]]) + HalfStuffed(raw[1..])
  }

  lemma {:induction false} HalfStuffedAccepted(raw: bytes)
    ensures Destuffed(HalfStuffed(raw)) == Ok(raw)
    ensures DelimFree(HalfStuffed(raw)) <==> DelimFree(raw)
  {
    if raw != [] {
      HalfStuffedAccepted(raw[1..]);
      var s, k := HalfStuffed(raw), if raw[0] == ESCAPE_BYTE then 2 else 1;
      assert s[k..] == HalfStuffed(raw[1..]);
      assert s == s[..k] + s[k..];
      assert raw == [raw[0]] + raw[1..];
    }
  }

  /**
   * The decoder takes any accepted payload with its delimiters left bare. So the frames that decode without
   * being what the encoder emits are not only possible: every payload with a delimiter in it has one.
   */
  lemma BareDelimitersAccepted(raw: bytes)
    requires CheckedPayload(raw).Ok?
    ensures var f := [FRAME_DELIM] + HalfStuffed(raw) + [FRAME_DELIM];
      DecodedPacket(f) == Ok(PacketOf(raw)) && (Delimited(f) <==> DelimFree(raw))
  {
    HalfStuffedAccepted(raw);
    var f := [FRAME_DELIM] + HalfStuffed(raw) + [FRAME_DELIM];
    assert f[1..|f| - 1] == HalfStuffed(raw);
  }

  /** For instance the packet whose one data byte is a delimiter. */
  lemma BareDelimiterExample() returns (f: bytes)
    ensures DecodedPacket(f) == Ok(Packet(13, 0, 0, 0, [FRAME_DELIM]))
    ensures EncodedPacket(DecodedPacket(f).value) != f
  {
    var raw := Payload(13, 0, 0, 0, [FRAME_DELIM]);
    CheckBuilt(13, 0, 0, 0, [FRAME_DELIM]);
    assert TotalLength(1) == 13;
    f := [FRAME_DELIM] + HalfStuffed(raw) + [FRAME_DELIM];
    BareDelimitersAccepted(raw);
    assert PacketOf(raw).data[0] == raw[HEADER_SIZE];
    FrameCanonical(f);
  }

  // ----- one flipped bit on the wire

  predicate OneBit(b: byte, c: byte) {
    Distance(Bits(b, 8), Bits(c, 8)) == 1
  }

  function EscapeCode(b: byte): byte {
    if b == FRAME_DELIM then ESC_DELIM else ESC_ESCAPE
  }

  predicate Special(b: byte) {
    b == FRAME_DELIM || b == ESCAPE_BYTE
  }

  lemma {:induction false} StuffedConcat(a: bytes, b: bytes)
    ensures Stuffed(a + b) == Stuffed(a) + Stuffed(b)
  {
    if a == [] {
      assert a + b == b;
    } else {
      assert (a + b)[1..] == a[1..] + b;
      StuffedConcat(a[1..], b);
    }
  }

  lemma {:induction false} DestuffedAfter(a: bytes, t: bytes)
    ensures Destuffed(Stuffed(a) + t) == Prepend(a, Destuffed(t))
  {
    if a == [] {
      assert Stuffed(a) + t == t;
      PrependNothing(Destuffed(t));
    } else {
      var s, k := Stuffed(a) + t, |StuffedByte(a[0])|;
      assert s[k..] == Stuffed(a[1..]) + t;
      DestuffedAfter(a[1..], t);
      PrependTwice([a[0]], a[1..], Destuffed(t));
      assert [a[0]] + a[1..] == a;
    }
  }

  lemma StuffedAround(raw: bytes, n: nat)
    requires n < |raw|
    ensures Stuffed(raw) == Stuffed(raw[..n]) + StuffedByte(raw[n]) + Stuffed(raw[n + 1..])
    ensures Stuffed(raw[..n + 1]) == Stuffed(raw[..n]) + StuffedByte(raw[n])
  {
    var f, m, g := raw[..n], [raw[n]], raw[n + 1..];
    assert raw[..n + 1] == f + m;
    SplitAt(raw, n + 1);
    StuffedConcat(f + m, g);
    StuffedSnoc(f, raw[n]);
  }

  /** Which payload byte a stuffed byte belongs to. */
  lemma {:induction false} Locate(raw: bytes, i: nat, from: nat) returns (n: nat, j: nat)
    requires from <= |raw| && |Stuffed(raw[..from])| <= i < |Stuffed(raw)|
    ensures n < |raw| && j < |StuffedByte(raw[n])| && i == |Stuffed(raw[..n])| + j
    decreases |raw| - from
  {
    assert raw[..|raw|] == raw;
    StuffedAround(raw, from);
    n, j := from, i - |Stuffed(raw[..from])|;
    if j >= |StuffedByte(raw[from])| {
      n, j := Locate(raw, i, from + 1);
    }
  }

  /** What unstuffing makes of data in which one stuffed byte of b, the j-th, has been replaced by c. */
  function Misread(a: bytes, b: byte, rest: bytes, j: nat, c: byte): Result<bytes, ProtoError> {
    if Special(b) then if j == 0 then Ok(a + [c, EscapeCode(b)] + rest) else Err(InvalidFrame)
    else if c != ESCAPE_BYTE then Ok(a + [c] + rest)
    else if rest != [] && rest[0] == ESC_DELIM then Ok(a + [FRAME_DELIM] + rest[1..])
    else if rest != [] && rest[0] == ESC_ESCAPE then Ok(a + [ESCAPE_BYTE] + rest[1..])
    else Err(InvalidFrame)
  }

  predicate Digits(b: byte, s: bits) {
    |s| == 8 && b == Four(s[0], s[1], s[2], s[3]) + 0x10 * Four(s[4], s[5], s[6], s[7])
  }

  lemma {:induction false} DistanceTwo(s: bits, t: bits, i: nat, k: nat)
    requires |s| == |t| && i < k < |s| && s[i] != t[i] && s[k] != t[k]
    ensures Distance(s, t) >= 2
  {
    if i == 0 {
      DistanceOne(s[1..], t[1..], k - 1);
    } else {
      DistanceTwo(s[1..], t[1..], i - 1, k - 1);
    }
  }

  lemma {:induction false} DistanceOne(s: bits, t: bits, k: nat)
    requires |s| == |t| && k < |s| && s[k] != t[k]
    ensures Distance(s, t) >= 1
    ensures t == s[k := t[k]] ==> Distance(s, t) == 1
  {
    if k > 0 {
      DistanceOne(s[1..], t[1..], k - 1);
      if t == s[k := t[k]] {
        assert t[1..] == s[1..][k - 1 := t[k]];
      }
    } else if t == s[0 := t[0]] {
      assert t[1..] == s[1..];
      DistanceSelf(s[1..]);
    }
  }

  lemma Apart(b: byte, c: byte, s: bits, t: bits, i: nat, k: nat)
    requires Digits(b, s) && Digits(c, t) && i < k < 8 && s[i] != t[i] && s[k] != t[k]
    ensures !OneBit(b, c) && !OneBit(c, b)
  {
    SpelledByte(b, s);
    SpelledByte(c, t);
    DistanceTwo(s, t, i, k);
    DistanceTwo(t, s, i, k);
  }

  lemma Close(b: byte, c: byte, s: bits, t: bits, k: nat)
    requires Digits(b, s) && Digits(c, t) && k < 8 && t == s[k := !s[k]]
    ensures OneBit(b, c)
  {
    SpelledByte(b, s);
    SpelledByte(c, t);
    DistanceOne(s, t, k);
  }

  lemma SpecialsApart()
    ensures !OneBit(FRAME_DELIM, ESCAPE_BYTE) && !OneBit(ESCAPE_BYTE, FRAME_DELIM)
  {
    var s, t := [false, true, true, true, true, true, true, false],
      [true, false, true, true, true, true, true, false];
    Apart(0x7E, 0x7D, s, t, 0, 1);
  }

  lemma CodesApart()
    ensures !OneBit(ESC_DELIM, ESC_ESCAPE) && !OneBit(ESC_ESCAPE, ESC_DELIM)
  {
    var s, t := [false, true, true, true, true, false, true, false],
      [true, false, true, true, true, false, true, false];
    Apart(0x5E, 0x5D, s, t, 0, 1);
  }

  lemma {:induction false} DistanceSelf(s: bits)
    ensures Distance(s, s) == 0
  {
    if s != [] {
      DistanceSelf(s[1..]);
    }
  }

  lemma SelfApart(b: byte)
    ensures !OneBit(b, b)
  {
    DistanceSelf(Bits(b, 8));
  }

  lemma MisreadRight(a: bytes, b: byte, rest: bytes, j: nat, c: byte)
    requires j < |StuffedByte(b)| && OneBit(StuffedByte(b)[j], c)
    ensures Destuffed(Stuffed(a) + StuffedByte(b)[j := c] + Stuffed(rest)) == Misread(a, b, rest, j, c)
  {
    var z := StuffedByte(b)[j := c];
    ConcatAssoc(Stuffed(a), z, Stuffed(rest));
    DestuffedAfter(a, z + Stuffed(rest));
    TailMisread(b, rest, j, c);
    if Special(b) && j == 0 {
      ConcatAssoc(a, [c, EscapeCode(b)], rest);
    } else if c != ESCAPE_BYTE {
      ConcatAssoc(a, [c], rest);
    } else if rest != [] {
      ConcatAssoc(a, [FRAME_DELIM], rest[1..]);
      ConcatAssoc(a, [ESCAPE_BYTE], rest[1..]);
    }
  }

  lemma TailMisread(b: byte, rest: bytes, j: nat, c: byte)
    requires j < |StuffedByte(b)| && OneBit(StuffedByte(b)[j], c)
    ensures Destuffed(StuffedByte(b)[j := c] + Stuffed(rest)) ==
      if Special(b) then if j == 0 then Ok([c, EscapeCode(b)] + rest) else Err(InvalidFrame)
      else if c != ESCAPE_BYTE then Ok([c] + rest)
      else if rest != [] && rest[0] == ESC_DELIM then Ok([FRAME_DELIM] + rest[1..])
      else if rest != [] && rest[0] == ESC_ESCAPE then Ok([ESCAPE_BYTE] + rest[1..])
      else Err(InvalidFrame)
  {
    SelfApart(c);
    if Special(b) && j == 0 {
      assert StuffedByte(b)[j := c] == [c, EscapeCode(b)];
      PlainBytes(c, EscapeCode(b), rest);
    } else if Special(b) {
      CodesApart();
      assert StuffedByte(b)[j := c] == [ESCAPE_BYTE, c];
      EscapedPair(c, Stuffed(rest));
    } else {
      assert StuffedByte(b)[j := c] == [c];
      if c == ESCAPE_BYTE {
        AfterEscape(rest);
      } else {
        PlainByte(c, Stuffed(rest));
        DestuffedStuffed(rest);
      }
    }
  }

  lemma PlainByte(c: byte, t: bytes)
    requires c != ESCAPE_BYTE
    ensures Destuffed([c] + t) == Prepend([c], Destuffed(t))
  {
    assert ([c] + t)[1..] == t;
  }

  lemma PlainBytes(c: byte, e: byte, rest: bytes)
    requires c != ESCAPE_BYTE && e != ESCAPE_BYTE
    ensures Destuffed([c, e] + Stuffed(rest)) == Ok([c, e] + rest)
  {
    var t := Stuffed(rest);
    assert [c, e] + t == [c] + ([e] + t);
    PlainByte(c, [e] + t);
    PlainByte(e, t);
    DestuffedStuffed(rest);
    assert [c] + ([e] + rest) == [c, e] + rest;
  }

  lemma EscapedPair(c: byte, t: bytes)
    ensures Destuffed([ESCAPE_BYTE, c] + t) ==
      if c == ESC_DELIM then Prepend([FRAME_DELIM], Destuffed(t))
      else if c == ESC_ESCAPE then Prepend([ESCAPE_BYTE], Destuffed(t))
      else Err(InvalidFrame)
  {
    var s := [ESCAPE_BYTE, c] + t;
    assert s[0] == ESCAPE_BYTE && s[1] == c && s[2..] == t;
  }

  lemma AfterEscape(rest: bytes)
    ensures Destuffed([ESCAPE_BYTE] + Stuffed(rest)) ==
      if rest != [] && rest[0] == ESC_DELIM then Ok([FRAME_DELIM] + rest[1..])
      else if rest != [] && rest[0] == ESC_ESCAPE then Ok([ESCAPE_BYTE] + rest[1..])
      else Err(InvalidFrame)
  {
    if rest != [] {
      var t, e := Stuffed(rest[1..]), EscapeCode(rest[0]);
      DestuffedStuffed(rest[1..]);
      if Special(rest[0]) {
        ConcatAssoc([ESCAPE_BYTE], [ESCAPE_BYTE, e], t);
        assert [ESCAPE_BYTE] + [ESCAPE_BYTE, e] == [ESCAPE_BYTE, ESCAPE_BYTE] + [e];
        ConcatAssoc([ESCAPE_BYTE, ESCAPE_BYTE], [e], t);
        EscapedPair(ESCAPE_BYTE, [e] + t);
      } else {
        ConcatAssoc([ESCAPE_BYTE], [rest[0]], t);
        assert [ESCAPE_BYTE] + [rest[0]] == [ESCAPE_BYTE, rest[0]];
        EscapedPair(rest[0], t);
      }
    } else {
      assert [ESCAPE_BYTE] + Stuffed(rest) == [ESCAPE_BYTE];
    }
  }

  // ----- payloads that differ by a lost or a forged escape

  /** The same payload read with two bytes b, e or with the one byte they would stand for. */
  function Long(a: bytes, b: byte, s: byte, rest: bytes): bytes {
    a + [b, EscapeCode(s)] + rest
  }

  function Short(a: bytes, s: byte, rest: bytes): bytes {
    a + [s] + rest
  }

  function BigEndian(a: nat, b: nat, c: nat, d: nat): nat {
    0x100_0000 * a + 0x1_0000 * b + 0x100 * c + d
  }

  lemma LengthBytes(s: bytes)
    requires |s| >= 4
    ensures At32(s, 0) == BigEndian(s[0], s[1], s[2], s[3])
  {
  }

  lemma OneLess(n: nat)
    ensures ToU32(n + 1) != ToU32(n)
    ensures ToU32(n + 1) > 0 ==> ToU32(n) == ToU32(n + 1) - 1
  {
  }

  /** Two big-endian numbers of which one is the other plus one: a digit above a non-zero one does not change. */
  lemma NoBorrow(l0: byte, l1: byte, l2: byte, l3: byte, s0: byte, s1: byte, s2: byte, s3: byte)
    requires BigEndian(s0, s1, s2, s3) == BigEndian(l0, l1, l2, l3) - 1
    ensures l3 > 0 ==> s0 == l0 && s1 == l1 && s2 == l2 && s3 == l3 - 1
    ensures l2 > 0 ==> s0 == l0 && s1 == l1
    ensures l1 > 0 ==> s0 == l0
  {
  }

  /** The two readings of a forged or lost escape; one bit away from the escape byte, b is neither 0 nor s. */
  predicate TwoReadings(b: byte, s: byte) {
    Special(s) && b != s && b > 0 && !(s == ESCAPE_BYTE && b == FRAME_DELIM)
  }

  /**
   * Both readings can have the right length in one case only: the two bytes are 7F 5E and the first of them is
   * the low byte of the length field.
   */
  lemma LengthsAgree(a: bytes, b: byte, s: byte, rest: bytes)
    requires TwoReadings(b, s) && |Short(a, s, rest)| >= MIN_PAYLOAD
    requires At32(Long(a, b, s, rest), 0) == ToU32(|Long(a, b, s, rest)|)
    requires At32(Short(a, s, rest), 0) == ToU32(|Short(a, s, rest)|)
    ensures |a| == 3 && b == 0x7F && s == FRAME_DELIM
  {
    var l, t := Long(a, b, s, rest), Short(a, s, rest);
    var k := |a|;
    assert forall i :: 0 <= i < k ==> l[i] == a[i] == t[i];
    assert l[k] == b && l[k + 1] == EscapeCode(s) && t[k] == s;
    LengthBytes(l);
    LengthBytes(t);
    OneLess(|t|);
    if k < 4 {
      NoBorrow(l[0], l[1], l[2], l[3], t[0], t[1], t[2], t[3]);
    }
  }

  lemma SameTail(u: bytes, v: bytes, d: bytes)
    ensures Crc16(u + d) == Crc16(v + d) <==> Crc16(u) == Crc16(v)
  {
    StreamConcat(u, d);
    StreamConcat(v, d);
    SerialConcat(ZERO, Stream(u), Stream(d));
    SerialConcat(ZERO, Stream(v), Stream(d));
    Crc16Equal(u + d, v + d);
    Crc16Equal(u, v);
    SerialInjective(Serial(ZERO, Stream(u)), Serial(ZERO, Stream(v)), Stream(d));
  }

  /** Replacing the front of a sealed block keeps the seal exactly when the two fronts have one checksum. */
  lemma SealedFronts(u: bytes, v: bytes, rest: bytes)
    requires |rest| >= 2 && Sealed(u + rest)
    ensures Sealed(v + rest) <==> Crc16(u) == Crc16(v)
  {
    SealedTail(u, rest);
    SealedTail(v, rest);
    SameTail(u, v, rest[..|rest| - 2]);
  }

  lemma SealedTail(u: bytes, rest: bytes)
    requires |rest| >= 2
    ensures Sealed(u + rest) <==> At16(rest, |rest| - 2) == Crc16(u + rest[..|rest| - 2])
  {
    var x := u + rest;
    assert x[..|x| - 2] == u + rest[..|rest| - 2];
    assert x[|x| - 2] == rest[|rest| - 2] && x[|x| - 1] == rest[|rest| - 1];
  }

  /** The condition for a frame to be open to one bit error; it depends on the three high bytes of the length alone. */
  predicate Ambiguous(a: bytes) {
    Crc16(a + [0x7F, 0x5E]) == Crc16(a + [0x7E])
  }

  lemma LongRead(a: bytes, b: byte, s: byte, rest: bytes)
    requires TwoReadings(b, s) && CheckedPayload(Long(a, b, s, rest)).Ok?
    ensures CheckedPayload(Short(a, s, rest)).Ok? <==> |a| == 3 && b == 0x7F && s == FRAME_DELIM && Ambiguous(a)
  {
    var l, t := Long(a, b, s, rest), Short(a, s, rest);
    if CheckedPayload(t).Ok? {
      LengthsAgree(a, b, s, rest);
    }
    if |a| == 3 && b == 0x7F && s == FRAME_DELIM {
      SealedFronts(a + [b, EscapeCode(s)], a + [s], rest);
      LowByte(l, t);
    }
  }

  lemma ShortRead(a: bytes, b: byte, s: byte, rest: bytes)
    requires TwoReadings(b, s) && CheckedPayload(Short(a, s, rest)).Ok?
    ensures CheckedPayload(Long(a, b, s, rest)).Ok? <==> |a| == 3 && b == 0x7F && s == FRAME_DELIM && Ambiguous(a)
  {
    var l, t := Long(a, b, s, rest), Short(a, s, rest);
    if CheckedPayload(l).Ok? {
      LengthsAgree(a, b, s, rest);
    }
    if |a| == 3 && b == 0x7F && s == FRAME_DELIM {
      SealedFronts(a + [s], a + [b, EscapeCode(s)], rest);
      LowByte(l, t);
    }
  }

  /** Length fields that end in 7F and 7E are right together. */
  lemma LowByte(l: bytes, t: bytes)
    requires |l| == |t| + 1 && |t| >= 4 && l[..3] == t[..3] && l[3] == 0x7F && t[3] == 0x7E
    ensures At32(l, 0) == ToU32(|l|) <==> At32(t, 0) == ToU32(|t|)
    ensures At32(l, 0) == ToU32(|l|) ==> |t| >= MIN_PAYLOAD
  {
    assert l[..3][0] == t[..3][0] && l[..3][1] == t[..3][1] && l[..3][2] == t[..3][2];
    LengthBytes(l);
    LengthBytes(t);
    SuccessiveFields(|t|, BigEndian(l[0], l[1], l[2], 0));
  }

  lemma SuccessiveFields(n: nat, high: nat)
    requires n >= 4 && high % 0x100 == 0 && high + 0xFF < 0x1_0000_0000
    ensures high + 0x7F == ToU32(n + 1) <==> high + 0x7E == ToU32(n)
    ensures high + 0x7F == ToU32(n + 1) ==> n >= MIN_PAYLOAD
  {
    OneLess(n);
  }

  // ----- the verdict

  /** One byte of an accepted payload changed: never accepted. */
  lemma OneByteRejected(a: bytes, b: byte, c: byte, rest: bytes)
    requires CheckedPayload(a + [b] + rest).Ok? && b != c
    ensures CheckedPayload(a + [c] + rest).Err?
  {
    var p, q, at := a + [b] + rest, a + [c] + rest, 8 * |a|;
    OneByteWindow(a, b, c, rest);
    ShortBurstDetected(p, q, at);
    assert p[|a|] != q[|a|];
  }

  lemma OneByteWindow(a: bytes, b: byte, c: byte, rest: bytes)
    ensures DifferOnlyIn(Stream(a + [b] + rest), Stream(a + [c] + rest), 8 * |a|, 8)
  {
    StreamConcat(a + [b], rest);
    StreamConcat(a, [b]);
    StreamConcat(a + [c], rest);
    StreamConcat(a, [c]);
  }

  /** The flip that would pass: low length byte 7F before 5E read as an escape, or its escape 7D 5E read as 7F 5E. */
  predicate Hits(a: bytes, b: byte, rest: bytes, j: nat, c: byte) {
    && |a| == 3 && j == 0
    && ((b == 0x7F && rest != [] && rest[0] == ESC_DELIM && c == ESCAPE_BYTE) || (b == FRAME_DELIM && c == 0x7F))
  }

  lemma MisreadJudged(a: bytes, b: byte, rest: bytes, j: nat, c: byte)
    requires CheckedPayload(a + [b] + rest).Ok? && j < |StuffedByte(b)| && OneBit(StuffedByte(b)[j], c)
    ensures var m := Misread(a, b, rest, j, c);
      (m.Ok? && CheckedPayload(m.value).Ok?) <==> Hits(a, b, rest, j, c) && Ambiguous(a)
  {
    SelfApart(c);
    if Special(b) {
      if j == 0 {
        NearEscape(c, b);
        ShortRead(a, c, b, rest);
      }
    } else if c != ESCAPE_BYTE {
      OneByteRejected(a, b, c, rest);
    } else if rest != [] && (rest[0] == ESC_DELIM || rest[0] == ESC_ESCAPE) {
      var s := if rest[0] == ESC_DELIM then FRAME_DELIM else ESCAPE_BYTE;
      NearEscape(b, s);
      AsLong(a, b, s, rest);
      LongRead(a, b, s, rest[1..]);
    }
  }

  lemma AsLong(a: bytes, b: byte, s: byte, rest: bytes)
    requires rest != [] && rest[0] == EscapeCode(s)
    ensures a + [b] + rest == Long(a, b, s, rest[1..])
  {
  }

  lemma NearEscape(c: byte, s: byte)
    requires Special(s) && (OneBit(ESCAPE_BYTE, c) || OneBit(c, ESCAPE_BYTE))
    ensures TwoReadings(c, s)
  {
    if c == 0 {
      NotZero();
    } else if c == ESCAPE_BYTE {
      SelfApart(c);
    } else if c == FRAME_DELIM {
      SpecialsApart();
    }
  }

  lemma NeighbourOfEscape()
    ensures OneBit(ESCAPE_BYTE, 0x7F)
  {
    var s, t := [true, false, true, true, true, true, true, false],
      [true, true, true, true, true, true, true, false];
    Close(0x7D, 0x7F, s, t, 1);
  }

  lemma NotZero()
    ensures !OneBit(ESCAPE_BYTE, 0) && !OneBit(0, ESCAPE_BYTE)
  {
    var s, t := [true, false, true, true, true, true, true, false],
      [false, false, false, false, false, false, false, false];
    Apart(0x7D, 0x00, s, t, 0, 2);
  }

  lemma {:induction false} StuffedGrows(raw: bytes, m: nat, n: nat)
    requires m < n <= |raw|
    ensures |Stuffed(raw[..m])| + |StuffedByte(raw[m])| <= |Stuffed(raw[..n])|
    decreases n
  {
    assert raw[..n] == raw[..n - 1] + [raw[n - 1]];
    StuffedSnoc(raw[..n - 1], raw[n - 1]);
    if m < n - 1 {
      StuffedGrows(raw, m, n - 1);
    }
  }

  lemma SamePlace(raw: bytes, n: nat, j: nat)
    requires |raw| > 3 && n < |raw| && j < |StuffedByte(raw[n])|
    ensures |Stuffed(raw[..n])| + j == |Stuffed(raw[..3])| <==> n == 3 && j == 0
  {
    if n < 3 {
      StuffedGrows(raw, n, 3);
    } else if 3 < n {
      StuffedGrows(raw, 3, n);
    }
  }

  /** The i-th stuffed byte is the low byte of an ambiguous length field, and c forges or spoils its escape. */
  predicate Slips(raw: bytes, i: nat, c: byte)
    requires |raw| >= MIN_PAYLOAD
  {
    && i == |Stuffed(raw[..3])| && Ambiguous(raw[..3])
    && ((raw[3] == 0x7F && raw[4] == ESC_DELIM && c == ESCAPE_BYTE) || (raw[3] == FRAME_DELIM && c == 0x7F))
  }

  /** The same verdict for the j-th byte that the n-th payload byte is stuffed into. */
  lemma FlipJudged(raw: bytes, n: nat, j: nat, c: byte)
    requires CheckedPayload(raw).Ok? && n < |raw| && j < |StuffedByte(raw[n])| && OneBit(StuffedByte(raw[n])[j], c)
    ensures |Stuffed(raw[..n])| + j < |Stuffed(raw)| && Stuffed(raw)[|Stuffed(raw[..n])| + j] == StuffedByte(raw[n])[j]
    ensures ExtractedPayload([FRAME_DELIM] + Stuffed(raw)[|Stuffed(raw[..n])| + j := c] + [FRAME_DELIM]).Ok?
       <==> Hits(raw[..n], raw[n], raw[n + 1..], j, c) && Ambiguous(raw[..n])
  {
    var a, b, rest := raw[..n], raw[n], raw[n + 1..];
    StuffedAround(raw, n);
    UpdateMiddle(Stuffed(a), StuffedByte(b), Stuffed(rest), j, c);
    FrameAround(Stuffed(raw)[|Stuffed(a)| + j := c]);
    MisreadRight(a, b, rest, j, c);
    Whole(raw, n);
    MisreadJudged(a, b, rest, j, c);
  }

  /**
   * A valid stuffed payload with one bit flipped anywhere on the wire. Errors in plain bytes, escapes forged,
   * lost or spoiled and bytes turned into delimiters are all rejected, with one exception: the flipped byte is
   * the low byte of the length field, it turns 7F 5E into an escape or the escape 7D 5E into 7F 5E, and the
   * high bytes of the length make the two readings have the same checksum.
   */
  lemma OneFlippedBit(raw: bytes, i: nat, c: byte)
    requires CheckedPayload(raw).Ok? && i < |Stuffed(raw)| && OneBit(Stuffed(raw)[i], c)
    ensures ExtractedPayload([FRAME_DELIM] + Stuffed(raw)[i := c] + [FRAME_DELIM]).Ok? <==> Slips(raw, i, c)
  {
    var n, j := Locate(raw, i, 0);
    FlipByte(raw, n, j);
    FlipJudged(raw, n, j, c);
    HitsSlips(raw, n, j, c);
  }

  lemma FlipByte(raw: bytes, n: nat, j: nat)
    requires n < |raw| && j < |StuffedByte(raw[n])|
    ensures |Stuffed(raw[..n])| + j < |Stuffed(raw)|
    ensures Stuffed(raw)[|Stuffed(raw[..n])| + j] == StuffedByte(raw[n])[j]
  {
    StuffedAround(raw, n);
  }

  lemma HitsSlips(raw: bytes, n: nat, j: nat, c: byte)
    requires |raw| >= MIN_PAYLOAD && n < |raw| && j < |StuffedByte(raw[n])|
    ensures Hits(raw[..n], raw[n], raw[n + 1..], j, c) && Ambiguous(raw[..n])
       <==> Slips(raw, |Stuffed(raw[..n])| + j, c)
  {
    SamePlace(raw, n, j);
  }

  lemma Whole(raw: bytes, n: nat)
    requires n < |raw|
    ensures raw == raw[..n] + [raw[n]] + raw[n + 1..]
  {
  }

  lemma FrameAround(y: bytes)
    ensures ExtractedPayload([FRAME_DELIM] + y + [FRAME_DELIM]) ==
      if Destuffed(y).Err? then Destuffed(y) else CheckedPayload(Destuffed(y).value)
  {
    var f := [FRAME_DELIM] + y + [FRAME_DELIM];
    assert f[1..|f| - 1] == y;
  }
}
