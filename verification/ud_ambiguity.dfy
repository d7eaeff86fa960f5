/**
 * unix_domain/lib/ud_proto.cpp: the packet sizes for which one flipped bit on the wire can turn a frame into a
 * different valid frame. Below 16 MiB there are eight of them; every smaller packet is safe.
 */
module UdAmbiguity {
  import opened Bytes
  import opened Crc
  import opened CrcMachine
  import opened UdProto
  import opened UdErrors

  // ----- checksums compared on machine words

  function ByteWord(b: byte): bv8 {
    var s := Bits(b, 8);
    (if s[0] then 0x1 else 0) | (if s[1] then 0x2 else 0) | (if s[2] then 0x4 else 0) | (if s[3] then 0x8 else 0)
    | (if s[4] then 0x10 else 0) | (if s[5] then 0x20 else 0) | (if s[6] then 0x40 else 0) | (if s[7] then 0x80 else 0)
  }

  lemma ByteWordSame(b: byte)
    ensures SameByte(b, ByteWord(b))
  {
  }

  lemma WordUnique(c: register, v: bv16, w: bv16)
    requires SameWord(c, v) && SameWord(c, w)
    ensures v == w
  {
  }

  lemma ChecksumsOnWords(d: bytes, e: bytes, m: seq<bv8>, n: seq<bv8>)
    requires SameBytes(d, m) && SameBytes(e, n)
    ensures Crc16(d) == Crc16(e) <==> FeedWord(UNREFLECTED, 0, m) == FeedWord(UNREFLECTED, 0, n)
  {
    var v, w := FeedWord(UNREFLECTED, 0, m), FeedWord(UNREFLECTED, 0, n);
    SameFeed(ZERO, 0, d, m);
    SameFeed(ZERO, 0, e, n);
    BitsOfValue(Feed(ZERO, d));
    BitsOfValue(Feed(ZERO, e));
    if Crc16(d) == Crc16(e) {
      WordUnique(Feed(ZERO, d), v, w);
    } else if v == w {
      SameWordUnique(Feed(ZERO, d), Feed(ZERO, e), v);
    }
  }

  // ----- the equation for the register after the high length bytes

  predicate AmbiguousWord(w: bv16) {
    StepWord(UNREFLECTED, StepWord(UNREFLECTED, w, 0x7F), 0x5E) == StepWord(UNREFLECTED, w, 0x7E)
  }

  lemma AmbiguousWords(w: bv16)
    ensures AmbiguousWord(w) <==> w == 0x2302 || w == 0x7655 || w == 0x89AC || w == 0xDCFB
  {
  }

  function TwoBytesFed(v: bv8, w: bv8): bv16 {
    StepWord(UNREFLECTED, StepWord(UNREFLECTED, 0, v), w)
  }

  lemma WordRuns()
    ensures TwoBytesFed(0x1D, 0x7D) == 0x2302 && TwoBytesFed(0x4A, 0x28) == 0x7655
    ensures TwoBytesFed(0xB3, 0xD7) == 0x89AC && TwoBytesFed(0xE4, 0x82) == 0xDCFB
  {
  }

  lemma FeedHead(c: bv16, x: bv8, m: seq<bv8>)
    ensures FeedWord(UNREFLECTED, c, [x] + m) == FeedWord(UNREFLECTED, StepWord(UNREFLECTED, c, x), m)
  {
    assert ([x] + m)[1..] == m;
  }

  lemma FeedPair(c: bv16, x: bv8, y: bv8, m: seq<bv8>)
    ensures FeedWord(UNREFLECTED, c, [x, y] + m)
         == FeedWord(UNREFLECTED, StepWord(UNREFLECTED, StepWord(UNREFLECTED, c, x), y), m)
  {
    assert [x, y] + m == [x] + ([y] + m);
    FeedHead(c, x, [y] + m);
    FeedHead(StepWord(UNREFLECTED, c, x), y, m);
  }

  lemma TwoFed(v: bv8, w: bv8)
    ensures FeedWord(UNREFLECTED, 0, [v, w]) == TwoBytesFed(v, w)
  {
    assert [v, w] + [] == [v, w];
    FeedPair(0, v, w, []);
  }

  /** Two bytes are told apart by the register they leave. */
  lemma TwoBytesInjective(x: byte, y: byte, a: byte, b: byte, v: bv8, w: bv8)
    requires SameByte(a, v) && SameByte(b, w)
    ensures TwoBytesFed(ByteWord(x), ByteWord(y)) == TwoBytesFed(v, w) <==> x == a && y == b
  {
    ByteWordSame(x);
    ByteWordSame(y);
    ChecksumsOnWords([x, y], [a, b], [ByteWord(x), ByteWord(y)], [v, w]);
    TwoFed(ByteWord(x), ByteWord(y));
    TwoFed(v, w);
    BurstDetected([x, y], [a, b], 0);
    assert [x, y] == [a, b] <==> [x, y][0] == [a, b][0] && [x, y][1] == [a, b][1];
  }

  predicate AmbiguousPair(x: byte, y: byte) {
    (x == 0x1D && y == 0x7D) || (x == 0x4A && y == 0x28) || (x == 0xB3 && y == 0xD7) || (x == 0xE4 && y == 0x82)
  }

  lemma Same1D7D()
    ensures SameByte(0x1D, 0x1D) && SameByte(0x7D, 0x7D)
  {
    WordByteDigits(0x1D);
    WordByteDigits(0x7D);
    assert WordByte(0x1D) == 0x1D && WordByte(0x7D) == 0x7D;
  }

  lemma Same4A28()
    ensures SameByte(0x4A, 0x4A) && SameByte(0x28, 0x28)
  {
    WordByteDigits(0x4A);
    WordByteDigits(0x28);
    assert WordByte(0x4A) == 0x4A && WordByte(0x28) == 0x28;
  }

  lemma SameB3D7()
    ensures SameByte(0xB3, 0xB3) && SameByte(0xD7, 0xD7)
  {
    WordByteDigits(0xB3);
    WordByteDigits(0xD7);
    assert WordByte(0xB3) == 0xB3 && WordByte(0xD7) == 0xD7;
  }

  lemma SameE482()
    ensures SameByte(0xE4, 0xE4) && SameByte(0x82, 0x82)
  {
    WordByteDigits(0xE4);
    WordByteDigits(0x82);
    assert WordByte(0xE4) == 0xE4 && WordByte(0x82) == 0x82;
  }

  lemma Same7F5E()
    ensures SameByte(0x7F, 0x7F) && SameByte(0x5E, 0x5E)
  {
    WordByteDigits(0x7F);
    WordByteDigits(0x5E);
    assert WordByte(0x7F) == 0x7F && WordByte(0x5E) == 0x5E;
  }

  lemma Same007E()
    ensures SameByte(0x00, 0x00) && SameByte(0x7E, 0x7E)
  {
    WordByteDigits(0x00);
    WordByteDigits(0x7E);
    assert WordByte(0x00) == 0x00 && WordByte(0x7E) == 0x7E;
  }

  lemma AmbiguousPairs(x: byte, y: byte, r: bv16)
    requires r == TwoBytesFed(ByteWord(x), ByteWord(y))
    ensures AmbiguousWord(r) <==> AmbiguousPair(x, y)
  {
    AmbiguousWords(r);
    WordRuns();
    Same1D7D();
    Same4A28();
    SameB3D7();
    SameE482();
    TwoBytesInjective(x, y, 0x1D, 0x7D, 0x1D, 0x7D);
    TwoBytesInjective(x, y, 0x4A, 0x28, 0x4A, 0x28);
    TwoBytesInjective(x, y, 0xB3, 0xD7, 0xB3, 0xD7);
    TwoBytesInjective(x, y, 0xE4, 0x82, 0xE4, 0x82);
  }

  lemma TailsFed(c: bv16)
    ensures FeedWord(UNREFLECTED, c, [0x7F, 0x5E]) == StepWord(UNREFLECTED, StepWord(UNREFLECTED, c, 0x7F), 0x5E)
    ensures FeedWord(UNREFLECTED, c, [0x7E]) == StepWord(UNREFLECTED, c, 0x7E)
  {
    var m: seq<bv8>, n: seq<bv8> := [0x7F, 0x5E], [0x7E];
    assert m + [] == m && n + [] == n;
    FeedPair(c, 0x7F, 0x5E, []);
    FeedHead(c, 0x7E, []);
  }

  lemma LongFed(v: bv8, w: bv8, m: seq<bv8>)
    ensures FeedWord(UNREFLECTED, 0, [0, v, w] + m) == FeedWord(UNREFLECTED, TwoBytesFed(v, w), m)
  {
    assert [0, v, w] + m == [0] + ([v, w] + m);
    FeedHead(0, 0, [v, w] + m);
    assert StepWord(UNREFLECTED, 0, 0) == 0;
    FeedPair(0, v, w, m);
  }

  /** Ambiguous length bytes, for packets below 16 MiB. */
  lemma AmbiguousLengths(x: byte, y: byte)
    ensures Ambiguous([0, x, y]) <==> AmbiguousPair(x, y)
  {
    var v, w := ByteWord(x), ByteWord(y);
    ByteWordSame(x);
    ByteWordSame(y);
    var d: bytes, m: seq<bv8> := [0, x, y], [0, v, w];
    SameTails(d, m);
    ChecksumsOnWords(d + [0x7F, 0x5E], d + [0x7E], m + [0x7F, 0x5E], m + [0x7E]);
    LongFed(v, w, [0x7F, 0x5E]);
    LongFed(v, w, [0x7E]);
    TailsFed(TwoBytesFed(v, w));
    AmbiguousPairs(x, y, TwoBytesFed(v, w));
  }

  lemma SameTails(d: bytes, m: seq<bv8>)
    requires |d| == |m| == 3 && d[0] == 0 && m[0] == 0 && SameByte(d[1], m[1]) && SameByte(d[2], m[2])
    ensures SameBytes(d + [0x7F, 0x5E], m + [0x7F, 0x5E]) && SameBytes(d + [0x7E], m + [0x7E])
  {
    Same7F5E();
    Same007E();
  }

  // ----- the verdict by size

  /** The sizes, without the low byte, whose length field is ambiguous. */
  predicate AmbiguousSize(n: nat) {
    n / 0x100 == 0x1D7D || n / 0x100 == 0x4A28 || n / 0x100 == 0xB3D7 || n / 0x100 == 0xE482
  }

  lemma SizeBytes(raw: bytes)
    requires 4 <= |raw| < 0x100_0000 && At32(raw, 0) == ToU32(|raw|)
    ensures raw[..3] == [0, raw[1], raw[2]] && raw[3] == |raw| % 0x100
    ensures AmbiguousPair(raw[1], raw[2]) <==> AmbiguousSize(|raw|)
  {
    LengthBytes(raw);
    assert raw[0] == 0;
  }

  /**
   * Below 16 MiB a packet survives one flipped bit of its stuffed form, as a different packet, if and only if
   * it has one of eight sizes and the flip strikes the low byte of the length field as said.
   */
  lemma OneFlippedBitBySize(raw: bytes, i: nat, c: byte)
    requires CheckedPayload(raw).Ok? && |raw| < 0x100_0000
    requires i < |Stuffed(raw)| && OneBit(Stuffed(raw)[i], c)
    ensures ExtractedPayload([FRAME_DELIM] + Stuffed(raw)[i := c] + [FRAME_DELIM]).Ok? <==>
      && AmbiguousSize(|raw|) && i == |Stuffed(raw[..3])|
      && ((|raw| % 0x100 == 0x7F && raw[4] == ESC_DELIM && c == ESCAPE_BYTE) || (|raw| % 0x100 == 0x7E && c == 0x7F))
  {
    OneFlippedBit(raw, i, c);
    SizeBytes(raw);
    AmbiguousLengths(raw[1], raw[2]);
  }

  /** So no packet of less than 0x1D7D7E bytes does, and every packet of exactly that size has such a bit. */
  lemma SmallPacketsSafe(raw: bytes, i: nat, c: byte)
    requires CheckedPayload(raw).Ok? && |raw| < 0x1D7D7E
    requires i < |Stuffed(raw)| && OneBit(Stuffed(raw)[i], c)
    ensures ExtractedPayload([FRAME_DELIM] + Stuffed(raw)[i := c] + [FRAME_DELIM]).Err?
  {
    OneFlippedBitBySize(raw, i, c);
  }

  lemma FirstUnsafeSize(raw: bytes)
    requires CheckedPayload(raw).Ok? && |raw| == 0x1D7D7E
    ensures |Stuffed(raw)| > 4 && OneBit(Stuffed(raw)[4], 0x7F)
    ensures ExtractedPayload([FRAME_DELIM] + Stuffed(raw)[4 := 0x7F] + [FRAME_DELIM]).Ok?
  {
    SizeBytes(raw);
    EscapedSize(raw);
    EscapedAt(raw);
    NeighbourOfEscape();
    OneFlippedBitBySize(raw, 4, 0x7F);
  }

  lemma EscapedAt(raw: bytes)
    requires |raw| > 3 && raw[3] == FRAME_DELIM && |Stuffed(raw[..3])| == 4
    ensures |Stuffed(raw)| > 4 && Stuffed(raw)[4] == ESCAPE_BYTE
  {
    StuffedAround(raw, 3);
    UpdateMiddle(Stuffed(raw[..3]), StuffedByte(raw[3]), Stuffed(raw[4..]), 0, 0x7F);
  }

  lemma UnsafePacket(data: bytes) returns (raw: bytes)
    requires |data| + MIN_PAYLOAD == 0x1D7D7E
    ensures |raw| == 0x1D7D7E && CheckedPayload(raw).Ok? && |Stuffed(raw)| > 4
    ensures ExtractedPayload([FRAME_DELIM] + Stuffed(raw)[4 := 0x7F] + [FRAME_DELIM]).Ok?
  {
    var length: u32 := |data| + MIN_PAYLOAD;
    raw := Payload(length, 0, 0, 0, data);
    CheckBuilt(length, 0, 0, 0, data);
    assert TotalLength(|data|) == length;
    FirstUnsafeSize(raw);
  }

  /** Such packets exist: two different payloads whose frames are one bit apart. */
  lemma UnsafeExample() returns (raw: bytes)
    ensures |raw| == 0x1D7D7E && CheckedPayload(raw).Ok? && |Stuffed(raw)| > 4
    ensures ExtractedPayload([FRAME_DELIM] + Stuffed(raw)[4 := 0x7F] + [FRAME_DELIM]).Ok?
  {
    raw := UnsafePacket(seq(0x1D7D7E - MIN_PAYLOAD, _ => 0));
  }

  lemma EscapedSize(raw: bytes)
    requires |raw| >= 4 && raw[..3] == [0, raw[1], raw[2]] && raw[1] == 0x1D && raw[2] == 0x7D
    ensures |Stuffed(raw[..3])| == 4
  {
    var a: bytes := [0, 0x1D];
    assert raw[..3] == a + [0x7D] && a == [0] + [0x1D];
    StuffedSnoc(a, 0x7D);
    StuffedSnoc([0], 0x1D);
    assert [0] == [] + [0];
    StuffedSnoc([], 0);
  }
}
