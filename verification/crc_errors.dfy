/**
 * What the checksum of unix_domain/lib/ud_proto.cpp notices when a corruption reaches into the checksum field
 * itself. The field is appended high byte first, so it does not continue the bit stream that the register saw.
 */
module CrcErrors {
  import opened Bytes
  import opened Crc
  import opened CrcMachine

  /** The flipped bits of the covered bytes, as they enter the register. */
  function BodyError(p: bytes, q: bytes): (e: bits)
    requires |p| == |q| >= 2
    ensures |e| == 8 * (|p| - 2)
  {
    Xor(Stream(p[..|p| - 2]), Stream(q[..|q| - 2]))
  }

  /** The checksum field as register bits. */
  function Field(p: bytes): (r: register)
    requires |p| >= 2
  {
    Bits(At16(p, |p| - 2), 16)
  }

  /** The flipped bits of the checksum field, as register bits. */
  function FieldError(p: bytes, q: bytes): (e: bits)
    requires |p| == |q| >= 2
    ensures |e| == 16
  {
    Xor(Field(p), Field(q))
  }

  /** The exact condition for a corruption to pass: the register of the body's error is the field's error. */
  predicate Unnoticed(p: bytes, q: bytes)
    requires |p| == |q| >= 2
  {
    Serial(ZERO, BodyError(p, q)) == FieldError(p, q)
  }

  lemma FieldBits(p: bytes)
    requires |p| >= 2
    ensures Sealed(p) <==> Field(p) == Serial(ZERO, Stream(p[..|p| - 2]))
  {
    var d, v := p[..|p| - 2], At16(p, |p| - 2);
    FeedIsSerial(ZERO, d);
    BitsOfValue(Feed(ZERO, d));
    assert Pow2(4) == 16 && Pow2(8) == 256 && Pow2(12) == 4096;
    ValueOfBits(v, 16);
  }

  lemma XorTurn(a: bits, b: bits, c: bits)
    requires |a| == |b| == |c|
    ensures Xor(a, b) == Xor(a, c) <==> b == c
  {
    assert Xor(a, b) == Xor(b, a) && Xor(a, c) == Xor(c, a);
    XorCancel(b, c, a);
  }

  /** Any corruption of a sealed block, wherever it is, passes if and only if it meets the condition. */
  lemma SealedAfterError(p: bytes, q: bytes)
    requires Sealed(p) && |q| == |p|
    ensures Sealed(q) <==> Unnoticed(p, q)
  {
    var n := |p| - 2;
    var s, t := Stream(p[..n]), Stream(q[..n]);
    FieldBits(p);
    FieldBits(q);
    SerialLinear(ZERO, ZERO, s, t);
    assert Xor(ZERO, ZERO) == ZERO;
    XorTurn(Serial(ZERO, s), Serial(ZERO, t), Field(q));
  }

  // ----- short bursts

  lemma {:induction false} SerialZeros(k: nat)
    ensures Serial(ZERO, Zeros(k)) == ZERO
  {
    if k > 0 {
      assert Zeros(k)[1..] == Zeros(k - 1);
      assert [false] + Zeros(15) == ZERO && Xor(ZERO, ZERO) == ZERO;
      assert Shift(ZERO) == ZERO;
      SerialZeros(k - 1);
    }
  }

  lemma ZerosSlice(s: bits, i: nat, j: nat)
    requires i <= j <= |s|
    ensures s[i..j] == Zeros(j - i) <==> forall k :: i <= k < j ==> !s[k]
  {
    var t := s[i..j];
    assert forall k :: i <= k < j ==> s[k] == t[k - i];
  }

  /** One shift with a clear top bit dropped a clear bit, and only moved the others down. */
  lemma ClearShift(d: register)
    requires !Shift(d)[15]
    ensures !d[0] && Shift(d) == d[1..] + [false]
  {
  }

  lemma MovedDown(c: register, j: nat, d: register)
    requires j < 16 && d == c[j..] + Zeros(j)
    ensures d[0] == c[j] && d[1..] + [false] == c[j + 1..] + Zeros(j + 1)
  {
    ZerosEnd(j);
    assert d[1..] == c[j + 1..] + Zeros(j);
    ConcatAssoc(c[j + 1..], Zeros(j), [false]);
  }

  /** The top bits of a shifted register show which bits fell out: if they are clear, nothing did. */
  lemma {:induction false} TopBitsReveal(c: register, k: nat)
    requires k <= 16 && ShiftN(c, k)[16 - k..] == Zeros(k)
    ensures c[..k] == Zeros(k) && ShiftN(c, k) == c[k..] + Zeros(k)
    decreases k
  {
    if k == 0 {
      assert c[0..] + Zeros(0) == c;
    } else {
      var d := ShiftN(c, k - 1);
      ShiftNSum(c, k - 1, 1);
      assert ShiftN(c, k) == Shift(d);
      TopClear(d, k);
      TopBitsReveal(c, k - 1);
      MovedDown(c, k - 1, d);
      ZerosEnd(k - 1);
      assert c[..k] == c[..k - 1] + [false];
    }
  }

  /** Clear top bits after a shift were clear top bits before it, and a clear bit fell out. */
  lemma TopClear(d: register, k: nat)
    requires 1 <= k <= 16 && Shift(d)[16 - k..] == Zeros(k)
    ensures d[17 - k..] == Zeros(k - 1) && Shift(d) == d[1..] + [false] && !d[0]
  {
    var r := Shift(d);
    ZerosSlice(r, 16 - k, 16);
    assert r[16 - k..16] == r[16 - k..];
    ClearShift(d);
    ZerosSlice(d, 17 - k, 16);
    assert d[17 - k..16] == d[17 - k..];
    assert forall i :: 17 - k <= i < 16 ==> d[i] == r[i - 1];
  }

  lemma {:induction false} ZerosEnd(k: nat)
    ensures Zeros(k) + [false] == Zeros(k + 1)
  {
    assert forall i :: 0 <= i < k + 1 ==> !(Zeros(k) + [false])[i];
  }

  lemma XorZero(c: register)
    ensures Xor(ZERO, c) == c
  {
  }

  lemma BlockFromZero(tail: bits, c: register)
    requires |tail| <= 16 && c == Padded(tail)
    ensures Serial(ZERO, tail) == ShiftN(c, |tail|)
  {
    XorZero(c);
    SerialBlock(ZERO, tail);
  }

  lemma TailBlock(tail: bits, k: nat)
    requires |tail| == k <= 16 && Serial(ZERO, tail)[16 - k..] == Zeros(k)
    ensures tail == Zeros(k)
  {
    var c := Padded(tail);
    BlockFromZero(tail, c);
    TopBitsReveal(c, k);
    assert c[..k] == tail;
  }

  /** An error in the last k bits of the body cannot be matched in a field whose last k register bits are intact. */
  lemma TailRevealed(e: bits, k: nat)
    requires k <= |e| && k <= 16
    requires e[..|e| - k] == Zeros(|e| - k) && Serial(ZERO, e)[16 - k..] == Zeros(k)
    ensures e == Zeros(|e|)
  {
    var front, tail := Zeros(|e| - k), e[|e| - k..];
    SplitAt(e, |e| - k);
    SerialConcat(ZERO, front, tail);
    SerialZeros(|e| - k);
    TailBlock(tail, k);
    assert front + Zeros(k) == Zeros(|e|);
  }

  /** The bits of the checksum field in the stream: the high byte comes first. */
  function FieldStream(v: u16): (s: bits)
    ensures |s| == 16
  {
    Bits(v / 0x100, 8) + Bits(v % 0x100, 8)
  }

  /** Where the i-th register bit stands in the field: against the register, the halves are exchanged. */
  function Exchanged(i: nat): (j: nat)
    requires i < 16
    ensures j < 16
  {
    if i < 8 then 8 + i else i - 8
  }

  lemma FieldHalves(v: u16, i: nat)
    requires i < 16
    ensures Bits(v, 16)[i] == FieldStream(v)[Exchanged(i)]
  {
    StreamOfWord(v);
  }

  lemma FieldInStream(p: bytes)
    requires |p| >= 2
    ensures Stream(p) == Stream(p[..|p| - 2]) + FieldStream(At16(p, |p| - 2))
  {
    var d, v := p[..|p| - 2], At16(p, |p| - 2);
    Be16RoundTrip(p, |p| - 2, v);
    assert p == d + Be16(v);
    StreamConcat(d, Be16(v));
    StreamOfWord(v);
  }

  lemma BodyInStream(p: bytes, i: nat)
    requires |p| >= 2 && i < 8 * (|p| - 2)
    ensures Stream(p)[i] == Stream(p[..|p| - 2])[i]
  {
    FieldInStream(p);
  }

  lemma FieldInStreamAt(p: bytes, j: nat)
    requires |p| >= 2 && j < 16
    ensures Stream(p)[8 * (|p| - 2) + j] == FieldStream(At16(p, |p| - 2))[j]
  {
    FieldInStream(p);
  }

  lemma BodyBit(p: bytes, q: bytes, i: nat)
    requires |p| == |q| >= 2 && i < 8 * (|p| - 2)
    ensures BodyError(p, q)[i] == (Stream(p)[i] != Stream(q)[i])
  {
    BodyInStream(p, i);
    BodyInStream(q, i);
  }

  /** Where the i-th register bit of the checksum field stands in the stream. */
  function FieldPlace(p: bytes, i: nat): nat
    requires |p| >= 2 && i < 16
  {
    8 * (|p| - 2) + Exchanged(i)
  }

  /** A register bit of the checksum field, found in the stream. */
  lemma FieldStreamed(p: bytes, i: nat)
    requires |p| >= 2 && i < 16
    ensures Stream(p)[FieldPlace(p, i)] == Field(p)[i]
  {
    FieldInStreamAt(p, Exchanged(i));
    FieldHalves(At16(p, |p| - 2), i);
  }

  lemma FieldErrorAt(p: bytes, q: bytes, i: nat)
    requires |p| == |q| >= 2 && i < 16
    ensures FieldError(p, q)[i] == (Field(p)[i] != Field(q)[i])
  {
  }

  lemma FieldBit(p: bytes, q: bytes, i: nat)
    requires |p| == |q| >= 2 && i < 16
    ensures FieldError(p, q)[i] == (Stream(p)[FieldPlace(p, i)] != Stream(q)[FieldPlace(p, i)])
  {
    var a, b := Field(p)[i], Field(q)[i];
    var x, y := Stream(p)[FieldPlace(p, i)], Stream(q)[FieldPlace(q, i)];
    assert x == a by {
      FieldStreamed(p, i);
    }
    assert y == b by {
      FieldStreamed(q, i);
    }
    assert FieldError(p, q)[i] == (a != b) by {
      FieldErrorAt(p, q, i);
    }
  }

  lemma SameBlocks(p: bytes, q: bytes)
    requires Sealed(p) && Sealed(q) && |p| == |q| && p[..|p| - 2] == q[..|q| - 2]
    ensures p == q
  {
    SealedSplit(p, p[..|p| - 2]);
    SealedSplit(q, q[..|q| - 2]);
  }

  lemma CleanBody(p: bytes, q: bytes)
    requires |p| == |q| >= 2 && BodyError(p, q) == Zeros(|BodyError(p, q)|)
    ensures p[..|p| - 2] == q[..|q| - 2]
  {
    XorZeros(Stream(p[..|p| - 2]), Stream(q[..|q| - 2]));
    StreamInjective(p[..|p| - 2], q[..|q| - 2]);
  }

  lemma FieldIntact(p: bytes, q: bytes)
    requires Sealed(p) && Sealed(q) && |p| == |q| && FieldError(p, q) == ZERO
    ensures Crc16(p[..|p| - 2]) == Crc16(q[..|q| - 2])
  {
    SealedAfterError(p, q);
    DetectionDependsOnErrorOnly(p[..|p| - 2], q[..|q| - 2]);
  }

  lemma BurstBeforeField(p: bytes, q: bytes, at: nat)
    requires Sealed(p) && Sealed(q) && |p| == |q|
    requires DifferOnlyIn(Stream(p), Stream(q), at, 8) && at + 8 <= 8 * (|p| - 2)
    ensures p[..|p| - 2] == q[..|q| - 2]
  {
    var d, e := p[..|p| - 2], q[..|q| - 2];
    forall i | 0 <= i < 16
      ensures !FieldError(p, q)[i]
    {
      FieldBit(p, q, i);
    }
    assert FieldError(p, q) == ZERO;
    FieldIntact(p, q);
    BodyWindow(p, q, at);
    BurstDetected(d, e, at);
  }

  lemma BodyWindow(p: bytes, q: bytes, at: nat)
    requires |p| == |q| >= 2 && DifferOnlyIn(Stream(p), Stream(q), at, 8)
    ensures DifferOnlyIn(Stream(p[..|p| - 2]), Stream(q[..|q| - 2]), at, 16)
  {
    FieldInStream(p);
    FieldInStream(q);
    var s, t := Stream(p[..|p| - 2]), Stream(q[..|q| - 2]);
    assert forall i :: 0 <= i < |s| ==> s[i] == Stream(p)[i] && t[i] == Stream(q)[i];
  }

  lemma BurstAcrossField(p: bytes, q: bytes, at: nat)
    requires Sealed(p) && Sealed(q) && |p| == |q|
    requires DifferOnlyIn(Stream(p), Stream(q), at, 8) && 8 * (|p| - 2) < at + 8
    ensures p[..|p| - 2] == q[..|q| - 2]
  {
    var m := 8 * (|p| - 2);
    var k := if at <= m then m - at else 0;
    AcrossBits(p, q, at, k);
    SealedAfterError(p, q);
    MatchedBody(p, q, k);
  }

  lemma MatchedBody(p: bytes, q: bytes, k: nat)
    requires |p| == |q| >= 2 && Unnoticed(p, q) && k <= |BodyError(p, q)| && k <= 16
    requires BodyError(p, q)[..|BodyError(p, q)| - k] == Zeros(|BodyError(p, q)| - k)
    requires FieldError(p, q)[16 - k..] == Zeros(k)
    ensures p[..|p| - 2] == q[..|q| - 2]
  {
    var e := BodyError(p, q);
    assert Serial(ZERO, e) == FieldError(p, q);
    TailRevealed(e, k);
    CleanBody(p, q);
  }

  lemma AcrossBits(p: bytes, q: bytes, at: nat, k: nat)
    requires |p| == |q| >= 2 && DifferOnlyIn(Stream(p), Stream(q), at, 8)
    requires k < 8 && k <= |BodyError(p, q)| <= at + k && (k > 0 ==> at + k == |BodyError(p, q)|)
    ensures BodyError(p, q)[..|BodyError(p, q)| - k] == Zeros(|BodyError(p, q)| - k)
    ensures FieldError(p, q)[16 - k..] == Zeros(k)
  {
    var e := BodyError(p, q);
    forall i | 0 <= i < |e| - k
      ensures !e[i]
    {
      BodyBit(p, q, i);
    }
    forall i | 16 - k <= i < 16
      ensures !FieldError(p, q)[i]
    {
      FieldBit(p, q, i);
    }
    ZerosSlice(e, 0, |e| - k);
    assert e[0..|e| - k] == e[..|e| - k];
    ZerosSlice(FieldError(p, q), 16 - k, 16);
  }

  /**
   * No burst of at most 8 bits anywhere, checksum included, goes unnoticed. NineBitsUnnoticed shows that 8 is
   * the best bound.
   */
  lemma ShortBurstDetected(p: bytes, q: bytes, at: nat)
    requires Sealed(p) && |q| == |p| && DifferOnlyIn(Stream(p), Stream(q), at, 8)
    ensures Sealed(q) <==> p == q
  {
    if Sealed(q) {
      if at + 8 <= 8 * (|p| - 2) {
        BurstBeforeField(p, q, at);
      } else {
        BurstAcrossField(p, q, at);
      }
      SameBlocks(p, q);
    }
  }

  // ----- nine bits

  /** Bits 0, 1 and 3 of a byte. */
  const ELEVEN: bits := [true, true, false, true] + Zeros(4)

  /** Bit 0 of a byte. */
  const LOWEST: bits := [true] + Zeros(7)

  /** The 9-bit burst: three bits of the last body byte and the lowest bit of the field's first byte. */
  predicate NineBitBurst(p: bytes, q: bytes) {
    && |p| == |q| >= 3
    && BodyError(p, q) == Zeros(8 * (|p| - 3)) + ELEVEN
    && FieldError(p, q) == Zeros(8) + LOWEST
  }

  lemma PatternBits()
    ensures Bits(0x0B, 8) == ELEVEN && Bits(0x0100, 16) == Zeros(8) + LOWEST
  {
    SpelledByte(0x0B, ELEVEN);
    StreamOfWord(0x0100);
    SmallBits();
  }

  lemma RegisterOfByte(b: byte, v: u16)
    requires Crc16([b]) == v
    ensures Serial(ZERO, Bits(b, 8)) == Bits(v, 16)
  {
    FeedIsSerial(ZERO, [b]);
    BitsOfValue(Feed(ZERO, [b]));
    OneByteStream(b);
  }

  /** It passes in every sealed block. */
  lemma NineBitsUnnoticed(p: bytes, q: bytes)
    requires Sealed(p) && NineBitBurst(p, q)
    ensures Sealed(q)
  {
    SealedAfterError(p, q);
    SerialConcat(ZERO, Zeros(8 * (|p| - 3)), ELEVEN);
    SerialZeros(8 * (|p| - 3));
    ChecksumOfEleven();
    RegisterOfByte(0x0B, 0x0100);
    PatternBits();
  }

  /** It leaves all bytes alone but one of the body and one of the field. */
  lemma NineBitsFront(p: bytes, q: bytes)
    requires NineBitBurst(p, q)
    ensures p[..|p| - 3] == q[..|q| - 3]
  {
    var n := |p| - 3;
    FrontStream(p);
    FrontStream(q);
    var s, t, b, c := Stream(p[..n]), Stream(q[..n]), Bits(p[n], 8), Bits(q[n], 8);
    XorConcat(s, b, t, c);
    SameHalves(Xor(s, t), Xor(b, c), Zeros(8 * n), ELEVEN);
    XorZeros(s, t);
    StreamInjective(p[..n], q[..n]);
  }

  lemma FrontStream(p: bytes)
    requires |p| >= 3
    ensures Stream(p[..|p| - 2]) == Stream(p[..|p| - 3]) + Bits(p[|p| - 3], 8)
  {
    var n := |p| - 3;
    assert p[..n + 1] == p[..n] + [p[n]];
    StreamConcat(p[..n], [p[n]]);
    OneByteStream(p[n]);
  }

  lemma NineBitsDiffer(p: bytes, q: bytes)
    requires NineBitBurst(p, q)
    ensures p != q
  {
    assert (Zeros(8) + LOWEST)[8] && !FieldError(p, p)[8];
  }

  lemma NineBitPattern(e: bits, f: bits, n: nat)
    requires e == Zeros(n) + ELEVEN && f == Zeros(8) + LOWEST
    ensures forall i :: 0 <= i < n ==> !e[i]
    ensures forall i :: 0 <= i < 16 && i != 8 ==> !f[i]
  {
  }

  lemma NineBitAt(p: bytes, q: bytes, i: nat)
    requires NineBitBurst(p, q) && i < 8 * |p| && !(8 * (|p| - 3) <= i < 8 * (|p| - 3) + 9)
    ensures Stream(p)[i] == Stream(q)[i]
  {
    var m, e, f := 8 * (|p| - 2), BodyError(p, q), FieldError(p, q);
    NineBitPattern(e, f, 8 * (|p| - 3));
    if i < m {
      BodyBit(p, q, i);
    } else {
      var j := if i < m + 8 then i - m + 8 else i - m - 8;
      FieldBit(p, q, j);
      assert FieldPlace(p, j) == i && !f[j];
    }
  }

  /** It is a burst of 9 bits. */
  lemma NineBitWindow(p: bytes, q: bytes)
    requires NineBitBurst(p, q)
    ensures DifferOnlyIn(Stream(p), Stream(q), 8 * (|p| - 3), 9)
  {
    forall i | 0 <= i < |Stream(p)| && !(8 * (|p| - 3) <= i < 8 * (|p| - 3) + 9)
      ensures Stream(p)[i] == Stream(q)[i]
    {
      NineBitAt(p, q, i);
    }
  }

  function FlippedByte(b: byte, pattern: bits): (c: byte)
    requires |pattern| == 8
    ensures Bits(c, 8) == Xor(Bits(b, 8), pattern)
  {
    var s := Xor(Bits(b, 8), pattern);
    ValueBound(s);
    assert Pow2(4) == 16 && Pow2(8) == 256;
    BitsOfValue(s);
    Value(s)
  }

  lemma XorTwice(s: bits, t: bits)
    requires |s| == |t|
    ensures Xor(s, Xor(s, t)) == t
  {
  }

  /** Every block with a body has it. */
  lemma NineBitPartner(p: bytes) returns (q: bytes)
    requires |p| >= 3
    ensures NineBitBurst(p, q)
  {
    var n := |p| - 2;
    q := p[..n - 1] + [FlippedByte(p[n - 1], ELEVEN), FlippedByte(p[n], LOWEST), p[n + 1]];
    assert q[..n - 1] == p[..n - 1];
    FrontStream(p);
    FrontStream(q);
    var s := Stream(p[..n - 1]);
    XorConcat(s, Bits(p[n - 1], 8), s, Bits(q[n - 1], 8));
    XorZeros(s, s);
    XorTwice(Bits(p[n - 1], 8), ELEVEN);
    FieldPartner(p[n], q[n], p[n + 1], At16(p, n), At16(q, n));
  }

  lemma FieldPartner(hi: byte, flipped: byte, lo: byte, v: u16, w: u16)
    requires Bits(flipped, 8) == Xor(Bits(hi, 8), LOWEST)
    requires v / 0x100 == hi && w / 0x100 == flipped && v % 0x100 == w % 0x100 == lo
    ensures Xor(Bits(v, 16), Bits(w, 16)) == Zeros(8) + LOWEST
  {
    StreamOfWord(v);
    StreamOfWord(w);
    var l, h, g := Bits(lo, 8), Bits(hi, 8), Bits(flipped, 8);
    XorConcat(l, h, l, g);
    XorZeros(l, l);
    XorTwice(h, LOWEST);
  }

  /** For instance here: with no data but one byte. */
  lemma NineBitExample()
    ensures Sealed([0, 0, 0]) && Sealed([0x0B, 0x01, 0x00])
    ensures DifferOnlyIn(Stream([0, 0, 0]), Stream([0x0B, 0x01, 0x00]), 0, 9)
  {
    ChecksumOfEleven();
    ChecksumOfZero();
    SealedThree(0, 0, 0);
    SealedThree(0x0B, 1, 0);
    ExampleWindow();
  }

  lemma ExampleWindow()
    ensures DifferOnlyIn(Stream([0, 0, 0]), Stream([0x0B, 0x01, 0x00]), 0, 9)
  {
    ThreeByteStream(0, 0, 0);
    ThreeByteStream(0x0B, 1, 0);
    SmallBits();
    var s, t := Zeros(8) + Zeros(8) + Zeros(8), Bits(0x0B, 8) + ([true] + Zeros(7)) + Zeros(8);
    assert forall i :: 9 <= i < 24 ==> !s[i] && !t[i];
  }

  lemma SealedThree(a: byte, b: byte, c: byte)
    ensures Sealed([a, b, c]) <==> Crc16([a]) == 0x100 * (b as nat) + c
  {
    var p := [a, b, c];
    assert p[..1] == [a];
  }

  lemma ThreeByteStream(a: byte, b: byte, c: byte)
    ensures Stream([a, b, c]) == Bits(a, 8) + Bits(b, 8) + Bits(c, 8)
  {
    StreamConcat([a, b], [c]);
    StreamConcat([a], [b]);
    OneByteStream(a);
    OneByteStream(b);
    OneByteStream(c);
    assert [a, b, c] == [a, b] + [c] && [a, b] == [a] + [b];
  }

  lemma OneByteStream(b: byte)
    ensures Stream([b]) == Bits(b, 8)
  {
    assert [b][1..] == [] && Bits(b, 8) + [] == Bits(b, 8);
  }

  lemma ChecksumOfZero()
    ensures Crc16([0]) == 0
  {
    FeedIsSerial(ZERO, [0]);
    OneByteStream(0);
    SmallBits();
    SerialZeros(8);
    PadValue([], 16);
    assert [] + Zeros(16) == ZERO;
  }

  lemma SmallBits()
    ensures Bits(0, 8) == Zeros(8)
    ensures Bits(1, 8) == [true] + Zeros(7)
  {
    ValueOfZeros(8);
    BitsOfValue(Zeros(8));
    ValueOfZeros(7);
    BitsOfValue([true] + Zeros(7));
    assert ([true] + Zeros(7))[1..] == Zeros(7);
  }

  lemma ValueOfZeros(k: nat)
    ensures Value(Zeros(k)) == 0
  {
    PadValue([], k);
    assert [] + Zeros(k) == Zeros(k);
  }
}
