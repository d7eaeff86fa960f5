/**
 * The CRC-16 of unix_domain/lib/ud_proto.cpp on 16-bit machine words, with the polynomial as a parameter. It
 * refines the register of Crc and settles what the checksum is on given inputs.
 */
module CrcMachine {
  import opened Bytes
  import opened Crc

  const UNREFLECTED: bv16 := 0x8005
  const REFLECTED: bv16 := 0xA001

  function ShiftWord(poly: bv16, c: bv16): bv16 {
    if c & 1 == 1 then (c >> 1) ^ poly else c >> 1
  }

  function FourShifts(poly: bv16, c: bv16): bv16 {
    ShiftWord(poly, ShiftWord(poly, ShiftWord(poly, ShiftWord(poly, c))))
  }

  function StepWord(poly: bv16, c: bv16, b: bv8): bv16 {
    FourShifts(poly, FourShifts(poly, c ^ (b as bv16)))
  }

  function FeedWord(poly: bv16, c: bv16, m: seq<bv8>): bv16
    decreases |m|
  {
    if m == [] then c else FeedWord(poly, StepWord(poly, c, m[0]), m[1..])
  }

  /** A register and a machine word with the same bits. */
  predicate SameWord(c: register, w: bv16) {
    && c[0] == (w & 0x1 != 0) && c[1] == (w & 0x2 != 0) && c[2] == (w & 0x4 != 0) && c[3] == (w & 0x8 != 0)
    && c[4] == (w & 0x10 != 0) && c[5] == (w & 0x20 != 0) && c[6] == (w & 0x40 != 0) && c[7] == (w & 0x80 != 0)
    && c[8] == (w & 0x100 != 0) && c[9] == (w & 0x200 != 0) && c[10] == (w & 0x400 != 0) && c[11] == (w & 0x800 != 0)
    && c[12] == (w & 0x1000 != 0) && c[13] == (w & 0x2000 != 0)
    && c[14] == (w & 0x4000 != 0) && c[15] == (w & 0x8000 != 0)
  }

  predicate SameByte(b: byte, w: bv8) {
    var s := Bits(b, 8);
    && s[0] == (w & 0x1 != 0) && s[1] == (w & 0x2 != 0) && s[2] == (w & 0x4 != 0) && s[3] == (w & 0x8 != 0)
    && s[4] == (w & 0x10 != 0) && s[5] == (w & 0x20 != 0) && s[6] == (w & 0x40 != 0) && s[7] == (w & 0x80 != 0)
  }

  predicate SameBytes(d: bytes, m: seq<bv8>) {
    |d| == |m| && forall i :: 0 <= i < |d| ==> SameByte(d[i], m[i])
  }

  lemma SameShift(c: register, w: bv16)
    requires SameWord(c, w)
    ensures SameWord(Shift(c), ShiftWord(UNREFLECTED, w))
  {
  }

  lemma SameFourShifts(c: register, w: bv16)
    requires SameWord(c, w)
    ensures SameWord(ShiftN(c, 4), FourShifts(UNREFLECTED, w))
  {
    SameShift(c, w);
    SameShift(Shift(c), ShiftWord(UNREFLECTED, w));
    var c2, w2 := Shift(Shift(c)), ShiftWord(UNREFLECTED, ShiftWord(UNREFLECTED, w));
    SameShift(c2, w2);
    SameShift(Shift(c2), ShiftWord(UNREFLECTED, w2));
    assert ShiftN(c, 4) == ShiftN(c2, 2) == Shift(Shift(c2));
  }

  lemma SameMix(c: register, w: bv16, b: byte, v: bv8)
    requires SameWord(c, w) && SameByte(b, v)
    ensures SameWord(Xor(c, Widen(b)), w ^ (v as bv16))
  {
    var x := Widen(b);
    assert forall i :: 0 <= i < 8 ==> x[i] == Bits(b, 8)[i];
    assert forall i :: 8 <= i < 16 ==> !x[i];
  }

  lemma SameStep(c: register, w: bv16, b: byte, v: bv8)
    requires SameWord(c, w) && SameByte(b, v)
    ensures SameWord(Step(c, b), StepWord(UNREFLECTED, w, v))
  {
    SameMix(c, w, b, v);
    var c1, w1 := Xor(c, Widen(b)), w ^ (v as bv16);
    SameFourShifts(c1, w1);
    SameFourShifts(ShiftN(c1, 4), FourShifts(UNREFLECTED, w1));
    ShiftNSum(c1, 4, 4);
  }

  /** The machine words and the register model agree on every input. */
  lemma {:induction false} SameFeed(c: register, w: bv16, d: bytes, m: seq<bv8>)
    requires SameWord(c, w) && SameBytes(d, m)
    ensures SameWord(Feed(c, d), FeedWord(UNREFLECTED, w, m))
    decreases |d|
  {
    if d != [] {
      SameStep(c, w, d[0], m[0]);
      SameFeed(Step(c, d[0]), StepWord(UNREFLECTED, w, m[0]), d[1..], m[1..]);
    }
  }

  lemma SameWordUnique(c: register, d: register, w: bv16)
    requires SameWord(c, w) && SameWord(d, w)
    ensures c == d
  {
  }

  function Four(a: bool, b: bool, c: bool, d: bool): nat {
    One(a) + 2 * One(b) + 4 * One(c) + 8 * One(d)
  }

  function WordBits(w: bv16): register {
    [ w & 0x1 != 0, w & 0x2 != 0, w & 0x4 != 0, w & 0x8 != 0,
      w & 0x10 != 0, w & 0x20 != 0, w & 0x40 != 0, w & 0x80 != 0,
      w & 0x100 != 0, w & 0x200 != 0, w & 0x400 != 0, w & 0x800 != 0,
      w & 0x1000 != 0, w & 0x2000 != 0, w & 0x4000 != 0, w & 0x8000 != 0 ]
  }

  /** The number a machine word stands for. */
  function WordValue(w: bv16): nat {
    Value(WordBits(w))
  }

  function One(b: bool): nat {
    if b then 1 else 0
  }

  lemma FourBits(s: bits)
    requires |s| >= 4
    ensures Value(s) == Four(s[0], s[1], s[2], s[3]) + 16 * Value(s[4..])
  {
    var a, b, c := s[1..], s[2..], s[3..];
    assert a[1..] == b && b[1..] == c && c[1..] == s[4..];
  }

  /** The bits of a byte, from its two hexadecimal digits. */
  lemma SpelledByte(n: byte, s: bits)
    requires |s| == 8 && n == Four(s[0], s[1], s[2], s[3]) + 0x10 * Four(s[4], s[5], s[6], s[7])
    ensures Bits(n, 8) == s
  {
    FourBits(s);
    FourBits(s[4..]);
    assert s[4..][4..] == [];
    BitsOfValue(s);
  }

  function ByteBits(w: bv8): bits {
    [ w & 0x1 != 0, w & 0x2 != 0, w & 0x4 != 0, w & 0x8 != 0,
      w & 0x10 != 0, w & 0x20 != 0, w & 0x40 != 0, w & 0x80 != 0 ]
  }

  /** The byte a machine byte stands for. */
  function WordByte(w: bv8): (b: byte)
    ensures SameByte(b, w)
  {
    var s := ByteBits(w);
    ValueBound(s);
    assert Pow2(4) == 16 && Pow2(8) == 256;
    BitsOfValue(s);
    SameFromBits(Value(s), w);
    Value(s)
  }

  lemma SameFromBits(b: byte, w: bv8)
    requires Bits(b, 8) == ByteBits(w)
    ensures SameByte(b, w)
  {
  }

  lemma WordByteDigits(w: bv8)
    ensures WordByte(w) == Four(w & 0x1 != 0, w & 0x2 != 0, w & 0x4 != 0, w & 0x8 != 0)
      + 0x10 * Four(w & 0x10 != 0, w & 0x20 != 0, w & 0x40 != 0, w & 0x80 != 0)
  {
    var s := ByteBits(w);
    FourBits(s);
    FourBits(s[4..]);
    assert s[4..][4..] == [];
  }

  lemma RegisterBits(c: register)
    ensures Value(c) == Four(c[0], c[1], c[2], c[3]) + 0x10 * Four(c[4], c[5], c[6], c[7])
      + 0x100 * Four(c[8], c[9], c[10], c[11]) + 0x1000 * Four(c[12], c[13], c[14], c[15])
  {
    var s, t, u := c[4..], c[8..], c[12..];
    FourBits(c);
    FourBits(s);
    FourBits(t);
    FourBits(u);
    assert s[4..] == t && t[4..] == u && u[4..] == [];
  }

  lemma SameBits(c: register, w: bv16)
    requires SameWord(c, w)
    ensures c == WordBits(w)
  {
    Spelled(c);
  }

  lemma Spelled(c: register)
    ensures c == [c[0], c[1], c[2], c[3], c[4], c[5], c[6], c[7],
                  c[8], c[9], c[10], c[11], c[12], c[13], c[14], c[15]]
  {
  }

  /** The checksum computed on machine words is the checksum of the model, for all inputs. */
  lemma MachineRefines(d: bytes, m: seq<bv8>)
    requires SameBytes(d, m)
    ensures Crc16(d) == WordValue(FeedWord(UNREFLECTED, 0, m))
  {
    SameFeed(ZERO, 0, d, m);
    SameBits(Feed(ZERO, d), FeedWord(UNREFLECTED, 0, m));
  }

  lemma OneByteChecksum(b: byte, v: bv8)
    requires SameByte(b, v)
    ensures Crc16([b]) == WordValue(StepWord(UNREFLECTED, 0, v))
  {
    assert [v][1..] == [];
    MachineRefines([b], [v]);
  }

  lemma WordRuns()
    ensures StepWord(UNREFLECTED, 0, 0x01) == 0x9705 && StepWord(REFLECTED, 0, 0x01) == 0xC0C1
    ensures StepWord(UNREFLECTED, 0, 0x0B) == 0x0100
  {
  }

  lemma ValueOf9705()
    ensures WordValue(0x9705) == 0x9705
  {
    RegisterBits(WordBits(0x9705));
  }

  lemma ValueOf0100()
    ensures WordValue(0x0100) == 0x0100
  {
    RegisterBits(WordBits(0x0100));
  }

  /** The catalogued checksum, with the polynomial reflected, is a different function. */
  lemma NotTheCatalogueValue()
    ensures Crc16([0x01]) == 0x9705 && FeedWord(REFLECTED, 0, [0x01]) == 0xC0C1
  {
    var m: seq<bv8> := [0x01];
    assert m[1..] == [];
    WordRuns();
    OneByteChecksum(0x01, 0x01);
    ValueOf9705();
  }

  lemma ChecksumOfEleven()
    ensures Crc16([0x0B]) == 0x0100
  {
    WordRuns();
    OneByteChecksum(0x0B, 0x0B);
    ValueOf0100();
  }
}
