/**
 * The CRC-16 of unix_domain/lib/ud_proto.cpp. A 16-bit register is modelled by its bits, least
 * significant first, so that a right shift drops bit 0 and the polynomial 0x8005 flips bits 0, 2 and 15.
 */
module Crc {
  import opened Bytes

  type register = c: bits | |c| == 16 witness Zeros(16)

  function Zeros(k: nat): (r: bits)
    ensures |r| == k
    ensures forall i :: 0 <= i < k ==> !r[i]
  {
    if k == 0 then [] else [false] + Zeros(k - 1)
  }

  lemma {:induction false} PadValue(s: bits, k: nat)
    ensures Value(s + Zeros(k)) == Value(s)
  {
    if s != [] {
      assert (s + Zeros(k))[1..] == s[1..] + Zeros(k);
      PadValue(s[1..], k);
    } else if k > 0 {
      assert s + Zeros(k) == Zeros(k) && Zeros(k)[1..] == [] + Zeros(k - 1);
      PadValue(s, k - 1);
    } else {
      assert s + Zeros(k) == s;
    }
  }

  function Xor(a: bits, b: bits): (r: bits)
    requires |a| == |b|
    ensures |r| == |a|
    ensures forall i :: 0 <= i < |a| ==> r[i] == (a[i] != b[i])
  {
    seq(|a|, i requires 0 <= i < |a| => a[i] != b[i])
  }

  lemma XorConcat(a: bits, b: bits, c: bits, d: bits)
    requires |a| == |c| && |b| == |d|
    ensures Xor(a + b, c + d) == Xor(a, c) + Xor(b, d)
  {
  }

  lemma XorZeros(a: bits, b: bits)
    requires |a| == |b|
    ensures Xor(a, b) == Zeros(|a|) <==> a == b
  {
    var x, z := Xor(a, b), Zeros(|a|);
    if x == z {
      assert forall i :: 0 <= i < |a| ==> x[i] == (a[i] != b[i]) && !z[i];
    }
  }

  const ZERO: register := Zeros(16)

  /** 0x8005: bits 0, 2 and 15. */
  const POLY: register := [true, false, true] + Zeros(12) + [true]

  /** One iteration of the inner loop: shift right, then XOR the polynomial if a one fell out. */
  function Shift(c: register): register {
    var t := c[1..] + [false];
    if c[0] then Xor(t, POLY) else t
  }

  function ShiftN(c: register, k: nat): register
    decreases k
  {
    if k == 0 then c else ShiftN(Shift(c), k - 1)
  }

  lemma {:induction false} ShiftNSum(c: register, j: nat, k: nat)
    ensures ShiftN(c, j + k) == ShiftN(ShiftN(c, j), k)
    decreases j
  {
    if j > 0 {
      ShiftNSum(Shift(c), j - 1, k);
    }
  }

  /** A byte widened to 16 bits. */
  function Widen(b: byte): register {
    Bits(b, 8) + Zeros(8)
  }

  function Step(c: register, b: byte): register {
    ShiftN(Xor(c, Widen(b)), 8)
  }

  /** The register after feeding d into register c. */
  function Feed(c: register, d: bytes): register
    decreases |d|
  {
    if d == [] then c else Feed(Step(c, d[0]), d[1..])
  }

  lemma RegisterFits(c: register)
    ensures Value(c) < 0x1_0000
  {
    ValueBound(c);
    assert Pow2(4) == 16 && Pow2(8) == 256 && Pow2(12) == 4096;
  }

  function Crc16(d: bytes): u16 {
    RegisterFits(Feed(ZERO, d));
    Value(Feed(ZERO, d))
  }

  /** The inner loop: one byte into the register. */
  method FeedByte(start: register, b: byte) returns (c: register)
    ensures c == Step(start, b)
  {
    c := Xor(start, Widen(b));
    for i := 0 to 8
      invariant ShiftN(c, 8 - i) == Step(start, b)
    {
      var shifted := c[1..] + [false];
      c := if c[0] then Xor(shifted, POLY) else shifted;
    }
  }

  /** The outer loop. */
  method ComputeCrc16(data: bytes) returns (crc: u16)
    ensures crc == Crc16(data)
  {
    var c := ZERO;
    for n := 0 to |data|
      invariant Feed(c, data[n..]) == Feed(ZERO, data)
    {
      c := FeedByte(c, data[n]);
    }
    RegisterFits(c);
    crc := Value(c);
  }

  // ----- the register as a bit-serial shift register

  function SerialStep(c: register, b: bool): register {
    Shift(Xor(c, [b] + Zeros(15)))
  }

  /** The reference definition: message bits enter one at a time at bit 0, before each shift. */
  function Serial(c: register, s: bits): register
    decreases |s|
  {
    if s == [] then c else Serial(SerialStep(c, s[0]), s[1..])
  }

  /** The bits of a byte string in transmission order of the CRC: byte by byte, low bit first. */
  function Stream(d: bytes): (s: bits)
    ensures |s| == 8 * |d|
  {
    if d == [] then [] else Bits(d[0], 8) + Stream(d[1..])
  }

  lemma ShiftLinear(a: register, b: register)
    ensures Shift(Xor(a, b)) == Xor(Shift(a), Shift(b))
  {
  }

  lemma ShiftInjective(a: register, b: register)
    requires Shift(a) == Shift(b)
    ensures a == b
  {
    assert Shift(a)[15] == a[0] && Shift(b)[15] == b[0];
    forall i | 1 <= i < 16
      ensures a[i] == b[i]
    {
      assert Shift(a)[i - 1] == (a[i] != (a[0] && POLY[i - 1]));
      assert Shift(b)[i - 1] == (b[i] != (b[0] && POLY[i - 1]));
    }
  }

  lemma {:induction false} ShiftNInjective(a: register, b: register, k: nat)
    requires ShiftN(a, k) == ShiftN(b, k)
    ensures a == b
    decreases k
  {
    if k > 0 {
      ShiftNInjective(Shift(a), Shift(b), k - 1);
      ShiftInjective(a, b);
    }
  }

  lemma XorAssoc(a: bits, b: bits, c: bits)
    requires |a| == |b| == |c|
    ensures Xor(Xor(a, b), c) == Xor(a, Xor(b, c))
  {
  }

  lemma ShiftOfSum(c: register, first: register, later: register)
    ensures Shift(Xor(c, Xor(first, later))) == Xor(Shift(Xor(c, first)), Shift(later))
  {
    XorAssoc(c, first, later);
    ShiftLinear(Xor(c, first), later);
  }

  /** A block of at most 16 bits as a register. */
  function Padded(s: bits): (c: register)
    requires |s| <= 16
    ensures forall i :: 0 <= i < 16 ==> c[i] == (i < |s| && s[i])
  {
    s + Zeros(16 - |s|)
  }

  /** A block is its first bit and the rest, and shifting moves the rest down. */
  lemma BlockParts(s: bits, rest: register, later: register)
    requires 0 < |s| <= 16 && rest == Padded(s[1..]) && later == [false] + rest[..15]
    ensures Padded(s) == Xor([s[0]] + Zeros(15), later) && Shift(later) == rest
  {
    var x := Xor([s[0]] + Zeros(15), later);
    assert forall i :: 1 <= i < 16 ==> x[i] == later[i] == rest[i - 1];
    assert Shift(later) == rest[..15] + [false];
  }

  /** One shift of a register into which a block has been XORed leaves the rest of the block XORed in. */
  lemma ShiftedBlock(c: register, s: bits, rest: register, later: register)
    requires 0 < |s| <= 16 && rest == Padded(s[1..]) && later == [false] + rest[..15]
    ensures Shift(Xor(c, Padded(s))) == Xor(SerialStep(c, s[0]), rest)
  {
    BlockParts(s, rest, later);
    ShiftOfSum(c, [s[0]] + Zeros(15), later);
  }

  /** Up to 16 message bits may be XORed into the register at once and shifted afterwards. */
  lemma {:induction false} SerialBlock(c: register, s: bits)
    requires |s| <= 16
    ensures Serial(c, s) == ShiftN(Xor(c, Padded(s)), |s|)
    decreases |s|
  {
    if s == [] {
      assert Xor(c, Padded(s)) == c;
    } else {
      var rest := Padded(s[1..]);
      SerialBlock(SerialStep(c, s[0]), s[1..]);
      ShiftedBlock(c, s, rest, [false] + rest[..15]);
      assert Serial(c, s) == Serial(SerialStep(c, s[0]), s[1..]);
    }
  }

  lemma {:induction false} SerialConcat(c: register, s: bits, t: bits)
    ensures Serial(c, s + t) == Serial(Serial(c, s), t)
    decreases |s|
  {
    if s == [] {
      assert s + t == t;
    } else {
      assert (s + t)[1..] == s[1..] + t;
      SerialConcat(SerialStep(c, s[0]), s[1..], t);
    }
  }

  /** The byte-wise loop computes the bit-serial register. */
  lemma {:induction false} FeedIsSerial(c: register, d: bytes)
    ensures Feed(c, d) == Serial(c, Stream(d))
    decreases |d|
  {
    if d != [] {
      SerialBlock(c, Bits(d[0], 8));
      FeedIsSerial(Step(c, d[0]), d[1..]);
      SerialConcat(c, Bits(d[0], 8), Stream(d[1..]));
    }
  }

  /** Different registers never merge, whatever follows. */
  lemma {:induction false} SerialInjective(a: register, b: register, s: bits)
    ensures Serial(a, s) == Serial(b, s) <==> a == b
    decreases |s|
  {
    if s != [] {
      SerialInjective(SerialStep(a, s[0]), SerialStep(b, s[0]), s[1..]);
      var bit := [s[0]] + Zeros(15);
      if SerialStep(a, s[0]) == SerialStep(b, s[0]) {
        ShiftInjective(Xor(a, bit), Xor(b, bit));
        XorCancel(a, b, bit);
      }
    }
  }

  lemma XorCancel(a: bits, b: bits, k: bits)
    requires |a| == |b| == |k|
    ensures Xor(a, k) == Xor(b, k) <==> a == b
  {
    forall i | 0 <= i < |a| && Xor(a, k) == Xor(b, k)
      ensures a[i] == b[i]
    {
      assert Xor(a, k)[i] == Xor(b, k)[i];
    }
  }

  /** The register is linear in its start value and the message together. */
  lemma {:induction false} SerialLinear(a: register, b: register, s: bits, t: bits)
    requires |s| == |t|
    ensures Serial(Xor(a, b), Xor(s, t)) == Xor(Serial(a, s), Serial(b, t))
    decreases |s|
  {
    if s != [] {
      var p, q: register := [s[0]] + Zeros(15), [t[0]] + Zeros(15);
      ShiftLinear(Xor(a, p), Xor(b, q));
      assert Xor(Xor(a, b), [Xor(s, t)[0]] + Zeros(15)) == Xor(Xor(a, p), Xor(b, q));
      SerialLinear(SerialStep(a, s[0]), SerialStep(b, t[0]), s[1..], t[1..]);
      assert Xor(s, t)[1..] == Xor(s[1..], t[1..]);
    }
  }

  // ----- error detection

  lemma {:induction false} StreamConcat(d: bytes, e: bytes)
    ensures Stream(d + e) == Stream(d) + Stream(e)
  {
    if d == [] {
      assert d + e == e;
    } else {
      assert (d + e)[1..] == d[1..] + e;
      StreamConcat(d[1..], e);
    }
  }

  lemma {:induction false} StreamInjective(d: bytes, e: bytes)
    requires Stream(d) == Stream(e)
    ensures d == e
  {
    if d != [] {
      assert |e| == |d|;
      SameHalves(Bits(d[0], 8), Stream(d[1..]), Bits(e[0], 8), Stream(e[1..]));
      assert Pow2(4) == 16 && Pow2(8) == 256;
      ValueOfBits(d[0], 8);
      ValueOfBits(e[0], 8);
      StreamInjective(d[1..], e[1..]);
      assert d == [d[0]] + d[1..] && e == [e[0]] + e[1..];
    }
  }

  lemma Crc16Equal(d: bytes, e: bytes)
    ensures Crc16(d) == Crc16(e) <==> Serial(ZERO, Stream(d)) == Serial(ZERO, Stream(e))
  {
    FeedIsSerial(ZERO, d);
    FeedIsSerial(ZERO, e);
    BitsOfValue(Feed(ZERO, d));
    BitsOfValue(Feed(ZERO, e));
  }

  /** Whether a corruption is caught depends on the flipped bits alone, not on the message. */
  lemma DetectionDependsOnErrorOnly(d: bytes, e: bytes)
    requires |d| == |e|
    ensures Crc16(d) == Crc16(e) <==> Serial(ZERO, Xor(Stream(d), Stream(e))) == ZERO
  {
    var s, t := Stream(d), Stream(e);
    Crc16Equal(d, e);
    SerialLinear(ZERO, ZERO, s, t);
    assert Xor(ZERO, ZERO) == ZERO;
    var x, y := Serial(ZERO, s), Serial(ZERO, t);
    XorCancel(x, y, y);
    assert Xor(y, y) == ZERO;
  }

  /** The two streams agree outside the w bits that start at bit `at`. */
  ghost predicate DifferOnlyIn(s: bits, t: bits, at: nat, w: nat) {
    |s| == |t| && forall i :: 0 <= i < |s| && !(at <= i < at + w) ==> s[i] == t[i]
  }

  /** From one register, two blocks of at most 16 bits lead to the same register only if they are equal. */
  lemma BlockDetected(c: register, u: bits, v: bits)
    requires |u| == |v| <= 16
    ensures Serial(c, u) == Serial(c, v) <==> u == v
  {
    SerialBlock(c, u);
    SerialBlock(c, v);
    if Serial(c, u) == Serial(c, v) {
      ShiftNInjective(Xor(c, Padded(u)), Xor(c, Padded(v)), |u|);
      assert Xor(Padded(u), c) == Xor(c, Padded(u)) && Xor(Padded(v), c) == Xor(c, Padded(v));
      XorCancel(Padded(u), Padded(v), c);
      assert u == Padded(u)[..|u|] && v == Padded(v)[..|v|];
    }
  }

  lemma SerialConcat3(c: register, s: bits, t: bits, u: bits)
    ensures Serial(c, s + t + u) == Serial(Serial(Serial(c, s), t), u)
  {
    SerialConcat(c, s + t, u);
    SerialConcat(c, s, t);
  }

  /** No burst of at most 16 bits goes unnoticed by the register. */
  lemma WindowDetected(c: register, s: bits, t: bits, at: nat)
    requires DifferOnlyIn(s, t, at, 16)
    ensures Serial(c, s) == Serial(c, t) <==> s == t
  {
    var lo := if at <= |s| then at else |s|;
    var hi := if at + 16 <= |s| then at + 16 else |s|;
    var u, v := s[lo..hi], t[lo..hi];
    assert s == s[..lo] + u + s[hi..];
    assert t == s[..lo] + v + s[hi..];
    SerialConcat3(c, s[..lo], u, s[hi..]);
    SerialConcat3(c, s[..lo], v, s[hi..]);
    var mid := Serial(c, s[..lo]);
    SerialInjective(Serial(mid, u), Serial(mid, v), s[hi..]);
    BlockDetected(mid, u, v);
  }

  /** Byte strings that differ only inside one 16-bit window have equal checksums only if they are equal. */
  lemma BurstDetected(d: bytes, e: bytes, at: nat)
    requires DifferOnlyIn(Stream(d), Stream(e), at, 16)
    ensures Crc16(d) == Crc16(e) <==> d == e
  {
    Crc16Equal(d, e);
    WindowDetected(ZERO, Stream(d), Stream(e), at);
    if Stream(d) == Stream(e) {
      StreamInjective(d, e);
    }
  }

  // ----- parity

  function Parity(s: bits): bool {
    s != [] && s[0] != Parity(s[1..])
  }

  /** The number of positions at which two equally long bit strings differ. */
  function Distance(s: bits, t: bits): nat
    requires |s| == |t|
  {
    if s == [] then 0 else (if s[0] != t[0] then 1 else 0) + Distance(s[1..], t[1..])
  }

  lemma {:induction false} ParityConcat(s: bits, t: bits)
    ensures Parity(s + t) == (Parity(s) != Parity(t))
  {
    if s == [] {
      assert s + t == t;
    } else {
      assert (s + t)[1..] == s[1..] + t;
      ParityConcat(s[1..], t);
    }
  }

  lemma {:induction false} ParityXor(s: bits, t: bits)
    requires |s| == |t|
    ensures Parity(Xor(s, t)) == (Parity(s) != Parity(t))
  {
    if s != [] {
      assert Xor(s, t)[1..] == Xor(s[1..], t[1..]);
      ParityXor(s[1..], t[1..]);
    }
  }

  lemma {:induction false} ParityOfDistance(s: bits, t: bits)
    requires |s| == |t|
    ensures (Parity(s) != Parity(t)) == (Distance(s, t) % 2 == 1)
  {
    if s != [] {
      ParityOfDistance(s[1..], t[1..]);
    }
  }

  lemma {:induction false} ParityZeros(k: nat)
    ensures !Parity(Zeros(k))
  {
    if k > 0 {
      ParityZeros(k - 1);
      assert Zeros(k)[1..] == Zeros(k - 1);
    }
  }

  lemma ParityPoly()
    ensures Parity(POLY)
  {
    ParityZeros(12);
    ParityConcat([true, false, true], Zeros(12));
    ParityConcat([true, false, true] + Zeros(12), [true]);
    assert Parity([true]) && !Parity([true, false, true]) by {
      assert [true, false, true][1..] == [false, true] && [false, true][1..] == [true];
    }
  }

  /** 0x8005 has three bits and one bit is shifted out, so a shift keeps the parity. */
  lemma ShiftKeepsParity(c: register)
    ensures Parity(Shift(c)) == Parity(c)
  {
    var t := c[1..] + [false];
    ParityConcat(c[1..], [false]);
    ParityPoly();
    ParityXor(t, POLY);
  }

  lemma {:induction false} SerialParity(c: register, s: bits)
    ensures Parity(Serial(c, s)) == (Parity(c) != Parity(s))
    decreases |s|
  {
    if s != [] {
      var bit := [s[0]] + Zeros(15);
      ParityZeros(15);
      assert bit[1..] == Zeros(15);
      ParityXor(c, bit);
      ShiftKeepsParity(Xor(c, bit));
      SerialParity(SerialStep(c, s[0]), s[1..]);
    }
  }

  lemma HalfOfSum(lo: nat, x: nat)
    ensures (lo + 2 * x) / 2 == lo / 2 + x && (lo + 2 * x) % 2 == lo % 2
  {
  }

  lemma {:induction false} BitsJoin(lo: nat, hi: nat, j: nat, k: nat)
    requires lo < Pow2(j)
    ensures Bits(lo + Pow2(j) * hi, j + k) == Bits(lo, j) + Bits(hi, k)
  {
    if j > 0 {
      var x := Pow2(j - 1) * hi;
      assert Pow2(j) * hi == 2 * x;
      BitsJoin(lo / 2, hi, j - 1, k);
      HalfOfSum(lo, x);
    } else {
      assert Bits(lo, 0) + Bits(hi, k) == Bits(hi, k);
    }
  }

  lemma StreamOfWord(v: u16)
    ensures Stream(Be16(v)) == Bits(v / 0x100, 8) + Bits(v % 0x100, 8)
    ensures Bits(v, 16) == Bits(v % 0x100, 8) + Bits(v / 0x100, 8)
  {
    assert Pow2(4) == 16 && Pow2(8) == 256;
    BitsJoin(v % 0x100, v / 0x100, 8, 8);
    var w := Be16(v);
    assert w[1..] == [v % 0x100] && [v % 0x100][1..] == [];
    assert Stream([v % 0x100]) == Bits(v % 0x100, 8) + Stream([]);
  }

  /** The checksum has the bit parity of everything it covers. */
  lemma ChecksumParity(d: bytes)
    ensures Parity(Stream(Be16(Crc16(d)))) == Parity(Stream(d))
  {
    var v := Crc16(d);
    StreamOfWord(v);
    ParityConcat(Bits(v % 0x100, 8), Bits(v / 0x100, 8));
    ParityConcat(Bits(v / 0x100, 8), Bits(v % 0x100, 8));
    RegisterParity(d);
  }

  lemma RegisterParity(d: bytes)
    ensures Parity(Bits(Crc16(d), 16)) == Parity(Stream(d))
  {
    FeedIsSerial(ZERO, d);
    SerialParity(ZERO, Stream(d));
    ParityZeros(16);
    BitsOfValue(Feed(ZERO, d));
  }

  /** A block whose last two bytes are the checksum, high byte first, of what precedes them. */
  predicate Sealed(p: bytes) {
    |p| >= 2 && At16(p, |p| - 2) == Crc16(p[..|p| - 2])
  }

  /** Appending the checksum of a body is the only way to seal it. */
  lemma SealedSplit(raw: bytes, body: bytes)
    requires |raw| == |body| + 2
    ensures raw == body + Be16(Crc16(body)) <==> raw[..|body|] == body && Sealed(raw)
  {
    var n := |body|;
    Be16RoundTrip(raw, n, Crc16(body));
    assert raw[n..n + 2] == raw[n..];
    SplitAt(raw, n);
    SameHalves(raw[..n], raw[n..], body, Be16(Crc16(body)));
  }

  lemma SealedParity(p: bytes)
    requires Sealed(p)
    ensures !Parity(Stream(p))
  {
    var body := p[..|p| - 2];
    Be16RoundTrip(p, |p| - 2, Crc16(body));
    assert p == body + Be16(Crc16(body));
    StreamConcat(body, Be16(Crc16(body)));
    ParityConcat(Stream(body), Stream(Be16(Crc16(body))));
    ChecksumParity(body);
  }

  /** Flipping an odd number of bits anywhere, checksum included, breaks the seal. */
  lemma OddErrorsDetected(p: bytes, q: bytes)
    requires Sealed(p) && |q| == |p|
    requires Distance(Stream(p), Stream(q)) % 2 == 1
    ensures !Sealed(q)
  {
    ParityOfDistance(Stream(p), Stream(q));
    SealedParity(p);
    if Sealed(q) {
      SealedParity(q);
    }
  }

  /** A burst of at most 16 bits inside the covered bytes breaks the seal. */
  lemma SealedBurstDetected(p: bytes, q: bytes, at: nat)
    requires Sealed(p) && |q| == |p| && q[|p| - 2..] == p[|p| - 2..]
    requires DifferOnlyIn(Stream(p[..|p| - 2]), Stream(q[..|p| - 2]), at, 16)
    ensures Sealed(q) <==> p == q
  {
    var n := |p| - 2;
    assert q[n..][0] == q[n] && q[n..][1] == q[n + 1] && p[n..][0] == p[n] && p[n..][1] == p[n + 1];
    BurstDetected(p[..n], q[..n], at);
    SplitAt(p, n);
    SplitAt(q, n);
  }
}
