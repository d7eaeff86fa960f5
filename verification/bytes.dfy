/** Bytes, fixed-width words and the big-endian helpers shared by every protocol layer. */
module Bytes {

  type byte = n: nat | n < 0x100
  type u16 = n: nat | n < 0x1_0000
  type u32 = n: nat | n < 0x1_0000_0000
  type bytes = seq<byte>
  type bits = seq<bool>

  /** An IPv4 address, in network byte order. */
  type Ipv4 = a: bytes | |a| == 4 witness [0, 0, 0, 0]

  function ZeroBytes(k: nat): (r: bytes)
    ensures |r| == k
  {
    if k == 0 then [] else [0] + ZeroBytes(k - 1)
  }

  /** The value-or-error result of the source's encoders and decoders. */
  datatype Result<+T, +E> = Ok(value: T) | Err(error: E)

  datatype Option<+T> = None | Some(value: T)

  /** Unsigned casts: the value is reduced modulo the width. */
  function ToU8(n: nat): byte { n % 0x100 }

  function ToU16(n: nat): u16 { n % 0x1_0000 }

  function ToU32(n: nat): u32 { n % 0x1_0000_0000 }

  /** A cast to 16 bits is exact precisely when the value fits. */
  lemma ToU16Exact(n: nat)
    ensures ToU16(n) == n <==> n < 0x1_0000
  {
  }

  function Be16(v: u16): (r: bytes)
    ensures |r| == 2
  {
    [v / 0x100, v % 0x100]
  }

  function Be32(v: u32): (r: bytes)
    ensures |r| == 4
  {
    Be16(v / 0x1_0000) + Be16(v % 0x1_0000)
  }

  function At16(s: bytes, i: nat): u16
    requires i + 2 <= |s|
  {
    (s[i] as nat) * 0x100 + s[i + 1]
  }

  function At32(s: bytes, i: nat): u32
    requires i + 4 <= |s|
  {
    (At16(s, i) as nat) * 0x1_0000 + At16(s, i + 2)
  }

  /** The same number spelled with its four bytes, highest first. */
  lemma Be32Bytes(v: u32)
    ensures Be32(v) == [v / 0x100_0000, v / 0x1_0000 % 0x100, v / 0x100 % 0x100, v % 0x100]
  {
    var low, high := v % 0x1_0000, v / 0x1_0000;
    assert Be32(v) == [high / 0x100, high % 0x100, low / 0x100, low % 0x100];
    var k := 0x100 * high + low / 0x100;
    assert v == 0x100 * k + low % 0x100;
    assert v / 0x100 == k && v % 0x100 == low % 0x100;
    assert k % 0x100 == low / 0x100;
    assert v / 0x100_0000 == high / 0x100;
  }

  /** The bytes of a length cut down to 16 bits. */
  lemma Be16Cast(n: nat)
    ensures Be16(ToU16(n)) == [n / 0x100 % 0x100, n % 0x100]
  {
    var q, l := n / 0x1_0000, n % 0x1_0000;
    assert n == 0x100 * (0x100 * q + l / 0x100) + l % 0x100;
    assert n / 0x100 == 0x100 * q + l / 0x100;
  }

  /** A 16-bit field reads as v exactly when its two bytes are the encoding of v. */
  lemma Be16RoundTrip(s: bytes, i: nat, v: u16)
    requires i + 2 <= |s|
    ensures s[i..i + 2] == Be16(v) <==> At16(s, i) == v
  {
    assert s[i..i + 2] == [s[i], s[i + 1]];
    assert Be16(v) == [s[i], s[i + 1]] <==> Be16(v)[0] == s[i] && Be16(v)[1] == s[i + 1];
  }

  /** A 32-bit field reads as v exactly when its four bytes are the encoding of v. */
  lemma Be32RoundTrip(s: bytes, i: nat, v: u32)
    requires i + 4 <= |s|
    ensures s[i..i + 4] == Be32(v) <==> At32(s, i) == v
  {
    Be16RoundTrip(s, i, v / 0x1_0000);
    Be16RoundTrip(s, i + 2, v % 0x1_0000);
    assert s[i..i + 4] == s[i..i + 2] + s[i + 2..i + 4];
    assert s[i..i + 4] == Be32(v) <==> s[i..i + 2] == Be16(v / 0x1_0000) && s[i + 2..i + 4] == Be16(v % 0x1_0000) by {
      SameHalves(s[i..i + 2], s[i + 2..i + 4], Be16(v / 0x1_0000), Be16(v % 0x1_0000));
    }
  }

  lemma SameHalves<T>(a: seq<T>, b: seq<T>, c: seq<T>, d: seq<T>)
    requires |a| == |c|
    ensures a + b == c + d <==> a == c && b == d
  {
    if a + b == c + d {
      assert a == (a + b)[..|a|] && b == (a + b)[|a|..];
      assert c == (c + d)[..|c|] && d == (c + d)[|c|..];
    }
  }

  /** Slices of a concatenation, the shape in which every decoder meets an encoder's output. */
  lemma SplitAt<T>(s: seq<T>, i: nat)
    requires i <= |s|
    ensures s[..i] + s[i..] == s
  {
  }

  lemma ConcatAssoc<T>(a: seq<T>, b: seq<T>, c: seq<T>)
    ensures a + (b + c) == a + b + c
  {
  }

  lemma UpdateMiddle<T>(a: seq<T>, z: seq<T>, r: seq<T>, j: nat, c: T)
    requires j < |z|
    ensures (a + z + r)[|a| + j] == z[j] && (a + z + r)[|a| + j := c] == a + z[j := c] + r
  {
  }

  /** A concatenation is a prefix when its first part is one and its second is a prefix of the rest. */
  lemma PrefixSplit<T>(a: seq<T>, b: seq<T>, s: seq<T>)
    ensures a + b <= s <==> a <= s && b <= s[|a|..]
  {
    var n := |a| + |b|;
    if n <= |s| {
      assert s[..n] == s[..|a|] + s[|a|..][..|b|];
      SameHalves(s[..|a|], s[|a|..][..|b|], a, b);
    }
  }

  /** A memory copy to the given position of a buffer. */
  method CopyInto(buf: array<byte>, at: nat, chunk: bytes)
    requires at + |chunk| <= buf.Length
    modifies buf
    ensures buf[..at + |chunk|] == old(buf[..at]) + chunk
    ensures buf[at + |chunk|..] == old(buf[at + |chunk|..])
  {
    for i := 0 to |chunk|
      invariant buf[..at] == old(buf[..at])
      invariant buf[at..at + i] == chunk[..i]
      invariant buf[at + i..] == old(buf[at + i..])
    {
      ghost var rest := buf[at + i..];
      buf[at + i] := chunk[i];
      assert buf[at + i + 1..] == rest[1..] == old(buf[at + i + 1..]);
    }
    assert buf[..at + |chunk|] == buf[..at] + buf[at..at + |chunk|];
  }

  /** A successful list result extended at the front; an error is passed on. */
  function Prepend<T, E>(p: seq<T>, r: Result<seq<T>, E>): Result<seq<T>, E> {
    if r.Ok? then Ok(p + r.value) else r
  }

  lemma PrependNothing<T, E>(r: Result<seq<T>, E>)
    ensures Prepend([], r) == r
  {
    if r.Ok? {
      assert [] + r.value == r.value;
    }
  }

  lemma PrependTwice<T, E>(a: seq<T>, b: seq<T>, r: Result<seq<T>, E>)
    ensures Prepend(a, Prepend(b, r)) == Prepend(a + b, r)
  {
    if r.Ok? {
      ConcatAssoc(a, b, r.value);
    }
  }

  // ----- numbers as bits

  /** The k low bits of n, least significant first. */
  function Bits(n: nat, k: nat): (r: bits)
    ensures |r| == k
  {
    if k == 0 then [] else [n % 2 == 1] + Bits(n / 2, k - 1)
  }

  /** The number whose bits, least significant first, are s. */
  function Value(s: bits): nat {
    if s == [] then 0 else (if s[0] then 1 else 0) + 2 * Value(s[1..])
  }

  function Pow2(k: nat): (r: nat)
    ensures r > 0
  {
    if k == 0 then 1 else 2 * Pow2(k - 1)
  }

  lemma {:induction false} ValueBound(s: bits)
    ensures Value(s) < Pow2(|s|)
  {
    if s != [] {
      ValueBound(s[1..]);
    }
  }

  /** Bits and Value are inverse on k-bit words. */
  lemma {:induction false} BitsOfValue(s: bits)
    ensures Bits(Value(s), |s|) == s
  {
    if s != [] {
      BitsOfValue(s[1..]);
      assert Value(s) / 2 == Value(s[1..]);
    }
  }

  lemma {:induction false} ValueOfBits(n: nat, k: nat)
    requires n < Pow2(k)
    ensures Value(Bits(n, k)) == n
  {
    if k != 0 {
      ValueOfBits(n / 2, k - 1);
      assert Bits(n, k)[1..] == Bits(n / 2, k - 1);
    }
  }
}
