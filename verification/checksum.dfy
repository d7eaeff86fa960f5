/**
 * client/src/main.cpp, icmpChecksum: the one's-complement checksum of section 1 of RFC 1071, over the 16-bit
 * words of a buffer and a possible odd last byte. The accumulator has 32 bits and wraps around.
 */
module Checksum {
  import opened Bytes

  const WRAP := 0x1_0000_0000

  function WordSum(words: seq<u16>): (s: nat)
    ensures s <= 65535 * |words|
  {
    if words == [] then 0 else WordSum(words[..|words| - 1]) + words[|words| - 1]
  }

  /** The exact sum of the buffer. */
  function Total(words: seq<u16>, tail: seq<byte>): nat
    requires |tail| <= 1
  {
    WordSum(words) + if tail == [] then 0 else tail[0]
  }

  /** The sum grows by each word, and by an odd last byte as a word of its own. */
  lemma TotalGrows(words: seq<u16>, w: u16, tail: seq<byte>)
    requires |tail| <= 1
    ensures Total([], []) == 0
    ensures Total(words + [w], tail) == Total(words, tail) + w
    ensures tail != [] ==> Total(words, tail) == Total(words, []) + tail[0]
  {
    assert (words + [w])[..|words|] == words;
  }

  /** The two folds of the accumulator. */
  function Folded(sum: u32): u16 {
    var once := sum / 0x1_0000 + sum % 0x1_0000;
    (once + once / 0x1_0000) % 0x1_0000
  }

  function ChecksumOf(words: seq<u16>, tail: seq<byte>): u16
    requires |tail| <= 1
  {
    0xFFFF - Folded(ToU32(Total(words, tail)))
  }

  /** The loop as written, for buffers of any length. */
  method IcmpChecksum(words: seq<u16>, tail: seq<byte>) returns (c: u16)
    requires |tail| <= 1
    ensures c == ChecksumOf(words, tail)
  {
    var sum: u32 := 0;
    for k := 0 to |words|
      invariant sum == ToU32(WordSum(words[..k]))
    {
      SumExtends(words, k);
      SumWraps(WordSum(words[..k]), words[k]);
      sum := ToU32(sum + words[k]);
    }
    assert words[..|words|] == words;
    if |tail| == 1 {
      SumWraps(WordSum(words), tail[0]);
      sum := ToU32(sum + tail[0]);
    }
    c := FoldTwice(sum);
  }

  /** Neither fold overflows. */
  method FoldTwice(total: u32) returns (c: u16)
    ensures c == 0xFFFF - Folded(total)
  {
    var sum := total;
    FoldsFit(sum);
    sum := sum / 0x1_0000 + sum % 0x1_0000;
    sum := sum + sum / 0x1_0000;
    c := 0xFFFF - sum % 0x1_0000;
  }

  lemma SumExtends(words: seq<u16>, k: nat)
    requires k < |words|
    ensures WordSum(words[..k + 1]) == WordSum(words[..k]) + words[k]
  {
    assert words[..k + 1][..k] == words[..k];
  }

  lemma SumWraps(a: nat, b: nat)
    ensures ToU32(ToU32(a) + b) == ToU32(a + b)
  {
  }

  lemma FoldsFit(sum: u32)
    ensures sum / 0x1_0000 + sum % 0x1_0000 <= 0x1_FFFE
  {
  }

  /** Folding keeps the sum modulo 65535, and only a zero sum folds to zero. */
  lemma FoldedCongruent(sum: u32)
    ensures Folded(sum) % 0xFFFF == sum % 0xFFFF
    ensures Folded(sum) == 0 <==> sum == 0
  {
    var hi, lo := sum / 0x1_0000, sum % 0x1_0000;
    var once := hi + lo;
    var carry := once / 0x1_0000;
    assert sum == 0xFFFF * hi + once;
    assert carry <= 1;
    assert Folded(sum) == once - 0xFFFF * carry;
    Multiple(Folded(sum), hi + carry);
  }

  lemma Multiple(r: int, k: int)
    ensures (r + 0xFFFF * k) % 0xFFFF == r % 0xFFFF
  {
  }

  /** Each wrap of the accumulator costs one, modulo 65535. */
  lemma WrapCost(sum: nat)
    ensures ToU32(sum) % 0xFFFF == (sum - sum / WRAP) % 0xFFFF
  {
    var q := sum / WRAP;
    assert sum == WRAP * q + ToU32(sum) && WRAP == 0xFFFF * 0x1_0001 + 1;
    Multiple(ToU32(sum), 0x1_0001 * q);
  }

  lemma SameResidue(a: int, b: int)
    ensures a % 0xFFFF == b % 0xFFFF <==> (a - b) % 0xFFFF == 0
  {
  }

  /**
   * The checksum is the complement of a value congruent to the exact sum modulo 65535 if and only if the
   * number of wraps of the accumulator is a multiple of 65535; so in particular if it never wraps.
   */
  lemma ChecksumCongruent(words: seq<u16>, tail: seq<byte>)
    requires |tail| <= 1
    ensures (0xFFFF - ChecksumOf(words, tail)) % 0xFFFF == Total(words, tail) % 0xFFFF
       <==> Total(words, tail) / WRAP % 0xFFFF == 0
  {
    var t := Total(words, tail);
    FoldedCongruent(ToU32(t));
    WrapCost(t);
    SameResidue(t, t - t / WRAP);
  }

  /** The accumulator does not wrap up to 65537 words, the odd byte counted as one. */
  lemma NoWrap(words: seq<u16>, tail: seq<byte>)
    requires |tail| <= 1 && |words| + |tail| <= 65537
    ensures Total(words, tail) / WRAP == 0
  {
  }

  lemma {:induction false} ConstantSum(words: seq<u16>, w: u16)
    requires forall i :: 0 <= i < |words| ==> words[i] == w
    ensures WordSum(words) == w * |words|
  {
    if words != [] {
      ConstantSum(words[..|words| - 1], w);
    }
  }

  /** One word more is too many: here the checksum is not the one's-complement one. */
  lemma WrapExample(words: seq<u16>)
    requires |words| == 65538 && forall i :: 0 <= i < |words| ==> words[i] == 0xFFFF
    ensures (0xFFFF - ChecksumOf(words, [])) % 0xFFFF != Total(words, []) % 0xFFFF
  {
    ConstantSum(words, 0xFFFF);
    ChecksumCongruent(words, []);
  }

  lemma {:induction false} SumUpdate(words: seq<u16>, at: nat, w: u16)
    requires at < |words|
    ensures words[at] <= WordSum(words) && WordSum(words[at := w]) == WordSum(words) - words[at] + w
  {
    var n := |words| - 1;
    var t := words[at := w];
    if at < n {
      assert t[..n] == words[..n][at := w];
      SumUpdate(words[..n], at, w);
    } else {
      assert t[..n] == words[..n];
    }
  }

  /** Storing the checksum in a word that was zero makes the checksum of the whole buffer zero, wraps or not. */
  lemma VerifiesToZero(words: seq<u16>, tail: seq<byte>, at: nat)
    requires |tail| <= 1 && at < |words| && words[at] == 0
    ensures ChecksumOf(words[at := ChecksumOf(words, tail)], tail) == 0
  {
    var c := ChecksumOf(words, tail);
    var t := Total(words, tail);
    SumUpdate(words, at, c);
    RoomForChecksum(ToU32(t));
    SumWraps(t, c);
    FilledFolds(ToU32(t), ToU32(t + c));
  }

  /** Adding the checksum never makes the accumulator wrap once more. */
  lemma RoomForChecksum(sum: u32)
    ensures sum + (0xFFFF - Folded(sum)) < WRAP
  {
    var hi, lo := sum / 0x1_0000, sum % 0x1_0000;
    if hi == 0xFFFF && lo > 0 {
      assert Folded(sum) == lo;
    }
  }

  lemma FilledFolds(sum: u32, filled: u32)
    requires filled == sum + (0xFFFF - Folded(sum))
    ensures Folded(filled) == 0xFFFF
  {
    FoldedCongruent(sum);
    FoldedCongruent(filled);
    SelfCancels(sum, Folded(sum));
  }

  lemma SelfCancels(sum: nat, f: u16)
    requires f % 0xFFFF == sum % 0xFFFF
    ensures (sum + (0xFFFF - f)) % 0xFFFF == 0
  {
  }

  /**
   * Exactly when replacing one word goes unnoticed: the change is congruent to the change in the number of
   * wraps, and the accumulator does not become or cease to be zero.
   */
  lemma WordChangeDetected(words: seq<u16>, tail: seq<byte>, at: nat, w: u16)
    requires |tail| <= 1 && at < |words|
    ensures var a, b := Total(words, tail), Total(words[at := w], tail);
      ChecksumOf(words[at := w], tail) == ChecksumOf(words, tail) <==>
        (w - words[at]) % 0xFFFF == (b / WRAP - a / WRAP) % 0xFFFF && (ToU32(a) == 0 <==> ToU32(b) == 0)
  {
    var a, b := Total(words, tail), Total(words[at := w], tail);
    SumUpdate(words, at, w);
    FoldedDetermined(ToU32(a), ToU32(b));
    WrapCost(a);
    WrapCost(b);
    SameResidue(a - a / WRAP, b - b / WRAP);
    SameResidue(b / WRAP - a / WRAP, w - words[at]);
    assert (a - a / WRAP) - (b - b / WRAP) == (b / WRAP - a / WRAP) - (w - words[at]);
  }

  lemma FoldedDetermined(a: u32, b: u32)
    ensures Folded(a) == Folded(b) <==> a % 0xFFFF == b % 0xFFFF && (a == 0 <==> b == 0)
  {
    FoldedCongruent(a);
    FoldedCongruent(b);
    Residues(Folded(a), Folded(b));
  }

  lemma Residues(x: u16, y: u16)
    ensures x % 0xFFFF == y % 0xFFFF ==> x == y || (x == 0 && y == 0xFFFF) || (x == 0xFFFF && y == 0)
  {
  }
}
