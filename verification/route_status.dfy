/**
 * unix_domain/lib/cmd_proto.cpp: the two ROUTE_ADD responses (packed bits per prefix, one byte per VRF)
 * and the handlers that aggregate installation results into them.
 */
module RouteStatus {
  import opened Bytes
  import opened Crc
  import opened CmdProto
  import opened RoutePayloads

  // ----- packed bits, one per prefix

  datatype BinaryResponse = BinaryResponse(statusCode: byte, prefixStatus: bits)

  /** Eight flags to a byte, the first in bit 0, the last byte padded with zeros. */
  function Packed(s: bits): (r: bytes)
    ensures |r| == (|s| + 7) / 8
  {
    if s == [] then []
    else
      var n := if |s| < 8 then |s| else 8;
      OctetFits(s[..n]);
      [Value(s[..n])] + Packed(s[n..])
  }

  lemma OctetFits(s: bits)
    requires |s| <= 8
    ensures Value(s) < 0x100
  {
    ValueBound(s);
    Pow2Grows(|s|, 8);
    assert Pow2(4) == 16 && Pow2(8) == 256;
  }

  lemma {:induction false} Pow2Grows(i: nat, k: nat)
    requires i <= k
    ensures Pow2(i) <= Pow2(k)
  {
    if i < k {
      Pow2Grows(i, k - 1);
    }
  }

  lemma {:induction false} ValueSnoc(s: bits, b: bool)
    ensures Value(s + [b]) == Value(s) + if b then Pow2(|s|) else 0
  {
    if s == [] {
      assert s + [b] == [b] && Value([b][1..]) == 0;
    } else {
      assert (s + [b])[1..] == s[1..] + [b];
      ValueSnoc(s[1..], b);
    }
  }

  /** The inner packing loop: the byte that holds flags idx, idx + 1, ..., idx + 7. */
  method PackByte(s: bits, idx: nat) returns (b: byte)
    requires idx < |s|
    ensures b == Value(s[idx..if |s| < idx + 8 then |s| else idx + 8])
  {
    var v: nat := 0;
    for bit := 0 to 8
      invariant v == Value(s[idx..if |s| < idx + bit then |s| else idx + bit])
    {
      if idx + bit < |s| {
        assert s[idx..idx + bit + 1] == s[idx..idx + bit] + [s[idx + bit]];
        ValueSnoc(s[idx..idx + bit], s[idx + bit]);
        if s[idx + bit] {
          v := v + Pow2(bit);
        }
      }
    }
    OctetFits(s[idx..if |s| < idx + 8 then |s| else idx + 8]);
    b := v;
  }

  function One(b: bool, weight: nat): nat {
    if b then weight else 0
  }

  /** Eight flags in a byte: the first counts 1, the last 128. */
  lemma OctetLayout(s: bits)
    requires |s| == 8
    ensures Packed(s) == [One(s[0], 1) + One(s[1], 2) + One(s[2], 4) + One(s[3], 8)
                          + One(s[4], 16) + One(s[5], 32) + One(s[6], 64) + One(s[7], 128)]
  {
    assert s[..8] == s && Packed(s[8..]) == [];
    HalfOctet(s);
    HalfOctet(s[4..]);
    assert Value(s[4..][4..]) == 0;
  }

  lemma HalfOctet(s: bits)
    requires |s| >= 4
    ensures Value(s) == One(s[0], 1) + One(s[1], 2) + One(s[2], 4) + One(s[3], 8) + 16 * Value(s[4..])
  {
    var a, b, c := s[1..], s[2..], s[3..];
    assert Value(s) == One(s[0], 1) + 2 * Value(a);
    assert a[1..] == b && Value(a) == One(s[1], 1) + 2 * Value(b);
    assert b[1..] == c && Value(b) == One(s[2], 1) + 2 * Value(c);
    assert c[1..] == s[4..] && Value(c) == One(s[3], 1) + 2 * Value(s[4..]);
  }

  /** Whole bytes are followed by the rest, and flags missing in the last byte count as false. */
  lemma PackedInOrder(octet: bits, more: bits, last: bits, k: nat)
    requires |octet| == 8 && 0 < |last| && |last| + k <= 8
    ensures Packed([]) == [] && Packed(octet + more) == Packed(octet) + Packed(more)
    ensures Packed(last + Zeros(k)) == Packed(last)
  {
    assert (octet + more)[..8] == octet[..8] == octet && (octet + more)[8..] == more && Packed(octet[8..]) == [];
    PadValue(last, k);
    var padded := last + Zeros(k);
    assert padded[..|padded|] == padded && last[..|last|] == last;
  }

  function EncodedBinaryResponse(r: BinaryResponse): bytes {
    [r.statusCode] + Packed(r.prefixStatus)
  }

  method EncodeBinaryResponse(r: BinaryResponse) returns (out: bytes)
    ensures out == EncodedBinaryResponse(r)
    ensures out == [r.statusCode] + Packed(r.prefixStatus)
  {
    var s := r.prefixStatus;
    var statusBytes := (|s| + 7) / 8;
    out := [r.statusCode];
    for i := 0 to statusBytes
      invariant 8 * i <= |s| + 7
      invariant out + Packed(s[if |s| < 8 * i then |s| else 8 * i..]) == EncodedBinaryResponse(r)
    {
      var b := PackByte(s, 8 * i);
      ghost var rest := s[8 * i..];
      ghost var n := if |rest| < 8 then |rest| else 8;
      assert rest[..n] == s[8 * i..8 * i + n] && rest[n..] == s[8 * i + n..];
      ConcatAssoc(out, [b], Packed(rest[n..]));
      out := out + [b];
    }
    assert out + [] == out;
  }

  function DecodedBinaryResponse(raw: bytes): Result<BinaryResponse, CmdError> {
    if raw == [] then Err(InvalidCommand) else Ok(BinaryResponse(raw[0], Stream(raw[1..])))
  }

  /** n shifted right by k bits. */
  function ShiftedRight(n: nat, k: nat): nat {
    if k == 0 then n else ShiftedRight(n / 2, k - 1)
  }

  lemma {:induction false} BitAt(n: nat, k: nat, j: nat)
    requires j < k
    ensures Bits(n, k)[j] == (ShiftedRight(n, j) % 2 == 1)
  {
    if j > 0 {
      BitAt(n / 2, k - 1, j - 1);
    }
  }

  method DecodeBinaryResponse(raw: bytes) returns (r: Result<BinaryResponse, CmdError>)
    ensures r == DecodedBinaryResponse(raw)
    ensures raw == [] ==> r == Err(InvalidCommand)
    ensures raw != [] ==> r.Ok? && r.value.statusCode == raw[0] && |r.value.prefixStatus| == 8 * (|raw| - 1)
  {
    if raw == [] {
      return Err(InvalidCommand);
    }
    assert |Stream(raw[1..])| == 8 * (|raw| - 1);
    var status: bits := [];
    for i := 1 to |raw|
      invariant status == Stream(raw[1..i])
    {
      ghost var before := status;
      for bit := 0 to 8
        invariant status == before + Bits(raw[i], 8)[..bit]
      {
        BitAt(raw[i], 8, bit);
        status := status + [ShiftedRight(raw[i], bit) % 2 == 1];
      }
      assert Bits(raw[i], 8)[..8] == Bits(raw[i], 8);
      assert raw[1..i + 1] == raw[1..i] + [raw[i]];
      StreamConcat(raw[1..i], [raw[i]]);
      assert Stream([raw[i]]) == Bits(raw[i], 8) + [];
    }
    assert raw[1..|raw|] == raw[1..];
    return Ok(BinaryResponse(raw[0], status));
  }

  lemma PaddedBits(s: bits, k: nat)
    requires |s| <= k
    ensures Bits(Value(s), k) == s + Zeros(k - |s|)
  {
    var t := s + Zeros(k - |s|);
    PadValue(s, k - |s|);
    BitsOfValue(t);
  }

  /** Unpacking returns the flags, followed only by the padding of the last byte. */
  lemma {:induction false} Unpacked(s: bits)
    ensures Stream(Packed(s)) == s + Zeros(8 * ((|s| + 7) / 8) - |s|)
  {
    if s != [] {
      var n := if |s| < 8 then |s| else 8;
      PaddedBits(s[..n], 8);
      Unpacked(s[n..]);
      var pad := Zeros(8 * ((|s| + 7) / 8) - |s|);
      assert Stream(Packed(s)) == s[..n] + Zeros(8 - n) + Stream(Packed(s[n..])) by {
        assert Packed(s)[1..] == Packed(s[n..]);
      }
      if |s| <= 8 {
        assert s[..n] == s && s[n..] == [] && Stream(Packed(s[n..])) == [];
      } else {
        assert Zeros(0) == [] && s[..n] + Zeros(0) == s[..n];
        ConcatAssoc(s[..n], s[n..], pad);
        assert s[..n] + s[n..] == s;
      }
    }
  }

  /** Repacking the bits of whole bytes returns the bytes. */
  lemma {:induction false} Repacked(d: bytes)
    ensures Packed(Stream(d)) == d
  {
    if d != [] {
      var s := Stream(d);
      assert s[..8] == Bits(d[0], 8) && s[8..] == Stream(d[1..]);
      assert Pow2(4) == 16 && Pow2(8) == 256;
      ValueOfBits(d[0], 8);
      Repacked(d[1..]);
    }
  }

  /**
   * The response for N prefixes takes 1 + ceil(N / 8) bytes and decodes to the same status code and flags
   * followed by false padding; every non-empty byte string is the encoding of what it decodes to.
   */
  lemma BinaryResponseCodec(r: BinaryResponse, raw: bytes)
    ensures |EncodedBinaryResponse(r)| == 1 + (|r.prefixStatus| + 7) / 8
    ensures DecodedBinaryResponse(EncodedBinaryResponse(r)) == Ok(BinaryResponse(
      r.statusCode, r.prefixStatus + Zeros(8 * ((|r.prefixStatus| + 7) / 8) - |r.prefixStatus|)))
    ensures raw != [] ==> EncodedBinaryResponse(DecodedBinaryResponse(raw).value) == raw
  {
    Unpacked(r.prefixStatus);
    assert EncodedBinaryResponse(r)[1..] == Packed(r.prefixStatus);
    if raw != [] {
      Repacked(raw[1..]);
      assert raw == [raw[0]] + raw[1..];
    }
  }

  // ----- one byte per VRF

  const VRFS_ANSWER_WIRE_SIZE := 17

  datatype VrfsAnswer = VrfsAnswer(vrfsName: VrfsName, ok: bool)

  datatype VrfsResponse = VrfsResponse(statusCode: byte, answers: seq<VrfsAnswer>)

  function AnswerBytes(a: VrfsAnswer): (r: bytes)
    ensures |r| == VRFS_ANSWER_WIRE_SIZE
  {
    a.vrfsName + [if a.ok then 1 else 0]
  }

  function AnswersBytes(answers: seq<VrfsAnswer>): bytes {
    if answers == [] then [] else AnswerBytes(answers[0]) + AnswersBytes(answers[1..])
  }

  /** Each answer takes its name and one byte; answers follow each other in order. */
  lemma {:induction false} AnswerLayout(answers: seq<VrfsAnswer>, a: VrfsAnswer)
    ensures AnswersBytes([]) == []
    ensures AnswersBytes(answers + [a]) == AnswersBytes(answers) + a.vrfsName + [if a.ok then 1 else 0]
  {
    if answers == [] {
      assert answers + [a] == [a] && AnswersBytes([a][1..]) == [];
    } else {
      assert (answers + [a])[1..] == answers[1..] + [a];
      AnswerLayout(answers[1..], a);
    }
  }

  function EncodedVrfsResponse(r: VrfsResponse): bytes {
    [r.statusCode] + AnswersBytes(r.answers)
  }

  method EncodeVrfsResponse(r: VrfsResponse) returns (out: bytes)
    ensures out == EncodedVrfsResponse(r)
    ensures out == [r.statusCode] + AnswersBytes(r.answers)
  {
    out := [r.statusCode];
    for k := 0 to |r.answers|
      invariant out + AnswersBytes(r.answers[k..]) == EncodedVrfsResponse(r)
    {
      ghost var before := out;
      for i := 0 to VRFS_NAME_SIZE
        invariant out == before + r.answers[k].vrfsName[..i]
      {
        out := out + [r.answers[k].vrfsName[i]];
      }
      out := out + [if r.answers[k].ok then 1 else 0];
      assert out == before + AnswerBytes(r.answers[k]);
      ConcatAssoc(before, AnswerBytes(r.answers[k]), AnswersBytes(r.answers[k + 1..]));
    }
  }

  /** Only bit 0 of the status byte is looked at. */
  function DecodedAnswers(s: bytes): Result<seq<VrfsAnswer>, CmdError> {
    if s == [] then Ok([])
    else if |s| < VRFS_ANSWER_WIRE_SIZE then Err(InvalidCommand)
    else Prepend([VrfsAnswer(s[..16], s[16] % 2 == 1)], DecodedAnswers(s[VRFS_ANSWER_WIRE_SIZE..]))
  }

  function DecodedVrfsResponse(raw: bytes): Result<VrfsResponse, CmdError> {
    if raw == [] then Err(InvalidCommand)
    else
      var answers := DecodedAnswers(raw[1..]);
      if answers.Err? then Err(answers.error) else Ok(VrfsResponse(raw[0], answers.value))
  }

  /** The k-th answer of a response payload, read where it stands. */
  predicate AnswerAt(raw: bytes, k: nat, a: VrfsAnswer) {
    && 18 + 17 * k <= |raw|
    && a.vrfsName == raw[1 + 17 * k..17 + 17 * k] && (a.ok <==> raw[17 + 17 * k] % 2 == 1)
  }

  method DecodeVrfsResponse(raw: bytes) returns (r: Result<VrfsResponse, CmdError>)
    ensures r == DecodedVrfsResponse(raw)
    ensures r.Err? ==> r == Err(InvalidCommand)
    ensures r.Ok? <==> |raw| % 17 == 1
    ensures r.Ok? ==> r.value.statusCode == raw[0] && 1 + 17 * |r.value.answers| == |raw|
    ensures r.Ok? ==> forall k :: 0 <= k < |r.value.answers| ==> AnswerAt(raw, k, r.value.answers[k])
  {
    if raw == [] {
      return Err(InvalidCommand);
    }
    var answers: seq<VrfsAnswer> := [];
    var pos := 1;
    PrependNothing(DecodedAnswers(raw[1..]));
    while pos < |raw|
      invariant 1 <= pos <= |raw|
      invariant DecodedAnswers(raw[1..]) == Prepend(answers, DecodedAnswers(raw[pos..]))
      invariant pos == 1 + 17 * |answers|
      invariant forall k :: 0 <= k < |answers| ==> AnswerAt(raw, k, answers[k])
      decreases |raw| - pos
    {
      if |raw| - pos < VRFS_ANSWER_WIRE_SIZE {
        return Err(InvalidCommand);
      }
      ghost var s := raw[pos..];
      var name: bytes := [];
      for i := 0 to VRFS_NAME_SIZE
        invariant name == raw[pos..pos + i]
      {
        name := name + [raw[pos + i]];
      }
      pos := pos + VRFS_NAME_SIZE;
      var ans := VrfsAnswer(name, raw[pos] % 2 == 1);
      pos := pos + 1;
      assert s[..16] == name && s[VRFS_ANSWER_WIRE_SIZE..] == raw[pos..];
      PrependTwice(answers, [ans], DecodedAnswers(raw[pos..]));
      answers := answers + [ans];
    }
    assert answers + [] == answers;
    return Ok(VrfsResponse(raw[0], answers));
  }

  lemma {:induction false} AnswersRoundTrip(answers: seq<VrfsAnswer>)
    ensures DecodedAnswers(AnswersBytes(answers)) == Ok(answers)
  {
    if answers != [] {
      var s := AnswersBytes(answers);
      AnswersRoundTrip(answers[1..]);
      assert s[..16] == answers[0].vrfsName && s[VRFS_ANSWER_WIRE_SIZE..] == AnswersBytes(answers[1..]);
      assert [answers[0]] + answers[1..] == answers;
    }
  }

  /** Every 17th byte, the status byte of each answer, is 0 or 1. */
  predicate PlainStatus(s: bytes) {
    |s| >= VRFS_ANSWER_WIRE_SIZE ==> s[16] <= 1 && PlainStatus(s[VRFS_ANSWER_WIRE_SIZE..])
  }

  lemma {:induction false} AnswersCanonical(s: bytes)
    requires DecodedAnswers(s).Ok?
    ensures AnswersBytes(DecodedAnswers(s).value) == s <==> PlainStatus(s)
  {
    if s != [] {
      var t := s[VRFS_ANSWER_WIRE_SIZE..];
      var a := VrfsAnswer(s[..16], s[16] % 2 == 1);
      AnswersCanonical(t);
      var r := DecodedAnswers(s).value;
      assert r[0] == a && r[1..] == DecodedAnswers(t).value;
      assert s[..17] == s[..16] + [s[16]] && s == s[..17] + t;
      SameHalves(AnswerBytes(a), AnswersBytes(r[1..]), s[..17], t);
      assert AnswerBytes(a) == s[..17] <==> AnswerBytes(a)[16] == s[16];
    }
  }

  /**
   * A VRF response survives encoding and decoding; re-encoding a decoded one gives its bytes back exactly
   * when no answer carries anything but 0 or 1 in its status byte.
   */
  lemma VrfsResponseCodec(r: VrfsResponse, raw: bytes)
    ensures DecodedVrfsResponse(EncodedVrfsResponse(r)) == Ok(r)
    ensures DecodedVrfsResponse(raw).Ok? ==>
      (EncodedVrfsResponse(DecodedVrfsResponse(raw).value) == raw <==> PlainStatus(raw[1..]))
  {
    AnswersRoundTrip(r.answers);
    assert EncodedVrfsResponse(r)[1..] == AnswersBytes(r.answers);
    if DecodedVrfsResponse(raw).Ok? {
      AnswersCanonical(raw[1..]);
      var answers := DecodedAnswers(raw[1..]).value;
      SplitAt(raw, 1);
      assert raw[..1] == [raw[0]];
      SameHalves([raw[0]], AnswersBytes(answers), raw[..1], raw[1..]);
    }
  }
}
