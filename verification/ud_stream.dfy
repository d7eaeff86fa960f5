/**
 * The stream scanner of unix_domain/lib/ud_proto.cpp: finding the first frame of a byte stream, and
 * what repeated scanning makes of a stream of packets and line noise.
 */
module UdStream {
  import opened Bytes
  import opened UdProto

  /** A frame occupying stream[start..end], both delimiters included. */
  datatype Span = Span(start: nat, end: nat)

  /** The position of the first delimiter at or after `from`, or the length of the stream. */
  function NextDelim(s: bytes, from: nat): (i: nat)
    requires from <= |s|
    ensures from <= i <= |s|
    ensures DelimFree(s[from..i])
    ensures i < |s| ==> s[i] == FRAME_DELIM
    decreases |s| - from
  {
    if from == |s| || s[from] == FRAME_DELIM then from
    else
      var i := NextDelim(s, from + 1);
      assert s[from..i] == [s[from]] + s[from + 1..i];
      i
  }

  lemma {:induction false} NextDelimUnique(s: bytes, from: nat, i: nat)
    requires from <= i <= |s|
    requires DelimFree(s[from..i])
    requires i < |s| ==> s[i] == FRAME_DELIM
    ensures NextDelim(s, from) == i
    decreases i - from
  {
    if from < i {
      assert s[from] == s[from..i][0];
      assert s[from + 1..i] == s[from..i][1..];
      NextDelimUnique(s, from + 1, i);
    }
  }

  lemma SpanDelimited(s: bytes, start: nat, close: nat)
    requires start < close < |s| && s[start] == FRAME_DELIM && s[close] == FRAME_DELIM
    requires DelimFree(s[start + 1..close])
    ensures Delimited(s[start..close + 1])
  {
    var f := s[start..close + 1];
    var a, b := f[1..|f| - 1], s[start + 1..close];
    assert |a| == |b| && forall i :: 0 <= i < |a| ==> a[i] == b[i];
    assert a == b;
  }

  /**
   * The first frame of a stream. Success means: nothing but noise before it, a delimiter at each end and
   * none inside. Failure means that the stream does not yet hold two delimiters.
   */
  function FoundFrame(s: bytes): (r: Result<Span, ProtoError>)
    ensures r.Ok? ==>
      && r.value.start + 2 <= r.value.end <= |s|
      && DelimFree(s[..r.value.start])
      && Delimited(s[r.value.start..r.value.end])
    ensures r.Err? ==> r.error == IncompleteFrame && DelimCount(s) < 2
  {
    var start := NextDelim(s, 0);
    if start == |s| then
      assert s[0..start] == s;
      DelimFreeCount(s);
      Err(IncompleteFrame)
    else
      var close := NextDelim(s, start + 1);
      if close == |s| then
        assert s == s[0..start] + [FRAME_DELIM] + s[start + 1..close];
        DelimFreeCount(s[0..start]);
        DelimFreeCount(s[start + 1..close]);
        DelimCountConcat(s[0..start] + [FRAME_DELIM], s[start + 1..close]);
        DelimCountConcat(s[0..start], [FRAME_DELIM]);
        Err(IncompleteFrame)
      else
        SpanDelimited(s, start, close);
        Ok(Span(start, close + 1))
  }

  method FindFrame(stream: bytes) returns (r: Result<Span, ProtoError>)
    ensures r == FoundFrame(stream)
  {
    if |stream| == 0 {
      return Err(IncompleteFrame);
    }
    var start := 0;
    while start < |stream| && stream[start] != FRAME_DELIM
      invariant start <= |stream|
      invariant NextDelim(stream, start) == NextDelim(stream, 0)
    {
      start := start + 1;
    }
    if start >= |stream| {
      return Err(IncompleteFrame);
    }
    var close := start + 1;
    while close < |stream| && stream[close] != FRAME_DELIM
      invariant start < close <= |stream|
      invariant NextDelim(stream, close) == NextDelim(stream, start + 1)
    {
      close := close + 1;
    }
    if close >= |stream| {
      return Err(IncompleteFrame);
    }
    var end := close + 1;
    return Ok(Span(start, end));
  }

  /** A frame that has been found stays the first frame whatever arrives later. */
  lemma FoundFrameStable(s: bytes, more: bytes)
    requires FoundFrame(s).Ok?
    ensures FoundFrame(s + more) == FoundFrame(s)
  {
    var start, close := FoundFrame(s).value.start, FoundFrame(s).value.end - 1;
    var t := s + more;
    assert t[0..start] == s[0..start] && t[start + 1..close] == s[start + 1..close];
    NextDelimUnique(t, 0, start);
    NextDelimUnique(t, start + 1, close);
  }

  /** A delimited block preceded by noise is what the scanner finds. */
  lemma FoundAfterNoise(noise: bytes, f: bytes, rest: bytes)
    requires DelimFree(noise) && Delimited(f)
    ensures FoundFrame(noise + f + rest) == Ok(Span(|noise|, |noise| + |f|))
  {
    var s := noise + f + rest;
    var start, close := |noise|, |noise| + |f| - 1;
    assert s[0..start] == noise && s[start + 1..close] == f[1..|f| - 1];
    NextDelimUnique(s, 0, start);
    NextDelimUnique(s, start + 1, close);
  }

  // ----- repeated scanning

  function DelimCount(s: bytes): nat {
    if s == [] then 0 else (if s[0] == FRAME_DELIM then 1 else 0) + DelimCount(s[1..])
  }

  lemma {:induction false} DelimCountConcat(s: bytes, t: bytes)
    ensures DelimCount(s + t) == DelimCount(s) + DelimCount(t)
  {
    if s == [] {
      assert s + t == t;
    } else {
      assert (s + t)[1..] == s[1..] + t;
      DelimCountConcat(s[1..], t);
    }
  }

  lemma {:induction false} DelimFreeCount(s: bytes)
    ensures DelimFree(s) <==> DelimCount(s) == 0
  {
    if s != [] {
      DelimFreeCount(s[1..]);
      assert s == [s[0]] + s[1..];
    }
  }

  /** The frames obtained by scanning again and again from the end of the previous frame. */
  function Frames(s: bytes): (fs: seq<bytes>)
    decreases |s|
  {
    var r := FoundFrame(s);
    if r.Err? then [] else [s[r.value.start..r.value.end]] + Frames(s[r.value.end..])
  }

  lemma FramesStep(noise: bytes, f: bytes, rest: bytes)
    requires DelimFree(noise) && Delimited(f)
    ensures Frames(noise + f + rest) == [f] + Frames(rest)
  {
    FoundAfterNoise(noise, f, rest);
    var s := noise + f + rest;
    assert s[|noise|..|noise| + |f|] == f && s[|noise| + |f|..] == rest;
  }

  lemma DelimitedCount(f: bytes)
    requires Delimited(f)
    ensures DelimCount(f) == 2
  {
    var inner := f[1..|f| - 1];
    assert f == [FRAME_DELIM] + inner + [FRAME_DELIM];
    DelimCountConcat([FRAME_DELIM] + inner, [FRAME_DELIM]);
    DelimCountConcat([FRAME_DELIM], inner);
    DelimFreeCount(inner);
    assert DelimCount([FRAME_DELIM]) == 1;
  }

  /** A stream in which a frame is found: noise, the frame, and what is left to scan. */
  lemma SplitFound(s: bytes) returns (noise: bytes, f: bytes, later: bytes)
    requires FoundFrame(s).Ok?
    ensures s == noise + f + later && DelimFree(noise) && Delimited(f)
    ensures DelimCount(s) == 2 + DelimCount(later) && DelimCount(s) % 2 == DelimCount(later) % 2
    ensures Frames(s) == [f] + Frames(later)
  {
    var span := FoundFrame(s).value;
    noise, f, later := s[..span.start], s[span.start..span.end], s[span.end..];
    DelimCountConcat(noise + f, later);
    DelimCountConcat(noise, f);
    DelimFreeCount(noise);
    DelimitedCount(f);
  }

  /** A prefix with an even number of delimiters is scanned by itself: the scanner is back in step after it. */
  lemma {:induction false} FramesSplit(pre: bytes, rest: bytes)
    requires DelimCount(pre) % 2 == 0
    ensures Frames(pre + rest) == Frames(pre) + Frames(rest)
    decreases |pre|
  {
    if FoundFrame(pre).Err? {
      DelimFreeCount(pre);
      DropNoise(pre, rest);
      assert [] + Frames(rest) == Frames(rest);
    } else {
      var noise, f, later := SplitFound(pre);
      FramesSplit(later, rest);
      assert Frames(pre + rest) == [f] + Frames(later + rest) by {
        ConcatAssoc(noise + f, later, rest);
        FramesStep(noise, f, later + rest);
      }
      ConcatAssoc([f], Frames(later), Frames(rest));
    }
  }

  /** Leading noise does not change which frames are found. */
  lemma DropNoise(noise: bytes, s: bytes)
    requires DelimFree(noise)
    ensures Frames(noise + s) == Frames(s)
  {
    if FoundFrame(s).Ok? {
      var n, f, later := SplitFound(s);
      ConcatAssoc(noise, n + f, later);
      ConcatAssoc(noise, n, f);
      FramesStep(noise + n, f, later);
    } else {
      DelimFreeCount(noise);
      DelimCountConcat(noise, s);
      if FoundFrame(noise + s).Ok? {
        var n, f, later := SplitFound(noise + s);
        assert false;
      }
    }
  }

  lemma EncodedDelimited(pkt: Packet)
    ensures Delimited(EncodedPacket(pkt))
  {
    var raw := Payload(LengthField(pkt.length, |pkt.data|), pkt.pktNum, pkt.totalPkts, pkt.ctrl, pkt.data);
    var f := Framed(raw);
    StuffedDelimFree(raw);
    assert f[1..|f| - 1] == Stuffed(raw);
  }

  /** Noise, packet, noise, packet, ..., noise. */
  function Interleaved(noises: seq<bytes>, pkts: seq<Packet>): bytes
    requires |noises| == |pkts| + 1
  {
    if pkts == [] then noises[0]
    else noises[0] + EncodedPacket(pkts[0]) + Interleaved(noises[1..], pkts[1..])
  }

  function EncodedAll(pkts: seq<Packet>): (fs: seq<bytes>)
    ensures |fs| == |pkts|
  {
    if pkts == [] then [] else [EncodedPacket(pkts[0])] + EncodedAll(pkts[1..])
  }

  /** Scanning packets separated by delimiter-free noise yields exactly those packets, in order. */
  lemma {:induction false} Resynchronises(noises: seq<bytes>, pkts: seq<Packet>)
    requires |noises| == |pkts| + 1
    requires forall n :: n in noises ==> DelimFree(n)
    ensures Frames(Interleaved(noises, pkts)) == EncodedAll(pkts)
  {
    assert DelimFree(noises[0]);
    if pkts == [] {
      assert noises[0] + [] == noises[0];
      DropNoise(noises[0], []);
    } else {
      EncodedDelimited(pkts[0]);
      FramesStep(noises[0], EncodedPacket(pkts[0]), Interleaved(noises[1..], pkts[1..]));
      Resynchronises(noises[1..], pkts[1..]);
    }
  }

  /**
   * The exact condition for a packet to survive arbitrary bytes before it. After an even number of
   * delimiters it is found; after an odd number its opening delimiter closes a bogus frame, its payload is
   * skipped as noise and its closing delimiter opens the next bogus frame.
   */
  lemma StrayDelimiters(pre: bytes, pkt: Packet, rest: bytes)
    ensures Frames(pre + EncodedPacket(pkt) + rest) ==
      if DelimCount(pre) % 2 == 0 then Frames(pre) + [EncodedPacket(pkt)] + Frames(rest)
      else Frames(pre + [FRAME_DELIM]) + Frames([FRAME_DELIM] + rest)
  {
    var f := EncodedPacket(pkt);
    EncodedDelimited(pkt);
    if DelimCount(pre) % 2 == 0 {
      EvenPrefix(pre, f, rest);
    } else {
      OddPrefix(pre, f, rest);
    }
  }

  lemma EvenPrefix(pre: bytes, f: bytes, rest: bytes)
    requires DelimCount(pre) % 2 == 0 && Delimited(f)
    ensures Frames(pre + f + rest) == Frames(pre) + [f] + Frames(rest)
  {
    ConcatAssoc(pre, f, rest);
    FramesSplit(pre, f + rest);
    assert Frames(f + rest) == [f] + Frames(rest) by {
      assert [] + f == f;
      FramesStep([], f, rest);
    }
    ConcatAssoc(Frames(pre), [f], Frames(rest));
  }

  lemma OddPrefix(pre: bytes, f: bytes, rest: bytes)
    requires DelimCount(pre) % 2 == 1 && Delimited(f)
    ensures Frames(pre + f + rest) == Frames(pre + [FRAME_DELIM]) + Frames([FRAME_DELIM] + rest)
  {
    var inner, open, tail := f[1..|f| - 1], pre + [FRAME_DELIM], [FRAME_DELIM] + rest;
    assert pre + f == open + inner + [FRAME_DELIM];
    ConcatAssoc(open + inner, [FRAME_DELIM], rest);
    ConcatAssoc(open, inner, tail);
    DelimCountConcat(pre, [FRAME_DELIM]);
    assert DelimCount([FRAME_DELIM]) == 1;
    FramesSplit(open, inner + tail);
    DropNoise(inner, tail);
  }
}
