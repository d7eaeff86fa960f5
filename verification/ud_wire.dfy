/**
 * unix_domain/lib/ud_proto.cpp: one flipped bit of a frame on the wire, its delimiters included, as the scanner
 * and the decoder together see it.
 */
module UdWire {
  import opened Bytes
  import opened UdProto
  import opened UdStream
  import opened UdErrors

  lemma FewDelimiters(s: bytes)
    requires DelimCount(s) < 2
    ensures Frames(s) == []
  {
    if FoundFrame(s).Ok? {
      var noise, f, later := SplitFound(s);
    }
  }

  lemma OneFrame(f: bytes, rest: bytes)
    requires Delimited(f) && DelimCount(rest) < 2
    ensures Frames(f + rest) == [f]
  {
    FramesStep([], f, rest);
    assert [] + f == f && [f] + [] == [f];
    FewDelimiters(rest);
  }

  lemma CountParts(a: bytes, b: byte, rest: bytes)
    ensures DelimCount(a + [b] + rest) == DelimCount(a) + (if b == FRAME_DELIM then 1 else 0) + DelimCount(rest)
  {
    DelimCountConcat(a + [b], rest);
    DelimCountConcat(a, [b]);
    assert [b][1..] == [];
  }

  /** A frame's bytes, the struck one apart. */
  lemma StruckEnd(raw: bytes, c: byte)
    requires c != FRAME_DELIM
    ensures Frames([c] + Stuffed(raw) + [FRAME_DELIM]) == []
    ensures Frames([FRAME_DELIM] + Stuffed(raw) + [c]) == []
  {
    var x := Stuffed(raw);
    StuffedDelimFree(raw);
    DelimFreeCount(x);
    CountParts([], c, x + [FRAME_DELIM]);
    CountParts(x, FRAME_DELIM, []);
    CountParts([], FRAME_DELIM, x + [c]);
    CountParts(x, c, []);
    assert [] + [c] + (x + [FRAME_DELIM]) == [c] + x + [FRAME_DELIM] && x + [FRAME_DELIM] + [] == x + [FRAME_DELIM];
    assert [] + [FRAME_DELIM] + (x + [c]) == [FRAME_DELIM] + x + [c] && x + [c] + [] == x + [c];
    FewDelimiters([c] + x + [FRAME_DELIM]);
    FewDelimiters([FRAME_DELIM] + x + [c]);
  }

  lemma StruckInside(x: bytes, k: nat, c: byte)
    requires DelimFree(x) && k < |x|
    ensures Frames([FRAME_DELIM] + x[k := c] + [FRAME_DELIM]) ==
      if c == FRAME_DELIM then [[FRAME_DELIM] + x[..k] + [FRAME_DELIM]]
      else [[FRAME_DELIM] + x[k := c] + [FRAME_DELIM]]
  {
    var g := [FRAME_DELIM] + x[k := c] + [FRAME_DELIM];
    if c == FRAME_DELIM {
      var head, rest := [FRAME_DELIM] + x[..k] + [FRAME_DELIM], x[k + 1..] + [FRAME_DELIM];
      assert g == head + rest;
      assert head[1..|head| - 1] == x[..k];
      DelimFreeCount(x[k + 1..]);
      CountParts(x[k + 1..], FRAME_DELIM, []);
      assert x[k + 1..] + [FRAME_DELIM] + [] == rest;
      OneFrame(head, rest);
    } else {
      assert g[1..|g| - 1] == x[k := c];
      OneFrame(g, []);
      assert g + [] == g;
    }
  }

  // ----- a frame cut short

  /** Stuffed data cut short unstuffs to a shorter payload, or not at all inside an escape. */
  lemma CutStuffed(raw: bytes, k: nat) returns (n: nat)
    requires k < |Stuffed(raw)|
    ensures n < |raw|
    ensures Destuffed(Stuffed(raw)[..k]) == Ok(raw[..n]) || Destuffed(Stuffed(raw)[..k]) == Err(InvalidFrame)
  {
    var j;
    n, j := Locate(raw, k, 0);
    StuffedAround(raw, n);
    var a, z := Stuffed(raw[..n]), StuffedByte(raw[n]);
    assert Stuffed(raw)[..k] == a + z[..j];
    DestuffedAfter(raw[..n], z[..j]);
    if j == 0 {
      assert z[..j] == [] && raw[..n] + [] == raw[..n];
    } else {
      assert z[..j] == [ESCAPE_BYTE];
    }
  }

  /** A payload cut short is refused, because its length field says so. */
  lemma CutRejected(raw: bytes, n: nat)
    requires |raw| >= MIN_PAYLOAD && At32(raw, 0) == ToU32(|raw|) && n < |raw| < 0x1_0000_0000
    ensures CheckedPayload(raw[..n]).Err?
  {
    ExactWord(|raw|);
    ExactWord(n);
    if n >= MIN_PAYLOAD {
      SameLengthField(raw, raw[..n]);
    }
  }

  lemma ExactWord(n: nat)
    requires n < 0x1_0000_0000
    ensures ToU32(n) == n
  {
  }

  lemma SameLengthField(p: bytes, q: bytes)
    requires 4 <= |q| <= |p| && q <= p
    ensures At32(q, 0) == At32(p, 0)
  {
    assert forall i :: 0 <= i < 4 ==> q[i] == p[i];
  }

  lemma ForgedDelimiterRejected(raw: bytes, k: nat)
    requires CheckedPayload(raw).Ok? && |raw| < 0x1_0000_0000 && k < |Stuffed(raw)|
    ensures ExtractedPayload([FRAME_DELIM] + Stuffed(raw)[..k] + [FRAME_DELIM]).Err?
  {
    var n := CutStuffed(raw, k);
    CutRejected(raw, n);
    FrameAround(Stuffed(raw)[..k]);
  }

  // ----- the verdict

  /** The frames found after one byte of a frame has been struck. */
  lemma FramesAfterFlip(raw: bytes, i: nat, c: byte)
    requires i < |Framed(raw)| && OneBit(Framed(raw)[i], c)
    ensures Frames(Framed(raw)[i := c]) ==
      if i == 0 || i == |Framed(raw)| - 1 then []
      else if c == FRAME_DELIM then [[FRAME_DELIM] + Stuffed(raw)[..i - 1] + [FRAME_DELIM]]
      else [[FRAME_DELIM] + Stuffed(raw)[i - 1 := c] + [FRAME_DELIM]]
  {
    var f, x := Framed(raw), Stuffed(raw);
    SelfApart(c);
    StuffedDelimFree(raw);
    if i == 0 {
      assert f[i := c] == [c] + x + [FRAME_DELIM];
      StruckEnd(raw, c);
    } else if i == |f| - 1 {
      assert f[i := c] == [FRAME_DELIM] + x + [c];
      StruckEnd(raw, c);
    } else {
      assert f[i := c] == [FRAME_DELIM] + x[i - 1 := c] + [FRAME_DELIM];
      StruckInside(x, i - 1, c);
    }
  }

  lemma StruckByte(raw: bytes, i: nat)
    requires 0 < i < |Framed(raw)| - 1
    ensures i - 1 < |Stuffed(raw)| && Framed(raw)[i] == Stuffed(raw)[i - 1]
  {
  }

  /** The low length byte is not a delimiter's neighbour at the end. */
  lemma EndNeverSlips(raw: bytes, i: nat, c: byte)
    requires |raw| >= MIN_PAYLOAD && (i == 0 || i == |Framed(raw)| - 1)
    ensures !(i > 0 && Slips(raw, i - 1, c))
  {
    StuffedGrows(raw, 3, |raw|);
    assert raw[..|raw|] == raw;
  }

  /**
   * A valid frame with one bit flipped anywhere, delimiters included. A struck end leaves no frame at all; a
   * forged delimiter cuts the frame, and what is left is refused; and among the rest one flip alone can pass.
   */
  lemma OneFlippedFrameBit(raw: bytes, i: nat, c: byte)
    requires CheckedPayload(raw).Ok? && |raw| < 0x1_0000_0000 && i < |Framed(raw)| && OneBit(Framed(raw)[i], c)
    ensures SomeAccepted(Frames(Framed(raw)[i := c])) <==> i > 0 && Slips(raw, i - 1, c)
  {
    var fs := Frames(Framed(raw)[i := c]);
    if i == 0 || i == |Framed(raw)| - 1 {
      assert fs == [] by { FramesAfterFlip(raw, i, c); }
      EndNeverSlips(raw, i, c);
    } else {
      StruckByte(raw, i);
      if c == FRAME_DELIM {
        var f := [FRAME_DELIM] + Stuffed(raw)[..i - 1] + [FRAME_DELIM];
        assert fs == [f] by { FramesAfterFlip(raw, i, c); }
        assert ExtractedPayload(f).Err? by { ForgedDelimiterRejected(raw, i - 1); }
        OnlyOne(f);
        assert !Slips(raw, i - 1, c);
      } else {
        var f := [FRAME_DELIM] + Stuffed(raw)[i - 1 := c] + [FRAME_DELIM];
        assert fs == [f] by { FramesAfterFlip(raw, i, c); }
        assert ExtractedPayload(f).Ok? <==> Slips(raw, i - 1, c) by { OneFlippedBit(raw, i - 1, c); }
        OnlyOne(f);
      }
    }
  }

  predicate SomeAccepted(fs: seq<bytes>) {
    exists i :: 0 <= i < |fs| && ExtractedPayload(fs[i]).Ok?
  }

  lemma OnlyOne(f: bytes)
    ensures SomeAccepted([f]) <==> ExtractedPayload(f).Ok?
  {
    assert [f][0] == f;
  }
}
