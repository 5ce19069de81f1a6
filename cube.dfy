/** The 4x4x4 cube of APA106 LEDs: a frame of 64 colours held in place and
    shifted out to the chain of LEDs one byte at a time over SPI. */
module Cube {
  import opened Led
  import opened GammaMap
  import opened Encoder

  /** The SPI transmitter, seen only through the bytes it has been handed.
      Clock rate, pins and timing belong to the peripheral and are not modelled. */
  class Spi {
    var written: seq<u8>

    constructor ()
      ensures written == []
    {
      written := [];
    }

    method Write(b: u8)
      modifies this
      ensures written == old(written) + [b]
    {
      written := written + [b];
    }
  }

  /** Number of voxels in the cube (four layers of four by four). */
  const VOXELS: nat := 64

  /** Bytes on the wire per frame: 24 for each voxel. */
  const FRAME_LEN: nat := VOXELS * RAW_LEN

  /** The colour every voxel gets on construction: a dim green. */
  const BLANK: Apa106Led := Apa106Led(0, 0x05, 0)

  /** A frame with every voxel the same colour. */
  function Uniform(c: Apa106Led): (f: seq<Apa106Led>)
    ensures |f| == VOXELS
  {
    seq(VOXELS, _ => c)
  }

  /** Everything `flush` sends for a frame: the voxels in index order, each
      encoded by `colour_to_raw`. */
  function FrameBytes(f: seq<Apa106Led>): (r: seq<u8>)
    ensures |r| == RAW_LEN * |f|
  {
    if |f| == 0 then [] else FrameBytes(f[..|f| - 1]) + Raw(f[|f| - 1])
  }

  /** Sending one more voxel appends its encoding. */
  lemma FrameBytesSnoc(f: seq<Apa106Led>, i: nat)
    requires i < |f|
    ensures FrameBytes(f[..i + 1]) == FrameBytes(f[..i]) + Raw(f[i])
  {
    assert f[..i + 1][..i] == f[..i];
  }

  /** Appending is associative; stated on its own so that the proof of `flush`
      need not look inside the bytes being appended. */
  lemma AppendAssoc(a: seq<u8>, b: seq<u8>, c: seq<u8>)
    ensures a + b + c == a + (b + c)
  {
  }

  /** The bytes on the wire for colours that are already gamma corrected. */
  function WireBytes(g: seq<Apa106Led>): (r: seq<u8>)
    ensures |r| == RAW_LEN * |g|
  {
    if |g| == 0 then [] else WireBytes(g[..|g| - 1]) + Pulses(g[|g| - 1])
  }

  /** The colours of frame `f` after gamma correction, voxel by voxel. */
  function CorrectedFrame(f: seq<Apa106Led>): (g: seq<Apa106Led>)
    ensures |g| == |f|
  {
    seq(|f|, i requires 0 <= i < |f| => GammaCorrected(f[i]))
  }

  /** Sending a frame is sending its gamma-corrected colours. */
  lemma {:induction false} FrameBytesWire(f: seq<Apa106Led>)
    ensures FrameBytes(f) == WireBytes(CorrectedFrame(f))
  {
    if |f| > 0 {
      var init := f[..|f| - 1];
      FrameBytesWire(init);
      var g := CorrectedFrame(f);
      assert g[..|g| - 1] == CorrectedFrame(init);
    }
  }

  /** Colour `i` occupies bytes `24*i` up to `24*i + 24`, and they are its pulses. */
  lemma {:induction false} WireChunk(g: seq<Apa106Led>, i: nat)
    requires i < |g|
    ensures |WireBytes(g)| == RAW_LEN * |g|
    ensures WireBytes(g)[RAW_LEN * i .. RAW_LEN * i + RAW_LEN] == Pulses(g[i])
  {
    var init := g[..|g| - 1];
    if i < |g| - 1 {
      WireChunk(init, i);
      assert init[i] == g[i];
    }
  }

  /** Reads a byte stream back as a sequence of colours, 24 bytes each; `None`
      when the length is not a whole number of colours or a byte is not a pulse. */
  function DecodeFrame(bs: seq<u8>): (r: Option<seq<Apa106Led>>)
    ensures r.Some? ==> RAW_LEN * |r.value| == |bs|
    decreases |bs|
  {
    if |bs| == 0 then Some([])
    else if |bs| < RAW_LEN then None
    else
      match (DecodeFrame(bs[..|bs| - RAW_LEN]), DecodeColour(bs[|bs| - RAW_LEN..]))
      case (Some(init), Some(last)) => Some(init + [last])
      case _ => None
  }

  /** Decoding the wire bytes gives back every colour, in order. */
  lemma {:induction false} WireRoundTrip(g: seq<Apa106Led>)
    ensures DecodeFrame(WireBytes(g)) == Some(g)
  {
    if |g| > 0 {
      var init := g[..|g| - 1];
      var last := g[|g| - 1];
      var bs := WireBytes(g);
      assert bs[..|bs| - RAW_LEN] == WireBytes(init);
      assert bs[|bs| - RAW_LEN..] == Pulses(last);
      WireRoundTrip(init);
      PulsesRoundTrip(last);
      assert g == init + [last];
    }
  }

  /** A stream that decodes to `g` is exactly the wire bytes of `g`: no other
      stream reads as the same colours. */
  lemma {:induction false} DecodeFrameSound(bs: seq<u8>, g: seq<Apa106Led>)
    requires DecodeFrame(bs) == Some(g)
    ensures bs == WireBytes(g)
    decreases |bs|
  {
    if |bs| > 0 {
      var head := bs[..|bs| - RAW_LEN];
      var tail := bs[|bs| - RAW_LEN..];
      var init := DecodeFrame(head).value;
      var last := DecodeColour(tail).value;
      assert g == init + [last];
      assert g[..|g| - 1] == init;
      DecodeFrameSound(head, init);
      DecodeColourSound(tail, last);
      assert bs == head + tail;
    }
  }

  /** Decoding everything `flush` sends gives back the frame, gamma corrected. */
  lemma FrameRoundTrip(f: seq<Apa106Led>)
    ensures DecodeFrame(FrameBytes(f)) == Some(CorrectedFrame(f))
  {
    FrameBytesWire(f);
    WireRoundTrip(CorrectedFrame(f));
  }

  /** The 24 bytes `flush` sends for voxel `i` decode to its gamma-corrected colour. */
  lemma VoxelDecodes(f: seq<Apa106Led>, i: nat)
    requires i < |f|
    ensures |FrameBytes(f)| == RAW_LEN * |f|
    ensures DecodeColour(FrameBytes(f)[RAW_LEN * i .. RAW_LEN * i + RAW_LEN]) == Some(GammaCorrected(f[i]))
  {
    FrameBytesWire(f);
    WireChunk(CorrectedFrame(f), i);
    PulsesRoundTrip(GammaCorrected(f[i]));
  }

  /** The cube: the SPI port it writes to and the frame it holds. */
  class Cube4 {
    const spi: Spi
    const cubeFrame: array<Apa106Led>

    ghost predicate Valid()
    {
      cubeFrame.Length == VOXELS
    }

    /** The colours currently held, voxel 0 first. */
    function Frame(): seq<Apa106Led>
      reads cubeFrame
    {
      cubeFrame[..]
    }

    /** A new cube sends nothing and holds the blank frame. */
    constructor (spi: Spi)
      ensures Valid() && fresh(cubeFrame)
      ensures this.spi == spi
      ensures Frame() == Uniform(BLANK)
    {
      this.spi := spi;
      cubeFrame := new Apa106Led[VOXELS](_ => BLANK);
    }

    /** Every voxel takes the colour `fillColour`. */
    method Fill(fillColour: Apa106Led)
      requires Valid()
      modifies cubeFrame
      ensures Frame() == Uniform(fillColour)
    {
      forall i | 0 <= i < cubeFrame.Length {
        cubeFrame[i] := fillColour;
      }
    }

    /** Voxel `index` takes the colour `colour`; the others keep theirs. */
    method SetAtIndex(index: nat, colour: Apa106Led)
      requires Valid() && index < VOXELS
      modifies cubeFrame
      ensures Frame() == old(Frame())[index := colour]
    {
      cubeFrame[index] := colour;
    }

    /** The inner loop of `flush`: hands the bytes to the SPI port one at a
        time, in order. */
    method SendRaw(raw: seq<u8>)
      modifies spi
      ensures spi.written == old(spi.written) + raw
    {
      for j := 0 to |raw|
        invariant spi.written == old(spi.written) + raw[..j]
      {
        spi.Write(raw[j]);
        assert raw[..j + 1] == raw[..j] + [raw[j]];
      }
      assert raw[..|raw|] == raw;
    }

    /** Sends the whole frame: voxel by voxel, the 24 bytes of each in order.
        The frame itself is left as it was. */
    method Flush()
      requires Valid()
      modifies spi
      ensures spi.written == old(spi.written) + FrameBytes(Frame())
      ensures |spi.written| == |old(spi.written)| + FRAME_LEN
    {
      ghost var frame := Frame();
      for i := 0 to cubeFrame.Length
        invariant spi.written == old(spi.written) + FrameBytes(frame[..i])
      {
        var led := cubeFrame[i];
        var raw := ColourToRaw(led);
        SendRaw(raw);
        FrameBytesSnoc(frame, i);
        AppendAssoc(old(spi.written), FrameBytes(frame[..i]), raw);
      }
      assert frame[..cubeFrame.Length] == frame;
    }
  }
}
