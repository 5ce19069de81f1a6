/** The byte-per-bit encoder: one colour becomes 24 SPI bytes whose pulse
    shapes reproduce the APA106 one-wire bit timing. */
module Encoder {
  import opened Led
  import opened GammaMap

  datatype Option<T> = None | Some(value: T)

  /** SPI byte for a logical 1: long high, short low (0b1111_1100). */
  const ON_BYTE: u8 := 0xFC
  /** SPI byte for a logical 0: short high, long low (0b1100_0000). */
  const OFF_BYTE: u8 := 0xC0

  /** Bytes emitted per colour: 8 bits for each of 3 channels. */
  const RAW_LEN: nat := 24

  function Pow2(k: nat): (r: nat)
    ensures r > 0
  {
    if k == 0 then 1 else 2 * Pow2(k - 1)
  }

  /** `v` shifted right by `k` places: halved `k` times. */
  function Shr(v: nat, k: nat): nat
  {
    if k == 0 then v else Shr(v, k - 1) / 2
  }

  /** Bit `k` of `v`: the reference meaning of a bit. */
  function Bit(v: nat, k: nat): nat
  {
    Shr(v, k) % 2
  }

  /** `bit_is_set`: whether bit `bitIndex` of `byte` is 1. */
  predicate BitIsSet(byte: u8, bitIndex: nat)
    requires bitIndex < 8
    ensures BitIsSet(byte, bitIndex) <==> (byte / Pow2(bitIndex)) % 2 == 1
  {
    ShrByte(byte);
    Pow2Byte();
    Bit(byte, bitIndex) == 1
  }

  /** Shifting a byte right is dividing it by a power of two; after eight
      places nothing is left. */
  lemma ShrByte(b: u8)
    ensures Shr(b, 1) == b / 2 && Shr(b, 2) == b / 4 && Shr(b, 3) == b / 8
    ensures Shr(b, 4) == b / 16 && Shr(b, 5) == b / 32 && Shr(b, 6) == b / 64
    ensures Shr(b, 7) == b / 128 && Shr(b, 8) == 0
  {
    assert Shr(b, 1) == b / 2;
    assert Shr(b, 2) == b / 4;
    assert Shr(b, 3) == b / 8;
    assert Shr(b, 4) == b / 16;
    assert Shr(b, 5) == b / 32;
    assert Shr(b, 6) == b / 64;
    assert Shr(b, 7) == b / 128;
  }

  lemma Pow2Byte()
    ensures Pow2(1) == 2 && Pow2(2) == 4 && Pow2(3) == 8 && Pow2(4) == 16
    ensures Pow2(5) == 32 && Pow2(6) == 64 && Pow2(7) == 128 && Pow2(8) == 256
  {
    assert Pow2(4) == 16;
  }

  /** The bit test is bit `i` of the byte read arithmetically, and it is the
      firmware's mask test `byte & (1 << i) != 0` on 8-bit values. */
  lemma BitIsSetIsMask(b: u8, i: nat)
    requires i < 8
    ensures BitIsSet(b, i) <==> (b / Pow2(i)) % 2 == 1
    ensures BitIsSet(b, i) <==> (b as bv8) & ((1 as bv8) << i) != 0
  {
    ShrByte(b);
    Pow2Byte();
    var m := (b as bv8) & ((1 as bv8) << i) != 0;
    if i == 0 { assert m <==> b % 2 == 1; }
    else if i == 1 { assert m <==> (b / 2) % 2 == 1; }
    else if i == 2 { assert m <==> (b / 4) % 2 == 1; }
    else if i == 3 { assert m <==> (b / 8) % 2 == 1; }
    else if i == 4 { assert m <==> (b / 16) % 2 == 1; }
    else if i == 5 { assert m <==> (b / 32) % 2 == 1; }
    else if i == 6 { assert m <==> (b / 64) % 2 == 1; }
    else { assert m <==> (b / 128) % 2 == 1; }
  }

  /** Appending bit `d` below `w` shifts every bit of `w` up by one. */
  lemma {:induction false} ShrShift(w: nat, d: nat, j: nat)
    requires d < 2
    ensures Shr(2 * w + d, j + 1) == Shr(w, j)
  {
    if j > 0 {
      ShrShift(w, d, j - 1);
    }
  }

  /** The byte that carries one logical bit. */
  function PulseFor(bit: bool): u8
  {
    if bit then ON_BYTE else OFF_BYTE
  }

  /** Byte `k` of the 8 bytes for channel value `v`: it carries bit `7 - k`. */
  function PulseAt(v: u8, k: nat): u8
    requires k < 8
  {
    PulseFor(BitIsSet(v, 7 - k))
  }

  /** The 8 bytes for one channel value, most significant bit first. */
  function ChannelPulses(v: u8): seq<u8>
  {
    seq(8, k requires 0 <= k < 8 => PulseAt(v, k))
  }

  /** The 24 bytes for an already gamma-corrected colour: red, green, blue. */
  function Pulses(g: Apa106Led): (r: seq<u8>)
    ensures |r| == RAW_LEN
  {
    ChannelPulses(g.red) + ChannelPulses(g.green) + ChannelPulses(g.blue)
  }

  /** The colour after the gamma table has been applied to each channel; no
      channel comes out brighter than it went in. */
  function GammaCorrected(c: Apa106Led): (g: Apa106Led)
    ensures g.red <= c.red && g.green <= c.green && g.blue <= c.blue
  {
    Apa106Led(Gamma(c.red), Gamma(c.green), Gamma(c.blue))
  }

  /** What `colour_to_raw` returns for a voxel colour. */
  function Raw(c: Apa106Led): (r: seq<u8>)
    ensures |r| == RAW_LEN
  {
    Pulses(GammaCorrected(c))
  }

  /** Byte `8 * ch + k` of the pulses for a colour is byte `k` of channel `ch`. */
  lemma PulsesAt(g: Apa106Led, ch: nat, k: nat)
    requires ch < 3 && k < 8
    ensures |Pulses(g)| == RAW_LEN
    ensures Pulses(g)[8 * ch + k] == PulseAt(Channel(g, ch), k)
  {
  }

  /** `colour_to_raw`: gamma-correct the colour, then expand its bits. */
  method ColourToRaw(input: Apa106Led) returns (bytes: seq<u8>)
    ensures bytes == Raw(input)
  {
    var corrected := Apa106Led(Gamma(input.red), Gamma(input.green), Gamma(input.blue));
    bytes := ExpandBits(corrected);
  }

  /** The loop of `colour_to_raw`: fill a local 24-byte buffer, one bit
      position per pass, each pass filling one byte of each channel. */
  method ExpandBits(corrected: Apa106Led) returns (bytes: seq<u8>)
    ensures bytes == Pulses(corrected)
  {
    var buffer := new u8[RAW_LEN](_ => 0);
    for pos := 0 to 8
      invariant forall j :: 8 - pos <= j < 8 ==> buffer[j] == PulseAt(corrected.red, j)
      invariant forall j :: 8 - pos <= j < 8 ==> buffer[8 + j] == PulseAt(corrected.green, j)
      invariant forall j :: 8 - pos <= j < 8 ==> buffer[16 + j] == PulseAt(corrected.blue, j)
    {
      buffer[7 - pos] := if BitIsSet(corrected.red, pos) then ON_BYTE else OFF_BYTE;
      buffer[8 + (7 - pos)] := if BitIsSet(corrected.green, pos) then ON_BYTE else OFF_BYTE;
      buffer[16 + (7 - pos)] := if BitIsSet(corrected.blue, pos) then ON_BYTE else OFF_BYTE;
      assert buffer[7 - pos] == PulseAt(corrected.red, 7 - pos);
      assert buffer[8 + (7 - pos)] == PulseAt(corrected.green, 7 - pos);
      assert buffer[16 + (7 - pos)] == PulseAt(corrected.blue, 7 - pos);
    }
    bytes := buffer[..];
    forall k | 0 <= k < RAW_LEN
      ensures bytes[k] == Pulses(corrected)[k]
    {
      PulsesAt(corrected, k / 8, k % 8);
    }
  }

  /** Byte `8 * ch + k` of the encoding is `ON_BYTE` exactly when bit `7 - k`
      of gamma-corrected channel `ch` is 1, and `OFF_BYTE` otherwise: channels in
      red, green, blue order, each most significant bit first. */
  lemma RawLayout(c: Apa106Led, ch: nat, k: nat)
    requires ch < 3 && k < 8
    ensures |Raw(c)| == RAW_LEN
    ensures Raw(c)[8 * ch + k] == ON_BYTE <==> Bit(Gamma(Channel(c, ch)), 7 - k) == 1
    ensures Raw(c)[8 * ch + k] == OFF_BYTE <==> Bit(Gamma(Channel(c, ch)), 7 - k) == 0
  {
    PulsesAt(GammaCorrected(c), ch, k);
  }

  /** Every emitted byte is one of the two pulse shapes. */
  lemma RawPulsesOnly(c: Apa106Led)
    ensures |Raw(c)| == RAW_LEN
    ensures forall k :: 0 <= k < RAW_LEN ==> Raw(c)[k] == ON_BYTE || Raw(c)[k] == OFF_BYTE
  {
  }

  /** Which logical bit a byte carries, if it is one of the two pulse shapes. */
  function DecodePulse(b: u8): Option<nat>
  {
    if b == ON_BYTE then Some(1) else if b == OFF_BYTE then Some(0) else None
  }

  /** Read a pulse sequence as a binary number, first byte most significant. */
  function DecodeBits(bs: seq<u8>): (r: Option<nat>)
    ensures r.Some? ==> r.value < Pow2(|bs|)
  {
    if bs == [] then Some(0)
    else
      var high := DecodeBits(bs[..|bs| - 1]);
      var low := DecodePulse(bs[|bs| - 1]);
      if high.Some? && low.Some? then Some(2 * high.value + low.value) else None
  }

  /** Read 24 bytes back as the colour they carry. */
  function DecodeColour(bs: seq<u8>): Option<Apa106Led>
  {
    if |bs| != RAW_LEN then None
    else
      var r, g, b := DecodeBits(bs[..8]), DecodeBits(bs[8..16]), DecodeBits(bs[16..]);
      if r.Some? && g.Some? && b.Some? then
        Pow2Byte();
        Some(Apa106Led(r.value, g.value, b.value))
      else None
  }

  /** Byte `k` of a channel's pulses reads back as bit `7 - k` of the value. */
  lemma PulseDecodes(v: u8, k: nat)
    requires k < 8
    ensures DecodePulse(ChannelPulses(v)[k]) == Some(Bit(v, 7 - k))
  {
  }

  /** The first `n` pulses of a channel read back as its top `n` bits. */
  lemma {:induction false} ChannelPrefixDecodes(v: u8, n: nat)
    requires n <= 8
    ensures DecodeBits(ChannelPulses(v)[..n]) == Some(Shr(v, 8 - n))
  {
    var pulses := ChannelPulses(v);
    if n == 0 {
      ShrByte(v);
      assert pulses[..0] == [];
    } else {
      ChannelPrefixDecodes(v, n - 1);
      var bs := pulses[..n];
      assert bs[..n - 1] == pulses[..n - 1];
      PulseDecodes(v, n - 1);
      assert DecodeBits(bs) == Some(2 * Shr(v, 9 - n) + Bit(v, 8 - n));
    }
  }

  lemma ChannelRoundTrip(v: u8)
    ensures DecodeBits(ChannelPulses(v)) == Some(v)
  {
    ChannelPrefixDecodes(v, 8);
    assert ChannelPulses(v)[..8] == ChannelPulses(v);
  }

  /** A pulse sequence that decodes to `v` carries the bits of `v`, first byte
      most significant. */
  lemma {:induction false} DecodeBitsSound(bs: seq<u8>, v: nat)
    requires DecodeBits(bs) == Some(v)
    ensures forall k :: 0 <= k < |bs| ==> bs[k] == PulseFor(Bit(v, |bs| - 1 - k) == 1)
  {
    if bs != [] {
      var n := |bs| - 1;
      var w := DecodeBits(bs[..n]).value;
      var d := DecodePulse(bs[n]).value;
      DecodeBitsSound(bs[..n], w);
      assert v == 2 * w + d;
      forall k | 0 <= k < |bs|
        ensures bs[k] == PulseFor(Bit(v, |bs| - 1 - k) == 1)
      {
        if k < n {
          ShrShift(w, d, n - 1 - k);
          assert Bit(v, n - k) == Bit(w, n - 1 - k);
          assert bs[k] == bs[..n][k];
        } else {
          assert Bit(v, 0) == d;
        }
      }
    }
  }

  lemma ChannelDecodeSound(bs: seq<u8>, v: u8)
    requires |bs| == 8 && DecodeBits(bs) == Some(v)
    ensures ChannelPulses(v) == bs
  {
    DecodeBitsSound(bs, v);
    forall k | 0 <= k < 8
      ensures ChannelPulses(v)[k] == bs[k]
    {
    }
  }

  /** Decoding undoes encoding: every colour is recovered exactly. */
  lemma PulsesRoundTrip(g: Apa106Led)
    ensures DecodeColour(Pulses(g)) == Some(g)
  {
    var bs := Pulses(g);
    assert bs[..8] == ChannelPulses(g.red);
    assert bs[8..16] == ChannelPulses(g.green);
    assert bs[16..] == ChannelPulses(g.blue);
    ChannelRoundTrip(g.red);
    ChannelRoundTrip(g.green);
    ChannelRoundTrip(g.blue);
  }

  /** Encoding undoes decoding: a stream that decodes to `g` is exactly the
      encoding of `g`, so the encoding of each colour is unique. */
  lemma DecodeColourSound(bs: seq<u8>, g: Apa106Led)
    requires DecodeColour(bs) == Some(g)
    ensures Pulses(g) == bs
  {
    Pow2Byte();
    ChannelDecodeSound(bs[..8], g.red);
    ChannelDecodeSound(bs[8..16], g.green);
    ChannelDecodeSound(bs[16..], g.blue);
    assert bs == bs[..8] + bs[8..16] + bs[16..];
  }

  /** The bytes `colour_to_raw` emits read back as the gamma-corrected colour. */
  lemma RawRoundTrip(c: Apa106Led)
    ensures DecodeColour(Raw(c)) == Some(GammaCorrected(c))
  {
    PulsesRoundTrip(GammaCorrected(c));
  }

  /** Warm white drives the LED at (255, 110, 16) after gamma correction. */
  lemma WarmWhiteCorrected()
    ensures GammaCorrected(WARM_WHITE) == Apa106Led(255, 110, 16)
  {
    GammaIsLookup(255);
    GammaIsLookup(183);
    GammaIsLookup(76);
  }
}
