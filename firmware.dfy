/** The firmware's animation: the colour wheel, and the start-up and per-tick
    steps of its main loop, which scroll a rainbow through the cube. */
module Firmware {
  import opened Led
  import opened Encoder
  import opened Cube

  /** A signed 16-bit integer, Rust's `i16`: the type of the tick counter. */
  type i16 = x: int | -0x8000 <= x < 0x8000

  /** The colour the cube is filled with at start-up. */
  const RED: Apa106Led := Apa106Led(0xff, 0, 0)

  /** `wheel`: a position on a wheel of 256 steps to a colour. Below 85 red
      rises while green falls; up to 170 red falls while blue rises; beyond,
      blue falls while green rises. The channels always share a total of 255
      between at most two of them. Every product and difference in the body is
      a `u8`, so none of the firmware's 8-bit operations can overflow. */
  function Wheel(wheelPos: u8): (c: Apa106Led)
    ensures c.red + c.green + c.blue == 255
    ensures c.red == 0 || c.green == 0 || c.blue == 0
  {
    if wheelPos < 85 then
      Apa106Led(wheelPos * 3, 255 - wheelPos * 3, 0)
    else if wheelPos < 170 then
      var thingy: u8 := wheelPos - 85;
      Apa106Led(255 - thingy * 3, 0, thingy * 3)
    else
      var thingy: u8 := wheelPos - 170;
      Apa106Led(0, thingy * 3, 255 - thingy * 3)
  }

  /** The three primaries sit a third of the wheel apart, and the wheel ends
      where it began. */
  lemma WheelLandmarks()
    ensures Wheel(0) == Apa106Led(0, 255, 0)
    ensures Wheel(85) == Apa106Led(255, 0, 0)
    ensures Wheel(170) == Apa106Led(0, 0, 255)
    ensures Wheel(255) == Wheel(0)
  {
  }

  /** Where on the wheel a colour lies; undoes `Wheel` on positions 0 to 254. */
  function WheelPosition(c: Apa106Led): u8
  {
    if c.blue == 0 && c.red < 255 then c.red / 3
    else if c.green == 0 then 85 + c.blue / 3
    else 170 + c.green / 3
  }

  /** Every position but the last is recovered from its colour. */
  lemma WheelPositionInverts(p: u8)
    requires p < 255
    ensures WheelPosition(Wheel(p)) == p
  {
  }

  /** Two positions show the same colour only if they are equal, or are the
      two ends 0 and 255 of the wheel. */
  lemma WheelCollisions(p: u8, q: u8)
    requires Wheel(p) == Wheel(q)
    ensures p == q || (p == 0 && q == 255) || (p == 255 && q == 0)
  {
    if p < 255 && q < 255 {
      WheelPositionInverts(p);
      WheelPositionInverts(q);
    } else if p < 255 {
      WheelLandmarks();
      WheelPositionInverts(p);
    } else if q < 255 {
      WheelLandmarks();
      WheelPositionInverts(q);
    }
  }

  /** Distance between two channel values. */
  function Gap(a: u8, b: u8): nat
  {
    if a <= b then b - a else a - b
  }

  /** One step along the wheel moves no channel by more than 3, so the
      animation fades rather than jumps; that includes the step from 255 back
      to 0. */
  lemma WheelSmooth(p: u8)
    ensures var q: u8 := (p + 1) % 256;
      Gap(Wheel(p).red, Wheel(q).red) <= 3 &&
      Gap(Wheel(p).green, Wheel(q).green) <= 3 &&
      Gap(Wheel(p).blue, Wheel(q).blue) <= 3
  {
  }

  /** `counter as u8`: the low byte of the two's-complement counter. */
  function LowByte(counter: i16): (b: u8)
    ensures (b - counter) % 256 == 0
  {
    counter % 256
  }

  /** The wheel position voxel `index` shows on the tick with counter
      `counter`: four times the index plus the counter's low byte. The sum is
      taken in wrapping `u8` arithmetic, as a release build does; a debug build
      would stop with an overflow panic once the sum passes 255, which is not
      modelled. The firmware's `& 255` leaves a `u8` unchanged and is not
      written out. */
  function RainbowPosition(index: nat, counter: i16): (p: u8)
    requires index < VOXELS
    ensures p == (4 * index + counter) % 256
  {
    (index * 4 + LowByte(counter)) % 256
  }

  /** The frame one tick of the main loop builds. */
  function RainbowFrame(counter: i16): (f: seq<Apa106Led>)
    ensures |f| == VOXELS
  {
    seq(VOXELS, i requires 0 <= i < VOXELS => Wheel(RainbowPosition(i, counter)))
  }

  /** Each voxel is four steps along the wheel from the one before it. */
  lemma RainbowSpacing(counter: i16, i: nat)
    requires i + 1 < VOXELS
    ensures RainbowPosition(i + 1, counter) == (RainbowPosition(i, counter) + 4) % 256
  {
  }

  /** Each tick moves every voxel one step along the wheel, and the step from
      32767 to -32768, where a wrapping `i16` counter overflows, is no
      different from any other. */
  lemma RainbowAdvances(counter: i16, i: nat)
    requires i < VOXELS
    ensures var next: i16 := if counter == 0x7fff then -0x8000 else counter + 1;
      RainbowPosition(i, next) == (RainbowPosition(i, counter) + 1) % 256
  {
    var next: i16 := if counter == 0x7fff then -0x8000 else counter + 1;
    var x: int := LowByte(counter);
    var y: int := LowByte(next);
    assert y == (x + 1) % 256 by {
      if counter != 0x7fff {
        assert counter == 256 * (counter / 256) + x;
        assert next == 256 * (counter / 256) + x + 1;
      }
    }
    // Both sides are 4 * i + x + 1 less a multiple of 256 that keeps them in 0..255.
    var s: int := 4 * i + x + 1;
    assert RainbowPosition(i, next) == if s < 256 then s else if s < 512 then s - 256 else s - 512;
    assert RainbowPosition(i, counter) == if s - 1 < 256 then s - 1 else s - 257;
  }

  /** `x` reduced into the `i16` range, as a wrapping 16-bit add does. */
  function Wrap16(x: int): (r: i16)
    ensures (r - x) % 0x10000 == 0
  {
    (x + 0x8000) % 0x10000 - 0x8000
  }

  /** The pattern repeats every 256 ticks, also across the counter's wrap
      from 32767 to -32768. */
  lemma RainbowPeriodic(counter: i16)
    ensures RainbowFrame(Wrap16(counter + 256)) == RainbowFrame(counter)
  {
    var later := Wrap16(counter + 256);
    assert LowByte(later) == LowByte(counter);
    assert forall i :: 0 <= i < VOXELS ==> RainbowPosition(i, later) == RainbowPosition(i, counter);
  }

  /** A voxel's position is the plain sum of four times its index and the
      counter's low byte, or that sum less 256 when it passes 255. */
  lemma RainbowPositionSum(index: nat, counter: i16)
    requires index < VOXELS
    ensures var s := 4 * index + LowByte(counter);
      RainbowPosition(index, counter) == if s < 256 then s else s - 256
  {
  }

  /** Two different voxels sit at different wheel positions, and never at the
      two ends 0 and 255 of the wheel: their positions differ by four times
      the difference of their indices, less 256 when only one of them wraps. */
  lemma RainbowPositionsApart(counter: i16, i: nat, j: nat)
    requires i < j < VOXELS
    ensures RainbowPosition(i, counter) != RainbowPosition(j, counter)
    ensures var p, q := RainbowPosition(i, counter), RainbowPosition(j, counter);
      !(p == 0 && q == 255) && !(p == 255 && q == 0)
  {
    RainbowPositionSum(i, counter);
    RainbowPositionSum(j, counter);
    var p: int := RainbowPosition(i, counter);
    var q: int := RainbowPosition(j, counter);
    assert q - p == 4 * (j - i) || q - p == 4 * (j - i) - 256;
  }

  /** On every tick the 64 voxels show 64 different colours. */
  lemma RainbowDistinct(counter: i16, i: nat, j: nat)
    requires i < j < VOXELS
    ensures RainbowFrame(counter)[i] != RainbowFrame(counter)[j]
  {
    var p := RainbowPosition(i, counter);
    var q := RainbowPosition(j, counter);
    RainbowPositionsApart(counter, i, j);
    if Wheel(p) == Wheel(q) {
      WheelCollisions(p, q);
      assert false;
    }
  }

  /** Lines 120-122 of the main loop: every voxel, in index order, takes its
      colour on the rainbow for this tick. */
  method UpdateFrame(cube: Cube4, counter: i16)
    requires cube.Valid()
    modifies cube.cubeFrame
    ensures cube.Frame() == RainbowFrame(counter)
  {
    for index := 0 to VOXELS
      invariant forall k :: 0 <= k < index ==> cube.Frame()[k] == Wheel(RainbowPosition(k, counter))
    {
      cube.SetAtIndex(index, Wheel(RainbowPosition(index, counter)));
    }
  }

  /** One pass of the main loop after its delay: build the rainbow frame for
      this tick and send it. */
  method Tick(cube: Cube4, counter: i16)
    requires cube.Valid()
    modifies cube.cubeFrame, cube.spi
    ensures cube.Frame() == RainbowFrame(counter)
    ensures cube.spi.written == old(cube.spi.written) + FrameBytes(RainbowFrame(counter))
  {
    UpdateFrame(cube, counter);
    cube.Flush();
  }

  /** Start-up: a new cube over `spi`, filled red and sent once. */
  method Start(spi: Spi) returns (cube: Cube4)
    modifies spi
    ensures cube.Valid() && cube.spi == spi && fresh(cube.cubeFrame)
    ensures cube.Frame() == Uniform(RED)
    ensures spi.written == old(spi.written) + FrameBytes(Uniform(RED))
  {
    cube := new Cube4(spi);
    cube.Fill(RED);
    cube.Flush();
  }
}
