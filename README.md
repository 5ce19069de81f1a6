# zinc_cube: APA106 LED cube encoder and frame buffer

A model of the firmware that drives a 4x4x4 cube of APA106 one-wire RGB LEDs
from a microcontroller's SPI port. Each LED colour is three 8-bit channels. The
firmware gamma-corrects every channel through a 256-entry table and expands
each of the 24 resulting bits into one SPI byte. A 1 becomes `0b1111_1100`
and a 0 becomes `0b1100_0000`, so the port's output has the pulse widths the
LEDs expect. The channels go out red, green, blue, each most significant bit
first.

`Cube4` holds a frame of 64 colours. `new` fills it with a dim green, `fill`
sets every voxel, `set_at_index` sets one, and `flush` sends all 64 voxels in
index order. The main loop scrolls a rainbow through the cube. On each tick,
voxel `i` gets `wheel(4*i + counter)`, and then the frame is flushed.

Modules, one per concern:

- `Led` (`led.dfy`): the colour value type and `WARM_WHITE`.
- `GammaMap` (`gamma.dfy`): the gamma table, its shape and its monotonicity.
- `Encoder` (`encoder.dfy`): `bit_is_set`, `colour_to_raw` and a decoder
  (`DecodeColour`), with round-trip proofs in both directions.
- `Cube` (`cube.dfy`): the SPI port as an append-only byte log, the `Cube4`
  class, and the byte stream of a whole frame with its decoder.
- `Firmware` (`firmware.dfy`): `wheel`, one tick of the main loop, and the
  start-up sequence.

The SPI port is a class whose only state is the sequence of bytes written to
it. `flush` is specified by the exact bytes it appends to that log.

## Model

| member | source | states |
|---|---|---|
| Led.ChannelsDetermineColour | src/apa106led.rs:1-6 | Two colours are equal exactly when their red, green and blue channels are equal: a colour is its three 8-bit channels and carries no other state. |
| GammaMap.GammaTable | src/cube.rs:6-33 | The table has 256 entries, maps 0 to 0 and 255 to 255, and never decreases from one entry to the next. |
| GammaMap.GammaTableBelow | src/cube.rs:6-33 | The table has 256 entries and entry `v` is never above `v`: the curve lies on or below the identity. |
| GammaMap.GammaMonotone | src/cube.rs:6-33 | Gamma correction preserves order: a brighter channel value never becomes dimmer than a darker one. |
| GammaMap.Gamma | src/cube.rs:81-83 | Correcting a channel never makes it brighter: the corrected value is at most the input. |
| GammaMap.GammaIsLookup | src/cube.rs:80-84 | Correcting a channel value `v` gives table entry `v`; every `u8` indexes the table in bounds. |
| Encoder.BitIsSet | src/cube.rs:72-74 | `bit_is_set(byte, i)` holds exactly when bit `i` of the byte, counted from the least significant, is 1: `(byte / 2^i) % 2 == 1`. |
| Encoder.GammaCorrected | src/cube.rs:80-84 | Each of red, green and blue is corrected on its own, and none comes out brighter than it went in. |
| Encoder.BitIsSetIsMask | src/cube.rs:72-74 | For bit index 0 to 7, `bit_is_set(b, i)` holds exactly when `(b / 2^i) % 2 == 1`, and exactly when `b & (1 << i)` is nonzero in 8-bit arithmetic. |
| Encoder.Raw | src/cube.rs:76-96 | The encoding of any colour is exactly 24 bytes long. |
| Encoder.ColourToRaw | src/cube.rs:76-96 | Returns the 24 pulse bytes of the gamma-corrected colour: the bytes of red, then green, then blue, each most significant bit first. |
| Encoder.ExpandBits | src/cube.rs:86-95 | The loop over bit positions 0 to 7 writes, for each channel, the pulse for bit `pos` at byte `7 - pos` of that channel's group of 8. Together the writes produce the full 24-byte encoding. |
| Encoder.RawLayout | src/cube.rs:86-93 | Byte `8*ch + k` of the encoding is `ON_BYTE` exactly when bit `7 - k` of the gamma-corrected channel `ch` is 1, and `OFF_BYTE` exactly when it is 0. |
| Encoder.RawPulsesOnly | src/cube.rs:76-95 | The encoding is 24 bytes, and every one of them is `ON_BYTE` or `OFF_BYTE`. |
| Encoder.ChannelRoundTrip | src/cube.rs:86-93 | Reading the 8 bytes of one channel most significant bit first, with ON as 1 and OFF as 0, gives back the channel value. |
| Encoder.ChannelDecodeSound | src/cube.rs:86-93 | Any 8 bytes that decode to a value `v` are exactly the 8 bytes that encode `v`. |
| Encoder.PulsesRoundTrip | src/cube.rs:86-93 | Decoding the 24 bytes of a colour recovers the colour, with the channels in red, green, blue order. |
| Encoder.DecodeColourSound | src/cube.rs:86-93 | Any 24 bytes that decode to a colour are exactly that colour's encoding, so no two colours share an encoding. |
| Encoder.RawRoundTrip | src/cube.rs:80-93 | Decoding what `colour_to_raw` emits gives back the gamma-corrected input colour, channel by channel. |
| Encoder.WarmWhiteCorrected | src/apa106led.rs:8-12 | `WARM_WHITE` (255, 183, 76) is sent as (255, 110, 16) after gamma correction. |
| Cube.Spi.Write | src/cube.rs:66 | Writing a byte appends it to the port's output log and changes nothing else. |
| Cube.FrameBytes | src/cube.rs:63-69 | The bytes for a frame are 24 per voxel. |
| Cube.FrameBytesWire | src/cube.rs:63-69 | Sending a frame sends the wire bytes of its gamma-corrected colours, voxel by voxel. |
| Cube.WireChunk | src/cube.rs:63-69 | Bytes `24*i` up to `24*i + 24` of the output are exactly the encoding of voxel `i`. |
| Cube.WireRoundTrip | src/cube.rs:63-69 | Decoding the wire bytes of a sequence of colours gives back that sequence, in order. |
| Cube.DecodeFrameSound | src/cube.rs:63-69 | A byte stream that decodes to a sequence of colours is exactly the wire bytes of those colours. |
| Cube.FrameRoundTrip | src/cube.rs:63-69 | Decoding everything `flush` sends gives back the frame with each voxel gamma corrected. |
| Cube.VoxelDecodes | src/cube.rs:63-69 | The 24 bytes sent for voxel `i` decode to the gamma-corrected colour of voxel `i`. |
| Cube.Cube4.constructor | src/cube.rs:45-53 | A new cube keeps the given SPI port, owns a fresh 64-voxel frame, and every voxel is (0, 5, 0), a dim green rather than black. |
| Cube.Cube4.Fill | src/cube.rs:55-57 | Afterwards every one of the 64 voxels equals the fill colour. |
| Cube.Cube4.SetAtIndex | src/cube.rs:59-61 | Requires an index below 64. Afterwards voxel `index` is the new colour and every other voxel keeps its old colour. |
| Cube.Cube4.SendRaw | src/cube.rs:65-67 | The inner loop of `flush` appends the given bytes to the port's log, in order. |
| Cube.Cube4.Flush | src/cube.rs:63-69 | Appends exactly 64 x 24 = 1536 bytes to the port's log: the encodings of voxels 0 to 63 in order. The frame is left unchanged. |
| Firmware.Wheel | src/main.rs:81-95 | In every output one channel is 0 and the three channels sum to 255. Every intermediate product and difference stays within `u8`, so no branch wraps or overflows. |
| Firmware.WheelLandmarks | src/main.rs:81-95 | Position 0 is (0, 255, 0), 85 is (255, 0, 0), 170 is (0, 0, 255), and 255 gives the same colour as 0. |
| Firmware.WheelPositionInverts | src/main.rs:81-95 | Every position from 0 to 254 can be recovered from its colour by an independent inverse. |
| Firmware.WheelCollisions | src/main.rs:81-95 | Two positions give the same colour only if they are equal or are 0 and 255. |
| Firmware.WheelSmooth | src/main.rs:81-95 | One step along the wheel changes no channel by more than 3, including the step from 255 back to 0. |
| Firmware.LowByte | src/main.rs:121 | `counter as u8` is congruent to the counter modulo 256. |
| Firmware.RainbowPosition | src/main.rs:121 | Voxel `index` sits at wheel position `(4*index + counter) mod 256`, with the sum taken in wrapping `u8` arithmetic. |
| Firmware.RainbowPositionSum | src/main.rs:121 | The position is the plain sum `4*index + counter as u8`, or that sum less 256 once it passes 255. |
| Firmware.Wrap16 | src/main.rs:126 | Reduces a sum into the `i16` range and agrees with it modulo 65536, as a wrapping 16-bit add does. |
| Firmware.RainbowFrame | src/main.rs:120-122 | The frame built on one tick has 64 voxels. |
| Firmware.RainbowSpacing | src/main.rs:121 | Each voxel is four wheel steps after the previous one, wrapping at 256. |
| Firmware.RainbowAdvances | src/main.rs:120-126 | Each tick moves every voxel one step along the wheel. This includes a wrapping `i16` counter going from 32767 to -32768. |
| Firmware.RainbowPeriodic | src/main.rs:120-126 | The frame repeats every 256 ticks: for every `i16` counter, the counter 256 ticks later, wrapping at the 16-bit bound, shows the same frame. This holds across the wrap from 32767 to -32768. |
| Firmware.RainbowPositionsApart | src/main.rs:121 | Two different voxels get different wheel positions on the same tick, and never positions 0 and 255 together. |
| Firmware.RainbowDistinct | src/main.rs:120-122 | On every tick, any two different voxels have different colours. |
| Firmware.UpdateFrame | src/main.rs:120-122 | Afterwards voxel `i` is `wheel((4*i + counter as u8) mod 256)` for every `i` from 0 to 63. |
| Firmware.Tick | src/main.rs:120-124 | Builds the rainbow frame for the counter, then appends that frame's 1536 bytes to the port's log. |
| Firmware.Start | src/main.rs:111-115 | Start-up yields a cube on the given port holding 64 red voxels, and the port's log has exactly that frame's bytes appended. |

## Left out

- The `platformtree!` hardware description (src/main.rs:19-79): clocks, pins, the timer and the UART. It is peripheral wiring.
- SPI construction and its 4_678_362 Hz clock (src/main.rs:100-104). The pulse timing the clock implies is physical. The model sees only the bytes handed to the port.
- The `puts` debug line (src/main.rs:106) and the 16 ms `wait_ms` delay (src/main.rs:118). Both are I/O.
- The unbounded main loop (src/main.rs:117-127) and its `counter += 1`. The model has one tick for a given `i16` counter (`Firmware.Tick`). `Firmware.RainbowAdvances` states what the next tick shows, assuming the counter wraps at its 16-bit bound. In a debug build that overflow would panic; the panic is not modelled.
- `Cube.Cube4.SetAtIndex`: requires `index < 64`. The code has no error path for a larger index; Rust's bounds check panics, and the panic is not modelled. This follows the code, which reports no out-of-range error.
- `Firmware.RainbowPosition`: assumes wrapping (release-build) `u8` arithmetic for `index * 4 + counter as u8` at src/main.rs:121. A debug build panics on that overflow as soon as the sum passes 255 (by the fifth tick, voxel 63 gives 252 + 4); the panic is not modelled.
- `Encoder.BitIsSet`: requires a bit index below 8. The code calls it only with 0 to 7, and a larger shift of a `u8` would overflow.
- `Cube.Cube4.Fill`: the code assigns a fresh 64-element array value. The model writes each element of the frame in place. The resulting frame is the same.
- `Cube.Cube4.Flush`: the inner per-byte loop is written as its own method, `SendRaw`. The bytes and their order are the same.
- `Encoder.ColourToRaw`: the gamma step and the bit-expansion loop are two methods. `ExpandBits` holds the loop.
- The `& 255` on the wheel position (src/main.rs:121) leaves any `u8` unchanged and is not written out.
- `GammaMap.Gamma`: finds the entry by stepping along the table rather than by indexing. `GammaMap.GammaIsLookup` proves the two agree. The 256 entries are written as sixteen rows of sixteen, in the same order.
- The reference from `Cube4` to its SPI port is a constant field that may be shared. Rust's lifetime and borrow rules are not modelled.
- Panel, slice and layer fills, nibble-per-bit encoding and floating-point fades are not part of this model; they are not in the source files modelled here.
