# gx12-ruchow: wire frame and bar gauge, modelled in Dafny

The program reads the two stick axes of the first connected gamepad (a
Radiomaster transmitter in USB joystick mode) about 60 times a second. It
draws each axis as a text gauge in the terminal. It converts both axes to
`u32` and packs them into an 11-byte frame: `FF FE`, axis A big-endian,
axis B big-endian, `FD`.

This project models the two deterministic parts of `src/main.rs`:

- **Wire frame** (`wire_frame.dfy`, module `WireFrame`). `u32::to_be_bytes`
  is modelled as `ToBeBytes`. The frame array starts as a literal template,
  and a copy loop zips `ramka[2..]` with the chained bytes of A and B.
  These are modelled as `ZipCopy` and `BuildFrame`, which work in place on
  an `array`. `Frame` is the reference layout of the format, and `FromBeBytes`
  is the receiver's big-endian reading of four bytes.
- **Bar gauge** (`bar_gauge.dfy`, module `BarGauge`). `draw_bar` is modelled
  as `DrawBar`, which appends characters to a string in the same six
  counted loops, three per sign-dependent branch. `Bar` is the
  concatenation of runs that it builds. `Cell` is the intended look, given
  position by position.

`u8` and `u32` are bounded integer subset types, so byte-order facts read as
`/` and `%`. `draw_bar` takes a float. The model takes its `fill_count` as a
natural number instead, plus a `negative` flag that stands for
`clamped_val < 0.0`. No precondition is placed on the fill count: the
`saturating_sub` of the source is modelled, and the layout lemmas take
`fillCount <= HalfWidth` as a hypothesis. That bound is what the clamp to
[-1, 1] and the scaling by `half_width` guarantee.

## Model

| member | source | states |
|---|---|---|
| WireFrame.BeBytesRoundTrip | src/main.rs:49-50 | reading the four bytes of `to_be_bytes` back as big-endian gives the original `u32` |
| WireFrame.FromBeBytesOnto | src/main.rs:49-50 | every 4-byte group is `to_be_bytes` of the u32 it decodes to, so the encoding is a bijection and reserves no byte pattern |
| WireFrame.Frame | src/main.rs:67-74 | the frame has 11 bytes, with `FF` at 0, `FE` at 1 and `FD` at 10; bytes 2..5 decode to axis A and bytes 6..9 to axis B |
| WireFrame.FrameByteOrder | src/main.rs:49-50 | most significant byte first: byte 2 is A / 2^24, byte 5 is A mod 256, byte 6 is B / 2^24, byte 9 is B mod 256 |
| WireFrame.FrameInjective | src/main.rs:67-74 | two frames are equal only when both axis values are equal |
| WireFrame.EveryPayloadOccurs | src/main.rs:67-74 | every 8-byte payload, marker values included, occurs in some frame, so markers can appear inside the payload |
| WireFrame.ExtremeFrame | src/main.rs:67-74 | A = 0 and B = 0xFFFFFFFF give `FF FE 00 00 00 00 FF FF FF FF FD` |
| WireFrame.ZipCopy | src/main.rs:69-74 | the zip copies min(room after the offset, source length) bytes; position offset+k gets source byte k; every other position keeps its old value |
| WireFrame.BuildFrame | src/main.rs:49-74 | the template after the copy loop holds exactly `Frame(a, b)`: 8 bytes are written at 2..9, and the markers at 0, 1 and 10 stay untouched |
| BarGauge.DrawBar | src/main.rs:89-136 | the pushed string starts with '[' and ends with ']'; when the fill fits in one half it is 43 characters long and each position is as `Cell` says |
| BarGauge.BarCells | src/main.rs:104-134 | for a fill of at most `HalfWidth`, in both branches, the bar has length 2*20+3 = 43 and matches `Cell` at each position |
| BarGauge.BarCounts | src/main.rs:104-134 | for any fill and sign, the bar holds exactly `fillCount` '=' (none when the fill is 0), one '|', one '[' and one ']' |
| BarGauge.FillPlacement | src/main.rs:106-132 | an index holds '=' iff it is among the `fillCount` cells just left of the centre (negative) or just right of it (non-negative); the opposite half is all spaces |
| BarGauge.CenterMarkerOnce | src/main.rs:108-124 | '|' occurs exactly once, at index `HalfWidth + 1` = 21, in both branches |

## Left out

- Gamepad access: draining `gilrs` events, picking the first gamepad and reading its axes (src/main.rs:16, 27, 30-34). This is a foreign library.
- Terminal output: `crossterm` commands, `println!`, `dbg!`, the hex dump of the frame and `stdout.flush()` (src/main.rs:20-23, 38-47, 52-65, 76, 80). This is output only.
- The endless `loop` and the 16 ms `thread::sleep` (src/main.rs:25, 83). This is scheduling only, with no state to model.
- The float-to-`u32` conversion `((v + 1.0) * 0.5 * (u32::MAX as f32)) as u32` (src/main.rs:49-50). Floating point is not modelled; the frame takes the converted `u32` values as inputs. The code truncates instead of rounding and does not clamp first; Rust's saturating `as` cast acts as the clamp. `u32::MAX as f32` rounds up to 2^32, so a centred stick gives `80 00 00 00` (2^31), not the midpoint `7F FF FF FF` that a rounding mapping would give. With 24 bits of float precision every converted value is a multiple of 128 unless it saturates, so the low byte of each axis is always `00`, `80` or `FF`: the program reaches only a subset of the payloads that `EveryPayloadOccurs` ranges over. Marker values still occur inside real payloads (`FF 00 00 00`), so receivers still need fixed-length framing.
- The float computation of the fill count in `draw_bar`: `clamp`, `abs`, `* half_width` and `round` (src/main.rs:98, 102). It becomes the `fillCount` and `negative` inputs. That the result never exceeds `HalfWidth` comes from the clamp and is not proved here. A NaN reading yields fill 0 on the non-negative branch.
- Serial transport: `uart` is imported (src/main.rs:11) but never used. Frames are only printed, so there is no write, write failure or termination policy to model.
