# tindeq-overtones: verified model of the frame decoder, the receive loop and the buffer fill

The program turns the force reading of a Tindeq Progressor strain gauge into
a tone. Two small sequential pieces of it are modelled here.

- **Telemetry** (`progressor.dfy`, with the byte codec in `bytes.dfy`). The
  notification decoder `parse_response` reads an opcode from byte 0. Opcode 0
  is a battery sample: a little-endian `u32` at bytes 2..6. Opcode 1 is a
  weight measurement: an `f32` at bytes 2..6 and a `u32` counter at bytes
  6..10. Opcode 4 is a low-power warning. Any other opcode gives no frame.
  The weight is kept as its 32-bit IEEE-754 bit pattern. `f32::from_le_bytes`
  only reinterprets bits, so no float arithmetic is needed. The body of the
  `while let` receive loop in `interaction` is a fold over a finite stream of
  notifications. Each notification is paired with the value of the `running`
  flag when the loop checks it. The fold updates the shared weight cell. It
  appears twice: as the function `Receive`, and as the imperative
  `ReceiveLoop`, which updates a `WeightCell` object in place and is proved
  equal to `Receive`. The start and end control commands are the constants
  `StartCommand = [0x65, 0]` and `EndCommand = [0x66, 0]`.
- **Audio** (`audio.dfy`). `write_data` walks the output buffer in chunks of
  `channels` slots, as `chunks_mut` does, and gives every slot its own call
  of the sample generator. The generator is a `SampleSource` object: a fixed
  sequence of values plus a call counter that each call advances. `WriteData`
  is a method over an `array` with nested loops, as in the source.

Short buffers: `parse_response` has no length check before it slices
`i[2..6]` and `i[6..10]`. A non-empty buffer shorter than 6 bytes with
opcode 0, or shorter than 10 bytes with opcode 1, therefore panics instead
of returning `None`; the `?` after `try_into()` never fires. The decoder's
result type `Outcome` has an explicit `Panics` case for this, and a receive
loop that meets such a buffer ends with `Panicked`.

## Model

| member | source | states |
|---|---|---|
| `Bytes.LeU32` | src/progressor.rs:36-39 | the definition of `u32::from_le_bytes` (and of the bit pattern read by `f32::from_le_bytes`): byte 0 is least significant; no ensures of its own, its meaning is stated by the three lemmas below |
| `Bytes.LeU32Bytes` | src/progressor.rs:36 | each of the four input bytes of `u32::from_le_bytes` can be read back from the value, least significant first |
| `Bytes.LeU32OfEncode` | src/progressor.rs:36-39 | decoding the little-endian encoding of any `u32` gives that `u32` back |
| `Bytes.EncodeOfLeU32` | src/progressor.rs:36-39 | re-encoding the decoded value of any four bytes gives those bytes back, so the decoder is injective |
| `Progressor.ParseResponse` | src/progressor.rs:33-45 | the definition of `parse_response`, with the slice panics made an explicit `Panics` outcome; no ensures of its own, its behaviour is stated by the `Parse…` lemmas and the round trips below |
| `Progressor.ControlCommands` | src/progressor.rs:23-24 | the start and end commands written to the control characteristic are exactly `[0x65, 0]` and `[0x66, 0]` |
| `Progressor.ParsePanicsIff` | src/progressor.rs:33-45 | the decoder panics exactly when the buffer is non-empty and shorter than its opcode needs: 6 for opcode 0, 10 for opcode 1, 1 otherwise |
| `Progressor.ParseEmpty` | src/progressor.rs:34 | an empty buffer decodes to no frame |
| `Progressor.ParseRecognisedIff` | src/progressor.rs:35-44 | a frame is returned exactly for opcodes 0, 1 and 4 in a long enough buffer; every other opcode gives no frame |
| `Progressor.ParseLowPower` | src/progressor.rs:42 | opcode 4 gives a low-power warning for every buffer length of at least 1 |
| `Progressor.ParseBattery` | src/progressor.rs:36 | opcode 0 with at least 6 bytes gives a battery sample holding the little-endian `u32` of bytes 2..6 |
| `Progressor.ParseWeight` | src/progressor.rs:37-40 | opcode 1 with at least 10 bytes gives a weight measurement whose bit pattern is the little-endian value of bytes 2..6 and whose counter is that of bytes 6..10 |
| `Progressor.WeightRoundTrip` | src/progressor.rs:37-40 | a weight frame built from any weight bit pattern, counter, reserved byte and tail decodes to exactly that weight and counter |
| `Progressor.BatteryRoundTrip` | src/progressor.rs:36 | a battery frame built from any raw value, reserved byte and tail decodes to exactly that raw value |
| `Progressor.WeightFrameDecoded` | src/progressor.rs:37-40 | every buffer that decodes to a weight measurement is at least 10 bytes long and is that measurement's encoding, followed by its own reserved byte and tail |
| `Progressor.ParseIgnoresReservedAndTail` | src/progressor.rs:33-45 | byte 1 and every byte past the payload never affect the result: buffers that agree on the opcode, on being long enough and on the payload bytes decode alike |
| `Progressor.Update` | src/progressor.rs:99-103 | a decoded weight measurement overwrites the cell with its weight; a battery sample, a low-power warning or no frame leaves it unchanged |
| `Progressor.Receive` | src/progressor.rs:96-104 | the loop either runs off the end of the stream or ends at an index inside the stream, at or after where it started |
| `Progressor.ReceiveExit` | src/progressor.rs:96-99 | the loop ends at the first notification whose flag is false, which is not decoded, or at the first notification whose decoding panics; every notification before that point was decoded |
| `Progressor.ReceiveKeepsLastWeight` | src/progressor.rs:96-104 | from any point of the loop, the final weight is the weight of the last weight frame decoded, matching an independent backward search |
| `Progressor.ReceiveWeight` | src/progressor.rs:96-104 | after the whole loop the cell holds the weight of the last weight frame decoded, or its initial value if there was none |
| `Progressor.ReceiveStopIgnoresRest` | src/progressor.rs:96-98 | once the flag is false at notification k, neither that notification's bytes nor any later notification changes how the loop ends or the weight it leaves |
| `Progressor.WeightCell.constructor` | src/main.rs:13 | the shared `cur_weight` cell, holding a float's bit pattern, starts with the value it is given |
| `Progressor.ReceiveLoop` | src/progressor.rs:96-104 | the in-place loop ends the way the fold `Receive` does and leaves the cell holding the fold's weight |
| `Progressor.Stream` | src/progressor.rs:88-110 | `[0x65, 0]` is written first; after the loop `[0x66, 0]` is written exactly once unless decoding panicked; the cell ends as `Receive` says |
| `Audio.ChunksMut` | src/audio.rs:56 | the chunks tile the buffer in order; every chunk but the last has exactly `channels` slots; the last has between 1 and `channels` slots and ends at the buffer's end |
| `Audio.ChunkCount` | src/audio.rs:56 | the number of chunks is the buffer length divided by `channels`, rounded up (zero for an empty range), so a short final chunk is still produced |
| `Audio.SampleSource.Next` | src/audio.rs:58 | one generator call returns the next value of its sequence and advances the call count by one |
| `Audio.WriteData` | src/audio.rs:55-61 | every slot `k` of the buffer ends holding the generator's k-th value from the start of the call, whatever `channels` is; the generator is called exactly `output.len()` times |

## Left out

- Bluetooth session plumbing in `interaction` (src/progressor.rs:50-94, 106-113): adapter lookup, scan, connect, service discovery, subscribe, the control writes themselves, and disconnect. These are asynchronous radio I/O. `Stream` only records the order of the two control writes.
- Errors returned by those Bluetooth calls (the `?` exits): the session's error path is I/O and is not modelled.
- The notification stream is modelled as a finite sequence. `StreamEnded` stands for `notifications.next()` returning `None`. An unbounded stream that never ends is not modelled.
- The `running` flag and the weight cell are plain values. The mutex, its locking and its poisoning (`lock().unwrap()`) are concurrency and are not modelled. The value the flag has at each notification is an input.
- `weight_to_freq` (src/audio.rs:19-21) and the oscillator closure `next_value` (src/audio.rs:32-43) do `f32` arithmetic (`trunc`, `%`, `sin`, float comparison). Floating point is not modelled. Their output is represented by the generator's value sequence in `SampleSource`.
- `mk_stream` and `create_stream` (src/audio.rs:7-16, 23-53) are wrappers over the audio backend's device and stream APIs.
- src/main.rs is process wiring: the async runtime, the stdin stop task and the shared ownership of the cell and the flag. It is not part of this model.
- `WriteData` requires `channels > 0`. `chunks_mut(0)` panics, and the model does not include that panic.
- The element type of the output buffer is generic. The model says nothing about the `f32` values themselves, only about which generator call fills which slot.
