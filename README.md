# Frame exchange, frames, test camera and mask encoder of hdrdemo2

A Dafny model of four self-contained parts of the instrument-control
application. The application streams camera frames to a display and drives a
binary-pattern projector ("mask window").

- `triple_buffer.dfy` (module `TripleBuffering`): the single-producer /
  single-consumer exchange `lzx::TripleBuffer<T>`. It has three slots, the
  producer's and the consumer's slot index, the slot last handed out
  (`lastConsumed`, -1 for none) and the last published slot (`reserved`).
  Each call is a step function on a `State` value. The class `TripleBuffer`
  keeps the slots in an `array<T>`, and each of its methods is proved to
  perform exactly that step. The lemmas are about whole sequential traces
  (`Run`). Every trace keeps the invariant "producer slot ≠ consumer slot, and
  the slot handed out is the consumer's own". So the `nullptr` branch of
  `consume` is unreachable in any sequential trace. Before any `produce`,
  `consume` hands out slot 2, which still holds the default-constructed
  value. The model states no freshness ("newest frame") property, because the
  code does not give one: a stalled producer keeps overwriting one
  unpublished slot.
- `frame.dfy` (module `Frames`): the pixel-buffer object `lzx::Frame`. It has
  three constructors, the per-pixel colour `fill` (its triple loop is kept)
  and the raw `fill` copy, `bufferSize`, and the sequence number.
- `mask_encoding.dfy` (module `MaskEncoding`): the encoding fragment shader of
  the mask window. For each fragment (x, y) of the 3072 × 2720 canvas it
  computes the picture index (1..85). It maps the fragment to an eight-pixel
  group of the 1024 × 768 source. It packs eight threshold bits into the red,
  green and blue bytes, with thresholds k, k + 85 and k + 170. The index
  mapping is pure functions. The packing is a method with the shader's
  `for i in 0..7` loop, OR-ing bits into `bv8` accumulators, and it is proved
  equal to the pure `Encode`.
- `dummy_test_camera.dfy` (module `TestCamera`): the test-pattern camera
  `lzx::DummyTestCamera`, a small state machine whose invariant is
  "streaming ⇒ opened".
- `common.dfy` (module `Common`): the `Byte` type and the `Option` type, used
  for the nullable pointer results.

Points of the code the model makes explicit:

- The encoder's threshold test at app/src/MaskWindow.hpp:214-232 is
  `texel * 255 + 0.1 > threshold` on an 8-bit texel (the intermediate
  framebuffer is `GL_RGBA8`). For a level v this is exactly
  `v >= threshold`, modelled in tenths as `10 * v + 1 > 10 * threshold`. A
  level equal to the threshold sets the bit, so a uniform image of level 170
  gives green = 255 in every picture, including picture 85
  (`UniformLevel170`).
- `consume` has a `nullptr` branch for "no new data"
  (app/src/TripleBuffer.h:54-57). In any sequential trace from construction
  it is unreachable (`ConsumeNeverNull`).
- `DummyTestCamera.h` declares a constructor taking a bit depth and a
  five-output `getFrame`. The model follows the `.cpp` bodies: a
  no-argument constructor and a four-output `getFrame`.

## Model

| member | source | states |
|---|---|---|
| `TripleBuffering.Initial` | app/src/TripleBuffer.h:13-17 | the initial state (producer 0, consumer 2, lastConsumed -1, reserved 1, three default slots) satisfies the protocol invariant |
| `TripleBuffering.Next` | app/src/TripleBuffer.h:27 | the next slot index is in [0,3), differs from its argument and wraps 2 to 0 |
| `TripleBuffering.ProduceStep` | app/src/TripleBuffer.h:21-33 | `produce` writes the value into the producer's slot only, leaves the consumer's index and lastConsumed alone, and keeps the protocol invariant |
| `TripleBuffering.ConsumeSlot` | app/src/TripleBuffer.h:51-61 | the slot `consume` hands out is the consumer's slot and never the producer's; under the invariant it is never null |
| `TripleBuffering.ConsumeStep` | app/src/TripleBuffer.h:51-61 | `consume` changes no slot and neither index, records the slot it handed out in lastConsumed, and keeps the invariant |
| `TripleBuffering.ConsumeDoneStep` | app/src/TripleBuffer.h:64-79 | `consumeDone` changes no slot and not the producer's index, does nothing when lastConsumed is -1, and keeps the invariant |
| `TripleBuffering.Run` | app/src/TripleBuffer.h:21-79 | any sequential trace of calls keeps every index in range |
| `TripleBuffering.RunKeepsInvariant` | app/src/TripleBuffer.h:28 | every sequential trace keeps producer ≠ consumer and lastConsumed ∈ {-1, consumer}, the guards at lines 28 and 74 being what preserves it |
| `TripleBuffering.ConsumeNeverNull` | app/src/TripleBuffer.h:54-57 | after any trace from construction the null branch of `consume` is not taken |
| `TripleBuffering.ProduceSparesConsumedSlot` | app/src/TripleBuffer.h:23-24 | the slot `consume` hands out is never the one `produce` writes, and `produce` leaves its contents alone |
| `TripleBuffering.IdleWithoutProduce` | app/src/TripleBuffer.h:64-79 | with the consumer right behind the producer, a trace without `produce` moves neither the producer's nor the consumer's index and changes no slot |
| `TripleBuffering.ConsumeBeforeProduceSeesDefault` | app/src/TripleBuffer.h:14-15 | before any `produce`, `consume` hands out slot 2, holding the default-constructed value |
| `TripleBuffering.ConsumeTwiceSameSlot` | app/src/TripleBuffer.h:53-60 | two `consume` calls in a row hand out the same slot; the second changes nothing |
| `TripleBuffering.ConsumeDoneTwiceNoop` | app/src/TripleBuffer.h:66-70 | a second `consumeDone` in a row changes nothing |
| `TripleBuffering.StalledProducerOverwrites` | app/src/TripleBuffer.h:42-47 | when the producer's next slot is the consumer's, two `produce` calls publish nothing and the second overwrites the same slot |
| `TripleBuffering.HeldSlotSurvivesProduces` | app/src/TripleBuffer.h:27-32 | while the consumer holds a slot, any number of `produce` calls keep its contents, never move the consumer, and never bring the producer onto it |
| `TripleBuffering.SlotsHoldProducedValues` | app/src/TripleBuffer.h:21-24 | after any trace every slot holds a value that was produced in the trace or was there before it |
| `TripleBuffering.TripleBuffer.constructor` | app/src/TripleBuffer.h:13-17 | a fresh array of three default slots and the initial indices |
| `TripleBuffering.TripleBuffer.Produce` | app/src/TripleBuffer.h:36-48 | the array and the indices change exactly as `ProduceStep` says (both overloads) |
| `TripleBuffering.TripleBuffer.Consume` | app/src/TripleBuffer.h:51-61 | returns `ConsumeSlot`, which under the object invariant is always the consumer's slot, and records it in lastConsumed |
| `TripleBuffering.TripleBuffer.ConsumeDone` | app/src/TripleBuffer.h:64-79 | the indices change exactly as `ConsumeDoneStep` says |
| `Frames.BytesPerSample` | app/src/Frame.h:46 | two bytes per sample exactly when the bit depth exceeds 8, otherwise one |
| `Frames.BufferLength` | app/src/Frame.h:22 | the buffer length is width·height·channels, doubled above 8 bits per sample |
| `Frames.PaintByte` | app/src/Frame.h:58-59 | the loop's index i·c·bpc + j·bpc + b lies inside the painted buffer, and writing colour byte j·bpc + b there extends the painted prefix by one byte |
| `Frames.PaintedPixel` | app/src/Frame.h:52-62 | after `fill(color)`, byte b of channel j of every pixel i < w·h equals colour byte j·bpc + b |
| `Frames.Frame.constructor` | app/src/Frame.h:12-14 | default constructor: 0 × 0 × 0 at 8 bits, empty buffer, sequence number 0 |
| `Frames.Frame.Sized` | app/src/Frame.h:17-24 | the buffer has length width·height·channels·bytes-per-sample and every byte is 0 |
| `Frames.Frame.WithData` | app/src/Frame.h:27-33 | the bytes are stored as given, without checking their length against the geometry |
| `Frames.Frame.SetSequenceNumber` | app/src/Frame.h:41-42 | `sn()` now returns the given number; nothing else changes |
| `Frames.Frame.BufferSize` | app/src/Frame.h:82-85 | the size is the length of the bytes `data()`/`buffer()` expose, and the geometry's length for a frame built by the sized constructor |
| `Frames.Frame.FillColor` | app/src/Frame.h:44-63 | a colour of the wrong size leaves the buffer unchanged; otherwise the first w·h·c·bpc bytes become repetitions of the colour, the rest and the length unchanged |
| `Frames.Frame.FillBytes` | app/src/Frame.h:65-69 | the first w·h·c·bpc bytes become the source's, the rest and the length unchanged |
| `MaskEncoding.PictureIndex` | app/src/MaskWindow.hpp:195-197 | the picture index of a canvas row is in [1,85], and the flipped row lies in that picture's 32-row band |
| `MaskEncoding.BandRow` | app/src/MaskWindow.hpp:198 | the row within the band is in [0,32) and with the picture index recomposes the flipped row |
| `MaskEncoding.CompressedIndex` | app/src/MaskWindow.hpp:198 | the compressed index is in [0, 3072·32) |
| `MaskEncoding.PixelRow` | app/src/MaskWindow.hpp:199-201 | the source row is in [0,767] |
| `MaskEncoding.PixelCol` | app/src/MaskWindow.hpp:199-202 | the group's first column is a multiple of 8 and at most 1016 |
| `MaskEncoding.SampleColumn` | app/src/MaskWindow.hpp:209 | every sampled column pixelCol + 7 - i lies in [0,1023], inside the group |
| `MaskEncoding.Exceeds` | app/src/MaskWindow.hpp:214-217 | the shader's test `level·255/255 + 0.1 > threshold` holds exactly when level ≥ threshold |
| `MaskEncoding.PackStep` | app/src/MaskWindow.hpp:217-220 | packing one more bit ORs `1 << i` into the byte exactly when that bit is set |
| `MaskEncoding.PackHigh` | app/src/MaskWindow.hpp:204-233 | the bytes built so far have no bit at or above the loop counter |
| `MaskEncoding.PackBits` | app/src/MaskWindow.hpp:207-233 | bit i of the packed byte is the i-th decision |
| `MaskEncoding.OrInBit` | app/src/MaskWindow.hpp:217-220 | one loop iteration on one accumulator packs exactly one more bit |
| `MaskEncoding.ByteFromBits` | app/src/MaskWindow.hpp:207-233 | helper for `UniformImage`: an accumulator whose eight bits are all set is 255, one with none set is 0 |
| `MaskEncoding.Encode` | app/src/MaskWindow.hpp:192-238 | bit i of red, green and blue is set iff the level at column pixelCol + 7 - i of the group's row is at least k, k + 85 and k + 170 |
| `MaskEncoding.EncodeFragment` | app/src/MaskWindow.hpp:204-236 | the shader's loop, OR-ing bit i into three accumulators, computes exactly `Encode` |
| `MaskEncoding.NestedPlanes` | app/src/MaskWindow.hpp:216-232 | a set blue bit implies the green bit, and a set green bit implies the red bit |
| `MaskEncoding.UniformImage` | app/src/MaskWindow.hpp:207-236 | on an image of one level v, red is 255 if v ≥ k else 0; green and blue likewise with k + 85 and k + 170 |
| `MaskEncoding.UniformLevel170` | app/src/MaskWindow.hpp:214-232 | an image of level 170 everywhere encodes as (255, 255, 0) in every picture |
| `MaskEncoding.SourceGroup` | app/src/MaskWindow.hpp:198-202 | a band position reads a group with row in [0,768) and group number in [0,128) |
| `MaskEncoding.BandPosition` | app/src/MaskWindow.hpp:198-202 | the inverse mapping lands in [0,3072) × [0,32) |
| `MaskEncoding.FragmentReadsSourceGroup` | app/src/MaskWindow.hpp:198-202 | the shader's pixelRow and pixelCol / 8 are the group `SourceGroup` gives |
| `MaskEncoding.BandCoversSourceOnce` | app/src/MaskWindow.hpp:198-202 | within one band, (x, row in band) maps one-to-one onto the 98,304 source groups: `SourceGroup` and `BandPosition` are mutually inverse |
| `TestCamera.Resized` | app/src/DummyTestCamera.cpp:96 | resizing keeps the leading bytes, zero-fills new ones and gives the requested length |
| `TestCamera.CopyInto` | app/src/DummyTestCamera.cpp:89 | the copy puts the pattern at the buffer's start and keeps the rest |
| `TestCamera.DummyTestCamera.constructor` | app/src/DummyTestCamera.cpp:10-15 | not opened, not streaming, 640 × 480 × 1, pattern of length w·h·c |
| `TestCamera.DummyTestCamera.GenerateTestPattern` | app/src/DummyTestCamera.cpp:93-97 | the pattern's length becomes w·h·c |
| `TestCamera.DummyTestCamera.Open` | app/src/DummyTestCamera.cpp:26-34 | always succeeds and leaves the camera opened; opening twice changes nothing more |
| `TestCamera.DummyTestCamera.Close` | app/src/DummyTestCamera.cpp:36-47 | always succeeds and leaves the camera neither streaming nor opened |
| `TestCamera.DummyTestCamera.Start` | app/src/DummyTestCamera.cpp:49-57 | succeeds exactly when opened, then streaming; otherwise nothing changes |
| `TestCamera.DummyTestCamera.Stop` | app/src/DummyTestCamera.cpp:59-67 | always succeeds and leaves the camera not streaming |
| `TestCamera.DummyTestCamera.Snap` | app/src/DummyTestCamera.cpp:69-76 | succeeds exactly while streaming |
| `TestCamera.DummyTestCamera.GetFrame` | app/src/DummyTestCamera.cpp:78-91 | fails and touches nothing unless streaming into a non-null buffer; otherwise reports the geometry and copies the pattern to the buffer's start |
| `TestCamera.DummyTestCamera.Set` | app/src/DummyTestCamera.cpp:111-129 | "width"/"height" update that dimension and keep the pattern at w·h·c bytes; any other name fails and changes nothing |
| `TestCamera.DummyTestCamera.Get` | app/src/DummyTestCamera.cpp:131-145 | "width"/"height" report that dimension; any other name fails and leaves the caller's variable alone |

Every state-changing method of `TripleBuffer` and `DummyTestCamera`
requires and ensures its class's `Valid()`. For `TripleBuffer` this is the
protocol invariant. For `DummyTestCamera` it is "streaming ⇒ opened" and
"pattern length = w·h·c". The one exception is `GenerateTestPattern`, which
the constructor calls before the pattern has its length: it ensures `Valid()`
whenever "streaming ⇒ opened" holds. The constructors and `FillColor` /
`FillBytes` of `Frame` ensure `Valid()` (non-negative geometry).
`FillColor`, `FillBytes` and `SetSequenceNumber` also keep
`GeometryMatches()` (buffer length = geometry length) exactly as it was,
since none of them changes the geometry or the buffer's length.

## Left out

- Atomics and memory orderings in TripleBuffer.h: the model is sequential,
  one call at a time. It says nothing about interleavings of the producer and
  consumer threads, torn reads or wait-freedom.
- The move and copy overloads of `produce` are one method
  (`TripleBuffer.Produce`), because Dafny values have no move semantics.
- `consume` returns a pointer into a slot. The model returns the slot's
  index, and the slot's value is read from the model's slots.
- TripleBuffering: the `reserved` index is modelled (written on publish)
  but nothing reads it, as in the source.
- Frames: the model requires a non-negative width, height and channel count
  for all three constructors; it is part of the class invariant `Valid()`.
  The source accepts any `int`. Its sized constructor throws only when the
  buffer length it computes is negative (`Frame(-2, -3, 1)` has length 6),
  and its data constructor never checks. Frames with negative dimensions are
  not modelled.
- Frames: C++ `int` overflow in width·height·channels·bpc is not modelled;
  integers are unbounded.
- Frames.Frame.FillColor and Frames.Frame.FillBytes require the buffer, and
  for `FillBytes` also the source, to hold w·h·c·bpc bytes. The C++ code
  writes out of bounds otherwise (undefined behaviour), for example after the
  data constructor was given a short vector.
- Frames: `width()`, `height()`, `channels()`, `bitDepth()`, `sn()`, `data()`
  and `buffer()` are the class's fields. The static counter
  `Frame::sequenceNumber()` reads `s_sequenceNumber`, whose definition is not
  part of this model.
- MaskEncoding: float arithmetic in the shader is not modelled. The model
  assumes the 8-bit texel comes back as level/255 to well within 0.1, and
  that sampling at texel centres returns the texel itself.
- MaskEncoding: the output colour is the three bytes. The division by 255
  and the write back to an 8-bit target are taken as exact.
- MaskEncoding: the rest of MaskWindow.hpp (GL setup, the vertex shader, the
  polygon rendering) is not modelled.
- TestCamera.DummyTestCamera.GenerateTestPattern: only the pattern's length
  is modelled. The gradient values `(float)x / w * 255` are float
  computations and are left out, so the model's bytes are those the resize
  leaves.
- TestCamera: C++ `int` overflow in w·h·c (app/src/DummyTestCamera.cpp:96)
  and in the pixel index (app/src/DummyTestCamera.cpp:103) is not modelled;
  integers are unbounded. So `set("width", 5000000)` at height 480 succeeds in
  the model with a pattern of 2.4·10⁹ bytes, where the source's product
  overflows (undefined behaviour, in practice a throwing resize).
- TestCamera: the destructor (stop, then close) is not modelled; Dafny
  objects are not destroyed. `Log::info` calls are left out.
- TestCamera.DummyTestCamera.Set: a negative width or height is excluded by
  its requires clause, to keep the non-negative geometry of the class
  invariant `Valid()`. The source accepts it. It throws only when the
  product w·h·c is negative, so with the other dimension 0 it would not
  throw.
- TestCamera.DummyTestCamera.GetFrame requires the caller's buffer to hold
  the whole pattern when streaming. The source copies `m_testPattern.size()`
  bytes with an unchecked `memcpy` (app/src/DummyTestCamera.cpp:89), which
  writes out of bounds (undefined behaviour) into a shorter buffer.
- Out of this model: histogram sampling, ThreadSafeImage and the spinlock,
  all OpenGL/Qt rendering, LUT and transfer-function float numerics, the
  vendor camera backends, UI and settings persistence, and python/gray.py.
