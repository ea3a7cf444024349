# SteganosCL message encoder, modelled in Dafny

SteganosCL is a command-line tool that hides a text message in an image: each
character of the message replaces the red channel of one pixel. This project
models the encoding core of `SteganosCL/Program.cs`:

- `AddCharToPixel`, which keeps a pixel's alpha, green and blue and puts the
  character's byte into red;
- `EncodeMessage`, which copies the source bitmap and visits its pixels with
  two nested loops, outer over `x` (`row`, up to the width) and inner over `y`
  (`col`, up to the height), writing one character per pixel and breaking out
  of both loops as soon as the message is used up;
- the non-empty check of `ReadMessage`, which rejects a null or empty line.

Modules:

- `Results` (`results.dfy`): `Result` and `Option`, and the two exceptions of
  this path, `InvalidData` and `IndexOutOfRange`.
- `Pixels` (`pixels.dfy`): `Byte`, `Char16` (a UTF-16 code unit, below 65536),
  the `Pixel` quadruple (A, R, G, B), the unchecked `(byte)` cast `LowByte`
  and `AddCharToPixel`.
- `Bitmaps` (`bitmaps.dfy`): a `Bitmap` of `width` columns of `height` pixels,
  indexed `[x][y]`, with `GetPixel` and `SetPixel`.
- `VisitOrder` (`visit_order.dfy`): the visiting order. Pixel `(x, y)` is
  visited at step `x * height + y`, and step `k` visits `(k / height, k % height)`.
- `Encoder` (`encoder.dfy`): `Encode` defined step by step in the visiting
  order, `EncodeMessage` with its failure on an empty message, and `ReadMessage`.
- `EncoderLoop` (`encoder_loop.dfy`): the nested loops with their `break`s,
  written as in the program and proved equal to `EncodeMessage`.
- `EncoderProperties` (`properties.dfy`): read-back, idempotence, silent
  truncation, the empty-message cases and the link from `ReadMessage` to the
  encoder.

The program encodes into a `Clone` of the source. Here a bitmap is a value, so
`Encode` returns a new bitmap and the caller's source cannot change.

The program has no decoder, no length marker and no capacity error. A message
longer than the pixel count is silently cut, and that is what the model does.
The only read-back is `ReadRed`, which reads the red channels of the first
`n` visited pixels. It is used to state what the encoder wrote.

## Model

| member | source | states |
|---|---|---|
| Pixels.LowByte | SteganosCL/Program.cs:186 | the `(byte)` cast keeps the low 8 bits: the character is `high * 256 + r` for some byte `high`, and a character below 256 is kept as it is |
| Pixels.AddCharToPixel | SteganosCL/Program.cs:184-189 | the new colour has the old alpha, green and blue, and its red is the symbol's low byte |
| Pixels.AddCharToPixelIdempotent | SteganosCL/Program.cs:184-188 | writing the same symbol into a pixel twice gives the same pixel as writing it once |
| Pixels.AddCharToPixelFixpoint | SteganosCL/Program.cs:184-188 | the substitution leaves a pixel unchanged exactly when its red already holds the symbol's byte |
| Bitmaps.Bitmap.GetPixel | SteganosCL/Program.cs:164 | reads the colour at column `x`, row `y` of a bitmap, for a position inside the grid |
| Bitmaps.Bitmap.SetPixel | SteganosCL/Program.cs:166 | setting one pixel keeps the bitmap's size, stores the new colour at that position and leaves every other pixel as it was |
| VisitOrder.Index | SteganosCL/Program.cs:157-165 | the value of the counter `i` when the loops reach `(x, y)`: `height` steps for each earlier column plus `y` |
| VisitOrder.Position | SteganosCL/Program.cs:160-163 | the pixel visited at step `k` has a `y` below the height, and its visit step is `k` again |
| VisitOrder.NextColumn | SteganosCL/Program.cs:160-162 | the pixel `(x + 1, 0)` is visited right after `(x, height - 1)`, as the outer loop moves to its next `x` |
| VisitOrder.IndexInGrid | SteganosCL/Program.cs:160-162 | every pixel of a `width` by `height` grid is visited at a step below `width * height` |
| VisitOrder.PositionInGrid | SteganosCL/Program.cs:160-162 | every step below `width * height` visits an `x` below the width |
| VisitOrder.PositionOfIndex | SteganosCL/Program.cs:160-163 | the step of a pixel determines the pixel: step `x * height + y` visits `(x, y)` |
| VisitOrder.IndexOrder | SteganosCL/Program.cs:160-162 | the order is x-major: one pixel is visited before another exactly when its `x` is smaller, or the `x` agree and its `y` is smaller |
| VisitOrder.IndexInjective | SteganosCL/Program.cs:160-162 | no two pixels of the grid are visited at the same step |
| Encoder.Step | SteganosCL/Program.cs:160-165 | the step at which a grid pixel is visited is below the pixel count, and that step visits this pixel |
| Encoder.EncodeStep | SteganosCL/Program.cs:164-166 | writing the character of step `k` into the pixel visited at step `k` turns a bitmap with `k` encoded pixels into one with `k + 1` |
| Encoder.EncodeSteps | SteganosCL/Program.cs:157-170 | after `n` visits, the first `n` visited pixels hold their characters in red and every other pixel is the source pixel |
| Encoder.Encode | SteganosCL/Program.cs:155-176 | the copy has the source's size; a pixel visited at a step below the message length holds that character's byte in red and the source's A, G and B; every other pixel is the source pixel |
| Encoder.EncodeMessage | SteganosCL/Program.cs:155-176 | fails with `IndexOutOfRange` exactly when the message is empty and the bitmap has a pixel; otherwise returns the encoded copy |
| Encoder.ReadMessage | SteganosCL/Program.cs:127-135 | a line is accepted exactly when it is non-null and non-empty, and is then returned as it is; otherwise `InvalidData` |
| EncoderLoop.AllVisited | SteganosCL/Program.cs:160-175 | when the loops end, the message is used up or all `width * height` pixels were visited, and the bitmap built so far is the encoded copy |
| EncoderLoop.EncodeMessageLoop | SteganosCL/Program.cs:155-176 | the nested loops with their two `break`s return exactly what `EncodeMessage` returns, including the failure on an empty message |
| EncoderProperties.EncodeAtStep | SteganosCL/Program.cs:160-172 | for each step `k` below the pixel count, the pixel `(k / height, k % height)` holds `message[k]` in red if `k` is below the message length and is the source pixel otherwise |
| EncoderProperties.ReadBackPrefix | SteganosCL/Program.cs:164-166 | the red channels of the first `n` visited pixels of the encoded copy are the low bytes of the first `n` characters |
| EncoderProperties.ReadBack | SteganosCL/Program.cs:164-166 | the red channels of the first `min(length, width * height)` visited pixels are the low bytes of that message prefix |
| EncoderProperties.ReadBackText | SteganosCL/Program.cs:186 | for a message of characters below 256, that read-back is the message prefix itself |
| EncoderProperties.EncodeIdempotent | SteganosCL/Program.cs:164-166 | encoding the same message into an encoded bitmap returns it unchanged |
| EncoderProperties.EncodeMessageIdempotent | SteganosCL/Program.cs:155-176 | `EncodeMessage` applied to its own successful output with the same message returns that output |
| EncoderProperties.TruncatedPixel | SteganosCL/Program.cs:160-166 | with a message longer than the pixel count, each pixel holds the character of its step, the same as with the message cut to the pixel count |
| EncoderProperties.SilentTruncation | SteganosCL/Program.cs:160-175 | a message longer than the pixel count succeeds without an error, gives the same bitmap as its first `width * height` characters, and every pixel's red is written |
| EncoderProperties.EncodeEmptyMessage | SteganosCL/Program.cs:165-172 | an empty message succeeds only on a bitmap with no pixels, and then returns the source unchanged |
| EncoderProperties.ValidatedMessageEncodes | SteganosCL/Program.cs:130-165 | every line that `ReadMessage` accepts is encoded without an error |

## Left out

- Console prompts and reads (`Run`, `ReadSourceImagePath`, `ReadTargetImagePath`): console I/O.
- File dialogs (`ReadSourceImagePath2`, `ReadTargetImagePath2`): Windows Forms UI.
- File-existence checks (`File.Exists`): file-system I/O.
- `ReadImage` and `SaveImage`: image decoding and encoding are calls into `System.Drawing`. The JPEG save is lossy and would destroy the written red channels; it is not modelled.
- `Main`'s catch-and-rethrow and the mutable fields of `Program`: orchestration of the steps above.
- `Bitmap.Clone` and `GetPixel` are modelled as a value copy and a pure read, and `SetPixel` as a pure write; only `SetPixel` throws (on indexed pixel formats), and that exception is left out.
- `SetPixel`'s conversion of the colour to the bitmap's own pixel format is left out: the model assumes a 24bppRgb, 32bppRgb or 32bppArgb bitmap, on which `GetPixel` returns exactly what `SetPixel` stored. On a 16-bpp carrier the red byte would be cut to 5 bits, and on 32bppPArgb with alpha below 255 it would be premultiplied, so `ReadBack`, `ReadBackPrefix` and `ReadBackText` hold for the program only on the assumed formats.
- A null `message` argument to `EncodeMessage` is not modelled, because its only caller passes the result of `ReadMessage`, which rejects null.
- Decoder, length prefix, terminator and capacity error: the program has none of them.
