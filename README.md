# GIF to Arduino header: a Dafny model of the frame encoder

The tool turns an animated GIF into a C header for an Arduino sketch. Each
frame is reduced to a monochrome bitmap by comparing every pixel's luminance
with a threshold. Each bitmap is then packed eight pixels per byte, most
significant bit first, and emitted as a `PROGMEM` byte array of binary
literals. An index array names every frame's array, and a count constant
follows it.

This project models the two parts of `gif2bitmap.py` that carry logic:

- the threshold point function of `gif_to_bitmaps`, together with its loop
  over already decoded greyscale frames (`threshold.dfy`);
- `bitmap_to_c_array`, the encoder. It appears twice:
  - as imperative methods that follow the source's nested loops
    (`Emitter.EncodeRow`, `Emitter.EmitFrame`, `Emitter.BitmapToCArray`);
  - as pure specification functions that these methods are proved equal to
    (`Packing.PackRow`, `Emitter.CArrayLines`).

The supporting modules are:

- `bits.dfy`: Python's `|` and `<<` on non-negative integers, with bits
  tested by `IsSet`.
- `packing.dfy`: the packing of one row into bytes, and its inverse.
- `text.dfy`: `str(n)`, the `08b` format and `sep.join`.
- `emitter.dfy`: the encoder and the layout of the text it generates.

Modelling choices:

- A frame is a `seq<seq<bool>>`, with pixel (x, y) at `frame[y][x]`. A byte
  is an unbounded `nat`, as in Python. That every emitted byte is below 256
  is proved, not assumed.
- `range(n)` runs `Iterations(n)` times, which is zero when n is negative.
- The result of `"\n".join(lines)` is specified through the list of lines,
  `Emitter.CArrayLines`. Line counts in the table are entries of that list.
  Each frame's close `"};\n"` carries its own newline, so in the joined
  text every block is followed by a blank line.
- `BlockOffset(i, b)` is where frame i's block starts among the blocks. It
  counts one block at a time and is proved equal to `i * b`.

## Model

| member | source | states |
|---|---|---|
| Threshold.PixelOn | gif2bitmap.py:11 | a pixel is on exactly when its luminance is at least the threshold |
| Threshold.ThresholdBoundary | gif2bitmap.py:11 | luminance equal to the threshold is on; one less is off |
| Threshold.Binarize | gif2bitmap.py:11 | the monochrome frame has the greyscale frame's shape, and pixel (x, y) is on exactly when its luminance is at least the threshold |
| Threshold.ThresholdAtOrBelowMinAllOn | gif2bitmap.py:11 | a threshold at or below every luminance of a frame turns every pixel on |
| Threshold.ThresholdAboveMaxAllOff | gif2bitmap.py:11 | a threshold above every luminance of a frame turns every pixel off |
| Threshold.ThresholdOutOfRange | gif2bitmap.py:11 | thresholds outside 0..255 are accepted: at most 0 gives all on, above 255 gives all off |
| Threshold.GifToBitmaps | gif2bitmap.py:7-13 | one monochrome frame per greyscale frame, in the same order, each the thresholded frame |
| Bits.Shl | gif2bitmap.py:25 | `bit << s` is zero exactly when bit is zero |
| Bits.Or | gif2bitmap.py:25 | `a \| b` is at least each operand and at most their sum |
| Bits.OrIsSet | gif2bitmap.py:25 | a bit of `a \| b` is set exactly when it is set in a or in b |
| Bits.OrBound | gif2bitmap.py:25 | or-ing two values below 2^k stays below 2^k |
| Bits.ShlIsSet | gif2bitmap.py:25 | `bit << s` sets exactly bit s when bit is 1, and no bit when it is 0 |
| Bits.HighBitsClear | gif2bitmap.py:25 | a value below 2^k has no bit set at position k or above |
| Bits.BitsDetermine | gif2bitmap.py:25 | two values below 2^k with the same low k bits are equal |
| Packing.Bit | gif2bitmap.py:24 | a pixel contributes 1 when it is on and 0 when it is off |
| Packing.OrShl | gif2bitmap.py:25 | or-ing `bit << s` into a byte sets bit s when bit is 1, leaves every other bit as it was, and stays below 256 |
| Packing.PackGroup | gif2bitmap.py:22-28 | a group of at most 8 pixels packs into a byte below 256; bit 7 - k is pixel k, and bits that no pixel reaches are zero |
| Packing.PackRow | gif2bitmap.py:21-28 | a row of w pixels packs into exactly ceil(w / 8) bytes, each below 256 |
| Packing.PackRowBits | gif2bitmap.py:23-28 | bit pos of byte i is set exactly when pixel 8i + 7 - pos exists and is on |
| Packing.PackRowPixel | gif2bitmap.py:24-25 | pixel x is stored in byte x / 8 at bit 7 - x % 8, and unpacking reads it back |
| Packing.PackRowHighBits | gif2bitmap.py:25-28 | no packed byte has a bit set at position 8 or above |
| Packing.PackRowPadding | gif2bitmap.py:22-28 | when the width is not a multiple of 8, the 8 - width % 8 low bits of the last byte are zero |
| Packing.PackRowWellPadded | gif2bitmap.py:22-28 | every packed row has the right byte count, bytes below 256 and zero padding |
| Packing.UnpackPackRow | gif2bitmap.py:23-28 | unpacking a packed row recovers every pixel exactly |
| Packing.PackUnpackBit | gif2bitmap.py:23-28 | each bit of the repacked pixels of well-padded bytes is that bit of the original bytes |
| Packing.PackUnpackByte | gif2bitmap.py:23-28 | each byte of the repacked pixels of well-padded bytes is the original byte |
| Packing.PackUnpackRow | gif2bitmap.py:23-28 | packing the pixels read out of well-padded bytes gives those bytes back, so packing is a bijection onto well-padded rows |
| Text.FixedBinary | gif2bitmap.py:27 | the k-digit binary form has exactly k characters, each '0' or '1' |
| Text.FixedBinaryValue | gif2bitmap.py:27 | the k binary digits of a value below 2^k denote that value |
| Text.FixedBinaryDigit | gif2bitmap.py:27 | digit j of the k-digit form is '1' exactly when bit k - 1 - j is set |
| Text.Binary8 | gif2bitmap.py:27 | `f"0b{byte:08b}"` is 10 characters and starts with `0b` |
| Text.Binary8Literal | gif2bitmap.py:27 | a byte's literal is `0b` and 8 binary digits that denote the byte, with the digit at index j showing bit 9 - j |
| Text.NatToString | gif2bitmap.py:18 | `str(n)` is non-empty and all decimal digits; it starts with `0` only when n is 0, and a text of two or more digits never starts with `0` |
| Text.IntToString | gif2bitmap.py:16 | `str(i)` is non-empty and starts with a minus sign exactly when i is negative |
| Text.IntToStringValue | gif2bitmap.py:16 | `str(i)` is decimal digits after an optional minus sign, and reading it back gives i, negative values included |
| Text.NegativeText | gif2bitmap.py:16 | a minus sign before `str(n)` is integer text that reads back as -n |
| Text.NonNegativeText | gif2bitmap.py:16 | `str(n)` is integer text that reads back as n |
| Text.NatToStringValue | gif2bitmap.py:18 | reading the decimal text of n back gives n |
| Text.NatToStringInjective | gif2bitmap.py:18 | distinct numbers have distinct decimal text |
| Text.JoinLength | gif2bitmap.py:30-35 | `sep.join(parts)` of a non-empty list is as long as its parts together plus one separator between each neighbouring pair |
| Text.JoinEnds | gif2bitmap.py:30-35 | `sep.join(parts)` of a non-empty list starts with its first part and ends with its last part |
| Emitter.Iterations | gif2bitmap.py:20 | `range(n)` runs n times when n is non-negative and never otherwise |
| Emitter.Literals | gif2bitmap.py:27 | one literal per byte |
| Emitter.PackRowAppend | gif2bitmap.py:26-28 | packing one more group of at most 8 pixels onto a row whose length is a multiple of 8 appends that group's byte |
| Emitter.AccumulatePixel | gif2bitmap.py:25 | or-ing pixel x into the accumulator extends the accumulated group by that pixel |
| Emitter.EmitGroup | gif2bitmap.py:26-28 | emitting after pixel x appends the current group's byte to the packed row |
| Emitter.AccumulateStep | gif2bitmap.py:23-25 | a column that does not end a group keeps the loop state: the emitted bytes are the complete groups, and the accumulator holds the current group's pixels so far |
| Emitter.EmitStep | gif2bitmap.py:25-28 | emitting after pixel x makes the emitted bytes the packed row up to x |
| Emitter.StartGroup | gif2bitmap.py:28 | after a reset at a multiple of 8, the packed row so far and an empty accumulator are the loop state |
| Emitter.LiteralsAppend | gif2bitmap.py:27 | appending a byte appends its literal |
| Emitter.EncodeRow | gif2bitmap.py:21-28 | the column loop's literals are exactly those of the packed row of the first `width` pixels |
| Emitter.LiteralDigitIsPixel | gif2bitmap.py:24-27 | digit j of the literal of byte i is '1' exactly when pixel 8i + j exists and is on |
| Emitter.FrameNameDigits | gif2bitmap.py:18 | a frame's array name `Emitter.FrameName` is the prefix followed by at least one decimal digit and nothing else |
| Emitter.FrameNamesDistinct | gif2bitmap.py:18 | different frames get different array names |
| Emitter.DeclarationName | gif2bitmap.py:19 | a declaration line (`Emitter.DeclarationLine`) is `const uint8_t `, then the array's name, then `[] PROGMEM = {`, and nothing else |
| Emitter.RowLines | gif2bitmap.py:20-30 | a frame has one row line per row visited |
| Emitter.FrameBlock | gif2bitmap.py:19-31 | a frame's block has Iterations(height) + 2 lines: no row lines when height is 0 or less |
| Emitter.ConcatPrefix | gif2bitmap.py:17-31 | the lines of the first n + 1 blocks are those of the first n followed by block n |
| Emitter.ConcatLength | gif2bitmap.py:17-31 | blocks of b lines each concatenate to BlockOffset(n, b) lines |
| Emitter.ConcatAt | gif2bitmap.py:17-31 | line k of block i is line BlockOffset(i, b) + k of the concatenation |
| Emitter.FrameBlocks | gif2bitmap.py:17-31 | one block per frame, each of Iterations(height) + 2 lines |
| Emitter.Blocks | gif2bitmap.py:17-31 | the blocks of n frames have BlockOffset(n, Iterations(height) + 2) lines |
| Emitter.ConcatStep | gif2bitmap.py:17-31 | appending frame idx's block to the lines keeps them equal to the header and the first idx + 1 blocks |
| Emitter.FrameNames | gif2bitmap.py:32 | one name per frame, no two of them equal; that entry i is frame i's name is stated by `EmitterLayout.FrameDeclaration` |
| Emitter.FrameBlocksAt | gif2bitmap.py:17-31 | entry idx of the frame blocks is frame idx's block |
| Emitter.FramesDone | gif2bitmap.py:32-34 | after every frame's block, the index array and the count complete the lines |
| Emitter.EmitFrame | gif2bitmap.py:18-31 | the frame loop's body produces exactly the frame's block: declaration, one line per row, close |
| Emitter.BitmapToCArray | gif2bitmap.py:15-35 | the generated text is the newline join of the header, every frame's block in input order, the index array and the count |
| EmitterLayout.BlockOffsetIsProduct | gif2bitmap.py:17-31 | block i starts after i * b lines |
| EmitterLayout.BlocksAt | gif2bitmap.py:17-31 | frame i's block occupies the b = Iterations(height) + 2 entries of the blocks from BlockOffset(i, b) on |
| EmitterLayout.CArrayLayout | gif2bitmap.py:16-34 | the line list before the join has frames * (Iterations(height) + 2) + 3 entries: the header first, the index array and the count last |
| EmitterLayout.FrameDeclaration | gif2bitmap.py:17-19 | frame i's block starts at entry 1 + BlockOffset(i, Iterations(height) + 2) of the line list with the declaration of `prefix + str(i)`, which is also the index array's entry i |
| EmitterLayout.FrameLine | gif2bitmap.py:17-31 | entry 1 + BlockOffset(i, b) + k of the line list is line k of frame i's block, where b = Iterations(height) + 2 |
| EmitterLayout.HeaderThenBlocks | gif2bitmap.py:16-34 | the blocks follow the header directly and are followed by exactly two lines |
| EmitterLayout.FrameClose | gif2bitmap.py:31 | the last entry of frame i's block is the close `"};\n"` |
| EmitterLayout.FrameBlockEnds | gif2bitmap.py:19-31 | a block opens with its array's declaration and ends with the close |
| EmitterLayout.FrameBlockRow | gif2bitmap.py:20-30 | line 1 + y of a frame's block is row y's line |
| EmitterLayout.RowLineComma | gif2bitmap.py:29-30 | a row line (`Emitter.RowLine`) starts with a two-space indent, and every row line but the last ends in a comma while the last does not |
| EmitterLayout.NoFrames | gif2bitmap.py:16-34 | with no frames the text is the header with a count of 0, an empty index array and a count of 0 |
| EmitterLayout.ListLineNames | gif2bitmap.py:32-33 | the index array's line (`Emitter.ListLine`) is its declaration up to `{`, then the frames' names joined by ", ", then `};` |
| EmitterLayout.CountLineValue | gif2bitmap.py:34 | the count constant's line (`Emitter.CountLine`) ends with `;`, and the digits before it denote the number of frames |
| EmitterLayout.HeaderCount | gif2bitmap.py:16 | the header comment (`Emitter.HeaderLine`) starts with `// Generated from GIF: ` and the number of frames in decimal, which reads back as that number, followed by the size text |
| EmitterLayout.HeaderEnds | gif2bitmap.py:16 | the header ends with `str(width)`, `x` and `str(height)` |
| EmitterLayout.HeaderSize | gif2bitmap.py:16 | the header ends with `str(width)`, `x` and `str(height)`, and both texts read back as width and height, negative values included |

## Left out

- The tkinter GUI (`Gif2HeaderApp`), its dialogs and message boxes, the file write and the catch-all exception handler (gif2bitmap.py:37-111) are user interface and I/O.
- Image decoding, iteration over the GIF's frames, `convert('L')` and the nearest-neighbour `resize` (gif2bitmap.py:6-10) are calls into the imaging library. `Threshold.GifToBitmaps` takes the decoded, resized greyscale frames as its input, and a frame's pixels are read as `frame[y][x]` instead of through `getpixel`.
- `Threshold.GifToBitmaps`: the library evaluates the point function once per luminance value to build a lookup table. The model applies it to each pixel directly. The result is the same.
- `Emitter.BitmapToCArray`: a frame smaller than width x height makes the source raise `IndexError` from `getpixel`. The model requires every frame to cover the pixels the loops visit (`AllCover`) and does not model that exception.
- `Emitter.EmitFrame`: the source's row loop sits inline in the frame loop. The model gives it its own method, and its effect on `lines` is the same.
- The prefix is not checked to be a valid C identifier, because the code does not check it either.
- `bitmap_to_c_array` does not reject a width or height of zero or less: its loops run zero times and the header prints the numbers as given, and the model does the same.
- `Text.FixedBinary`: Python's `08b` pads to at least 8 digits but prints more for values of 256 and above. The model keeps exactly the last k digits. This only matters above 255, and every emitted byte is proved to be below 256.
