# ImgTest: a file hidden in the colours of a bitmap

`ImgTest` turns a file into a picture:

1. It admits the file. The file must be between `MinFileSize` (16642) and `MaxFileSize` (294746) bytes long, and its UTF-8 name must be at most 32 bytes.
2. It builds a 96-byte `Header`: a 32-byte marker made of two GUIDs, the bitmap's width and height, the file's length, the name padded with zeros to 32 bytes, and the file's MD5 hash.
3. It writes the header and the file through a `SixBitsStream` in `Pack` mode. Every byte is spread over six-bit units.
4. It paints one colour per unit on four adjacent pixels of a bitmap whose size `GetOptimalSize` chooses. Each pair of bits of the unit becomes a red, green or blue level of 0, 85, 170 or 255.

In `Unpack` mode the same stream rebuilds bytes from units.

The model has these modules:

- `Base`: bytes (`bv8`), the exceptions the code throws, `Option`/`Result`/`Outcome`, and `Wrap32`, the C# `int` wrap-around.
- `Layout`: the size constants, `GetOptimalSize`, and the width adjustment of `Main`.
- `Colors`: `Norm` and `ColorsFromBytes`, and how to read a unit back from its colour.
- `Headers`: the `Header` structure, its little-endian marshalled bytes and the two GUID markers.
- `SixBits`, `SixBitsLemmas`: the packing and unpacking of `SixBitsStream` as functions. `PackByte` is one pass of the `Write` loop, `PackRun` the loop, and `DecodeRun` the `Read` loop. The lemmas prove:
  - the round trip;
  - the unit count `n + ceil(n/3)`;
  - the bit-level meaning of the units;
  - that the carry persists from call to call;
  - the truncation rule.
- `Streams`: the class `SixBitsStream` over an in-memory outer stream.
  - Its fields are the mode, the outer contents and position, and the two carries `_previosOutputByteFreeBits` and `_previosInputByteRemBits`.
  - `Write` and `Read` are imperative methods with the source's loops. Each `switch` arm is a method.
  - Each method is proved against the functions `WriteSpec` and `ReadSpec`.
  - As in the source, `count` is the END index of the buffer range, not a length.
  - The range check `offset + count > buffer.Length` adds two C# `int`s. A sum past 2^31 - 1 wraps to a negative value and passes the check. The loop then runs to the end of the buffer and throws `IndexOutOfRangeException` at the first index past it. `Read` reads one more unit before it throws.
- `StreamProperties`: what `WriteSpec` and `ReadSpec` guarantee.
- `Canvas`: the fill loop of `Main` on a two-dimensional array. `SetPixel` outside the bitmap ends the loop with `ArgumentOutOfRangeException`.
- `Encoder`: `Main` from admission to the painted bitmap. It also holds the round trip from the image back to the header and the file.

## Model

| member | source | states |
|---|---|---|
| Layout.ConstantValues | ImgTest.cs:19-25 | `HeaderSizePack` is 128, `MaxFileSize` is 294746 and `MinFileSize` is 16642; the floating-point formulas are evaluated exactly |
| Layout.FloorSqrt | ImgTest.cs:170 | `Math.Floor(Math.Sqrt(t))` on integers: r*r <= t < (r+1)*(r+1) |
| Layout.TotalSize | ImgTest.cs:96 | the unit estimate `(int)(n*8.0/6.0) + 128` satisfies 3(t-128) <= 4n < 3(t-128)+3, i.e. it is floor(4n/3)+128 |
| Layout.GetOptimalSize | ImgTest.cs:166-185 | both sides are at least 1, the area exceeds `totalSize`, and the shorter side is at most the shorter bound |
| Layout.StripArea | ImgTest.cs:177 | `(t + (m - t % m)) / m` is t/m + 1: the least long side whose strip area exceeds t, even when m divides t |
| Layout.OptimalSquare | ImgTest.cs:170-175 | the square's side is the least whose square exceeds `totalSize`, and the square is returned if and only if that side is at most the shorter bound |
| Layout.OptimalStrip | ImgTest.cs:177-184 | past the square, the shorter bound lies along the height exactly when the height is the shorter bound, and the other side is the least length whose area with it exceeds `totalSize` |
| Layout.WithinBounds | ImgTest.cs:166-185 | the chosen size lies within both bounds if and only if `totalSize` is less than their product |
| Layout.AdjustWidth | ImgTest.cs:100 | `Width += Width % 4` yields a multiple of 4 if and only if the width was 0 or 2 mod 4; an odd width becomes 2 mod 4 |
| Layout.PadWidth | ImgTest.cs:100 | the corrected adjustment: the least multiple of 4 that is at least the width |
| Colors.Norm | ImgTest.cs:134-152 | a two-bit field held in bits 7:6 is spread to 85 times its value; every other value is passed through |
| Colors.ColorOf | ImgTest.cs:156-162 | the red, green and blue channels are 85 times bits 5:4, 3:2 and 1:0 of the byte |
| Colors.ColorsFromBytes | ImgTest.cs:154-164 | one colour per byte, in order |
| Colors.ColorRoundTrip | ImgTest.cs:154-164 | every channel is 0, 85, 170 or 255, bits 7:6 play no part, and the unit is recovered from the colour |
| Colors.ColorsDistinct | ImgTest.cs:154-164 | distinct six-bit units get distinct colours |
| Colors.ColorsRoundTrip | ImgTest.cs:154-164 | a run of units is recovered from its colours |
| Headers.LittleEndian32RoundTrip | ImgTest.cs:192-193 | a 32-bit field is recovered from its four marshalled bytes |
| Headers.FromLittleEndian32RoundTrip | ImgTest.cs:192-193 | any four bytes are the marshalled bytes of their value |
| Headers.LittleEndian64RoundTrip | ImgTest.cs:194 | a 64-bit field is recovered from its eight marshalled bytes |
| Headers.FromLittleEndian64RoundTrip | ImgTest.cs:194 | any eight bytes are the marshalled bytes of their value |
| Headers.GuidLayout | ImgTest.cs:101 | `Guid.ToByteArray` stores the GUID's 32-bit field and its two 16-bit fields, which the text writes most significant first, little-endian, then its last eight bytes as written |
| Headers.GuidBytesTwice | ImgTest.cs:101 | the byte order loses nothing: applied twice it gives the text's bytes back |
| Headers.Marker | ImgTest.cs:101 | the marker, the two GUIDs' bytes in a row, is 32 bytes long |
| Headers.MarkerBytes | ImgTest.cs:16-17 | the 32 marker bytes, spelled out |
| Headers.HeaderBytes | ImgTest.cs:187-199 | the marshalled header is `HeaderSize` bytes: the marker at 0..32, the name at 48..80 and the hash at 80..96 |
| Headers.ParseHeader | ImgTest.cs:187-199 | any 96 bytes read as a header give fields of the `SizeConst` lengths |
| Headers.HeaderRoundTrip | ImgTest.cs:104-108 | the header is recovered from its marshalled bytes |
| Headers.HeaderBytesOfParse | ImgTest.cs:104-108 | every 96 bytes are the marshalled bytes of the header read from them |
| SixBits.PackByte | ImgTest.cs:349-371 | one pass of the `Write` loop keeps the packer valid and moves the carry 0 -> 4 -> 2 -> 0. From carry 0 it appends two units. Otherwise it rewrites the last unit and appends one. The units before are untouched, and every unit stays below 64 |
| SixBits.Group | ImgTest.cs:349-371 | three bytes make four units, each below 64 |
| SixBits.DecodeRun | ImgTest.cs:263-301 | the carry stays 0, 4 or 2, no more units are used than there are and no more than `k` bytes are written; a half-built byte is left only when the input ends, with carry 0 |
| SixBitsLemmas.PackShape | ImgTest.cs:344-375 | `n` bytes pack into n + ceil(n/3) units, all below 64, with the carry 0, 4 or 2 for n mod 3 = 0, 1, 2 |
| SixBitsLemmas.PackBits | ImgTest.cs:349-371 | read six bits at a time, the units spell the bits of the input in order, followed by zero free bits |
| SixBitsLemmas.PackRunBits | ImgTest.cs:344-375 | from any valid packer, the units spell what was committed, then the new bytes' bits, then the free bits |
| SixBitsLemmas.PackRunKeepsPrefix | ImgTest.cs:349-371 | packing never changes a unit before the last, unfinished one |
| SixBitsLemmas.PackRunAppend | ImgTest.cs:344-375 | packing `a` then `b` is packing `a + b`: the carry carries over |
| SixBitsLemmas.PackThree | ImgTest.cs:349-371 | from carry 0, three bytes append exactly their four-unit group |
| SixBitsLemmas.PackSplit | ImgTest.cs:349-371 | the packed units of a sequence are the group of its first three bytes followed by the units of the rest |
| SixBitsLemmas.RoundTrip | ImgTest.cs:263-301 | unpacking the packed units of `s` yields `s`, consumes every unit, leaves no half-built byte and ends in the packer's carry |
| SixBitsLemmas.DecodeTruncated | ImgTest.cs:263-307 | from carry 0, decoding all units leaves a half-built byte if and only if their number is 1 mod 4; it consumes every unit and completes 3/4 of them (rounded down) |
| SixBitsLemmas.DecodeShort | ImgTest.cs:263-307 | the same for fewer than four units |
| Streams.Put | ImgTest.cs:314 | the outer memory stream's `WriteByte` overwrites at the position or appends at the end |
| Streams.SixBitsStream.constructor | ImgTest.cs:209-215 | the stream starts at the outer stream's start with both carries 0 |
| Streams.SixBitsStream.ReadByte | ImgTest.cs:263 | the outer stream yields the byte at its position and advances, or -1 at the end |
| Streams.SixBitsStream.WriteByte | ImgTest.cs:312-315 | one unit is written at the outer position, which advances |
| Base.Wrap32 | ImgTest.cs:329 | the C# `int` value of a sum: it lies in [-2^31, 2^31), equals the sum when that is in range, is the sum minus 2^32 when that is in [2^31, 2^32), and is never above the sum |
| Streams.SixBitsStream.Write | ImgTest.cs:317-376 | the new state and the outcome are those of `WriteSpec`, and the stream invariant is kept. This includes the wrapped range check and the `IndexOutOfRangeException` past the buffer |
| Streams.SixBitsStream.PackRange | ImgTest.cs:344-375 | starting from the packer `cur0` laid over the old contents `o0`, the loop ends at `PackRun(cur0, buffer[offset..count))`: the outer stream holds its units followed by the rest of `o0`, and the position and carry are its own |
| Streams.SixBitsStream.PackOne | ImgTest.cs:349-374 | one pass of the loop advances the packer by `PackByte` |
| Streams.SixBitsStream.PackWhenFull | ImgTest.cs:351-355 | `case 0` appends the two units of `PackByte` |
| Streams.SixBitsStream.PackWhenFour | ImgTest.cs:356-363 | `case 4` rewinds, re-reads, rewrites the last unit and appends one, as `PackByte` from carry 4 |
| Streams.SixBitsStream.PackWhenTwo | ImgTest.cs:364-371 | `case 2` does the same from carry 2 |
| Streams.SixBitsStream.RewriteTwo | ImgTest.cs:360-361 | two `WriteByte`s from one before the end replace the last unit and append one |
| Streams.SixBitsStream.Read | ImgTest.cs:232-310 | the new state, the buffer and the result are those of `ReadSpec`, and the stream invariant is kept. This includes the wrapped range check |
| Streams.SixBitsStream.ReadLoop | ImgTest.cs:259-309 | past the guards, the state, buffer and result are those of `ReadRun`: the loop inside the buffer, then, when `count` lies past its end and input remains, one more unit read and `IndexOutOfRangeException` |
| Streams.SixBitsStream.ReadInside | ImgTest.cs:259-309 | the loop over the part of the range inside the buffer gives the state, buffer and result of `ReadWithin`: the decoding of the remaining units, written at `offset` |
| Streams.SixBitsStream.UnpackRange | ImgTest.cs:259-309 | the loop and the check after it leave the decoding of the remaining units in the buffer at `offset`. The position advances by the units used. A half-built byte fails with `InvalidOperationException` |
| Streams.SixBitsStream.UnpackStep | ImgTest.cs:263-301 | one test of the loop condition and one pass of the body keep the loop's progress invariant; the loop ends only at the end of the input |
| Streams.SixBitsStream.Consume | ImgTest.cs:266-301 | the `switch` on the two counters keeps the progress invariant for the unit just read |
| Streams.SixBitsStream.ByteAfterCarry | ImgTest.cs:279-298 | cases "0_4" and "0_2" complete one byte and keep the invariant |
| Streams.SixBitsStream.StartByte | ImgTest.cs:268-272 | case "0_0" sets the top six bits and waits for two more |
| Streams.SixBitsStream.FinishByte | ImgTest.cs:273-278 | case "2_0" completes the byte and leaves four bits |
| Streams.SixBitsStream.ByteAfterFour | ImgTest.cs:279-288 | case "0_4" re-reads the previous unit, completes a byte and leaves two bits |
| Streams.SixBitsStream.ByteAfterTwo | ImgTest.cs:289-298 | case "0_2" re-reads the previous unit, completes a byte and leaves no bits |
| Streams.SixBitsStream.Reread | ImgTest.cs:280-282 | rewinding by two, reading and stepping forward yields the unit before the last one read and leaves the position where it was |
| Streams.SixBitsStream.MergeFour | ImgTest.cs:283-284 | the byte at `resultIndex` becomes the low four bits of the previous unit followed by bits 5:2 of the new one; the rest of the buffer is untouched |
| Streams.SixBitsStream.MergeTwo | ImgTest.cs:293-294 | the byte at `resultIndex` becomes the low two bits of the previous unit followed by the six bits of the new one; the rest of the buffer is untouched |
| Streams.FourStep | ImgTest.cs:279-288 | the byte case "0_4" completes is the next byte of the decoding, so the loop's progress invariant holds with carry 2 |
| Streams.TwoStep | ImgTest.cs:289-298 | the byte case "0_2" completes is the next byte of the decoding, so the loop's progress invariant holds with carry 0 |
| Streams.SixBitsStream.CheckNeed | ImgTest.cs:304-309 | after the loop, a byte still waiting for bits fails with `InvalidOperationException`; otherwise the result is the number of bytes completed |
| Streams.SixBitsStream.Truncated | ImgTest.cs:304-307 | a loop that ended waiting for bits has left the half-built byte, and the decoding says so |
| Streams.SixBitsStream.Completed | ImgTest.cs:309 | a loop that ended between bytes has produced exactly the decoded bytes |
| Streams.EndsHalfBuilt | ImgTest.cs:304-307 | when the input ends after the first unit of a byte, the buffer holds the completed bytes and the half-built one |
| Streams.EndsBetweenBytes | ImgTest.cs:263-309 | when the input ends or `count` is reached between bytes, the buffer holds exactly the completed bytes |
| StreamProperties.Capabilities | ImgTest.cs:378-382 | a stream can be read from or written to but not both, and never seeks. Reading a pack stream fails with `NotSupportedException`, and writing an unpack stream throws it |
| StreamProperties.FreshWrite | ImgTest.cs:317-376 | writing `s` on a fresh pack stream leaves n + ceil(n/3) units below 64 that spell the bits of `s` followed by the carry's free bits |
| StreamProperties.WriteGuards | ImgTest.cs:319-342 | the guards in source order, with the range check on the wrapped sum. A read-only outer stream throws `InvalidOperationException`. `IndexOutOfRangeException` is thrown if and only if the admitted range starts in a nonempty buffer or past it and ends past it, and only when the sum wraps. `Write` returns normally if and only if none of these apply. The state changes only when a byte is packed |
| StreamProperties.WriteWraps | ImgTest.cs:329-342 | `Write(buf, 2^31 - 1, 1)` on a 10-byte buffer passes the range check and returns normally without changing the stream |
| StreamProperties.WritePastEnd | ImgTest.cs:329-346 | `Write(buf, 5, 2^31 - 3)` on a 10-byte buffer leaves the stream as writing `buf[5..10]` would, then throws `IndexOutOfRangeException` |
| StreamProperties.WriteKeepsEarlier | ImgTest.cs:344-375 | `Write` only appends: units before the unfinished one and the outer stream past the new position keep their values |
| StreamProperties.WriteBits | ImgTest.cs:344-375 | after `Write`, the units spell what had been committed, then the bits of `buf[offset..count)`, then zero free bits |
| StreamProperties.WriteTwice | ImgTest.cs:344-375 | two `Write` calls equal one call on the concatenation: the carry persists between calls |
| StreamProperties.ReadInRange | ImgTest.cs:244-309 | when the range lies inside the buffer, `Read` past the guards is exactly its loop over `[offset, count)` |
| StreamProperties.FreshRead | ImgTest.cs:232-310 | reading the packed units of `s`, for any `count` from `|s|` to the buffer's length, including an empty `s`, returns `|s|`, puts `s` at the start of the buffer and leaves the rest alone |
| StreamProperties.PackThenUnpack | ImgTest.cs:81-92 | packing `s` on a fresh stream and unpacking the result gives `s` back |
| StreamProperties.ReadToEnd | ImgTest.cs:263-309 | from carry 0, reading all remaining units fails if and only if their number is 1 mod 4; otherwise it returns 3/4 of their number; either way every unit is consumed |
| StreamProperties.ReadGuards | ImgTest.cs:234-257 | the guards in source order, with the range check on the wrapped sum. An empty buffer, `count == 0` or `offset == |buf|` returns 0 and changes nothing. `IndexOutOfRangeException` comes only from a wrapped sum with `count` past the buffer. The stream changes only when the loop runs, and the buffer only when a byte fits, and only from `offset` on |
| StreamProperties.ReadWraps | ImgTest.cs:244-257 | `Read(buf, 2^31 - 1, 1)` on a 10-byte buffer passes the range check and returns 0 without reading |
| StreamProperties.ReadPastEnd | ImgTest.cs:244-309 | `Read(buf, 1, 2^31 - 1)` on a 2-byte buffer over the units 0x10, 0x20, 0x30 decodes 0x42 into `buf[1]`, reads the third unit and throws `IndexOutOfRangeException`, keeping carry 4 |
| Canvas.Paint | ImgTest.cs:110-126 | a new bitmap of the given size shows colour `p / 4` at row-major pixel `p` up to the last colour, and the background after |
| Canvas.Fill | ImgTest.cs:112-126 | the loop completes if and only if the colours fit. Otherwise `SetPixel` throws `ArgumentOutOfRangeException`. Each pixel holds its colour when the loop reached it, and the background otherwise |
| Canvas.Blank | ImgTest.cs:110 | a new bitmap, all background, is painted correctly with the cursor at (0, 0) |
| Canvas.SetPixel | ImgTest.cs:118 | setting the pixel at the cursor to the colour of unit `p / 4` extends the correctly painted region by that pixel |
| Canvas.SetColor | ImgTest.cs:116-119 | the inner loop sets up to four pixels of one colour, stopping at the first pixel outside the bitmap |
| Canvas.Stopped | ImgTest.cs:116-125 | a loop stopped by `SetPixel` means the colours do not fit, and the pixels before the cursor are exactly those reached |
| Canvas.Finished | ImgTest.cs:112-126 | a loop that ran through every colour means the colours fit, and the pixels before the cursor are exactly those reached |
| Canvas.RowStart | ImgTest.cs:116-125 | with a width that is a multiple of 4 a colour never crosses the row end; with any other width no colour ends exactly at the row end, so the cursor never wraps |
| Canvas.Wrap | ImgTest.cs:121-125 | moving the cursor to the next row keeps the painted pixels the same |
| Canvas.Reached | ImgTest.cs:112-126 | the painted region, once known to be exactly the reached pixels, gives the final bitmap |
| Canvas.RowMajor | ImgTest.cs:121-125 | pixel (a, b) comes before the cursor (x, y) if and only if `b*width + a < y*width + x` |
| Encoder.Admit | ImgTest.cs:40-63 | the admission checks in source order; a file is admitted if and only if its length is within the bounds and its name at most 32 bytes; the name is padded with zeros to 32 bytes |
| Encoder.PackBytes | ImgTest.cs:81-92 | the local `Pack` yields `Pack` of its input: n + ceil(n/3) units, all below 64 |
| Encoder.PlannedSize | ImgTest.cs:99 | the planned size of an admissible file lies within 1850 x 850 |
| Encoder.PlannedArea | ImgTest.cs:96-99 | the planned area exceeds four pixels per estimated unit |
| Encoder.Size | ImgTest.cs:99-100 | with the width rounded up, the size is at most 1852 x 850 (`MaxWidth` is 2 mod 4) and the width is a multiple of 4 |
| Encoder.EstimateShort | ImgTest.cs:96 | the estimate `totalSize` falls short of the units actually packed by at most one |
| Encoder.SizeFits | ImgTest.cs:96-126 | with the width rounded up, every unit of an admissible file fits the bitmap |
| Encoder.FitsByArea | ImgTest.cs:96-100 | a width that is a multiple of 4 and no smaller than the planned one leaves room for one unit more than estimated |
| Encoder.SizeAsWrittenFails | ImgTest.cs:99-126 | as written, an admitted file whose planned width is odd does not fit the bitmap |
| Encoder.SizeAsWrittenCounterexample | ImgTest.cs:96-100 | the smallest admitted file is planned 299 x 299 and gets width 302; its 22318 units do not fit one row |
| Encoder.SqrtIs | ImgTest.cs:170 | the integer square root is unique |
| Encoder.HeaderFor | ImgTest.cs:94-102 | the header of an admitted file is well formed. It stores the corrected width (see Findings) |
| Encoder.Payload | ImgTest.cs:104-114 | the packed payload is the header's 96 bytes followed by the file |
| Encoder.Encode | ImgTest.cs:40-126 | refused files fail as `Admit` says and a hash that is not 16 bytes fails; otherwise the bitmap has the size above and shows colour `p / 4` of the packed payload at pixel `p`, black after the last |
| Encoder.ImageRoundTrip | ImgTest.cs:81-126 | the units are recovered from the image's colours, and unpacking them returns the header's bytes and the file. The header read back is the one written |
| Encoder.UnitsFromColors | ImgTest.cs:114 | the colours of packed units give the units back |
| Encoder.HeaderFromPayload | ImgTest.cs:104-108 | a buffer starting with the payload holds the header's bytes, which parse to the header, and then the file |

## Left out

- Reading the file and computing its MD5 hash are out of scope (`File.ReadAllBytes`, `MD5.ComputeHash`). The data, the UTF-8 bytes of the name and the hash are inputs of `Encode`.
- The message boxes and `Application.Run(new Form1(bitmap))` are out of scope: an admission refusal is a `Failure` value, and `Encode` returns the bitmap instead of showing it.
- `Marshal.StructureToPtr` is modelled as the explicit packed little-endian layout of `Header`. `Guid.Parse` and `Guid.ToByteArray` are modelled as the GUIDs' byte order, written out.
- Floating point is not modelled. `Math.Sqrt` becomes an integer square root and `(int)(n * 8.0 / 6.0)` becomes `n * 8 / 6`; both are exact for the sizes involved. The constants are evaluated exactly.
- `offset`, `count` and the buffer's length are unbounded integers in the model. C# `int` arguments lie in [-2^31, 2^31), and for them `Wrap32` gives the sum exactly as the source computes it.
- Layout.GetOptimalSize: requires `totalSize + minSide` to fit an `int`, so the `(int)` cast and `Convert.ToInt32` never overflow. Every admissible file is far below that bound.
- `Flush`, `Seek`, `SetLength`, `Length` and the `Position` property of `SixBitsStream` only throw or are never used; they are not modelled.
- The constructor's null check is not modelled: the outer stream is always present.
- The outer stream is modelled as a memory stream: `ReadByte`, `WriteByte` and the seeks by `Position -= 1`/`-= 2`/`++` act on a byte sequence.
- Streams.SixBitsStream.constructor: starts at position 0 of the outer stream. The C# constructor leaves the outer stream's position where it is. The two agree at the only call site, which passes a new `MemoryStream`.
- Streams.SixBitsStream.constructor: a pack stream requires a readable outer stream. `Write` re-reads the last unit, which a write-only stream cannot do.
- The `default` arms of the two `switch` statements are not modelled: the invariant proves the carries are always 0, 4 or 2, so the arms cannot run.
- Headers.HeaderBytes: `Width`, `Height` and `FileOriginalLenght` are stored as their bits (`bv32`, `bv64`). The encoder only stores non-negative values, so their two's complement is their binary form.
- Canvas.Fill: requires a bitmap that shows one background colour everywhere, which is what `new Bitmap` gives. It does not model filling a bitmap that was already painted.
- Encoder.Size: the rounded-up width can reach 1852, beyond `MaxWidth`. The source's own adjustment can exceed the bound too.
- Encoder.SizeAsWritten: has no contract of its own. It is the size as written, and `SizeAsWrittenFails` and `SizeAsWrittenCounterexample` state what goes wrong with it.
- `Encode` and `HeaderFor` use the corrected width (see Findings): the bitmap is painted with it and the header stores it. With the width as written, the fill loop throws for the inputs described there.

## Findings

| source | as written | input that shows it | evidently intended | confidence | as-written member | corrected member |
|---|---|---|---|---|---|---|
| ImgTest.cs:100 | `header.Width += header.Width % DuplCoeef` turns a width that is 1 or 3 mod 4 into one that is 2 mod 4. The fill loop's `x == header.Width` never holds, so the cursor never wraps, and `SetPixel` throws once the first row is full | the smallest admitted file, 16642 bytes: `GetOptimalSize` plans 299 x 299, the width becomes 302, and the 22318 units need 89272 pixels on the first row | round the width up to the next multiple of 4 | not executed | Encoder.SizeAsWrittenCounterexample | Encoder.SizeFits |
