# Farbfeld codec (Cyotek.Drawing.Imaging.Farbfeld), modelled in Dafny

Farbfeld is a lossless image format. A file holds the 8-byte ASCII magic
`farbfeld`, the width and the height as big-endian 32-bit numbers, and then one
8-byte record per pixel in row-major order. Each record holds R, G, B and A as
big-endian 16-bit numbers. The C# library reads such a file into a 32bpp ARGB
bitmap (`FarbfeldDecoder`). It keeps the high byte of each 16-bit channel. It
also writes a 32bpp ARGB bitmap as farbfeld (`FarbfeldEncoder`), widening each
8-bit channel by multiplying it by 256. `FarbfeldImageData` is a separate
R, G, B, A byte buffer with dimensions. The library's helpers are
`WordHelpers` (building and swapping words), `StreamExtensions` (big-endian
reads and writes on a stream) and `ArgbColor` (a readonly 4-byte colour, laid
out B, G, R, A). The benchmark program has its own image loader
(`ImageData`, which divides each channel by 257). It also has four decoders
and four encoders that move the same data at different granularities: a byte,
the whole payload, a pixel or a row at a time. Each benchmark ends with a
check.

The model, module by module:

- `Primitives` holds the C# integer machinery. That is the byte, ushort and
  int32 ranges, unchecked 32-bit wrap-around, the `(byte)` cast, C#'s
  truncating division, big-endian byte splitting and the decimal formatting
  of an interpolated int.
  `Exceptions` holds the .NET exceptions and the `Result`/`Outcome` types
  that carry them.
- `Streams` holds the `System.IO.Stream` calls the code makes. A read stream
  is a fixed content plus a position. `ReadByte` gives -1 at the end, and
  `Read` copies what is left. A write stream is the append-only sequence of
  bytes written so far.
- `WordHelpers`, `BenchmarkWordHelpers`, `StreamExtensions` and `ArgbColors`
  are pure functions, or methods on the stream classes, as in the source.
  `Drawing` is the bitmap as width, height, pixel format and pixels in scan
  order.
- `FarbfeldFormat` gives the reference definitions every reader and writer is
  proved against: the header, the record of a pixel and the decoded record.
- `FarbfeldDecoder` and `FarbfeldEncoder` are imperative methods over the
  streams. Each is proved equal to a specification function (`DecodeSpec`,
  `EncodedFile`). Lemmas about those functions give:
  - the round trip: `DecodeSpec` of `EncodedFile` of any bitmap `Encode`
    accepts is that bitmap (`EncodeDecodeRoundTrip`);
  - rejection exactly when the magic is wrong;
  - the behaviour of a truncated file.
- `ImageBuffer.FarbfeldImageData` is a class with `Width`, `Height` and the
  buffer. `SetData`, `GetData`, `LoadFrom`, `ToBitmap` and the constructors
  are methods on it.
- `BenchmarkImageData`, `DecodingBenchmarks` and `EncodingBenchmarks` hold
  the benchmark readers and writers. They keep the source's arrays and index
  arithmetic: `j * 8`, `col * 8`, and `row * width + col`, with the row start
  kept as a running sum. Each is proved to read exactly `FilePixels` (the
  decoders) or to write exactly `EncodedFile` (the encoders). So all four
  decoders agree, and so do all four encoders. Both `Check` methods are
  proved equal to a recursive specification. Lemmas state when each check
  passes.

## Model

| member | source | states |
|---|---|---|
| `Primitives.Int32Wrap` | src/Cyotek.Drawing.Imaging.Farbfeld/FarbfeldDecoder.cs:66 | unchecked int multiplication: the exact value whenever it fits in an int32 |
| `Primitives.Int32WrapCongruent` | src/Cyotek.Drawing.Imaging.Farbfeld/FarbfeldDecoder.cs:66 | the wrapped result differs from the exact product by a multiple of 2^32 |
| `Primitives.LowByte` | src/Cyotek.Drawing.Imaging.Farbfeld/ArgbColor.cs:39-42 | the `(byte)` cast keeps a value already in 0..255 and turns -1 into 0xFF |
| `Primitives.CsDiv` | src/Cyotek.Drawing.Imaging.Farbfeld/FarbfeldDecoder.cs:160-163 | C# division by 256: Euclidean division for non-negative values, 0 for -1 (truncation toward zero) |
| `Primitives.IntToString` | src/Cyotek.Drawing.Imaging.Farbfeld/FarbfeldImageData.cs:85 | interpolated ints are non-empty and start with '-' exactly when negative |
| `Primitives.NatToString` | src/Cyotek.Drawing.Imaging.Farbfeld/FarbfeldImageData.cs:85 | decimal digits only, at least one |
| `Primitives.NatToStringValue` | src/Cyotek.Drawing.Imaging.Farbfeld/FarbfeldImageData.cs:85 | the digits written for n, read back as a decimal number, are n |
| `Primitives.NatToStringLeadingDigit` | src/Cyotek.Drawing.Imaging.Farbfeld/FarbfeldImageData.cs:85 | no leading zero: the first digit is '0' exactly for 0 |
| `Primitives.NatToStringInjective` | src/Cyotek.Drawing.Imaging.Farbfeld/FarbfeldImageData.cs:85 | two numbers are written alike exactly when they are equal |
| `Primitives.IntToStringValue` | src/Cyotek.Drawing.Imaging.Farbfeld/FarbfeldImageData.cs:85 | read back: '-' and the magnitude's digits for a negative x, x's own digits otherwise, a leading '0' only for 0 |
| `Streams.InputStream.ReadByte` | src/Cyotek.Drawing.Imaging.Farbfeld/StreamExtensions.cs:16 | the next byte and one position on, or -1 without moving at the end of the stream |
| `Streams.InputStream.Read` | src/Cyotek.Drawing.Imaging.Farbfeld/FarbfeldDecoder.cs:113 | copies min(count, remaining) bytes to buffer[offset..], leaves every other buffer slot alone, returns the count copied |
| `Streams.OutputStream.WriteByte` | src/Cyotek.Drawing.Imaging.Farbfeld/FarbfeldEncoder.cs:67-74 | appends exactly the one byte |
| `Streams.OutputStream.Write` | src/Benchmark/EncodingBenchmarks.cs:224-227 | appends exactly buffer[offset..offset + count] |
| `WordHelpers.MakeDWordBigEndian` | src/Cyotek.Drawing.Imaging.Farbfeld/WordHelpers.cs:7-10 | the result's 32-bit pattern is v1·2^24 + v2·2^16 + v3·2^8 + v4; it is negative exactly when v1 ≥ 128 |
| `WordHelpers.MakeDWordBigEndianBytes` | src/Cyotek.Drawing.Imaging.Farbfeld/WordHelpers.cs:7-10 | the result's four bytes, most significant first, are the four arguments |
| `WordHelpers.MakeDWordLittleEndian` | src/Cyotek.Drawing.Imaging.Farbfeld/WordHelpers.cs:12-15 | equals MakeDWordBigEndian with the arguments reversed |
| `WordHelpers.MakeWordBigEndian` | src/Cyotek.Drawing.Imaging.Farbfeld/WordHelpers.cs:17-20 | equals value1·256 + value2, a ushort, so the cast never loses a bit |
| `WordHelpers.MakeWordBigEndianBytes` | src/Cyotek.Drawing.Imaging.Farbfeld/WordHelpers.cs:17-20 | the word's bytes, high first, are (value1, value2) |
| `WordHelpers.MakeWordLittleEndian` | src/Cyotek.Drawing.Imaging.Farbfeld/WordHelpers.cs:22-25 | equals value1 + value2·256, that is MakeWordBigEndian(value2, value1) |
| `WordHelpers.SwapBytes` | src/Cyotek.Drawing.Imaging.Farbfeld/WordHelpers.cs:27-30 | the result's bytes, high first, are the value's low byte then its high byte |
| `WordHelpers.SwapBytesOfWord` | src/Cyotek.Drawing.Imaging.Farbfeld/WordHelpers.cs:17-30 | SwapBytes(MakeWordBigEndian(a, b)) == MakeWordBigEndian(b, a) |
| `WordHelpers.SwapBytesInvolution` | src/Cyotek.Drawing.Imaging.Farbfeld/WordHelpers.cs:27-30 | swapping twice gives the word back |
| `BenchmarkWordHelpers.MakeDWordBigEndian` | src/Benchmark/WordHelpers.cs:7-10 | the same int as the library's MakeDWordBigEndian |
| `BenchmarkWordHelpers.MakeDWordLittleEndian` | src/Benchmark/WordHelpers.cs:12-15 | equals this copy's MakeDWordBigEndian with the arguments reversed |
| `BenchmarkWordHelpers.MakeWordBigEndian` | src/Benchmark/WordHelpers.cs:17-20 | lies in 0..65535 and is the same number as the library's ushort version |
| `BenchmarkWordHelpers.MakeWordLittleEndian` | src/Benchmark/WordHelpers.cs:22-25 | the library's MakeWordLittleEndian and this copy's MakeWordBigEndian(value2, value1) |
| `StreamExtensions.ShiftOr` | src/Cyotek.Drawing.Imaging.Farbfeld/StreamExtensions.cs:16 | `(high << 8) \| low` on ReadByte results: -1 whenever the low byte is missing, otherwise the big-endian word |
| `StreamExtensions.ReadUInt16BigEndian` | src/Cyotek.Drawing.Imaging.Farbfeld/StreamExtensions.cs:14-17 | with two bytes left, b0·256 + b1, else -1; the stream moves on two bytes, or to its end |
| `StreamExtensions.ReadByteOrFF` | src/Cyotek.Drawing.Imaging.Farbfeld/StreamExtensions.cs:26-27 | `(byte)ReadByte()` is the byte, or 0xFF past the end |
| `StreamExtensions.ReadUInt32BigEndian` | src/Cyotek.Drawing.Imaging.Farbfeld/StreamExtensions.cs:24-28 | the big-endian int32 of the next four bytes, each missing byte read as 0xFF; the stream moves on four bytes, or to its end |
| `StreamExtensions.WriteBigEndian16` | src/Cyotek.Drawing.Imaging.Farbfeld/StreamExtensions.cs:35-39 | appends exactly [v / 256, v % 256] |
| `StreamExtensions.WriteBigEndian32` | src/Cyotek.Drawing.Imaging.Farbfeld/StreamExtensions.cs:46-52 | appends exactly four bytes, the 32-bit pattern most significant first, negative values included |
| `StreamExtensions.ReadBackUInt16` | src/Cyotek.Drawing.Imaging.Farbfeld/StreamExtensions.cs:14-39 | reading back what WriteBigEndian(ushort) wrote gives the value, whatever follows |
| `StreamExtensions.ReadBackUInt32` | src/Cyotek.Drawing.Imaging.Farbfeld/StreamExtensions.cs:24-52 | reading back what WriteBigEndian(int) wrote gives the value, whatever follows |
| `StreamExtensions.ReadUInt16AtEnd` | src/Cyotek.Drawing.Imaging.Farbfeld/StreamExtensions.cs:16 | with fewer than two bytes left the result is -1, hence negative |
| `StreamExtensions.ReadUInt32AtEnd` | src/Cyotek.Drawing.Imaging.Farbfeld/StreamExtensions.cs:26-27 | at the end of the stream the four 0xFF bytes make -1 |
| `ArgbColors.ArgbColor.Bytes` | src/Cyotek.Drawing.Imaging.Farbfeld/ArgbColor.cs:14-24 | the memory layout: B at offset 0, G at 1, R at 2, A at 3 |
| `ArgbColors.NewArgbColor` | src/Cyotek.Drawing.Imaging.Farbfeld/ArgbColor.cs:37-43 | arguments in the order alpha, red, green, blue; an argument already in 0..255 is kept |
| `ArgbColors.NewArgbColorModulo` | src/Cyotek.Drawing.Imaging.Farbfeld/ArgbColor.cs:37-79 | each getter gives its constructor argument modulo 256, for any sign |
| `ArgbColors.NewArgbColorOfComponents` | src/Cyotek.Drawing.Imaging.Farbfeld/ArgbColor.cs:37-79 | rebuilding a colour from its getters gives the same colour |
| `ArgbColors.ByteLayout` | src/Cyotek.Drawing.Imaging.Farbfeld/ArgbColor.cs:9-24 | the bytes are [blue, green, red, alpha] mod 256; read little-endian they form 0xAARRGGBB |
| `Drawing.CreateBitmap` | src/Cyotek.Drawing.Imaging.Farbfeld/FarbfeldDecoder.cs:119-145 | succeeds exactly for sizes GDI+ accepts; the bitmap is 32bpp ARGB, of those dimensions, with the pixels in order |
| `Drawing.SizeAcceptedPixelCount` | src/Cyotek.Drawing.Imaging.Farbfeld/FarbfeldDecoder.cs:135 | for an accepted size, `width * height` computed in 32 bits is exact and positive |
| `FarbfeldFormat.Header` | src/Cyotek.Drawing.Imaging.Farbfeld/FarbfeldEncoder.cs:67-80 | the header is 16 bytes |
| `FarbfeldFormat.NarrowMeaning` | src/Benchmark/ImageData.cs:70-73 | /256 keeps the high byte; /257 gives the r with r·257 ≤ v < (r+1)·257 |
| `FarbfeldFormat.RecordPixelChannels` | src/Cyotek.Drawing.Imaging.Farbfeld/FarbfeldDecoder.cs:160-165 | channel t of a record decoded with /256 is byte o + 2t, in the order R, G, B, A |
| `FarbfeldFormat.NarrowBy257Examples` | src/Benchmark/ImageData.cs:70-73 | 65535 → 255, 0 → 0, 32896 → 128 |
| `FarbfeldDecoder.SniffIffMagic` | src/Cyotek.Drawing.Imaging.Farbfeld/FarbfeldDecoder.cs:111-116 | the buffer check passes exactly when at least 8 bytes were left and they are the magic; shorter input fails, because unfilled slots are 0 |
| `FarbfeldDecoder.IsFarbfeldImage` | src/Cyotek.Drawing.Imaging.Farbfeld/FarbfeldDecoder.cs:102-117 | null → ArgumentNullException("stream"); otherwise the magic comparison on the bytes read, with up to 8 bytes consumed and not rewound |
| `FarbfeldDecoder.ReadPixel` | src/Cyotek.Drawing.Imaging.Farbfeld/FarbfeldDecoder.cs:155-165 | four ReadUInt16BigEndian results divided by 256, given as (a, r, g, b); the stream moves on 8 bytes |
| `FarbfeldDecoder.ReadPixelData` | src/Cyotek.Drawing.Imaging.Farbfeld/FarbfeldDecoder.cs:147-169 | a negative length overflows without reading; otherwise pixel i comes from the bytes 8i on and the stream moves on 8·length bytes |
| `FarbfeldDecoder.ReadDimensions` | src/Cyotek.Drawing.Imaging.Farbfeld/FarbfeldDecoder.cs:64-65 | the width from bytes 8..11 and the height from bytes 12..15 |
| `FarbfeldDecoder.DecodeSpecSteps` | src/Cyotek.Drawing.Imaging.Farbfeld/FarbfeldDecoder.cs:64-69 | once the magic has been seen: a negative 32-bit product overflows, otherwise the result is the bitmap of `width * height` pixels read |
| `FarbfeldDecoder.Decode` | src/Cyotek.Drawing.Imaging.Farbfeld/FarbfeldDecoder.cs:47-70 | null → ArgumentNullException; the result is DecodeSpec of the stream's bytes; a success consumes 16 + 8 bytes per pixel; a bad magic consumes only the 8 sniffed bytes |
| `FarbfeldDecoder.DecodeRejectsIffNoMagic` | src/Cyotek.Drawing.Imaging.Farbfeld/FarbfeldDecoder.cs:59-62 | InvalidDataException exactly when the first 8 bytes are not the magic |
| `FarbfeldDecoder.DecodeHeaderFields` | src/Cyotek.Drawing.Imaging.Farbfeld/FarbfeldDecoder.cs:64-69 | a decoded bitmap has the header's big-endian width and height, width·height pixels and the 32bpp ARGB format |
| `FarbfeldDecoder.StreamPixelOfRecord` | src/Cyotek.Drawing.Imaging.Farbfeld/FarbfeldDecoder.cs:160-165 | a whole record decodes to the record's channels divided by 256 |
| `FarbfeldDecoder.StreamPixelsOfCompleteData` | src/Cyotek.Drawing.Imaging.Farbfeld/FarbfeldDecoder.cs:151-166 | with every record present, pixel i is record i, channels R, G, B, A |
| `FarbfeldDecoder.DecodeCompleteFile` | src/Cyotek.Drawing.Imaging.Farbfeld/FarbfeldDecoder.cs:47-70 | a complete file decodes to its header's dimensions and its records, in order |
| `FarbfeldDecoder.PixelPastEndIsZero` | src/Cyotek.Drawing.Imaging.Farbfeld/FarbfeldDecoder.cs:160-165 | past the end of the stream a pixel reads as transparent black |
| `FarbfeldDecoder.DecodeHeaderOnly` | src/Cyotek.Drawing.Imaging.Farbfeld/FarbfeldDecoder.cs:64-69 | a file that stops after its header decodes, without error, to an all-transparent-black bitmap |
| `FarbfeldEncoder.Widen` | src/Cyotek.Drawing.Imaging.Farbfeld/FarbfeldEncoder.cs:91-94 | `(ushort)(c * 256)` has high byte c and low byte 0 |
| `FarbfeldEncoder.PixelRecord` | src/Cyotek.Drawing.Imaging.Farbfeld/FarbfeldEncoder.cs:91-99 | a pixel's record is 8 bytes |
| `FarbfeldEncoder.PixelRecordBytes` | src/Cyotek.Drawing.Imaging.Farbfeld/FarbfeldEncoder.cs:91-99 | a record is [R, 0, G, 0, B, 0, A, 0]: every low byte is 0 |
| `FarbfeldEncoder.RecordsLength` | src/Cyotek.Drawing.Imaging.Farbfeld/FarbfeldEncoder.cs:84-100 | 8 bytes per pixel |
| `FarbfeldEncoder.RecordsAppend` | src/Cyotek.Drawing.Imaging.Farbfeld/FarbfeldEncoder.cs:84-100 | the records of two runs of pixels are the records of each, concatenated |
| `FarbfeldEncoder.RecordsAt` | src/Cyotek.Drawing.Imaging.Farbfeld/FarbfeldEncoder.cs:84-100 | pixel j's record sits at bytes 8j..8j+7 |
| `FarbfeldEncoder.EncodedFileLayout` | src/Cyotek.Drawing.Imaging.Farbfeld/FarbfeldEncoder.cs:67-100 | 16 + 8 bytes per pixel: the magic, the big-endian width and height, then the records |
| `FarbfeldEncoder.RecordPixelOfPixelRecord` | src/Cyotek.Drawing.Imaging.Farbfeld/FarbfeldEncoder.cs:91-99 | a pixel's record decodes with /256 to the pixel |
| `FarbfeldEncoder.RecordPixelsOfRecords` | src/Cyotek.Drawing.Imaging.Farbfeld/FarbfeldEncoder.cs:91-94 | round trip: decoding the records with /256 gives every pixel back, since (v·256)/256 == v |
| `FarbfeldEncoder.EncodeDecodeRoundTrip` | src/Cyotek.Drawing.Imaging.Farbfeld/FarbfeldEncoder.cs:67-100 | for every bitmap Encode accepts (32bpp ARGB, any GDI+-accepted size), decoding what it writes gives exactly that bitmap back |
| `FarbfeldEncoder.GetPixels` | src/Cyotek.Drawing.Imaging.Farbfeld/FarbfeldEncoder.cs:103-136 | the array holds the bitmap's pixels in scan order, (row, col) at row·width + col |
| `FarbfeldEncoder.WriteMagic` | src/Cyotek.Drawing.Imaging.Farbfeld/FarbfeldEncoder.cs:67-74 | appends exactly `farbfeld` |
| `FarbfeldEncoder.WriteHeader` | src/Cyotek.Drawing.Imaging.Farbfeld/FarbfeldEncoder.cs:67-80 | appends exactly the header: the magic, the width, the height |
| `FarbfeldEncoder.WritePixel` | src/Cyotek.Drawing.Imaging.Farbfeld/FarbfeldEncoder.cs:86-99 | appends exactly the pixel's record |
| `FarbfeldEncoder.WritePixels` | src/Cyotek.Drawing.Imaging.Farbfeld/FarbfeldEncoder.cs:84-100 | appends exactly the records of the array, in order |
| `FarbfeldEncoder.WriteImage` | src/Cyotek.Drawing.Imaging.Farbfeld/FarbfeldEncoder.cs:67-100 | appends exactly EncodedFile of the bitmap |
| `FarbfeldEncoder.Encode` | src/Cyotek.Drawing.Imaging.Farbfeld/FarbfeldEncoder.cs:46-101 | null stream or image → ArgumentNullException, other formats → ArgumentException, each writing nothing; otherwise appends exactly the encoded file |
| `ImageBuffer.RequiredLength` | src/Cyotek.Drawing.Imaging.Farbfeld/FarbfeldImageData.cs:81 | `Width * Height * 4` in 32 bits: exact when it fits, 0 when a dimension is 0 |
| `ImageBuffer.DataPixels` | src/Cyotek.Drawing.Imaging.Farbfeld/FarbfeldImageData.cs:114-121 | one pixel per four bytes |
| `ImageBuffer.PixelData` | src/Cyotek.Drawing.Imaging.Farbfeld/FarbfeldImageData.cs:114-121 | the layout inverse to ToBitmap's mapping: four bytes per pixel |
| `ImageBuffer.DataPixelChannels` | src/Cyotek.Drawing.Imaging.Farbfeld/FarbfeldImageData.cs:114-121 | pixel i has R = data[4i], G = data[4i+1], B = data[4i+2], A = data[4i+3] |
| `ImageBuffer.PixelDataAt` | src/Cyotek.Drawing.Imaging.Farbfeld/FarbfeldImageData.cs:114-121 | pixel j's R, G, B, A sit at bytes 4j..4j+3 of the layout |
| `ImageBuffer.DataPixelsOfPixelData` | src/Cyotek.Drawing.Imaging.Farbfeld/FarbfeldImageData.cs:114-121 | reading a layout back with ToBitmap's mapping gives the pixels it was made from |
| `ImageBuffer.DataPixelsOfZeros` | src/Cyotek.Drawing.Imaging.Farbfeld/FarbfeldImageData.cs:129-142 | the zero-filled buffer LoadFrom stores shows as transparent black |
| `ImageBuffer.DataLengthMessageNamesLength` | src/Cyotek.Drawing.Imaging.Farbfeld/FarbfeldImageData.cs:83-86 | the message is "Data must contain ", then digits denoting the required length, then " elements." |
| `ImageBuffer.DataLengthMessageOf32By32` | src/Cyotek.Drawing.Imaging.Farbfeld/FarbfeldImageData.cs:81-86 | 32 × 32 needs 4096 bytes, and the message names 4096 |
| `ImageBuffer.AcceptedLength` | src/Cyotek.Drawing.Imaging.Farbfeld/FarbfeldImageData.cs:81-86 | for sizes GDI+ accepts, the required length is exactly 4 bytes per pixel |
| `ImageBuffer.FarbfeldImageData.constructor` | src/Cyotek.Drawing.Imaging.Farbfeld/FarbfeldImageData.cs:43-46 | no dimensions and an empty buffer |
| `ImageBuffer.FarbfeldImageData.GetData` | src/Cyotek.Drawing.Imaging.Farbfeld/FarbfeldImageData.cs:67-70 | a new array holding a copy of the buffer |
| `ImageBuffer.FarbfeldImageData.SetData` | src/Cyotek.Drawing.Imaging.Farbfeld/FarbfeldImageData.cs:72-89 | null → ArgumentNullException and a wrong length → ArgumentException with the interpolated length, both keeping the buffer; otherwise the buffer becomes a copy; the dimensions never change |
| `ImageBuffer.FarbfeldImageData.LoadFrom` | src/Cyotek.Drawing.Imaging.Farbfeld/FarbfeldImageData.cs:129-142 | takes the image's dimensions and a zero-filled buffer of 4·w·h bytes; no pixel is copied |
| `ImageBuffer.FarbfeldImageData.ToBitmap` | src/Cyotek.Drawing.Imaging.Farbfeld/FarbfeldImageData.cs:91-127 | sizes GDI+ refuses fail; a buffer too short for the dimensions runs off its end; otherwise a 32bpp ARGB bitmap whose pixel i is bytes 4i..4i+3 |
| `ImageBuffer.FarbfeldImageData.New` | src/Cyotek.Drawing.Imaging.Farbfeld/FarbfeldImageData.cs:48-53 | sets the dimensions, then SetData's checks decide: the same two exceptions, or an object holding a copy of the data |
| `ImageBuffer.FarbfeldImageData.FromBitmap` | src/Cyotek.Drawing.Imaging.Farbfeld/FarbfeldImageData.cs:23-41 | null → ArgumentNullException; otherwise the image's dimensions and a zero-filled buffer |
| `ImageBuffer.SetDataRejectsShortBuffer` | src/Cyotek.Drawing.Imaging.Farbfeld/FarbfeldImageData.cs:81-86 | a 32 × 32 object refuses 16 bytes with "Data must contain 4096 elements." and keeps its empty buffer |
| `ImageBuffer.CopiesAreIndependent` | src/Cyotek.Drawing.Imaging.Farbfeld/FarbfeldImageData.cs:67-89 | writes to the array given to SetData, or to one GetData returned, do not reach the stored buffer |
| `BenchmarkImageData.ReadHeader` | src/Benchmark/ImageData.cs:44-50 | the first 8 bytes read and ignored; the width and height from bytes 8..15, big-endian |
| `BenchmarkImageData.DecodeRecord` | src/Benchmark/ImageData.cs:68-75 | the record at `index` of the buffer, each channel narrowed, as (a, r, g, b) |
| `BenchmarkImageData.DecodeRow` | src/Benchmark/ImageData.cs:60-76 | pixels[start + col] is the record at buffer offset col·8, and no other pixel changes |
| `BenchmarkImageData.ReadRow` | src/Benchmark/ImageData.cs:58-76 | one Read of a whole row, then the row in its place: the decoded prefix grows by one row |
| `BenchmarkImageData.ReadRowsInto` | src/Benchmark/ImageData.cs:56-77 | after `height` rows every pixel is the record at its place in the data, and the stream has moved past them |
| `BenchmarkImageData.RowStartIsProduct` | src/Benchmark/ImageData.cs:75 | the running row start is `row * width` |
| `BenchmarkImageData.RowStartMonotone` | src/Benchmark/ImageData.cs:75 | later rows start no earlier |
| `BenchmarkImageData.ProductFits` | src/Benchmark/ImageData.cs:51 | a pixel count whose record bytes fit in an int fits in an int |
| `BenchmarkImageData.ReadRows` | src/Benchmark/ImageData.cs:51-77 | `width * height` pixels, pixel (row, col) at row·width + col being the record at its place in the file |
| `BenchmarkImageData.ImageData.Load` | src/Benchmark/ImageData.cs:29-83 | the header's dimensions and, with each channel divided by 257, the file's records in order |
| `BenchmarkImageData.ImageData.constructor` | src/Benchmark/ImageData.cs:10-13 | what Load gives |
| `DecodingBenchmarks.FilePixels` | src/Benchmark/DecodingBenchmarks.cs:110-111 | one pixel per pixel of the header's dimensions |
| `DecodingBenchmarks.ReadByteAtATime` | src/Benchmark/DecodingBenchmarks.cs:105-126 | Test1 reads exactly FilePixels of the file |
| `DecodingBenchmarks.ReadAllPixelDataAtOnce` | src/Benchmark/DecodingBenchmarks.cs:159-188 | Test2 reads exactly FilePixels of the file |
| `DecodingBenchmarks.ReadBuffer` | src/Benchmark/DecodingBenchmarks.cs:168-170 | one Read fills the whole `width * height * 8` buffer with the next bytes |
| `DecodingBenchmarks.DecodeAll` | src/Benchmark/DecodingBenchmarks.cs:172-188 | pixel j is the record at buffer offset j·8 |
| `DecodingBenchmarks.ReadOnePixelAtATime` | src/Benchmark/DecodingBenchmarks.cs:209-246 | Test3, reusing one 8-byte buffer, reads exactly FilePixels of the file |
| `DecodingBenchmarks.ReadRecord` | src/Benchmark/DecodingBenchmarks.cs:238-245 | one Read of 8 bytes decodes to record j |
| `DecodingBenchmarks.RecordPixelsSnoc` | src/Benchmark/DecodingBenchmarks.cs:231-246 | one more record decoded is one more pixel at the end |
| `DecodingBenchmarks.ReadPixelDataByRow` | src/Benchmark/DecodingBenchmarks.cs:279-312 | Test4 reads exactly FilePixels of the file |
| `DecodingBenchmarks.BenchmarksAgreeWithDecoder` | src/Benchmark/DecodingBenchmarks.cs:105-126 | for a file the library accepts, the library decoder's pixels are FilePixels, so all four benchmarks agree with it |
| `DecodingBenchmarks.Check` | src/Benchmark/DecodingBenchmarks.cs:29-69 | the check's nested loops compute CheckSpec: "No output.", then per run the length and then the first differing position |
| `DecodingBenchmarks.SameChannelsIffEqual` | src/Benchmark/DecodingBenchmarks.cs:62 | comparing A, R, G and B is comparing colours |
| `DecodingBenchmarks.CheckPixelsPassIff` | src/Benchmark/DecodingBenchmarks.cs:54-67 | the pixel loop passes exactly when the pixels agree |
| `DecodingBenchmarks.CheckPixelsReportsFirstDifference` | src/Benchmark/DecodingBenchmarks.cs:54-67 | the first differing position is reported, with both colours, in the source's message |
| `DecodingBenchmarks.CheckResultsPassIff` | src/Benchmark/DecodingBenchmarks.cs:43-68 | the runs pass exactly when every run equals the reference |
| `DecodingBenchmarks.CheckPassIff` | src/Benchmark/DecodingBenchmarks.cs:29-69 | Check passes exactly when there is one run per iteration and every run equals the reference |
| `DecodingBenchmarks.CheckAcceptsBenchmarkRuns` | src/Benchmark/DecodingBenchmarks.cs:29-69 | runs that read FilePixels pass against the library's decoding of the file |
| `EncodingBenchmarks.WriteByteAtATime` | src/Benchmark/EncodingBenchmarks.cs:112-142 | Test1 writes exactly EncodedFile of the image |
| `EncodingBenchmarks.WriteEachPixel` | src/Benchmark/EncodingBenchmarks.cs:126-142 | appends exactly the records of the pixels |
| `EncodingBenchmarks.MagicHeader` | src/Benchmark/EncodingBenchmarks.cs:185-192 | the header array is ASCII `farbfeld` |
| `EncodingBenchmarks.PackRecord` | src/Benchmark/EncodingBenchmarks.cs:209-221 | data[index..index+8] is the pixel's record (high byte, then a 0 low byte, for R, G, B, A); nothing else changes |
| `EncodingBenchmarks.WriteBufferedHeader` | src/Benchmark/EncodingBenchmarks.cs:224-226 | the magic array, the width and the height append exactly the header |
| `EncodingBenchmarks.WriteAllPixelDataAtOnce` | src/Benchmark/EncodingBenchmarks.cs:179-227 | Test2 writes exactly EncodedFile of the image |
| `EncodingBenchmarks.WritePacked` | src/Benchmark/EncodingBenchmarks.cs:183-227 | pack, then the header, then the one buffer: exactly EncodedFile |
| `EncodingBenchmarks.PackAll` | src/Benchmark/EncodingBenchmarks.cs:196-222 | the `width * height * 8` buffer holds record j at j·8, exactly the records of the pixels |
| `EncodingBenchmarks.WriteOnePixelAtATime` | src/Benchmark/EncodingBenchmarks.cs:263-308 | Test3 writes exactly EncodedFile of the image |
| `EncodingBenchmarks.WriteRecords` | src/Benchmark/EncodingBenchmarks.cs:283-308 | each record packed and written before the next: exactly the records |
| `EncodingBenchmarks.WritePixelDataByRow` | src/Benchmark/EncodingBenchmarks.cs:345-396 | Test4 writes exactly EncodedFile of the image |
| `EncodingBenchmarks.WriteRows` | src/Benchmark/EncodingBenchmarks.cs:366-396 | row after row: exactly the records of the pixels |
| `EncodingBenchmarks.WriteRow` | src/Benchmark/EncodingBenchmarks.cs:368-395 | a row is written only once it is packed, and extends the output by that row's records |
| `EncodingBenchmarks.PackRow` | src/Benchmark/EncodingBenchmarks.cs:368-393 | pixel row·width + col at offset col·8: the row buffer is exactly the row's records |
| `EncodingBenchmarks.Check` | src/Benchmark/EncodingBenchmarks.cs:21-76 | the check's loops compute CheckSpec: "No output.", then per copy "Invalid data." for other dimensions or lengths, then the first differing position |
| `EncodingBenchmarks.CheckCopiesPassIff` | src/Benchmark/EncodingBenchmarks.cs:36-64 | the copies pass exactly when each equals the original |
| `EncodingBenchmarks.CheckPassIff` | src/Benchmark/EncodingBenchmarks.cs:21-76 | Check passes exactly when there is one copy per iteration and every copy equals the original |
| `EncodingBenchmarks.EncodedFileIsComplete` | src/Benchmark/EncodingBenchmarks.cs:224-227 | the written file is complete, announces the image's dimensions and holds its records |
| `EncodingBenchmarks.ReloadBy256` | src/Benchmark/EncodingBenchmarks.cs:209-221 | re-read with /256, the written file gives the image back |
| `EncodingBenchmarks.WidenThenDivideBy257` | src/Benchmark/EncodingBenchmarks.cs:209-212 | (c·256)/257 is c − 1 for c ≥ 1, and 0 for 0 |
| `EncodingBenchmarks.RecordPixelBy257OfPixelRecord` | src/Benchmark/ImageData.cs:70-75 | the loader reads a written record as every channel minus one (0 stays 0) |
| `EncodingBenchmarks.ReloadBy257` | src/Benchmark/EncodingBenchmarks.cs:41-42 | re-read by the loader, each pixel of a copy comes back one darker per non-zero channel |
| `EncodingBenchmarks.CheckRejectsEveryEncoding` | src/Benchmark/EncodingBenchmarks.cs:33-63 | as written, Check fails for any image with a non-zero channel |
| `EncodingBenchmarks.WhitePixelCounterexample` | src/Benchmark/EncodingBenchmarks.cs:33-63 | a 1 × 1 white file: the original reads as white, its copy as 254 per channel, and Check reports position 0 |
| `EncodingBenchmarks.CheckPassesWhenReloadedBy256` | src/Benchmark/EncodingBenchmarks.cs:33-63 | with the copies re-read by the /256 decoding, Check passes |

## Left out

- GDI+ itself (`new Bitmap`, `LockBits`, unsafe memory access) is foreign code. A bitmap is its width, height, format and pixels in scan order. `new Bitmap(w, h, Format32bppArgb)` is modelled as succeeding exactly when both dimensions are positive and 4·w·h fits in an int.
- `ImageExtensions.Copy` (the 32bpp ARGB redraw of a non-ARGB bitmap that `FarbfeldImageData(Bitmap)` loads from) is GDI+ drawing. `FromBitmap` uses the image's own dimensions in both branches, since Copy keeps them, and LoadFrom reads nothing else.
- The file-name overloads (`Decode(string)`, `IsFarbfeldImage(string)`, `Encode(string, Bitmap)`, `ImageData(string)`) only open a file. Each modelled method takes the opened stream.
- `Stream.Read` returning fewer bytes than asked while more remain (a short read) is not modelled. A read stream is its whole content, and `Read` copies everything left up to the count.
- The viewer application (window, clipboard and about box) is UI plumbing.
- The benchmark scaffolding is harness code and is not modelled. That covers the repetition loop over `_iterations`, the list of results, `Init` argument parsing, `Reset`, timing attributes, temporary file names and `File.Delete` in `Check`'s `finally`. Each benchmark is one run on one stream. `Check` takes the stored runs as a value (`None` before any run), the iteration count, and the reference pixels.
- The reference pixels of the decoding `Check` come from a PNG through GDI+ (`Image.FromFile`, `GetPixels`). They are a parameter.
- The test fixtures target another version of the API (static `Decode`/`Encode`, `ushort[]` buffers). They appear only as concrete examples: 32896 → 128, and the 4096 message.
- OutOfMemoryException and the shared static empty array of the default constructor are not modelled. The buffer is a value, so sharing the empty array is unobservable.
- The benchmark readers (`ImageData.Load` and decoding Test1 to Test4) are specified for complete files only. That is a header with non-negative dimensions whose record bytes fit in an int, followed by every record. They always read their own sample file. A negative dimension, a wrapped `width * height * 8` and a truncated file are not modelled for them.
- `BenchmarkImageData.ReadRows`: the row buffer holds `width * 8` bytes without 32-bit wrap-around. The source's `rowLength` can wrap only for a zero-height image more than 2^28 pixels wide, which the complete-file bound cannot exclude. The row start is kept as a running sum; the source recomputes `row * width`, and RowStartIsProduct shows the two agree.
- The encoding benchmarks require a loaded image (`ImageData.Valid`: the pixel count is `width * height`, and the record bytes fit in an int), which is what `ImageData` always holds.
- A truncated file is not an error: a missing channel reads as -1 and divides to 0, and missing header bytes read as 0xFF. The model follows the code (`PixelPastEndIsZero`, `DecodeHeaderOnly`, `ReadUInt32AtEnd`).
- `Primitives.IntToString`: culture-specific number formatting is not modelled. Interpolating an int uses the current culture's number format; the model writes '-' as the negative sign with no group separators, as the invariant culture does.
- `ArgbColors.NewArgbColor`: its ensures covers only arguments already in 0..255. The modulo-256 behaviour for every argument is stated separately in `NewArgbColorModulo`.
- `FarbfeldFormat.Narrow`: the function states nothing itself. What /256 and /257 mean is stated in `NarrowMeaning`.

## Findings

| source | as written | input that shows it | evidently intended | confidence | as-written member | corrected member |
|---|---|---|---|---|---|---|
| src/Benchmark/EncodingBenchmarks.cs:33-63 | The encoding check reads the sample and every copy with the benchmark loader, which divides each channel by 257 (src/Benchmark/ImageData.cs:70-73). The copies were written with each channel times 256, and (c·256)/257 = c − 1 for every c ≥ 1, so no copy of an image with a non-zero channel can pass. | A 1 × 1 file whose record is eight 0xFF bytes. The original reads as white (255, 255, 255, 255), and its copy reads as (254, 254, 254, 254). Check throws "Data at position 0 mismatch." | Check passes for copies that every encoder wrote correctly. Re-read the way the library decodes (dividing by 256), they do. | not executed | `EncodingBenchmarks.WhitePixelCounterexample` | `EncodingBenchmarks.CheckPassesWhenReloadedBy256` |
