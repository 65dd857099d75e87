/** The encoding benchmarks: four ways of writing the benchmark loader's image
    (BenchmarkImageData.ImageData) as farbfeld, all widening each channel by
    multiplying it by 256, and the check that re-reads what they wrote. */
module EncodingBenchmarks {
  import opened Primitives
  import opened Exceptions
  import opened Streams
  import opened StreamExtensions
  import opened ArgbColors
  import opened FarbfeldFormat
  import opened FarbfeldEncoder
  import opened BenchmarkImageData
  import DecodingBenchmarks
  import WordHelpers

  /** Test1, the original encoder: the magic one WriteByte per letter, the
      width and the height with WriteBigEndian(int), then each pixel's four
      widened channels with WriteBigEndian(ushort). */
  method WriteByteAtATime(source: ImageData, stream: OutputStream)
    modifies stream
    ensures stream.Written == old(stream.Written) + EncodedFile(source.Width, source.Height, source.PixelData)
  {
    WriteHeader(stream, source.Width, source.Height);
    var pixels := source.PixelData;
    WriteEachPixel(stream, pixels);
  }

  /** Test1's foreach loop: each pixel's four widened channels written with
      WriteBigEndian(ushort). */
  method WriteEachPixel(stream: OutputStream, pixels: seq<ArgbColor>)
    modifies stream
    ensures stream.Written == old(stream.Written) + Records(pixels)
  {
    ghost var head := stream.Written;
    var i := 0;
    while i < |pixels|
      invariant 0 <= i <= |pixels|
      invariant stream.Written == head + Records(pixels[..i])
    {
      WritePixel(stream, pixels[i]);
      RecordsSnoc(pixels, i);
      i := i + 1;
    }
    assert pixels[..i] == pixels;
  }

  /** The header buffer the other three encoders fill one letter at a time. */
  method MagicHeader() returns (header: array<byte>)
    ensures fresh(header) && header[..] == Magic
  {
    header := new byte[8](_ => 0);
    header[0] := 'f' as int;
    header[1] := 'a' as int;
    header[2] := 'r' as int;
    header[3] := 'b' as int;
    header[4] := 'f' as int;
    header[5] := 'e' as int;
    header[6] := 'l' as int;
    header[7] := 'd' as int;
  }

  /** The eight assignments every buffered encoder repeats: each channel
      widened, its high byte `(byte)(v >> 8)` then its low byte `(byte)v`,
      in the order R, G, B, A, from `index` on; nothing else of the buffer
      changes. */
  method PackRecord(data: array<byte>, index: nat, pixel: ArgbColor)
    requires index + 8 <= data.Length
    modifies data
    ensures data[index..index + 8] == PixelRecord(pixel)
    ensures data[..index] == old(data[..index]) && data[index + 8..] == old(data[index + 8..])
  {
    var r := Widen(pixel.R());
    var g := Widen(pixel.G());
    var b := Widen(pixel.B());
    var a := Widen(pixel.A());
    data[index] := LowByte(r / 0x100);
    data[index + 1] := LowByte(r);
    data[index + 2] := LowByte(g / 0x100);
    data[index + 3] := LowByte(g);
    data[index + 4] := LowByte(b / 0x100);
    data[index + 5] := LowByte(b);
    data[index + 6] := LowByte(a / 0x100);
    data[index + 7] := LowByte(a);
    assert data[index..index + 8] == BigEndian16Bytes(r) + BigEndian16Bytes(g) + BigEndian16Bytes(b) + BigEndian16Bytes(a);
  }

  /** The header as the buffered encoders write it: the magic buffer with one
      Write, then the width and the height with WriteBigEndian(int). */
  method WriteBufferedHeader(stream: OutputStream, width: int32, height: int32)
    modifies stream
    ensures stream.Written == old(stream.Written) + Header(width, height)
  {
    var header := MagicHeader();
    stream.Write(header, 0, 8);
    assert header[0..8] == Magic;
    WriteBigEndian32(stream, width);
    WriteBigEndian32(stream, height);
  }

  /** Test2: every record packed into one `width * height * 8` byte buffer,
      pixel j at offset j * 8, then the header and the whole buffer written. */
  method WriteAllPixelDataAtOnce(source: ImageData, stream: OutputStream)
    requires source.Valid()
    modifies stream
    ensures stream.Written == old(stream.Written) + EncodedFile(source.Width, source.Height, source.PixelData)
  {
    var width, height := source.Width, source.Height;
    ProductFits(width, height);
    var length := width * height * RecordLength;
    var pixels := source.PixelData;
    WritePacked(stream, width, height, pixels, length);
  }

  /** The rest of Test2, once the buffer length is known. */
  method WritePacked(stream: OutputStream, width: int32, height: int32, pixels: seq<ArgbColor>, length: nat)
    requires length == 8 * |pixels|
    modifies stream
    ensures stream.Written == old(stream.Written) + EncodedFile(width, height, pixels)
  {
    var data := PackAll(pixels, length);
    WriteBufferedHeader(stream, width, height);
    stream.Write(data, 0, length);
    assert data[0..length] == data[..];
  }

  /** Test2's pixel loop, into a buffer of `length` bytes. */
  method PackAll(pixels: seq<ArgbColor>, length: nat) returns (data: array<byte>)
    requires length == 8 * |pixels|
    ensures fresh(data) && data.Length == length && data[..] == Records(pixels)
  {
    data := new byte[length](_ => 0);
    var j := 0;
    while j < |pixels|
      invariant 0 <= j <= |pixels|
      invariant data[..8 * j] == Records(pixels[..j])
    {
      var pixel := pixels[j];
      var index := j * RecordLength;
      PackRecord(data, index, pixel);
      RecordsGrow(data[..], pixels, j);
      j := j + 1;
    }
    assert data[..] == data[..8 * j];
    assert pixels[..j] == pixels;
  }

  /** A buffer holding the records of the first j pixels, then pixel j's
      record, holds the records of the first j + 1. */
  lemma RecordsGrow(s: seq<byte>, pixels: seq<ArgbColor>, j: nat)
    requires j < |pixels| && 8 * j + 8 <= |s|
    requires s[..8 * j] == Records(pixels[..j]) && s[8 * j..8 * j + 8] == PixelRecord(pixels[j])
    ensures s[..8 * j + 8] == Records(pixels[..j + 1])
  {
    assert s[..8 * j + 8] == s[..8 * j] + s[8 * j..8 * j + 8];
    RecordsSnoc(pixels, j);
  }

  /** Test3: the header written first, then each record packed into one
      eight-byte buffer and written with one Write. */
  method WriteOnePixelAtATime(source: ImageData, stream: OutputStream)
    modifies stream
    ensures stream.Written == old(stream.Written) + EncodedFile(source.Width, source.Height, source.PixelData)
  {
    var data := new byte[RecordLength](_ => 0);
    WriteBufferedHeader(stream, source.Width, source.Height);
    var pixels := source.PixelData;
    WriteRecords(stream, data, pixels);
  }

  /** Test3's pixel loop: each record packed into the eight-byte buffer and
      written with one Write. */
  method WriteRecords(stream: OutputStream, data: array<byte>, pixels: seq<ArgbColor>)
    requires data.Length == RecordLength
    modifies stream, data
    ensures stream.Written == old(stream.Written) + Records(pixels)
  {
    ghost var head := stream.Written;
    var j := 0;
    while j < |pixels|
      invariant 0 <= j <= |pixels|
      invariant stream.Written == head + Records(pixels[..j])
    {
      var pixel := pixels[j];
      PackRecord(data, 0, pixel);
      stream.Write(data, 0, RecordLength);
      RecordsSnoc(pixels, j);
      j := j + 1;
    }
    assert pixels[..j] == pixels;
  }

  /** Test4: the header written first, then each row's records packed into a
      `width * 8` byte buffer, pixel (row, col) at offset col * 8, and the
      row written with one Write. */
  method WritePixelDataByRow(source: ImageData, stream: OutputStream)
    requires source.Valid()
    modifies stream
    ensures stream.Written == old(stream.Written) + EncodedFile(source.Width, source.Height, source.PixelData)
  {
    var width := source.Width;
    var rowLength := width * RecordLength;
    var height := source.Height;
    var data := new byte[rowLength](_ => 0);
    WriteBufferedHeader(stream, width, height);
    var pixels := source.PixelData;
    WriteRows(stream, data, pixels, width, height);
  }

  /** Test4's row loop: each row packed into the row buffer and written;
      row `row` starts at pixel `row * width`, here kept as a running sum. */
  method WriteRows(stream: OutputStream, data: array<byte>, pixels: seq<ArgbColor>, width: nat, height: nat)
    requires data.Length == 8 * width && |pixels| == width * height
    modifies stream, data
    ensures stream.Written == old(stream.Written) + Records(pixels)
  {
    ghost var head := stream.Written;
    RowStartIsProduct(height, width);
    var row := 0;
    var start := 0;
    while row < height
      invariant 0 <= row <= height && start == RowStart(row, width) && start <= |pixels|
      invariant stream.Written == head + Records(pixels[..start])
    {
      RowStartMonotone(row + 1, height, width);
      WriteRow(stream, data, pixels, start, width, head);
      row := row + 1;
      start := start + width;
    }
    assert pixels[..start] == pixels;
  }

  /** One pass of Test4's row loop: the row packed, then written with one
      Write after everything written before it. */
  method WriteRow(stream: OutputStream, data: array<byte>, pixels: seq<ArgbColor>, start: nat, width: nat,
                  ghost head: seq<byte>)
    requires data.Length == 8 * width && start + width <= |pixels|
    requires stream.Written == head + Records(pixels[..start])
    modifies stream, data
    ensures stream.Written == head + Records(pixels[..start + width])
  {
    RecordsOfRows(pixels, start, width);
    PackRow(data, pixels, start, width);
    ghost var bytes := data[..];
    stream.Write(data, 0, 8 * width);
    assert data[0..8 * width] == bytes;
  }

  /** Test4's inner loop: the records of the `width` pixels from `start` on. */
  method PackRow(data: array<byte>, pixels: seq<ArgbColor>, start: nat, width: nat)
    requires data.Length == 8 * width && start + width <= |pixels|
    modifies data
    ensures data[..] == Records(pixels[start..start + width])
  {
    ghost var rowPixels := pixels[start..start + width];
    var col := 0;
    while col < width
      invariant 0 <= col <= width
      invariant data[..8 * col] == Records(rowPixels[..col])
    {
      var index := col * RecordLength;
      var pixel := pixels[start + col];
      assert pixel == rowPixels[col];
      PackRecord(data, index, pixel);
      RecordsGrow(data[..], rowPixels, col);
      col := col + 1;
    }
    assert data[..] == data[..8 * col];
    assert rowPixels[..col] == rowPixels;
  }

  /** The records of the pixels before a row, then the row's, are the records
      of the pixels up to the row's end. */
  lemma RecordsOfRows(pixels: seq<ArgbColor>, start: nat, width: nat)
    requires start + width <= |pixels|
    ensures Records(pixels[..start + width]) == Records(pixels[..start]) + Records(pixels[start..start + width])
  {
    assert pixels[..start + width] == pixels[..start] + pixels[start..start + width];
    RecordsAppend(pixels[..start], pixels[start..start + width]);
  }

  /** The image as ImageData(fileName) leaves it: its dimensions and pixels. */
  datatype LoadedImage = LoadedImage(Width: int32, Height: int32, Pixels: seq<ArgbColor>)

  /** What reading a complete file gives, with the channels narrowed by n:
      the benchmark loader divides by 257. */
  ghost function Reload(content: seq<byte>, n: Narrowing): LoadedImage
    requires IsCompleteFile(content)
  {
    LoadedImage(HeaderWidth(content), HeaderHeight(content),
                RecordPixels(content[16..], HeaderWidth(content) * HeaderHeight(content), n))
  }

  const InvalidDataMessage: string := "Invalid data."

  /** The copies from copy i on, each first checked for its dimensions and
      pixel count, then pixel by pixel against the original. */
  function CheckCopies(copies: seq<LoadedImage>, original: LoadedImage, i: nat): Outcome
    requires i <= |copies|
    decreases |copies| - i
  {
    if i == |copies| then Pass
    else if copies[i].Width != original.Width || copies[i].Height != original.Height
            || |copies[i].Pixels| != |original.Pixels| then
      Fail(GeneralException(InvalidDataMessage))
    else match DecodingBenchmarks.CheckPixels(original.Pixels, copies[i].Pixels, 0)
      case Fail(e) => Fail(e)
      case Pass => CheckCopies(copies, original, i + 1)
  }

  /** What Check does with the re-read copies (None before any benchmark
      ran), the configured number of iterations and the re-read sample. */
  function CheckSpec(results: Option<seq<LoadedImage>>, iterations: int, original: LoadedImage): Outcome
  {
    if results.None? || |results.value| != iterations then Fail(GeneralException(DecodingBenchmarks.NoOutputMessage))
    else CheckCopies(results.value, original, 0)
  }

  /** Check: "No output." unless there is one file per iteration, then each
      copy in turn, "Invalid data." for other dimensions or another pixel
      count, then its pixels; the first failure is thrown. */
  method Check(results: Option<seq<LoadedImage>>, iterations: int, original: LoadedImage) returns (r: Outcome)
    ensures r == CheckSpec(results, iterations, original)
  {
    if results.None? || |results.value| != iterations {
      return Fail(GeneralException(DecodingBenchmarks.NoOutputMessage));
    }
    var originalPixels := original.Pixels;
    var i := 0;
    while i < |results.value|
      invariant 0 <= i <= |results.value|
      invariant CheckCopies(results.value, original, i) == CheckSpec(results, iterations, original)
    {
      var copy := results.value[i];
      var copyPixels := copy.Pixels;
      if copy.Width != original.Width || copy.Height != original.Height || |copyPixels| != |originalPixels| {
        return Fail(GeneralException(InvalidDataMessage));
      }
      var j := 0;
      while j < |copyPixels|
        invariant 0 <= j <= |copyPixels|
        invariant DecodingBenchmarks.CheckPixels(originalPixels, copyPixels, j)
                  == DecodingBenchmarks.CheckPixels(originalPixels, copyPixels, 0)
      {
        var expected := originalPixels[j];
        var actual := copyPixels[j];
        if expected.A() != actual.A() || expected.R() != actual.R() || expected.G() != actual.G() || expected.B() != actual.B() {
          return Fail(GeneralException(DecodingBenchmarks.MismatchMessage(j, expected, actual)));
        }
        j := j + 1;
      }
      i := i + 1;
    }
    return Pass;
  }

  /** The copies from i on pass exactly when each is the original. */
  lemma {:induction false} CheckCopiesPassIff(copies: seq<LoadedImage>, original: LoadedImage, i: nat)
    requires i <= |copies|
    ensures CheckCopies(copies, original, i) == Pass <==> forall k :: i <= k < |copies| ==> copies[k] == original
    decreases |copies| - i
  {
    if i < |copies| {
      CheckCopiesPassIff(copies, original, i + 1);
      if |copies[i].Pixels| == |original.Pixels| {
        DecodingBenchmarks.CheckPixelsPassIff(original.Pixels, copies[i].Pixels, 0);
        assert original.Pixels[0..] == original.Pixels && copies[i].Pixels[0..] == copies[i].Pixels;
      }
    }
  }

  /** Check passes exactly when there is one copy per iteration and every
      copy re-reads as the original. */
  lemma CheckPassIff(results: Option<seq<LoadedImage>>, iterations: int, original: LoadedImage)
    ensures CheckSpec(results, iterations, original) == Pass
            <==> results.Some? && |results.value| == iterations
                 && forall k :: 0 <= k < iterations ==> results.value[k] == original
  {
    if results.Some? && |results.value| == iterations {
      CheckCopiesPassIff(results.value, original, 0);
    }
  }

  /** The file every encoder writes for an image is complete, announces the
      image's dimensions and holds its records. */
  lemma EncodedFileIsComplete(width: int32, height: int32, pixels: seq<ArgbColor>)
    requires 0 <= width && 0 <= height && width * height * 8 <= Int32Max && |pixels| == width * height
    ensures IsCompleteFile(EncodedFile(width, height, pixels))
    ensures HeaderWidth(EncodedFile(width, height, pixels)) == width
    ensures HeaderHeight(EncodedFile(width, height, pixels)) == height
    ensures EncodedFile(width, height, pixels)[16..] == Records(pixels)
  {
    var file := EncodedFile(width, height, pixels);
    EncodedFileLayout(width, height, pixels);
    ReadBackUInt32(width, []);
    ReadBackUInt32(height, []);
    assert file[8..12] == BigEndian32Bytes(Bits(width)) + [];
    assert file[12..16] == BigEndian32Bytes(Bits(height)) + [];
  }

  /** Re-reading an encoded image dividing by 256, as the library decoder
      does, gives the image back. */
  lemma ReloadBy256(width: int32, height: int32, pixels: seq<ArgbColor>)
    requires 0 <= width && 0 <= height && width * height * 8 <= Int32Max && |pixels| == width * height
    ensures IsCompleteFile(EncodedFile(width, height, pixels))
    ensures Reload(EncodedFile(width, height, pixels), DivideBy256) == LoadedImage(width, height, pixels)
  {
    EncodedFileIsComplete(width, height, pixels);
    RecordPixelsOfRecords(pixels);
  }

  /** What division by 257 makes of a channel widened by 256: one less,
      except that 0 stays 0. */
  function ReloadedChannel(c: byte): byte
  {
    if c == 0 then 0 else c - 1
  }

  /** `(c * 256) / 257 == c - 1` for every non-zero byte c. */
  lemma WidenThenDivideBy257(c: byte)
    ensures Narrow(DivideBy257, Widen(c)) == ReloadedChannel(c)
  {
    assert Widen(c) == c * 256;
    if c > 0 {
      assert (c - 1) * 257 <= c * 256 < c * 257;
    }
  }

  /** Where a pixel's record sits, the loader's division by 257 reads every
      channel of it as ReloadedChannel of that channel. */
  lemma RecordPixelBy257OfPixelRecord(data: seq<byte>, o: nat, p: ArgbColor)
    requires o + 8 <= |data| && data[o..o + 8] == PixelRecord(p)
    ensures RecordPixel(data, o, DivideBy257)
            == Bgra(ReloadedChannel(p.B()), ReloadedChannel(p.G()), ReloadedChannel(p.R()), ReloadedChannel(p.A()))
  {
    PixelRecordBytes(p);
    assert data[o..o + 8][0] == data[o] && data[o..o + 8][1] == data[o + 1];
    assert data[o..o + 8][2] == data[o + 2] && data[o..o + 8][3] == data[o + 3];
    assert data[o..o + 8][4] == data[o + 4] && data[o..o + 8][5] == data[o + 5];
    assert data[o..o + 8][6] == data[o + 6] && data[o..o + 8][7] == data[o + 7];
    assert RecordChannel(data, o, 0) == Widen(p.R()) && RecordChannel(data, o, 1) == Widen(p.G());
    assert RecordChannel(data, o, 2) == Widen(p.B()) && RecordChannel(data, o, 3) == Widen(p.A());
    WidenThenDivideBy257(p.R());
    WidenThenDivideBy257(p.G());
    WidenThenDivideBy257(p.B());
    WidenThenDivideBy257(p.A());
  }

  /** Re-reading an encoded image with the loader's division by 257 darkens
      every non-zero channel by one. */
  lemma ReloadBy257(width: int32, height: int32, pixels: seq<ArgbColor>, j: nat)
    requires 0 <= width && 0 <= height && width * height * 8 <= Int32Max && |pixels| == width * height
    requires j < |pixels|
    ensures IsCompleteFile(EncodedFile(width, height, pixels))
    ensures |Reload(EncodedFile(width, height, pixels), DivideBy257).Pixels| == |pixels|
    ensures Reload(EncodedFile(width, height, pixels), DivideBy257).Pixels[j]
            == Bgra(ReloadedChannel(pixels[j].B()), ReloadedChannel(pixels[j].G()),
                    ReloadedChannel(pixels[j].R()), ReloadedChannel(pixels[j].A()))
  {
    EncodedFileIsComplete(width, height, pixels);
    RecordsAt(pixels, j);
    RecordPixelBy257OfPixelRecord(Records(pixels), 8 * j, pixels[j]);
  }

  /** As written, Check fails whenever the sample has a pixel with a non-zero
      channel: the copies are re-read by the loader, which divides by 257,
      and so come back one darker than the original. */
  lemma CheckRejectsEveryEncoding(original: LoadedImage, iterations: int, copies: seq<LoadedImage>, j: nat)
    requires 0 <= original.Width && 0 <= original.Height && original.Width * original.Height * 8 <= Int32Max
    requires |original.Pixels| == original.Width * original.Height
    requires 0 < iterations == |copies|
    requires forall k :: 0 <= k < |copies| ==>
               IsCompleteFile(EncodedFile(original.Width, original.Height, original.Pixels))
               && copies[k] == Reload(EncodedFile(original.Width, original.Height, original.Pixels), DivideBy257)
    requires j < |original.Pixels| && original.Pixels[j] != Bgra(0, 0, 0, 0)
    ensures CheckSpec(Some(copies), iterations, original) != Pass
  {
    ReloadBy257(original.Width, original.Height, original.Pixels, j);
    CheckPassIff(Some(copies), iterations, original);
    assert copies[0].Pixels[j] != original.Pixels[j];
  }

  /** The smallest case: a one-pixel white file. The loader reads it as white,
      the copy as 254 in every channel, and Check reports position 0. */
  lemma WhitePixelCounterexample()
    ensures (var file := Header(1, 1) + [0xFF, 0xFF, 0xFF, 0xFF, 0xFF, 0xFF, 0xFF, 0xFF];
             var white := Bgra(0xFF, 0xFF, 0xFF, 0xFF);
             IsCompleteFile(file) && Reload(file, DivideBy257) == LoadedImage(1, 1, [white])
             && IsCompleteFile(EncodedFile(1, 1, [white]))
             && Reload(EncodedFile(1, 1, [white]), DivideBy257) == LoadedImage(1, 1, [Bgra(0xFE, 0xFE, 0xFE, 0xFE)])
             && CheckSpec(Some([Reload(EncodedFile(1, 1, [white]), DivideBy257)]), 1, Reload(file, DivideBy257))
                == Fail(GeneralException(DecodingBenchmarks.MismatchMessage(0, white, Bgra(0xFE, 0xFE, 0xFE, 0xFE)))))
  {
    var white := Bgra(0xFF, 0xFF, 0xFF, 0xFF);
    var grey := Bgra(0xFE, 0xFE, 0xFE, 0xFE);
    var records: seq<byte> := [0xFF, 0xFF, 0xFF, 0xFF, 0xFF, 0xFF, 0xFF, 0xFF];
    var file := Header(1, 1) + records;
    EncodedFileIsComplete(1, 1, [white]);
    assert file[..16] == EncodedFile(1, 1, [white])[..16];
    assert file[8..16] == EncodedFile(1, 1, [white])[8..16];
    assert file[16..] == records;
    NarrowBy257Examples();
    assert RecordChannel(records, 0, 0) == 0xFFFF && RecordChannel(records, 0, 1) == 0xFFFF;
    assert RecordChannel(records, 0, 2) == 0xFFFF && RecordChannel(records, 0, 3) == 0xFFFF;
    assert RecordPixels(records, 1, DivideBy257) == [white];
    ReloadBy257(1, 1, [white], 0);
    assert Reload(EncodedFile(1, 1, [white]), DivideBy257).Pixels == [grey];
    DecodingBenchmarks.CheckPixelsReportsFirstDifference([white], [grey], 0, 0);
  }

  /** Re-read the way the library decodes, dividing by 256, every encoder's
      copy passes Check. */
  lemma CheckPassesWhenReloadedBy256(original: LoadedImage, iterations: int, copies: seq<LoadedImage>)
    requires 0 <= original.Width && 0 <= original.Height && original.Width * original.Height * 8 <= Int32Max
    requires |original.Pixels| == original.Width * original.Height
    requires iterations == |copies|
    requires forall k :: 0 <= k < |copies| ==>
               IsCompleteFile(EncodedFile(original.Width, original.Height, original.Pixels))
               && copies[k] == Reload(EncodedFile(original.Width, original.Height, original.Pixels), DivideBy256)
    ensures CheckSpec(Some(copies), iterations, original) == Pass
  {
    ReloadBy256(original.Width, original.Height, original.Pixels);
    CheckPassIff(Some(copies), iterations, original);
  }
}
