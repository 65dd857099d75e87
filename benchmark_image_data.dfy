/** The benchmark program's own image loader (ImageData) and the reading
    steps its decoding benchmarks share with it: the unchecked header and the
    row-buffered pixel loop. The benchmarks only ever read their own sample
    file, so these readers are specified for complete files (see
    FarbfeldFormat.IsCompleteFile). */
module BenchmarkImageData {
  import opened Primitives
  import opened Streams
  import opened ArgbColors
  import opened FarbfeldFormat
  import BenchmarkWordHelpers

  /** Four values per pixel, two bytes per value. */
  const RecordLength: int := 8

  /** A record read from a copy of some of the file's bytes is the record at
      the corresponding offset of the file. */
  lemma RecordPixelOfSlice(data: seq<byte>, start: nat, slice: seq<byte>, o: nat, n: Narrowing)
    requires start + |slice| <= |data| && slice == data[start..start + |slice|]
    requires o + 8 <= |slice|
    ensures RecordPixel(slice, o, n) == RecordPixel(data, start + o, n)
  {
    assert slice[o] == data[start + o] && slice[o + 1] == data[start + o + 1];
    assert slice[o + 2] == data[start + o + 2] && slice[o + 3] == data[start + o + 3];
    assert slice[o + 4] == data[start + o + 4] && slice[o + 5] == data[start + o + 5];
    assert slice[o + 6] == data[start + o + 6] && slice[o + 7] == data[start + o + 7];
  }

  /** The header as the benchmarks read it: eight bytes read and ignored (the
      magic is never checked), then eight more read into the same buffer,
      bytes 0..3 forming the width and 4..7 the height, big-endian. */
  method ReadHeader(stream: InputStream, ghost content: seq<byte>) returns (width: int32, height: int32)
    requires stream.Valid() && stream.Remaining() == content && |content| >= 16
    modifies stream
    ensures stream.Valid() && stream.Remaining() == content[16..]
    ensures width == HeaderWidth(content) && height == HeaderHeight(content)
  {
    var header := new byte[8](_ => 0);
    var _ := stream.Read(header, 0, header.Length);
    assert stream.Remaining() == content[8..];
    var _ := stream.Read(header, 0, header.Length);
    assert header[..] == content[8..16];
    width := BenchmarkWordHelpers.MakeDWordBigEndian(header[0], header[1], header[2], header[3]);
    height := BenchmarkWordHelpers.MakeDWordBigEndian(header[4], header[5], header[6], header[7]);
  }

  /** The inner loop of a row-by-row decode: the record at offset col * 8 of
      the row buffer becomes pixels[start + col], each 16-bit channel built
      big-endian by MakeWordBigEndian and narrowed by n; nothing else of
      `pixels` changes. */
  method DecodeRow(buffer: array<byte>, pixels: array<ArgbColor>, start: nat, width: nat, n: Narrowing)
    requires buffer.Length == 8 * width && start + width <= pixels.Length
    modifies pixels
    ensures forall c :: 0 <= c < width ==> pixels[start + c] == RecordPixel(buffer[..], 8 * c, n)
    ensures pixels[..start] == old(pixels[..start])
    ensures pixels[start + width..] == old(pixels[start + width..])
  {
    var col := 0;
    while col < width
      invariant 0 <= col <= width
      invariant forall c :: 0 <= c < col ==> pixels[start + c] == RecordPixel(buffer[..], 8 * c, n)
      invariant pixels[..start] == old(pixels[..start])
      invariant pixels[start + col..] == old(pixels[start + col..])
    {
      var index := col * RecordLength;
      var pixel := DecodeRecord(buffer, index, n);
      pixels[start + col] := pixel;
      col := col + 1;
    }
  }

  /** The four lines every buffered decoder repeats: the 16-bit channels of the
      record at `index`, built big-endian by MakeWordBigEndian and narrowed by
      n, given to the ArgbColor constructor as alpha, red, green, blue. */
  method DecodeRecord(buffer: array<byte>, index: nat, n: Narrowing) returns (pixel: ArgbColor)
    requires index + 8 <= buffer.Length
    ensures pixel == RecordPixel(buffer[..], index, n)
  {
    var r := Narrow(n, BenchmarkWordHelpers.MakeWordBigEndian(buffer[index], buffer[index + 1]));
    var g := Narrow(n, BenchmarkWordHelpers.MakeWordBigEndian(buffer[index + 2], buffer[index + 3]));
    var b := Narrow(n, BenchmarkWordHelpers.MakeWordBigEndian(buffer[index + 4], buffer[index + 5]));
    var a := Narrow(n, BenchmarkWordHelpers.MakeWordBigEndian(buffer[index + 6], buffer[index + 7]));
    pixel := NewArgbColor(a, r, g, b);
  }

  /** The row loop shared by ImageData.Load and the row-by-row decoding
      benchmark: a `width * 8` byte buffer refilled by one Read per row, and
      pixel (row, col) stored at `row * width + col`, the row's start kept
      here as a running sum. Every pixel is the record at its place in the
      file. */
  method ReadRows(stream: InputStream, width: int32, height: int32, n: Narrowing) returns (pixels: array<ArgbColor>)
    requires stream.Valid() && 0 <= width && 0 <= height && width * height * 8 <= Int32Max
    requires 8 * (width * height) <= |stream.Remaining()|
    modifies stream
    ensures stream.Valid() && fresh(pixels)
    ensures 8 * (width * height) <= |old(stream.Remaining())|
    ensures pixels[..] == RecordPixels(old(stream.Remaining()), width * height, n)
    ensures stream.Remaining() == old(stream.Remaining())[8 * (width * height)..]
  {
    ProductFits(width, height);
    var length := width * height;
    pixels := new ArgbColor[length](_ => Bgra(0, 0, 0, 0));
    var rowLength := width * RecordLength;
    var buffer := new byte[rowLength](_ => 0);
    RowStartIsProduct(height, width);
    ReadRowsInto(stream, buffer, pixels, width, height, n);
  }

  /** The row loop itself, over a pixel array of `height` rows. */
  method ReadRowsInto(stream: InputStream, buffer: array<byte>, pixels: array<ArgbColor>, width: nat, height: nat,
                      n: Narrowing)
    requires stream.Valid() && buffer.Length == 8 * width && pixels.Length == RowStart(height, width)
    requires 8 * pixels.Length <= |stream.Remaining()|
    modifies stream, buffer, pixels
    ensures stream.Valid() && pixels[..] == RecordPixels(old(stream.Remaining()), pixels.Length, n)
    ensures stream.Remaining() == old(stream.Remaining())[8 * pixels.Length..]
  {
    ghost var data := stream.Remaining();
    var row := 0;
    var start := 0;
    while row < height
      invariant 0 <= row <= height && start == RowStart(row, width) && start <= pixels.Length
      invariant stream.Valid() && stream.Remaining() == data[8 * start..]
      invariant pixels[..start] == RecordPixels(data, start, n)
    {
      RowStartMonotone(row + 1, height, width);
      ReadRow(stream, buffer, pixels, start, width, n, data);
      row := row + 1;
      start := start + width;
    }
    assert pixels[..] == pixels[..start];
  }

  /** Where row `row` of a `width`-wide image starts, counted one row at a time. */
  ghost function RowStart(row: nat, width: nat): nat
  {
    if row == 0 then 0 else RowStart(row - 1, width) + width
  }

  /** The running sum is the product the source computes. */
  lemma {:induction false} RowStartIsProduct(row: nat, width: nat)
    ensures RowStart(row, width) == row * width
  {
    if row > 0 {
      RowStartIsProduct(row - 1, width);
    }
  }

  /** Later rows start no earlier. */
  lemma {:induction false} RowStartMonotone(row: nat, height: nat, width: nat)
    requires row <= height
    ensures RowStart(row, width) <= RowStart(height, width)
    decreases height - row
  {
    if row < height {
      RowStartMonotone(row + 1, height, width);
    }
  }


  /** Record bytes an int can count make a pixel count an int can hold. */
  lemma ProductFits(width: int, height: int)
    requires 0 <= width && 0 <= height && width * height * 8 <= Int32Max
    ensures 0 <= width * height <= Int32Max
  {
  }

  /** One pass of the row loop: one Read of a whole row into the buffer, then
      the row decoded into its place. */
  method ReadRow(stream: InputStream, buffer: array<byte>, pixels: array<ArgbColor>, start: nat, width: nat,
                 n: Narrowing, ghost data: seq<byte>)
    requires 8 * start + 8 * width <= |data| && stream.Valid() && stream.Remaining() == data[8 * start..]
    requires buffer.Length == 8 * width && start + width <= pixels.Length
    requires pixels[..start] == RecordPixels(data, start, n)
    modifies stream, buffer, pixels
    ensures stream.Valid() && stream.Remaining() == data[8 * (start + width)..]
    ensures pixels[..start + width] == RecordPixels(data, start + width, n)
  {
    var _ := stream.Read(buffer, 0, 8 * width);
    assert buffer[..] == data[8 * start..8 * start + 8 * width];
    DecodeRow(buffer, pixels, start, width, n);
    RowAppend(data, start, width, buffer[..], pixels[..], n);
  }

  /** A prefix of decoded records followed by a row decoded from a copy of the
      next `width` records is the longer prefix. */
  lemma RowAppend(data: seq<byte>, start: nat, width: nat, bytes: seq<byte>, ps: seq<ArgbColor>, n: Narrowing)
    requires 8 * start + 8 * width <= |data| && bytes == data[8 * start..8 * start + 8 * width]
    requires start + width <= |ps| && ps[..start] == RecordPixels(data, start, n)
    requires forall c :: 0 <= c < width ==> ps[start + c] == RecordPixel(bytes, 8 * c, n)
    ensures ps[..start + width] == RecordPixels(data, start + width, n)
  {
    forall i | 0 <= i < start + width
      ensures ps[i] == RecordPixel(data, 8 * i, n)
    {
      if i < start {
        assert ps[i] == ps[..start][i];
      } else {
        var c := i - start;
        assert ps[start + c] == RecordPixel(bytes, 8 * c, n);
        RecordPixelOfSlice(data, 8 * start, bytes, 8 * c, n);
      }
    }
  }

  /** The loader's image: its dimensions and its pixels in scan order. */
  class ImageData {
    var Width: int32
    var Height: int32
    var PixelData: seq<ArgbColor>

    /** What holds once Load has run: one pixel per pixel of the dimensions,
        and record bytes an int can count. */
    ghost predicate Valid()
      reads this
    {
      0 <= Width && 0 <= Height && Width * Height * 8 <= Int32Max && |PixelData| == Width * Height
    }

    /** ImageData(fileName), given the opened file as a stream. */
    constructor (stream: InputStream)
      requires stream.Valid() && IsCompleteFile(stream.Remaining())
      modifies stream
      ensures Valid()
      ensures Width == HeaderWidth(old(stream.Remaining())) && Height == HeaderHeight(old(stream.Remaining()))
      ensures PixelData == RecordPixels(old(stream.Remaining())[16..], Width * Height, DivideBy257)
    {
      Width, Height, PixelData := 0, 0, [];
      new;
      Load(stream);
    }

    /** Load: reads the header unchecked, then the records row by row, each
        channel divided by 257; the properties are assigned only once the
        whole image has been read. */
    method Load(stream: InputStream)
      requires stream.Valid() && IsCompleteFile(stream.Remaining())
      modifies this, stream
      ensures Valid()
      ensures Width == HeaderWidth(old(stream.Remaining())) && Height == HeaderHeight(old(stream.Remaining()))
      ensures PixelData == RecordPixels(old(stream.Remaining())[16..], Width * Height, DivideBy257)
    {
      ghost var content := stream.Remaining();
      var width, height := ReadHeader(stream, content);
      var pixels := ReadRows(stream, width, height, DivideBy257);
      Width := width;
      Height := height;
      PixelData := pixels[..];
    }
  }
}
