/** FarbfeldEncoder: writes a 32bpp ARGB bitmap to a stream as farbfeld,
    widening each 8-bit channel to 16 bits by multiplying it by 256. */
module FarbfeldEncoder {
  import opened Primitives
  import opened Exceptions
  import opened Streams
  import opened StreamExtensions
  import opened ArgbColors
  import opened Drawing
  import opened FarbfeldFormat
  import FarbfeldDecoder

  const UnsupportedFormatMessage: string := "Only 32bpp ARGB images are supported."

  /** `(ushort)(channel * 256)`: the channel becomes the high byte and the low
      byte is 0; the product never exceeds 0xFF00, so the cast loses nothing. */
  function Widen(channel: byte): (w: ushort)
    ensures BigEndian16Bytes(w) == [channel, 0]
  {
    DivMod256(channel * 0x100, channel, 0);
    (channel * 0x100) % 0x1_0000
  }

  /** The eight bytes Encode writes for one pixel: R, G, B, A, each widened
      and written big-endian. */
  function PixelRecord(p: ArgbColor): (s: seq<byte>)
    ensures |s| == 8
  {
    BigEndian16Bytes(Widen(p.R())) + BigEndian16Bytes(Widen(p.G())) +
    BigEndian16Bytes(Widen(p.B())) + BigEndian16Bytes(Widen(p.A()))
  }

  /** The records of a run of pixels, in order. */
  function Records(pixels: seq<ArgbColor>): seq<byte>
  {
    if pixels == [] then [] else Records(pixels[..|pixels| - 1]) + PixelRecord(pixels[|pixels| - 1])
  }

  /** The whole file Encode writes for an image. */
  function EncodedFile(width: int32, height: int32, pixels: seq<ArgbColor>): seq<byte>
  {
    Header(width, height) + Records(pixels)
  }

  /** A record holds each channel as its high byte, followed by a zero low byte. */
  lemma PixelRecordBytes(p: ArgbColor)
    ensures PixelRecord(p) == [p.R(), 0, p.G(), 0, p.B(), 0, p.A(), 0]
  {
  }

  lemma {:induction false} RecordsLength(pixels: seq<ArgbColor>)
    ensures |Records(pixels)| == 8 * |pixels|
    decreases |pixels|
  {
    if pixels != [] {
      RecordsLength(pixels[..|pixels| - 1]);
    }
  }

  /** Writing pixels one after another writes their records one after another. */
  lemma {:induction false} RecordsAppend(ps: seq<ArgbColor>, qs: seq<ArgbColor>)
    ensures Records(ps + qs) == Records(ps) + Records(qs)
    decreases |qs|
  {
    if qs == [] {
      assert ps + qs == ps;
    } else {
      var last := |qs| - 1;
      assert (ps + qs)[..|ps + qs| - 1] == ps + qs[..last];
      RecordsAppend(ps, qs[..last]);
    }
  }

  /** One more pixel adds its record at the end. */
  lemma RecordsSnoc(pixels: seq<ArgbColor>, i: nat)
    requires i < |pixels|
    ensures Records(pixels[..i + 1]) == Records(pixels[..i]) + PixelRecord(pixels[i])
  {
    assert pixels[..i + 1][..i] == pixels[..i];
  }

  /** Pixel j's record occupies bytes 8j to 8j + 7 of the records. */
  lemma RecordsAt(pixels: seq<ArgbColor>, j: nat)
    requires j < |pixels|
    ensures |Records(pixels)| == 8 * |pixels|
    ensures Records(pixels)[8 * j..8 * j + 8] == PixelRecord(pixels[j])
  {
    RecordsLength(pixels);
    var before := pixels[..j];
    var after := pixels[j + 1..];
    assert pixels == before + [pixels[j]] + after;
    RecordsAppend(before + [pixels[j]], after);
    RecordsAppend(before, [pixels[j]]);
    RecordsLength(before);
    assert Records([pixels[j]]) == PixelRecord(pixels[j]) by {
      assert [pixels[j]][..0] == [];
    }
  }

  /** The file is the magic, the width and height as big-endian 32-bit
      patterns, then 8 bytes per pixel. */
  lemma EncodedFileLayout(width: int32, height: int32, pixels: seq<ArgbColor>)
    ensures |EncodedFile(width, height, pixels)| == 16 + 8 * |pixels|
    ensures EncodedFile(width, height, pixels)[..8] == Magic
    ensures EncodedFile(width, height, pixels)[8..12] == BigEndian32Bytes(Bits(width))
    ensures EncodedFile(width, height, pixels)[12..16] == BigEndian32Bytes(Bits(height))
    ensures EncodedFile(width, height, pixels)[16..] == Records(pixels)
  {
    RecordsLength(pixels);
  }

  /** The reference decoding of the records, dividing by 256, gives back every pixel. */
  lemma RecordPixelsOfRecords(pixels: seq<ArgbColor>)
    ensures 8 * |pixels| <= |Records(pixels)|
    ensures RecordPixels(Records(pixels), |pixels|, DivideBy256) == pixels
  {
    RecordsLength(pixels);
    var data := Records(pixels);
    forall j | 0 <= j < |pixels|
      ensures RecordPixel(data, 8 * j, DivideBy256) == pixels[j]
    {
      RecordsAt(pixels, j);
      RecordPixelOfPixelRecord(data, 8 * j, pixels[j]);
    }
    assert RecordPixels(data, |pixels|, DivideBy256) == pixels;
  }

  /** Where a pixel's record sits, the reference decoding reads that pixel. */
  lemma RecordPixelOfPixelRecord(data: seq<byte>, o: nat, p: ArgbColor)
    requires o + 8 <= |data| && data[o..o + 8] == PixelRecord(p)
    ensures RecordPixel(data, o, DivideBy256) == p
  {
    PixelRecordBytes(p);
    assert data[o] == p.R() && data[o + 2] == p.G() && data[o + 4] == p.B() && data[o + 6] == p.A() by {
      assert data[o..o + 8][0] == data[o] && data[o..o + 8][2] == data[o + 2];
      assert data[o..o + 8][4] == data[o + 4] && data[o..o + 8][6] == data[o + 6];
    }
    RecordPixelChannels(data, o, 0);
    RecordPixelChannels(data, o, 1);
    RecordPixelChannels(data, o, 2);
    RecordPixelChannels(data, o, 3);
  }

  /** GetPixels: copies the bitmap's pixels in scan order, row by row, the
      pixel at (row, col) into results[row * width + col]. */
  method GetPixels(bitmap: Bitmap) returns (results: array<ArgbColor>)
    requires bitmap.Valid()
    ensures fresh(results)
    ensures results[..] == bitmap.Pixels
  {
    var width: int, height: int := bitmap.Width, bitmap.Height;
    results := new ArgbColor[width * height](_ => Bgra(0, 0, 0, 0));
    var pixel := 0;
    var row := 0;
    while row < height
      invariant 0 <= row <= height
      invariant pixel == row * width && pixel <= width * height
      invariant forall k :: 0 <= k < pixel ==> results[k] == bitmap.Pixels[k]
    {
      RowFits(row, width, height);
      var col := 0;
      while col < width
        invariant 0 <= col <= width
        invariant pixel == row * width + col
        invariant pixel + width - col <= width * height
        invariant forall k :: 0 <= k < pixel ==> results[k] == bitmap.Pixels[k]
      {
        results[row * width + col] := bitmap.Pixels[pixel];
        pixel := pixel + 1;
        col := col + 1;
      }
      row := row + 1;
    }
  }

  /** The magic, one WriteByte per letter. */
  method WriteMagic(stream: OutputStream)
    modifies stream
    ensures stream.Written == old(stream.Written) + Magic
  {
    stream.WriteByte('f' as int);
    stream.WriteByte('a' as int);
    stream.WriteByte('r' as int);
    stream.WriteByte('b' as int);
    stream.WriteByte('f' as int);
    stream.WriteByte('e' as int);
    stream.WriteByte('l' as int);
    stream.WriteByte('d' as int);
  }

  /** The first part of Encode's writing: the magic, then the width and the
      height. */
  method WriteHeader(stream: OutputStream, width: int32, height: int32)
    modifies stream
    ensures stream.Written == old(stream.Written) + Header(width, height)
  {
    WriteMagic(stream);
    WriteBigEndian32(stream, width);
    WriteBigEndian32(stream, height);
  }

  /** The body of Encode's pixel loop: each channel widened to 16 bits and
      written big-endian, in the order R, G, B, A. */
  method WritePixel(stream: OutputStream, pixel: ArgbColor)
    modifies stream
    ensures stream.Written == old(stream.Written) + PixelRecord(pixel)
  {
    var red := Widen(pixel.R());
    var green := Widen(pixel.G());
    var blue := Widen(pixel.B());
    var alpha := Widen(pixel.A());
    WriteBigEndian16(stream, red);
    WriteBigEndian16(stream, green);
    WriteBigEndian16(stream, blue);
    WriteBigEndian16(stream, alpha);
  }

  /** Encode's pixel loop: the record of each pixel of the array, in order. */
  method WritePixels(stream: OutputStream, pixels: array<ArgbColor>)
    modifies stream
    ensures stream.Written == old(stream.Written) + Records(pixels[..])
  {
    ghost var head := stream.Written;
    var i := 0;
    while i < pixels.Length
      invariant 0 <= i <= pixels.Length
      invariant stream.Written == head + Records(pixels[..i])
    {
      WritePixel(stream, pixels[i]);
      RecordsSnoc(pixels[..], i);
      assert pixels[..][..i + 1] == pixels[..i + 1];
      i := i + 1;
    }
    assert pixels[..i] == pixels[..];
  }

  /** What Encode writes once its checks have passed: the header, then the
      record of every pixel GetPixels returns, in order. */
  method WriteImage(stream: OutputStream, bitmap: Bitmap)
    requires bitmap.Valid()
    modifies stream
    ensures stream.Written == old(stream.Written) + EncodedFile(bitmap.Width, bitmap.Height, bitmap.Pixels)
  {
    WriteHeader(stream, bitmap.Width, bitmap.Height);
    var pixels := GetPixels(bitmap);
    WritePixels(stream, pixels);
  }

  /** Encode(Stream, Bitmap): rejects a missing stream or image and any
      format other than 32bpp ARGB before writing anything; otherwise writes
      the magic, the width, the height and then one record per pixel. */
  method Encode(stream: OutputStream?, image: Option<Bitmap>) returns (r: Outcome)
    requires image.Some? ==> image.value.Valid()
    modifies stream
    ensures stream == null ==> r == Fail(ArgumentNullException("stream"))
    ensures stream != null && image.None? ==>
              r == Fail(ArgumentNullException("image")) && stream.Written == old(stream.Written)
    ensures stream != null && image.Some? && image.value.Format != Format32bppArgb ==>
              r == Fail(ArgumentException(UnsupportedFormatMessage, Some("image")))
              && stream.Written == old(stream.Written)
    ensures stream != null && image.Some? && image.value.Format == Format32bppArgb ==>
              r == Pass
              && stream.Written == old(stream.Written)
                                   + EncodedFile(image.value.Width, image.value.Height, image.value.Pixels)
  {
    if stream == null {
      return Fail(ArgumentNullException("stream"));
    }
    if image.None? {
      return Fail(ArgumentNullException("image"));
    }
    var bitmap := image.value;
    if bitmap.Format != Format32bppArgb {
      return Fail(ArgumentException(UnsupportedFormatMessage, Some("image")));
    }
    WriteImage(stream, bitmap);
    r := Pass;
  }

  /** The round trip: what Encode writes for a 32bpp ARGB bitmap, Decode reads
      back as that very bitmap. */
  lemma EncodeDecodeRoundTrip(b: Bitmap)
    requires b.Valid() && b.Format == Format32bppArgb
    ensures FarbfeldDecoder.DecodeSpec(EncodedFile(b.Width, b.Height, b.Pixels)) == Success(b)
  {
    var file := EncodedFile(b.Width, b.Height, b.Pixels);
    var records := Records(b.Pixels);
    EncodedFileLayout(b.Width, b.Height, b.Pixels);
    FarbfeldDecoder.SniffIffMagic(file);
    assert Skip(file, 8) == BigEndian32Bytes(Bits(b.Width)) + (BigEndian32Bytes(Bits(b.Height)) + records);
    ReadBackUInt32(b.Width, BigEndian32Bytes(Bits(b.Height)) + records);
    assert Skip(file, 12) == BigEndian32Bytes(Bits(b.Height)) + records;
    ReadBackUInt32(b.Height, records);
    SizeAcceptedPixelCount(b.Width, b.Height);
    assert Skip(file, 16) == records;
    RecordPixelsOfRecords(b.Pixels);
    FarbfeldDecoder.StreamPixelsOfCompleteData(records, |b.Pixels|);
  }
}
