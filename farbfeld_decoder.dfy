/** FarbfeldDecoder: reads a farbfeld image from a stream into a 32bpp ARGB
    bitmap, keeping the high byte of each 16-bit channel. */
module FarbfeldDecoder {
  import opened Primitives
  import opened Exceptions
  import opened Streams
  import opened StreamExtensions
  import opened ArgbColors
  import opened Drawing
  import opened FarbfeldFormat
  import WordHelpers

  const NotFarbfeldMessage: string := "Stream does not contain a farbfeld image."

  /** The 8-byte buffer IsFarbfeldImage fills with one Read when the unread
      bytes are `rest`: slots the stream cannot fill keep their initial 0. */
  function SniffBuffer(rest: seq<byte>): (buffer: seq<byte>)
    ensures |buffer| == 8
  {
    if |rest| >= 8 then rest[..8] else rest + seq(8 - |rest|, _ => 0)
  }

  /** The byte-by-byte comparison IsFarbfeldImage makes with "farbfeld". */
  predicate SpellsFarbfeld(buffer: seq<byte>)
    requires |buffer| == 8
  {
    buffer[0] == 'f' as int && buffer[1] == 'a' as int && buffer[2] == 'r' as int && buffer[3] == 'b' as int &&
    buffer[4] == 'f' as int && buffer[5] == 'e' as int && buffer[6] == 'l' as int && buffer[7] == 'd' as int
  }

  /** IsFarbfeldImage answers true exactly when the next eight bytes are the magic. */
  lemma SniffIffMagic(rest: seq<byte>)
    ensures SpellsFarbfeld(SniffBuffer(rest)) <==> |rest| >= 8 && rest[..8] == Magic
  {
    var buffer := SniffBuffer(rest);
    if SpellsFarbfeld(buffer) {
      assert buffer[7] != 0;
      assert |rest| >= 8;
      forall i | 0 <= i < 8
        ensures rest[i] == Magic[i]
      {
        assert buffer[i] == rest[i];
      }
      assert rest[..8] == Magic;
    }
  }

  /** What ReadUInt16BigEndian returns once the first o bytes of `rest` have
      been read: the word at offset o, or -1 when fewer than two bytes are left. */
  function UInt16At(rest: seq<byte>, o: nat): int
  {
    if o + 2 <= |rest| then WordHelpers.MakeWordBigEndian(rest[o], rest[o + 1]) else -1
  }

  lemma UInt16AtSkip(rest: seq<byte>, o: nat)
    ensures UInt16Value(Skip(rest, o)) == UInt16At(rest, o)
  {
    if o + 2 <= |rest| {
      assert Skip(rest, o)[0] == rest[o] && Skip(rest, o)[1] == rest[o + 1];
    }
  }

  /** The pixel ReadPixelData builds from the record at offset o of `rest`:
      four ReadUInt16BigEndian results, each divided by 256 with C#'s integer
      division (so the -1 of a missing channel becomes 0), passed to the
      ArgbColor constructor as alpha, red, green, blue. */
  function StreamPixel(rest: seq<byte>, o: nat): ArgbColor
  {
    var r := CsDiv(UInt16At(rest, o), 0x100);
    var g := CsDiv(UInt16At(rest, o + 2), 0x100);
    var b := CsDiv(UInt16At(rest, o + 4), 0x100);
    var a := CsDiv(UInt16At(rest, o + 6), 0x100);
    NewArgbColor(a, r, g, b)
  }

  /** The `length` pixels ReadPixelData builds, pixel i from the bytes that
      start 8 * i bytes into `rest`. */
  function StreamPixels(rest: seq<byte>, length: nat): (ps: seq<ArgbColor>)
    ensures |ps| == length
  {
    seq(length, i requires 0 <= i < length => StreamPixel(rest, 8 * i))
  }

  /** What Decode(Stream) gives for a stream whose unread bytes are `rest`:
      the magic check, the two header words, `width * height` in 32-bit
      arithmetic, the pixel array (which cannot have a negative length) and
      the bitmap GDI+ builds from them. */
  function DecodeSpec(rest: seq<byte>): Result<Bitmap>
  {
    if !SpellsFarbfeld(SniffBuffer(rest)) then
      Failure(InvalidDataException(NotFarbfeldMessage))
    else
      var width := UInt32Value(Skip(rest, 8));
      var height := UInt32Value(Skip(rest, 12));
      var length := Int32Wrap(width as int * height as int);
      if length < 0 then Failure(OverflowException)
      else
        SizeAcceptedPixelCount(width, height);
        CreateBitmap(width, height, StreamPixels(Skip(rest, 16), length))
  }

  lemma StreamPixelsSnoc(rest: seq<byte>, i: nat)
    ensures StreamPixels(rest, i + 1) == StreamPixels(rest, i) + [StreamPixel(rest, 8 * i)]
  {
  }

  /** IsFarbfeldImage(Stream): reads eight bytes (fewer at the end of the
      stream) and reports whether they spell the magic; it does not move the
      stream back. */
  method IsFarbfeldImage(stream: InputStream?) returns (r: Result<bool>)
    requires stream != null ==> stream.Valid()
    modifies stream
    ensures stream == null ==> r == Failure(ArgumentNullException("stream"))
    ensures stream != null ==> stream.Valid()
    ensures stream != null ==> r == Success(SpellsFarbfeld(SniffBuffer(old(stream.Remaining()))))
    ensures stream != null ==> stream.Remaining() == Skip(old(stream.Remaining()), 8)
  {
    if stream == null {
      return Failure(ArgumentNullException("stream"));
    }
    ghost var rest := stream.Remaining();
    var buffer := new byte[8](_ => 0);
    var _ := stream.Read(buffer, 0, buffer.Length);
    forall i | 0 <= i < 8
      ensures buffer[i] == SniffBuffer(rest)[i]
    {
    }
    assert buffer[..] == SniffBuffer(rest);
    r := Success(SpellsFarbfeld(buffer[..]));
  }

  /** The body of ReadPixelData's loop: four ReadUInt16BigEndian calls, each
      result divided by 256 with C#'s integer division, given to the ArgbColor
      constructor as alpha, red, green, blue. */
  method ReadPixel(stream: InputStream, ghost rest: seq<byte>, ghost o: nat) returns (pixel: ArgbColor)
    requires stream.Valid() && stream.Remaining() == Skip(rest, o)
    modifies stream
    ensures stream.Valid()
    ensures pixel == StreamPixel(rest, o)
    ensures stream.Remaining() == Skip(rest, o + 8)
  {
    var r16 := ReadUInt16BigEndian(stream);
    UInt16AtSkip(rest, o);
    SkipSkip(rest, o, 2);
    var g16 := ReadUInt16BigEndian(stream);
    UInt16AtSkip(rest, o + 2);
    SkipSkip(rest, o + 2, 2);
    var b16 := ReadUInt16BigEndian(stream);
    UInt16AtSkip(rest, o + 4);
    SkipSkip(rest, o + 4, 2);
    var a16 := ReadUInt16BigEndian(stream);
    UInt16AtSkip(rest, o + 6);
    SkipSkip(rest, o + 6, 2);
    var red := CsDiv(r16, 0x100);
    var green := CsDiv(g16, 0x100);
    var blue := CsDiv(b16, 0x100);
    var alpha := CsDiv(a16, 0x100);
    pixel := NewArgbColor(alpha, red, green, blue);
  }

  /** ReadPixelData: `new ArgbColor[length]` (a negative length overflows),
      then one pixel per eight bytes. */
  method ReadPixelData(stream: InputStream, length: int32) returns (r: Result<array<ArgbColor>>)
    requires stream.Valid()
    modifies stream
    ensures stream.Valid()
    ensures length < 0 ==> r == Failure(OverflowException) && stream.Remaining() == old(stream.Remaining())
    ensures length >= 0 ==> r.Success? && fresh(r.value)
    ensures length >= 0 ==> r.value[..] == StreamPixels(old(stream.Remaining()), length)
    ensures length >= 0 ==> stream.Remaining() == Skip(old(stream.Remaining()), 8 * length as int)
  {
    if length < 0 {
      return Failure(OverflowException);
    }
    ghost var rest := stream.Remaining();
    var pixels := new ArgbColor[length](_ => Bgra(0, 0, 0, 0));
    var i := 0;
    while i < length
      invariant 0 <= i <= length
      invariant stream.Valid()
      invariant stream.Remaining() == Skip(rest, 8 * i)
      invariant pixels[..i] == StreamPixels(rest, i)
      modifies stream, pixels
    {
      var pixel := ReadPixel(stream, rest, 8 * i);
      assert 8 * i + 8 == 8 * (i + 1);
      pixels[i] := pixel;
      StreamPixelsSnoc(rest, i);
      assert pixels[..i + 1] == pixels[..i] + [pixel];
      i := i + 1;
    }
    assert pixels[..] == pixels[..length];
    r := Success(pixels);
  }

  /** DecodeSpec step by step, once the magic has been seen and the two header
      words read: a negative 32-bit product overflows, anything else is the
      bitmap of the pixels read. */
  lemma DecodeSpecSteps(rest: seq<byte>, width: int32, height: int32)
    requires SpellsFarbfeld(SniffBuffer(rest))
    requires width == UInt32Value(Skip(rest, 8)) && height == UInt32Value(Skip(rest, 12))
    ensures Int32Wrap(width as int * height as int) < 0 ==> DecodeSpec(rest) == Failure(OverflowException)
    ensures Int32Wrap(width as int * height as int) >= 0 ==>
              SizeAccepted(width, height) ==> |StreamPixels(Skip(rest, 16), Int32Wrap(width as int * height as int))| == width * height
    ensures Int32Wrap(width as int * height as int) >= 0 ==>
              DecodeSpec(rest) == CreateBitmap(width, height, StreamPixels(Skip(rest, 16), Int32Wrap(width as int * height as int)))
  {
    SizeAcceptedPixelCount(width, height);
  }

  /** The header words Decode reads after the magic: the width, then the height. */
  method ReadDimensions(stream: InputStream, ghost rest: seq<byte>) returns (width: int32, height: int32)
    requires stream.Valid() && stream.Remaining() == Skip(rest, 8)
    modifies stream
    ensures stream.Valid()
    ensures width == UInt32Value(Skip(rest, 8)) && height == UInt32Value(Skip(rest, 12))
    ensures stream.Remaining() == Skip(rest, 16)
  {
    width := ReadUInt32BigEndian(stream);
    SkipSkip(rest, 8, 4);
    height := ReadUInt32BigEndian(stream);
    SkipSkip(rest, 12, 4);
  }

  /** Decode(Stream). */
  method Decode(stream: InputStream?) returns (r: Result<Bitmap>)
    requires stream != null ==> stream.Valid()
    modifies stream
    ensures stream == null ==> r == Failure(ArgumentNullException("stream"))
    ensures stream != null ==> stream.Valid() && r == DecodeSpec(old(stream.Remaining()))
    ensures stream != null && r.Success? ==>
              stream.Remaining() == Skip(old(stream.Remaining()), 16 + 8 * |r.value.Pixels|)
    ensures stream != null && !SpellsFarbfeld(SniffBuffer(old(stream.Remaining()))) ==>
              stream.Remaining() == Skip(old(stream.Remaining()), 8)
  {
    if stream == null {
      return Failure(ArgumentNullException("stream"));
    }
    ghost var rest := stream.Remaining();
    var isFarbfeld := IsFarbfeldImage(stream);
    if !isFarbfeld.value {
      return Failure(InvalidDataException(NotFarbfeldMessage));
    }
    var width, height := ReadDimensions(stream, rest);
    DecodeSpecSteps(rest, width, height);
    var length := Int32Wrap(width as int * height as int);
    var pixels := ReadPixelData(stream, length);
    if pixels.Failure? {
      return Failure(pixels.error);
    }
    SkipSkip(rest, 16, 8 * length as int);
    r := CreateBitmap(width, height, pixels.value[..]);
  }

  /** Decode rejects a stream, with InvalidDataException, exactly when its
      first eight bytes are not the magic. */
  lemma DecodeRejectsIffNoMagic(rest: seq<byte>)
    ensures DecodeSpec(rest) == Failure(InvalidDataException(NotFarbfeldMessage))
            <==> !(|rest| >= 8 && rest[..8] == Magic)
  {
    SniffIffMagic(rest);
  }

  /** A decoded bitmap has the dimensions the header's two big-endian words
      state, and one pixel per pixel of those dimensions. */
  lemma DecodeHeaderFields(rest: seq<byte>)
    requires |rest| >= 16
    requires DecodeSpec(rest).Success?
    ensures DecodeSpec(rest).value.Width == HeaderWidth(rest)
    ensures DecodeSpec(rest).value.Height == HeaderHeight(rest)
    ensures |DecodeSpec(rest).value.Pixels| == HeaderWidth(rest) * HeaderHeight(rest)
    ensures DecodeSpec(rest).value.Format == Format32bppArgb
  {
    assert Skip(rest, 8)[..4] == rest[8..12];
    assert Skip(rest, 12)[..4] == rest[12..16];
  }

  /** Where the stream holds the whole record, ReadPixelData's pixel is the
      record's pixel narrowed by division by 256. */
  lemma StreamPixelOfRecord(rest: seq<byte>, o: nat)
    requires o + 8 <= |rest|
    ensures StreamPixel(rest, o) == RecordPixel(rest, o, DivideBy256)
  {
  }

  /** On a stream that holds every record, the decoded pixels are the records
      in order, each channel narrowed to its high byte. */
  lemma StreamPixelsOfCompleteData(rest: seq<byte>, length: nat)
    requires 8 * length <= |rest|
    ensures StreamPixels(rest, length) == RecordPixels(rest, length, DivideBy256)
  {
    forall i | 0 <= i < length
      ensures StreamPixels(rest, length)[i] == RecordPixels(rest, length, DivideBy256)[i]
    {
      StreamPixelOfRecord(rest, 8 * i);
    }
  }

  /** A complete file decodes to its header's dimensions and its records. */
  lemma DecodeCompleteFile(content: seq<byte>)
    requires |content| >= 8 && content[..8] == Magic
    requires IsCompleteFile(content)
    requires SizeAccepted(HeaderWidth(content), HeaderHeight(content))
    ensures DecodeSpec(content) == Success(Bitmap(HeaderWidth(content), HeaderHeight(content), Format32bppArgb,
              RecordPixels(content[16..], HeaderWidth(content) * HeaderHeight(content), DivideBy256)))
  {
    SniffIffMagic(content);
    assert Skip(content, 8)[..4] == content[8..12];
    assert Skip(content, 12)[..4] == content[12..16];
    StreamPixelsOfCompleteData(content[16..], HeaderWidth(content) * HeaderHeight(content));
  }

  /** Missing data is not an error: past the end of the stream every channel
      reads as -1 and divides to 0, so whatever pixels the stream lacks are
      transparent black. */
  lemma PixelPastEndIsZero(rest: seq<byte>, o: nat)
    requires |rest| <= o
    ensures StreamPixel(rest, o) == Bgra(0, 0, 0, 0)
  {
  }

  /** So a file that stops right after its header still decodes, to a bitmap
      of its dimensions that is transparent black throughout. */
  lemma DecodeHeaderOnly(width: int32, height: int32)
    requires SizeAccepted(width, height)
    ensures DecodeSpec(Header(width, height))
            == Success(Bitmap(width, height, Format32bppArgb, seq(width * height, _ => Bgra(0, 0, 0, 0))))
  {
    var file := Header(width, height);
    assert file[..8] == Magic;
    SniffIffMagic(file);
    assert Skip(file, 8) == BigEndian32Bytes(Bits(width)) + BigEndian32Bytes(Bits(height));
    ReadBackUInt32(width, BigEndian32Bytes(Bits(height)));
    assert Skip(file, 12) == BigEndian32Bytes(Bits(height)) + [];
    ReadBackUInt32(height, []);
    var pixels := StreamPixels(Skip(file, 16), width * height);
    forall i | 0 <= i < width * height
      ensures pixels[i] == Bgra(0, 0, 0, 0)
    {
      PixelPastEndIsZero(Skip(file, 16), 8 * i);
    }
    assert pixels == seq(width * height, _ => Bgra(0, 0, 0, 0));
  }
}
