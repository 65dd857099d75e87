/** ArgbColor: a readonly 32-bit colour value. Its four byte fields are laid
    out B, G, R, A at offsets 0 to 3, so read as a little-endian 32-bit number
    the colour is 0xAARRGGBB. As a datatype value it cannot change after it is
    built, as the readonly fields ensure in the source. */
module ArgbColors {
  import opened Primitives
  import WordHelpers

  /** The fields in memory order. */
  datatype ArgbColor = Bgra(b: byte, g: byte, r: byte, a: byte) {

    function A(): byte { a }

    function R(): byte { r }

    function G(): byte { g }

    function B(): byte { b }

    /** The colour's four bytes, offset 0 first. */
    function Bytes(): (s: seq<byte>)
      ensures |s| == 4
      ensures s[0] == B() && s[1] == G() && s[2] == R() && s[3] == A()
    {
      [b, g, r, a]
    }
  }

  /** new ArgbColor(alpha, red, green, blue): note the order, alpha first. Each
      argument is cast to byte (see NewArgbColorModulo); an argument already
      in 0..255 is kept as it is. */
  function NewArgbColor(alpha: int, red: int, green: int, blue: int): (c: ArgbColor)
    ensures 0 <= alpha < 0x100 ==> c.A() == alpha
    ensures 0 <= red < 0x100 ==> c.R() == red
    ensures 0 <= green < 0x100 ==> c.G() == green
    ensures 0 <= blue < 0x100 ==> c.B() == blue
  {
    Bgra(LowByte(blue), LowByte(green), LowByte(red), LowByte(alpha))
  }

  /** Each getter gives its constructor argument modulo 256, whatever the
      argument's sign. */
  lemma NewArgbColorModulo(alpha: int, red: int, green: int, blue: int)
    ensures NewArgbColor(alpha, red, green, blue).A() == alpha % 0x100
    ensures NewArgbColor(alpha, red, green, blue).R() == red % 0x100
    ensures NewArgbColor(alpha, red, green, blue).G() == green % 0x100
    ensures NewArgbColor(alpha, red, green, blue).B() == blue % 0x100
  {
  }

  /** Building a colour from its own components gives the same colour back. */
  lemma NewArgbColorOfComponents(c: ArgbColor)
    ensures NewArgbColor(c.A(), c.R(), c.G(), c.B()) == c
  {
  }

  /** The byte layout: blue at offset 0, green at 1, red at 2, alpha at 3; so
      the little-endian 32-bit value of those bytes is the ARGB number with
      alpha in bits 24..31 and blue in bits 0..7. */
  lemma ByteLayout(alpha: int, red: int, green: int, blue: int)
    ensures NewArgbColor(alpha, red, green, blue).Bytes()
         == [blue % 0x100, green % 0x100, red % 0x100, alpha % 0x100]
    ensures (var s := NewArgbColor(alpha, red, green, blue).Bytes();
             BigEndian32Bytes(Bits(WordHelpers.MakeDWordLittleEndian(s[0], s[1], s[2], s[3])))
             == [alpha % 0x100, red % 0x100, green % 0x100, blue % 0x100])
  {
    var s := NewArgbColor(alpha, red, green, blue).Bytes();
    WordHelpers.MakeDWordBigEndianBytes(s[3], s[2], s[1], s[0]);
  }
}

/** The System.Drawing side of the codec's boundary: a GDI+ bitmap is modelled
    by its dimensions, its pixel format and its pixels as 32bpp ARGB colours in
    scan order, pixel (row, col) at index row * Width + col. */
module Drawing {
  import opened Primitives
  import opened ArgbColors
  import opened Exceptions

  datatype PixelFormat = Format32bppArgb | Format32bppRgb | Format24bppRgb | Format8bppIndexed

  datatype Bitmap = Bitmap(Width: int32, Height: int32, Format: PixelFormat, Pixels: seq<ArgbColor>) {
    /** What holds of every bitmap GDI+ hands out. */
    ghost predicate Valid()
    {
      SizeAccepted(Width, Height) && |Pixels| == Width * Height
    }
  }

  /** The sizes `new Bitmap(width, height, PixelFormat.Format32bppArgb)` accepts
      in this model: both dimensions positive and the 4 bytes per pixel
      addressable with an int. */
  predicate SizeAccepted(width: int, height: int)
  {
    0 < width && 0 < height && width * height * 4 <= Int32Max
  }

  /** An accepted size has a pixel count that 32-bit arithmetic computes exactly. */
  lemma SizeAcceptedPixelCount(width: int, height: int)
    ensures SizeAccepted(width, height) ==> 0 < width * height && Int32Wrap(width * height) == width * height
  {
  }

  /** The message of the ArgumentException GDI+ throws for a size it refuses. */
  const InvalidParameterMessage: string := "Parameter is not valid."

  /** `new Bitmap(width, height, PixelFormat.Format32bppArgb)` filled, pixel by
      pixel in scan order, with `pixels`; GDI+ refuses other sizes with an
      ArgumentException. */
  function CreateBitmap(width: int32, height: int32, pixels: seq<ArgbColor>): (r: Result<Bitmap>)
    requires SizeAccepted(width, height) ==> |pixels| == width * height
    ensures r.Success? <==> SizeAccepted(width, height)
    ensures r.Success? ==> r.value.Valid() && r.value.Format == Format32bppArgb
    ensures r.Success? ==> r.value.Width == width && r.value.Height == height && r.value.Pixels == pixels
  {
    if SizeAccepted(width, height) then Success(Bitmap(width, height, Format32bppArgb, pixels))
    else Failure(ArgumentException(InvalidParameterMessage, None))
  }
}
