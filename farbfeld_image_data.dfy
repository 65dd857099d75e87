/** FarbfeldImageData: a width, a height and a private byte buffer of four
    bytes per pixel, R, G, B, A, in scan order. The buffer only ever changes
    through SetData, which checks its length against the dimensions and
    stores a copy; GetData hands out a copy. Width and Height are public
    properties with unchecked setters, so the length check holds at the
    moment SetData succeeds and not as a permanent invariant. */
module ImageBuffer {
  import opened Primitives
  import opened Exceptions
  import opened ArgbColors
  import opened Drawing

  /** `width * height * 4` in unchecked 32-bit arithmetic. */
  function RequiredLength(width: int32, height: int32): (n: int32)
    ensures 0 <= width && 0 <= height && width * height * 4 <= Int32Max ==> n == width * height * 4
    ensures width == 0 || height == 0 ==> n == 0
  {
    Int32Wrap(width as int * height as int * 4)
  }

  /** The message of SetData's ArgumentException: the interpolated length. */
  function DataLengthMessage(length: int32): string
  {
    "Data must contain " + IntToString(length) + " elements."
  }

  /** The colour ToBitmap builds from the four bytes at offset o: the
      constructor takes alpha (o + 3) first, then red (o), green (o + 1)
      and blue (o + 2). */
  function DataPixel(data: seq<byte>, o: nat): ArgbColor
    requires o + 4 <= |data|
  {
    NewArgbColor(data[o + 3], data[o], data[o + 1], data[o + 2])
  }

  /** The first `count` pixels of a buffer, pixel i from bytes 4i to 4i + 3. */
  function DataPixels(data: seq<byte>, count: nat): (ps: seq<ArgbColor>)
    requires 4 * count <= |data|
    ensures |ps| == count
  {
    seq(count, i requires 0 <= i < count => DataPixel(data, 4 * i))
  }

  /** The buffer layout of a run of pixels: R, G, B, A for each, in order. */
  function PixelData(pixels: seq<ArgbColor>): (data: seq<byte>)
    ensures |data| == 4 * |pixels|
  {
    if pixels == [] then []
    else PixelData(pixels[..|pixels| - 1]) + PixelBytes(pixels[|pixels| - 1])
  }

  function PixelBytes(p: ArgbColor): seq<byte>
  {
    [p.R(), p.G(), p.B(), p.A()]
  }

  /** Pixel i of the buffer holds red at 4i, green at 4i + 1, blue at 4i + 2
      and alpha at 4i + 3. */
  lemma DataPixelChannels(data: seq<byte>, count: nat, i: nat)
    requires 4 * count <= |data| && i < count
    ensures DataPixels(data, count)[i].R() == data[4 * i]
    ensures DataPixels(data, count)[i].G() == data[4 * i + 1]
    ensures DataPixels(data, count)[i].B() == data[4 * i + 2]
    ensures DataPixels(data, count)[i].A() == data[4 * i + 3]
  {
  }

  /** The four bytes of pixel j sit at offsets 4j to 4j + 3 of the layout. */
  lemma {:induction false} PixelDataAt(pixels: seq<ArgbColor>, j: nat)
    requires j < |pixels|
    ensures PixelData(pixels)[4 * j..4 * j + 4] == PixelBytes(pixels[j])
    decreases |pixels|
  {
    var last := |pixels| - 1;
    var front := pixels[..last];
    if j < last {
      PixelDataAt(front, j);
      assert PixelData(pixels)[4 * j..4 * j + 4] == PixelData(front)[4 * j..4 * j + 4];
    } else {
      assert PixelData(pixels)[4 * j..4 * j + 4] == PixelBytes(pixels[last]);
    }
  }

  /** Reading a layout back gives the pixels it was made from. */
  lemma DataPixelsOfPixelData(pixels: seq<ArgbColor>)
    ensures DataPixels(PixelData(pixels), |pixels|) == pixels
  {
    var data := PixelData(pixels);
    forall j | 0 <= j < |pixels|
      ensures DataPixels(data, |pixels|)[j] == pixels[j]
    {
      PixelDataAt(pixels, j);
      DataPixelOfBytes(data, 4 * j, pixels[j]);
    }
  }

  /** Where a pixel's four bytes sit, ToBitmap's mapping reads that pixel. */
  lemma DataPixelOfBytes(data: seq<byte>, o: nat, p: ArgbColor)
    requires o + 4 <= |data| && data[o..o + 4] == PixelBytes(p)
    ensures DataPixel(data, o) == p
  {
    assert data[o] == p.R() && data[o + 1] == p.G() by {
      assert data[o..o + 4][0] == data[o] && data[o..o + 4][1] == data[o + 1];
    }
    assert data[o + 2] == p.B() && data[o + 3] == p.A() by {
      assert data[o..o + 4][2] == data[o + 2] && data[o..o + 4][3] == data[o + 3];
    }
  }

  /** A zero-filled buffer, as LoadFrom stores, holds transparent black only. */
  lemma DataPixelsOfZeros(count: nat)
    ensures DataPixels(seq(4 * count, _ => 0), count) == seq(count, _ => Bgra(0, 0, 0, 0))
  {
  }

  /** The test fixture's case: a 32 by 32 image needs 4096 bytes, and the
      message says so. */
  lemma DataLengthMessageOf32By32()
    ensures RequiredLength(32, 32) == 4096
    ensures DataLengthMessage(RequiredLength(32, 32)) == "Data must contain 4096 elements."
  {
    Decimal4096();
    assert IntToString(4096) == "4096";
  }

  lemma Decimal4096()
    ensures NatToString(4096) == "4096"
  {
    assert NatToString(40) == "40" by {
      assert NatToString(4) == "4";
    }
    assert NatToString(409) == NatToString(40) + ['9'] == "409";
    assert NatToString(4096) == NatToString(409) + ['6'];
  }

  /** The message names the required length: for a non-negative length, the
      text between "Data must contain " and " elements." is its decimal digits. */
  lemma DataLengthMessageNamesLength(length: int32)
    requires length >= 0
    ensures |DataLengthMessage(length)| > 28
    ensures DataLengthMessage(length)[..18] == "Data must contain "
    ensures DataLengthMessage(length)[|DataLengthMessage(length)| - 10..] == " elements."
    ensures AllDigits(DataLengthMessage(length)[18..|DataLengthMessage(length)| - 10])
    ensures DecimalValue(DataLengthMessage(length)[18..|DataLengthMessage(length)| - 10]) == length
  {
    var m := DataLengthMessage(length);
    IntToStringValue(length);
    assert m[18..|m| - 10] == IntToString(length);
  }

  /** A length SetData accepted, for dimensions GDI+ accepts, is exactly four
      bytes per pixel. */
  lemma AcceptedLength(width: int32, height: int32, length: int)
    requires SizeAccepted(width, height) && length == RequiredLength(width, height)
    ensures length == 4 * (width * height)
  {
  }

  class FarbfeldImageData {
    var Width: int32
    var Height: int32
    /** The private `_data` buffer; a sequence, since no array outside the
        object ever shares it. */
    var Data: seq<byte>

    /** FarbfeldImageData(): no dimensions and the shared empty buffer. */
    constructor ()
      ensures Width == 0 && Height == 0 && Data == []
    {
      Width := 0;
      Height := 0;
      Data := [];
    }

    /** GetData: a new array holding a copy of the buffer. */
    method GetData() returns (r: array<byte>)
      ensures fresh(r) && r[..] == Data
    {
      r := new byte[|Data|](i requires 0 <= i < |Data| reads this => Data[i]);
    }

    /** SetData: null is refused with ArgumentNullException and a length other
        than `Width * Height * 4` with ArgumentException, both leaving the
        buffer alone; otherwise the buffer becomes a copy of `data`, so later
        writes to the caller's array do not reach it. */
    method SetData(data: array?<byte>) returns (r: Outcome)
      modifies this
      ensures Width == old(Width) && Height == old(Height)
      ensures data == null ==> r == Fail(ArgumentNullException("data")) && Data == old(Data)
      ensures data != null && data.Length != RequiredLength(Width, Height) ==>
                r == Fail(ArgumentException(DataLengthMessage(RequiredLength(Width, Height)), None))
                && Data == old(Data)
      ensures data != null && data.Length == RequiredLength(Width, Height) ==> r == Pass && Data == data[..]
    {
      if data == null {
        return Fail(ArgumentNullException("data"));
      }
      var length := RequiredLength(Width, Height);
      if data.Length != length {
        return Fail(ArgumentException(DataLengthMessage(length), None));
      }
      Data := data[..];
      r := Pass;
    }

    /** LoadFrom: takes the image's dimensions and stores a new zero-filled
        buffer of four bytes per pixel; no pixel of the image is copied. */
    method LoadFrom(image: Bitmap)
      requires image.Valid()
      modifies this
      ensures Width == image.Width && Height == image.Height
      ensures Data == seq(4 * (image.Width * image.Height), _ => 0)
    {
      var width, height := image.Width, image.Height;
      assert width * height * 4 == 4 * (width * height);
      var data := new byte[width * height * 4](_ => 0);
      Width := width;
      Height := height;
      var outcome := SetData(data);
      assert data[..] == seq(4 * (image.Width * image.Height), _ => 0);
    }

    /** ToBitmap: a new 32bpp ARGB bitmap of the current dimensions (GDI+
        refuses other sizes), then, for pixel i, the colour of buffer bytes
        4i to 4i + 3. A buffer shorter than that, which the unchecked setters
        allow, runs off the end of the array. The object does not change. */
    method ToBitmap() returns (r: Result<Bitmap>)
      ensures !SizeAccepted(Width, Height) ==> r == Failure(ArgumentException(InvalidParameterMessage, None))
      ensures SizeAccepted(Width, Height) && |Data| < 4 * (Width * Height) ==> r == Failure(IndexOutOfRangeException)
      ensures SizeAccepted(Width, Height) && |Data| >= 4 * (Width * Height) ==>
                r == Success(Bitmap(Width, Height, Format32bppArgb, DataPixels(Data, Width * Height)))
    {
      var width: int, height: int := Width, Height;
      var data := GetData();
      if !SizeAccepted(width, height) {
        return Failure(ArgumentException(InvalidParameterMessage, None));
      }
      var pixels := new ArgbColor[width * height](_ => Bgra(0, 0, 0, 0));
      var index := 0;
      var i := 0;
      while i < width * height
        invariant 0 <= i <= width * height && index == 4 * i
        invariant data[..] == Data
        invariant 4 * i <= |Data|
        invariant forall k :: 0 <= k < i ==> pixels[k] == DataPixel(Data, 4 * k)
      {
        if data.Length <= index + 3 {
          return Failure(IndexOutOfRangeException);
        }
        pixels[i] := NewArgbColor(data[index + 3], data[index], data[index + 1], data[index + 2]);
        index := index + 4;
        i := i + 1;
      }
      assert pixels[..] == DataPixels(Data, width * height);
      r := CreateBitmap(width, height, pixels[..]);
    }

    /** FarbfeldImageData(int, int, byte[]): sets the dimensions, then
        validates the buffer through SetData, whose exception escapes the
        constructor. */
    static method New(width: int32, height: int32, data: array?<byte>) returns (r: Result<FarbfeldImageData>)
      ensures data == null ==> r == Failure(ArgumentNullException("data"))
      ensures data != null && data.Length != RequiredLength(width, height) ==>
                r == Failure(ArgumentException(DataLengthMessage(RequiredLength(width, height)), None))
      ensures data != null && data.Length == RequiredLength(width, height) ==>
                r.Success? && fresh(r.value)
                && r.value.Width == width && r.value.Height == height && r.value.Data == data[..]
    {
      var image := new FarbfeldImageData();
      image.Width := width;
      image.Height := height;
      var outcome := image.SetData(data);
      if outcome.Fail? {
        return Failure(outcome.error);
      }
      r := Success(image);
    }

    /** FarbfeldImageData(Bitmap): refuses null; otherwise loads from the
        image, or from its 32bpp ARGB copy, which has the same dimensions. */
    static method FromBitmap(image: Option<Bitmap>) returns (r: Result<FarbfeldImageData>)
      requires image.Some? ==> image.value.Valid()
      ensures image.None? ==> r == Failure(ArgumentNullException("image"))
      ensures image.Some? ==>
                r.Success? && fresh(r.value)
                && r.value.Width == image.value.Width && r.value.Height == image.value.Height
                && r.value.Data == seq(4 * (image.value.Width * image.value.Height), _ => 0)
    {
      if image.None? {
        return Failure(ArgumentNullException("image"));
      }
      var data := new FarbfeldImageData();
      data.LoadFrom(image.value);
      r := Success(data);
    }
  }

  /** The fixture's scenario: a 32 by 32 object given 16 bytes refuses them,
      naming the 4096 it needs, and keeps its empty buffer. */
  method SetDataRejectsShortBuffer() returns (r: Outcome, kept: seq<byte>)
    ensures r == Fail(ArgumentException("Data must contain 4096 elements.", None))
    ensures kept == []
  {
    var target := new FarbfeldImageData();
    target.Width := 32;
    target.Height := 32;
    var data := new byte[16](_ => 0);
    DataLengthMessageOf32By32();
    r := target.SetData(data);
    kept := target.Data;
  }

  /** SetData and GetData copy: writing to the array given to SetData, or to
      the array GetData returned, leaves the stored buffer as it was. */
  method CopiesAreIndependent() returns (stored: seq<byte>, handedOut: seq<byte>)
    ensures stored == [1, 2, 3, 4] && handedOut == [1, 2, 3, 4]
  {
    var target := new FarbfeldImageData();
    target.Width := 1;
    target.Height := 1;
    var given := new byte[4](i requires 0 <= i < 4 => i + 1);
    var outcome := target.SetData(given);
    assert given[..] == [1, 2, 3, 4];
    given[0] := 9;
    var copy := target.GetData();
    copy[1] := 9;
    stored := target.Data;
    var again := target.GetData();
    handedOut := again[..];
  }
}
