/** The decoding benchmarks: four ways of reading the sample file's pixels,
    all dividing each 16-bit channel by 256, and the check that every run
    produced the pixels of the reference image. The benchmarks trust their
    sample file, so each reader is specified for a complete file (see
    FarbfeldFormat.IsCompleteFile); the magic is read and never checked. */
module DecodingBenchmarks {
  import opened Primitives
  import opened Exceptions
  import opened Streams
  import opened ArgbColors
  import opened FarbfeldFormat
  import opened FarbfeldDecoder
  import opened BenchmarkImageData

  /** The first `count` records of a complete file, narrowed to their high
      bytes: what every decoding benchmark reads. */
  ghost function FilePixels(content: seq<byte>): (ps: seq<ArgbColor>)
    requires IsCompleteFile(content)
    ensures |ps| == HeaderWidth(content) * HeaderHeight(content)
  {
    RecordPixels(content[16..], HeaderWidth(content) * HeaderHeight(content), DivideBy256)
  }

  /** Test1, the original decoder: the eight magic bytes read into a buffer,
      the dimensions read with ReadUInt32BigEndian, then the library's own
      pixel loop (four ReadUInt16BigEndian calls per pixel, each divided by
      256), which FarbfeldDecoder.ReadPixelData models. */
  method ReadByteAtATime(stream: InputStream) returns (pixels: array<ArgbColor>)
    requires stream.Valid() && IsCompleteFile(stream.Remaining())
    modifies stream
    ensures stream.Valid() && fresh(pixels)
    ensures pixels[..] == FilePixels(old(stream.Remaining()))
  {
    ghost var content := stream.Remaining();
    var header := new byte[8](_ => 0);
    var _ := stream.Read(header, 0, header.Length);
    var width, height := ReadDimensions(stream, content);
    assert Skip(content, 8)[..4] == content[8..12];
    assert Skip(content, 12)[..4] == content[12..16];
    ProductFits(width, height);
    var length := width * height;
    var read := ReadPixelData(stream, length);
    pixels := read.value;
    StreamPixelsOfCompleteData(content[16..], length);
  }

  /** Test2: the header read unchecked, then one Read of all `width * height *
      8` record bytes into one buffer, pixel j decoded from offset j * 8 of
      it. */
  method ReadAllPixelDataAtOnce(stream: InputStream) returns (pixels: array<ArgbColor>)
    requires stream.Valid() && IsCompleteFile(stream.Remaining())
    modifies stream
    ensures stream.Valid() && fresh(pixels)
    ensures pixels[..] == FilePixels(old(stream.Remaining()))
  {
    ghost var content := stream.Remaining();
    var width, height := ReadHeader(stream, content);
    ghost var data := content[16..];
    ProductFits(width, height);
    var length := width * height;
    pixels := new ArgbColor[length](_ => Bgra(0, 0, 0, 0));
    assert width * height * RecordLength == 8 * length;
    var buffer := ReadBuffer(stream, width * height * RecordLength, data);
    DecodeAll(buffer, pixels, data);
  }

  /** A buffer of `count` bytes filled by one Read. */
  method ReadBuffer(stream: InputStream, count: nat, ghost data: seq<byte>) returns (buffer: array<byte>)
    requires stream.Valid() && stream.Remaining() == data && count <= |data|
    modifies stream
    ensures stream.Valid() && fresh(buffer)
    ensures buffer[..] == data[..count] && stream.Remaining() == data[count..]
  {
    buffer := new byte[count](_ => 0);
    var _ := stream.Read(buffer, 0, buffer.Length);
    assert buffer[..] == data[..count];
  }

  /** Test2's pixel loop: pixel j from offset j * 8 of a buffer holding all
      the records. */
  method DecodeAll(buffer: array<byte>, pixels: array<ArgbColor>, ghost data: seq<byte>)
    requires 8 * pixels.Length <= |data| && buffer.Length == 8 * pixels.Length
    requires buffer[..] == data[..8 * pixels.Length]
    modifies pixels
    ensures pixels[..] == RecordPixels(data, pixels.Length, DivideBy256)
  {
    assert buffer[..] == data[8 * 0..8 * 0 + 8 * pixels.Length];
    DecodeRow(buffer, pixels, 0, pixels.Length, DivideBy256);
    RowAppend(data, 0, pixels.Length, buffer[..], pixels[..], DivideBy256);
    assert pixels[..] == pixels[..pixels.Length];
  }

  /** Test3: the header read unchecked, then one Read of eight bytes per
      pixel into a single record buffer, decoded from offset 0. */
  method ReadOnePixelAtATime(stream: InputStream) returns (pixels: array<ArgbColor>)
    requires stream.Valid() && IsCompleteFile(stream.Remaining())
    modifies stream
    ensures stream.Valid() && fresh(pixels)
    ensures pixels[..] == FilePixels(old(stream.Remaining()))
  {
    ghost var content := stream.Remaining();
    var buffer := new byte[RecordLength](_ => 0);
    var width, height := ReadHeader(stream, content);
    ghost var data := content[16..];
    ProductFits(width, height);
    var length := width * height;
    pixels := new ArgbColor[length](_ => Bgra(0, 0, 0, 0));
    var j := 0;
    while j < length
      invariant 0 <= j <= length
      invariant stream.Valid() && stream.Remaining() == data[8 * j..]
      invariant pixels[..j] == RecordPixels(data, j, DivideBy256)
      modifies stream, buffer, pixels
    {
      var pixel := ReadRecord(stream, buffer, data, j, DivideBy256);
      pixels[j] := pixel;
      RecordPixelsSnoc(data, j, DivideBy256);
      assert pixels[..j + 1] == pixels[..j] + [pixel];
      j := j + 1;
    }
    assert pixels[..] == pixels[..length];
  }

  /** One pass of Test3's loop: eight bytes read into the record buffer and
      decoded as the record they are. */
  method ReadRecord(stream: InputStream, buffer: array<byte>, ghost data: seq<byte>, j: nat, n: Narrowing)
    returns (pixel: ArgbColor)
    requires 8 * j + 8 <= |data| && stream.Valid() && stream.Remaining() == data[8 * j..]
    requires buffer.Length == 8
    modifies stream, buffer
    ensures stream.Valid() && stream.Remaining() == data[8 * (j + 1)..]
    ensures pixel == RecordPixel(data, 8 * j, n)
  {
    var _ := stream.Read(buffer, 0, 8);
    assert buffer[..] == data[8 * j..8 * j + 8];
    pixel := DecodeRecord(buffer, 0, n);
    RecordPixelOfSlice(data, 8 * j, buffer[..], 0, n);
  }

  /** One more record decoded is one more pixel at the end. */
  lemma RecordPixelsSnoc(data: seq<byte>, j: nat, n: Narrowing)
    requires 8 * j + 8 <= |data|
    ensures RecordPixels(data, j + 1, n) == RecordPixels(data, j, n) + [RecordPixel(data, 8 * j, n)]
  {
    assert RecordPixels(data, j + 1, n)[..j] == RecordPixels(data, j, n);
  }

  /** Test4: the header read unchecked, then the row loop of ImageData.Load,
      here dividing by 256. */
  method ReadPixelDataByRow(stream: InputStream) returns (pixels: array<ArgbColor>)
    requires stream.Valid() && IsCompleteFile(stream.Remaining())
    modifies stream
    ensures stream.Valid() && fresh(pixels)
    ensures pixels[..] == FilePixels(old(stream.Remaining()))
  {
    ghost var content := stream.Remaining();
    var width, height := ReadHeader(stream, content);
    pixels := ReadRows(stream, width, height, DivideBy256);
  }

  /** On a file the library accepts, every benchmark reads the pixels the
      library's decoder gives. */
  lemma BenchmarksAgreeWithDecoder(content: seq<byte>)
    requires |content| >= 8 && content[..8] == Magic && IsCompleteFile(content)
    requires Drawing.SizeAccepted(HeaderWidth(content), HeaderHeight(content))
    ensures DecodeSpec(content).Success? && DecodeSpec(content).value.Pixels == FilePixels(content)
  {
    DecodeCompleteFile(content);
  }

  const NoOutputMessage: string := "No output."

  const LengthMismatchMessage: string := "Data length mismatch."

  /** The message Check throws for the first pixel that differs. */
  function MismatchMessage(position: int, expected: ArgbColor, actual: ArgbColor): string
  {
    "Data at position " + IntToString(position) + " mismatch.\n\nExpected: R:" + IntToString(expected.R())
    + " G:" + IntToString(expected.G()) + " B:" + IntToString(expected.B()) + " A:" + IntToString(expected.A())
    + "\nActual: R:" + IntToString(actual.R()) + " G:" + IntToString(actual.G())
    + " B:" + IntToString(actual.B()) + " A:" + IntToString(actual.A())
  }

  /** Check compares colours channel by channel. */
  predicate SameChannels(expected: ArgbColor, actual: ArgbColor)
  {
    expected.A() == actual.A() && expected.R() == actual.R() && expected.G() == actual.G() && expected.B() == actual.B()
  }

  /** The pixels from position j on, compared in order; the first difference
      is reported. */
  function CheckPixels(expected: seq<ArgbColor>, actual: seq<ArgbColor>, j: nat): Outcome
    requires |expected| == |actual| && j <= |actual|
    decreases |actual| - j
  {
    if j == |actual| then Pass
    else if !SameChannels(expected[j], actual[j]) then
      Fail(GeneralException(MismatchMessage(j, expected[j], actual[j])))
    else CheckPixels(expected, actual, j + 1)
  }

  /** The runs from run i on, each first checked for its length, then pixel
      by pixel. */
  function CheckResults(results: seq<seq<ArgbColor>>, source: seq<ArgbColor>, i: nat): Outcome
    requires i <= |results|
    decreases |results| - i
  {
    if i == |results| then Pass
    else if |results[i]| != |source| then Fail(GeneralException(LengthMismatchMessage))
    else match CheckPixels(source, results[i], 0)
      case Fail(e) => Fail(e)
      case Pass => CheckResults(results, source, i + 1)
  }

  /** What Check does with the stored runs (None before any benchmark ran),
      the configured number of iterations and the reference image's pixels. */
  function CheckSpec(results: Option<seq<seq<ArgbColor>>>, iterations: int, source: seq<ArgbColor>): Outcome
  {
    if results.None? || |results.value| != iterations then Fail(GeneralException(NoOutputMessage))
    else CheckResults(results.value, source, 0)
  }

  /** Check: "No output." unless there is one run per iteration, then each run
      in turn, its length and then its pixels; the first failure is thrown. */
  method Check(results: Option<seq<seq<ArgbColor>>>, iterations: int, sourcePixels: seq<ArgbColor>)
    returns (r: Outcome)
    ensures r == CheckSpec(results, iterations, sourcePixels)
  {
    if results.None? || |results.value| != iterations {
      return Fail(GeneralException(NoOutputMessage));
    }
    var i := 0;
    while i < iterations
      invariant 0 <= i <= iterations
      invariant CheckResults(results.value, sourcePixels, i) == CheckSpec(results, iterations, sourcePixels)
    {
      var pixels := results.value[i];
      if |pixels| != |sourcePixels| {
        return Fail(GeneralException(LengthMismatchMessage));
      }
      var j := 0;
      while j < |pixels|
        invariant 0 <= j <= |pixels|
        invariant CheckPixels(sourcePixels, pixels, j) == CheckPixels(sourcePixels, pixels, 0)
      {
        var expected := sourcePixels[j];
        var actual := pixels[j];
        if expected.A() != actual.A() || expected.R() != actual.R() || expected.G() != actual.G() || expected.B() != actual.B() {
          return Fail(GeneralException(MismatchMessage(j, expected, actual)));
        }
        j := j + 1;
      }
      i := i + 1;
    }
    return Pass;
  }

  /** Comparing the four channels is comparing the colours. */
  lemma SameChannelsIffEqual(expected: ArgbColor, actual: ArgbColor)
    ensures SameChannels(expected, actual) <==> expected == actual
  {
  }

  /** The pixel comparison passes exactly when the pixels from j on agree. */
  lemma {:induction false} CheckPixelsPassIff(expected: seq<ArgbColor>, actual: seq<ArgbColor>, j: nat)
    requires |expected| == |actual| && j <= |actual|
    ensures CheckPixels(expected, actual, j) == Pass <==> expected[j..] == actual[j..]
    decreases |actual| - j
  {
    if j < |actual| {
      CheckPixelsPassIff(expected, actual, j + 1);
      SameChannelsIffEqual(expected[j], actual[j]);
      assert expected[j..] == [expected[j]] + expected[j + 1..];
      assert actual[j..] == [actual[j]] + actual[j + 1..];
    }
  }

  /** The first position where the pixels differ is the one reported, with
      both colours. */
  lemma {:induction false} CheckPixelsReportsFirstDifference(expected: seq<ArgbColor>, actual: seq<ArgbColor>,
                                                             j: nat, p: nat)
    requires |expected| == |actual| && j <= p < |actual|
    requires expected[j..p] == actual[j..p] && expected[p] != actual[p]
    ensures CheckPixels(expected, actual, j) == Fail(GeneralException(MismatchMessage(p, expected[p], actual[p])))
    decreases p - j
  {
    SameChannelsIffEqual(expected[j], actual[j]);
    if j < p {
      assert expected[j] == expected[j..p][0] && actual[j] == actual[j..p][0];
      assert expected[j + 1..p] == expected[j..p][1..] && actual[j + 1..p] == actual[j..p][1..];
      CheckPixelsReportsFirstDifference(expected, actual, j + 1, p);
    }
  }

  /** The runs from i on pass exactly when each of them is the source. */
  lemma {:induction false} CheckResultsPassIff(results: seq<seq<ArgbColor>>, source: seq<ArgbColor>, i: nat)
    requires i <= |results|
    ensures CheckResults(results, source, i) == Pass <==> forall k :: i <= k < |results| ==> results[k] == source
    decreases |results| - i
  {
    if i < |results| {
      CheckResultsPassIff(results, source, i + 1);
      if |results[i]| == |source| {
        CheckPixelsPassIff(source, results[i], 0);
        assert source[0..] == source && results[i][0..] == results[i];
      }
    }
  }

  /** Check passes exactly when there is one run per iteration and every run
      read the reference image's pixels. */
  lemma CheckPassIff(results: Option<seq<seq<ArgbColor>>>, iterations: int, source: seq<ArgbColor>)
    ensures CheckSpec(results, iterations, source) == Pass
            <==> results.Some? && |results.value| == iterations
                 && forall k :: 0 <= k < iterations ==> results.value[k] == source
  {
    if results.Some? && |results.value| == iterations {
      CheckResultsPassIff(results.value, source, 0);
    }
  }

  /** Runs that all read a file the library accepts pass the check against
      the library's decoding of that file. */
  lemma CheckAcceptsBenchmarkRuns(content: seq<byte>, results: seq<seq<ArgbColor>>)
    requires |content| >= 8 && content[..8] == Magic && IsCompleteFile(content)
    requires Drawing.SizeAccepted(HeaderWidth(content), HeaderHeight(content))
    requires forall k :: 0 <= k < |results| ==> results[k] == FilePixels(content)
    ensures DecodeSpec(content).Success?
    ensures CheckSpec(Some(results), |results|, DecodeSpec(content).value.Pixels) == Pass
  {
    BenchmarksAgreeWithDecoder(content);
    CheckPassIff(Some(results), |results|, DecodeSpec(content).value.Pixels);
  }
}
