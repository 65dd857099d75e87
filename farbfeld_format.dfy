/** The farbfeld wire format: the 8-byte ASCII magic "farbfeld", the width and
    the height as big-endian 32-bit numbers, then one 8-byte record per pixel in
    row-major order, holding R, G, B and A as big-endian 16-bit numbers. This
    module gives the reference definitions every reader and writer of the model
    is proved against. */
module FarbfeldFormat {
  import opened Primitives
  import opened ArgbColors
  import WordHelpers

  /** "farbfeld" in ASCII. */
  const Magic: seq<byte> := ['f' as int, 'a' as int, 'r' as int, 'b' as int, 'f' as int, 'e' as int, 'l' as int, 'd' as int]

  /** Bytes 0..15 of a file with the given dimensions. */
  function Header(width: int32, height: int32): (s: seq<byte>)
    ensures |s| == 16
  {
    Magic + BigEndian32Bytes(Bits(width)) + BigEndian32Bytes(Bits(height))
  }

  /** The width and height a file's header announces, for a file of at least 16 bytes. */
  function HeaderWidth(content: seq<byte>): int32
    requires |content| >= 16
  {
    WordHelpers.MakeDWordBigEndian(content[8], content[9], content[10], content[11])
  }

  function HeaderHeight(content: seq<byte>): int32
    requires |content| >= 16
  {
    WordHelpers.MakeDWordBigEndian(content[12], content[13], content[14], content[15])
  }

  /** Content that holds a header with non-negative dimensions, all the records
      those dimensions announce, and whose record bytes an int can count. */
  ghost predicate IsCompleteFile(content: seq<byte>)
  {
    && |content| >= 16
    && 0 <= HeaderWidth(content) && 0 <= HeaderHeight(content)
    && HeaderWidth(content) * HeaderHeight(content) * 8 <= Int32Max
    && |content| >= 16 + HeaderWidth(content) * HeaderHeight(content) * 8
  }

  /** Channel t of a colour in record order: 0 red, 1 green, 2 blue, 3 alpha. */
  function ChannelOf(c: ArgbColor, t: nat): byte
    requires t < 4
  {
    if t == 0 then c.R() else if t == 1 then c.G() else if t == 2 then c.B() else c.A()
  }

  /** The 16-bit value of channel t of the record that starts at offset o. */
  function RecordChannel(data: seq<byte>, o: nat, t: nat): ushort
    requires t < 4 && o + 8 <= |data|
  {
    data[o + 2 * t] as int * 0x100 + data[o + 2 * t + 1]
  }

  /** The two ways the repository narrows a 16-bit channel to 8 bits: integer
      division by 256 (the library decoder and most benchmarks) or by 257
      (the benchmark loader). */
  datatype Narrowing = DivideBy256 | DivideBy257

  function Narrow(n: Narrowing, v: ushort): byte
  {
    match n
    case DivideBy256 => v / 0x100
    case DivideBy257 => v / 257
  }

  /** Division by 256 keeps the high byte; division by 257 gives the byte r
      with r * 257 <= v < (r + 1) * 257, so 0xFFFF becomes 0xFF. */
  lemma NarrowMeaning(n: Narrowing, v: ushort)
    ensures n == DivideBy256 ==> Narrow(n, v) == BigEndian16Bytes(v)[0]
    ensures n == DivideBy257 ==> Narrow(n, v) as int * 257 <= v < (Narrow(n, v) as int + 1) * 257
  {
  }

  /** The pixel of the record at offset o, its channels narrowed by n. */
  function RecordPixel(data: seq<byte>, o: nat, n: Narrowing): ArgbColor
    requires o + 8 <= |data|
  {
    NewArgbColor(Narrow(n, RecordChannel(data, o, 3)), Narrow(n, RecordChannel(data, o, 0)),
                 Narrow(n, RecordChannel(data, o, 1)), Narrow(n, RecordChannel(data, o, 2)))
  }

  /** The first `count` records of data, decoded. */
  function RecordPixels(data: seq<byte>, count: nat, n: Narrowing): (ps: seq<ArgbColor>)
    requires 8 * count <= |data|
    ensures |ps| == count
  {
    seq(count, j requires 0 <= j < count => RecordPixel(data, 8 * j, n))
  }

  /** Each channel of a decoded pixel comes from the high byte (division by
      256) of the 16-bit value at offset o + 2t, in the order R, G, B, A. */
  lemma RecordPixelChannels(data: seq<byte>, o: nat, t: nat)
    requires t < 4 && o + 8 <= |data|
    ensures ChannelOf(RecordPixel(data, o, DivideBy256), t) == data[o + 2 * t]
  {
    var v := RecordChannel(data, o, t);
    assert BigEndian16Bytes(v)[0] == data[o + 2 * t] by {
      DivMod256(v, data[o + 2 * t], data[o + 2 * t + 1]);
    }
  }

  /** The examples the repository's tests use for division by 257. */
  lemma NarrowBy257Examples()
    ensures Narrow(DivideBy257, 65535) == 255
    ensures Narrow(DivideBy257, 0) == 0
    ensures Narrow(DivideBy257, 32896) == 128
    ensures Narrow(DivideBy256, 32896) == 128
  {
  }
}
