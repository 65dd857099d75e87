/** The library's big-endian stream helpers (StreamExtensions): each read is a
    run of ReadByte calls and each write a run of WriteByte calls. */
module StreamExtensions {
  import opened Primitives
  import opened Streams
  import WordHelpers

  /** `(high << 8) | low` on two ReadByte results, each a byte or -1. A byte
      shifted left by 8 has its low 8 bits clear, so or-ing a byte adds it; -1
      has every bit set, so or-ing it gives -1 whatever the other side is. */
  function ShiftOr(high: int, low: int): (r: int)
    requires -1 <= high < 0x100 && -1 <= low < 0x100
    ensures low == -1 ==> r == -1
    ensures high >= 0 && low >= 0 ==> r == WordHelpers.MakeWordBigEndian(high, low)
  {
    if low == -1 then -1 else high * 0x100 + low
  }

  /** What ReadUInt16BigEndian returns when the unread bytes are `rest`. */
  function UInt16Value(rest: seq<byte>): int
  {
    if |rest| >= 2 then WordHelpers.MakeWordBigEndian(rest[0], rest[1]) else -1
  }

  /** What `(byte)stream.ReadByte()` gives for the k-th unread byte: the byte,
      or (byte)(-1) == 0xFF past the end. */
  function ByteOrFF(rest: seq<byte>, k: nat): byte
  {
    if k < |rest| then rest[k] else 0xFF
  }

  /** The k-th ReadByte from `rest`, cast to byte, is ByteOrFF(rest, k). */
  lemma ReadByteOrFF(rest: seq<byte>, k: nat)
    ensures LowByte(if Skip(rest, k) == [] then -1 else Skip(rest, k)[0]) == ByteOrFF(rest, k)
  {
    if k < |rest| {
      assert Skip(rest, k)[0] == rest[k];
    }
  }

  /** What ReadUInt32BigEndian returns when the unread bytes are `rest`. */
  function UInt32Value(rest: seq<byte>): int32
  {
    WordHelpers.MakeDWordBigEndian(ByteOrFF(rest, 0), ByteOrFF(rest, 1), ByteOrFF(rest, 2), ByteOrFF(rest, 3))
  }

  /** With two bytes left, the big-endian word they form; with fewer, -1. The
      stream moves past the bytes read, two at most. */
  method ReadUInt16BigEndian(stream: InputStream) returns (r: int)
    requires stream.Valid()
    modifies stream
    ensures stream.Valid()
    ensures r == UInt16Value(old(stream.Remaining()))
    ensures stream.Remaining() == Skip(old(stream.Remaining()), 2)
  {
    ghost var rest := stream.Remaining();
    var high := stream.ReadByte();
    var low := stream.ReadByte();
    SkipSkip(rest, 1, 1);
    r := ShiftOr(high, low);
  }

  /** The big-endian int32 of the next four bytes, each missing byte read as
      0xFF; the stream moves past the bytes read, four at most. */
  method ReadUInt32BigEndian(stream: InputStream) returns (r: int32)
    requires stream.Valid()
    modifies stream
    ensures stream.Valid()
    ensures r == UInt32Value(old(stream.Remaining()))
    ensures stream.Remaining() == Skip(old(stream.Remaining()), 4)
  {
    ghost var rest := stream.Remaining();
    var b0 := stream.ReadByte();
    ReadByteOrFF(rest, 0);
    var b1 := stream.ReadByte();
    ReadByteOrFF(rest, 1);
    SkipSkip(rest, 1, 1);
    var b2 := stream.ReadByte();
    ReadByteOrFF(rest, 2);
    SkipSkip(rest, 2, 1);
    var b3 := stream.ReadByte();
    ReadByteOrFF(rest, 3);
    SkipSkip(rest, 3, 1);
    assert LowByte(b0) == ByteOrFF(rest, 0) && LowByte(b1) == ByteOrFF(rest, 1);
    assert LowByte(b2) == ByteOrFF(rest, 2) && LowByte(b3) == ByteOrFF(rest, 3);
    r := WordHelpers.MakeDWordBigEndian(LowByte(b0), LowByte(b1), LowByte(b2), LowByte(b3));
  }

  /** WriteBigEndian(ushort): appends the high byte `value >> 8`, then the low
      byte, and nothing else. */
  method WriteBigEndian16(stream: OutputStream, value: ushort)
    modifies stream
    ensures stream.Written == old(stream.Written) + [value / 0x100, value % 0x100]
    ensures stream.Written == old(stream.Written) + BigEndian16Bytes(value)
  {
    stream.WriteByte(LowByte(value / 0x100));
    stream.WriteByte(LowByte(value));
  }

  /** WriteBigEndian(int): appends the four bytes of the value's 32-bit
      pattern, most significant first. `value & 0xFF000000` widens both sides
      to long (the mask is a uint literal), so the first byte is bits 24..31
      even for a negative value; the other masks select bits 16..23, 8..15
      and 0..7 before the shift brings them down. */
  method WriteBigEndian32(stream: OutputStream, value: int32)
    modifies stream
    ensures |stream.Written| == |old(stream.Written)| + 4
    ensures stream.Written == old(stream.Written) + BigEndian32Bytes(Bits(value))
  {
    var u := Bits(value);
    ShiftsOfPattern(u);
    stream.WriteByte(LowByte(u / 0x100_0000));
    stream.WriteByte(LowByte(u / 0x1_0000 % 0x100));
    stream.WriteByte(LowByte(u / 0x100 % 0x100));
    stream.WriteByte(LowByte(u % 0x100));
  }

  /** Shifting right by 16 or 24 is shifting right by 8 two or three times. */
  lemma ShiftsOfPattern(u: uint32)
    ensures u / 0x1_0000 == u / 0x100 / 0x100
    ensures u / 0x100_0000 == u / 0x100 / 0x100 / 0x100
  {
    var q1 := u / 0x100;
    var q2 := q1 / 0x100;
    var q3 := q2 / 0x100;
    assert u == q2 * 0x1_0000 + (q1 % 0x100) * 0x100 + u % 0x100;
    assert u == q3 * 0x100_0000 + (q2 % 0x100) * 0x1_0000 + (q1 % 0x100) * 0x100 + u % 0x100;
  }

  /** Reading back the two bytes WriteBigEndian16 wrote gives the value. */
  lemma ReadBackUInt16(value: ushort, more: seq<byte>)
    ensures UInt16Value(BigEndian16Bytes(value) + more) == value
  {
    var s := BigEndian16Bytes(value) + more;
    assert s[0] == value / 0x100 && s[1] == value % 0x100;
  }

  /** A 32-bit pattern is determined by its four bytes. */
  lemma BigEndian32BytesInjective(x: uint32, y: uint32)
    requires BigEndian32Bytes(x) == BigEndian32Bytes(y)
    ensures x == y
  {
    var sx, sy := BigEndian32Bytes(x), BigEndian32Bytes(y);
    assert sx[0] == sy[0] && sx[1] == sy[1] && sx[2] == sy[2] && sx[3] == sy[3];
  }

  /** Reading back the four bytes WriteBigEndian32 wrote gives the value,
      negative values included. */
  lemma ReadBackUInt32(value: int32, more: seq<byte>)
    ensures UInt32Value(BigEndian32Bytes(Bits(value)) + more) == value
  {
    var b := BigEndian32Bytes(Bits(value));
    var s := b + more;
    assert ByteOrFF(s, 0) == b[0] && ByteOrFF(s, 1) == b[1] && ByteOrFF(s, 2) == b[2] && ByteOrFF(s, 3) == b[3];
    var r := WordHelpers.MakeDWordBigEndian(b[0], b[1], b[2], b[3]);
    WordHelpers.MakeDWordBigEndianBytes(b[0], b[1], b[2], b[3]);
    assert BigEndian32Bytes(Bits(r)) == [b[0], b[1], b[2], b[3]] == b;
    BigEndian32BytesInjective(Bits(r), Bits(value));
    WrapOfBits(r);
    WrapOfBits(value);
  }

  /** At the end of the stream ReadUInt16BigEndian gives -1, and so it does
      with a single byte left, since `(b << 8) | -1 == -1`. */
  lemma ReadUInt16AtEnd(rest: seq<byte>)
    requires |rest| < 2
    ensures UInt16Value(rest) == -1 && UInt16Value(rest) < 0
    ensures |rest| == 1 ==> ShiftOr(rest[0], -1) == -1 && ShiftOr(-1, -1) == -1
  {
  }

  /** Past the end ReadUInt32BigEndian reads every missing byte as 0xFF: with
      nothing left the result is -1. */
  lemma ReadUInt32AtEnd()
    ensures UInt32Value([]) == -1
  {
    var r := UInt32Value([]);
    WordHelpers.MakeDWordBigEndianBytes(0xFF, 0xFF, 0xFF, 0xFF);
    assert BigEndian32Bytes(Bits(r)) == [0xFF, 0xFF, 0xFF, 0xFF] == BigEndian32Bytes(Bits(-1));
    BigEndian32BytesInjective(Bits(r), Bits(-1));
    WrapOfBits(r);
    WrapOfBits(-1);
  }
}
