/** The library's endianness helpers (Cyotek.Drawing.Imaging.WordHelpers).

    C# promotes byte and ushort operands of `<<` and `|` to int. A byte shifted
    left by 8, 16 or 24 occupies its own 8 bits of the 32-bit pattern, so or-ing
    the shifted bytes adds them; a byte shifted by 24 may set bit 31, which makes
    the int negative. The `(ushort)` casts keep the low 16 bits. */
module WordHelpers {
  import opened Primitives

  /** value1 << 24 | value2 << 16 | value3 << 8 | value4: the int whose 32-bit
      pattern is the four arguments side by side, value1 in the top 8 bits. */
  function MakeDWordBigEndian(value1: byte, value2: byte, value3: byte, value4: byte): (r: int32)
    ensures Bits(r) == value1 as int * 0x100_0000 + value2 as int * 0x1_0000 + value3 as int * 0x100 + value4
    ensures r < 0 <==> value1 >= 0x80
  {
    var sum := value1 as int * 0x100_0000 + value2 as int * 0x1_0000 + value3 as int * 0x100 + value4;
    BitsOfWrap(sum);
    assert sum >= 0x8000_0000 <==> value1 >= 0x80;
    Int32Wrap(sum)
  }

  /** So the bytes of the result, most significant first, are the four arguments. */
  lemma MakeDWordBigEndianBytes(value1: byte, value2: byte, value3: byte, value4: byte)
    ensures BigEndian32Bytes(Bits(MakeDWordBigEndian(value1, value2, value3, value4))) == [value1, value2, value3, value4]
  {
    BigEndian32BytesOfSum(value1, value2, value3, value4);
  }

  /** value1 | value2 << 8 | value3 << 16 | value4 << 24: the first argument is
      the least significant byte, so this is MakeDWordBigEndian with the
      arguments reversed. */
  function MakeDWordLittleEndian(value1: byte, value2: byte, value3: byte, value4: byte): (r: int32)
    ensures r == MakeDWordBigEndian(value4, value3, value2, value1)
  {
    Int32Wrap(value1 as int + value2 as int * 0x100 + value3 as int * 0x1_0000 + value4 as int * 0x100_0000)
  }

  /** (ushort)(value1 << 8 | value2): value1 is the high byte and value2 the low
      byte, and the cast never loses a bit. */
  function MakeWordBigEndian(value1: byte, value2: byte): (r: ushort)
    ensures r == value1 as int * 0x100 + value2
  {
    (value1 as int * 0x100 + value2) % 0x1_0000
  }

  /** The bytes of the word, high first, are the two arguments. */
  lemma MakeWordBigEndianBytes(value1: byte, value2: byte)
    ensures BigEndian16Bytes(MakeWordBigEndian(value1, value2)) == [value1, value2]
  {
    DivMod256(MakeWordBigEndian(value1, value2), value1, value2);
  }

  /** (ushort)(value1 | value2 << 8): value2 is the high byte. */
  function MakeWordLittleEndian(value1: byte, value2: byte): (r: ushort)
    ensures r == value1 + value2 as int * 0x100
    ensures r == MakeWordBigEndian(value2, value1)
  {
    (value1 + value2 as int * 0x100) % 0x1_0000
  }

  /** (ushort)((value << 8) + (value >> 8)): the shift left moves the low byte
      up (its old high byte goes beyond bit 15 and the cast drops it), the shift
      right moves the high byte down. */
  function SwapBytes(value: ushort): (r: ushort)
    ensures BigEndian16Bytes(r) == [value % 0x100, value / 0x100]
  {
    var high, low := value / 0x100, value % 0x100;
    assert value * 0x100 + high == high * 0x1_0000 + (low * 0x100 + high);
    DropHighWord(high, low * 0x100 + high);
    DivMod256(low * 0x100 + high, low, high);
    (value * 0x100 + value / 0x100) % 0x1_0000
  }

  /** The `(ushort)` cast drops everything from bit 16 up. */
  lemma DropHighWord(h: int, x: int)
    requires 0 <= x < 0x1_0000
    ensures (h * 0x1_0000 + x) % 0x1_0000 == x
  {
  }

  /** A word is determined by its two bytes. */
  lemma BigEndian16BytesInjective(x: ushort, y: ushort)
    requires BigEndian16Bytes(x) == BigEndian16Bytes(y)
    ensures x == y
  {
    assert BigEndian16Bytes(x)[0] == BigEndian16Bytes(y)[0];
    assert BigEndian16Bytes(x)[1] == BigEndian16Bytes(y)[1];
  }

  /** Swapping the bytes of a word built from (a, b) builds it from (b, a). */
  lemma SwapBytesOfWord(a: byte, b: byte)
    ensures SwapBytes(MakeWordBigEndian(a, b)) == MakeWordBigEndian(b, a)
  {
    var w := MakeWordBigEndian(a, b);
    MakeWordBigEndianBytes(a, b);
    MakeWordBigEndianBytes(b, a);
    assert BigEndian16Bytes(SwapBytes(w)) == [b, a] == BigEndian16Bytes(MakeWordBigEndian(b, a));
    BigEndian16BytesInjective(SwapBytes(w), MakeWordBigEndian(b, a));
  }

  /** Swapping twice gives the original word back. */
  lemma SwapBytesInvolution(value: ushort)
    ensures SwapBytes(SwapBytes(value)) == value
  {
    var s := SwapBytes(value);
    assert BigEndian16Bytes(s)[0] == value % 0x100 && BigEndian16Bytes(s)[1] == value / 0x100;
    assert BigEndian16Bytes(SwapBytes(s)) == [value / 0x100, value % 0x100] == BigEndian16Bytes(value);
    BigEndian16BytesInjective(SwapBytes(s), value);
  }
}

/** The benchmark program's copy of the helpers (FarbfeldBenchmarks.WordHelpers):
    the same expressions, but the word builders return the int without the
    `(ushort)` cast. */
module BenchmarkWordHelpers {
  import opened Primitives
  import WordHelpers

  function MakeDWordBigEndian(value1: byte, value2: byte, value3: byte, value4: byte): (r: int32)
    ensures r == WordHelpers.MakeDWordBigEndian(value1, value2, value3, value4)
  {
    Int32Wrap(value1 as int * 0x100_0000 + value2 as int * 0x1_0000 + value3 as int * 0x100 + value4)
  }

  function MakeDWordLittleEndian(value1: byte, value2: byte, value3: byte, value4: byte): (r: int32)
    ensures r == MakeDWordBigEndian(value4, value3, value2, value1)
  {
    Int32Wrap(value1 as int + value2 as int * 0x100 + value3 as int * 0x1_0000 + value4 as int * 0x100_0000)
  }

  /** value1 << 8 | value2, with no cast: still within 0..65535, and the same
      number as the library's ushort version. */
  function MakeWordBigEndian(value1: byte, value2: byte): (r: int)
    ensures 0 <= r < 0x1_0000
    ensures r == WordHelpers.MakeWordBigEndian(value1, value2)
  {
    value1 as int * 0x100 + value2
  }

  /** value1 | value2 << 8 */
  function MakeWordLittleEndian(value1: byte, value2: byte): (r: int)
    ensures r == WordHelpers.MakeWordLittleEndian(value1, value2)
    ensures r == MakeWordBigEndian(value2, value1)
  {
    value1 + value2 as int * 0x100
  }
}
