/** Machine-level vocabulary shared by the whole model: the C# integer types the
    codec computes with, unchecked 32-bit wrap-around, C#'s truncating division,
    the big-endian byte order of the farbfeld format and decimal formatting of
    integers (as used by string interpolation in exception messages). */
module Primitives {

  /** System.Byte */
  type byte = x: int | 0 <= x < 0x100

  /** System.UInt16 */
  type ushort = x: int | 0 <= x < 0x1_0000

  /** System.Int32 */
  type int32 = x: int | -0x8000_0000 <= x < 0x8000_0000

  /** The 32-bit patterns, read as unsigned numbers. */
  type uint32 = x: int | 0 <= x < 0x1_0000_0000

  const Int32Max: int := 0x7FFF_FFFF

  function Min(a: int, b: int): (m: int)
    ensures m <= a && m <= b && (m == a || m == b)
  {
    if a <= b then a else b
  }

  /** The int32 whose 32-bit two's-complement pattern is the low 32 bits of x:
      the result of an unchecked C# int computation whose exact value is x. */
  function Int32Wrap(x: int): (r: int32)
    ensures -0x8000_0000 <= x < 0x8000_0000 ==> r == x
  {
    var u := x % 0x1_0000_0000;
    if u < 0x8000_0000 then u else u - 0x1_0000_0000
  }

  /** The wrapped result differs from the exact one by a multiple of 2^32. */
  lemma Int32WrapCongruent(x: int)
    ensures (x - Int32Wrap(x)) % 0x1_0000_0000 == 0
  {
  }

  /** The bit pattern of an int32 read as unsigned: `(uint)x`. */
  function Bits(x: int32): (u: uint32)
    ensures x < 0 <==> u >= 0x8000_0000
  {
    x % 0x1_0000_0000
  }

  /** Reading a pattern back as an int32 gives the original value. */
  lemma WrapOfBits(x: int32)
    ensures Int32Wrap(Bits(x)) == x
  {
  }

  /** A pattern read as an int32 and back is the same pattern; it is negative
      exactly when bit 31 is set. */
  lemma BitsOfWrap(u: uint32)
    ensures Bits(Int32Wrap(u)) == u
    ensures Int32Wrap(u) < 0 <==> u >= 0x8000_0000
  {
  }

  /** `(byte)x` in an unchecked context keeps the low 8 bits; Dafny's `%` is
      Euclidean, so this is also right for negative x: `(byte)(-1) == 0xFF`. */
  function LowByte(x: int): (b: byte)
    ensures 0 <= x < 0x100 ==> b == x
    ensures x == -1 ==> b == 0xFF
  {
    x % 0x100
  }

  /** C# integer division, which truncates toward zero (Dafny's `/` is
      Euclidean and would give `-1 / 256 == -1`). */
  function CsDiv(x: int, d: int): (q: int)
    requires d > 0
    ensures x >= 0 ==> q == x / d
    ensures -d < x < 0 ==> q == 0
  {
    if x >= 0 then x / d else -((-x) / d)
  }

  /** A 16-bit value as two bytes, most significant first. */
  function BigEndian16Bytes(v: ushort): (s: seq<byte>)
    ensures |s| == 2 && s[0] as int * 0x100 + s[1] == v
  {
    [v / 0x100, v % 0x100]
  }

  /** A 32-bit pattern as four bytes, most significant first: each byte is
      the low 8 bits of the pattern shifted right by 24, 16, 8 and 0. */
  function BigEndian32Bytes(u: uint32): (s: seq<byte>)
    ensures |s| == 4 && s[0] as int * 0x100_0000 + s[1] as int * 0x1_0000 + s[2] as int * 0x100 + s[3] == u
  {
    var q1 := u / 0x100;
    var q2 := q1 / 0x100;
    var q3 := q2 / 0x100;
    [q3, q2 % 0x100, q1 % 0x100, u % 0x100]
  }

  lemma DivMod256(u: int, q: int, r: int)
    requires u == q * 0x100 + r && 0 <= r < 0x100
    ensures u / 0x100 == q && u % 0x100 == r
  {
  }

  /** Four bytes are the big-endian bytes of the number they spell out. */
  lemma BigEndian32BytesOfSum(b0: byte, b1: byte, b2: byte, b3: byte)
    ensures BigEndian32Bytes(b0 * 0x100_0000 + b1 * 0x1_0000 + b2 * 0x100 + b3) == [b0, b1, b2, b3]
  {
    var u := b0 * 0x100_0000 + b1 * 0x1_0000 + b2 * 0x100 + b3;
    DivMod256(u, b0 * 0x1_0000 + b1 * 0x100 + b2, b3);
    DivMod256(b0 * 0x1_0000 + b1 * 0x100 + b2, b0 * 0x100 + b1, b2);
    DivMod256(b0 * 0x100 + b1, b0, b1);
  }

  /** Row `row` of a width-by-height image, in scan order, starts at
      `row * width`, and the next row starts `width` later, inside the
      `width * height` pixels. */
  lemma RowFits(row: int, width: int, height: int)
    requires 0 <= row < height && 0 <= width
    ensures (row + 1) * width == row * width + width
    ensures row * width + width <= width * height
  {
    assert (row + 1) * width <= height * width;
  }

  function DecimalDigit(d: int): (c: char)
    requires 0 <= d < 10
    ensures '0' <= c <= '9' && c as int - '0' as int == d
  {
    "0123456789"[d]
  }

  /** Every character is a decimal digit. */
  predicate AllDigits(s: string)
  {
    forall i :: 0 <= i < |s| ==> '0' <= s[i] <= '9'
  }

  /** The number a string of decimal digits denotes, most significant first. */
  function DecimalValue(s: string): nat
    requires AllDigits(s)
  {
    if |s| == 0 then 0 else DecimalValue(s[..|s| - 1]) * 10 + (s[|s| - 1] as int - '0' as int)
  }

  /** The decimal digits of n, without leading zeros. */
  function NatToString(n: nat): (s: string)
    ensures |s| >= 1 && forall i :: 0 <= i < |s| ==> '0' <= s[i] <= '9'
    decreases n
  {
    if n < 10 then [DecimalDigit(n)] else NatToString(n / 10) + [DecimalDigit(n % 10)]
  }

  /** An int as string interpolation formats it, with '-' as the negative
      sign and no group separators: an optional minus sign, then the digits. */
  function IntToString(x: int): (s: string)
    ensures |s| >= 1 && (s[0] == '-' <==> x < 0)
  {
    if x < 0 then "-" + NatToString(-x) else NatToString(x)
  }

  /** The digits NatToString writes denote n. */
  lemma {:induction false} NatToStringValue(n: nat)
    ensures AllDigits(NatToString(n)) && DecimalValue(NatToString(n)) == n
    decreases n
  {
    var s := NatToString(n);
    if n >= 10 {
      NatToStringValue(n / 10);
      assert s[..|s| - 1] == NatToString(n / 10);
    } else {
      assert s[..|s| - 1] == [];
    }
  }

  /** No leading zero: only 0 itself is written starting with '0'. */
  lemma {:induction false} NatToStringLeadingDigit(n: nat)
    ensures NatToString(n)[0] == '0' <==> n == 0
    decreases n
  {
    if n >= 10 {
      NatToStringLeadingDigit(n / 10);
      assert NatToString(n)[0] == NatToString(n / 10)[0];
    }
  }

  /** So two numbers are written alike only when they are equal. */
  lemma NatToStringInjective(m: nat, n: nat)
    ensures NatToString(m) == NatToString(n) <==> m == n
  {
    NatToStringValue(m);
    NatToStringValue(n);
  }

  /** IntToString read back: a minus sign exactly for a negative x, followed
      by the digits of its magnitude. */
  lemma IntToStringValue(x: int)
    ensures x < 0 ==> AllDigits(IntToString(x)[1..]) && DecimalValue(IntToString(x)[1..]) == -x
    ensures x >= 0 ==> AllDigits(IntToString(x)) && DecimalValue(IntToString(x)) == x
    ensures IntToString(x)[0] == '0' <==> x == 0
  {
    if x < 0 {
      NatToStringValue(-x);
      assert IntToString(x)[1..] == NatToString(-x);
    } else {
      NatToStringValue(x);
      NatToStringLeadingDigit(x);
    }
  }
}

/** The .NET exceptions the codec throws, and the result types that carry them. */
module Exceptions {

  datatype Option<+T> = None | Some(value: T)

  datatype Exception =
    | ArgumentNullException(paramName: string)
    | ArgumentException(message: string, argument: Option<string>)
    | InvalidDataException(message: string)
    | OverflowException
    | IndexOutOfRangeException
    | GeneralException(message: string)

  /** The value a member returns, or the exception it throws. */
  datatype Result<+T> = Success(value: T) | Failure(error: Exception)

  /** Completion of a member that returns nothing, or the exception it throws. */
  datatype Outcome = Pass | Fail(error: Exception)
}
