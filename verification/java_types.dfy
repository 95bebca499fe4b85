/**
 * The Java value types the Store works with (byte, int, long) and the library
 * operations it calls but that are not part of this model: SHA-256 and the
 * platform charset used by String.getBytes() and new String(byte[]).
 */
module JavaTypes {

  /** One byte, as the unsigned value its eight bits stand for. */
  type Byte = b: int | 0 <= b < 256

  const MinInt: int := -0x8000_0000
  const MaxInt: int := 0x7fff_ffff
  const MinLong: int := -0x8000_0000_0000_0000
  const MaxLong: int := 0x7fff_ffff_ffff_ffff

  /** Java's 32-bit int. */
  type Int32 = x: int | MinInt <= x <= MaxInt

  /** Java's 64-bit long. */
  type Long = x: int | MinLong <= x <= MaxLong

  /** Two's-complement wrap-around of an int subtraction or addition whose exact value is given. */
  function Wrap32(x: int): (r: Int32)
    ensures MinInt <= x <= MaxInt ==> r == x
    ensures (r - x) % 0x1_0000_0000 == 0
  {
    var m := (x - MinInt) % 0x1_0000_0000;
    m + MinInt
  }

  /**
   * The library calls the Store relies on, passed in as functions:
   * `sha256` is MessageDigest "SHA-256" applied to the whole input,
   * `getBytes` is String.getBytes() and `newString` is new String(byte[]),
   * both in the platform's default charset.
   */
  datatype Runtime = Runtime(
    sha256: seq<Byte> -> seq<Byte>,
    getBytes: string -> seq<Byte>,
    newString: seq<Byte> -> string)
}
