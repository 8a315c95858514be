/** Bytes and the numbers they stand for, and the smaller and the larger of two numbers. */
module Basics {
  type byte = b: int | 0 <= b < 256

  /** The number that bytes stand for on the wire: the most significant byte comes first. */
  function BigEndian(b: seq<byte>): nat {
    if b == [] then 0 else BigEndian(b[..|b| - 1]) * 256 + b[|b| - 1] as int
  }

  lemma BigEndianOf2(a: byte, b: byte)
    ensures BigEndian([a, b]) == a as int * 256 + b as int
  {
    assert [a, b][..1] == [a] && [a][..0] == [];
    assert BigEndian([a]) == a as int;
  }

  lemma BigEndianOf4(a: byte, b: byte, c: byte, d: byte)
    ensures BigEndian([a, b, c, d]) == a as int * 0x100_0000 + b as int * 0x1_0000 + c as int * 256 + d as int
  {
    assert [a, b, c, d][..3] == [a, b, c] && [a, b, c][..2] == [a, b];
    BigEndianOf2(a, b);
  }

  /** Four bytes of a number, most significant first, make up its low 32 bits. */
  lemma FourBytesOf(n: int)
    ensures n / 0x100_0000 % 256 * 0x100_0000 + n / 0x1_0000 % 256 * 0x1_0000 + n / 0x100 % 256 * 0x100 + n % 256
         == n % 0x1_0000_0000
  {
    TwoBytesOf(n);
    TwoBytesOf(n / 0x1_0000);
    TwoWordsOf(n);
  }

  lemma TwoBytesOf(n: int)
    ensures n / 256 % 256 * 256 + n % 256 == n % 0x1_0000
  {
  }

  lemma TwoWordsOf(n: int)
    ensures n / 0x1_0000 / 256 == n / 0x100_0000
    ensures n % 0x1_0000_0000 == n / 0x1_0000 % 0x1_0000 * 0x1_0000 + n % 0x1_0000
  {
  }

  function Min(a: int, b: int): (m: int)
    ensures m <= a && m <= b && (m == a || m == b)
  {
    if a < b then a else b
  }

  function Max(a: int, b: int): (m: int)
    ensures m >= a && m >= b && (m == a || m == b)
  {
    if a > b then a else b
  }
}
