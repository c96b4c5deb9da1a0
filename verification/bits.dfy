/** Integer views of bit patterns: powers of two, the bitwise operators the
    codec applies to non-negative values, and the value of a byte string. */
module Bits {

  /** 2 to the power n. */
  function Pow2(n: nat): (p: nat)
    ensures p >= 1
  {
    if n == 0 then 1 else 2 * Pow2(n - 1)
  }

  /** The widths the codec works with. */
  lemma Pow2Values()
    ensures Pow2(7) == 0x80 && Pow2(8) == 0x100
    ensures Pow2(15) == 0x8000 && Pow2(16) == 0x1_0000
    ensures Pow2(31) == 0x8000_0000 && Pow2(32) == 0x1_0000_0000
  {
    assert Pow2(4) == 0x10;
    assert Pow2(7) == 0x80 && Pow2(8) == 0x100;
    assert Pow2(12) == 0x1000;
    assert Pow2(15) == 0x8000 && Pow2(16) == 0x1_0000;
    assert Pow2(20) == 0x10_0000;
    assert Pow2(24) == 0x100_0000;
    assert Pow2(28) == 0x1000_0000;
  }

  /** `x ^ (2^n - 1)`: the n low bits of x, each one flipped, computed bit by
      bit from the least significant end. On an n-bit pattern it is the
      ones' complement 2^n - 1 - x. */
  function FlipBits(x: nat, n: nat): (r: nat)
    ensures x < Pow2(n) ==> r == Pow2(n) - 1 - x
  {
    if n == 0 then 0 else 2 * FlipBits(x / 2, n - 1) + (1 - x % 2)
  }

  /** `x & 2^k != 0`: bit k of x is set. */
  predicate BitSet(x: nat, k: nat) {
    (x / Pow2(k)) % 2 == 1
  }

  /** Byte values. */
  type Byte = b: int | 0 <= b < 0x100

  /** The unsigned value of a byte string read most significant byte first. */
  function BytesValue(s: seq<Byte>): (v: nat)
    ensures |s| == 1 ==> v == s[0]
  {
    if |s| == 0 then 0 else BytesValue(s[..|s| - 1]) * 0x100 + s[|s| - 1]
  }

  /** A two-byte string has the weights 256 and 1. */
  lemma BytesValue2(s: seq<Byte>)
    requires |s| == 2
    ensures BytesValue(s) == s[0] as int * 0x100 + s[1]
  {
    assert s[..1][..0] == [];
  }

  /** A four-byte string has the weights 2^24, 2^16, 2^8 and 1. */
  lemma BytesValue4(s: seq<Byte>)
    requires |s| == 4
    ensures BytesValue(s) == s[0] as int * 0x100_0000 + s[1] as int * 0x1_0000 + s[2] as int * 0x100 + s[3]
  {
    assert s[..3][..2] == s[..2];
    assert s[..2][..1] == s[..1];
    assert s[..1][..0] == [];
    assert BytesValue(s[..1]) == s[0];
    assert BytesValue(s[..2]) == s[0] as int * 0x100 + s[1];
    assert BytesValue(s[..3]) == s[0] as int * 0x1_0000 + s[1] as int * 0x100 + s[2];
  }

  /** Two byte strings of the same length two with the same value are equal. */
  lemma BytesValueInjective2(a: seq<Byte>, b: seq<Byte>)
    requires |a| == |b| == 2 && BytesValue(a) == BytesValue(b)
    ensures a == b
  {
    BytesValue2(a);
    BytesValue2(b);
  }

  /** Two byte strings of the same length four with the same value are equal. */
  lemma BytesValueInjective4(a: seq<Byte>, b: seq<Byte>)
    requires |a| == |b| == 4 && BytesValue(a) == BytesValue(b)
    ensures a == b
  {
    BytesValue4(a);
    BytesValue4(b);
    var x := BytesValue(a);
    DivModUnique(x, 0x100, a[0] as int * 0x1_0000 + a[1] as int * 0x100 + a[2], a[3]);
    DivModUnique(x, 0x100, b[0] as int * 0x1_0000 + b[1] as int * 0x100 + b[2], b[3]);
    DivModUnique(x / 0x100, 0x100, a[0] as int * 0x100 + a[1], a[2]);
    DivModUnique(x / 0x100, 0x100, b[0] as int * 0x100 + b[1], b[2]);
    DivModUnique(x / 0x1_0000, 0x100, a[0], a[1]);
    DivModUnique(x / 0x1_0000, 0x100, b[0], b[1]);
    DivModUnique(x, 0x1_0000, x / 0x1_0000, a[2] as int * 0x100 + a[3]);
  }

  /** A multiple of m strictly between -m and m is zero. */
  lemma MultipleBelowModulus(m: int, k: int)
    requires m > 0 && -m < m * k < m
    ensures k == 0
  {
  }

  /** Quotient and remainder of a division are the only ones within bounds. */
  lemma DivModUnique(x: int, m: int, q: int, r: int)
    requires m > 0 && 0 <= r < m && x == m * q + r
    ensures x / m == q && x % m == r
  {
    var q', r' := x / m, x % m;
    assert m * (q - q') == r' - r;
    MultipleBelowModulus(m, q - q');
  }

  /** The low 16 bits of v are its two low bytes, `(v >> 8) & 0xFF` and `v & 0xFF`. */
  lemma SplitWord(v: int)
    ensures ((v / 0x100) % 0x100) * 0x100 + v % 0x100 == v % 0x1_0000
  {
    var q := v / 0x100;
    DivModUnique(v, 0x1_0000, q / 0x100, (q % 0x100) * 0x100 + v % 0x100);
  }

  /** The low 32 bits of v are its four low bytes, `(v >> 24) & 0xFF` down to `v & 0xFF`. */
  lemma SplitDword(v: int)
    ensures ((v / 0x100_0000) % 0x100) * 0x100_0000 + ((v / 0x1_0000) % 0x100) * 0x1_0000
          + ((v / 0x100) % 0x100) * 0x100 + v % 0x100 == v % 0x1_0000_0000
  {
    var q1 := v / 0x100;
    var q2 := q1 / 0x100;
    var q3 := q2 / 0x100;
    DivModUnique(v, 0x1_0000, q2, (q1 % 0x100) * 0x100 + v % 0x100);
    DivModUnique(v, 0x100_0000, q3, (q2 % 0x100) * 0x1_0000 + (q1 % 0x100) * 0x100 + v % 0x100);
    DivModUnique(v, 0x1_0000_0000, q3 / 0x100,
      (q3 % 0x100) * 0x100_0000 + (q2 % 0x100) * 0x1_0000 + (q1 % 0x100) * 0x100 + v % 0x100);
  }
}
