/** Hexadecimal text and the byte strings it stands for: PHP's `pack("H*", …)`
    on the way in, `base_convert(…, 10, 16)` and `str_pad(…, 2, '0',
    STR_PAD_LEFT)` on the way out. */
module Hex {
  import opened Bits

  predicate IsHexDigit(c: char) {
    '0' <= c <= '9' || 'a' <= c <= 'f' || 'A' <= c <= 'F'
  }

  predicate IsLowerHexDigit(c: char) {
    '0' <= c <= '9' || 'a' <= c <= 'f'
  }

  /** Text that `pack("H*", …)` reads without complaint: hex digits of either case. */
  predicate IsHexString(s: string) {
    forall i :: 0 <= i < |s| ==> IsHexDigit(s[i])
  }

  predicate IsLowerHexString(s: string) {
    forall i :: 0 <= i < |s| ==> IsLowerHexDigit(s[i])
  }

  /** The nibble a digit stands for; upper and lower case read alike. */
  function DigitValue(c: char): (n: nat)
    requires IsHexDigit(c)
    ensures n < 16
  {
    if '0' <= c <= '9' then c as int - '0' as int
    else if 'a' <= c <= 'f' then c as int - 'a' as int + 10
    else c as int - 'A' as int + 10
  }

  /** The lowercase digit for a nibble. */
  function Digit(n: nat): (c: char)
    requires n < 16
    ensures IsLowerHexDigit(c) && DigitValue(c) == n
  {
    if n < 10 then ('0' as int + n) as char else ('a' as int + n - 10) as char
  }

  /** Every lowercase digit is the digit of its own value. */
  lemma DigitOfValue(c: char)
    requires IsLowerHexDigit(c)
    ensures Digit(DigitValue(c)) == c
  {
  }

  /** The same digit in lower case. */
  function LowerDigit(c: char): (d: char)
    requires IsHexDigit(c)
    ensures IsLowerHexDigit(d) && DigitValue(d) == DigitValue(c)
  {
    if 'A' <= c <= 'F' then (c as int - 'A' as int + 'a' as int) as char else c
  }

  /** The same text in lower case. */
  function ToLower(s: string): (r: string)
    requires IsHexString(s)
    ensures |r| == |s| && IsLowerHexString(r)
    ensures forall i :: 0 <= i < |s| ==> DigitValue(r[i]) == DigitValue(s[i])
  {
    seq(|s|, i requires 0 <= i < |s| => LowerDigit(s[i]))
  }

  /** The k-th byte `pack("H*")` makes: digits 2k and 2k + 1, or digit 2k
      and a zero nibble when it is the last one. */
  function PairByte(s: string, k: int): Byte
    requires IsHexString(s) && 0 <= k < (|s| + 1) / 2
  {
    16 * DigitValue(s[2 * k]) + if 2 * k + 1 < |s| then DigitValue(s[2 * k + 1]) else 0
  }

  /** `pack("H*", s)`: each pair of digits becomes one byte, high nibble
      first; an odd trailing digit becomes the high nibble of a last byte
      whose low nibble is zero. */
  function Pack(s: string): (bytes: seq<Byte>)
    requires IsHexString(s)
    ensures |bytes| == (|s| + 1) / 2
  {
    seq((|s| + 1) / 2, k requires 0 <= k < (|s| + 1) / 2 => PairByte(s, k))
  }

  /** Byte k of `pack("H*")` holds digit 2k as its high nibble and digit
      2k + 1 as its low nibble; a lone last digit gets a zero low nibble. */
  lemma PackNibbles(s: string, k: nat)
    requires IsHexString(s) && k < |Pack(s)|
    ensures Pack(s)[k] / 16 == DigitValue(s[2 * k])
    ensures Pack(s)[k] % 16 == if 2 * k + 1 < |s| then DigitValue(s[2 * k + 1]) else 0
  {
    DivModUnique(Pack(s)[k], 16, DigitValue(s[2 * k]), if 2 * k + 1 < |s| then DigitValue(s[2 * k + 1]) else 0);
  }

  /** Read from the left, packing takes two digits to the first byte and
      packs the rest after it; a single digit is a high nibble. */
  lemma PackFromLeft(s: string)
    requires IsHexString(s)
    ensures |s| == 0 ==> Pack(s) == []
    ensures |s| == 1 ==> Pack(s) == [16 * DigitValue(s[0])]
    ensures |s| >= 2 ==>
      IsHexString(s[2..]) && Pack(s) == [16 * DigitValue(s[0]) + DigitValue(s[1])] + Pack(s[2..])
  {
    if |s| >= 2 {
      var rest := s[2..];
      forall k | 0 <= k < |Pack(s)|
        ensures Pack(s)[k] == ([PairByte(s, 0)] + Pack(rest))[k]
      {
        if k > 0 {
          SamePair(s, k, rest, k - 1);
        }
      }
    }
  }

  /** Reading hex is case-insensitive. */
  lemma PackIgnoresCase(s: string)
    requires IsHexString(s)
    ensures Pack(ToLower(s)) == Pack(s)
  {
    var l := ToLower(s);
    forall k | 0 <= k < |Pack(s)|
      ensures Pack(l)[k] == Pack(s)[k]
    {
      assert DigitValue(l[2 * k]) == DigitValue(s[2 * k]);
      if 2 * k + 1 < |s| {
        assert DigitValue(l[2 * k + 1]) == DigitValue(s[2 * k + 1]);
      }
    }
  }

  /** Hex text stays hex text when joined. */
  lemma HexAppend(a: string, b: string)
    requires IsHexString(a) && IsHexString(b)
    ensures IsHexString(a + b)
  {
    forall i | 0 <= i < |a + b|
      ensures IsHexDigit((a + b)[i])
    {
      if i < |a| {
        assert (a + b)[i] == a[i];
      } else {
        assert (a + b)[i] == b[i - |a|];
      }
    }
  }

  /** Lowercase hex text stays lowercase hex when joined. */
  lemma LowerHexAppend(a: string, b: string)
    requires IsLowerHexString(a) && IsLowerHexString(b)
    ensures IsLowerHexString(a + b) && IsHexString(a + b)
  {
    forall i | 0 <= i < |a + b|
      ensures IsLowerHexDigit((a + b)[i])
    {
      if i < |a| {
        assert (a + b)[i] == a[i];
      } else {
        assert (a + b)[i] == b[i - |a|];
      }
    }
  }

  /** Two two-digit pieces joined pack to their two bytes. */
  lemma PackJoin2(a: string, b: string, x: Byte, y: Byte)
    requires |a| == 2 && |b| == 2 && IsLowerHexString(a) && IsLowerHexString(b)
    requires Pack(a) == [x] && Pack(b) == [y]
    ensures |a + b| == 4 && IsLowerHexString(a + b) && IsHexString(a + b)
    ensures Pack(a + b) == [x, y]
  {
    LowerHexAppend(a, b);
    PackAppend(a, b);
  }

  /** Four two-digit pieces joined pack to their four bytes. */
  lemma PackJoin4(a: string, b: string, c: string, d: string, w: Byte, x: Byte, y: Byte, z: Byte)
    requires |a| == 2 && |b| == 2 && |c| == 2 && |d| == 2
    requires IsLowerHexString(a) && IsLowerHexString(b) && IsLowerHexString(c) && IsLowerHexString(d)
    requires Pack(a) == [w] && Pack(b) == [x] && Pack(c) == [y] && Pack(d) == [z]
    ensures |a + b + c + d| == 8 && IsLowerHexString(a + b + c + d) && IsHexString(a + b + c + d)
    ensures Pack(a + b + c + d) == [w, x, y, z]
  {
    PackJoin2(a, b, w, x);
    PackJoin2(c, d, y, z);
    var ab, cd := a + b, c + d;
    assert a + b + c + d == ab + cd;
    LowerHexAppend(ab, cd);
    PackAppend(ab, cd);
    assert Pack(ab) + Pack(cd) == [w, x, y, z];
  }

  /** Two bytes written as two-digit hex and joined pack back to those bytes. */
  lemma PackHexPair(b0: Byte, b1: Byte)
    ensures var s := HexByte(b0) + HexByte(b1);
      |s| == 4 && IsLowerHexString(s) && IsHexString(s) && Pack(s) == [b0, b1]
  {
    PackJoin2(HexByte(b0), HexByte(b1), b0, b1);
  }

  /** Two positions holding the same digits make the same byte. */
  lemma SamePair(s: string, k: int, t: string, j: int)
    requires IsHexString(s) && 0 <= k < (|s| + 1) / 2
    requires IsHexString(t) && 0 <= j < (|t| + 1) / 2
    requires s[2 * k] == t[2 * j]
    requires 2 * k + 1 < |s| <==> 2 * j + 1 < |t|
    requires 2 * k + 1 < |s| ==> s[2 * k + 1] == t[2 * j + 1]
    ensures PairByte(s, k) == PairByte(t, j)
  {
  }

  /** Packing distributes over concatenation after an even number of digits. */
  lemma PackAppend(a: string, b: string)
    requires IsHexString(a) && IsHexString(b) && |a| % 2 == 0
    ensures IsHexString(a + b)
    ensures Pack(a + b) == Pack(a) + Pack(b)
  {
    HexAppend(a, b);
    var ab, n := a + b, |a| / 2;
    assert 2 * n == |a|;
    forall k | 0 <= k < |Pack(ab)|
      ensures Pack(ab)[k] == (Pack(a) + Pack(b))[k]
    {
      if k < n {
        SamePair(ab, k, a, k);
      } else {
        var j := k - n;
        assert 2 * k == |a| + 2 * j;
        SamePair(ab, k, b, j);
        assert (Pack(a) + Pack(b))[k] == Pack(b)[j];
      }
    }
  }

  /** The value of a hex numeral, most significant digit first. */
  function NumeralValue(s: string): nat
    requires IsHexString(s)
  {
    if |s| == 0 then 0 else NumeralValue(s[..|s| - 1]) * 16 + DigitValue(s[|s| - 1])
  }

  /** `base_convert(b, 10, 16)` for a byte: its lowercase hex numeral with no
      leading zero, so a byte below 0x10 gets one digit. */
  function Numeral(b: Byte): (s: string)
    ensures IsLowerHexString(s) && 1 <= |s| <= 2
    ensures |s| == 2 <==> b >= 0x10
    ensures |s| == 2 ==> s[0] != '0'
    ensures NumeralValue(s) == b
  {
    if b < 0x10 then
      var s := [Digit(b)];
      assert s[..0] == [];
      s
    else
      var s := [Digit(b / 16), Digit(b % 16)];
      assert s[..1] == [s[0]] && s[..1][..0] == [];
      assert NumeralValue(s[..1]) == b / 16;
      s
  }

  /** `str_pad(s, 2, '0', STR_PAD_LEFT)`: zeros in front up to two characters. */
  function PadTwo(s: string): (r: string)
    ensures |r| == if |s| < 2 then 2 else |s|
    ensures r[|r| - |s|..] == s
    ensures forall i :: 0 <= i < |r| - |s| ==> r[i] == '0'
  {
    if |s| >= 2 then s else seq(2 - |s|, _ => '0') + s
  }

  /** Two digits pack to the one byte they spell. */
  lemma PackTwo(s: string)
    requires |s| == 2 && IsHexString(s)
    ensures Pack(s) == [16 * DigitValue(s[0]) + DigitValue(s[1])]
  {
  }

  /** The two-digit lowercase text of a byte, as the 16- and 32-bit encoders
      build it; it packs back to exactly that byte. */
  function HexByte(b: Byte): (s: string)
    ensures |s| == 2 && IsLowerHexString(s)
    ensures DigitValue(s[0]) == b / 16 && DigitValue(s[1]) == b % 16
    ensures IsHexString(s) && Pack(s) == [b]
  {
    var n := Numeral(b);
    var s := PadTwo(n);
    PadTwoByte(b);
    PackTwo(s);
    s
  }

  /** Padding a byte's numeral gives its two nibbles, high one first. */
  lemma PadTwoByte(b: Byte)
    ensures var s := PadTwo(Numeral(b));
      |s| == 2 && IsLowerHexString(s) &&
      DigitValue(s[0]) == b / 16 && DigitValue(s[1]) == b % 16
  {
    var n := Numeral(b);
    var s := PadTwo(n);
    if |n| == 1 {
      assert s[1..] == n;
      assert s[0] == '0' && s[1] == n[0];
    } else {
      assert s == n;
      assert n[..1] == [n[0]] && n[..1][..0] == [];
    }
  }

  /** Two lowercase digits are the text of the byte they pack to. */
  lemma HexBytePack(s: string)
    requires |s| == 2 && IsLowerHexString(s)
    ensures IsHexString(s) && HexByte(Pack(s)[0]) == s
  {
    PackTwo(s);
    var b := Pack(s)[0];
    var h := HexByte(b);
    DivModUnique(b, 16, DigitValue(s[0]), DigitValue(s[1]));
    SameNibbles(h[0], h[1], s[0], s[1]);
    SameTwo(h, s);
  }

  lemma SameTwo(x: string, y: string)
    requires |x| == 2 && |y| == 2 && x[0] == y[0] && x[1] == y[1]
    ensures x == y
  {
  }

  /** A two-digit numeral packs to the byte it denotes. */
  lemma PackNumeral(s: string)
    requires |s| == 2 && IsHexString(s)
    ensures Pack(s) == [NumeralValue(s)]
  {
    PackTwo(s);
    assert s[..1] == [s[0]] && s[..1][..0] == [];
    assert NumeralValue(s[..1]) == DigitValue(s[0]);
    assert NumeralValue(s) == NumeralValue(s[..1]) * 16 + DigitValue(s[1]);
  }

  /** Lowercase text is determined by the bytes it packs to. */
  lemma PackInjective(a: string, b: string)
    requires IsLowerHexString(a) && IsLowerHexString(b)
    requires |a| == |b| && |a| % 2 == 0
    requires Pack(a) == Pack(b)
    ensures a == b
  {
    forall i | 0 <= i < |a|
      ensures a[i] == b[i]
    {
      var k := i / 2;
      assert i == 2 * k || i == 2 * k + 1;
      assert Pack(a)[k] == Pack(b)[k];
      SameNibbles(a[2 * k], a[2 * k + 1], b[2 * k], b[2 * k + 1]);
    }
  }

  /** Two lowercase digit pairs making the same byte are the same digits. */
  lemma SameNibbles(hi: char, lo: char, hi': char, lo': char)
    requires IsLowerHexDigit(hi) && IsLowerHexDigit(lo) && IsLowerHexDigit(hi') && IsLowerHexDigit(lo')
    requires 16 * DigitValue(hi) + DigitValue(lo) == 16 * DigitValue(hi') + DigitValue(lo')
    ensures hi == hi' && lo == lo'
  {
    DigitOfValue(hi);
    DigitOfValue(lo);
    DigitOfValue(hi');
    DigitOfValue(lo');
  }
}
