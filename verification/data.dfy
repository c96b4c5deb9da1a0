/** The byte/integer codec of `src/Data.php`: hex text of one, two or four
    bytes to and from 8-, 16- and 32-bit integers, under a signedness flag
    and one of four byte orders. */
module Data {
  import opened Results
  import opened Bits
  import opened Hex

  /** The signedness flag; `Code` is the source's constant (SIGNED = 1,
      UNSIGNED = 0), which the source tests for truthiness. */
  datatype Signedness = Unsigned | Signed {
    function Code(): int {
      if Signed? then 1 else 0
    }
  }

  /** The byte orders; `Code` is the number the source compares against. */
  datatype Endianness = BigEndian | MidBigEndian | LittleEndian | MidLittleEndian {
    function Code(): int {
      match this
      case BigEndian => 1
      case MidBigEndian => 2
      case LittleEndian => 3
      case MidLittleEndian => 4
    }
  }

  /** The byte order a numeric code names, if any. */
  function EndiannessOf(code: int): (e: Option<Endianness>)
    ensures e.Some? <==> 1 <= code <= 4
    ensures e.Some? ==> e.value.Code() == code
  {
    if code == 1 then Some(BigEndian)
    else if code == 2 then Some(MidBigEndian)
    else if code == 3 then Some(LittleEndian)
    else if code == 4 then Some(MidLittleEndian)
    else None
  }

  /** Each byte order is found again from its code. */
  lemma EndiannessCodeRoundTrip(e: Endianness)
    ensures EndiannessOf(e.Code()) == Some(e)
  {
  }

  /** v is a value a pattern of the given modulus (2^width) can denote:
      [0, m) when unsigned, [-m/2, m/2) when signed. */
  predicate Representable(v: int, modulus: nat, s: Signedness) {
    if s.Signed? then -(modulus / 2) <= v < modulus / 2 else 0 <= v < modulus
  }

  /** Within one signedness a value is determined by its residue. */
  lemma RepresentableUnique(v: int, w: int, modulus: nat, s: Signedness)
    requires modulus > 0
    requires Representable(v, modulus, s) && Representable(w, modulus, s)
    requires v % modulus == w % modulus
    ensures v == w
  {
    var k := v / modulus - w / modulus;
    assert v - w == modulus * k;
    MultipleBelowModulus(modulus, k);
  }

  /** On a width-bit pattern the sign bit is set exactly from 2^(width-1)
      on, and the source's formula -((raw ^ mask) + 1) is raw - 2^width. */
  lemma SignBit8(raw: nat)
    requires raw < 0x100
    ensures BitSet(raw, 7) <==> raw >= 0x80
    ensures -(FlipBits(raw, 8) + 1) == raw - 0x100
    ensures Pow2(8) == 0x100
  {
    Pow2Values();
  }

  lemma SignBit16(raw: nat)
    requires raw < 0x1_0000
    ensures BitSet(raw, 15) <==> raw >= 0x8000
    ensures -(FlipBits(raw, 16) + 1) == raw - 0x1_0000
    ensures Pow2(16) == 0x1_0000
  {
    Pow2Values();
  }

  lemma SignBit32(raw: nat)
    requires raw < 0x1_0000_0000
    ensures BitSet(raw, 31) <==> raw >= 0x8000_0000
    ensures -(FlipBits(raw, 32) + 1) == raw - 0x1_0000_0000
    ensures Pow2(32) == 0x1_0000_0000
  {
    Pow2Values();
  }

  /** The lane a byte of the input lands in. `unpack("c*")` reads the byte as
      a signed char c, and `(c << shift) & (0xFF << shift)`, with place =
      2^shift, keeps only the eight bits at that place: the mask undoes the
      sign extension, leaving the byte times its place. */
  function Lane(b: Byte, place: nat): (r: nat)
    requires place == 1 || place == 0x100 || place == 0x1_0000 || place == 0x100_0000
    ensures r == b * place
  {
    var c := if b >= 0x80 then b - 0x100 else b;
    LaneMask(b, c, place);
    (c * place) % (place * 0x100)
  }

  lemma LaneMask(b: Byte, c: int, place: nat)
    requires place == 1 || place == 0x100 || place == 0x1_0000 || place == 0x100_0000
    requires c == b || c == b - 0x100
    ensures (c * place) % (place * 0x100) == b * place
  {
  }

  /** The input bytes of a word in significance order: big endian takes them
      as given, little endian takes the second byte as the most significant. */
  function WordOrder(b: seq<Byte>, e: Endianness): (o: seq<Byte>)
    requires |b| == 2 && (e == BigEndian || e == LittleEndian)
    ensures |o| == 2 && multiset(o) == multiset(b)
  {
    assert b == [b[0], b[1]];
    SwapPair(b[0], b[1]);
    if e == BigEndian then b else [b[1], b[0]]
  }

  /** The input bytes of a double word in significance order, positions
      numbered 1..4 from the left: big 1-2-3-4, mid-big 2-1-4-3, little
      4-3-2-1, mid-little 3-4-1-2. */
  function DwordOrder(b: seq<Byte>, e: Endianness): (o: seq<Byte>)
    requires |b| == 4
    ensures |o| == 4
  {
    match e
    case BigEndian => b
    case MidBigEndian => [b[1], b[0], b[3], b[2]]
    case LittleEndian => [b[3], b[2], b[1], b[0]]
    case MidLittleEndian => [b[2], b[3], b[0], b[1]]
  }

  /** Each byte order of a double word is a permutation of its bytes. */
  lemma DwordOrderPermutes(b: seq<Byte>, e: Endianness)
    requires |b| == 4
    ensures multiset(DwordOrder(b, e)) == multiset(b)
  {
    assert b == [b[0], b[1], b[2], b[3]];
    match e
    case BigEndian =>
    case MidBigEndian =>
      SwapInPairs(b[0], b[1], b[2], b[3]);
    case LittleEndian =>
      SwapInPairs(b[0], b[1], b[2], b[3]);
      SwapHalves(b[1], b[0], b[3], b[2]);
    case MidLittleEndian =>
      SwapHalves(b[0], b[1], b[2], b[3]);
  }

  lemma SwapInPairs(w: Byte, x: Byte, y: Byte, z: Byte)
    ensures multiset([x, w, z, y]) == multiset([w, x, y, z])
  {
    assert [x, w, z, y] == [x, w] + [z, y];
    assert [w, x, y, z] == [w, x] + [y, z];
    SwapPair(w, x);
    SwapPair(y, z);
  }

  lemma SwapHalves(w: Byte, x: Byte, y: Byte, z: Byte)
    ensures multiset([y, z, w, x]) == multiset([w, x, y, z])
  {
    assert [y, z, w, x] == [y, z] + [w, x];
    assert [w, x, y, z] == [w, x] + [y, z];
    JoinCommutes([w, x], [y, z]);
  }

  lemma JoinCommutes(p: seq<Byte>, q: seq<Byte>)
    ensures multiset(q + p) == multiset(p + q)
  {
    calc {
      multiset(q + p);
      multiset(q) + multiset(p);
      multiset(p) + multiset(q);
      multiset(p + q);
    }
  }

  lemma SwapPair(x: Byte, y: Byte)
    ensures multiset([y, x]) == multiset([x, y])
  {
    assert [x, y] == [x] + [y];
    assert [y, x] == [y] + [x];
  }

  /** Each of the four orders undoes itself, so the layout an encoder writes
      for a byte order is the inverse of the permutation its decoder reads. */
  lemma DwordOrderSelfInverse(b: seq<Byte>, e: Endianness)
    requires |b| == 4
    ensures DwordOrder(DwordOrder(b, e), e) == b
  {
    assert b == [b[0], b[1], b[2], b[3]];
  }

  lemma WordOrderSelfInverse(b: seq<Byte>, e: Endianness)
    requires |b| == 2 && (e == BigEndian || e == LittleEndian)
    ensures WordOrder(WordOrder(b, e), e) == b
  {
    assert b == [b[0], b[1]];
  }

  /** The reference reading of a pattern: itself when unsigned or when its
      top bit is clear, and the pattern less the modulus otherwise. */
  function TwosComplement(raw: nat, modulus: nat, s: Signedness): int {
    if s.Signed? && raw >= modulus / 2 then raw - modulus else raw
  }

  /** The reference reading lies in the width's range and keeps the
      pattern as its residue. */
  lemma TwosComplementResidue(raw: nat, modulus: nat, s: Signedness)
    requires 0 < modulus && modulus % 2 == 0 && raw < modulus
    ensures Representable(TwosComplement(raw, modulus, s), modulus, s)
    ensures TwosComplement(raw, modulus, s) % modulus == raw
  {
    if s.Signed? && raw >= modulus / 2 {
      DivModUnique(raw - modulus, modulus, -1, raw);
    } else {
      DivModUnique(raw, modulus, 0, raw);
    }
  }

  // ---------------------------------------------------------------- 8 bits

  /** byteToInt8: `unpack("C")` of `pack("H*", byte)` reads the first packed
      byte, and a signed reading turns a byte from 0x80 on negative. The
      result is the one value of the width's range with that byte as residue. */
  function ByteToInt8(byte: string, signedness: Signedness := Signed): (v: int)
    requires IsHexString(byte) && |byte| >= 1
    ensures Representable(v, 0x100, signedness)
    ensures v % 0x100 == Pack(byte)[0]
  {
    ReadInt8(Pack(byte)[0], signedness)
  }

  /** The sign step of byteToInt8: a byte from 0x80 on whose bit 7 is set
      becomes -((b ^ 0xFF) + 1) when signed. */
  function ReadInt8(int8: Byte, signedness: Signedness): (v: int)
    ensures Representable(v, 0x100, signedness)
    ensures v % 0x100 == int8
  {
    SignBit8(int8);
    if signedness.Code() != 0 && int8 >= 0x80 && BitSet(int8, 7) then
      var v := -(FlipBits(int8, 8) + 1);
      DivModUnique(v, 0x100, -1, int8);
      v
    else
      DivModUnique(int8, 0x100, 0, int8);
      int8
  }

  /** int8ToByte: `false` outside [-128, 255]; otherwise `v & 0xFF` written
      by `base_convert`, lowercase and without zero padding. */
  function Int8ToByte(int8: int): (r: Result<string>)
    ensures r.Failure? <==> int8 < -128 || int8 > 255
    ensures r.Success? ==> IsLowerHexString(r.value) && IsHexString(r.value)
    ensures r.Success? ==> NumeralValue(r.value) == int8 % 0x100
    ensures r.Success? ==> 1 <= |r.value| <= 2 && (|r.value| == 2 <==> int8 % 0x100 >= 0x10)
  {
    if int8 < -128 || int8 > 255 then Failure
    else Success(Numeral(int8 % 0x100))
  }

  /** int8ToByte with the two-digit padding the other encoders apply. */
  function Int8ToBytePadded(int8: int): (r: Result<string>)
    ensures r.Failure? <==> int8 < -128 || int8 > 255
    ensures r.Success? ==> |r.value| == 2 && IsLowerHexString(r.value) && IsHexString(r.value)
    ensures r.Success? ==> Pack(r.value) == [int8 % 0x100]
  {
    if int8 < -128 || int8 > 255 then Failure
    else Success(HexByte(int8 % 0x100))
  }

  /** The padded encoder is inverted by byteToInt8 over each signedness range. */
  lemma Int8RoundTrip(v: int, s: Signedness)
    requires Representable(v, 0x100, s)
    ensures Int8ToBytePadded(v).Success?
    ensures ByteToInt8(Int8ToBytePadded(v).value, s) == v
  {
    RepresentableUnique(ByteToInt8(Int8ToBytePadded(v).value, s), v, 0x100, s);
  }

  /** The encoder as written is inverted by byteToInt8 only where its
      output already has two digits, from the byte 0x10 on. */
  lemma Int8RoundTripFromSixteen(v: int, s: Signedness)
    requires Representable(v, 0x100, s) && v % 0x100 >= 0x10
    ensures Int8ToByte(v).Success?
    ensures ByteToInt8(Int8ToByte(v).value, s) == v
  {
    PackNumeral(Int8ToByte(v).value);
    RepresentableUnique(ByteToInt8(Int8ToByte(v).value, s), v, 0x100, s);
  }

  /** int8ToByte(5) is "5"; `pack("H*")` reads that single digit as the high
      nibble, so byteToInt8 gives back 0x50 = 80 instead of 5. */
  lemma Int8ToByteDropsPadding()
    ensures Int8ToByte(5) == Success("5")
    ensures ByteToInt8(Int8ToByte(5).value, Unsigned) == 80
    ensures ByteToInt8(Int8ToByte(5).value, Signed) == 80
  {
    assert Pack("5") == [0x50];
  }

  /** Decoding a two-digit byte and encoding the value with padding gives
      the byte back, in lower case. */
  lemma Int8DecodeEncode(byte: string, s: Signedness)
    requires IsHexString(byte) && |byte| == 2
    ensures Int8ToBytePadded(ByteToInt8(byte, s)) == Success(ToLower(byte))
  {
    LowerIsHexByte(byte);
    assert ByteToInt8(byte, s) % 0x100 == Pack(byte)[0];
  }

  /** Two digits in lower case are the padded text of the byte they pack to. */
  lemma LowerIsHexByte(byte: string)
    requires IsHexString(byte) && |byte| == 2
    ensures ToLower(byte) == HexByte(Pack(byte)[0])
  {
    PackIgnoresCase(byte);
    HexBytePack(ToLower(byte));
  }

  /** byteToInt8 is the two's-complement reading of the first packed byte:
      the byte itself, or the byte less 256 when signed and from 0x80 on. */
  lemma ByteToInt8IsTwosComplement(byte: string, s: Signedness)
    requires IsHexString(byte) && |byte| >= 1
    ensures ByteToInt8(byte, s) == TwosComplement(Pack(byte)[0], 0x100, s)
  {
    var raw := Pack(byte)[0];
    TwosComplementResidue(raw, 0x100, s);
    RepresentableUnique(ByteToInt8(byte, s), TwosComplement(raw, 0x100, s), 0x100, s);
  }

  // --------------------------------------------------------------- 16 bits

  /** wordToInt16: only big (1) and little (3) endian are accepted, any other
      code gives `false`. The two bytes, put in significance order, form the
      pattern, read with its sign when signed. */
  function WordToInt16(word: string, endianness: int := BigEndian.Code(), signedness: Signedness := Signed): (r: Result<int>)
    requires IsHexString(word) && |word| == 4
    ensures r.Success? <==> endianness == BigEndian.Code() || endianness == LittleEndian.Code()
    ensures r.Success? ==> Representable(r.value, 0x1_0000, signedness)
    ensures r.Success? ==>
      r.value % 0x1_0000 == BytesValue(WordOrder(Pack(word), EndiannessOf(endianness).value))
  {
    var raw := Pack(word);
    if endianness != BigEndian.Code() && endianness != LittleEndian.Code() then
      Failure
    else
      var (msb, lsb) :=
        if endianness == BigEndian.Code() then (Lane(raw[0], 0x100), Lane(raw[1], 1))
        else (Lane(raw[1], 0x100), Lane(raw[0], 1));
      BytesValue2(WordOrder(raw, EndiannessOf(endianness).value));
      Success(ReadInt16(msb + lsb, signedness))
  }

  /** The sign step of wordToInt16: a pattern with bit 15 set becomes
      -((w ^ 0xFFFF) + 1) when signed. */
  function ReadInt16(int16: nat, signedness: Signedness): (v: int)
    requires int16 < 0x1_0000
    ensures Representable(v, 0x1_0000, signedness)
    ensures v % 0x1_0000 == int16
  {
    SignBit16(int16);
    if signedness.Code() != 0 && BitSet(int16, 15) then
      var v := -(FlipBits(int16, 16) + 1);
      DivModUnique(v, 0x1_0000, -1, int16);
      v
    else
      DivModUnique(int16, 0x1_0000, 0, int16);
      int16
  }

  /** int16ToWord: no range check, the value is cut to its low 16 bits
      (`>> 8` and `& 0xFF`); big (1) and little (3) endian give four
      lowercase digits which read back in that order are v mod 2^16, any
      other code gives `false`. */
  function Int16ToWord(int16: int, endianness: int := BigEndian.Code()): (r: Result<string>)
    ensures r.Success? <==> endianness == BigEndian.Code() || endianness == LittleEndian.Code()
    ensures r.Success? ==> |r.value| == 4 && IsLowerHexString(r.value) && IsHexString(r.value)
    ensures r.Success? ==>
      BytesValue(WordOrder(Pack(r.value), EndiannessOf(endianness).value)) == int16 % 0x1_0000
  {
    var msb := (int16 / 0x100) % 0x100;
    var lsb := int16 % 0x100;
    var m := HexByte(msb);
    var l := HexByte(lsb);
    WordBytes(int16, m, l);
    if endianness == BigEndian.Code() then Success(m + l)
    else if endianness == LittleEndian.Code() then Success(l + m)
    else Failure
  }

  /** The two halves int16ToWord writes pack, in either order, to the bytes
      of v mod 2^16 in that order. */
  lemma WordBytes(v: int, m: string, l: string)
    requires m == HexByte((v / 0x100) % 0x100) && l == HexByte(v % 0x100)
    ensures IsLowerHexString(m + l) && IsLowerHexString(l + m)
    ensures IsHexString(m + l) && BytesValue(Pack(m + l)) == v % 0x1_0000
    ensures IsHexString(l + m) && BytesValue(WordOrder(Pack(l + m), LittleEndian)) == v % 0x1_0000
  {
    var msb, lsb := (v / 0x100) % 0x100, v % 0x100;
    PackHexPair(msb, lsb);
    PackHexPair(lsb, msb);
    assert WordOrder(Pack(l + m), LittleEndian) == [msb, lsb];
    BytesValue2([msb, lsb]);
    SplitWord(v);
  }

  /** The little-endian word is the big-endian word with its bytes swapped. */
  lemma Int16LittleIsSwappedBig(v: int)
    ensures Int16ToWord(v, LittleEndian.Code()).Success? && Int16ToWord(v, BigEndian.Code()).Success?
    ensures var big := Int16ToWord(v, BigEndian.Code()).value;
      Int16ToWord(v, LittleEndian.Code()).value == big[2..] + big[..2]
  {
  }

  /** Encoding then decoding in the same byte order gives the value back,
      over the signed and the unsigned 16-bit range. */
  lemma Int16RoundTrip(v: int, endianness: int, s: Signedness)
    requires endianness == BigEndian.Code() || endianness == LittleEndian.Code()
    requires Representable(v, 0x1_0000, s)
    ensures Int16ToWord(v, endianness).Success?
    ensures WordToInt16(Int16ToWord(v, endianness).value, endianness, s) == Success(v)
  {
    var w := Int16ToWord(v, endianness).value;
    RepresentableUnique(WordToInt16(w, endianness, s).value, v, 0x1_0000, s);
  }

  /** Decoding a word and encoding the value in the same byte order gives
      the word back, in lower case. */
  lemma Int16DecodeEncode(word: string, endianness: int, s: Signedness)
    requires IsHexString(word) && |word| == 4
    requires endianness == BigEndian.Code() || endianness == LittleEndian.Code()
    ensures WordToInt16(word, endianness, s).Success?
    ensures Int16ToWord(WordToInt16(word, endianness, s).value, endianness) == Success(ToLower(word))
  {
    var e := EndiannessOf(endianness).value;
    var w := Int16ToWord(WordToInt16(word, endianness, s).value, endianness).value;
    BytesValueInjective2(WordOrder(Pack(w), e), WordOrder(Pack(word), e));
    WordOrderSelfInverse(Pack(w), e);
    WordOrderSelfInverse(Pack(word), e);
    PackIgnoresCase(word);
    PackInjective(w, ToLower(word));
  }

  /** wordToInt16 is the two's-complement reading of the pattern its byte
      order assembles: less 65536 when signed and bit 15 is set. */
  lemma WordToInt16IsTwosComplement(word: string, endianness: int, s: Signedness)
    requires IsHexString(word) && |word| == 4
    requires endianness == BigEndian.Code() || endianness == LittleEndian.Code()
    ensures WordToInt16(word, endianness, s)
      == Success(TwosComplement(BytesValue(WordOrder(Pack(word), EndiannessOf(endianness).value)), 0x1_0000, s))
  {
    var raw := BytesValue(WordOrder(Pack(word), EndiannessOf(endianness).value));
    var v := WordToInt16(word, endianness, s).value;
    assert raw < 0x1_0000;
    TwosComplementResidue(raw, 0x1_0000, s);
    RepresentableUnique(v, TwosComplement(raw, 0x1_0000, s), 0x1_0000, s);
  }

  // --------------------------------------------------------------- 32 bits

  /** The 32-bit pattern dwordToInt32 assembles: the four lanes picked in the
      byte order's permutation, or all lanes 0 for an unknown code. */
  function DwordPattern(raw: seq<Byte>, endianness: int): (int32: nat)
    requires |raw| == 4
    ensures int32 < 0x1_0000_0000
    ensures !(1 <= endianness <= 4) ==> int32 == 0
    ensures 1 <= endianness <= 4 ==>
      int32 == BytesValue(DwordOrder(raw, EndiannessOf(endianness).value))
  {
    var (msb1, lsb1, msb2, lsb2) :=
      if endianness == BigEndian.Code() then
        (Lane(raw[0], 0x100_0000), Lane(raw[1], 0x1_0000), Lane(raw[2], 0x100), Lane(raw[3], 1))
      else if endianness == MidBigEndian.Code() then
        (Lane(raw[1], 0x100_0000), Lane(raw[0], 0x1_0000), Lane(raw[3], 0x100), Lane(raw[2], 1))
      else if endianness == LittleEndian.Code() then
        (Lane(raw[3], 0x100_0000), Lane(raw[2], 0x1_0000), Lane(raw[1], 0x100), Lane(raw[0], 1))
      else if endianness == MidLittleEndian.Code() then
        (Lane(raw[2], 0x100_0000), Lane(raw[3], 0x1_0000), Lane(raw[0], 0x100), Lane(raw[1], 1))
      else
        (0, 0, 0, 0);
    OrderedValue(raw, endianness);
    msb1 + lsb1 + msb2 + lsb2
  }

  /** The value of a double word's bytes taken in the order a code names. */
  lemma OrderedValue(raw: seq<Byte>, endianness: int)
    requires |raw| == 4
    ensures 1 <= endianness <= 4 ==>
      var o := DwordOrder(raw, EndiannessOf(endianness).value);
      BytesValue(o) == o[0] as int * 0x100_0000 + o[1] as int * 0x1_0000 + o[2] as int * 0x100 + o[3]
  {
    if 1 <= endianness <= 4 {
      BytesValue4(DwordOrder(raw, EndiannessOf(endianness).value));
    }
  }

  /** dwordToInt32: an unknown byte-order code is not rejected but yields 0;
      for codes 1..4 the bytes in that order's significance form the pattern,
      read with its sign when signed. */
  function DwordToInt32(dword: string, endianness: int := BigEndian.Code(), signedness: Signedness := Signed): (v: int)
    requires IsHexString(dword) && |dword| == 8
    ensures !(1 <= endianness <= 4) ==> v == 0
    ensures 1 <= endianness <= 4 ==> Representable(v, 0x1_0000_0000, signedness)
    ensures 1 <= endianness <= 4 ==>
      v % 0x1_0000_0000 == BytesValue(DwordOrder(Pack(dword), EndiannessOf(endianness).value))
  {
    ReadInt32(DwordPattern(Pack(dword), endianness), signedness)
  }

  /** The sign step of dwordToInt32: a pattern with bit 31 set becomes
      -((d ^ 0xFFFFFFFF) + 1) when signed. */
  function ReadInt32(int32: nat, signedness: Signedness): (v: int)
    requires int32 < 0x1_0000_0000
    ensures Representable(v, 0x1_0000_0000, signedness)
    ensures v % 0x1_0000_0000 == int32
    ensures int32 == 0 ==> v == 0
  {
    SignBit32(int32);
    if signedness.Code() != 0 && BitSet(int32, 31) then
      var v := -(FlipBits(int32, 32) + 1);
      DivModUnique(v, 0x1_0000_0000, -1, int32);
      v
    else
      DivModUnique(int32, 0x1_0000_0000, 0, int32);
      int32
  }

  /** int32ToDword: no range check, the value is cut to its low 32 bits;
      codes 1..4 give eight lowercase digits which read back in that byte
      order are v mod 2^32, any other code gives `false`. */
  function Int32ToDword(int32: int, endianness: int := BigEndian.Code()): (r: Result<string>)
    ensures r.Success? <==> 1 <= endianness <= 4
    ensures r.Success? ==> LaidOut(r.value, int32, EndiannessOf(endianness).value)
  {
    match EndiannessOf(endianness)
    case Some(e) => Success(DwordLayout(int32, e))
    case None => Failure
  }

  /** The four two-digit bytes of v, most significant first, joined in the
      layout of the byte order e. */
  function DwordLayout(v: int, e: Endianness): (s: string)
    ensures LaidOut(s, v, e)
  {
    var msb1 := HexByte((v / 0x100_0000) % 0x100);
    var lsb1 := HexByte((v / 0x1_0000) % 0x100);
    var msb2 := HexByte((v / 0x100) % 0x100);
    var lsb2 := HexByte(v % 0x100);
    DwordBytes(v, msb1, lsb1, msb2, lsb2);
    match e
    case BigEndian => msb1 + lsb1 + msb2 + lsb2
    case MidBigEndian => lsb1 + msb1 + lsb2 + msb2
    case LittleEndian => lsb2 + msb2 + lsb1 + msb1
    case MidLittleEndian => msb2 + lsb2 + msb1 + lsb1
  }

  /** The four layouts int32ToDword writes pack to the bytes of v mod 2^32
      permuted by their byte order. */
  lemma DwordBytes(v: int, msb1: string, lsb1: string, msb2: string, lsb2: string)
    requires msb1 == HexByte((v / 0x100_0000) % 0x100) && lsb1 == HexByte((v / 0x1_0000) % 0x100)
    requires msb2 == HexByte((v / 0x100) % 0x100) && lsb2 == HexByte(v % 0x100)
    ensures LaidOut(msb1 + lsb1 + msb2 + lsb2, v, BigEndian)
    ensures LaidOut(lsb1 + msb1 + lsb2 + msb2, v, MidBigEndian)
    ensures LaidOut(lsb2 + msb2 + lsb1 + msb1, v, LittleEndian)
    ensures LaidOut(msb2 + lsb2 + msb1 + lsb1, v, MidLittleEndian)
  {
    var b0, b1, b2, b3 := (v / 0x100_0000) % 0x100, (v / 0x1_0000) % 0x100, (v / 0x100) % 0x100, v % 0x100;
    DwordValue(v);
    PackHexBytes(b0, b1, b2, b3);
    PackHexBytes(b1, b0, b3, b2);
    PackHexBytes(b3, b2, b1, b0);
    PackHexBytes(b2, b3, b0, b1);
  }

  /** The four bytes int32ToDword cuts from v, most significant first, are
      the bytes of v mod 2^32. */
  lemma DwordValue(v: int)
    ensures BytesValue([(v / 0x100_0000) % 0x100, (v / 0x1_0000) % 0x100, (v / 0x100) % 0x100, v % 0x100])
      == v % 0x1_0000_0000
  {
    BytesValue4([(v / 0x100_0000) % 0x100, (v / 0x1_0000) % 0x100, (v / 0x100) % 0x100, v % 0x100]);
    SplitDword(v);
  }

  /** Eight lowercase digits that read back in the byte order e are v mod 2^32. */
  predicate LaidOut(s: string, v: int, e: Endianness) {
    && |s| == 8 && IsLowerHexString(s) && IsHexString(s)
    && BytesValue(DwordOrder(Pack(s), e)) == v % 0x1_0000_0000
  }

  /** The texts of four bytes, one after the other, pack to those bytes. */
  lemma PackHexBytes(b0: Byte, b1: Byte, b2: Byte, b3: Byte)
    ensures var s := HexByte(b0) + HexByte(b1) + HexByte(b2) + HexByte(b3);
      |s| == 8 && IsLowerHexString(s) && IsHexString(s) && Pack(s) == [b0, b1, b2, b3]
  {
    PackJoin4(HexByte(b0), HexByte(b1), HexByte(b2), HexByte(b3), b0, b1, b2, b3);
  }

  /** Every byte-order layout is the big-endian layout permuted by that order. */
  lemma Int32LayoutsPermuteBig(v: int, e: Endianness)
    ensures Int32ToDword(v, e.Code()).Success? && Int32ToDword(v, BigEndian.Code()).Success?
    ensures Pack(Int32ToDword(v, e.Code()).value) == DwordOrder(Pack(Int32ToDword(v, BigEndian.Code()).value), e)
  {
    var x := Pack(Int32ToDword(v, e.Code()).value);
    var big := Pack(Int32ToDword(v, BigEndian.Code()).value);
    EndiannessCodeRoundTrip(e);
    BytesValueInjective4(DwordOrder(x, e), big);
    DwordOrderSelfInverse(x, e);
  }

  /** Encoding then decoding in the same byte order gives the value back,
      over the signed and the unsigned 32-bit range. */
  lemma Int32RoundTrip(v: int, endianness: int, s: Signedness)
    requires 1 <= endianness <= 4
    requires Representable(v, 0x1_0000_0000, s)
    ensures Int32ToDword(v, endianness).Success?
    ensures DwordToInt32(Int32ToDword(v, endianness).value, endianness, s) == v
  {
    var d := Int32ToDword(v, endianness).value;
    RepresentableUnique(DwordToInt32(d, endianness, s), v, 0x1_0000_0000, s);
  }

  /** Decoding a double word and encoding the value in the same byte order
      gives the double word back, in lower case. */
  lemma Int32DecodeEncode(dword: string, endianness: int, s: Signedness)
    requires IsHexString(dword) && |dword| == 8
    requires 1 <= endianness <= 4
    ensures Int32ToDword(DwordToInt32(dword, endianness, s), endianness) == Success(ToLower(dword))
  {
    var e := EndiannessOf(endianness).value;
    var d := Int32ToDword(DwordToInt32(dword, endianness, s), endianness).value;
    BytesValueInjective4(DwordOrder(Pack(d), e), DwordOrder(Pack(dword), e));
    DwordOrderSelfInverse(Pack(d), e);
    DwordOrderSelfInverse(Pack(dword), e);
    PackIgnoresCase(dword);
    PackInjective(d, ToLower(dword));
  }

  /** dwordToInt32 is the two's-complement reading of the pattern its byte
      order assembles: less 2^32 when signed and bit 31 is set. */
  lemma DwordToInt32IsTwosComplement(dword: string, endianness: int, s: Signedness)
    requires IsHexString(dword) && |dword| == 8
    requires 1 <= endianness <= 4
    ensures DwordToInt32(dword, endianness, s)
      == TwosComplement(BytesValue(DwordOrder(Pack(dword), EndiannessOf(endianness).value)), 0x1_0000_0000, s)
  {
    var raw := BytesValue(DwordOrder(Pack(dword), EndiannessOf(endianness).value));
    var v := DwordToInt32(dword, endianness, s);
    assert raw < 0x1_0000_0000;
    TwosComplementResidue(raw, 0x1_0000_0000, s);
    RepresentableUnique(v, TwosComplement(raw, 0x1_0000_0000, s), 0x1_0000_0000, s);
  }
}
