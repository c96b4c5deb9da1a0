/** The worked examples of the codec's own test suite, as facts about the
    model. Each example is proved from the codec's contracts through a
    helper that states which bytes the example's text packs to. */
module DataCases {
  import opened Results
  import opened Bits
  import opened Hex
  import opened Data

  // ----------------------------------------------------------------- helpers

  /** A decoded byte is the one value of its signedness range with the
      packed byte as residue. */
  lemma ByteCase(byte: string, s: Signedness, b: Byte, expected: int)
    requires |byte| == 2 && IsHexString(byte) && Pack(byte) == [b]
    requires Representable(expected, 0x100, s) && expected % 0x100 == b
    ensures ByteToInt8(byte, s) == expected
  {
    RepresentableUnique(ByteToInt8(byte, s), expected, 0x100, s);
  }

  /** A decoded word is the one value of its signedness range with the
      residue its two bytes give in that order. */
  lemma WordCase(word: string, e: Endianness, s: Signedness, hi: Byte, lo: Byte, expected: int)
    requires |word| == 4 && IsHexString(word) && Pack(word) == [hi, lo]
    requires e == BigEndian || e == LittleEndian
    requires Representable(expected, 0x1_0000, s)
    requires expected % 0x1_0000 == if e == BigEndian then hi * 0x100 + lo else lo * 0x100 + hi
    ensures WordToInt16(word, e.Code(), s) == Success(expected)
  {
    BytesValue2([hi, lo]);
    BytesValue2([lo, hi]);
    EndiannessCodeRoundTrip(e);
    RepresentableUnique(WordToInt16(word, e.Code(), s).value, expected, 0x1_0000, s);
  }

  /** An encoded word is the lowercase text that packs to the big-endian
      bytes of the value. */
  lemma EncodedWord(v: int, expected: string, hi: Byte, lo: Byte)
    requires |expected| == 4 && IsLowerHexString(expected) && IsHexString(expected)
    requires Pack(expected) == [hi, lo] && v % 0x1_0000 == hi * 0x100 + lo
    ensures Int16ToWord(v, BigEndian.Code()) == Success(expected)
  {
    var w := Int16ToWord(v, BigEndian.Code()).value;
    BytesValue2([hi, lo]);
    BytesValueInjective2(Pack(w), [hi, lo]);
    PackInjective(w, expected);
  }

  /** A big-endian double word decodes to the one value of its signedness
      range with the residue its four bytes give. */
  lemma DwordCase(dword: string, s: Signedness, bytes: seq<Byte>, expected: int)
    requires |dword| == 8 && IsHexString(dword) && Pack(dword) == bytes
    requires Representable(expected, 0x1_0000_0000, s)
    requires |bytes| == 4 && expected % 0x1_0000_0000 == BytesValue(bytes)
    ensures DwordToInt32(dword, BigEndian.Code(), s) == expected
  {
    RepresentableUnique(DwordToInt32(dword, BigEndian.Code(), s), expected, 0x1_0000_0000, s);
  }

  /** An encoded big-endian double word is the lowercase text that packs to
      the bytes of the value. */
  lemma EncodedDword(v: int, expected: string, bytes: seq<Byte>)
    requires |expected| == 8 && IsLowerHexString(expected) && IsHexString(expected)
    requires Pack(expected) == bytes && |bytes| == 4
    requires v % 0x1_0000_0000 == BytesValue(bytes)
    ensures Int32ToDword(v, BigEndian.Code()) == Success(expected)
  {
    var d := Int32ToDword(v, BigEndian.Code()).value;
    BytesValueInjective4(Pack(d), bytes);
    PackInjective(d, expected);
  }

  /** Eight digits pack as their two halves of four. */
  lemma PackHalves(dword: string)
    requires |dword| == 8 && IsHexString(dword)
    ensures Pack(dword) == Pack(dword[..4]) + Pack(dword[4..])
  {
    assert dword == dword[..4] + dword[4..];
    PackAppend(dword[..4], dword[4..]);
  }

  // ------------------------------------------------------------------ 8 bits

  lemma UnsignedByteZero()
    ensures ByteToInt8("00", Unsigned) == 0
  {
    ByteCase("00", Unsigned, 0, 0);
  }

  lemma UnsignedByteMax()
    ensures ByteToInt8("FF", Unsigned) == 255
  {
    ByteCase("FF", Unsigned, 0xFF, 255);
  }

  lemma SignedByteMin()
    ensures ByteToInt8("80", Signed) == -128
  {
    ByteCase("80", Signed, 0x80, -128);
  }

  lemma SignedByteMax()
    ensures ByteToInt8("7F", Signed) == 127
  {
    ByteCase("7F", Signed, 0x7F, 127);
  }

  /** A negative byte is written as its low eight bits. */
  lemma Int8ToByteMin()
    ensures Int8ToByte(-128) == Success("80")
  {
    assert Numeral(0x80) == "80";
  }

  lemma Int8ToByteMax()
    ensures Int8ToByte(255) == Success("ff")
  {
    assert Numeral(0xFF) == "ff";
  }

  // ----------------------------------------------------------------- 16 bits

  lemma BigEndianUnsignedWordZero()
    ensures WordToInt16("0000", BigEndian.Code(), Unsigned) == Success(0)
  {
    assert Pack("0000") == [0, 0];
    WordCase("0000", BigEndian, Unsigned, 0, 0, 0);
  }

  lemma BigEndianUnsignedWordMax()
    ensures WordToInt16("FFFF", BigEndian.Code(), Unsigned) == Success(65535)
  {
    assert Pack("FFFF") == [0xFF, 0xFF];
    WordCase("FFFF", BigEndian, Unsigned, 0xFF, 0xFF, 65535);
  }

  lemma BigEndianSignedWordMin()
    ensures WordToInt16("8000", BigEndian.Code(), Signed) == Success(-32768)
  {
    assert Pack("8000") == [0x80, 0];
    WordCase("8000", BigEndian, Signed, 0x80, 0, -32768);
  }

  lemma BigEndianSignedWordMinusOne()
    ensures WordToInt16("FFFF", BigEndian.Code(), Signed) == Success(-1)
  {
    assert Pack("FFFF") == [0xFF, 0xFF];
    WordCase("FFFF", BigEndian, Signed, 0xFF, 0xFF, -1);
  }

  lemma LittleEndianUnsignedWordZero()
    ensures WordToInt16("0000", LittleEndian.Code(), Unsigned) == Success(0)
  {
    assert Pack("0000") == [0, 0];
    WordCase("0000", LittleEndian, Unsigned, 0, 0, 0);
  }

  lemma LittleEndianUnsignedWordMax()
    ensures WordToInt16("FFFF", LittleEndian.Code(), Unsigned) == Success(65535)
  {
    assert Pack("FFFF") == [0xFF, 0xFF];
    WordCase("FFFF", LittleEndian, Unsigned, 0xFF, 0xFF, 65535);
  }

  /** "8000" read little-endian is the pattern 0x0080, which is positive. */
  lemma LittleEndianSignedWordLow()
    ensures WordToInt16("8000", LittleEndian.Code(), Signed) == Success(128)
  {
    assert Pack("8000") == [0x80, 0];
    WordCase("8000", LittleEndian, Signed, 0x80, 0, 128);
  }

  lemma LittleEndianSignedWordMinusOne()
    ensures WordToInt16("FFFF", LittleEndian.Code(), Signed) == Success(-1)
  {
    assert Pack("FFFF") == [0xFF, 0xFF];
    WordCase("FFFF", LittleEndian, Signed, 0xFF, 0xFF, -1);
  }

  lemma Int16ToWordMin()
    ensures Int16ToWord(-32768) == Success("8000")
  {
    assert Pack("8000") == [0x80, 0];
    EncodedWord(-32768, "8000", 0x80, 0);
  }

  lemma Int16ToWordMax()
    ensures Int16ToWord(65535) == Success("ffff")
  {
    assert Pack("ffff") == [0xFF, 0xFF];
    EncodedWord(65535, "ffff", 0xFF, 0xFF);
  }

  // ----------------------------------------------------------------- 32 bits

  lemma BigEndianUnsignedDwordZero()
    ensures DwordToInt32("00000000", BigEndian.Code(), Unsigned) == 0
  {
    PackHalves("00000000");
    assert Pack("0000") == [0, 0];
    BytesValue4([0, 0, 0, 0]);
    DwordCase("00000000", Unsigned, [0, 0, 0, 0], 0);
  }

  /** The unsigned reading of all ones, which the suite leaves commented out
      because a 32-bit PHP integer cannot hold it. */
  lemma BigEndianUnsignedDwordMax()
    ensures DwordToInt32("FFFFFFFF", BigEndian.Code(), Unsigned) == 4294967295
  {
    PackHalves("FFFFFFFF");
    assert Pack("FFFF") == [0xFF, 0xFF];
    BytesValue4([0xFF, 0xFF, 0xFF, 0xFF]);
    DwordCase("FFFFFFFF", Unsigned, [0xFF, 0xFF, 0xFF, 0xFF], 4294967295);
  }

  lemma BigEndianSignedDwordZero()
    ensures DwordToInt32("00000000", BigEndian.Code(), Signed) == 0
  {
    PackHalves("00000000");
    assert Pack("0000") == [0, 0];
    BytesValue4([0, 0, 0, 0]);
    DwordCase("00000000", Signed, [0, 0, 0, 0], 0);
  }

  lemma BigEndianSignedDwordMinusOne()
    ensures DwordToInt32("FFFFFFFF", BigEndian.Code(), Signed) == -1
  {
    PackHalves("FFFFFFFF");
    assert Pack("FFFF") == [0xFF, 0xFF];
    BytesValue4([0xFF, 0xFF, 0xFF, 0xFF]);
    DwordCase("FFFFFFFF", Signed, [0xFF, 0xFF, 0xFF, 0xFF], -1);
  }

  lemma Int32ToDwordMin()
    ensures Int32ToDword(-2147483648) == Success("80000000")
  {
    PackHalves("80000000");
    assert Pack("8000") == [0x80, 0];
    assert Pack("0000") == [0, 0];
    BytesValue4([0x80, 0, 0, 0]);
    EncodedDword(-2147483648, "80000000", [0x80, 0, 0, 0]);
  }

  lemma Int32ToDwordMax()
    ensures Int32ToDword(4294967295) == Success("ffffffff")
  {
    PackHalves("ffffffff");
    assert Pack("ffff") == [0xFF, 0xFF];
    BytesValue4([0xFF, 0xFF, 0xFF, 0xFF]);
    EncodedDword(4294967295, "ffffffff", [0xFF, 0xFF, 0xFF, 0xFF]);
  }
}
