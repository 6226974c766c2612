/** The calibration coefficients of a BME280 and their decoding from the
    sensor's three calibration register blocks: 24 bytes from 0x88
    (temperature and pressure), 1 byte from 0xA1 and 7 bytes from 0xE1
    (humidity).  The bus reads themselves are not modelled: the blocks are
    parameters.  The source stores the result in eighteen mutable fields of
    its driver object; here `Decode` returns them as one value. */
module Calibration {
  import opened PyInt
  import opened LittleEndian

  /** The eighteen `dig_*` coefficients. */
  datatype Coefficients = Coefficients(
    T1: int, T2: int, T3: int,
    P1: int, P2: int, P3: int, P4: int, P5: int, P6: int, P7: int, P8: int, P9: int,
    H1: int, H2: int, H3: int, H4: int, H5: int, H6: int)

  /** The three register blocks, as the bus returns them. */
  datatype RegisterBlocks = RegisterBlocks(tempPress: seq<Byte>, humidity1: seq<Byte>, humidity2: seq<Byte>)
  {
    /** A bus read of `length` bytes returns exactly `length` bytes. */
    predicate WellFormed()
    {
      |tempPress| == 24 && |humidity1| == 1 && |humidity2| == 7
    }
  }

  predicate IsU16(v: int) { 0 <= v < 65536 }
  predicate IsS16(v: int) { -32768 <= v < 32768 }
  predicate IsU8(v: int) { 0 <= v < 256 }
  predicate IsS8(v: int) { -128 <= v < 128 }
  predicate IsU12(v: int) { 0 <= v < 4096 }

  /** The ranges the encodings of the coefficients can produce. */
  predicate InRange(c: Coefficients)
  {
    && IsU16(c.T1) && IsS16(c.T2) && IsS16(c.T3)
    && IsU16(c.P1) && IsS16(c.P2) && IsS16(c.P3) && IsS16(c.P4) && IsS16(c.P5)
    && IsS16(c.P6) && IsS16(c.P7) && IsS16(c.P8) && IsS16(c.P9)
    && IsU8(c.H1) && IsS16(c.H2) && IsU8(c.H3) && IsU12(c.H4) && IsU12(c.H5) && IsS8(c.H6)
  }

  /** Two's complement reading of a 16-bit little-endian word: the reference
      the signed decodings are checked against. */
  function TwosComplement16(lo: Byte, hi: Byte): int
  {
    lo + 256 * (hi as int) - (if hi >= 128 then 65536 else 0)
  }

  /** `int.from_bytes(cal_data[i:i+2], 'little')` of the two bytes
      cal_data[i], cal_data[i+1]. */
  function UnsignedWord(lo: Byte, hi: Byte): (r: int)
    ensures r == lo + 256 * (hi as int) && IsU16(r)
  {
    UnsignedPair(lo, hi);
    FromBytes([lo, hi], false)
  }

  /** `int.from_bytes(cal_data[i:i+2], 'little', signed=True)`. */
  function SignedWord(lo: Byte, hi: Byte): (r: int)
    ensures r == TwosComplement16(lo, hi) && IsS16(r)
  {
    SignedPair(lo, hi);
    FromBytes([lo, hi], true)
  }

  /** `dig_H4`: the whole of byte 3 above the low nibble of byte 4. */
  function LowNibblePair(b3: Byte, b4: Byte): (r: int)
    ensures r == 16 * (b3 as int) + b4 % 16 && IsU12(r)
  {
    var high, low := Shl(UnsignedByteOf(b3), 4), BitAnd(UnsignedByteOf(b4), 0xF);
    NibbleFacts(b3, b4);
    OrDisjoint(high, low, 4);
    BitOr(high, low)
  }

  /** `dig_H5`: the whole of byte 5 above the high nibble of byte 4. */
  function HighNibblePair(b5: Byte, b4: Byte): (r: int)
    ensures r == 16 * (b5 as int) + b4 / 16 && IsU12(r)
  {
    var high, low := Shl(UnsignedByteOf(b5), 4), BitAnd(Shr(UnsignedByteOf(b4), 4), 0xF);
    NibbleFacts(b5, b4);
    OrDisjoint(high, low, 4);
    BitOr(high, low)
  }

  /** The pieces of the two nibble-packed coefficients. */
  lemma NibbleFacts(b: Byte, b4: Byte)
    ensures Pow2(4) == 16
    ensures Shl(b, 4) == 16 * (b as int)
    ensures BitAnd(b4, 0xF) == b4 % 16
    ensures Shr(b4, 4) == b4 / 16 && BitAnd(Shr(b4, 4), 0xF) == b4 / 16
  {
    assert Pow2(4) == 16;
    AndLowMask(b4, 4);
    AndLowMask(b4 / 16, 4);
  }

  /** `int.from_bytes([b], 'little', signed=True)`. */
  function SignedByteOf(b: Byte): (r: int)
    ensures r == b - (if b >= 128 then 256 else 0) && IsS8(r)
  {
    SingleByte(b);
    FromBytes([b], true)
  }

  /** `int.from_bytes([b], 'little')`. */
  function UnsignedByteOf(b: Byte): (r: int)
    ensures r == b
  {
    SingleByte(b);
    FromBytes([b], false)
  }

  /** The whole decoding of `_read_calibration_data`, field by field: every
      coefficient lands in the range of its encoding. */
  function Decode(b: RegisterBlocks): (c: Coefficients)
    requires b.WellFormed()
    ensures InRange(c)
  {
    var tp, h := b.tempPress, b.humidity2;
    SingleByte(b.humidity1[0]);
    Coefficients(
      UnsignedWord(tp[0], tp[1]), SignedWord(tp[2], tp[3]), SignedWord(tp[4], tp[5]),
      UnsignedWord(tp[6], tp[7]), SignedWord(tp[8], tp[9]), SignedWord(tp[10], tp[11]),
      SignedWord(tp[12], tp[13]), SignedWord(tp[14], tp[15]), SignedWord(tp[16], tp[17]),
      SignedWord(tp[18], tp[19]), SignedWord(tp[20], tp[21]), SignedWord(tp[22], tp[23]),
      FromBytes(b.humidity1, false), SignedWord(h[0], h[1]), UnsignedByteOf(h[2]),
      LowNibblePair(h[3], h[4]), HighNibblePair(h[5], h[4]), SignedByteOf(h[6]))
  }

  /** What each coefficient is, in terms of the register bytes: T1 and P1
      unsigned little-endian words, the other temperature and pressure
      coefficients and H2 two's-complement words, H1 and H3 bytes, H6 a
      signed byte, H4 and H5 twelve bits each sharing byte 4 of the 0xE1
      block (H4 its low nibble, H5 its high nibble). */
  lemma DecodeFields(b: RegisterBlocks)
    requires b.WellFormed()
    ensures var c, tp, h := Decode(b), b.tempPress, b.humidity2;
      && c.T1 == tp[0] + 256 * (tp[1] as int)
      && c.P1 == tp[6] + 256 * (tp[7] as int)
      && c.T2 == TwosComplement16(tp[2], tp[3])
      && c.T3 == TwosComplement16(tp[4], tp[5])
      && c.P2 == TwosComplement16(tp[8], tp[9])
      && c.P3 == TwosComplement16(tp[10], tp[11])
      && c.P4 == TwosComplement16(tp[12], tp[13])
      && c.P5 == TwosComplement16(tp[14], tp[15])
      && c.P6 == TwosComplement16(tp[16], tp[17])
      && c.P7 == TwosComplement16(tp[18], tp[19])
      && c.P8 == TwosComplement16(tp[20], tp[21])
      && c.P9 == TwosComplement16(tp[22], tp[23])
      && c.H1 == b.humidity1[0]
      && c.H2 == TwosComplement16(h[0], h[1])
      && c.H3 == h[2]
      && c.H4 == 16 * (h[3] as int) + h[4] % 16
      && c.H5 == 16 * (h[5] as int) + h[4] / 16
      && c.H6 == (h[6] as int) - (if h[6] >= 128 then 256 else 0)
  {
    SingleByte(b.humidity1[0]);
  }

  /** Low and high byte of the 16-bit two's-complement pattern of v. */
  function LoByte(v: int): Byte { (v % 65536) % 256 }
  function HiByte(v: int): Byte { (v % 65536) / 256 }

  /** The register contents that hold the coefficients c: the inverse of
      Decode. */
  function Encode(c: Coefficients): (b: RegisterBlocks)
    ensures b.WellFormed()
  {
    RegisterBlocks(TempPressBytes(c), [c.H1 % 256], HumidityBytes(c))
  }

  /** The 0x88 block: twelve little-endian words. */
  function TempPressBytes(c: Coefficients): (s: seq<Byte>)
    ensures |s| == 24
  {
    [LoByte(c.T1), HiByte(c.T1), LoByte(c.T2), HiByte(c.T2), LoByte(c.T3), HiByte(c.T3),
     LoByte(c.P1), HiByte(c.P1), LoByte(c.P2), HiByte(c.P2), LoByte(c.P3), HiByte(c.P3),
     LoByte(c.P4), HiByte(c.P4), LoByte(c.P5), HiByte(c.P5), LoByte(c.P6), HiByte(c.P6),
     LoByte(c.P7), HiByte(c.P7), LoByte(c.P8), HiByte(c.P8), LoByte(c.P9), HiByte(c.P9)]
  }

  /** The 0xE1 block: dig_H2, dig_H3, dig_H4 and dig_H5 sharing byte 4, dig_H6. */
  function HumidityBytes(c: Coefficients): (s: seq<Byte>)
    ensures |s| == 7
  {
    [LoByte(c.H2), HiByte(c.H2), c.H3 % 256, (c.H4 / 16) % 256,
     16 * (c.H5 % 16) + c.H4 % 16, (c.H5 / 16) % 256, c.H6 % 256]
  }

  /** A 16-bit value survives being split into two bytes and decoded again. */
  lemma WordRoundTrip(v: int)
    requires IsS16(v) || IsU16(v)
    ensures IsU16(v) ==> UnsignedWord(LoByte(v), HiByte(v)) == v
    ensures IsS16(v) ==> SignedWord(LoByte(v), HiByte(v)) == v
  {
    var u := v % 65536;
    assert u == 256 * (u / 256) + u % 256;
    if v < 0 {
      DivModUnique(v, 65536, -1, v + 65536);
    } else {
      DivModUnique(v, 65536, 0, v);
    }
  }

  /** A pair of bytes survives being decoded and split again, read either
      unsigned or signed. */
  lemma BytesRoundTrip(lo: Byte, hi: Byte)
    ensures LoByte(UnsignedWord(lo, hi)) == lo && HiByte(UnsignedWord(lo, hi)) == hi
    ensures LoByte(SignedWord(lo, hi)) == lo && HiByte(SignedWord(lo, hi)) == hi
  {
    var u := lo + 256 * (hi as int);
    DivModUnique(u, 65536, 0, u);
    DivModUnique(TwosComplement16(lo, hi), 65536, if hi >= 128 then -1 else 0, u);
    DivModUnique(u, 256, hi, lo);
  }

  /** The single-byte coefficients survive encoding and decoding. */
  lemma ByteCoefficientsRoundTrip(c: Coefficients)
    requires InRange(c)
    ensures FromBytes([c.H1 % 256], false) == c.H1
    ensures UnsignedByteOf(c.H3 % 256) == c.H3
    ensures SignedByteOf(c.H6 % 256) == c.H6
  {
    SingleByte(c.H1 % 256);
    if c.H6 < 0 {
      DivModUnique(c.H6, 256, -1, c.H6 + 256);
    }
  }

  /** dig_H4 and dig_H5 survive being packed into three bytes and unpacked. */
  lemma NibblesRoundTrip(h4: int, h5: int)
    requires IsU12(h4) && IsU12(h5)
    ensures LowNibblePair((h4 / 16) % 256, 16 * (h5 % 16) + h4 % 16) == h4
    ensures HighNibblePair((h5 / 16) % 256, 16 * (h5 % 16) + h4 % 16) == h5
  {
    NibbleSplit(h4, h5);
  }

  /** The arithmetic of the packing: byte 4 keeps the low nibble of h4 below
      the low nibble of h5. */
  lemma NibbleSplit(h4: int, h5: int)
    requires IsU12(h4) && IsU12(h5)
    ensures 0 <= 16 * (h5 % 16) + h4 % 16 < 256
    ensures (h4 / 16) % 256 == h4 / 16 && (h5 / 16) % 256 == h5 / 16
    ensures (16 * (h5 % 16) + h4 % 16) % 16 == h4 % 16
    ensures (16 * (h5 % 16) + h4 % 16) / 16 == h5 % 16
    ensures 16 * (h4 / 16) + h4 % 16 == h4 && 16 * (h5 / 16) + h5 % 16 == h5
  {
    DivModUnique(h4 / 16, 256, 0, h4 / 16);
    DivModUnique(h5 / 16, 256, 0, h5 / 16);
    DivModUnique(16 * (h5 % 16) + h4 % 16, 16, h5 % 16, h4 % 16);
  }

  /** Three bytes survive being unpacked into dig_H4, dig_H5 and packed again. */
  lemma NibbleBytesRoundTrip(b3: Byte, b4: Byte, b5: Byte)
    ensures (LowNibblePair(b3, b4) / 16) % 256 == b3
    ensures (HighNibblePair(b5, b4) / 16) % 256 == b5
    ensures 16 * (HighNibblePair(b5, b4) % 16) + LowNibblePair(b3, b4) % 16 == b4
  {
    var low: int, high: int := LowNibblePair(b3, b4), HighNibblePair(b5, b4);
    var lo4: int, hi4: int := b4 % 16, b4 / 16;
    DivModUnique(low, 16, b3, lo4);
    DivModUnique(high, 16, b5, hi4);
    DivModUnique(b3, 256, 0, b3);
    DivModUnique(b5, 256, 0, b5);
    assert 16 * hi4 + lo4 == b4;
  }

  /** Decoding the registers that hold c gives back c: every coefficient in
      its range has exactly one encoding. */
  lemma DecodeEncode(c: Coefficients)
    requires InRange(c)
    ensures Decode(Encode(c)) == c
  {
    var b := Encode(c);
    TempPressRoundTrip(b, c);
    HumidityRoundTrip(b, c);
  }

  lemma TempPressRoundTrip(b: RegisterBlocks, c: Coefficients)
    requires b.WellFormed() && InRange(c) && b.tempPress == TempPressBytes(c)
    ensures var d := Decode(b);
      d.T1 == c.T1 && d.T2 == c.T2 && d.T3 == c.T3 && d.P1 == c.P1 && d.P2 == c.P2 && d.P3 == c.P3
      && d.P4 == c.P4 && d.P5 == c.P5 && d.P6 == c.P6 && d.P7 == c.P7 && d.P8 == c.P8 && d.P9 == c.P9
  {
    WordRoundTrip(c.T1); WordRoundTrip(c.T2); WordRoundTrip(c.T3);
    WordRoundTrip(c.P1); WordRoundTrip(c.P2); WordRoundTrip(c.P3);
    WordRoundTrip(c.P4); WordRoundTrip(c.P5); WordRoundTrip(c.P6);
    WordRoundTrip(c.P7); WordRoundTrip(c.P8); WordRoundTrip(c.P9);
  }

  lemma HumidityRoundTrip(b: RegisterBlocks, c: Coefficients)
    requires b.WellFormed() && InRange(c)
    requires b.humidity1 == [c.H1 % 256] && b.humidity2 == HumidityBytes(c)
    ensures var d := Decode(b);
      d.H1 == c.H1 && d.H2 == c.H2 && d.H3 == c.H3 && d.H4 == c.H4 && d.H5 == c.H5 && d.H6 == c.H6
  {
    WordRoundTrip(c.H2);
    ByteCoefficientsRoundTrip(c);
    NibblesRoundTrip(c.H4, c.H5);
  }

  /** Every register content decodes to coefficients whose encoding is that
      same content: no bit of the 32 bytes is lost, and the two nibbles of
      byte 4 of the 0xE1 block go one to dig_H4 and one to dig_H5. */
  lemma EncodeDecode(b: RegisterBlocks)
    requires b.WellFormed()
    ensures Encode(Decode(b)) == b
  {
    var c := Decode(b);
    DecodeFields(b);
    TempPressBytesRoundTrip(b.tempPress, c);
    HumidityBytesRoundTrip(b.humidity1, b.humidity2, c);
  }

  lemma TempPressBytesRoundTrip(tp: seq<Byte>, c: Coefficients)
    requires |tp| == 24
    requires && c.T1 == UnsignedWord(tp[0], tp[1]) && c.T2 == SignedWord(tp[2], tp[3])
             && c.T3 == SignedWord(tp[4], tp[5]) && c.P1 == UnsignedWord(tp[6], tp[7])
             && c.P2 == SignedWord(tp[8], tp[9]) && c.P3 == SignedWord(tp[10], tp[11])
             && c.P4 == SignedWord(tp[12], tp[13]) && c.P5 == SignedWord(tp[14], tp[15])
             && c.P6 == SignedWord(tp[16], tp[17]) && c.P7 == SignedWord(tp[18], tp[19])
             && c.P8 == SignedWord(tp[20], tp[21]) && c.P9 == SignedWord(tp[22], tp[23])
    ensures TempPressBytes(c) == tp
  {
    BytesRoundTrip(tp[0], tp[1]); BytesRoundTrip(tp[2], tp[3]); BytesRoundTrip(tp[4], tp[5]);
    BytesRoundTrip(tp[6], tp[7]); BytesRoundTrip(tp[8], tp[9]); BytesRoundTrip(tp[10], tp[11]);
    BytesRoundTrip(tp[12], tp[13]); BytesRoundTrip(tp[14], tp[15]); BytesRoundTrip(tp[16], tp[17]);
    BytesRoundTrip(tp[18], tp[19]); BytesRoundTrip(tp[20], tp[21]); BytesRoundTrip(tp[22], tp[23]);
  }

  lemma HumidityBytesRoundTrip(h1: seq<Byte>, h: seq<Byte>, c: Coefficients)
    requires |h1| == 1 && |h| == 7
    requires && c.H1 == h1[0] && c.H2 == SignedWord(h[0], h[1]) && c.H3 == h[2]
             && c.H4 == LowNibblePair(h[3], h[4]) && c.H5 == HighNibblePair(h[5], h[4])
             && c.H6 == SignedByteOf(h[6])
    ensures [c.H1 % 256] == h1
    ensures HumidityBytes(c) == h
  {
    var e := HumidityBytes(c);
    DivModUnique(h1[0], 256, 0, h1[0]);
    DivModUnique(h[2], 256, 0, h[2]);
    BytesRoundTrip(h[0], h[1]);
    NibbleBytesRoundTrip(h[3], h[4], h[5]);
    SignedByteFits(h[6]);
    assert e[0] == h[0] && e[1] == h[1] && e[2] == h[2] && e[3] == h[3];
    assert e[4] == h[4] && e[5] == h[5] && e[6] == h[6];
  }

  /** A byte read as signed, reduced modulo 256, is the byte again. */
  lemma SignedByteFits(b: Byte)
    ensures SignedByteOf(b) % 256 == b
  {
    DivModUnique(SignedByteOf(b), 256, if b >= 128 then -1 else 0, b);
  }
}
