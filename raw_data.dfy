/** The burst read of the eight measurement registers 0xF7..0xFE and its
    unpacking into the three raw ADC readings: pressure and temperature are
    20 bits each (8 + 8 + 4), humidity is 16 bits.  The bus read is not
    modelled: the eight bytes are a parameter. */
module RawData {
  import opened PyInt
  import opened LittleEndian

  /** The three uncompensated readings, in the order `_read_raw_data`
      returns them. */
  datatype RawSample = RawSample(pressure: int, temperature: int, humidity: int)

  /** 2^20, the number of values a 20-bit reading can take. */
  const Raw20: int := 0x10_0000

  /** Bounds of a reading the eight registers can carry. */
  predicate Fits(s: RawSample)
  {
    0 <= s.pressure < Raw20 && 0 <= s.temperature < Raw20 && 0 <= s.humidity < 0x1_0000
  }

  /** `(msb << 12) | (lsb << 4) | (xlsb >> 4)`: a 20-bit reading from its
      three registers, of which only the high nibble of the last counts. */
  function Reading20(msb: Byte, lsb: Byte, xlsb: Byte): (r: int)
    ensures r == 4096 * (msb as int) + 16 * (lsb as int) + xlsb / 16
    ensures 0 <= r < Raw20
  {
    ShiftConstants();
    var high := BitOr(Shl(msb, 12), Shl(lsb, 4));
    OrDisjoint(Shl(msb, 12), Shl(lsb, 4), 12);
    assert high % 16 == 0 by { DivModUnique(high, 16, 256 * (msb as int) + lsb, 0); }
    OrDisjoint(high, Shr(xlsb, 4), 4);
    BitOr(high, Shr(xlsb, 4))
  }

  /** `(msb << 8) | lsb`: the 16-bit humidity reading. */
  function Reading16(msb: Byte, lsb: Byte): (r: int)
    ensures r == 256 * (msb as int) + lsb
    ensures 0 <= r < 0x1_0000
  {
    ShiftConstants();
    OrDisjoint(Shl(msb, 8), lsb, 8);
    BitOr(Shl(msb, 8), lsb)
  }

  lemma ShiftConstants()
    ensures Pow2(4) == 16 && Pow2(8) == 256 && Pow2(12) == 4096
  {
    assert Pow2(4) == 16;
    assert Pow2(8) == 16 * Pow2(4);
    assert Pow2(12) == 16 * Pow2(8);
  }

  /** `_read_raw_data` on the eight bytes the sensor returns. */
  function ReadRawData(data: seq<Byte>): (s: RawSample)
    requires |data| == 8
    ensures Fits(s)
    ensures s.pressure == 4096 * (data[0] as int) + 16 * (data[1] as int) + data[2] / 16
    ensures s.temperature == 4096 * (data[3] as int) + 16 * (data[4] as int) + data[5] / 16
    ensures s.humidity == 256 * (data[6] as int) + data[7]
  {
    RawSample(
      Reading20(data[0], data[1], data[2]),
      Reading20(data[3], data[4], data[5]),
      Reading16(data[6], data[7]))
  }

  /** The register contents that carry the sample s, with the unused low
      nibbles of the two xlsb registers zero. */
  function PackRaw(s: RawSample): (data: seq<Byte>)
    requires Fits(s)
    ensures |data| == 8
    ensures data[2] % 16 == 0 && data[5] % 16 == 0
  {
    var p, t, h := s.pressure, s.temperature, s.humidity;
    DivModUnique(16 * (p % 16), 16, p % 16, 0);
    DivModUnique(16 * (t % 16), 16, t % 16, 0);
    [p / 4096, (p / 16) % 256, 16 * (p % 16),
     t / 4096, (t / 16) % 256, 16 * (t % 16),
     h / 256, h % 256]
  }

  /** A 20-bit reading survives being split into its three registers. */
  lemma Reading20RoundTrip(v: int)
    requires 0 <= v < Raw20
    ensures 0 <= v / 4096 < 256 && 0 <= 16 * (v % 16) < 256
    ensures Reading20(v / 4096, (v / 16) % 256, 16 * (v % 16)) == v
  {
    var a, m, n := v / 4096, (v / 16) % 256, v % 16;
    DivModUnique(v / 16, 256, a, m) by {
      DivModUnique(v, 4096, v / 16 / 256, (v / 16 % 256) * 16 + n);
    }
    DivModUnique(16 * n, 16, n, 0);
  }

  /** Unpacking the registers that carry s gives back s. */
  lemma UnpackPack(s: RawSample)
    requires Fits(s)
    ensures ReadRawData(PackRaw(s)) == s
  {
    Reading20RoundTrip(s.pressure);
    Reading20RoundTrip(s.temperature);
    var h := s.humidity;
    assert h == 256 * (h / 256) + h % 256;
  }

  /** Unpacking loses exactly the low nibbles of registers 0xF9 and 0xFC:
      packing the sample again restores every other bit. */
  lemma PackUnpack(data: seq<Byte>)
    requires |data| == 8
    ensures PackRaw(ReadRawData(data)) == data[2 := data[2] - data[2] % 16][5 := data[5] - data[5] % 16]
  {
    var s := ReadRawData(data);
    Reading20Digits(data[0], data[1], data[2]);
    Reading20Digits(data[3], data[4], data[5]);
    DivModUnique(s.humidity, 256, data[6], data[7]);
  }

  /** The three registers of a 20-bit reading are recovered from it. */
  lemma Reading20Digits(msb: Byte, lsb: Byte, xlsb: Byte)
    ensures var v := Reading20(msb, lsb, xlsb);
      v / 4096 == msb && (v / 16) % 256 == lsb && 16 * (v % 16) == xlsb - xlsb % 16
  {
    var v := Reading20(msb, lsb, xlsb);
    var top := xlsb / 16;
    DivModUnique(v, 16, 256 * (msb as int) + lsb, top);
    DivModUnique(v / 16, 256, msb, lsb);
    DivModUnique(v, 4096, msb, 16 * (lsb as int) + top);
    DivModUnique(xlsb, 16, top, xlsb % 16);
  }

  /** Only the high nibbles of registers 0xF9 and 0xFC reach the readings:
      register contents that differ only in their low nibbles give the same
      sample. */
  lemma LowNibblesIgnored(data: seq<Byte>, other: seq<Byte>)
    requires |data| == 8 && |other| == 8
    requires forall i | 0 <= i < 8 && i != 2 && i != 5 :: data[i] == other[i]
    requires data[2] / 16 == other[2] / 16 && data[5] / 16 == other[5] / 16
    ensures ReadRawData(data) == ReadRawData(other)
  {
    assert data[0] == other[0] && data[1] == other[1] && data[3] == other[3];
    assert data[4] == other[4] && data[6] == other[6] && data[7] == other[7];
  }
}
