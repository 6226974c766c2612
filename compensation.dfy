/** The fixed-point compensation formulas of the driver: temperature (in
    hundredths of a degree Celsius, before the division by 100.0), pressure
    (in Pa as Q24.8, before the division by 256.0) and relative humidity (in
    whole percent), computed from the raw readings and the calibration
    coefficients in Python's unbounded integers.

    Pressure and humidity take the fine temperature `t_fine` as an integer.
    The driver's `read()` does not wire them this way: it passes the float
    temperature returned by `_compensate_temperature` as `t_fine`
    (bme280.py:112-115); that wiring is not part of this model. */
module Compensation {
  import opened PyInt
  import opened Calibration
  import opened RawData

  // ---------------------------------------------------------------- temperature

  /** `var1` of `_compensate_temperature`: the linear term.  It vanishes
      when raw_temperature >> 3 equals dig_T1 << 1, and for coefficients in
      range and a 20-bit reading it stays strictly inside (-2^21, 2^21). */
  function TemperatureLinear(c: Coefficients, rawT: int): (r: int)
    ensures rawT / 8 == 2 * c.T1 ==> r == 0
    ensures InRange(c) && 0 <= rawT < Raw20 ==> -0x20_0000 < r < 0x20_0000
  {
    LinearBound(c, rawT);
    Shr((Shr(rawT, 3) - Shl(c.T1, 1)) * c.T2, 11)
  }

  /** `var2` of `_compensate_temperature`: the quadratic term.  It has the
      sign of dig_T3, vanishes when raw_temperature >> 4 equals dig_T1, and
      for coefficients in range and a 20-bit reading stays strictly inside
      (-2^21, 2^21). */
  function TemperatureQuadratic(c: Coefficients, rawT: int): (r: int)
    ensures c.T3 >= 0 ==> r >= 0
    ensures c.T3 <= 0 ==> r <= 0
    ensures rawT / 16 == c.T1 ==> r == 0
    ensures InRange(c) && 0 <= rawT < Raw20 ==> -0x20_0000 < r < 0x20_0000
  {
    QuadraticBound(c, rawT);
    var d := Shr(rawT, 4) - c.T1;
    Shr(Shr(d * d, 12) * c.T3, 14)
  }

  /** `t_fine`, the fine temperature shared by the three formulas.  For
      coefficients in the range of their encodings and a 20-bit reading it
      stays strictly inside (-2^22, 2^22). */
  function TFine(c: Coefficients, rawT: int): (t: int)
    ensures InRange(c) && 0 <= rawT < Raw20 ==> -0x40_0000 < t < 0x40_0000
  {
    TemperatureLinear(c, rawT) + TemperatureQuadratic(c, rawT)
  }

  /** `(t_fine * 5 + 128) >> 8`: the temperature in hundredths of a degree,
      which is t_fine * 5 / 256 rounded to the nearest integer (halves
      upward). */
  function CentiTemp(t: int): (r: int)
    ensures 256 * r <= 5 * t + 128 < 256 * r + 256
    ensures -128 <= 5 * t - 256 * r < 128
  {
    Pow2Constants();
    Shr(t * 5 + 128, 8)
  }

  /** `_compensate_temperature` without the final float division. */
  function Temperature(c: Coefficients, rawT: int): (r: int)
    ensures -128 <= 5 * TFine(c, rawT) - 256 * r < 128
  {
    CentiTemp(TFine(c, rawT))
  }

  /** The temperature depends on the temperature coefficients and the raw
      temperature reading only. */
  lemma TemperatureCoefficientsOnly(c: Coefficients, c': Coefficients, rawT: int)
    requires c.T1 == c'.T1 && c.T2 == c'.T2 && c.T3 == c'.T3
    ensures TFine(c, rawT) == TFine(c', rawT)
    ensures Temperature(c, rawT) == Temperature(c', rawT)
  {
    assert TemperatureLinear(c, rawT) == TemperatureLinear(c', rawT);
    assert TemperatureQuadratic(c, rawT) == TemperatureQuadratic(c', rawT);
  }

  /** A warmer fine temperature never reads colder. */
  lemma {:induction false} CentiTempMonotone(t: int, u: int)
    requires t <= u
    ensures CentiTemp(t) <= CentiTemp(u)
  {
  }

  lemma LinearBound(c: Coefficients, rawT: int)
    ensures var r := Shr((Shr(rawT, 3) - Shl(c.T1, 1)) * c.T2, 11);
      && (rawT / 8 == 2 * c.T1 ==> r == 0)
      && (InRange(c) && 0 <= rawT < Raw20 ==> -0x20_0000 < r < 0x20_0000)
  {
    Pow2Constants();
    var diff := Shr(rawT, 3) - Shl(c.T1, 1);
    if rawT / 8 == 2 * c.T1 {
      assert diff == 0;
    }
    if InRange(c) && 0 <= rawT < Raw20 {
      ShrRange(rawT, 3, 0, Raw20 - 1);
      MulBound(diff, c.T2, 131071, 32768);
      ShrRange(diff * c.T2, 11, -131071 * 32768, 131071 * 32768);
    }
  }

  lemma QuadraticBound(c: Coefficients, rawT: int)
    ensures var d := Shr(rawT, 4) - c.T1;
      var r := Shr(Shr(d * d, 12) * c.T3, 14);
      && (c.T3 >= 0 ==> r >= 0)
      && (c.T3 <= 0 ==> r <= 0)
      && (rawT / 16 == c.T1 ==> r == 0)
      && (InRange(c) && 0 <= rawT < Raw20 ==> -0x20_0000 < r < 0x20_0000)
  {
    Pow2Constants();
    var d := Shr(rawT, 4) - c.T1;
    var s := Shr(d * d, 12);
    assert s >= 0 by {
      MulMono(0, Abs(d), Abs(d));
      assert d * d == Abs(d) * Abs(d);
    }
    if c.T3 >= 0 {
      MulMono(0, s, c.T3);
    } else {
      MulMono(c.T3, 0, s);
    }
    if InRange(c) && 0 <= rawT < Raw20 {
      ShrRange(rawT, 4, 0, Raw20 - 1);
      MulBound(d, d, 65535, 65535);
      ShrRange(d * d, 12, -65535 * 65535, 65535 * 65535);
      MulBound(s, c.T3, 1048575, 32768);
      ShrRange(s * c.T3, 14, -1048575 * 32768, 1048575 * 32768);
    }
  }

  // ------------------------------------------------------------------- pressure

  /** `var1` at bme280.py:80, the divisor of the pressure formula: 0 when
      dig_P1 is 0, and dig_P1 * 2^14 at the reference fine temperature
      128000, where the correction vanishes. */
  function PressureDenominator(c: Coefficients, t: int): (d: int)
    ensures c.P1 == 0 ==> d == 0
    ensures c.P1 > 0 && PressureOffset(c, t) >= 0 ==> d >= 0
    ensures t == 128000 ==> d == 0x4000 * c.P1
  {
    Pow2Constants();
    var scaled := (Shl(1, 47) + PressureOffset(c, t)) * c.P1;
    assert t == 128000 ==> scaled == 0x2_0000_0000 * (0x4000 * c.P1);
    Shr(scaled, 33)
  }

  /** `var1` at bme280.py:79: the quadratic and linear correction of the
      divisor, in powers of t_fine - 128000; it vanishes at the reference
      fine temperature and when dig_P2 and dig_P3 are both 0. */
  function PressureOffset(c: Coefficients, t: int): (r: int)
    ensures t == 128000 ==> r == 0
    ensures c.P2 == 0 && c.P3 == 0 ==> r == 0
  {
    var v := t - 128000;
    Shr(v * v * c.P3, 8) + Shl(v * c.P2, 12)
  }

  /** `var2` at bme280.py:76-78: the offset subtracted from the scaled
      reading, in powers of t_fine - 128000; at the reference fine
      temperature only dig_P4 * 2^35 remains. */
  function PressureSubtrahend(c: Coefficients, t: int): (r: int)
    ensures t == 128000 ==> r == 0x8_0000_0000 * c.P4
    ensures c.P4 == 0 && c.P5 == 0 && c.P6 == 0 ==> r == 0
  {
    Pow2Constants();
    var v := t - 128000;
    v * v * c.P6 + Shl(v * c.P5, 17) + Shl(c.P4, 35)
  }

  /** `pressure` after bme280.py:84: the floor quotient, for a divisor of
      either sign. */
  function PressureQuotient(c: Coefficients, rawP: int, t: int): (q: int)
    requires PressureDenominator(c, t) != 0
    ensures var d, n := PressureDenominator(c, t), (Shl(1048576 - rawP, 31) - PressureSubtrahend(c, t)) * 3125;
      && (d > 0 ==> d * q <= n < d * q + d)
      && (d < 0 ==> d * q + d < n <= d * q)
  {
    FloorDiv((Shl(1048576 - rawP, 31) - PressureSubtrahend(c, t)) * 3125, PressureDenominator(c, t))
  }

  /** `_compensate_pressure` without the final float division: Pa in Q24.8,
      and 0 whenever the divisor is 0, which is the case whenever dig_P1 is 0. */
  function Pressure(c: Coefficients, rawP: int, t: int): (r: int)
    ensures PressureDenominator(c, t) == 0 ==> r == 0
    ensures c.P1 == 0 ==> r == 0
  {
    if PressureDenominator(c, t) == 0 then 0
    else PressureRefine(c, PressureQuotient(c, rawP, t))
  }

  /** bme280.py:85-87: the second-order correction with dig_P7..dig_P9.
      Without the second-order coefficients dig_P8 and dig_P9 it is the
      quotient divided by 256, rounded down, plus dig_P7 * 16. */
  function PressureRefine(c: Coefficients, p: int): (r: int)
    ensures c.P8 == 0 && c.P9 == 0 ==> 256 * (r - 16 * c.P7) <= p < 256 * (r - 16 * c.P7) + 256
  {
    Pow2Constants();
    var v1 := Shr(c.P9 * Shr(p, 13) * Shr(p, 13), 25);
    var v2 := Shr(c.P8 * p, 19);
    Shr(p + v1 + v2, 8) + Shl(c.P7, 4)
  }

  /** Registers that read as all zeros give dig_P1 == 0 and hence a
      pressure of 0, whatever the reading and the temperature. */
  lemma ZeroRegistersGiveZeroPressure(rawP: int, t: int)
    ensures var b := RegisterBlocks(seq(24, _ => 0), [0], seq(7, _ => 0));
      b.WellFormed() && Pressure(Decode(b), rawP, t) == 0
  {
    var b := RegisterBlocks(seq(24, _ => 0), [0], seq(7, _ => 0));
    DecodeFields(b);
  }

  /** The divisor can be negative for coefficients in range and the fine
      temperature TFine produces for the largest 20-bit reading (2097072),
      so the division at bme280.py:84 is a floor division by a negative
      number there; for a quotient that is not exact, that differs from
      Euclidean division. */
  lemma NegativeDenominatorExists()
    ensures var c := Coefficients(0, 32767, 0, 1, -32768, -32768, 0, 0, 0, 0, 0, 0, 0, 0, 0, 0, 0, 0);
      && InRange(c)
      && TFine(c, Raw20 - 1) == 2097072
      && PressureDenominator(c, TFine(c, Raw20 - 1)) < 0
  {
    Pow2Constants();
    var c := Coefficients(0, 32767, 0, 1, -32768, -32768, 0, 0, 0, 0, 0, 0, 0, 0, 0, 0, 0, 0);
    assert TemperatureLinear(c, Raw20 - 1) == 2097072;
    assert TemperatureQuadratic(c, Raw20 - 1) == 0;
    var v := 2097072 - 128000;
    assert v * v * c.P3 == -127049549125517312;
    assert PressureOffset(c, 2097072) == -760571671379968;
  }

  /** One calibration and one pair of readings, followed through: t_fine
      128422, 25.08 degrees Celsius, and 25767233 / 256 Pa, about 1006.5 hPa. */
  lemma WorkedExample()
    ensures var c := Coefficients(27504, 26435, -1000, 36477, -10685, 3024, 2855, 140, -7,
                                  15500, -14600, 6000, 0, 0, 0, 0, 0, 0);
      && InRange(c)
      && TFine(c, 519888) == 128422
      && Temperature(c, 519888) == 2508
      && Pressure(c, 415148, 128422) == 25767233
  {
    Pow2Constants();
    var c := Coefficients(27504, 26435, -1000, 36477, -10685, 3024, 2855, 140, -7,
                          15500, -14600, 6000, 0, 0, 0, 0, 0, 0);
    assert PressureOffset(c, 128422) == -18467047103;
    assert PressureDenominator(c, 128422) == 597560748;
    assert PressureSubtrahend(c, 128422) == 98104795527812;
    assert PressureQuotient(c, 415148, 128422) == 6600644165;
    assert Shr(6600644165, 13) == 805742;
    assert PressureRefine(c, 6600644165) == 25767233;
  }

  // ------------------------------------------------------------------- humidity

  /** `var2` at bme280.py:92: dig_H4 * 2^24 plus dig_H5 * (t_fine - 76800)
      / 1024 rounded down, so exactly dig_H4 * 2^24 at the reference fine
      temperature 76800. */
  function HumidityBase(c: Coefficients, t: int): (r: int)
    ensures var f := r - 0x100_0000 * c.H4;
      1024 * f <= c.H5 * (t - 76800) < 1024 * f + 1024
    ensures t == 76800 ==> r == 0x100_0000 * c.H4
  {
    Pow2Constants();
    Shl(c.H4, 24) + FloorDiv(c.H5 * (t - 76800), 1024)
  }

  /** `var3` at bme280.py:93: bits 12..19 of var2, whatever its sign. */
  function HumidityByte(v2: int): (v3: int)
    ensures v3 == (v2 / 4096) % 256
    ensures 0 <= v3 < 256
  {
    Pow2Constants();
    AndLowMask(Shr(v2, 12), 8);
    BitAnd(Shr(v2, 12), 0xFF)
  }

  /** `var4` at bme280.py:94: the low byte of var2 placed above the low 12
      bits of the raw reading, the two fields disjoint. */
  function HumidityField(v2: int, rawH: int): (v4: int)
    ensures v4 == 4096 * (v2 % 256) + rawH % 4096
    ensures 0 <= v4 < 0x10_0000
  {
    Pow2Constants();
    AndLowMask(v2, 8);
    AndLowMask(rawH, 12);
    var high := Shl(BitAnd(v2, 0xFF), 12);
    OrDisjoint(high, BitAnd(rawH, 0xFFF), 12);
    BitOr(high, BitAnd(rawH, 0xFFF))
  }

  /** `(var7 + var4) >> 15` at bme280.py:95-101, before the mask, from t_fine
      and the two fields above.  A zero `var4` makes `var7` 0x4000 and every
      product with it 0, so the result is 0. */
  function HumidityCombine(c: Coefficients, t: int, v3: int, v4: int): (r: int)
    ensures v4 == 0 ==> r == 0
  {
    Pow2Constants();
    var v1 := t - 76800;
    var v5 := FloorDiv(c.H6 * v1, 1024) * FloorDiv(v1 * c.H3, 2048);
    var v6 := Shr(v5, 11) + 0x8000;
    var v7 := FloorDiv(v4 * v6, 16384) + 0x4000;
    var w6 := FloorDiv(v3 * v4, 1024) * c.H2;
    var w3 := Shr(w6, 14) * Shr(w6, 14);
    Shr(v7 + FloorDiv(v7 * w3, 2048) * c.H1, 15)
  }

  /** The humidity formula up to bme280.py:101, before the mask.  When the
      low byte of `var2` and the low 12 bits of the reading are both 0,
      `var4` is 0 and so is the result. */
  function HumidityUnmasked(c: Coefficients, rawH: int, t: int): (r: int)
    ensures HumidityBase(c, t) % 256 == 0 && rawH % 4096 == 0 ==> r == 0
  {
    var v2 := HumidityBase(c, t);
    HumidityCombine(c, t, HumidityByte(v2), HumidityField(v2, rawH))
  }

  /** The value the clamp at bme280.py:102 receives: the unmasked value
      modulo 256, so in [0, 255] whatever its sign. */
  function HumidityMasked(c: Coefficients, rawH: int, t: int): (h: int)
    ensures 0 <= h < 256
    ensures h == HumidityUnmasked(c, rawH, t) % 256
  {
    Pow2Constants();
    AndLowMask(HumidityUnmasked(c, rawH, t), 8);
    BitAnd(HumidityUnmasked(c, rawH, t), 0xFF)
  }

  /** `min(100, max(0, h))`. */
  function Clamp(h: int): (r: int)
    ensures 0 <= r <= 100
    ensures 0 <= h <= 100 ==> r == h
    ensures h < 0 ==> r == 0
    ensures h > 100 ==> r == 100
  {
    var lower := if 0 < h then h else 0;
    if lower < 100 then lower else 100
  }

  /** `_compensate_humidity` as written: in [0, 100] for every input, equal
      to the masked value when that is at most 100 and 100 otherwise. */
  function Humidity(c: Coefficients, rawH: int, t: int): (r: int)
    ensures 0 <= r <= 100
    ensures var h := HumidityMasked(c, rawH, t); r == if h <= 100 then h else 100
  {
    Clamp(HumidityMasked(c, rawH, t))
  }

  /** The humidity formula at the intended clamp: the unmasked value is
      clamped to [0, 100], so a value above 100 saturates at 100 and a
      negative one at 0. */
  function HumidityClamped(c: Coefficients, rawH: int, t: int): (r: int)
    ensures 0 <= r <= 100
    ensures var h := HumidityUnmasked(c, rawH, t);
      && (0 <= h <= 100 ==> r == h) && (h > 100 ==> r == 100) && (h < 0 ==> r == 0)
  {
    Clamp(HumidityUnmasked(c, rawH, t))
  }

  /** The clamp keeps the order of the values it receives. */
  lemma {:induction false} ClampMonotone(h: int, k: int)
    requires h <= k
    ensures Clamp(h) <= Clamp(k)
  {
  }

  /** Where the unmasked value is already in [0, 100] the mask changes
      nothing and both readings agree. */
  lemma MaskHarmlessInRange(c: Coefficients, rawH: int, t: int)
    requires 0 <= HumidityUnmasked(c, rawH, t) <= 100
    ensures Humidity(c, rawH, t) == HumidityClamped(c, rawH, t) == HumidityUnmasked(c, rawH, t)
  {
    var h := HumidityUnmasked(c, rawH, t);
    DivModUnique(h, 256, 0, h);
  }

  /** Only the low 12 bits of the 16-bit raw humidity reach the formula
      (`raw_humidity & 0xFFF` at bme280.py:94). */
  lemma HumidityIgnoresHighRawBits(c: Coefficients, rawH: int, t: int)
    ensures HumidityUnmasked(c, rawH, t) == HumidityUnmasked(c, rawH % 4096, t)
    ensures Humidity(c, rawH, t) == Humidity(c, rawH % 4096, t)
  {
    var v2 := HumidityBase(c, t);
    DivModUnique(rawH % 4096, 4096, 0, rawH % 4096);
    assert HumidityField(v2, rawH) == HumidityField(v2, rawH % 4096);
  }

  /** A calibration in range and a fine temperature inside the TFine range
      for which the unmasked value is 351: the mask makes the driver report
      95 % where the clamp would report 100 %. */
  lemma MaskWrapsAboveHundred()
    ensures var c := Coefficients(0, 0, 0, 0, 0, 0, 0, 0, 0, 0, 0, 0, 217, 3, 242, 677, 2610, 120);
      && InRange(c)
      && HumidityUnmasked(c, 35218, 128422) == 351
      && Humidity(c, 35218, 128422) == 95
      && HumidityClamped(c, 35218, 128422) == 100
  {
    var c := Coefficients(0, 0, 0, 0, 0, 0, 0, 0, 0, 0, 0, 0, 217, 3, 242, 677, 2610, 120);
    WitnessFields(c, 128422, 35218);
    WitnessCombine(c);
    DivModUnique(351, 256, 1, 95);
  }

  lemma WitnessFields(c: Coefficients, t: int, rawH: int)
    requires c.H4 == 677 && c.H5 == 2610 && t == 128422 && rawH == 35218
    ensures HumidityBase(c, t) == 11358306807
    ensures HumidityByte(HumidityBase(c, t)) == 32
    ensures HumidityField(HumidityBase(c, t), rawH) == 1014162
  {
    Pow2Constants();
    assert FloorDiv(c.H5 * (t - 76800), 1024) == 131575;
  }

  lemma WitnessCombine(c: Coefficients)
    requires c.H1 == 217 && c.H2 == 3 && c.H3 == 242 && c.H6 == 120
    ensures HumidityCombine(c, 128422, 32, 1014162) == 351
  {
    Pow2Constants();
    assert FloorDiv(120 * 51622, 1024) == 6049 && FloorDiv(51622 * 242, 2048) == 6099;
    assert Shr(6049 * 6099, 11) == 18014;
    assert FloorDiv(1014162 * 50782, 16384) == 3143382;
    assert FloorDiv(32 * 1014162, 1024) == 31692 && Shr(31692 * 3, 14) == 5;
    assert FloorDiv(3159766 * 25, 2048) == 38571;
    assert Shr(3159766 + 38571 * 217, 15) == 351;
  }

  // --------------------------------------------------------------- arithmetic

  lemma Pow2Constants()
    ensures Pow2(3) == 8 && Pow2(4) == 16 && Pow2(8) == 256 && Pow2(11) == 2048
    ensures Pow2(12) == 4096 && Pow2(13) == 8192 && Pow2(14) == 16384 && Pow2(15) == 32768
    ensures Pow2(17) == 0x2_0000 && Pow2(19) == 0x8_0000 && Pow2(24) == 0x100_0000
    ensures Pow2(25) == 0x200_0000 && Pow2(31) == 0x8000_0000 && Pow2(33) == 0x2_0000_0000
    ensures Pow2(35) == 0x8_0000_0000 && Pow2(47) == 0x8000_0000_0000
  {
    assert Pow2(4) == 16;
    assert Pow2(8) == 16 * Pow2(4);
    assert Pow2(12) == 16 * Pow2(8);
    assert Pow2(16) == 16 * Pow2(12);
    assert Pow2(20) == 16 * Pow2(16);
    assert Pow2(24) == 16 * Pow2(20);
    assert Pow2(28) == 16 * Pow2(24);
    assert Pow2(32) == 16 * Pow2(28);
    assert Pow2(36) == 16 * Pow2(32);
    assert Pow2(40) == 16 * Pow2(36);
    assert Pow2(44) == 16 * Pow2(40);
    assert Pow2(47) == 8 * Pow2(44);
  }

  /** A product of two bounded factors is bounded by the product of the bounds. */
  lemma MulBound(x: int, y: int, xb: int, yb: int)
    requires -xb <= x <= xb && -yb <= y <= yb
    ensures -(xb * yb) <= x * y <= xb * yb
  {
    var ax, ay := Abs(x), Abs(y);
    assert ax * ay <= xb * ay by { MulMono(ax, xb, ay); }
    assert xb * ay <= xb * yb by { MulMono(ay, yb, xb); }
    assert Abs(x * y) == ax * ay by {
      if x < 0 && y < 0 { assert x * y == ax * ay; }
      else if x < 0 { assert x * y == -(ax * ay); }
      else if y < 0 { assert x * y == -(ax * ay); }
    }
  }

  lemma MulMono(a: int, b: int, k: int)
    requires a <= b && k >= 0
    ensures a * k <= b * k
  {
    assert b * k - a * k == (b - a) * k;
  }

  /** An arithmetic shift keeps a value's bounds, shifted. */
  lemma ShrRange(x: int, n: nat, lo: int, hi: int)
    requires lo <= x <= hi
    ensures lo / Pow2(n) <= Shr(x, n) <= hi / Pow2(n)
  {
    DivMono(lo, x, Pow2(n));
    DivMono(x, hi, Pow2(n));
  }

  lemma DivMono(x: int, y: int, d: int)
    requires x <= y && d > 0
    ensures x / d <= y / d
  {
    var qx, qy := x / d, y / d;
    if qx > qy {
      MulAtLeast(d, qx - qy);
    }
  }
}
