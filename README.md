# BME280 calibration and compensation, modelled in Dafny

This project models the arithmetic core of a MicroPython driver for the Bosch
BME280 temperature, pressure and humidity sensor (`bme280.py`):

- **Calibration decoding** (`_read_calibration_data`). Three calibration
  register blocks are decoded into the eighteen `dig_*` coefficients:
  24 bytes from 0x88, 1 byte from 0xA1 and 7 bytes from 0xE1. The encodings
  are unsigned and signed 16-bit little-endian words, single bytes, and two
  12-bit values that share one byte's nibbles.
- **Raw-sample unpacking** (`_read_raw_data`). The eight measurement
  registers become a 20-bit pressure reading, a 20-bit temperature reading
  and a 16-bit humidity reading.
- **Compensation** (`_compensate_temperature`, `_compensate_pressure`,
  `_compensate_humidity`). These are fixed-point formulas.
  - Temperature is returned in hundredths of a degree Celsius.
  - Pressure is returned in Pa as Q24.8.
  - Humidity is returned in whole percent.

The driver computes in Python's unbounded integers, and so does the model.
The Bosch datasheet states the temperature formula (bme280.py:68-71) in
32-bit and the pressure formula (bme280.py:75-87) in 64-bit C arithmetic.
The humidity formula (bme280.py:91-102) is the driver's own and differs
from the datasheet's.

Python's operators are modelled explicitly in module `PyInt`:

- `>>` is a floor shift.
- `//` is floor division for divisors of either sign. Dafny's `/` is
  Euclidean, and the two can differ for a negative divisor when the division
  is not exact.
- `&` and `|` are defined bit by bit on two's-complement integers. Lemmas
  connect them to `%` and `+`.

`int.from_bytes` is modelled in module `LittleEndian`.

Modules:

- `PyInt`: Python integer operators.
- `LittleEndian`: `int.from_bytes`.
- `Calibration`: the coefficients, `Decode`, and its inverse `Encode`.
- `RawData`: the raw readings, `ReadRawData`, and its inverse `PackRaw`.
- `Compensation`: the three formulas.

The bus reads are not modelled: the register blocks are byte-sequence
parameters. `_compensate_temperature` is split into two functions:

- `TFine`, the fine temperature `t_fine`.
- `CentiTemp`, the integer computed just before the division by 100.0.

Pressure and humidity take `t_fine` as an integer parameter.

## Model

| member | source | states |
|---|---|---|
| PyInt.Shl | bme280.py:56-57 | `x << n` is divisible by 2^n and its quotient by 2^n is x |
| PyInt.Shr | bme280.py:68-69 | `x >> n` is the largest r with 2^n * r <= x, for negative x too |
| PyInt.FloorDiv | bme280.py:84 | `a // b` is the floor quotient: for b > 0, b*q <= a < b*q + b; for b < 0, the mirrored bounds |
| PyInt.FloorDivIsEuclidean | bme280.py:84 | Python's `//` equals Dafny's Euclidean `/` exactly when the divisor is positive or divides the dividend |
| PyInt.FloorDivIsTruncDiv | bme280.py:84 | in contrast to C's truncating `/`: floor and truncating division agree exactly when the division is exact or a and b have the same sign |
| PyInt.BitAnd | bme280.py:93-94 | `a & b` on non-negative operands lies between 0 and each operand |
| PyInt.BitOr | bme280.py:62-64 | bitwise or of non-negative operands is at least each operand and at most their sum |
| PyInt.AndLowMask | bme280.py:101 | `x & (2^k - 1) == x mod 2^k` for every x, negative included |
| PyInt.OrDisjoint | bme280.py:62-64 | bitwise or of x and b is x + b when the low k bits of x are zero and 0 <= b < 2^k |
| LittleEndian.Unsigned | bme280.py:37 | the unsigned little-endian value of n bytes is below 256^n |
| LittleEndian.FromBytes | bme280.py:37-58 | `int.from_bytes(s, 'little', signed)`: unsigned in [0, 256^n), signed in [-256^n/2, 256^n/2), negative exactly when the top byte is >= 128, and the unsigned value less 256^n if anything |
| LittleEndian.TopBitBounds | bme280.py:38 | the last byte is >= 128 exactly when the unsigned value reaches 256^n / 2 |
| LittleEndian.MostSignificantByte | bme280.py:37 | the last byte has weight 256^(n-1) |
| LittleEndian.Concat | bme280.py:37 | the value of the concatenation a + b is value(a) + 256^len(a) * value(b) |
| LittleEndian.UnsignedPair | bme280.py:37 | two bytes decode unsigned to lo + 256*hi |
| LittleEndian.SignedPair | bme280.py:38 | two bytes decode signed to lo + 256*hi, less 65536 when hi >= 128 |
| LittleEndian.SingleByte | bme280.py:55 | one byte decodes unsigned to itself and signed to itself less 256 when it is >= 128 |
| Calibration.UnsignedWord | bme280.py:37-40 | dig_T1 and dig_P1: b0 + 256*b1, in [0, 65535] |
| Calibration.SignedWord | bme280.py:38-48 | dig_T2..T3, dig_P2..P9 and dig_H2: the two's-complement word, in [-32768, 32767] |
| Calibration.LowNibblePair | bme280.py:56 | dig_H4 == 16*b3 + b4 % 16, in [0, 4095] |
| Calibration.HighNibblePair | bme280.py:57 | dig_H5 == 16*b5 + b4 / 16, in [0, 4095] |
| Calibration.NibbleFacts | bme280.py:56-57 | `b << 4 == 16*b`, `b4 & 0xF == b4 % 16` and `(b4 >> 4) & 0xF == b4 / 16` |
| Calibration.SignedByteOf | bme280.py:58 | dig_H6 is the signed byte, in [-128, 127] |
| Calibration.UnsignedByteOf | bme280.py:55 | dig_H3 is the byte itself |
| Calibration.Decode | bme280.py:35-58 | every decoded coefficient lies in the range of its encoding |
| Calibration.DecodeFields | bme280.py:37-58 | each of the eighteen coefficients as a closed formula of the register bytes |
| Calibration.WordRoundTrip | bme280.py:37-48 | a 16-bit value split into low and high byte decodes back to itself, unsigned or signed |
| Calibration.BytesRoundTrip | bme280.py:37-48 | two bytes decoded as a word and split again give back the two bytes |
| Calibration.ByteCoefficientsRoundTrip | bme280.py:52-58 | dig_H1, dig_H3 and dig_H6 survive encoding and decoding |
| Calibration.NibbleSplit | bme280.py:56-57 | the shared byte 16*(h5 % 16) + h4 % 16 holds h4's low nibble below h5's low nibble |
| Calibration.NibblesRoundTrip | bme280.py:56-57 | dig_H4 and dig_H5 packed into three bytes decode back to themselves |
| Calibration.NibbleBytesRoundTrip | bme280.py:56-57 | the three nibble-sharing bytes are recovered from dig_H4 and dig_H5 |
| Calibration.SignedByteFits | bme280.py:58 | a signed byte reduced modulo 256 is the byte again |
| Calibration.Encode | bme280.py:35-58 | the register contents holding given coefficients have the lengths 24, 1 and 7 the driver reads |
| Calibration.TempPressRoundTrip | bme280.py:37-48 | the twelve temperature and pressure coefficients are decoded back from their encoding |
| Calibration.HumidityRoundTrip | bme280.py:52-58 | the six humidity coefficients are decoded back from their encoding |
| Calibration.DecodeEncode | bme280.py:35-58 | decoding the encoding of in-range coefficients gives them back: each has exactly one encoding |
| Calibration.TempPressBytesRoundTrip | bme280.py:37-48 | the 24 bytes of the 0x88 block are re-encoded from their decoding |
| Calibration.HumidityBytesRoundTrip | bme280.py:52-58 | the 1 + 7 humidity bytes are re-encoded from their decoding |
| Calibration.EncodeDecode | bme280.py:35-58 | encoding the decoding of any register contents gives them back: no bit of the 32 bytes is lost |
| RawData.Reading20 | bme280.py:62-63 | a 20-bit reading is 4096*msb + 16*lsb + xlsb / 16, in [0, 2^20) |
| RawData.Reading16 | bme280.py:64 | the humidity reading is 256*msb + lsb, in [0, 2^16) |
| RawData.ReadRawData | bme280.py:60-65 | the three readings in their bounds, each as a sum of its registers' disjoint bit fields |
| RawData.PackRaw | bme280.py:60-65 | registers carrying a sample: 8 bytes, with the unused low nibbles zero |
| RawData.Reading20RoundTrip | bme280.py:62-63 | a 20-bit reading split into its three registers reads back to itself |
| RawData.UnpackPack | bme280.py:60-65 | unpacking the registers that carry a sample gives the sample back |
| RawData.Reading20Digits | bme280.py:62-63 | msb == v / 4096, lsb == (v / 16) % 256 and the high nibble of xlsb == v % 16 |
| RawData.PackUnpack | bme280.py:60-65 | packing the unpacked sample gives back the eight registers with only the low nibbles of data[2] and data[5] cleared |
| RawData.LowNibblesIgnored | bme280.py:62-63 | registers that differ only in the low nibbles of data[2] and data[5] give the same sample |
| Compensation.TemperatureLinear | bme280.py:68 | var1 is 0 when raw >> 3 equals dig_T1 << 1, and lies strictly inside (-2^21, 2^21) for in-range coefficients and a 20-bit reading |
| Compensation.TemperatureQuadratic | bme280.py:69 | var2 has the sign of dig_T3, is 0 when raw >> 4 equals dig_T1, and lies strictly inside (-2^21, 2^21) for in-range coefficients and a 20-bit reading |
| Compensation.TFine | bme280.py:68-70 | for in-range coefficients and a 20-bit reading, t_fine lies strictly inside (-2^22, 2^22) |
| Compensation.CentiTemp | bme280.py:71 | the temperature is floor((5*t_fine + 128) / 256), i.e. 5*t_fine / 256 rounded to nearest, halves up |
| Compensation.Temperature | bme280.py:67-71 | the temperature is within half a unit of 5*t_fine/256 |
| Compensation.CentiTempMonotone | bme280.py:71 | a larger t_fine never gives a lower temperature |
| Compensation.TemperatureCoefficientsOnly | bme280.py:68-71 | t_fine and the temperature depend on dig_T1..T3 and the raw temperature only |
| Compensation.PressureSubtrahend | bme280.py:75-78 | var2 is dig_P4 * 2^35 at the reference t_fine 128000, and 0 when dig_P4..P6 are all 0 |
| Compensation.PressureOffset | bme280.py:79 | the correction of the divisor is 0 at the reference t_fine 128000 and when dig_P2 and dig_P3 are both 0 |
| Compensation.PressureDenominator | bme280.py:75-80 | the divisor is 0 whenever dig_P1 is 0, non-negative when dig_P1 > 0 and the correction at line 79 is non-negative, and dig_P1 * 2^14 at t_fine 128000 |
| Compensation.PressureQuotient | bme280.py:83-84 | the quotient at line 84 is the floor quotient for a divisor of either sign |
| Compensation.PressureRefine | bme280.py:85-87 | with dig_P8 and dig_P9 both 0, the result is the quotient divided by 256, rounded down, plus dig_P7 * 16 |
| Compensation.Pressure | bme280.py:74-87 | the pressure is exactly 0 when the divisor is 0, in particular whenever dig_P1 is 0 |
| Compensation.ZeroRegistersGiveZeroPressure | bme280.py:80-82 | all-zero calibration registers give pressure 0 for every reading and temperature |
| Compensation.NegativeDenominatorExists | bme280.py:68-84 | for some in-range coefficients and the t_fine that TFine gives for the largest 20-bit reading (2097072), the divisor at line 84 is negative |
| Compensation.WorkedExample | bme280.py:67-87 | one calibration followed through: t_fine 128422, temperature 2508 (25.08 C), pressure 25767233 (Q24.8 Pa) |
| Compensation.HumidityBase | bme280.py:91-92 | var2 is dig_H4 * 2^24 plus dig_H5 * (t_fine - 76800) / 1024 rounded down; exactly dig_H4 * 2^24 at t_fine 76800 |
| Compensation.HumidityByte | bme280.py:93 | `(var2 >> 12) & 0xFF` is bits 12..19 of var2, in [0, 255], for either sign |
| Compensation.HumidityField | bme280.py:94 | var4 is 4096*(var2 mod 256) + raw mod 4096, in [0, 2^20) |
| Compensation.HumidityCombine | bme280.py:95-101 | `(var7 + var4) >> 15` is 0 whenever var4 is 0 |
| Compensation.HumidityUnmasked | bme280.py:90-101 | the unmasked value is 0 when the low byte of var2 and the low 12 bits of the reading are both 0 |
| Compensation.HumidityMasked | bme280.py:101 | the masked value is the unmasked value mod 256, in [0, 255] |
| Compensation.Clamp | bme280.py:102 | `min(100, max(0, h))` is in [0, 100], is h on [0, 100], 0 below and 100 above |
| Compensation.ClampMonotone | bme280.py:102 | the clamp preserves order |
| Compensation.Humidity | bme280.py:90-102 | the humidity is in [0, 100] for every input: the masked value when it is at most 100, else 100 |
| Compensation.HumidityClamped | bme280.py:90-102 | the unmasked value clamped to [0, 100]: it saturates at 100 above and at 0 below |
| Compensation.MaskHarmlessInRange | bme280.py:101-102 | when the unmasked value is in [0, 100], both humidity functions return it unchanged |
| Compensation.HumidityIgnoresHighRawBits | bme280.py:94 | only the low 12 bits of the 16-bit raw humidity affect the result |
| Compensation.MaskWrapsAboveHundred | bme280.py:101-102 | in-range coefficients where the unmasked value is 351: the driver returns 95, the clamp would give 100 |

## Left out

- I2C access is not modelled (`_read_registers`, `_write_register_byte`, bme280.py:29-33). Neither are the control-register writes in `read()` (bme280.py:105-107). These are hardware calls; register contents are parameters instead.
- The orchestration in `read()` (bme280.py:104-117) is not modelled. It re-reads calibration on every call. It passes the float returned by `_compensate_temperature` as `t_fine` (bme280.py:112-115). Under Python semantics, the first `<<` on that float (bme280.py:77) raises a TypeError. Pressure and humidity here take the integer `t_fine` instead.
- The float scalings `/ 100.0` (bme280.py:71) and `/ 256.0` (bme280.py:88) are not modelled, because Dafny has no IEEE floats. The integers computed just before them are returned.
- Calibration.Decode does not capture the in-place update of the object's eighteen `dig_*` fields (bme280.py:10-27, 37-58). It returns them as one value.
- main.py is not part of this model. It is network and broker plumbing over libraries that are not available here.
- Compensation.Pressure: the contract states the zero guard only. The value in the non-degenerate case is the formula itself. Its floor quotient is stated by Compensation.PressureQuotient.
- Compensation.TFine: the contract states the range of t_fine, not its value. The value is the formula at bme280.py:68-70.
- Compensation.PressureDenominator: the contract states when the divisor is zero or non-negative and its value at t_fine 128000, not its value elsewhere.
- Compensation.TemperatureLinear: the contract states where var1 vanishes and its range, not its value elsewhere.
- Compensation.TemperatureQuadratic: the contract states the sign of var2, where it vanishes and its range, not its value elsewhere.
- Compensation.PressureOffset: the contract states where the correction vanishes, not its value elsewhere.
- Compensation.PressureSubtrahend: the contract states its value at t_fine 128000 and when it vanishes, not its value elsewhere.
- Compensation.PressureRefine: the contract states the value only when dig_P8 and dig_P9 are 0.
- Compensation.HumidityCombine: the contract states the value only when var4 is 0.
- Compensation.HumidityUnmasked: the contract states the value only when var4 is 0; Compensation.MaskWrapsAboveHundred pins one other value.

## Findings

| source | as written | input that shows it | evidently intended | confidence | as-written member | corrected member |
|---|---|---|---|---|---|---|
| bme280.py:101-102 | `humidity = ((var7 + var4) >> 15) & 0xFF` and then `min(100, max(0, humidity))`: the mask reduces the value mod 256 before the clamp, so `max(0, ·)` never acts and values above 255 wrap | dig_H1..H6 = 217, 3, 242, 677, 2610, 120, raw humidity 35218, t_fine 128422: the unmasked value is 351, the driver returns 95 | clamp the unmasked value to [0, 100], giving 100 here | not executed | Compensation.Humidity, Compensation.MaskWrapsAboveHundred | Compensation.HumidityClamped |
