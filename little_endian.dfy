/** Python's `int.from_bytes(bs, 'little', signed=...)`, the decoding the
    driver applies to every calibration register block. */
module LittleEndian {

  /** One register byte; Python `bytes` elements lie in [0, 255]. */
  type Byte = b: int | 0 <= b < 256

  /** 256^n, the number of values n bytes can hold. */
  function Pow256(n: nat): (r: nat)
    ensures r >= 1
  {
    if n == 0 then 1 else 256 * Pow256(n - 1)
  }

  /** The unsigned little-endian value of s: s[0] is the least significant byte. */
  function Unsigned(s: seq<Byte>): (r: nat)
    ensures r < Pow256(|s|)
  {
    if s == [] then 0 else s[0] + 256 * Unsigned(s[1..])
  }

  /** `int.from_bytes(s, 'little', signed=signed)`: the signed reading is the
      two's-complement one, which subtracts 256^|s| when the top bit of the
      last (most significant) byte is set. */
  function FromBytes(s: seq<Byte>, signed: bool): (r: int)
    ensures !signed || s == [] ==> 0 <= r < Pow256(|s|)
    ensures signed && s != [] ==> -(Pow256(|s|) as int) / 2 <= r < Pow256(|s|) / 2
    ensures r == Unsigned(s) || r == Unsigned(s) - Pow256(|s|)
    ensures signed && s != [] ==> (r < 0 <==> s[|s| - 1] >= 128)
  {
    var u := Unsigned(s);
    if s == [] then u
    else
      TopBitBounds(s);
      if signed && s[|s| - 1] >= 128 then u - Pow256(|s|) else u
  }

  /** The top bit of the last byte decides whether the unsigned value reaches
      half of 256^|s|. */
  lemma TopBitBounds(s: seq<Byte>)
    requires s != []
    ensures s[|s| - 1] >= 128 <==> Pow256(|s|) / 2 <= Unsigned(s)
  {
    MostSignificantByte(s);
    var p: int, last: int, pre: int := Pow256(|s| - 1), s[|s| - 1], Unsigned(s[..|s| - 1]);
    assert 0 <= pre < p;
    assert Pow256(|s|) / 2 == 128 * p;
    ScaledDigit(pre, last, p);
  }

  lemma ScaledDigit(pre: int, last: int, p: int)
    requires 0 <= pre < p && 0 <= last
    ensures last >= 128 <==> 128 * p <= pre + last * p
  {
    if last >= 128 {
      assert (last - 128) * p >= 0;
      assert (last - 128) * p == last * p - 128 * p;
    } else {
      assert (127 - last) * p >= 0;
      assert (127 - last) * p == 127 * p - last * p;
    }
  }

  /** The last byte carries weight 256^(|s|-1). */
  lemma MostSignificantByte(s: seq<Byte>)
    requires s != []
    ensures Unsigned(s) == Unsigned(s[..|s| - 1]) + s[|s| - 1] * Pow256(|s| - 1)
    ensures Pow256(|s|) == 256 * Pow256(|s| - 1)
  {
    var pre, last := s[..|s| - 1], s[|s| - 1];
    var p: int := Pow256(|pre|);
    calc {
      Unsigned(s);
      { assert s == pre + [last]; }
      Unsigned(pre + [last]);
      { Concat(pre, [last]); }
      Unsigned(pre) + p * Unsigned([last]);
      { assert [last][1..] == []; }
      Unsigned(pre) + p * last;
    }
  }

  /** Appending bytes adds their value shifted past the bytes already there. */
  lemma {:induction false} Concat(a: seq<Byte>, b: seq<Byte>)
    ensures Unsigned(a + b) == Unsigned(a) + Pow256(|a|) * Unsigned(b)
  {
    if a != [] {
      var ab := a + b;
      assert ab[0] == a[0] && ab[1..] == a[1..] + b;
      Concat(a[1..], b);
      var p: int, u: int, rest: int := Pow256(|a| - 1), Unsigned(b), Unsigned(a[1..]);
      assert Unsigned(ab) == a[0] + 256 * (rest + p * u);
      ShiftInto(a[0], rest, p, u);
      assert Pow256(|a|) == 256 * p;
    } else {
      assert a + b == b;
      assert Pow256(0) == 1;
    }
  }

  lemma ShiftInto(x: int, rest: int, p: int, u: int)
    ensures x + 256 * (rest + p * u) == x + 256 * rest + (256 * p) * u
  {
  }

  /** Two bytes, unsigned: lo + 256 * hi, in [0, 65535]. */
  lemma UnsignedPair(lo: Byte, hi: Byte)
    ensures FromBytes([lo, hi], false) == lo + 256 * hi
  {
    assert [lo, hi][1..] == [hi];
    assert [hi][1..] == [];
    assert Unsigned([hi]) == hi;
    assert Unsigned([lo, hi]) == lo + 256 * hi;
  }

  /** Two bytes, signed: lo + 256 * hi, less 65536 when the top bit of hi is set. */
  lemma SignedPair(lo: Byte, hi: Byte)
    ensures FromBytes([lo, hi], true) == lo + 256 * hi - (if hi >= 128 then 65536 else 0)
  {
    UnsignedPair(lo, hi);
    assert Pow256(2) == 65536;
  }

  /** One byte, signed: b, less 256 when its top bit is set. */
  lemma SingleByte(b: Byte)
    ensures FromBytes([b], false) == b
    ensures FromBytes([b], true) == b - (if b >= 128 then 256 else 0)
  {
    assert [b][1..] == [];
  }
}
