/** Python's integer operators, as the BME280 driver uses them, on Dafny's
    unbounded integers.

    Python integers are unbounded two's-complement numbers: `x << n` multiplies
    by 2^n, `x >> n` is an arithmetic shift (it rounds toward minus infinity),
    `a // b` is floor division for either sign of `b`, and `&`, `|` work bit by
    bit on the infinite two's-complement expansion.  Dafny's `/` and `%` are
    Euclidean: they agree with floor division only for a positive divisor.
    `BitAnd` and `BitOr` are defined bit by bit, independently of arithmetic,
    and the lemmas below connect them to `%` and `+`. */
module PyInt {

  /** 2^n. */
  function Pow2(n: nat): (r: nat)
    ensures r >= 1
  {
    if n == 0 then 1 else 2 * Pow2(n - 1)
  }

  /** Python `x << n`. */
  function Shl(x: int, n: nat): (r: int)
    ensures r % Pow2(n) == 0
    ensures r / Pow2(n) == x
  {
    DivModUnique(x * Pow2(n), Pow2(n), x, 0);
    x * Pow2(n)
  }

  /** Python `x >> n`: the largest integer not above x / 2^n. */
  function Shr(x: int, n: nat): (r: int)
    ensures Pow2(n) * r <= x < Pow2(n) * r + Pow2(n)
  {
    x / Pow2(n)
  }

  /** Python `a // b`: the largest integer not above a / b.  Python raises
      ZeroDivisionError for b == 0; every caller here has excluded it. */
  function FloorDiv(a: int, b: int): (q: int)
    requires b != 0
    ensures b > 0 ==> b * q <= a < b * q + b
    ensures b < 0 ==> b * q + b < a <= b * q
  {
    if b > 0 then a / b else (-a) / (-b)
  }

  function Abs(x: int): nat
  {
    if x < 0 then -x else x
  }

  /** Python `a & b`, one bit at a time.  Once both operands are 0 or -1
      (all their remaining bits equal) the answer is read off directly. */
  function BitAnd(a: int, b: int): (r: int)
    ensures 0 <= a ==> 0 <= r <= a
    ensures 0 <= b ==> 0 <= r <= b
    decreases Abs(a) + Abs(b)
  {
    if (a == 0 || a == -1) && (b == 0 || b == -1) then
      (if a == -1 && b == -1 then -1 else 0)
    else
      2 * BitAnd(a / 2, b / 2) + (if a % 2 == 1 && b % 2 == 1 then 1 else 0)
  }

  /** Python `a | b`, one bit at a time. */
  function BitOr(a: int, b: int): (r: int)
    ensures 0 <= a && 0 <= b ==> a <= r && b <= r && r <= a + b
    decreases Abs(a) + Abs(b)
  {
    if (a == 0 || a == -1) && (b == 0 || b == -1) then
      (if a == -1 || b == -1 then -1 else 0)
    else
      2 * BitOr(a / 2, b / 2) + (if a % 2 == 1 || b % 2 == 1 then 1 else 0)
  }

  /** Euclidean quotient and remainder are unique. */
  lemma DivModUnique(x: int, d: int, q: int, r: int)
    requires d > 0 && 0 <= r < d && x == d * q + r
    ensures x / d == q && x % d == r
  {
    var q', r' := x / d, x % d;
    assert d * (q - q') == r' - r;
    if q > q' {
      MulAtLeast(d, q - q');
    } else if q < q' {
      MulAtLeast(d, q' - q);
    }
  }

  lemma MulAtLeast(d: int, k: int)
    requires d > 0 && k >= 1
    ensures d * k >= d
  {
  }

  /** Splitting the lowest bit off a remainder by an even modulus. */
  lemma {:induction false} ModDouble(x: int, p: int)
    requires p > 0
    ensures x % (2 * p) == 2 * ((x / 2) % p) + x % 2
  {
    var q2, r2 := (x / 2) / p, (x / 2) % p;
    assert x == 2 * (x / 2) + x % 2;
    assert x / 2 == p * q2 + r2;
    assert x == (2 * p) * q2 + (2 * r2 + x % 2);
    DivModUnique(x, 2 * p, q2, 2 * r2 + x % 2);
  }

  lemma {:induction false} AndZero(x: int)
    ensures BitAnd(x, 0) == 0
    decreases Abs(x)
  {
    if x != 0 && x != -1 {
      AndZero(x / 2);
    }
  }

  lemma {:induction false} OrZero(x: int)
    ensures BitOr(x, 0) == x
    decreases Abs(x)
  {
    if x != 0 && x != -1 {
      OrZero(x / 2);
    }
  }

  /** `x & (2^k - 1)` keeps the low k bits, for negative x as well: it is x
      modulo 2^k.  This is why `x & 0xFF` on a negative x lies in [0, 255]. */
  lemma {:induction false} AndLowMask(x: int, k: nat)
    ensures BitAnd(x, Pow2(k) - 1) == x % Pow2(k)
    decreases k
  {
    if k == 0 {
      AndZero(x);
    } else {
      var p := Pow2(k - 1);
      var m := Pow2(k) - 1;
      assert m / 2 == p - 1 && m % 2 == 1;
      AndLowMask(x / 2, k - 1);
      ModDouble(x, p);
    }
  }

  /** `|` of bit fields that do not overlap is `+`: when the low k bits of x are
      zero and 0 <= b < 2^k, `x | b == x + b`. */
  lemma {:induction false} OrDisjoint(x: int, b: int, k: nat)
    requires x % Pow2(k) == 0
    requires 0 <= b < Pow2(k)
    ensures BitOr(x, b) == x + b
    decreases k
  {
    if k == 0 {
      OrZero(x);
    } else {
      var p := Pow2(k - 1);
      ModDouble(x, p);
      assert x % 2 == 0 && (x / 2) % p == 0;
      if x == 0 && b == 0 {
      } else {
        OrDisjoint(x / 2, b / 2, k - 1);
      }
    }
  }

  /** Dafny's Euclidean `/` is Python's `//` exactly when the divisor is
      positive or divides the dividend. */
  lemma FloorDivIsEuclidean(a: int, b: int)
    requires b != 0
    ensures FloorDiv(a, b) == a / b <==> b > 0 || a % b == 0
  {
    if b < 0 {
      var q, r := a / b, a % b;
      assert a == b * q + r;
      if r == 0 {
        DivModUnique(-a, -b, q, 0);
      } else {
        DivModUnique(-a, -b, q - 1, -b - r);
      }
    }
  }

  // ------------------------------------------------------------------------
  // Contrast with C.  The sensor vendor's reference formulas are C code, where
  // `/` truncates toward zero; the driver's `//` at bme280.py:84 floors.  The
  // members from here to the end of the module state where the two disagree
  // and take no part in the model of the driver.

  /** C's `a / b` (truncation toward zero).  Not an operator of the driver:
      it only serves as the contrast for the division at bme280.py:84. */
  function TruncDiv(a: int, b: int): (q: int)
    requires b != 0
    ensures Abs(b) * Abs(q) <= Abs(a) < Abs(b) * Abs(q) + Abs(b)
    ensures q == 0 || (q > 0 <==> (a > 0) == (b > 0))
  {
    var m := Abs(a) / Abs(b);
    if (a >= 0) == (b > 0) then m else -m
  }

  /** Floor division and C's truncating division agree exactly when the
      division is exact or the true quotient is not negative. */
  lemma FloorDivIsTruncDiv(a: int, b: int)
    requires b != 0
    ensures FloorDiv(a, b) == TruncDiv(a, b) <==> a % b == 0 || (a > 0) == (b > 0)
  {
    if (a >= 0) == (b > 0) {
      SameSignDivisions(a, b);
    } else {
      OppositeSignDivisions(a, b);
    }
  }

  lemma SameSignDivisions(a: int, b: int)
    requires b != 0 && (a >= 0) == (b > 0)
    ensures FloorDiv(a, b) == TruncDiv(a, b)
    ensures a == 0 || (a > 0) == (b > 0)
  {
    if b > 0 {
      assert Abs(a) == a && Abs(b) == b;
    } else {
      assert Abs(a) == -a && Abs(b) == -b;
    }
  }

  lemma OppositeSignDivisions(a: int, b: int)
    requires b != 0 && (a >= 0) != (b > 0)
    ensures FloorDiv(a, b) == TruncDiv(a, b) <==> a % b == 0
  {
    EuclideanByMagnitude(a, b);
    if a >= 0 {
      NonNegativeOverNegative(a, -b);
    } else {
      NegativeOverPositive(-a, b);
    }
  }

  lemma NonNegativeOverNegative(a: int, d: int)
    requires a >= 0 && d > 0
    ensures FloorDiv(a, -d) == TruncDiv(a, -d) <==> a % d == 0
  {
    var m, r := a / d, a % d;
    assert TruncDiv(a, -d) == -m;
    assert FloorDiv(a, -d) == (-a) / d;
    if r == 0 {
      DivModUnique(-a, d, -m, 0);
    } else {
      DivModUnique(-a, d, -m - 1, d - r);
    }
  }

  lemma NegativeOverPositive(n: int, d: int)
    requires d > 0 && n > 0
    ensures FloorDiv(-n, d) == TruncDiv(-n, d) <==> (-n) % d == 0
  {
    var m, r := n / d, n % d;
    assert TruncDiv(-n, d) == -m;
    assert FloorDiv(-n, d) == (-n) / d;
    if r == 0 {
      DivModUnique(-n, d, -m, 0);
    } else {
      DivModUnique(-n, d, -m - 1, d - r);
    }
  }

  lemma EuclideanByMagnitude(a: int, b: int)
    requires b != 0
    ensures a % b == a % Abs(b)
  {
    if b < 0 {
      assert a == b * (a / b) + a % b;
      DivModUnique(a, -b, -(a / b), a % b);
    }
  }
}
