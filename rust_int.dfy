/** Rust's fixed-width integers and its truncating integer division, as used by
    the timer's interval arithmetic. Dafny's `/` and `%` are Euclidean; Rust's
    round the quotient toward zero and give the remainder the sign of the
    dividend, so they are written out here. */
module RustInt {

  const I32Min: int := -0x8000_0000
  const I32Max: int := 0x7FFF_FFFF
  const I64Min: int := -0x8000_0000_0000_0000
  const I64Max: int := 0x7FFF_FFFF_FFFF_FFFF

  /** `c_int`, a 32-bit signed integer on the platforms the timer targets. */
  type CInt = x: int | I32Min <= x <= I32Max

  /** The value fits in an `i64`. */
  predicate InI64(x: int) {
    I64Min <= x <= I64Max
  }

  function Abs(x: int): (m: nat)
    ensures m == x || m == -x
  {
    if x < 0 then -x else x
  }

  /** Rust's `a / b` on signed integers: the exact quotient rounded toward zero.
      For `b == 0` Rust panics, so the divisor must be non-zero. */
  function TruncDiv(a: int, b: int): (q: int)
    requires b != 0
    ensures Abs(q) * Abs(b) <= Abs(a) < (Abs(q) + 1) * Abs(b)
    ensures q == 0 || (q < 0 <==> (a < 0) != (b < 0))
  {
    var m := Abs(a) / Abs(b);
    QuotientBounds(Abs(a), Abs(b));
    if (a < 0) == (b < 0) then m else -m
  }

  /** The Euclidean quotient of naturals brackets the dividend between two
      consecutive multiples of the divisor. */
  lemma QuotientBounds(n: nat, d: nat)
    requires d > 0
    ensures (n / d) * d <= n < (n / d + 1) * d
  {
    var q := n / d;
    assert d * q + n % d == n;
    assert (q + 1) * d == q * d + d;
  }

  /** Rust's `a % b` on signed integers: the remainder that goes with `TruncDiv`,
      carrying the sign of the dividend. */
  function TruncRem(a: int, b: int): (r: int)
    requires b != 0
    ensures Abs(r) < Abs(b)
    ensures r == 0 || (r < 0 <==> a < 0)
  {
    var m := Abs(a) % Abs(b);
    if a < 0 then -m else m
  }

  /** The quotient and the remainder recombine to the dividend. */
  lemma DivisionIdentity(a: int, b: int)
    requires b != 0
    ensures b * TruncDiv(a, b) + TruncRem(a, b) == a
  {
    var m: int, n: int := Abs(a) / Abs(b), Abs(a) % Abs(b);
    var p: int := Abs(b) * m;
    assert p + n == Abs(a);
    assert TruncDiv(a, b) == if (a < 0) == (b < 0) then m else -m;
    assert TruncRem(a, b) == if a < 0 then -n else n;
    // `b * m` is `p` or `-p`, and `b * -m` is its negation; the rest is linear.
    MulNegated(Abs(b), m);
    MulNegated(b, m);
    if b < 0 {
      assert -b == Abs(b);
      assert b * m == -p;
    } else {
      assert b * m == p;
    }
    assert b * -m == -(b * m);
  }

  /** Negating one factor negates the product. */
  lemma MulNegated(x: int, m: int)
    ensures (-x) * m == -(x * m)
    ensures x * (-m) == -(x * m)
  {
  }

  /** Multiplication distributes over a difference. */
  lemma MulDifference(b: int, q: int, q': int)
    ensures b * (q - q') == b * q - b * q'
  {
  }

  /** Truncating division is the only quotient/remainder pair that recombines to
      the dividend, keeps the remainder smaller than the divisor, and gives the
      remainder the dividend's sign: an independent characterisation of what
      Rust's `/` and `%` compute. */
  lemma {:induction false} TruncDivUnique(a: int, b: int, q: int, r: int)
    requires b != 0
    requires b * q + r == a
    requires Abs(r) < Abs(b)
    requires r == 0 || (r < 0 <==> a < 0)
    ensures q == TruncDiv(a, b) && r == TruncRem(a, b)
  {
    var q', r' := TruncDiv(a, b), TruncRem(a, b);
    DivisionIdentity(a, b);
    assert b * q' + r' == a;
    // Both remainders lie on the dividend's side of zero, so they differ by less than |b|.
    assert Abs(r - r') < Abs(b);
    MulDifference(b, q, q');
    assert b * (q - q') == r' - r;
    if q != q' {
      AbsProductAtLeast(b, q - q');
      assert false;
    }
  }

  /** A non-zero multiple of `b` is at least `|b|` in magnitude. */
  lemma AbsProductAtLeast(b: int, k: int)
    requires k != 0
    ensures Abs(b * k) >= Abs(b)
  {
    if k > 0 {
      if b >= 0 { assert b * k >= b * 1; } else { assert b * k <= b * 1; }
    } else {
      if b >= 0 { assert b * k <= b * -1; } else { assert b * k >= b * -1; }
    }
  }

  /** On a non-negative dividend and a positive divisor, truncating and
      Euclidean division agree. */
  lemma TruncDivAgreesWithEuclidean(a: int, b: int)
    requires a >= 0 && b > 0
    ensures TruncDiv(a, b) == a / b && TruncRem(a, b) == a % b
  {
  }

  /** Negating the divisor negates the quotient and keeps the remainder. */
  lemma TruncDivNegatedDivisor(a: int, b: int)
    requires b != 0
    ensures TruncDiv(a, -b) == -TruncDiv(a, b)
    ensures TruncRem(a, -b) == TruncRem(a, b)
  {
  }

  /** Negating the dividend negates both the quotient and the remainder. */
  lemma TruncDivNegatedDividend(a: int, b: int)
    requires b != 0
    ensures TruncDiv(-a, b) == -TruncDiv(a, b)
    ensures TruncRem(-a, b) == -TruncRem(a, b)
  {
  }
}
