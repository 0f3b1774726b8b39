/** Integer facts shared by the byte and the decimal encodings. */
module Arith {

  /** b^k. */
  function Pow(b: nat, k: nat): (r: nat)
    ensures b >= 1 ==> r >= 1
  {
    if k == 0 then 1 else b * Pow(b, k - 1)
  }

  /** A positive multiple of d is at least d. */
  lemma MulAtLeast(d: int, e: int)
    requires d > 0 && e >= 1
    ensures d * e >= d
  {
    assert d * e == d * (e - 1) + d;
  }

  /** Multiplying by a non-negative factor keeps an ordering. */
  lemma MulMonotone(b: int, m: int, n: int)
    requires b >= 0 && m <= n
    ensures b * m <= b * n
  {
    var e := n - m;
    assert b * n == b * m + b * e;
    assert b * e >= 0;
  }

  /** Division with remainder has a unique answer. */
  lemma DivModUnique(v: int, d: int, q: int, r: int)
    requires d > 0 && v == d * q + r && 0 <= r < d
    ensures v / d == q && v % d == r
  {
    var q', r' := v / d, v % d;
    assert d * q + r == d * q' + r';
    if q > q' {
      assert d * q == d * (q - q') + d * q';
      MulAtLeast(d, q - q');
      assert false;
    } else if q < q' {
      assert d * q' == d * (q' - q) + d * q;
      MulAtLeast(d, q' - q);
      assert false;
    }
  }

  /** v = (b * c) * k + (b * m + r) when v = b * q + r and q = c * k + m, with b * m + r below b * c. */
  lemma NestedDivision(v: nat, b: nat, c: nat)
    requires b >= 1 && c >= 1
    ensures v / (b * c) == v / b / c
    ensures v % (b * c) == b * (v / b % c) + v % b
  {
    var q, r := v / b, v % b;
    var k, m := q / c, q % c;
    assert v == b * q + r;
    assert q == c * k + m;
    assert b * q == b * (c * k) + b * m;
    assert b * (c * k) == (b * c) * k;
    MulMonotone(b, m, c - 1);
    assert b * (c - 1) == b * c - b;
    DivModUnique(v, b * c, k, b * m + r);
  }

  /** Peeling the lowest base-b digit off a remainder modulo b * p. */
  lemma ModSplit(v: nat, b: nat, p: nat)
    requires b >= 1 && p >= 1
    ensures (v / b % p) * b + v % b == v % (b * p)
  {
    NestedDivision(v, b, p);
  }

  /** Dividing twice is dividing by the product. */
  lemma DivDiv(v: nat, b: nat, c: nat)
    requires b >= 1 && c >= 1
    ensures v / b / c == v / (b * c)
  {
    NestedDivision(v, b, c);
  }

  /** A number below b * p has quotient below p. */
  lemma DivBelow(n: nat, b: nat, p: nat)
    requires b >= 1 && n < b * p
    ensures n / b < p
  {
    if n / b >= p {
      assert false;
    }
  }

  /** Dividing a number at least b by b leaves a positive quotient smaller than the number. */
  lemma DivShrinks(n: nat, b: nat)
    requires b >= 2 && n >= b
    ensures 1 <= n / b < n
  {
    var q := n / b;
    assert n == b * q + n % b;
    if q == 0 {
      assert false;
    }
    assert b * q == q + (b - 1) * q;
    assert (b - 1) * q >= 1 by {
      MulAtLeast(q, b - 1);
    }
  }

  /** Quotient and remainder recombine to the dividend. */
  lemma DivModSum(n: nat, b: nat)
    requires b >= 1
    ensures (n / b) * b + n % b == n
  {
  }

  /** (x * p + y) * r == x * (p * r) + y * r. */
  lemma ShiftAdd(x: nat, p: nat, y: nat, r: nat)
    ensures (x * p + y) * r == x * (p * r) + y * r
  {
  }
}
