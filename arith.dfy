/** Facts about integer multiplication, division and remainder on
    non-negative operands, kept in small lemmas so that each proof that needs
    one sees only the fact it uses. */
module Arith {

  /** A non-zero multiple of m > 0 is at least m in size. */
  lemma MulMono(a: int, m: int)
    requires m > 0
    ensures a >= 1 ==> a * m >= m
    ensures a <= -1 ==> a * m <= -m
  {
  }

  /** Multiplication distributes over addition and subtraction. */
  lemma MulDistrib(a: int, b: int, m: int)
    ensures (a + b) * m == a * m + b * m
    ensures (a - b) * m == a * m - b * m
  {
  }

  /** Multiplying by m >= 0 keeps order. */
  lemma MulLe(b: int, c: int, m: int)
    requires b <= c && m >= 0
    ensures b * m <= c * m
  {
  }

  /** Multiplication is associative. */
  lemma MulAssoc(a: int, b: int, c: int)
    ensures (a * b) * c == a * (b * c)
  {
  }

  /** A strict bound on multiples of m >= 0 bounds the factor. */
  lemma MulCancelLt(a: int, b: int, m: int)
    requires m >= 0
    ensures a * m < b * m ==> a < b
  {
    if a >= b {
      MulLe(b, a, m);
    }
  }

  /** Stepping k by m: k * m is below n * m exactly when k is below n,
      and dividing it by m gives k back. */
  lemma Stride(k: int, n: int, m: int)
    requires k >= 0 && m > 0
    ensures k * m < n * m <==> k < n
    ensures (k * m) / m == k && (k + 1) * m == k * m + m
  {
    MulCancelLt(k, n, m);
    if k < n {
      MulLe(k + 1, n, m);
    }
    MulDistrib(k, 1, m);
    DivModUnique(k * m, m, k, 0);
  }

  /** The number below 4m whose base-m digits are q (at most 3) and low. */
  lemma Join(q: nat, low: nat, m: nat) returns (d: nat)
    requires q < 4 && low < m
    ensures d == q * m + low && d < 4 * m
    ensures d / m == q && d % m == low
  {
    MulLe(q, 3, m);
    d := q * m + low;
    DivModUnique(d, m, q, low);
  }

  /** Regrouping a factor 4. */
  lemma MulAssoc4(a: int, m: int)
    ensures (4 * a) * m == a * (4 * m) == 4 * (a * m)
  {
  }

  /** The quotient of d >= 0 by m > 0 lies between 0 and d. */
  lemma DivBounds(d: int, m: int)
    requires d >= 0 && m > 0
    ensures 0 <= d / m <= d
  {
    var q := d / m;
    assert d == q * m + d % m;
    MulMono(q, m);
    assert q >= 0;
    MulLe(1, m, q);
  }

  /** Quotient and remainder are the unique q, r with d = q * m + r, 0 <= r < m. */
  lemma DivModUnique(d: int, m: int, q: int, r: int)
    requires m > 0 && 0 <= r < m && d == q * m + r
    ensures d / m == q && d % m == r
  {
    var q', r' := d / m, d % m;
    assert d == q' * m + r';
    MulMono(q' - q, m);
    MulDistrib(q', q, m);
  }

  /** Splitting d by m and then the quotient by 4 is splitting d by 4m. */
  lemma DivMod4(d: nat, m: nat)
    requires m > 0
    ensures (d / m) / 4 == d / (4 * m)
    ensures d % (4 * m) == ((d / m) % 4) * m + d % m
  {
    var q := d / m;
    var r := d % m;
    var a := q / 4;
    var b := q % 4;
    assert d == q * m + r;
    assert q == 4 * a + b;
    MulDistrib(4 * a, b, m);
    MulAssoc4(a, m);
    assert d == a * (4 * m) + (b * m + r);
    MulLe(b, 3, m);
    DivModUnique(d, 4 * m, a, b * m + r);
  }

  /** Two numbers agree below 4m exactly when they agree below m and in the
      base-4 digit at m. */
  lemma LowDigits(d1: nat, d2: nat, m: nat)
    requires m > 0
    ensures d1 % (4 * m) == d2 % (4 * m) <==>
      d1 % m == d2 % m && (d1 / m) % 4 == (d2 / m) % 4
  {
    DivMod4(d1, m);
    DivMod4(d2, m);
    DivModUnique(d1 % (4 * m), m, (d1 / m) % 4, d1 % m);
    DivModUnique(d2 % (4 * m), m, (d2 / m) % 4, d2 % m);
  }

  /** Reducing a partial sum modulo m before adding the next term. */
  lemma ModAdd(a: int, b: int, m: int)
    requires a >= 0 && b >= 0 && m > 0
    ensures (a % m + b) % m == (a + b) % m
  {
    var q := a / m;
    assert a == q * m + a % m;
    var t := a % m + b;
    assert t == (t / m) * m + t % m;
    MulDistrib(q, t / m, m);
    DivModUnique(a + b, m, q + t / m, t % m);
  }

  /** Division by a positive number is monotone. */
  lemma DivMono(a: int, b: int, m: int)
    requires 0 <= a <= b && m > 0
    ensures a / m <= b / m
  {
    var qa, qb := a / m, b / m;
    assert a == qa * m + a % m;
    assert b == qb * m + b % m;
    MulMono(qa - qb, m);
    MulDistrib(qa, qb, m);
  }

  /** c * a / m stays at most c when a does not exceed m. */
  lemma ScaleBound(c: int, a: int, m: int)
    requires c >= 0 && 0 <= a <= m && m > 0
    ensures 0 <= (c * a) / m <= c
  {
    MulLe(a, m, c);
    assert c * a <= c * m;
    DivMono(c * a, c * m, m);
    DivModUnique(c * m, m, c, 0);
    DivBounds(c * a, m);
  }
}
