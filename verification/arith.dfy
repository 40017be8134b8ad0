/** Exact integer helpers shared by every engine: the floor division and
    remainder of GMP's `mpz_fdiv_qr`, the sign of `mpz_sgn`, and the
    non-negative greatest common divisor of `mpz_gcd`.

    Dafny's `/` and `%` on `int` are Euclidean (the remainder is never
    negative); GMP's `fdiv` rounds the quotient toward minus infinity, so the
    remainder takes the divisor's sign.  The two agree for positive divisors
    and differ for negative ones, which is why `FloorDiv` is written out. */
module Arith {

  function Abs(x: int): nat {
    if x < 0 then -x else x
  }

  /** The sign of `x`, as `mpz_sgn` returns it. */
  function Sign(x: int): (s: int)
    ensures s == -1 || s == 0 || s == 1
    ensures s == 0 <==> x == 0
    ensures s > 0 <==> x > 0
  {
    if x < 0 then -1 else if x == 0 then 0 else 1
  }

  lemma Assoc(a: int, b: int, c: int)
    ensures (a * b) * c == a * (b * c)
  {}

  lemma MulPos(a: int, b: int)
    requires a > 0 && b > 0
    ensures a * b > 0
  {}

  /** `d * k >= d` whenever `d` is positive and `k` is at least one. */
  lemma MulAtLeast(d: int, k: int)
    requires d > 0 && k >= 1
    ensures d * k >= d
  {
    assert d * k == d + d * (k - 1);
    if k > 1 {
      MulPos(d, k - 1);
    }
  }

  /** Euclidean division has exactly one quotient/remainder pair. */
  lemma DivUnique(n: int, d: int, q: int, r: int)
    requires d > 0 && n == d * q + r && 0 <= r < d
    ensures n / d == q && n % d == r
  {
    var q', r' := n / d, n % d;
    assert n == d * q' + r' && 0 <= r' < d;
    if q > q' {
      MulAtLeast(d, q - q');
    } else if q < q' {
      MulAtLeast(d, q' - q);
    }
  }

  /** The quotient of `mpz_fdiv_q`: rounded toward minus infinity.  The divisor
      must be non-zero (GMP raises a division-by-zero fault otherwise). */
  function FloorDiv(n: int, d: int): (q: int)
    requires d != 0
    ensures d > 0 ==> q * d <= n < q * d + d
    ensures d < 0 ==> q * d + d < n <= q * d
  {
    if d > 0 then
      assert n == d * (n / d) + n % d;
      n / d
    else
      assert -n == (-d) * ((-n) / (-d)) + (-n) % (-d);
      (-n) / (-d)
  }

  /** The remainder of `mpz_fdiv_r`: it takes the sign of the divisor. */
  function FloorMod(n: int, d: int): (r: int)
    requires d != 0
    ensures n == FloorDiv(n, d) * d + r
    ensures d > 0 ==> 0 <= r < d
    ensures d < 0 ==> d < r <= 0
  {
    n - FloorDiv(n, d) * d
  }

  /** A positive divisor determines the floor quotient: any `t` with
      `t*d <= n < t*d + d` is `FloorDiv(n, d)`. */
  lemma FloorDivUnique(n: int, d: int, t: int)
    requires d > 0 && t * d <= n < t * d + d
    ensures FloorDiv(n, d) == t
  {
    assert n == d * t + (n - t * d);
    DivUnique(n, d, t, n - t * d);
  }

  /** The same for a negative divisor: `t*d + d < n <= t*d`. */
  lemma FloorDivUniqueNeg(n: int, d: int, t: int)
    requires d < 0 && t * d + d < n <= t * d
    ensures FloorDiv(n, d) == t
  {
    assert -n == (-d) * t + (t * d - n);
    DivUnique(-n, -d, t, t * d - n);
  }

  // ---------------------------------------------------------------------
  // Divisibility and the greatest common divisor of mpz_gcd.

  ghost predicate Divides(d: int, x: int) {
    exists k :: x == d * k
  }

  lemma DividesIntro(d: int, x: int, k: int)
    requires x == d * k
    ensures Divides(d, x)
  {}

  lemma DividesLinear(d: int, x: int, y: int, c: int)
    requires Divides(d, x) && Divides(d, y)
    ensures Divides(d, x + c * y)
  {
    var i :| x == d * i;
    var j :| y == d * j;
    assert x + c * y == d * (i + c * j);
  }

  lemma DividesNeg(d: int, x: int)
    requires Divides(d, x)
    ensures Divides(d, -x) && Divides(d, Abs(x))
  {
    var i :| x == d * i;
    assert -x == d * (-i);
  }

  /** The non-negative gcd computed by Euclid's algorithm on magnitudes;
      `Gcd(0, 0) == 0`, as for `mpz_gcd`. */
  function Gcd(a: int, b: int): nat
    decreases Abs(b)
  {
    if b == 0 then Abs(a) else Gcd(b, a % Abs(b))
  }

  lemma {:induction false} GcdDivides(a: int, b: int)
    ensures Divides(Gcd(a, b), a) && Divides(Gcd(a, b), b)
    decreases Abs(b)
  {
    var g := Gcd(a, b);
    if b == 0 {
      if a < 0 { DividesIntro(g, a, -1); } else { DividesIntro(g, a, 1); }
      DividesIntro(g, b, 0);
    } else {
      var m := Abs(b);
      var r := a % m;
      GcdDivides(b, r);
      assert a == r + (a / m) * m;
      if b < 0 {
        DividesNeg(g, b);
      }
      assert Divides(g, m);
      DividesLinear(g, r, m, a / m);
    }
  }

  lemma {:induction false} GcdGreatest(a: int, b: int, d: int)
    requires Divides(d, a) && Divides(d, b)
    ensures Divides(d, Gcd(a, b))
    decreases Abs(b)
  {
    if b == 0 {
      DividesNeg(d, a);
    } else {
      var m := Abs(b);
      DividesNeg(d, b);
      var r := a % m;
      assert r == a + (-(a / m)) * m;
      DividesLinear(d, a, m, -(a / m));
      GcdGreatest(b, r, d);
    }
  }

  lemma {:induction false} GcdZero(a: int, b: int)
    ensures Gcd(a, b) == 0 <==> a == 0 && b == 0
    decreases Abs(b)
  {
    if b != 0 {
      GcdZero(b, a % Abs(b));
    }
  }

  /** A non-negative divisor of a positive number is no larger than it. */
  lemma DividesBound(d: int, x: int)
    requires d >= 0 && x > 0 && Divides(d, x)
    ensures d <= x
  {
    var k :| x == d * k;
    if d > 0 {
      if k <= 0 {
        assert d * (-k) >= 0 by { if k < 0 { MulPos(d, -k); } }
      }
      MulAtLeast(d, k);
    }
  }

  /** Exact division: when `g` divides `x`, `x / g` times `g` gives `x` back. */
  lemma DivExact(x: int, g: int)
    requires g > 0 && Divides(g, x)
    ensures x == g * (x / g)
  {
    var k :| x == g * k;
    DivUnique(x, g, k, 0);
  }
}
