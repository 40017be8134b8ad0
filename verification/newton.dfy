/** The quadratic solver of newton.c.

    The engine reads one input x and outputs the continued fraction of the
    y that solves

        y = (A0*x*y + A1*x + A2*y + A3) / (A4*x*y - A0*x + A5*y - A2),

    that is  c*y^2 - 2*a*y - b = 0  where a, b and c are linear in x.  The
    tableau keeps each of a, b and c as two columns: column 0 is the part
    free of x and column 1 the coefficient of x, so that at x = xn/xd the
    quadratic's coefficients are  v1*xn + v0*xd  (v = a, b, c).

    The integer part of the root is found by a sign search on column 0's
    quadratic, and accepted only when column 1's quadratic changes sign on
    the same unit interval; otherwise one more x term is read. */
module Newton {
  import opened Arith
  import opened Terms

  /** One quadratic  c*y^2 - 2*a*y - b. */
  datatype Quad = Quad(a: int, b: int, c: int)

  /** The two columns: `col0` = (a0, b0, c0), `col1` = (a1, b1, c1). */
  datatype Abc = Abc(col0: Quad, col1: Quad)

  /** The quadratic at z. */
  function Q(q: Quad, z: int): int {
    q.c * z * z - 2 * q.a * z - q.b
  }

  /** The quadratic at y = yn/yd, multiplied by yd^2. */
  function Qh(q: Quad, yn: int, yd: int): int {
    q.c * (yn * yn) - 2 * q.a * (yn * yd) - q.b * (yd * yd)
  }

  /** The discriminant a^2 + b*c of the root formula (a +- sqrt(a^2 + bc))/c. */
  function Disc(q: Quad): int {
    q.a * q.a + q.b * q.c
  }

  /** The quadratic in y for x = xn/xd (each coefficient times xd). */
  function At(t: Abc, xn: int, xd: int): Quad {
    Quad(t.col1.a * xn + t.col0.a * xd,
         t.col1.b * xn + t.col0.b * xd,
         t.col1.c * xn + t.col0.c * xd)
  }

  /** `abc_set_coeff`: column 0 = (A2, A3, A5), column 1 = (A0, A1, A4). */
  function SetCoeff(A: seq<int>): Abc
    requires |A| == 6
  {
    Abc(Quad(A[2], A[3], A[5]), Quad(A[0], A[1], A[4]))
  }

  /** The loaded tableau states the solver's relation: at x = xn/xd and
      y = yn/yd its quadratic is  yn*Denominator - yd*Numerator  of the
      defining equation y = Numerator/Denominator (both multiplied through
      by xd*yd), so it vanishes exactly at the solutions. */
  lemma SetCoeffStatesRelation(A: seq<int>, xn: int, xd: int, yn: int, yd: int)
    requires |A| == 6
    ensures Qh(At(SetCoeff(A), xn, xd), yn, yd) ==
      yn * (A[4] * xn * yn - A[0] * xn * yd + A[5] * xd * yn - A[2] * xd * yd)
      - yd * (A[0] * xn * yn + A[1] * xn * yd + A[2] * xd * yn + A[3] * xd * yd)
  {
    var q := At(SetCoeff(A), xn, xd);
    assert q.c * (yn * yn) == A[4] * xn * yn * yn + A[5] * xd * yn * yn;
    assert 2 * q.a * (yn * yd) == 2 * A[0] * xn * yn * yd + 2 * A[2] * xd * yn * yd;
    assert q.b * (yd * yd) == A[1] * xn * yd * yd + A[3] * xd * yd * yd;
  }

  // ---------------------------------------------------------------------
  // The moves.

  /** `move_right`: absorb the term z of x (x = z + 1/x'): each coefficient
      pair (v0, v1) becomes (v1, z*v1 + v0). */
  function MoveRight(t: Abc, z: int): Abc {
    Abc(t.col1,
        Quad(z * t.col1.a + t.col0.a, z * t.col1.b + t.col0.b, z * t.col1.c + t.col0.c))
  }

  /** After `move_right(z)` the quadratic at x' = xn/xd is the old one at
      x = (z*xn + xd)/xn, so the root y is unchanged. */
  lemma MoveRightSubstitutes(t: Abc, z: int, xn: int, xd: int)
    ensures At(MoveRight(t, z), xn, xd) == At(t, z * xn + xd, xn)
  {
    var x := z * xn + xd;
    assert t.col1.a * x == z * t.col1.a * xn + t.col1.a * xd;
    assert t.col1.b * x == z * t.col1.b * xn + t.col1.b * xd;
    assert t.col1.c * x == z * t.col1.c * xn + t.col1.c * xd;
  }

  /** `move_down` on one column: emit z, i.e. y = z + 1/y'.  The new column
      is a' = z*c - a, b' = c, c' = 2*z*a + b - z^2*c. */
  function MoveDownQuad(q: Quad, z: int): Quad {
    Quad(z * q.c - q.a, q.c, (z * q.a + q.b) - z * (z * q.c - q.a))
  }

  function MoveDown(t: Abc, z: int): Abc {
    Abc(MoveDownQuad(t.col0, z), MoveDownQuad(t.col1, z))
  }

  /** The new quadratic at y' = yn/yd is minus the old one at
      y = (z*yn + yd)/yn: its roots are those of the old quadratic shifted
      by z and inverted. */
  lemma MoveDownSubstitutes(q: Quad, z: int, yn: int, yd: int)
    ensures Qh(MoveDownQuad(q, z), yn, yd) == -Qh(q, z * yn + yd, yn)
  {
    var y := z * yn + yd;
    assert y * y == z * z * (yn * yn) + 2 * z * (yn * yd) + yd * yd;
    assert y * yn == z * (yn * yn) + yn * yd;
    var r := MoveDownQuad(q, z);
    assert r.c == 2 * z * q.a + q.b - z * z * q.c;
    assert Qh(q, y, yn) == (q.c * z * z - 2 * q.a * z - q.b) * (yn * yn)
      + (2 * q.c * z - 2 * q.a) * (yn * yd) + q.c * (yd * yd);
  }

  /** `move_down` keeps the discriminant a^2 + b*c. */
  lemma MoveDownKeepsDisc(q: Quad, z: int)
    ensures Disc(MoveDownQuad(q, z)) == Disc(q)
  {
    var r := MoveDownQuad(q, z);
    assert r.c == 2 * z * q.a + q.b - z * z * q.c;
    assert r.a * r.a == z * z * q.c * q.c - 2 * z * q.a * q.c + q.a * q.a;
    assert r.b * r.c == 2 * z * q.a * q.c + q.b * q.c - z * z * q.c * q.c;
  }

  /** The leading coefficient after `move_down(z)` is minus the quadratic's
      value at z, so it is non-zero when z is not a root. */
  lemma MoveDownLeading(q: Quad, z: int)
    ensures MoveDownQuad(q, z).c == -Q(q, z)
  {}

  // ---------------------------------------------------------------------
  // The sign oracles.

  /** `sign_quad` (column 0) and `sign_quad1` (column 1) evaluate
      ((-2*a) + c*z)*z - b and take its sign. */
  function SignQuad(q: Quad, z: int): (s: int)
    ensures s == Sign(Q(q, z)) && s == Sign(Qh(q, z, 1))
  {
    Sign((-2 * q.a + q.c * z) * z - q.b)
  }

  // ---------------------------------------------------------------------
  // The search for the integer part.

  /** What `binary_search` leaves behind: the integer part `z0`, the
      tableau after the x terms it read, and the rest of x. */
  datatype Found = Found(z0: int, tab: Abc, rest: Input)

  /** The tableau after reading `n` terms of x with `move_right`. */
  function MoveRights(t: Abc, x: Input, n: nat): Abc
    decreases n
  {
    if n == 0 then t else MoveRights(MoveRight(t, x.Head()), x.Tail(), n - 1)
  }

  lemma {:induction false} MoveRightsSnoc(t: Abc, x: Input, n: nat)
    ensures MoveRights(t, x, n + 1) == MoveRight(MoveRights(t, x, n), x.terms(x.pos + n))
    decreases n
  {
    if n > 0 {
      MoveRightsSnoc(MoveRight(t, x.Head()), x.Tail(), n - 1);
    }
  }

  /** The bisection loop: from z0 < z1 with z0 on the side of `sign` and z1
      off it, halve the interval (rounding the midpoint down, as
      `mpz_div_2exp` does) until z1 = z0 + 1. */
  method Bisect(q: Quad, lo: int, hi: int, sign: int) returns (z0: int)
    requires lo < hi && SignQuad(q, lo) == sign && SignQuad(q, hi) != sign
    ensures lo <= z0 < hi
    ensures SignQuad(q, z0) == sign && SignQuad(q, z0 + 1) != sign
  {
    z0 := lo;
    var z1 := hi;
    while true
      invariant lo <= z0 < z1 <= hi
      invariant SignQuad(q, z0) == sign && SignQuad(q, z1) != sign
      decreases z1 - z0
    {
      var z := (z0 + z1) / 2;
      if z == z0 {
        assert z1 == z0 + 1;
        return;
      }
      if SignQuad(q, z) == sign {
        z0 := z;
      } else {
        z1 := z;
      }
    }
  }

  /** The doubling loop: step 1, 2, 4, ... past `lower` until the sign of
      the quadratic differs from its sign at `lower`; `None` when `fuel`
      doublings did not suffice. */
  method Double(q: Quad, lower: int, fuel: nat) returns (r: Option<int>)
    ensures r.Some? ==> r.value > lower && SignQuad(q, r.value) != SignQuad(q, lower)
  {
    var sign := SignQuad(q, lower);
    var pow2 := 1;
    var n := 0;
    while n < fuel
      invariant pow2 >= 1
    {
      var z := lower + pow2;
      if SignQuad(q, z) != sign {
        return Some(z);
      }
      pow2 := pow2 * 2;
      n := n + 1;
    }
    return None;
  }

  /** `binary_search(lower)`: read x until c0 is non-zero; then search
      column 0 from `lower` and accept the interval [z0, z0 + 1] only when
      column 1 also changes sign on it, reading one more x term and
      searching again otherwise.  Every unbounded loop is cut off after
      `fuel` rounds, giving `None`. */
  method BinarySearch(t: Abc, x: Input, lower: int, fuel: nat) returns (r: Option<Found>)
    ensures r.Some? ==> r.value.rest.terms == x.terms && r.value.rest.pos >= x.pos
    ensures r.Some? ==> r.value.tab == MoveRights(t, x, r.value.rest.pos - x.pos)
    ensures r.Some? ==> r.value.z0 >= lower
    ensures r.Some? ==> var f := r.value;
      SignQuad(f.tab.col0, f.z0) == SignQuad(f.tab.col0, lower) &&
      SignQuad(f.tab.col0, f.z0 + 1) != SignQuad(f.tab.col0, lower)
    ensures r.Some? ==> var f := r.value;
      SignQuad(f.tab.col1, f.z0 + 1) != SignQuad(f.tab.col1, f.z0)
  {
    var tab, rest := t, x;
    var n := 0;
    while tab.col0.c == 0
      invariant rest.terms == x.terms && rest.pos >= x.pos
      invariant tab == MoveRights(t, x, rest.pos - x.pos)
      decreases fuel - n
    {
      if n >= fuel {
        return None;
      }
      MoveRightsSnoc(t, x, rest.pos - x.pos);
      tab, rest := MoveRight(tab, rest.Head()), rest.Tail();
      n := n + 1;
    }
    var rounds := 0;
    while rounds < fuel
      invariant rest.terms == x.terms && rest.pos >= x.pos
      invariant tab == MoveRights(t, x, rest.pos - x.pos)
    {
      var sign := SignQuad(tab.col0, lower);
      var z1 := Double(tab.col0, lower, fuel);
      if z1.None? {
        return None;
      }
      var z0 := Bisect(tab.col0, lower, z1.value, sign);
      if SignQuad(tab.col1, z0 + 1) != SignQuad(tab.col1, z0) {
        return Some(Found(z0, tab, rest));
      }
      MoveRightsSnoc(t, x, rest.pos - x.pos);
      tab, rest := MoveRight(tab, rest.Head()), rest.Tail();
      rounds := rounds + 1;
    }
    return None;
  }

  // ---------------------------------------------------------------------
  // The engine.

  /** The engine: three `move_right`s at the start; then the first term is
      searched from `lower` and every later one from 1, and each output z0
      is followed by `move_down(z0)`.  Returns the terms of `demands + 1`
      searches, cut short when a search runs out of fuel. */
  method Newton(A: seq<int>, lower: int, x: Input, demands: nat, fuel: nat)
    returns (out: seq<int>)
    requires |A| == 6
    ensures |out| <= demands + 1
    ensures |out| > 0 ==> out[0] >= lower
    ensures forall i :: 1 <= i < |out| ==> out[i] >= 1
  {
    var tab := SetCoeff(A);
    var rest := x;
    var k := 0;
    while k < 3
      invariant 0 <= k <= 3
    {
      tab, rest := MoveRight(tab, rest.Head()), rest.Tail();
      k := k + 1;
    }
    out := [];
    var from := lower;
    while |out| < demands + 1
      invariant |out| <= demands + 1
      invariant |out| > 0 ==> out[0] >= lower && from == 1
      invariant |out| == 0 ==> from == lower
      invariant forall i :: 1 <= i < |out| ==> out[i] >= 1
      decreases demands + 1 - |out|
    {
      var f := BinarySearch(tab, rest, from, fuel);
      if f.None? {
        return;
      }
      var z0 := f.value.z0;
      out := out + [z0];
      tab, rest := MoveDown(f.value.tab, z0), f.value.rest;
      from := 1;
    }
  }

  // ---------------------------------------------------------------------
  // Square roots.

  /** `cf_new_sqrt`: A1 = A5 = 1 and every other coefficient 0, searched
      from 0: the equation y = x/y. */
  function SqrtCoeffs(): seq<int> { [0, 1, 0, 0, 0, 1] }

  const SqrtLower: int := 0

  /** With these coefficients the solver's quadratic is xd*yn^2 - xn*yd^2,
      which vanishes exactly when y^2 = x. */
  lemma SqrtSolvesSquare(xn: int, xd: int, yn: int, yd: int)
    ensures Qh(At(SetCoeff(SqrtCoeffs()), xn, xd), yn, yd) == xd * (yn * yn) - xn * (yd * yd)
  {
    SetCoeffStatesRelation(SqrtCoeffs(), xn, xd, yn, yd);
  }
}
