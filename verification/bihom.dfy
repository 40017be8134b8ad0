/** Gosper's bihomographic engine of bihom.c (HAKMEM item 101).

    The tableau holds four convergents, one per corner of Gosper's table,
    each a numerator (row 0) over a denominator (row 1):

        s  q
        r  p

    and denotes the function of the two unread input tails

        z(x, y) = (p0*x*y + q0*x + r0*y + s0) / (p1*x*y + q1*x + r1*y + s1).

    As in the Möbius engine the algebra is homogeneous: x = xn/xd and
    y = yn/yd, and `Num`/`Den` are the numerator and denominator of the
    denoted value multiplied through by xd*yd. */
module Bihom {
  import opened Arith
  import opened Terms
  import M = Mobius

  datatype Tableau = Tableau(p0: int, p1: int, q0: int, q1: int,
                             r0: int, r1: int, s0: int, s1: int)

  function Num(t: Tableau, xn: int, xd: int, yn: int, yd: int): int {
    t.p0 * (xn * yn) + t.q0 * (xn * yd) + t.r0 * (xd * yn) + t.s0 * (xd * yd)
  }

  function Den(t: Tableau, xn: int, xd: int, yn: int, yd: int): int {
    t.p1 * (xn * yn) + t.q1 * (xn * yd) + t.r1 * (xd * yn) + t.s1 * (xd * yd)
  }

  predicate NonNeg(t: Tableau) {
    t.p0 >= 0 && t.q0 >= 0 && t.r0 >= 0 && t.s0 >= 0 &&
    t.p1 >= 0 && t.q1 >= 0 && t.r1 >= 0 && t.s1 >= 0
  }

  /** `pqrs_set_coeff`: the eight coefficients a[0..7] are read as
      p0, q0, r0, s0, p1, q1, r1, s1, so that the tableau denotes
      (a0*xy + a1*x + a2*y + a3) / (a4*xy + a5*x + a6*y + a7). */
  function SetCoeff(a: seq<int>): (t: Tableau)
    requires |a| == 8
    ensures forall xn, xd, yn, yd ::
      Num(t, xn, xd, yn, yd) == a[0] * (xn * yn) + a[1] * (xn * yd)
        + a[2] * (xd * yn) + a[3] * (xd * yd)
    ensures forall xn, xd, yn, yd ::
      Den(t, xn, xd, yn, yd) == a[4] * (xn * yn) + a[5] * (xn * yd)
        + a[6] * (xd * yn) + a[7] * (xd * yd)
  {
    Tableau(a[0], a[4], a[1], a[5], a[2], a[6], a[3], a[7])
  }

  // ---------------------------------------------------------------------
  // The two moves.

  /** `move_right`: absorb the term z of x, that is x = z + 1/x'. */
  function MoveRight(t: Tableau, z: int): Tableau {
    Tableau(z * t.p0 + t.r0, z * t.p1 + t.r1, z * t.q0 + t.s0, z * t.q1 + t.s1,
            t.p0, t.p1, t.q0, t.q1)
  }

  /** `move_down`: absorb the term z of y, that is y = z + 1/y'. */
  function MoveDown(t: Tableau, z: int): Tableau {
    Tableau(z * t.p0 + t.q0, z * t.p1 + t.q1, t.p0, t.p1,
            z * t.r0 + t.s0, z * t.r1 + t.s1, t.r0, t.r1)
  }

  /** After `move_right(z)` the tableau at x' = xn/xd denotes what it
      denoted before at x = (z*xn + xd)/xn; y is untouched. */
  lemma MoveRightSubstitutes(t: Tableau, z: int, xn: int, xd: int, yn: int, yd: int)
    ensures Num(MoveRight(t, z), xn, xd, yn, yd) == Num(t, z * xn + xd, xn, yn, yd)
    ensures Den(MoveRight(t, z), xn, xd, yn, yd) == Den(t, z * xn + xd, xn, yn, yd)
  {
    var x := z * xn + xd;
    assert x * yn == z * (xn * yn) + xd * yn;
    assert x * yd == z * (xn * yd) + xd * yd;
    assert Num(t, x, xn, yn, yd)
        == t.p0 * (z * (xn * yn) + xd * yn) + t.q0 * (z * (xn * yd) + xd * yd)
           + t.r0 * (xn * yn) + t.s0 * (xn * yd);
    assert Den(t, x, xn, yn, yd)
        == t.p1 * (z * (xn * yn) + xd * yn) + t.q1 * (z * (xn * yd) + xd * yd)
           + t.r1 * (xn * yn) + t.s1 * (xn * yd);
  }

  /** After `move_down(z)` the tableau at y' = yn/yd denotes what it
      denoted before at y = (z*yn + yd)/yn; x is untouched. */
  lemma MoveDownSubstitutes(t: Tableau, z: int, xn: int, xd: int, yn: int, yd: int)
    ensures Num(MoveDown(t, z), xn, xd, yn, yd) == Num(t, xn, xd, z * yn + yd, yn)
    ensures Den(MoveDown(t, z), xn, xd, yn, yd) == Den(t, xn, xd, z * yn + yd, yn)
  {
    var y := z * yn + yd;
    assert xn * y == z * (xn * yn) + xn * yd;
    assert xd * y == z * (xd * yn) + xd * yd;
    assert Num(t, xn, xd, y, yn)
        == t.p0 * (z * (xn * yn) + xn * yd) + t.q0 * (xn * yn)
           + t.r0 * (z * (xd * yn) + xd * yd) + t.s0 * (xd * yn);
    assert Den(t, xn, xd, y, yn)
        == t.p1 * (z * (xn * yn) + xn * yd) + t.q1 * (xn * yn)
           + t.r1 * (z * (xd * yn) + xd * yd) + t.s1 * (xd * yn);
  }

  /** Both moves keep a non-negative tableau non-negative on a
      non-negative term. */
  lemma MovesKeepNonNeg(t: Tableau, z: int)
    requires NonNeg(t) && z >= 0
    ensures NonNeg(MoveRight(t, z)) && NonNeg(MoveDown(t, z))
  {}

  // ---------------------------------------------------------------------
  // The engine state: the tableau and the read cursors of x and y.

  datatype State = State(tab: Tableau, x: Input, y: Input)

  /** `MoveRightSubstitutes` at every point. */
  lemma MoveRightSubstitutesAll(t: Tableau, z: int)
    ensures forall xn, xd, yn, yd ::
      Num(MoveRight(t, z), xn, xd, yn, yd) == Num(t, z * xn + xd, xn, yn, yd) &&
      Den(MoveRight(t, z), xn, xd, yn, yd) == Den(t, z * xn + xd, xn, yn, yd)
  {
    forall xn, xd, yn, yd
      ensures Num(MoveRight(t, z), xn, xd, yn, yd) == Num(t, z * xn + xd, xn, yn, yd)
      ensures Den(MoveRight(t, z), xn, xd, yn, yd) == Den(t, z * xn + xd, xn, yn, yd)
    {
      MoveRightSubstitutes(t, z, xn, xd, yn, yd);
    }
  }

  /** `MoveDownSubstitutes` at every point. */
  lemma MoveDownSubstitutesAll(t: Tableau, z: int)
    ensures forall xn, xd, yn, yd ::
      Num(MoveDown(t, z), xn, xd, yn, yd) == Num(t, xn, xd, z * yn + yd, yn) &&
      Den(MoveDown(t, z), xn, xd, yn, yd) == Den(t, xn, xd, z * yn + yd, yn)
  {
    forall xn, xd, yn, yd
      ensures Num(MoveDown(t, z), xn, xd, yn, yd) == Num(t, xn, xd, z * yn + yd, yn)
      ensures Den(MoveDown(t, z), xn, xd, yn, yd) == Den(t, xn, xd, z * yn + yd, yn)
    {
      MoveDownSubstitutes(t, z, xn, xd, yn, yd);
    }
  }

  /** `move_right` with its `cf_get` from x: one term is read, from x
      only, and the new tableau at x' denotes what the old one denoted at
      x = z + 1/x' for the term z read. */
  function ReadRight(st: State): (r: State)
    ensures SameSources(st, r) && Consumed(r) == Consumed(st) + 1
    ensures r.y == st.y && r.x.pos == st.x.pos + 1
    ensures var z := st.x.Head();
      forall xn, xd, yn, yd ::
        Num(r.tab, xn, xd, yn, yd) == Num(st.tab, z * xn + xd, xn, yn, yd) &&
        Den(r.tab, xn, xd, yn, yd) == Den(st.tab, z * xn + xd, xn, yn, yd)
  {
    MoveRightSubstitutesAll(st.tab, st.x.Head());
    State(MoveRight(st.tab, st.x.Head()), st.x.Tail(), st.y)
  }

  /** `move_down` with its `cf_get` from y: one term is read, from y only,
      and the new tableau at y' denotes what the old one denoted at
      y = z + 1/y' for the term z read. */
  function ReadDown(st: State): (r: State)
    ensures SameSources(st, r) && Consumed(r) == Consumed(st) + 1
    ensures r.x == st.x && r.y.pos == st.y.pos + 1
    ensures var z := st.y.Head();
      forall xn, xd, yn, yd ::
        Num(r.tab, xn, xd, yn, yd) == Num(st.tab, xn, xd, z * yn + yd, yn) &&
        Den(r.tab, xn, xd, yn, yd) == Den(st.tab, xn, xd, z * yn + yd, yn)
  {
    MoveDownSubstitutesAll(st.tab, st.y.Head());
    State(MoveDown(st.tab, st.y.Head()), st.x, st.y.Tail())
  }

  /** How many terms have been read from the two inputs together. */
  function Consumed(st: State): nat {
    st.x.pos + st.y.pos
  }

  /** Both states read the same two streams. */
  ghost predicate SameSources(a: State, b: State) {
    a.x.terms == b.x.terms && a.y.terms == b.y.terms
  }

  ghost predicate NonNegFrom(inp: Input) {
    forall i: nat :: inp.pos <= i ==> inp.terms(i) >= 0
  }

  // ---------------------------------------------------------------------
  // Sign determination.

  /** The exit test of the sign loop: the four denominators share one sign
      and the four numerators share one sign. */
  predicate SignsAgree(t: Tableau) {
    Sign(t.p1) == Sign(t.q1) && Sign(t.q1) == Sign(t.r1) && Sign(t.r1) == Sign(t.s1) &&
    Sign(t.p0) == Sign(t.q0) && Sign(t.q0) == Sign(t.r0) && Sign(t.r0) == Sign(t.s0)
  }

  /** The sign loop: while the signs disagree, move right then down. */
  function SignLoop(st: State, fuel: nat): (r: Option<State>)
    ensures r.Some? ==> SignsAgree(r.value.tab) && SameSources(st, r.value)
    ensures r.Some? ==> r.value.x.pos - st.x.pos == r.value.y.pos - st.y.pos <= fuel
    ensures SignsAgree(st.tab) ==> r == Some(st)
    decreases fuel
  {
    if SignsAgree(st.tab) then Some(st)
    else if fuel == 0 then None
    else SignLoop(ReadDown(ReadRight(st)), fuel - 1)
  }

  function NegateRow0(t: Tableau): Tableau {
    Tableau(-t.p0, t.p1, -t.q0, t.q1, -t.r0, t.r1, -t.s0, t.s1)
  }

  function NegateRow1(t: Tableau): Tableau {
    Tableau(t.p0, -t.p1, t.q0, -t.q1, t.r0, -t.r1, t.s0, -t.s1)
  }

  lemma NegateRowsValue(t: Tableau, xn: int, xd: int, yn: int, yd: int)
    ensures Num(NegateRow0(t), xn, xd, yn, yd) == -Num(t, xn, xd, yn, yd)
    ensures Den(NegateRow0(t), xn, xd, yn, yd) == Den(t, xn, xd, yn, yd)
    ensures Num(NegateRow1(t), xn, xd, yn, yd) == Num(t, xn, xd, yn, yd)
    ensures Den(NegateRow1(t), xn, xd, yn, yd) == -Den(t, xn, xd, yn, yd)
  {}

  /** The negation pass after the sign loop: a row whose p entry is negative
      is negated and the output sign flag flips once per negated row.  The
      result is non-negative; `NormalizeSignKeepsValue` shows it denotes the
      same signed value. */
  function NormalizeSign(t: Tableau, negative: bool): (r: (Tableau, bool))
    requires SignsAgree(t)
    ensures NonNeg(r.0)
  {
    var t1 := if t.p0 < 0 then NegateRow0(t) else t;
    var n1 := if t.p0 < 0 then !negative else negative;
    var t2 := if t1.p1 < 0 then NegateRow1(t1) else t1;
    var n2 := if t1.p1 < 0 then !n1 else n1;
    (t2, n2)
  }

  /** The negation pass keeps the signed value: the new ratio with the new
      flag equals the old ratio with the old flag, cross-multiplied. */
  lemma NormalizeSignKeepsValue(t: Tableau, negative: bool, xn: int, xd: int, yn: int, yd: int)
    requires SignsAgree(t)
    ensures var (r, neg) := NormalizeSign(t, negative);
      M.Flip(neg) * Num(r, xn, xd, yn, yd) * Den(t, xn, xd, yn, yd) ==
      M.Flip(negative) * Num(t, xn, xd, yn, yd) * Den(r, xn, xd, yn, yd)
  {
    var t1 := if t.p0 < 0 then NegateRow0(t) else t;
    NegateRowsValue(t, xn, xd, yn, yd);
    NegateRowsValue(t1, xn, xd, yn, yd);
    var n, d := Num(t, xn, xd, yn, yd), Den(t, xn, xd, yn, yd);
    var f := M.Flip(negative);
    assert f * (-n) * d == (-f) * n * d;
    assert f * n * (-d) == (-f) * n * d;
    assert (-f) * (-n) * (-d) == f * n * (-d);
  }

  /** The start of the engine: the sign loop and the negation pass, with the
      output's sign flag initially clear. */
  function Start(a: seq<int>, x: Input, y: Input, fuel: nat): (r: Option<(State, bool)>)
    requires |a| == 8
    ensures r.Some? ==> NonNeg(r.value.0.tab)
    ensures r.Some? ==> r.value.0.x.terms == x.terms && r.value.0.y.terms == y.terms
  {
    match SignLoop(State(SetCoeff(a), x, y), fuel)
    case None => None
    case Some(st) =>
      var (t, neg) := NormalizeSign(st.tab, false);
      Some((State(t, st.x, st.y), neg))
  }

  // ---------------------------------------------------------------------
  // The `recur` step.

  /** What `recur` does with a tableau: one or both moves, or an output. */
  datatype Action = Right | Down | RightThenDown | Out(term: int)

  /** The four corners agree on an integer part `k`: every denominator is
      non-zero and every corner's floor is `k`. */
  predicate FloorsAgree(t: Tableau, k: int) {
    t.p1 != 0 && t.q1 != 0 && t.r1 != 0 && t.s1 != 0 &&
    FloorDiv(t.p0, t.p1) == k && FloorDiv(t.q0, t.q1) == k &&
    FloorDiv(t.r0, t.r1) == k && FloorDiv(t.s0, t.s1) == k
  }

  /** The decision of `recur`, in the order the source tests: a zero s1
      moves both ways; a zero p1 moves down if q1 is zero too and right
      otherwise; a zero q1 moves down; a zero r1 moves right; then the
      corner floors are compared p against q (down), p against r (right)
      and s against r (down).  Only when all agree is a term output. */
  function Choose(t: Tableau): (act: Action)
    ensures act.Out? <==> t.p1 != 0 && FloorsAgree(t, FloorDiv(t.p0, t.p1))
    ensures act.Out? ==> FloorsAgree(t, act.term)
  {
    if t.s1 == 0 then RightThenDown
    else if t.p1 == 0 then (if t.q1 == 0 then Down else Right)
    else if t.q1 == 0 then Down
    else if t.r1 == 0 then Right
    else
      var k := FloorDiv(t.p0, t.p1);
      if k != FloorDiv(t.q0, t.q1) then Down
      else if k != FloorDiv(t.r0, t.r1) then Right
      else if FloorDiv(t.s0, t.s1) != FloorDiv(t.r0, t.r1) then Down
      else Out(k)
  }

  /** The output update: each corner (x0, x1) becomes (x1, x0 - k*x1), which
      is the floor remainder when `k` is the corner's floor. */
  function EmitOut(t: Tableau, k: int): Tableau {
    Tableau(t.p1, t.p0 - k * t.p1, t.q1, t.q0 - k * t.q1,
            t.r1, t.r0 - k * t.r1, t.s1, t.s0 - k * t.s1)
  }

  /** After an output of k the tableau denotes 1/(z - k). */
  lemma EmitOutDenotesReciprocal(t: Tableau, k: int, xn: int, xd: int, yn: int, yd: int)
    ensures Num(EmitOut(t, k), xn, xd, yn, yd) == Den(t, xn, xd, yn, yd)
    ensures Den(EmitOut(t, k), xn, xd, yn, yd) ==
      Num(t, xn, xd, yn, yd) - k * Den(t, xn, xd, yn, yd)
  {
    var a, b, c, d := xn * yn, xn * yd, xd * yn, xd * yd;
    assert Den(EmitOut(t, k), xn, xd, yn, yd)
        == (t.p0 - k * t.p1) * a + (t.q0 - k * t.q1) * b
          + (t.r0 - k * t.r1) * c + (t.s0 - k * t.s1) * d;
  }

  /** With positive denominators, an output of the agreed floor leaves every
      new denominator in [0, x1), x1 being the corner's old denominator, and
      the new denominators are the floor remainders. */
  lemma EmitOutRemainders(t: Tableau, k: int)
    requires FloorsAgree(t, k) && t.p1 > 0 && t.q1 > 0 && t.r1 > 0 && t.s1 > 0
    ensures var r := EmitOut(t, k);
      0 <= r.p1 < t.p1 && 0 <= r.q1 < t.q1 && 0 <= r.r1 < t.r1 && 0 <= r.s1 < t.s1
    ensures var r := EmitOut(t, k);
      r.p1 == FloorMod(t.p0, t.p1) && r.q1 == FloorMod(t.q0, t.q1) &&
      r.r1 == FloorMod(t.r0, t.r1) && r.s1 == FloorMod(t.s0, t.s1)
  {}

  /** Soundness of the output test: when the four corners agree on k and
      the denominators are positive, the denoted value lies in [k, k+1) for
      every pair of non-negative tails x = xn/xd and y = yn/yd. */
  lemma EmitSound(t: Tableau, k: int, xn: int, xd: int, yn: int, yd: int)
    requires FloorsAgree(t, k) && t.p1 > 0 && t.q1 > 0 && t.r1 > 0 && t.s1 > 0
    requires xn >= 0 && xd >= 0 && (xn > 0 || xd > 0)
    requires yn >= 0 && yd >= 0 && (yn > 0 || yd > 0)
    ensures k * Den(t, xn, xd, yn, yd) <= Num(t, xn, xd, yn, yd)
    ensures Num(t, xn, xd, yn, yd) < (k + 1) * Den(t, xn, xd, yn, yd)
  {
    var r := EmitOut(t, k);
    EmitOutDenotesReciprocal(t, k, xn, xd, yn, yd);
    EmitOutRemainders(t, k);
    var gap := Tableau(0, t.p1 - r.p1, 0, t.q1 - r.q1, 0, t.r1 - r.r1, 0, t.s1 - r.s1);
    DenDifference(t, r, gap, xn, xd, yn, yd);
    DenNonNeg(r, xn, xd, yn, yd);
    DenPositive(gap, xn, xd, yn, yd);
  }

  lemma DenDifference(t: Tableau, r: Tableau, gap: Tableau, xn: int, xd: int, yn: int, yd: int)
    requires gap.p1 == t.p1 - r.p1 && gap.q1 == t.q1 - r.q1
      && gap.r1 == t.r1 - r.r1 && gap.s1 == t.s1 - r.s1
    ensures Den(gap, xn, xd, yn, yd) == Den(t, xn, xd, yn, yd) - Den(r, xn, xd, yn, yd)
  {
    var a, b, c, d := xn * yn, xn * yd, xd * yn, xd * yd;
    assert (t.p1 - r.p1) * a == t.p1 * a - r.p1 * a;
    assert (t.q1 - r.q1) * b == t.q1 * b - r.q1 * b;
    assert (t.r1 - r.r1) * c == t.r1 * c - r.r1 * c;
    assert (t.s1 - r.s1) * d == t.s1 * d - r.s1 * d;
  }

  lemma DenNonNeg(t: Tableau, xn: int, xd: int, yn: int, yd: int)
    requires t.p1 >= 0 && t.q1 >= 0 && t.r1 >= 0 && t.s1 >= 0
    requires xn >= 0 && xd >= 0 && yn >= 0 && yd >= 0
    ensures Den(t, xn, xd, yn, yd) >= 0
  {
    NonNegProduct(xn, yn);
    NonNegProduct(xn, yd);
    NonNegProduct(xd, yn);
    NonNegProduct(xd, yd);
    NonNegProduct(t.p1, xn * yn);
    NonNegProduct(t.q1, xn * yd);
    NonNegProduct(t.r1, xd * yn);
    NonNegProduct(t.s1, xd * yd);
  }

  lemma NonNegProduct(a: int, b: int)
    requires a >= 0 && b >= 0
    ensures a * b >= 0
  {
    if a > 0 && b > 0 { MulPos(a, b); }
  }

  /** With positive denominators and non-negative, non-degenerate tails the
      denominator is positive. */
  lemma DenPositive(t: Tableau, xn: int, xd: int, yn: int, yd: int)
    requires t.p1 > 0 && t.q1 > 0 && t.r1 > 0 && t.s1 > 0
    requires xn >= 0 && xd >= 0 && (xn > 0 || xd > 0)
    requires yn >= 0 && yd >= 0 && (yn > 0 || yd > 0)
    ensures Den(t, xn, xd, yn, yd) > 0
  {
    DenNonNeg(Tableau(0, 0, 0, t.q1, 0, t.r1, 0, t.s1), xn, xd, yn, yd);
    DenNonNeg(Tableau(0, t.p1, 0, 0, 0, t.r1, 0, t.s1), xn, xd, yn, yd);
    DenNonNeg(Tableau(0, t.p1, 0, t.q1, 0, 0, 0, t.s1), xn, xd, yn, yd);
    DenNonNeg(Tableau(0, t.p1, 0, t.q1, 0, t.r1, 0, 0), xn, xd, yn, yd);
    if xn > 0 && yn > 0 {
      MulPos(xn, yn); MulPos(t.p1, xn * yn);
    } else if xn > 0 {
      MulPos(xn, yd); MulPos(t.q1, xn * yd);
    } else if yn > 0 {
      MulPos(xd, yn); MulPos(t.r1, xd * yn);
    } else {
      MulPos(xd, yd); MulPos(t.s1, xd * yd);
    }
  }

  /** `recur`: carry out the chosen action; `Some(k)` when a term is output. */
  function Recur(st: State): (r: (State, Option<int>))
    ensures SameSources(st, r.0)
    ensures r.1.Some? <==> Choose(st.tab).Out?
    ensures r.1.Some? ==> r.0.x == st.x && r.0.y == st.y && FloorsAgree(st.tab, r.1.value)
    ensures r.1.None? ==> Consumed(r.0) > Consumed(st)
  {
    match Choose(st.tab)
    case RightThenDown => (ReadDown(ReadRight(st)), None)
    case Right => (ReadRight(st), None)
    case Down => (ReadDown(st), None)
    case Out(k) => (State(EmitOut(st.tab, k), st.x, st.y), Some(k))
  }

  /** From a non-negative tableau on non-negative terms `recur` keeps the
      tableau non-negative and outputs a non-negative term. */
  lemma RecurKeepsNonNeg(st: State)
    requires NonNeg(st.tab) && NonNegFrom(st.x) && NonNegFrom(st.y)
    ensures NonNeg(Recur(st).0.tab) && NonNegFrom(Recur(st).0.x) && NonNegFrom(Recur(st).0.y)
    ensures Recur(st).1.Some? ==> Recur(st).1.value >= 0
  {
    var t := st.tab;
    MovesKeepNonNeg(t, st.x.Head());
    MovesKeepNonNeg(t, st.y.Head());
    MovesKeepNonNeg(MoveRight(t, st.x.Head()), st.y.Head());
    match Choose(t)
    case Out(k) =>
      assert t.p1 > 0 && t.q1 > 0 && t.r1 > 0 && t.s1 > 0;
      EmitOutRemainders(t, k);
      assert k >= 0 by {
        if k < 0 { MulAtLeast(t.p1, -k); }
      }
    case _ =>
  }

  /** One demand: run `recur` until it outputs (at most `fuel` times). */
  function Demand(st: State, fuel: nat): (r: Option<(int, State)>)
    ensures r.Some? ==> SameSources(st, r.value.1) && Consumed(st) <= Consumed(r.value.1)
    decreases fuel
  {
    if fuel == 0 then None
    else
      var (st1, out) := Recur(st);
      match out
      case Some(k) => Some((k, st1))
      case None => Demand(st1, fuel - 1)
  }

  /** A demand that needs `n` calls of `recur` has read at least n - 1
      input terms: every call that returns 0 consumes input. */
  function Calls(st: State, fuel: nat): nat
    decreases fuel
  {
    if fuel == 0 then 0
    else
      var (st1, out) := Recur(st);
      if out.Some? then 1 else 1 + Calls(st1, fuel - 1)
  }

  lemma {:induction false} DemandConsumes(st: State, fuel: nat)
    requires Demand(st, fuel).Some?
    ensures Calls(st, fuel) >= 1
    ensures Consumed(Demand(st, fuel).value.1) >= Consumed(st) + Calls(st, fuel) - 1
    decreases fuel
  {
    var (st1, out) := Recur(st);
    if out.None? {
      DemandConsumes(st1, fuel - 1);
    }
  }

  /** The engine after its start: a non-negative tableau on non-negative
      terms stays non-negative across a demand, and the term output is
      non-negative. */
  lemma {:induction false} DemandKeepsNonNeg(st: State, fuel: nat)
    requires NonNeg(st.tab) && NonNegFrom(st.x) && NonNegFrom(st.y)
    ensures Demand(st, fuel).Some? ==> Demand(st, fuel).value.0 >= 0
    ensures Demand(st, fuel).Some? ==> var st1 := Demand(st, fuel).value.1;
      NonNeg(st1.tab) && NonNegFrom(st1.x) && NonNegFrom(st1.y)
    decreases fuel
  {
    if fuel > 0 {
      RecurKeepsNonNeg(st);
      var (st1, out) := Recur(st);
      if out.None? {
        DemandKeepsNonNeg(st1, fuel - 1);
      }
    }
  }

  // ---------------------------------------------------------------------
  // The four arithmetic operations.

  /** `mpz8_set_add`: x + y. */
  function AddCoeffs(): seq<int> { [0, 1, 1, 0, 0, 0, 0, 1] }

  /** `mpz8_set_sub`: x - y. */
  function SubCoeffs(): seq<int> { [0, 1, -1, 0, 0, 0, 0, 1] }

  /** `mpz8_set_mul`: x * y. */
  function MulCoeffs(): seq<int> { [1, 0, 0, 0, 0, 0, 0, 1] }

  /** `mpz8_set_div`: x / y. */
  function DivCoeffs(): seq<int> { [0, 1, 0, 0, 0, 0, 1, 0] }

  /** The coefficient vectors denote the four operations: at x = xn/xd and
      y = yn/yd the tableau's numerator and denominator are those of
      xn/xd + yn/yd, xn/xd - yn/yd, (xn*yn)/(xd*yd) and (xn*yd)/(xd*yn). */
  lemma OperationsDenote(xn: int, xd: int, yn: int, yd: int)
    ensures Num(SetCoeff(AddCoeffs()), xn, xd, yn, yd) == xn * yd + yn * xd
    ensures Den(SetCoeff(AddCoeffs()), xn, xd, yn, yd) == xd * yd
    ensures Num(SetCoeff(SubCoeffs()), xn, xd, yn, yd) == xn * yd - yn * xd
    ensures Den(SetCoeff(SubCoeffs()), xn, xd, yn, yd) == xd * yd
    ensures Num(SetCoeff(MulCoeffs()), xn, xd, yn, yd) == xn * yn
    ensures Den(SetCoeff(MulCoeffs()), xn, xd, yn, yd) == xd * yd
    ensures Num(SetCoeff(DivCoeffs()), xn, xd, yn, yd) == xn * yd
    ensures Den(SetCoeff(DivCoeffs()), xn, xd, yn, yd) == xd * yn
  {}

  function Zeros(): seq<int> { seq(8, _ => 0) }

  /** `cf_new_add`: slots 1, 2 and 7 set to 1. */
  function NewAdd(): seq<int> { Zeros()[1 := 1][2 := 1][7 := 1] }

  /** `cf_new_sub`: slots 1 and 7 set to 1, slot 2 to -1. */
  function NewSub(): seq<int> { Zeros()[1 := 1][2 := -1][7 := 1] }

  /** `cf_new_mul`: slots 0 and 7 set to 1. */
  function NewMul(): seq<int> { Zeros()[0 := 1][7 := 1] }

  /** `cf_new_div`: slots 1 and 6 set to 1. */
  function NewDiv(): seq<int> { Zeros()[1 := 1][6 := 1] }

  /** `cf_new_add`, `cf_new_sub`, `cf_new_mul` and `cf_new_div` install the
      same vectors as the corresponding `mpz8_set_*`. */
  lemma ConstructorsMatchVectors()
    ensures NewAdd() == AddCoeffs() && NewSub() == SubCoeffs()
    ensures NewMul() == MulCoeffs() && NewDiv() == DivCoeffs()
  {
    assert forall i :: 0 <= i < 8 ==> NewAdd()[i] == AddCoeffs()[i];
    assert forall i :: 0 <= i < 8 ==> NewSub()[i] == SubCoeffs()[i];
    assert forall i :: 0 <= i < 8 ==> NewMul()[i] == MulCoeffs()[i];
    assert forall i :: 0 <= i < 8 ==> NewDiv()[i] == DivCoeffs()[i];
  }
}
