/** The older six-slot Möbius engine of cf_mobius.c.

    Besides the two last convergents `pold/qold` and `p/q` the tableau has
    room for the next one, `pnew/qnew`.  The recurrences write only the new
    slots, `Next` shifts them in, and the emission test looks at `p/q` and
    `pnew/qnew`.  Its lower bound is strict, which is the one behavioural
    difference from mobius.c; `DecideRefinesMobius` states the correspondence. */
module CfMobius {
  import opened Arith
  import opened Terms
  import M = Mobius
  import F = Famous

  datatype PQ6 = PQ6(pold: int, p: int, pnew: int, qold: int, q: int, qnew: int)

  /** `pqset_set_mobius`: (a, b, c, d) load as (p, pold, q, qold) = (a, b, c, d);
      the new slots start at 0 (`mpz_init`). */
  function SetMobius(a: int, b: int, c: int, d: int): (s: PQ6)
    ensures s.pnew == 0 && s.qnew == 0
    ensures Old(s) == M.SetMobius(a, b, c, d)
  {
    PQ6(b, a, 0, d, c, 0)
  }

  /** The four-slot tableau of mobius.c made of the two last convergents. */
  function Old(s: PQ6): M.PQ {
    M.PQ(s.pold, s.p, s.qold, s.q)
  }

  /** The four-slot tableau made of the last and the new convergent, which
      is what mobius.c holds after its recurrence. */
  function View(s: PQ6): M.PQ {
    M.PQ(s.p, s.pnew, s.q, s.qnew)
  }

  /** `pqset_regular_recur`: only the new slots are written. */
  function RegularRecur(s: PQ6, denom: int): (r: PQ6)
    ensures Old(r) == Old(s)
    ensures View(r) == M.RegularRecur(Old(s), denom)
  {
    s.(pnew := s.p * denom + s.pold, qnew := s.q * denom + s.qold)
  }

  /** `pqset_nonregular_recur`: pnew = den*p + num*pold, qnew likewise. */
  function NonregularRecur(s: PQ6, num: int, den: int): (r: PQ6)
    ensures Old(r) == Old(s)
    ensures View(r) == M.NonregularRecur(Old(s), num, den)
  {
    s.(pnew := s.p * den + s.pold * num, qnew := s.q * den + s.qold * num)
  }

  /** `pqset_next`: shift the new convergent in. */
  function Next(s: PQ6): (r: PQ6)
    ensures Old(r) == View(s)
    ensures r.pnew == s.pnew && r.qnew == s.qnew
  {
    PQ6(s.p, s.pnew, s.pnew, s.q, s.qnew, s.qnew)
  }

  /** `pqset_remove_gcd`: divide p, q, pnew, qnew by their gcd when it is not
      1, using pold and qold as scratch (pold ends as the gcd, qold as
      gcd(p, q)).  The source divides by zero on an all-zero view. */
  function RemoveGcd(s: PQ6): (r: PQ6)
    requires !M.AllZero(View(s))
    ensures View(r) == M.RemoveGcd(View(s))
    ensures r.pold == Gcd(Gcd(s.pnew, s.qnew), Gcd(s.p, s.q)) && r.qold == Gcd(s.p, s.q)
  {
    var v := M.RemoveGcd(View(s));
    PQ6(M.Gcd4(View(s)), v.pold, v.p, Gcd(s.p, s.q), v.qold, v.q)
  }

  // ---------------------------------------------------------------------
  // Emission.

  /** The emission test of cf_mobius.c: with t = floor(p/q), a term is
      emitted only when t*qnew < pnew < t*qnew + qnew (strict on both
      sides). */
  function Emit(s: PQ6): (r: Option<int>)
    ensures r.Some? ==> s.q != 0 && r.value == FloorDiv(s.p, s.q)
  {
    if s.q == 0 then None
    else
      var t := FloorDiv(s.p, s.q);
      if t * s.qnew < s.pnew && s.pnew < t * s.qnew + s.qnew then Some(t) else None
  }

  /** The strict test fires exactly when mobius.c's test fires on the same
      pair of fractions and the new fraction is not the integer t itself. */
  lemma EmitIsStrictMobiusEmit(s: PQ6)
    ensures Emit(s).Some? <==>
      M.Emit(View(s)).Some? && s.pnew != M.Emit(View(s)).value * s.qnew
    ensures Emit(s).Some? ==> Emit(s) == M.Emit(View(s))
  {}

  /** Continued-fraction output: (pold, qold, p, q) := (q, p - t*q, qnew,
      pnew - t*qnew); `Next` is skipped. */
  function InvertOut(s: PQ6, t: int): PQ6 {
    s.(pold := s.q, qold := s.p - t * s.q, p := s.qnew, q := s.pnew - t * s.qnew)
  }

  /** Decimal output: pold := 10*(p - t*q), qold := q, p := 10*(pnew - t*qnew),
      q := qnew. */
  function DecimalOut(s: PQ6, t: int): PQ6 {
    s.(pold := 10 * (s.p - t * s.q), qold := s.q, p := 10 * (s.pnew - t * s.qnew), q := s.qnew)
  }

  function Output(s: PQ6, t: int, mode: M.Mode): PQ6 {
    match mode
    case CfOutput => InvertOut(s, t)
    case DecimalOutput => DecimalOut(s, t)
  }

  datatype Step = Step(state: PQ6, out: Option<int>)

  /** The tail of every `recur`: emit and update, or run `pqset_next`. */
  function Decide(s: PQ6, mode: M.Mode): Step {
    match Emit(s)
    case None => Step(Next(s), None)
    case Some(t) => Step(Output(s, t, mode), Some(t))
  }

  /** The scratch values `pqset_remove_gcd` leaves in pold and qold are
      never read: the rest of `recur` gives the same result whatever they
      hold. */
  lemma DecideIgnoresScratch(s: PQ6, mode: M.Mode, x: int, y: int)
    ensures Decide(s.(pold := x, qold := y), mode) == Decide(s, mode)
  {}

  /** The six-slot `recur` is mobius.c's `recur` with a stricter guard: seen
      through the two last convergents, it emits the same term and leaves
      the same tableau whenever it emits, it emits nothing only where
      mobius.c also emits nothing or where pnew is exactly t*qnew, and when
      neither emits both keep the post-recurrence tableau. */
  lemma DecideRefinesMobius(s: PQ6, mode: M.Mode)
    ensures var r, m := Decide(s, mode), M.Decide(View(s), mode);
      (r.out.Some? ==> r.out == m.out && Old(r.state) == m.state) &&
      (r.out.None? ==> m.out.None? || s.pnew == m.out.value * s.qnew) &&
      (r.out.None? && m.out.None? ==> Old(r.state) == m.state)
  {
    EmitIsStrictMobiusEmit(s);
  }

  /** `recur` of mobius_decimal on one regular term. */
  function RegularStep(s: PQ6, a: int, mode: M.Mode): Step {
    Decide(RegularRecur(s, a), mode)
  }

  /** `recur` of mobius_nonregular_throughput and nonregular_mobius_decimal;
      `None` when the gcd step would divide by zero. */
  function NonregularStep(s: PQ6, num: int, den: int, mode: M.Mode): Option<Step> {
    var s1 := NonregularRecur(s, num, den);
    if M.AllZero(View(s1)) then None else Some(Decide(RemoveGcd(s1), mode))
  }

  /** The six-slot regular step against mobius.c's `RegularStep`. */
  lemma RegularStepRefinesMobius(s: PQ6, a: int, mode: M.Mode)
    ensures var r, m := RegularStep(s, a, mode), M.RegularStep(Old(s), a, mode);
      (r.out.Some? ==> r.out == m.out && Old(r.state) == m.state) &&
      (r.out.None? && m.out.None? ==> Old(r.state) == m.state)
  {
    DecideRefinesMobius(RegularRecur(s, a), mode);
  }

  /** The six-slot non-regular step against mobius.c's: both fault on the
      same inputs, and otherwise they agree as `DecideRefinesMobius` says. */
  lemma NonregularStepRefinesMobius(s: PQ6, num: int, den: int, mode: M.Mode)
    ensures NonregularStep(s, num, den, mode).None?
      <==> M.NonregularStep(Old(s), num, den, mode).None?
    ensures NonregularStep(s, num, den, mode).Some? ==>
      var r, m := NonregularStep(s, num, den, mode).value,
                  M.NonregularStep(Old(s), num, den, mode).value;
      (r.out.Some? ==> r.out == m.out && Old(r.state) == m.state) &&
      (r.out.None? && m.out.None? ==> Old(r.state) == m.state)
  {
    var s1 := NonregularRecur(s, num, den);
    if !M.AllZero(View(s1)) {
      DecideRefinesMobius(RemoveGcd(s1), mode);
    }
  }

  /** One demand on mobius_decimal: read, `recur`, until it emits. */
  function RegularDemand(s: PQ6, inp: Input, mode: M.Mode, fuel: nat): (r: Demand<PQ6>)
    ensures !r.Faulted?
    ensures r.Emitted? ==> r.rest.terms == inp.terms && inp.pos < r.rest.pos <= inp.pos + fuel
    decreases fuel
  {
    if fuel == 0 then Stalled
    else
      var st := RegularStep(s, inp.Head(), mode);
      match st.out
      case Some(t) => Emitted(t, st.state, inp.Tail())
      case None => RegularDemand(st.state, inp.Tail(), mode, fuel - 1)
  }

  /** One demand on the non-regular engines: read (num, den), `recur`,
      until it emits. */
  function NonregularDemand(s: PQ6, inp: Input, mode: M.Mode, fuel: nat): (r: Demand<PQ6>)
    ensures r.Emitted? ==>
      r.rest.terms == inp.terms && inp.pos + 2 <= r.rest.pos <= inp.pos + 2 * fuel
    decreases fuel
  {
    if fuel == 0 then Stalled
    else
      match NonregularStep(s, inp.Head(), inp.Tail().Head(), mode)
      case None => Faulted
      case Some(st) =>
        match st.out
        case Some(t) => Emitted(t, st.state, inp.Tail().Tail())
        case None => NonregularDemand(st.state, inp.Tail().Tail(), mode, fuel - 1)
  }

  /** The start of the non-regular engines: num = 1, read b0, `recur` once. */
  function NonregularStart(s: PQ6, inp: Input, mode: M.Mode): Option<(Step, Input)> {
    match NonregularStep(s, 1, inp.Head(), mode)
    case None => None
    case Some(st) => Some((st, inp.Tail()))
  }

  /** The six-slot start against mobius.c's from the same two last
      convergents: both fault together and read the same b0; an emission
      here is mobius.c's emission with the same tableau, and when neither
      emits they keep the same tableau. */
  lemma NonregularStartRefinesMobius(s: PQ6, inp: Input, mode: M.Mode)
    ensures NonregularStart(s, inp, mode).None? <==> M.NonregularStart(Old(s), inp, mode).None?
    ensures NonregularStart(s, inp, mode).Some? ==>
      var r, m := NonregularStart(s, inp, mode).value, M.NonregularStart(Old(s), inp, mode).value;
      r.1 == m.1 &&
      (r.0.out.Some? ==> r.0.out == m.0.out && Old(r.0.state) == m.0.state) &&
      (r.0.out.None? && m.0.out.None? ==> Old(r.0.state) == m.0.state)
  {
    NonregularStepRefinesMobius(s, 1, inp.Head(), mode);
  }

  /** A regular demand here against mobius.c's demand from the same two
      last convergents: when the six-slot engine emits, mobius.c's engine
      has emitted too, after no more terms; when both emit after the same
      number of terms, they emit the same term and the same tableau.
      mobius.c emits earlier exactly where the strict guard refuses the
      boundary case. */
  lemma {:induction false} RegularDemandRefinesMobius(s: PQ6, inp: Input, mode: M.Mode, fuel: nat)
    ensures var r, m := RegularDemand(s, inp, mode, fuel), M.RegularDemand(Old(s), inp, mode, fuel);
      r.Emitted? ==>
        m.Emitted? && m.rest.pos <= r.rest.pos &&
        (m.rest.pos == r.rest.pos ==> m.term == r.term && m.state == Old(r.state))
    decreases fuel
  {
    if fuel > 0 {
      RegularStepRefinesMobius(s, inp.Head(), mode);
      var st, mt := RegularStep(s, inp.Head(), mode), M.RegularStep(Old(s), inp.Head(), mode);
      if st.out.None? && mt.out.None? {
        RegularDemandRefinesMobius(st.state, inp.Tail(), mode, fuel - 1);
      }
    }
  }

  /** The same for the non-regular demands; the two engines also fault on
      the same pair, so a six-slot emission is never preceded by a mobius.c
      fault. */
  lemma {:induction false} NonregularDemandRefinesMobius(s: PQ6, inp: Input,
                                                         mode: M.Mode, fuel: nat)
    ensures var r, m := NonregularDemand(s, inp, mode, fuel),
                        M.NonregularDemand(Old(s), inp, mode, fuel);
      r.Emitted? ==>
        m.Emitted? && m.rest.pos <= r.rest.pos &&
        (m.rest.pos == r.rest.pos ==> m.term == r.term && m.state == Old(r.state))
    decreases fuel
  {
    if fuel > 0 {
      var num, den := inp.Head(), inp.Tail().Head();
      NonregularStepRefinesMobius(s, num, den, mode);
      var st, mt := NonregularStep(s, num, den, mode), M.NonregularStep(Old(s), num, den, mode);
      if st.Some? && st.value.out.None? && mt.value.out.None? {
        NonregularDemandRefinesMobius(st.value.state, inp.Tail().Tail(), mode, fuel - 1);
      }
    }
  }

  // ---------------------------------------------------------------------
  // The convergent engine `mobius`.

  /** Each demand reads one regular term, emits pnew then qnew, and shifts. */
  function ConvergentTerms(s: PQ6, inp: Input, demands: nat): (r: seq<int>)
    ensures |r| == 2 * demands
    decreases demands
  {
    if demands == 0 then []
    else
      var s1 := RegularRecur(s, inp.Head());
      [s1.pnew, s1.qnew] + ConvergentTerms(Next(s1), inp.Tail(), demands - 1)
  }

  /** The six-slot convergent engine emits exactly what mobius.c's
      `mobius_convergent` emits from the same two last convergents. */
  lemma {:induction false} ConvergentTermsAgree(s: PQ6, inp: Input, demands: nat)
    ensures ConvergentTerms(s, inp, demands) == M.ConvergentTerms(Old(s), inp, demands)
    decreases demands
  {
    if demands > 0 {
      var s1 := RegularRecur(s, inp.Head());
      ConvergentTermsAgree(Next(s1), inp.Tail(), demands - 1);
    }
  }

  // ---------------------------------------------------------------------
  // Where the strict guard loses output.

  /** Gauss's expansion of tanh 0: [0, 0, 1, 0, 3, 0, 5, ...]. */
  function TanhZero(): nat -> int {
    (i: nat) => F.GaussTerm(0, F.GaussSquare(0, false), i)
  }

  lemma TanhZeroTerms(i: nat)
    ensures i % 2 == 1 ==> TanhZero()(i) == 0
    ensures i % 2 == 0 && i >= 2 ==> TanhZero()(i) > 0
  {}

  /** While the tableau's p is 0 and q is positive, the strict guard never
      fires on a pair (0, den) with den > 0, and the engine keeps p = 0 and
      q > 0: a demand that reads only such pairs runs out of fuel. */
  lemma {:induction false} StallsWhileNumeratorsVanish(s: PQ6, inp: Input, fuel: nat)
    requires s.p == 0 && s.q > 0
    requires forall i: nat :: i >= inp.pos && i % 2 == inp.pos % 2 ==> inp.terms(i) == 0
    requires forall i: nat :: i >= inp.pos && i % 2 != inp.pos % 2 ==> inp.terms(i) > 0
    ensures NonregularDemand(s, inp, M.CfOutput, fuel) == Stalled
    decreases fuel
  {
    if fuel > 0 {
      var num, den := inp.Head(), inp.Tail().Head();
      assert num == 0 && den > 0;
      var s1 := NonregularRecur(s, num, den);
      assert s1.pnew == 0 && s1.qnew == s.q * den;
      Arith.MulPos(s.q, den);
      assert !M.AllZero(View(s1));
      var s2 := RemoveGcd(s1);
      var g := M.Gcd4(View(s1));
      assert s1.q == g * s2.q && s1.p == g * s2.p
        && s1.qnew == g * s2.qnew && s1.pnew == g * s2.pnew;
      PositiveQuotient(g, s1.q, s2.q);
      PositiveQuotient(g, s1.qnew, s2.qnew);
      ZeroQuotient(g, s2.p);
      ZeroQuotient(g, s2.pnew);
      Arith.FloorDivUnique(0, s2.q, 0);
      assert Emit(s2).None?;
      var rest := inp.Tail().Tail();
      StallsWhileNumeratorsVanish(Next(s2), rest, fuel - 1);
    }
  }

  lemma PositiveQuotient(g: int, x: int, y: int)
    requires g > 0 && x > 0 && x == g * y
    ensures y > 0
  {
    if y < 0 {
      Arith.MulPos(g, -y);
    }
  }

  lemma ZeroQuotient(g: int, y: int)
    requires g > 0 && 0 == g * y
    ensures y == 0
  {
    if y > 0 { Arith.MulPos(g, y); }
    if y < 0 { Arith.MulPos(g, -y); }
  }

  lemma UnitFactor(g: int, y: int)
    requires g > 0 && g * y == 1
    ensures g == 1 && y == 1
  {
    if y <= 0 {
      if y < 0 { Arith.MulPos(g, -y); }
    } else {
      Arith.MulAtLeast(g, y);
      if y > 1 { Arith.MulAtLeast(y, g); }
    }
  }

  /** A four-slot tableau with an old entry equal to 1 has gcd 1, so the gcd
      step leaves it as it is. */
  lemma RemoveGcdKeepsUnit(s: M.PQ)
    requires s.pold == 1 || s.qold == 1
    ensures !M.AllZero(s) && M.RemoveGcd(s) == s
  {
    var r := M.RemoveGcd(s);
    var g := M.Gcd4(s);
    assert M.Scaled(s, r, g);
    if s.pold == 1 {
      UnitFactor(g, r.pold);
    } else {
      UnitFactor(g, r.qold);
    }
  }

  lemma MobiusStepKeepsUnit(s: M.PQ, num: int, den: int)
    requires M.NonregularRecur(s, num, den).pold == 1 || M.NonregularRecur(s, num, den).qold == 1
    ensures M.NonregularStep(s, num, den, M.CfOutput)
      == Some(M.Decide(M.NonregularRecur(s, num, den), M.CfOutput))
  {
    RemoveGcdKeepsUnit(M.NonregularRecur(s, num, den));
  }

  lemma MobiusStartRecur(s: M.PQ, den: int)
    requires s.pold == 0 && s.p == 1 && s.qold == 1 && s.q == 0 && den == 0
    ensures M.NonregularRecur(s, 1, den) == M.PQ(1, 0, 0, 1)
  {}

  lemma MobiusDecideStart()
    ensures M.Decide(M.PQ(1, 0, 0, 1), M.CfOutput) == M.Step(M.PQ(1, 0, 0, 1), None)
  {}

  /** mobius.c's start on the identity tableau with b0 = 0: the tableau
      becomes (pold, p, qold, q) = (1, 0, 0, 1) and nothing is emitted. */
  lemma MobiusStartOnZero(s: M.PQ, den: int)
    requires s.pold == 0 && s.p == 1 && s.qold == 1 && s.q == 0 && den == 0
    ensures M.NonregularStep(s, 1, den, M.CfOutput) == Some(M.Step(M.PQ(1, 0, 0, 1), None))
  {
    MobiusStartRecur(s, den);
    MobiusStepKeepsUnit(s, 1, den);
    MobiusDecideStart();
  }

  lemma MobiusZeroRecur(s: M.PQ, num: int, den: int)
    requires s == M.PQ(1, 0, 0, 1) && num == 0
    ensures M.NonregularRecur(s, num, den) == M.PQ(0, 0, 1, den)
  {}

  lemma MobiusDecideZero(s: M.PQ)
    requires s.pold == 0 && s.p == 0 && s.qold == 1 && s.q > 0
    ensures M.Decide(s, M.CfOutput).out == Some(0)
  {
    Arith.FloorDivUnique(0, 1, 0);
  }

  /** mobius.c's next step from (1, 0, 0, 1) on a pair (0, den) with
      den > 0 emits 0. */
  lemma MobiusEmitsZero(s: M.PQ, num: int, den: int)
    requires s == M.PQ(1, 0, 0, 1) && num == 0 && den > 0
    ensures M.NonregularStep(s, num, den, M.CfOutput).Some?
    ensures M.NonregularStep(s, num, den, M.CfOutput).value.out == Some(0)
  {
    MobiusZeroRecur(s, num, den);
    MobiusStepKeepsUnit(s, num, den);
    MobiusDecideZero(M.PQ(0, 0, 1, den));
  }

  /** The shape of Gauss's expansion of tanh 0 that the two engines see
      from the start: b0 = 0, every partial numerator 0, every later partial
      denominator positive. */
  ghost predicate VanishingNumerators(inp: Input) {
    inp.pos == 0 && inp.terms(0) == 0 &&
    (forall i: nat :: i >= 1 && i % 2 == 1 ==> inp.terms(i) == 0) &&
    (forall i: nat :: i >= 1 && i % 2 != 1 ==> inp.terms(i) > 0)
  }

  lemma TanhZeroVanishes(inp: Input)
    requires inp == Input(TanhZero(), 0)
    ensures VanishingNumerators(inp)
  {
    forall i: nat {
      TanhZeroTerms(i);
    }
  }

  lemma CfStartRecur(s: PQ6, den: int)
    requires s.pold == 0 && s.p == 1 && s.qold == 1 && s.q == 0 && den == 0
    ensures View(NonregularRecur(s, 1, den)) == M.PQ(1, 0, 0, 1)
  {}

  lemma CfStepKeepsUnit(s: PQ6, num: int, den: int)
    requires View(NonregularRecur(s, num, den)).pold == 1
      || View(NonregularRecur(s, num, den)).qold == 1
    ensures NonregularStep(s, num, den, M.CfOutput).Some?
    ensures var r := NonregularStep(s, num, den, M.CfOutput).value;
      r == Decide(RemoveGcd(NonregularRecur(s, num, den)), M.CfOutput)
    ensures View(RemoveGcd(NonregularRecur(s, num, den))) == View(NonregularRecur(s, num, den))
  {
    RemoveGcdKeepsUnit(View(NonregularRecur(s, num, den)));
  }

  lemma CfDecideStart(s: PQ6)
    requires View(s) == M.PQ(1, 0, 0, 1)
    ensures Decide(s, M.CfOutput).out.None?
    ensures Decide(s, M.CfOutput).state.p == 0 && Decide(s, M.CfOutput).state.q == 1
  {}

  /** cf_mobius.c's start on the identity tableau with b0 = 0: the tableau
      becomes p = 0, q = 1 and nothing is emitted. */
  lemma CfMobiusStartOnZero(s: PQ6, den: int)
    requires s.pold == 0 && s.p == 1 && s.qold == 1 && s.q == 0 && den == 0
    ensures NonregularStep(s, 1, den, M.CfOutput).Some?
    ensures var st := NonregularStep(s, 1, den, M.CfOutput).value;
      st.out.None? && st.state.p == 0 && st.state.q == 1
  {
    CfStartRecur(s, den);
    CfStepKeepsUnit(s, 1, den);
    CfDecideStart(RemoveGcd(NonregularRecur(s, 1, den)));
  }
}
