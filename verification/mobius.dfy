/** The Möbius / convergent engine of mobius.c.

    The tableau (`pqset`) holds the two last convergents `pold/qold` and `p/q`
    and denotes the homographic function  x |-> (p*x + pold) / (q*x + qold)
    of the part of the input not yet read.  All algebra is stated
    homogeneously: the tail `x` is a ratio `xn/xd`, and `Num`/`Den` are the
    numerator and denominator of the denoted value at that ratio, so that no
    statement needs division. */
module Mobius {
  import opened Arith
  import opened Terms

  datatype PQ = PQ(pold: int, p: int, qold: int, q: int)

  /** Numerator of the denoted value at x = xn/xd (times xd). */
  function Num(s: PQ, xn: int, xd: int): int {
    s.p * xn + s.pold * xd
  }

  /** Denominator of the denoted value at x = xn/xd (times xd). */
  function Den(s: PQ, xn: int, xd: int): int {
    s.q * xn + s.qold * xd
  }

  function Det(s: PQ): int {
    s.p * s.qold - s.pold * s.q
  }

  predicate AllZero(s: PQ) {
    s.pold == 0 && s.p == 0 && s.qold == 0 && s.q == 0
  }

  predicate NonNeg(s: PQ) {
    s.pold >= 0 && s.p >= 0 && s.qold >= 0 && s.q >= 0
  }

  /** `pqset_set_mobius`: coefficients (a, b, c, d) are loaded so that the
      tableau denotes (a*x + b) / (c*x + d). */
  function SetMobius(a: int, b: int, c: int, d: int): (s: PQ)
    ensures forall xn, xd :: Num(s, xn, xd) == a * xn + b * xd
    ensures forall xn, xd :: Den(s, xn, xd) == c * xn + d * xd
    ensures Det(s) == a * d - b * c
  {
    PQ(b, a, d, c)
  }

  /** `pqset_regular_recur`: absorb one regular term `t`. */
  function RegularRecur(s: PQ, t: int): PQ {
    PQ(s.p, t * s.p + s.pold, s.q, t * s.q + s.qold)
  }

  /** The tableau after absorbing the regular terms `ts` from `s`, one
      `pqset_regular_recur` per term. */
  function FoldFrom(s: PQ, ts: seq<int>): PQ
    decreases |ts|
  {
    if ts == [] then s else FoldFrom(RegularRecur(s, ts[0]), ts[1..])
  }

  /** Absorbing the regular term `t` is the substitution x = t + 1/x': the
      new tableau at x' = xn/xd denotes what the old one denoted at
      x = (t*xn + xd)/xn.  The determinant changes sign. */
  lemma RegularRecurSubstitutes(s: PQ, t: int, xn: int, xd: int)
    ensures Num(RegularRecur(s, t), xn, xd) == Num(s, t * xn + xd, xn)
    ensures Den(RegularRecur(s, t), xn, xd) == Den(s, t * xn + xd, xn)
    ensures Det(RegularRecur(s, t)) == -Det(s)
  {
    var r := RegularRecur(s, t);
    calc {
      Num(r, xn, xd);
      (t * s.p + s.pold) * xn + s.p * xd;
      s.p * (t * xn + xd) + s.pold * xn;
    }
    calc {
      Den(r, xn, xd);
      (t * s.q + s.qold) * xn + s.q * xd;
      s.q * (t * xn + xd) + s.qold * xn;
    }
    calc {
      Det(r);
      (t * s.p + s.pold) * s.q - s.p * (t * s.q + s.qold);
      s.pold * s.q - s.p * s.qold;
    }
  }

  /** `pqset_nonregular_recur`: absorb the pair (num, den) of a non-regular
      continued fraction, A' = den*A + num*Aold. */
  function NonregularRecur(s: PQ, num: int, den: int): PQ {
    PQ(s.p, den * s.p + num * s.pold, s.q, den * s.q + num * s.qold)
  }

  /** The non-regular update is the substitution x = (den*x' + 1)/(num*x');
      the determinant is multiplied by -num. */
  lemma NonregularRecurSubstitutes(s: PQ, num: int, den: int, xn: int, xd: int)
    ensures Num(NonregularRecur(s, num, den), xn, xd) == Num(s, den * xn + xd, num * xn)
    ensures Den(NonregularRecur(s, num, den), xn, xd) == Den(s, den * xn + xd, num * xn)
    ensures Det(NonregularRecur(s, num, den)) == -num * Det(s)
  {
    var r := NonregularRecur(s, num, den);
    calc {
      Num(r, xn, xd);
      (den * s.p + num * s.pold) * xn + s.p * xd;
      s.p * (den * xn + xd) + s.pold * (num * xn);
    }
    calc {
      Den(r, xn, xd);
      (den * s.q + num * s.qold) * xn + s.q * xd;
      s.q * (den * xn + xd) + s.qold * (num * xn);
    }
    calc {
      Det(r);
      (den * s.p + num * s.pold) * s.q - s.p * (den * s.q + num * s.qold);
      num * (s.pold * s.q) - num * (s.p * s.qold);
      -num * Det(s);
    }
  }

  /** gcd of the four tableau entries, as `pqset_remove_gcd` computes it. */
  function Gcd4(s: PQ): nat {
    Gcd(Gcd(s.p, s.q), Gcd(s.pold, s.qold))
  }

  /** `r` is `s` with every entry divided by `g`. */
  predicate Scaled(s: PQ, r: PQ, g: int) {
    s.pold == g * r.pold && s.p == g * r.p && s.qold == g * r.qold && s.q == g * r.q
  }

  /** `pqset_remove_gcd`: divide all four entries by their common gcd when it
      is not 1.  An all-zero tableau has gcd 0 and the source would divide by
      zero, so it is excluded. */
  function RemoveGcd(s: PQ): (r: PQ)
    requires !AllZero(s)
    ensures Gcd4(s) > 0 && Scaled(s, r, Gcd4(s))
  {
    var g := Gcd4(s);
    RemoveGcdFacts(s);
    if g != 1 then PQ(s.pold / g, s.p / g, s.qold / g, s.q / g) else s
  }

  /** What is left after the gcd step has no common factor. */
  lemma RemoveGcdCoprime(s: PQ)
    requires !AllZero(s)
    ensures Gcd4(RemoveGcd(s)) == 1
  {
    ReducedGcd(s, RemoveGcd(s), Gcd4(s));
  }

  lemma RemoveGcdFacts(s: PQ)
    requires !AllZero(s)
    ensures Gcd4(s) > 0
    ensures s.pold == Gcd4(s) * (s.pold / Gcd4(s)) && s.p == Gcd4(s) * (s.p / Gcd4(s))
    ensures s.qold == Gcd4(s) * (s.qold / Gcd4(s)) && s.q == Gcd4(s) * (s.q / Gcd4(s))
  {
    var g1, g2 := Gcd(s.p, s.q), Gcd(s.pold, s.qold);
    var g := Gcd4(s);
    GcdZero(s.p, s.q);
    GcdZero(s.pold, s.qold);
    GcdZero(g1, g2);
    GcdDivides(s.p, s.q);
    GcdDivides(s.pold, s.qold);
    GcdDivides(g1, g2);
    DivTrans(g, g1, s.p);
    DivTrans(g, g1, s.q);
    DivTrans(g, g2, s.pold);
    DivTrans(g, g2, s.qold);
    DivExact(s.p, g);
    DivExact(s.q, g);
    DivExact(s.pold, g);
    DivExact(s.qold, g);
  }

  lemma DivTrans(a: int, b: int, c: int)
    requires Divides(a, b) && Divides(b, c)
    ensures Divides(a, c)
  {
    var i :| b == a * i;
    var j :| c == b * j;
    assert c == a * (i * j);
  }

  /** Dividing by the full gcd leaves entries whose gcd is 1. */
  lemma ReducedGcd(s: PQ, r: PQ, g: int)
    requires g == Gcd4(s) && g > 0 && Scaled(s, r, g)
    ensures Gcd4(r) == 1
  {
    var h := Gcd4(r);
    var h1, h2 := Gcd(r.p, r.q), Gcd(r.pold, r.qold);
    GcdDivides(r.p, r.q);
    GcdDivides(r.pold, r.qold);
    GcdDivides(h1, h2);
    DivTrans(h, h1, r.p);
    DivTrans(h, h1, r.q);
    DivTrans(h, h2, r.pold);
    DivTrans(h, h2, r.qold);
    // h*g divides every entry of s, hence divides g.
    ScaleDivides(h, g, r.p);
    ScaleDivides(h, g, r.q);
    ScaleDivides(h, g, r.pold);
    ScaleDivides(h, g, r.qold);
    GcdGreatest(s.p, s.q, h * g);
    GcdGreatest(s.pold, s.qold, h * g);
    GcdGreatest(Gcd(s.p, s.q), Gcd(s.pold, s.qold), h * g);
    assert !AllZero(r) by {
      GcdZero(s.p, s.q);
      GcdZero(s.pold, s.qold);
      GcdZero(Gcd(s.p, s.q), Gcd(s.pold, s.qold));
    }
    GcdZero(r.p, r.q);
    GcdZero(r.pold, r.qold);
    GcdZero(h1, h2);
    assert h > 0;
    MulPos(h, g);
    DividesBound(h * g, g);
    AtMostOne(h, g);
  }

  lemma AtMostOne(h: int, g: int)
    requires g > 0 && h * g <= g
    ensures h <= 1
  {
    if h > 1 {
      assert g * h == g * (h - 1) + g;
      MulAtLeast(g, h - 1);
    }
  }

  lemma ScaleDivides(h: int, g: int, x: int)
    requires Divides(h, x)
    ensures Divides(h * g, g * x)
  {
    var k :| x == h * k;
    assert g * x == (h * g) * k;
  }

  /** Removing the gcd leaves the denoted value unchanged: both numerator
      and denominator shrink by the same positive factor. */
  lemma RemoveGcdKeepsValue(s: PQ, xn: int, xd: int)
    requires !AllZero(s)
    ensures Num(s, xn, xd) == Gcd4(s) * Num(RemoveGcd(s), xn, xd)
    ensures Den(s, xn, xd) == Gcd4(s) * Den(RemoveGcd(s), xn, xd)
    ensures s.p * RemoveGcd(s).q == s.q * RemoveGcd(s).p
    ensures s.pold * RemoveGcd(s).qold == s.qold * RemoveGcd(s).pold
  {
    ScaledValue(s, RemoveGcd(s), Gcd4(s), xn, xd);
  }

  lemma ScaledValue(s: PQ, r: PQ, g: int, xn: int, xd: int)
    requires Scaled(s, r, g)
    ensures Num(s, xn, xd) == g * Num(r, xn, xd)
    ensures Den(s, xn, xd) == g * Den(r, xn, xd)
    ensures s.p * r.q == s.q * r.p
    ensures s.pold * r.qold == s.qold * r.pold
  {
    calc {
      Num(s, xn, xd);
      (g * r.p) * xn + (g * r.pold) * xd;
      g * (r.p * xn + r.pold * xd);
    }
    calc {
      Den(s, xn, xd);
      (g * r.q) * xn + (g * r.qold) * xd;
      g * (r.q * xn + r.qold * xd);
    }
    assert s.p * r.q == (g * r.p) * r.q == (g * r.q) * r.p;
    assert s.pold * r.qold == (g * r.pold) * r.qold == (g * r.qold) * r.pold;
  }

  // ---------------------------------------------------------------------
  // Emission.

  /** The emission test of mobius.c: with t = floor(pold/qold), a term is
      emitted only when t*q <= p < t*q + q. */
  function Emit(s: PQ): (r: Option<int>)
    ensures r.Some? ==> s.qold != 0 && r.value == FloorDiv(s.pold, s.qold)
  {
    if s.qold == 0 then None
    else
      var t := FloorDiv(s.pold, s.qold);
      if t * s.q <= s.p && s.p < t * s.q + s.q then Some(t) else None
  }

  /** The guard holds exactly when both denominators are usable (qold != 0,
      q > 0) and the two tracked fractions have the same floor. */
  lemma EmitIffFloorsAgree(s: PQ)
    ensures Emit(s).Some? <==>
      s.qold != 0 && s.q > 0 && FloorDiv(s.pold, s.qold) == FloorDiv(s.p, s.q)
    ensures Emit(s).Some? ==> Emit(s).value == FloorDiv(s.p, s.q)
  {
    if s.qold != 0 {
      var t := FloorDiv(s.pold, s.qold);
      if t * s.q <= s.p && s.p < t * s.q + s.q {
        assert s.q > 0;
        FloorDivUnique(s.p, s.q, t);
      }
    }
  }

  /** Soundness of the guard: when it fires on a tableau whose old
      denominator is positive, the denoted value has integer part t for
      every non-negative tail x = xn/xd, whatever the input does next. */
  lemma EmitSound(s: PQ, xn: int, xd: int)
    requires Emit(s).Some? && s.qold > 0
    requires xn >= 0 && xd >= 0 && (xn > 0 || xd > 0)
    ensures Emit(s).value * Den(s, xn, xd) <= Num(s, xn, xd)
    ensures Num(s, xn, xd) < (Emit(s).value + 1) * Den(s, xn, xd)
  {
    var t := Emit(s).value;
    var u, v := s.p - t * s.q, s.pold - t * s.qold;
    assert 0 <= u < s.q;
    assert 0 <= v < s.qold;
    assert Num(s, xn, xd) - t * Den(s, xn, xd) == u * xn + v * xd;
    assert (t + 1) * Den(s, xn, xd) - Num(s, xn, xd) == (s.q - u) * xn + (s.qold - v) * xd;
    if xn > 0 {
      MulPos(s.q - u, xn);
    } else {
      MulPos(s.qold - v, xd);
    }
  }

  /** Continued-fraction output: after emitting t the tableau is inverted so
      that it denotes 1/(V - t) where V is the value it denoted before. */
  function InvertOut(s: PQ, t: int): PQ {
    PQ(s.qold, s.q, s.pold - t * s.qold, s.p - t * s.q)
  }

  lemma InvertOutDenotesReciprocal(s: PQ, t: int, xn: int, xd: int)
    ensures Num(InvertOut(s, t), xn, xd) == Den(s, xn, xd)
    ensures Den(InvertOut(s, t), xn, xd) == Num(s, xn, xd) - t * Den(s, xn, xd)
    ensures Det(InvertOut(s, t)) == -Det(s)
  {
    var r := InvertOut(s, t);
    assert Den(r, xn, xd) == (s.p - t * s.q) * xn + (s.pold - t * s.qold) * xd;
    calc {
      Det(r);
      s.q * (s.pold - t * s.qold) - s.qold * (s.p - t * s.q);
      s.q * s.pold - s.qold * s.p;
    }
  }

  /** Decimal output: after emitting t the remainders are multiplied by 10,
      so the tableau denotes 10*(V - t). */
  function DecimalOut(s: PQ, t: int): PQ {
    PQ(10 * (s.pold - t * s.qold), 10 * (s.p - t * s.q), s.qold, s.q)
  }

  lemma DecimalOutDenotesShift(s: PQ, t: int, xn: int, xd: int)
    ensures Num(DecimalOut(s, t), xn, xd) == 10 * (Num(s, xn, xd) - t * Den(s, xn, xd))
    ensures Den(DecimalOut(s, t), xn, xd) == Den(s, xn, xd)
    ensures Det(DecimalOut(s, t)) == 10 * Det(s)
  {
    var r := DecimalOut(s, t);
    calc {
      Det(r);
      10 * (s.p - t * s.q) * s.qold - 10 * (s.pold - t * s.qold) * s.q;
      10 * (s.p * s.qold - s.pold * s.q);
    }
  }

  /** After an emission the remainders lie in [0, q) and [0, qold) when the
      old denominator is positive. */
  lemma InvertOutRemainders(s: PQ)
    requires Emit(s).Some? && s.qold > 0
    ensures var r := InvertOut(s, Emit(s).value);
      0 <= r.q < s.q && 0 <= r.qold < s.qold && r.qold == FloorMod(s.pold, s.qold)
  {}

  // ---------------------------------------------------------------------
  // The `recur` steps of the four emitting engines.

  datatype Mode = CfOutput | DecimalOutput

  function Output(s: PQ, t: int, mode: Mode): PQ {
    match mode
    case CfOutput => InvertOut(s, t)
    case DecimalOutput => DecimalOut(s, t)
  }

  datatype Step = Step(state: PQ, out: Option<int>)

  /** Emit if the guard allows, otherwise keep the tableau as it is. */
  function Decide(s: PQ, mode: Mode): (r: Step)
    ensures r.out == Emit(s)
    ensures r.out.None? ==> r.state == s
  {
    match Emit(s)
    case None => Step(s, None)
    case Some(t) => Step(Output(s, t, mode), Some(t))
  }

  /** `recur` of mobius_throughput / mobius_decimal on one regular term. */
  function RegularStep(s: PQ, a: int, mode: Mode): Step {
    Decide(RegularRecur(s, a), mode)
  }

  /** `recur` of mobius_nonregular_throughput / nonregular_mobius_decimal on
      one (num, den) pair; `None` when the gcd step would divide by zero. */
  function NonregularStep(s: PQ, num: int, den: int, mode: Mode): Option<Step> {
    var s1 := NonregularRecur(s, num, den);
    if AllZero(s1) then None else Some(Decide(RemoveGcd(s1), mode))
  }

  /** One demand on a regular-input emitting engine: read a term and run
      `recur`, and repeat until it emits (at most `fuel` times). */
  function RegularDemand(s: PQ, inp: Input, mode: Mode, fuel: nat): (r: Demand<PQ>)
    ensures !r.Faulted?
    ensures r.Emitted? ==> r.rest.terms == inp.terms && inp.pos < r.rest.pos <= inp.pos + fuel
    decreases fuel
  {
    if fuel == 0 then Stalled
    else
      var st := RegularStep(s, inp.Head(), mode);
      match st.out
      case Some(t) => Emitted(t, st.state, inp.Tail())
      case None => RegularDemand(st.state, inp.Tail(), mode, fuel - 1)
  }

  /** One demand on a non-regular-input emitting engine: read a (num, den)
      pair and run `recur`, repeating until it emits. */
  function NonregularDemand(s: PQ, inp: Input, mode: Mode, fuel: nat): (r: Demand<PQ>)
    ensures r.Emitted? ==>
      r.rest.terms == inp.terms && inp.pos + 2 <= r.rest.pos <= inp.pos + 2 * fuel
    decreases fuel
  {
    if fuel == 0 then Stalled
    else
      match NonregularStep(s, inp.Head(), inp.Tail().Head(), mode)
      case None => Faulted
      case Some(st) =>
        match st.out
        case Some(t) => Emitted(t, st.state, inp.Tail().Tail())
        case None => NonregularDemand(st.state, inp.Tail().Tail(), mode, fuel - 1)
  }

  /** The start of the non-regular engines: with num = 1 read the leading
      term b0 and run `recur` once; a term it emits goes out before any
      demand.  It is the guard on the reduced fold over the pair (1, b0):
      it faults exactly when that fold does, and otherwise emits what the
      guard gives there, with the matching update. */
  function NonregularStart(s: PQ, inp: Input, mode: Mode): (r: Option<(Step, Input)>)
    ensures r.None? <==> NonregularFold(s, [1, inp.Head()]).None?
    ensures r.Some? ==>
      var u := NonregularFold(s, [1, inp.Head()]).value;
      r.value.1 == inp.Tail() && r.value.0.out == Emit(u) &&
      r.value.0.state == (if Emit(u).Some? then Output(u, Emit(u).value, mode) else u)
  {
    assert [1, inp.Head()][2..] == [];
    match NonregularStep(s, 1, inp.Head(), mode)
    case None => None
    case Some(st) => Some((st, inp.Tail()))
  }

  // ---------------------------------------------------------------------
  // What a demand emits.

  /** Reading k >= 1 terms is reading the head first. */
  lemma FoldTake(s: PQ, inp: Input, k: nat)
    requires k >= 1
    ensures FoldFrom(s, Take(inp, k))
      == FoldFrom(RegularRecur(s, inp.Head()), Take(inp.Tail(), k - 1))
  {
    TakeCons(inp, k - 1);
    assert ([inp.Head()] + Take(inp.Tail(), k - 1))[1..] == Take(inp.Tail(), k - 1);
  }

  /** The guard stays silent on the tableaux after the first 1, ..., n - 1
      terms. */
  predicate Quiet(s: PQ, inp: Input, n: nat) {
    forall k :: 1 <= k < n ==> Emit(FoldFrom(s, Take(inp, k))).None?
  }

  lemma QuietCons(s: PQ, inp: Input, n: nat)
    requires n >= 1 && Emit(RegularRecur(s, inp.Head())).None?
    requires Quiet(RegularRecur(s, inp.Head()), inp.Tail(), n - 1)
    ensures Quiet(s, inp, n)
  {
    forall k | 1 <= k < n ensures Emit(FoldFrom(s, Take(inp, k))).None? {
      FoldTake(s, inp, k);
      if k == 1 {
        assert Take(inp.Tail(), 0) == [];
      }
    }
  }

  /** A regular demand reads terms until the guard fires on the tableau
      after the terms read so far, then emits that guard's term with the
      matching output update; a stalled demand saw the guard silent after
      each of its `fuel` terms. */
  lemma {:induction false} RegularDemandEmits(s: PQ, inp: Input, mode: Mode, fuel: nat)
    ensures var r := RegularDemand(s, inp, mode, fuel);
      r.Emitted? ==>
        var u := FoldFrom(s, Take(inp, r.rest.pos - inp.pos));
        Emit(u) == Some(r.term) && r.state == Output(u, r.term, mode) &&
        Quiet(s, inp, r.rest.pos - inp.pos)
    ensures RegularDemand(s, inp, mode, fuel).Stalled? ==> Quiet(s, inp, fuel + 1)
    decreases fuel
  {
    if fuel > 0 {
      var s1 := RegularRecur(s, inp.Head());
      FoldTake(s, inp, 1);
      assert Take(inp.Tail(), 0) == [];
      if Emit(s1).None? {
        RegularDemandEmits(s1, inp.Tail(), mode, fuel - 1);
        var r := RegularDemand(s1, inp.Tail(), mode, fuel - 1);
        if r.Emitted? {
          FoldTake(s, inp, r.rest.pos - inp.pos);
          QuietCons(s, inp, r.rest.pos - inp.pos);
        } else if r.Stalled? {
          QuietCons(s, inp, fuel + 1);
        }
      }
    }
  }

  /** The first k (num, den) pairs of a source. */
  function Pairs(inp: Input, k: nat): seq<int> {
    Take(inp, 2 * k)
  }

  /** The tableau after the (num, den) pairs at the front of `ts`, each
      followed by the gcd step; `None` when a step meets an all-zero
      tableau.  A last unpaired term is ignored. */
  function NonregularFold(s: PQ, ts: seq<int>): Option<PQ>
    decreases |ts|
  {
    if |ts| < 2 then Some(s)
    else
      var s1 := NonregularRecur(s, ts[0], ts[1]);
      if AllZero(s1) then None else NonregularFold(RemoveGcd(s1), ts[2..])
  }

  /** Reading k >= 1 pairs is reading the first pair and then k - 1 more. */
  lemma NonregularFoldPairs(s: PQ, inp: Input, k: nat)
    requires k >= 1
    ensures var s1 := NonregularRecur(s, inp.Head(), inp.Tail().Head());
      NonregularFold(s, Pairs(inp, k)) ==
        if AllZero(s1) then None else NonregularFold(RemoveGcd(s1), Pairs(inp.Tail().Tail(), k - 1))
  {
    assert Pairs(inp, k)[2..] == Pairs(inp.Tail().Tail(), k - 1);
  }

  /** The guard stays silent on the reduced tableaux after the first
      1, ..., n - 1 pairs, none of which faults. */
  predicate NonregularQuiet(s: PQ, inp: Input, n: nat) {
    forall k :: 1 <= k < n ==>
      NonregularFold(s, Pairs(inp, k)).Some? && Emit(NonregularFold(s, Pairs(inp, k)).value).None?
  }

  lemma NonregularQuietCons(s: PQ, inp: Input, n: nat)
    requires n >= 1
    requires var s1 := NonregularRecur(s, inp.Head(), inp.Tail().Head());
      !AllZero(s1) && Emit(RemoveGcd(s1)).None? &&
      NonregularQuiet(RemoveGcd(s1), inp.Tail().Tail(), n - 1)
    ensures NonregularQuiet(s, inp, n)
  {
    forall k | 1 <= k < n
      ensures NonregularFold(s, Pairs(inp, k)).Some?
        && Emit(NonregularFold(s, Pairs(inp, k)).value).None?
    {
      NonregularFoldPairs(s, inp, k);
      if k == 1 {
        assert Pairs(inp.Tail().Tail(), 0) == [];
      }
    }
  }

  /** The guard first fires after n pairs, emitting `t` and leaving `st`. */
  predicate EmitsAfterPairs(s: PQ, inp: Input, mode: Mode, n: nat, t: int, st: PQ) {
    NonregularFold(s, Pairs(inp, n)).Some? &&
    Emit(NonregularFold(s, Pairs(inp, n)).value) == Some(t) &&
    st == Output(NonregularFold(s, Pairs(inp, n)).value, t, mode) &&
    NonregularQuiet(s, inp, n)
  }

  lemma EmitsAfterPairsCons(s: PQ, inp: Input, mode: Mode, n: nat, t: int, st: PQ)
    requires var s1 := NonregularRecur(s, inp.Head(), inp.Tail().Head());
      !AllZero(s1) && Emit(RemoveGcd(s1)).None? &&
      EmitsAfterPairs(RemoveGcd(s1), inp.Tail().Tail(), mode, n, t, st)
    ensures EmitsAfterPairs(s, inp, mode, n + 1, t, st)
  {
    NonregularFoldPairs(s, inp, n + 1);
    NonregularQuietCons(s, inp, n + 1);
  }

  /** One more pair adds 2 to an even count of terms read and 1 to the
      count of pairs. */
  lemma PairCount(m: int)
    requires m % 2 == 0
    ensures (m + 2) % 2 == 0 && (m + 2) / 2 == m / 2 + 1
  {
  }

  /** A demand whose first pair makes the guard fire emits after one pair. */
  lemma NonregularDemandFirst(s: PQ, inp: Input, mode: Mode, fuel: nat)
    requires fuel > 0
    requires var s1 := NonregularRecur(s, inp.Head(), inp.Tail().Head());
      !AllZero(s1) && Emit(RemoveGcd(s1)).Some?
    ensures var r := NonregularDemand(s, inp, mode, fuel);
      r.Emitted? && r.rest == inp.Tail().Tail() && EmitsAfterPairs(s, inp, mode, 1, r.term, r.state)
  {
    NonregularFoldPairs(s, inp, 1);
    assert Pairs(inp.Tail().Tail(), 0) == [];
  }

  /** A demand whose first pair leaves the guard silent goes on from the
      reduced tableau after that pair. */
  lemma NonregularDemandSkips(s: PQ, inp: Input, mode: Mode, fuel: nat)
    requires fuel > 0
    requires var s1 := NonregularRecur(s, inp.Head(), inp.Tail().Head());
      !AllZero(s1) && Emit(RemoveGcd(s1)).None?
    ensures var s2 := RemoveGcd(NonregularRecur(s, inp.Head(), inp.Tail().Head()));
      NonregularDemand(s, inp, mode, fuel)
        == NonregularDemand(s2, inp.Tail().Tail(), mode, fuel - 1)
  {
  }

  /** The demand result `r` read an even number of terms, n pairs, and
      emitted what the guard gives after those n pairs. */
  predicate EmitsFromPairs(s: PQ, inp: Input, mode: Mode, r: Demand<PQ>) {
    r.Emitted? ==>
      inp.pos <= r.rest.pos && (r.rest.pos - inp.pos) % 2 == 0 &&
      EmitsAfterPairs(s, inp, mode, (r.rest.pos - inp.pos) / 2, r.term, r.state)
  }

  /** The step of the induction: a silent first pair passes the property
      back from the rest of the demand. */
  lemma NonregularDemandEmitsLater(s: PQ, inp: Input, mode: Mode, fuel: nat)
    requires fuel > 0
    requires var s1 := NonregularRecur(s, inp.Head(), inp.Tail().Head());
      !AllZero(s1) && Emit(RemoveGcd(s1)).None? &&
      EmitsFromPairs(RemoveGcd(s1), inp.Tail().Tail(), mode,
        NonregularDemand(RemoveGcd(s1), inp.Tail().Tail(), mode, fuel - 1))
    ensures EmitsFromPairs(s, inp, mode, NonregularDemand(s, inp, mode, fuel))
  {
    var s2 := RemoveGcd(NonregularRecur(s, inp.Head(), inp.Tail().Head()));
    var rest := inp.Tail().Tail();
    NonregularDemandSkips(s, inp, mode, fuel);
    var r := NonregularDemand(s2, rest, mode, fuel - 1);
    if r.Emitted? {
      PairCount(r.rest.pos - rest.pos);
      EmitsAfterPairsCons(s, inp, mode, (r.rest.pos - rest.pos) / 2, r.term, r.state);
    }
  }

  /** A non-regular demand reads (num, den) pairs until the guard fires on
      the reduced tableau after the pairs read so far, and emits that
      guard's term with the matching update. */
  lemma {:induction false} NonregularDemandEmits(s: PQ, inp: Input, mode: Mode, fuel: nat)
    ensures var r := NonregularDemand(s, inp, mode, fuel);
      r.Emitted? ==>
        (r.rest.pos - inp.pos) % 2 == 0 &&
        EmitsAfterPairs(s, inp, mode, (r.rest.pos - inp.pos) / 2, r.term, r.state)
    decreases fuel
  {
    if fuel > 0 {
      var s1 := NonregularRecur(s, inp.Head(), inp.Tail().Head());
      if !AllZero(s1) {
        if Emit(RemoveGcd(s1)).Some? {
          NonregularDemandFirst(s, inp, mode, fuel);
        } else {
          NonregularDemandEmits(RemoveGcd(s1), inp.Tail().Tail(), mode, fuel - 1);
          NonregularDemandEmitsLater(s, inp, mode, fuel);
        }
      }
    }
    assert EmitsFromPairs(s, inp, mode, NonregularDemand(s, inp, mode, fuel));
  }

  /** A stalled non-regular demand saw the guard silent after each of its
      `fuel` pairs. */
  lemma {:induction false} NonregularDemandStalls(s: PQ, inp: Input, mode: Mode, fuel: nat)
    ensures NonregularDemand(s, inp, mode, fuel).Stalled? ==> NonregularQuiet(s, inp, fuel + 1)
    decreases fuel
  {
    if fuel > 0 {
      var s1 := NonregularRecur(s, inp.Head(), inp.Tail().Head());
      if !AllZero(s1) && Emit(RemoveGcd(s1)).None? {
        var s2 := RemoveGcd(s1);
        var rest := inp.Tail().Tail();
        NonregularDemandStalls(s2, rest, mode, fuel - 1);
        assert NonregularDemand(s, inp, mode, fuel) == NonregularDemand(s2, rest, mode, fuel - 1);
        if NonregularDemand(s2, rest, mode, fuel - 1).Stalled? {
          NonregularQuietCons(s, inp, fuel + 1);
        }
      }
    }
  }

  /** A non-regular demand faults only where the fold over its `fuel` pairs
      meets an all-zero tableau. */
  lemma {:induction false} NonregularDemandFaults(s: PQ, inp: Input, mode: Mode, fuel: nat)
    ensures NonregularDemand(s, inp, mode, fuel).Faulted?
      ==> NonregularFold(s, Pairs(inp, fuel)).None?
    decreases fuel
  {
    if fuel > 0 {
      var s1 := NonregularRecur(s, inp.Head(), inp.Tail().Head());
      NonregularFoldPairs(s, inp, fuel);
      if !AllZero(s1) && Emit(RemoveGcd(s1)).None? {
        NonregularDemandFaults(RemoveGcd(s1), inp.Tail().Tail(), mode, fuel - 1);
      }
    }
  }

  // ---------------------------------------------------------------------
  // Sign determination (mobius_throughput and mobius_decimal).

  predicate SignsAgree(s: PQ) {
    Sign(s.pold) == Sign(s.p) && Sign(s.qold) == Sign(s.q)
  }

  function Flip(neg: bool): int {
    if neg then -1 else 1
  }

  datatype Signed = Signed(state: PQ, rest: Input, negative: bool)

  /** The reading loop of `determine_sign`: absorb regular terms until the
      two numerators agree in sign and the two denominators agree in sign. */
  function SignLoop(s: PQ, inp: Input, fuel: nat): (r: Option<(PQ, Input)>)
    ensures r.Some? ==> SignsAgree(r.value.0) && r.value.1.terms == inp.terms
    ensures r.Some? ==> inp.pos <= r.value.1.pos <= inp.pos + fuel
    ensures SignsAgree(s) ==> r == Some((s, inp))
    decreases fuel
  {
    if SignsAgree(s) then Some((s, inp))
    else if fuel == 0 then None
    else SignLoop(RegularRecur(s, inp.Head()), inp.Tail(), fuel - 1)
  }

  /** The negation pass of `determine_sign`: negate a column whose entries
      are negative and flip the output sign flag once per negation. */
  function NormalizeSign(s: PQ, negative: bool): (r: (PQ, bool))
    requires SignsAgree(s)
    ensures NonNeg(r.0)
    ensures forall xn, xd ::
      Flip(r.1) * Num(r.0, xn, xd) * Den(s, xn, xd)
        == Flip(negative) * Num(s, xn, xd) * Den(r.0, xn, xd)
  {
    var s1 := if s.qold < 0 then PQ(s.pold, s.p, -s.qold, -s.q) else s;
    var n1 := if s.qold < 0 then !negative else negative;
    var s2 := if s1.pold < 0 then PQ(-s1.pold, -s1.p, s1.qold, s1.q) else s1;
    var n2 := if s1.pold < 0 then !n1 else n1;
    (s2, n2)
  }

  /** `determine_sign`: the output sign starts as the input's sign, the loop
      reads until the signs agree, and the negation pass leaves all four
      entries non-negative. */
  function DetermineSign(s: PQ, inp: Input, inputNegative: bool, fuel: nat): (r: Option<Signed>)
    ensures r.Some? ==> NonNeg(r.value.state) && r.value.rest.terms == inp.terms
    ensures r.Some? ==> inp.pos <= r.value.rest.pos <= inp.pos + fuel
  {
    match SignLoop(s, inp, fuel)
    case None => None
    case Some((s1, rest)) =>
      var (s2, neg) := NormalizeSign(s1, inputNegative);
      Some(Signed(s2, rest, neg))
  }

  // ---------------------------------------------------------------------
  // Decimal output produces digits.

  /** Both tracked fractions lie in [0, 10). */
  predicate DigitRange(s: PQ) {
    0 <= s.p < 10 * s.q && 0 <= s.pold < 10 * s.qold
  }

  lemma RecurKeepsNonNeg(s: PQ, a: int)
    requires NonNeg(s) && a >= 0
    ensures NonNeg(RegularRecur(s, a))
  {
    assert a * s.p >= 0 && a * s.q >= 0 by {
      if a > 0 && s.p > 0 { MulPos(a, s.p); }
      if a > 0 && s.q > 0 { MulPos(a, s.q); }
    }
  }

  lemma RecurKeepsDigitRange(s: PQ, a: int)
    requires DigitRange(s) && a >= 0
    ensures DigitRange(RegularRecur(s, a))
  {
    var r := RegularRecur(s, a);
    assert 10 * r.q - r.p == a * (10 * s.q - s.p) + (10 * s.qold - s.pold);
    assert a * (10 * s.q - s.p) >= 0 by {
      if a > 0 { MulPos(a, 10 * s.q - s.p); }
    }
    assert a * s.p >= 0 by {
      if a > 0 && s.p > 0 { MulPos(a, s.p); }
    }
  }

  /** One decimal step from a non-negative tableau on a non-negative term:
      the tableau stays non-negative, and once a term has been emitted both
      fractions lie in [0, 10). */
  lemma DecimalStepFromNonNeg(s: PQ, a: int)
    requires NonNeg(s) && a >= 0
    ensures NonNeg(RegularStep(s, a, DecimalOutput).state)
    ensures RegularStep(s, a, DecimalOutput).out.Some?
      ==> DigitRange(RegularStep(s, a, DecimalOutput).state)
  {
    var s1 := RegularRecur(s, a);
    RecurKeepsNonNeg(s, a);
    match Emit(s1)
    case None =>
    case Some(t) =>
      EmitIffFloorsAgree(s1);
      var r := DecimalOut(s1, t);
      assert 0 <= s1.pold - t * s1.qold < s1.qold;
      assert 0 <= s1.p - t * s1.q < s1.q;
  }

  /** From a tableau in digit range every emitted term is a digit 0..9 and
      the range is kept. */
  lemma DecimalStepDigit(s: PQ, a: int)
    requires DigitRange(s) && a >= 0
    ensures DigitRange(RegularStep(s, a, DecimalOutput).state)
    ensures RegularStep(s, a, DecimalOutput).out.Some?
      ==> 0 <= RegularStep(s, a, DecimalOutput).out.value <= 9
  {
    var s1 := RegularRecur(s, a);
    RecurKeepsDigitRange(s, a);
    match Emit(s1)
    case None =>
    case Some(t) =>
      EmitIffFloorsAgree(s1);
      assert s1.qold > 0;
      assert 0 <= t by {
        if t < 0 { MulAtLeast(s1.qold, -t); }
      }
      assert t <= 9 by {
        if t >= 10 { MulAtLeast(s1.qold, t - 9); }
      }
  }

  ghost predicate NonNegFrom(inp: Input) {
    forall i: nat :: inp.pos <= i ==> inp.terms(i) >= 0
  }

  /** The terms a decimal engine emits on `demands` demands (each demand
      retrying at most `fuel` times); the list is cut short when a demand
      stalls. */
  function DecimalTerms(s: PQ, inp: Input, demands: nat, fuel: nat): seq<int>
    decreases demands
  {
    if demands == 0 then []
    else
      match RegularDemand(s, inp, DecimalOutput, fuel)
      case Emitted(t, s1, rest) => [t] + DecimalTerms(s1, rest, demands - 1, fuel)
      case _ => []
  }

  lemma {:induction false} DemandFromNonNeg(s: PQ, inp: Input, fuel: nat)
    requires NonNeg(s) && NonNegFrom(inp)
    ensures var d := RegularDemand(s, inp, DecimalOutput, fuel);
      d.Emitted? ==> DigitRange(d.state) && NonNegFrom(d.rest)
    decreases fuel
  {
    if fuel > 0 {
      DecimalStepFromNonNeg(s, inp.Head());
      var st := RegularStep(s, inp.Head(), DecimalOutput);
      if st.out.None? {
        DemandFromNonNeg(st.state, inp.Tail(), fuel - 1);
      }
    }
  }

  lemma {:induction false} DemandDigit(s: PQ, inp: Input, fuel: nat)
    requires DigitRange(s) && NonNegFrom(inp)
    ensures var d := RegularDemand(s, inp, DecimalOutput, fuel);
      d.Emitted? ==> DigitRange(d.state) && NonNegFrom(d.rest) && 0 <= d.term <= 9
    decreases fuel
  {
    if fuel > 0 {
      DecimalStepDigit(s, inp.Head());
      var st := RegularStep(s, inp.Head(), DecimalOutput);
      if st.out.None? {
        DemandDigit(st.state, inp.Tail(), fuel - 1);
      }
    }
  }

  lemma {:induction false} DigitsStayDigits(s: PQ, inp: Input, demands: nat, fuel: nat)
    requires DigitRange(s) && NonNegFrom(inp)
    ensures forall i :: 0 <= i < |DecimalTerms(s, inp, demands, fuel)| ==>
      0 <= DecimalTerms(s, inp, demands, fuel)[i] <= 9
    decreases demands
  {
    if demands > 0 {
      DemandDigit(s, inp, fuel);
      match RegularDemand(s, inp, DecimalOutput, fuel)
      case Emitted(t, s1, rest) =>
        DigitsStayDigits(s1, rest, demands - 1, fuel);
      case _ =>
    }
  }

  /** Decimal output: from a non-negative tableau (as `determine_sign`
      leaves it) on non-negative input terms, every emitted term after the
      first (the integer part) is a decimal digit. */
  lemma {:induction false} DecimalTermsAreDigits(s: PQ, inp: Input, demands: nat, fuel: nat)
    requires NonNeg(s) && NonNegFrom(inp)
    ensures forall i :: 1 <= i < |DecimalTerms(s, inp, demands, fuel)| ==>
      0 <= DecimalTerms(s, inp, demands, fuel)[i] <= 9
  {
    if demands > 0 {
      DemandFromNonNeg(s, inp, fuel);
      match RegularDemand(s, inp, DecimalOutput, fuel)
      case Emitted(t, s1, rest) =>
        DigitsStayDigits(s1, rest, demands - 1, fuel);
      case _ =>
    }
  }

  /** mobius_decimal end to end on regular input: after `determine_sign`
      every output term but the first (the integer part) is a digit, when
      the terms a1, a2, ... are non-negative and the leading term a0 is
      non-negative or was already absorbed by `determine_sign`. */
  lemma DecimalEngineDigits(s: PQ, inp: Input, negative: bool, signFuel: nat,
                            demands: nat, fuel: nat)
    requires NonNegFrom(inp.Tail())
    requires DetermineSign(s, inp, negative, signFuel).Some?
    requires inp.Head() >= 0 || DetermineSign(s, inp, negative, signFuel).value.rest.pos > inp.pos
    ensures var sg := DetermineSign(s, inp, negative, signFuel).value;
      forall i :: 1 <= i < |DecimalTerms(sg.state, sg.rest, demands, fuel)| ==>
        0 <= DecimalTerms(sg.state, sg.rest, demands, fuel)[i] <= 9
  {
    var sg := DetermineSign(s, inp, negative, signFuel).value;
    assert NonNegFrom(sg.rest);
    DecimalTermsAreDigits(sg.state, sg.rest, demands, fuel);
  }

  // ---------------------------------------------------------------------
  // The convergent engines.

  /** mobius_convergent: each demand reads one regular term, advances the
      tableau and emits the new p then the new q. */
  function ConvergentTerms(s: PQ, inp: Input, demands: nat): (r: seq<int>)
    ensures |r| == 2 * demands
    decreases demands
  {
    if demands == 0 then []
    else
      var s1 := RegularRecur(s, inp.Head());
      [s1.p, s1.q] + ConvergentTerms(s1, inp.Tail(), demands - 1)
  }

  /** The demands of nonregular_mobius_convergent after its start: each
      reads a (num, den) pair, advances the tableau, removes the gcd and emits
      p, q.  `None` when the gcd step would divide by zero. */
  function NonregularConvergentTerms(s: PQ, inp: Input, demands: nat): (r: Option<seq<int>>)
    ensures r.Some? ==> |r.value| == 2 * demands
    decreases demands
  {
    if demands == 0 then Some([])
    else
      var s1 := NonregularRecur(s, inp.Head(), inp.Tail().Head());
      if AllZero(s1) then None
      else
        var s2 := RemoveGcd(s1);
        match NonregularConvergentTerms(s2, inp.Tail().Tail(), demands - 1)
        case None => None
        case Some(rest) => Some([s2.p, s2.q] + rest)
  }

  /** nonregular_mobius_convergent as a whole: with num = 1 it reads b0,
      runs `recur` and emits the reduced p, q before any demand; then each
      demand reads one (num, den) pair.  The terms read are 1, b0, a1, b1,
      a2, ... taken in pairs. */
  function NonregularConvergent(s: PQ, inp: Input, demands: nat): (r: Option<seq<int>>)
    ensures r.Some? ==> |r.value| == 2 * demands + 2
  {
    var s1 := NonregularRecur(s, 1, inp.Head());
    if AllZero(s1) then None
    else
      var s2 := RemoveGcd(s1);
      match NonregularConvergentTerms(s2, inp.Tail(), demands)
      case None => None
      case Some(rest) => Some([s2.p, s2.q] + rest)
  }

  /** Output pair i holds p and q of the tableau `u`. */
  predicate PairOf(out: seq<int>, i: nat, u: Option<PQ>) {
    2 * i + 1 < |out| && u.Some? && out[2 * i] == u.value.p && out[2 * i + 1] == u.value.q
  }

  /** Pair i of the demand output is the reduced tableau after i + 1 pairs. */
  predicate DemandPair(out: seq<int>, s: PQ, inp: Input, i: nat) {
    PairOf(out, i, NonregularFold(s, Pairs(inp, i + 1)))
  }

  /** The demands fault exactly when the fold over their pairs does, and
      otherwise pair i is p, q of the reduced tableau after i + 1 pairs. */
  lemma {:induction false} NonregularConvergentPairs(s: PQ, inp: Input, demands: nat)
    ensures NonregularConvergentTerms(s, inp, demands).Some?
      <==> NonregularFold(s, Pairs(inp, demands)).Some?
    ensures NonregularConvergentTerms(s, inp, demands).Some? ==>
      forall i :: 0 <= i < demands
        ==> DemandPair(NonregularConvergentTerms(s, inp, demands).value, s, inp, i)
    decreases demands
  {
    if demands == 0 {
      assert Pairs(inp, 0) == [];
    } else {
      var s1 := NonregularRecur(s, inp.Head(), inp.Tail().Head());
      NonregularFoldPairs(s, inp, demands);
      if !AllZero(s1) {
        var s2 := RemoveGcd(s1);
        var rest := inp.Tail().Tail();
        NonregularConvergentPairs(s2, rest, demands - 1);
        var r := NonregularConvergentTerms(s, inp, demands);
        if r.Some? {
          var tail := NonregularConvergentTerms(s2, rest, demands - 1).value;
          assert r.value == [s2.p, s2.q] + tail;
          forall i | 0 <= i < demands ensures DemandPair(r.value, s, inp, i) {
            NonregularFoldPairs(s, inp, i + 1);
            if i == 0 {
              assert Pairs(rest, 0) == [];
            } else {
              assert DemandPair(tail, s2, rest, i - 1);
            }
          }
        }
      }
    }
  }

  /** The terms the whole engine reads before pair i goes out: 1, b0, then
      i pairs. */
  function StartTerms(inp: Input, i: nat): seq<int> {
    [1] + Take(inp, 2 * i + 1)
  }

  /** Pair i of the whole output is the reduced tableau after i + 1 pairs
      of 1, b0, a1, b1, ... */
  predicate EnginePair(out: seq<int>, s: PQ, inp: Input, i: nat) {
    PairOf(out, i, NonregularFold(s, StartTerms(inp, i)))
  }

  lemma StartTermsPairs(s: PQ, inp: Input, i: nat)
    ensures var s1 := NonregularRecur(s, 1, inp.Head());
      NonregularFold(s, StartTerms(inp, i)) ==
        if AllZero(s1) then None else NonregularFold(RemoveGcd(s1), Pairs(inp.Tail(), i))
  {
    assert StartTerms(inp, i)[2..] == Pairs(inp.Tail(), i);
  }

  /** The whole engine, start included, faults exactly when the fold over
      1, b0, a1, b1, ... does, and otherwise pair i is p, q of the reduced
      tableau after the first i + 1 of those pairs. */
  lemma NonregularConvergentEmits(s: PQ, inp: Input, demands: nat)
    ensures NonregularConvergent(s, inp, demands).Some?
      <==> NonregularFold(s, StartTerms(inp, demands)).Some?
    ensures NonregularConvergent(s, inp, demands).Some? ==>
      forall i :: 0 <= i <= demands
        ==> EnginePair(NonregularConvergent(s, inp, demands).value, s, inp, i)
  {
    var s1 := NonregularRecur(s, 1, inp.Head());
    StartTermsPairs(s, inp, demands);
    if !AllZero(s1) {
      var s2 := RemoveGcd(s1);
      NonregularConvergentPairs(s2, inp.Tail(), demands);
      var r := NonregularConvergent(s, inp, demands);
      if r.Some? {
        var tail := NonregularConvergentTerms(s2, inp.Tail(), demands).value;
        assert r.value == [s2.p, s2.q] + tail;
        forall i | 0 <= i <= demands ensures EnginePair(r.value, s, inp, i) {
          StartTermsPairs(s, inp, i);
          if i == 0 {
            assert Pairs(inp.Tail(), 0) == [];
          } else {
            assert DemandPair(tail, s2, inp.Tail(), i - 1);
          }
        }
      }
    }
  }

  // ---------------------------------------------------------------------
  // The gcd steps do not change the convergents.

  /** The plain non-regular convergent tableau of the pairs of `ts`, without
      gcd steps. */
  function NonregularRaw(s: PQ, ts: seq<int>): PQ
    decreases |ts|
  {
    if |ts| < 2 then s else NonregularRaw(NonregularRecur(s, ts[0], ts[1]), ts[2..])
  }

  /** The product of the gcds the reduced fold divides out; 0 on a fault. */
  function NonregularScale(s: PQ, ts: seq<int>): nat
    decreases |ts|
  {
    if |ts| < 2 then 1
    else
      var s1 := NonregularRecur(s, ts[0], ts[1]);
      if AllZero(s1) then 0 else Gcd4(s1) * NonregularScale(RemoveGcd(s1), ts[2..])
  }

  lemma ScaledRecur(x: PQ, y: PQ, g: int, num: int, den: int)
    requires Scaled(x, y, g)
    ensures Scaled(NonregularRecur(x, num, den), NonregularRecur(y, num, den), g)
  {
    calc {
      den * x.p + num * x.pold;
      den * (g * y.p) + num * (g * y.pold);
      g * (den * y.p + num * y.pold);
    }
    calc {
      den * x.q + num * x.qold;
      den * (g * y.q) + num * (g * y.qold);
      g * (den * y.q + num * y.qold);
    }
  }

  lemma {:induction false} RawScaled(x: PQ, y: PQ, g: int, ts: seq<int>)
    requires Scaled(x, y, g)
    ensures Scaled(NonregularRaw(x, ts), NonregularRaw(y, ts), g)
    decreases |ts|
  {
    if |ts| >= 2 {
      ScaledRecur(x, y, g, ts[0], ts[1]);
      RawScaled(NonregularRecur(x, ts[0], ts[1]), NonregularRecur(y, ts[0], ts[1]), g, ts[2..]);
    }
  }

  lemma ScaledTrans(a: PQ, b: PQ, c: PQ, g: int, h: int)
    requires Scaled(a, b, g) && Scaled(b, c, h)
    ensures Scaled(a, c, g * h)
  {
    Assoc(g, h, c.pold);
    Assoc(g, h, c.p);
    Assoc(g, h, c.qold);
    Assoc(g, h, c.q);
  }

  /** The reduced tableau is the plain non-regular convergent tableau
      divided by the positive product of the gcds removed on the way, so
      both give the same fractions p/q and pold/qold. */
  lemma {:induction false} NonregularFoldScaled(s: PQ, ts: seq<int>)
    requires NonregularFold(s, ts).Some?
    ensures NonregularScale(s, ts) > 0
    ensures Scaled(NonregularRaw(s, ts), NonregularFold(s, ts).value, NonregularScale(s, ts))
    ensures var raw, u := NonregularRaw(s, ts), NonregularFold(s, ts).value;
      raw.p * u.q == raw.q * u.p && raw.pold * u.qold == raw.qold * u.pold
    decreases |ts|
  {
    var raw, u := NonregularRaw(s, ts), NonregularFold(s, ts).value;
    if |ts| >= 2 {
      var s1 := NonregularRecur(s, ts[0], ts[1]);
      var s2 := RemoveGcd(s1);
      var g := Gcd4(s1);
      NonregularFoldScaled(s2, ts[2..]);
      var h := NonregularScale(s2, ts[2..]);
      RawScaled(s1, s2, g, ts[2..]);
      ScaledTrans(raw, NonregularRaw(s2, ts[2..]), u, g, h);
      MulPos(g, h);
    }
    ScaledValue(raw, u, NonregularScale(s, ts), 0, 0);
  }

  // ---------------------------------------------------------------------
  // The non-regular cf and decimal engines as a whole.

  /** After the start and n pairs more, the guard fires on the reduced fold
      over 1, b0, a1, b1, ..., emitting `t` and leaving `st`. */
  predicate EmitsAfterStart(s: PQ, inp: Input, mode: Mode, n: nat, t: int, st: PQ) {
    NonregularFold(s, StartTerms(inp, n)).Some? &&
    Emit(NonregularFold(s, StartTerms(inp, n)).value) == Some(t) &&
    st == Output(NonregularFold(s, StartTerms(inp, n)).value, t, mode)
  }

  /** A term the start emits is the guard's term on the reduced fold over
      (1, b0), the first pair of 1, b0, a1, b1, ... */
  lemma NonregularStartEmits(s: PQ, inp: Input, mode: Mode)
    ensures var start := NonregularStart(s, inp, mode);
      start.Some? && start.value.0.out.Some? ==>
        EmitsAfterStart(s, inp, mode, 0, start.value.0.out.value, start.value.0.state)
  {
    assert StartTerms(inp, 0) == [1, inp.Head()];
  }

  /** When the start emits nothing, the first demand reads pairs after b0
      and emits the guard's term on the reduced fold over 1, b0 and the
      n >= 1 pairs it read. */
  lemma NonregularFirstDemandEmits(s: PQ, inp: Input, mode: Mode, fuel: nat)
    ensures var start := NonregularStart(s, inp, mode);
      start.Some? && start.value.0.out.None? ==>
        var d := NonregularDemand(start.value.0.state, inp.Tail(), mode, fuel);
        d.Emitted? ==>
          inp.pos + 3 <= d.rest.pos && (d.rest.pos - inp.pos - 1) % 2 == 0 &&
          EmitsAfterStart(s, inp, mode, (d.rest.pos - inp.pos - 1) / 2, d.term, d.state)
  {
    var start := NonregularStart(s, inp, mode);
    if start.Some? && start.value.0.out.None? {
      var u := start.value.0.state;
      SilentStartState(s, inp, mode);
      NonregularDemandEmits(u, inp.Tail(), mode, fuel);
      var d := NonregularDemand(u, inp.Tail(), mode, fuel);
      if d.Emitted? {
        StartThenPairs(s, inp, mode, (d.rest.pos - inp.Tail().pos) / 2, d.term, d.state);
      }
    }
  }

  /** A silent start leaves the reduced tableau after (1, b0). */
  lemma SilentStartState(s: PQ, inp: Input, mode: Mode)
    requires NonregularStart(s, inp, mode).Some? && NonregularStart(s, inp, mode).value.0.out.None?
    ensures !AllZero(NonregularRecur(s, 1, inp.Head()))
    ensures NonregularStart(s, inp, mode).value.0.state ==
            RemoveGcd(NonregularRecur(s, 1, inp.Head()))
  {
    assert [1, inp.Head()][2..] == [];
  }

  /** n pairs after a silent start are the pairs 1..n of 1, b0, a1, b1, ... */
  lemma StartThenPairs(s: PQ, inp: Input, mode: Mode, n: nat, t: int, st: PQ)
    requires !AllZero(NonregularRecur(s, 1, inp.Head()))
    requires EmitsAfterPairs(RemoveGcd(NonregularRecur(s, 1, inp.Head())), inp.Tail(),
                             mode, n, t, st)
    ensures EmitsAfterStart(s, inp, mode, n, t, st)
  {
    StartTermsPairs(s, inp, n);
  }
}
