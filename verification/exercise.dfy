/** exercise.c: the decimal digits of sqrt 2 with machine-word arithmetic.

    The program runs the decimal engine of mobius.c by hand on the
    continued fraction [1; 2, 2, 2, ...].  Its state (p0, p1, q0, q1) is a
    Mobius tableau with p0/q0 and p1/q1 the two tracked fractions; here it
    is the `PQ` of the Mobius module with pold = p0, p = p1, qold = q0 and
    q = q1.  Each round absorbs one term 2, looks for the digit of p0/q0 by
    repeated addition, and prints it when p1/q1 has the same digit. */
module Exercise {
  import opened Arith
  import opened Terms
  import M = Mobius
  import C = Converge

  /** The number of digits printed when the argument is missing or not
      positive. */
  const DefaultDigits := 37

  /** The digit count: the argument when it is positive, 37 otherwise. */
  function DigitCount(arg: Option<int>): (n: nat)
    ensures n > 0
    ensures arg.Some? && arg.value > 0 ==> n == arg.value
    ensures !(arg.Some? && arg.value > 0) ==> n == DefaultDigits
  {
    if arg.Some? && arg.value > 0 then arg.value else DefaultDigits
  }

  /** The state before the first round: the leading term 1 already
      absorbed into the identity tableau. */
  function Start(): M.PQ {
    M.PQ(1, 1, 0, 1)
  }

  /** The start state is the convergent tableau of the leading term 1. */
  lemma StartIsLeadingTerm()
    ensures Start() == C.Fold([1])
  {
    C.FoldFromSnoc(C.Identity(), [], 1);
  }

  /** The digit search: counts up from 0 while the digit is below 9 and
      q0 * (digit + 1) does not exceed p0, keeping r0 = q0 * (digit + 1)
      and r1 = q1 * (digit + 1).  The words are unsigned, so p0 >= 0.  For
      a non-negative p0 over a positive q0 the digit is the integer part of
      p0/q0, capped at 9. */
  method DigitSearch(p0: int, q0: int, q1: int) returns (digit: int, r0: int, r1: int)
    requires p0 >= 0
    ensures 0 <= digit <= 9
    ensures r0 == q0 * (digit + 1) && r1 == q1 * (digit + 1)
    ensures q0 * digit <= p0
    ensures digit == 9 || p0 < r0
    ensures q0 > 0 && p0 >= 0 ==>
      digit == (if FloorDiv(p0, q0) < 9 then FloorDiv(p0, q0) else 9)
  {
    digit := 0;
    r0, r1 := q0, q1;
    while digit < 9 && r0 <= p0
      invariant 0 <= digit <= 9
      invariant r0 == q0 * (digit + 1) && r1 == q1 * (digit + 1)
      invariant q0 * digit <= p0
    {
      r0 := r0 + q0;
      r1 := r1 + q1;
      digit := digit + 1;
    }
    if q0 > 0 && p0 >= 0 {
      if digit < 9 {
        FloorDivUnique(p0, q0, digit);
      } else {
        assert q0 * 9 <= p0;
        if FloorDiv(p0, q0) < 9 {
          MulAtLeast(q0, 9 - FloorDiv(p0, q0));
        }
      }
    }
  }

  /** One round of the outer loop: absorb the term 2, search the digit and
      print it when p1/q1 agrees.  `printed` tells whether a digit went
      out; `digit` is the searched digit either way. */
  method Round(s: M.PQ) returns (next: M.PQ, digit: int, printed: bool)
    requires M.NonNeg(s)  // unsigned words
    ensures var t := M.RegularRecur(s, 2);
      printed <==> t.q * digit <= t.p < t.q * (digit + 1)
    ensures 0 <= digit <= 9
    ensures var t := M.RegularRecur(s, 2);
      t.qold > 0 && t.pold >= 0 ==>
      digit == (if FloorDiv(t.pold, t.qold) < 9 then FloorDiv(t.pold, t.qold) else 9)
    ensures printed ==> next == M.DecimalOut(M.RegularRecur(s, 2), digit)
    ensures !printed ==> next == M.RegularRecur(s, 2)
    ensures M.NonNeg(next)
  {
    var p0, p1, q0, q1 := s.pold, s.p, s.qold, s.q;
    var r0 := p0 + 2 * p1;
    p0 := p1;
    p1 := r0;
    r0 := q0 + 2 * q1;
    q0 := q1;
    q1 := r0;
    ghost var t := M.RegularRecur(s, 2);
    assert t == M.PQ(p0, p1, q0, q1);
    var r1;
    digit, r0, r1 := DigitSearch(p0, q0, q1);
    printed := false;
    if r1 > p1 {
      BackOne(q1, digit);
      r1 := r1 - q1;
      if r1 <= p1 {
        printed := true;
        BackOne(q0, digit);
        p1 := p1 - r1;
        r0 := r0 - q0;
        p0 := p0 - r0;
        p0 := (4 * p0 + p0) * 2;
        p1 := (4 * p1 + p1) * 2;
      }
    }
    next := M.PQ(p0, p1, q0, q1);
  }

  /** Stepping back one multiple: q * (d + 1) - q = d * q. */
  lemma BackOne(q: int, d: int)
    ensures q * (d + 1) - q == d * q
  {}

  /** The rounds as the decimal engine of the Mobius module runs them on
      the constant term 2: the state after `k` rounds and the digits
      emitted so far. */
  function Engine(s: M.PQ, k: nat): (M.PQ, seq<int>) {
    if k == 0 then (s, [])
    else
      var (st, ds) := Engine(s, k - 1);
      var step := M.RegularStep(st, 2, M.DecimalOutput);
      (step.state, ds + (if step.out.Some? then [step.out.value] else []))
  }

  /** The state stays in digit range (both fractions in [0, 10)) after the
      first term 2 is absorbed. */
  predicate InRange(s: M.PQ) {
    s == Start() || M.DigitRange(s)
  }

  /** From a state in range the round's recurrence lands in digit range,
      the engine's step emits a digit, and the range is kept. */
  lemma RoundInRange(s: M.PQ)
    requires InRange(s)
    ensures M.DigitRange(M.RegularRecur(s, 2))
    ensures var step := M.RegularStep(s, 2, M.DecimalOutput);
      InRange(step.state) && (step.out.Some? ==> 0 <= step.out.value <= 9)
  {
    if s == Start() {
      var t := M.RegularRecur(s, 2);
      assert t == M.PQ(1, 3, 1, 2);
      assert M.Emit(t) == Some(1);
    } else {
      M.RecurKeepsDigitRange(s, 2);
      M.DecimalStepDigit(s, 2);
    }
  }

  /** When the recurrence lands in digit range the round is exactly the
      engine's step: the same digit under the same condition and the same
      next state. */
  lemma RoundIsEngineStep(s: M.PQ, next: M.PQ, digit: int, printed: bool)
    requires M.DigitRange(M.RegularRecur(s, 2))
    requires var t := M.RegularRecur(s, 2);
      digit == (if FloorDiv(t.pold, t.qold) < 9 then FloorDiv(t.pold, t.qold) else 9)
    requires var t := M.RegularRecur(s, 2);
      printed <==> t.q * digit <= t.p < t.q * (digit + 1)
    requires printed ==> next == M.DecimalOut(M.RegularRecur(s, 2), digit)
    requires !printed ==> next == M.RegularRecur(s, 2)
    ensures M.RegularStep(s, 2, M.DecimalOutput) ==
      M.Step(next, if printed then Some(digit) else None)
  {
    var t := M.RegularRecur(s, 2);
    var f := FloorDiv(t.pold, t.qold);
    assert f < 10 by {
      if f >= 10 {
        MulAtLeast(t.qold, f - 9);
      }
    }
    assert f * t.q + t.q == t.q * (f + 1);
  }

  /** A round from the engine's state after `rounds` rounds gives its
      state and digits after one more. */
  lemma RoundAdvancesEngine(s: M.PQ, digits: seq<int>, rounds: nat,
                            next: M.PQ, digit: int, printed: bool)
    requires s == Engine(Start(), rounds).0 && digits == Engine(Start(), rounds).1
    requires InRange(s)
    requires var t := M.RegularRecur(s, 2);
      t.qold > 0 && t.pold >= 0 ==>
      digit == (if FloorDiv(t.pold, t.qold) < 9 then FloorDiv(t.pold, t.qold) else 9)
    requires var t := M.RegularRecur(s, 2);
      printed <==> t.q * digit <= t.p < t.q * (digit + 1)
    requires printed ==> next == M.DecimalOut(M.RegularRecur(s, 2), digit)
    requires !printed ==> next == M.RegularRecur(s, 2)
    ensures next == Engine(Start(), rounds + 1).0
    ensures digits + (if printed then [digit] else []) == Engine(Start(), rounds + 1).1
    ensures InRange(next) && M.NonNeg(next)
    ensures printed ==> 0 <= digit <= 9
  {
    RoundInRange(s);
    RoundIsEngineStep(s, next, digit, printed);
  }

  /** Before round `rounds` the engine had printed fewer than n digits
      after every earlier round. */
  ghost predicate ShortBefore(rounds: nat, n: nat) {
    forall k :: 0 <= k < rounds ==> |Engine(Start(), k).1| < n
  }

  lemma ShortBeforeNext(rounds: nat, n: nat)
    requires ShortBefore(rounds, n) && |Engine(Start(), rounds).1| < n
    ensures ShortBefore(rounds + 1, n)
  {}

  /** The program: print `DigitCount(arg)` digits, at most `fuel` rounds.
      The digits are those of the decimal engine on [1; 2, 2, ...], each a
      decimal digit; the loop stops exactly when the count is reached and
      reaches it unless the fuel runs out first. */
  method Run(arg: Option<int>, fuel: nat) returns (digits: seq<int>, rounds: nat)
    ensures rounds <= fuel
    ensures digits == Engine(Start(), rounds).1
    ensures |digits| <= DigitCount(arg)
    ensures rounds < fuel ==> |digits| == DigitCount(arg)
    ensures ShortBefore(rounds, DigitCount(arg))
    ensures forall i :: 0 <= i < |digits| ==> 0 <= digits[i] <= 9
  {
    var n := DigitCount(arg);
    var s := Start();
    digits, rounds := [], 0;
    while n > 0 && rounds < fuel
      invariant rounds <= fuel && 0 <= n
      invariant s == Engine(Start(), rounds).0 && digits == Engine(Start(), rounds).1
      invariant n + |digits| == DigitCount(arg)
      invariant InRange(s) && M.NonNeg(s)
      invariant ShortBefore(rounds, DigitCount(arg))
      invariant forall i :: 0 <= i < |digits| ==> 0 <= digits[i] <= 9
    {
      var next, digit, printed := Round(s);
      RoundAdvancesEngine(s, digits, rounds, next, digit, printed);
      ShortBeforeNext(rounds, DigitCount(arg));
      digits := digits + (if printed then [digit] else []);
      if printed {
        n := n - 1;
      }
      s := next;
      rounds := rounds + 1;
    }
  }
}
