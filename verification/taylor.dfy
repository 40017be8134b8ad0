/** taylor.c: the Taylor partial sum of sin 1, expanded as a continued
    fraction by Euclid's algorithm, with its convergents.

    The first loop builds the fraction r/s = sum_{j=0..k} (-1)^j/(2j+1)!
    with s = (2k+1)!.  The second loop runs Euclid's algorithm on (r, s),
    printing each partial quotient with the convergent it completes, and
    stops when the remainder vanishes or when the next convergent's
    denominator squared reaches `limit`. */
module Taylor {
  import opened Arith
  import opened Terms
  import M = Mobius
  import C = Converge

  // ---------------------------------------------------------------------
  // The partial sum.

  /** lo * (lo + 1) * ... * hi, and 1 when the range is empty. */
  function Prod(lo: int, hi: int): int
    decreases hi - lo
  {
    if lo > hi then 1 else Prod(lo, hi - 1) * hi
  }

  function Fact(n: nat): nat {
    if n == 0 then 1 else Fact(n - 1) * n
  }

  /** n! = m! * (m+1) * ... * n. */
  lemma {:induction false} FactSplit(m: nat, n: nat)
    requires m <= n
    ensures Fact(n) == Fact(m) * Prod(m + 1, n)
    decreases n - m
  {
    if m < n {
      FactSplit(m, n - 1);
      var f, p := Fact(m), Prod(m + 1, n - 1);
      assert Fact(n) == (f * p) * n;
      assert Prod(m + 1, n) == p * n;
      Assoc(f, p, n);
    }
  }

  /** sum_{j=0..n} (-1)^j * (2i+1)!/(2j+1)!, the numerator of the partial
      sum up to j = n over the denominator (2i+1)!. */
  function SinSum(n: nat, i: nat): int {
    C.Alt(n) * Prod(2 * n + 2, 2 * i + 1) + (if n == 0 then 0 else SinSum(n - 1, i))
  }

  /** Term j of the sum is (-1)^j * (2i+1)!/(2j+1)!: times (2j+1)! it is
      (-1)^j * (2i+1)!, so SinSum(n, i) / (2i+1)! is the Taylor sum
      sum_{j=0..n} (-1)^j / (2j+1)! of sin 1. */
  lemma SinSumTerm(n: nat, i: nat)
    requires n <= i
    ensures (SinSum(n, i) - (if n == 0 then 0 else SinSum(n - 1, i))) * Fact(2 * n + 1)
            == C.Alt(n) * Fact(2 * i + 1)
  {
    FactSplit(2 * n + 1, 2 * i + 1);
    var f, p := Fact(2 * n + 1), Prod(2 * n + 2, 2 * i + 1);
    Assoc(C.Alt(n), p, f);
    Assoc(C.Alt(n), f, p);
  }

  lemma ProdTwoMore(lo: int, i: nat)
    requires lo <= 2 * i + 2
    ensures Prod(lo, 2 * i + 3) == Prod(lo, 2 * i + 1) * ((2 * i + 2) * (2 * i + 3))
  {
    var p := Prod(lo, 2 * i + 1);
    assert Prod(lo, 2 * i + 2) == p * (2 * i + 2);
    assert Prod(lo, 2 * i + 3) == (p * (2 * i + 2)) * (2 * i + 3);
    Assoc(p, 2 * i + 2, 2 * i + 3);
  }

  lemma Distrib(x: int, y: int, f: int)
    ensures (x + y) * f == x * f + y * f
  {}

  /** Raising the common denominator from (2i+1)! to (2i+3)! multiplies
      every term by (2i+2)(2i+3). */
  lemma {:induction false} SinSumScale(n: nat, i: nat)
    requires n <= i
    ensures SinSum(n, i) * ((2 * i + 2) * (2 * i + 3)) == SinSum(n, i + 1)
    decreases n
  {
    var f := (2 * i + 2) * (2 * i + 3);
    var p := Prod(2 * n + 2, 2 * i + 1);
    ProdTwoMore(2 * n + 2, i);
    assert 2 * (i + 1) + 1 == 2 * i + 3;
    Assoc(C.Alt(n), p, f);
    var rest := if n == 0 then 0 else SinSum(n - 1, i);
    if n > 0 {
      SinSumScale(n - 1, i);
    }
    Distrib(C.Alt(n) * p, rest, f);
  }

  lemma FactOddStep(i: nat)
    requires i >= 1
    ensures Fact(2 * i + 1) == Fact(2 * i - 1) * ((2 * i) * (2 * i + 1))
  {
    var f := Fact(2 * i - 1);
    assert Fact(2 * i) == f * (2 * i);
    assert Fact(2 * i + 1) == (f * (2 * i)) * (2 * i + 1);
    Assoc(f, 2 * i, 2 * i + 1);
  }

  lemma SinSumStep(i: nat)
    requires i >= 1
    ensures SinSum(i, i) == SinSum(i - 1, i - 1) * ((2 * i) * (2 * i + 1)) + C.Alt(i)
  {
    SinSumScale(i - 1, i - 1);
    assert Prod(2 * i + 2, 2 * i + 1) == 1;
  }

  /** The number of loop iterations for a requested order k: none when
      k is below 1. */
  function Iterations(k: int): (n: nat)
    ensures n == 0 <==> k <= 0
    ensures k > 0 ==> n == k
  {
    if k < 0 then 0 else k
  }

  /** The partial-sum loop run with bound k: after iteration i the
      denominator is s = (2i+1)! and the numerator r is the sum of
      (-1)^j * (2i+1)!/(2j+1)! for j = 0..i, so r/s is the Taylor sum
      of sin 1 up to x^(2i+1)/(2i+1)!. */
  method PartialSum(k: int) returns (r: int, s: int)
    ensures s == Fact(2 * Iterations(k) + 1) && s > 0
    ensures r == SinSum(Iterations(k), Iterations(k))
  {
    r, s := 1, 1;
    var i := 1;
    while i <= k
      invariant 1 <= i <= Iterations(k) + 1
      invariant s == Fact(2 * i - 1) && s > 0
      invariant r == SinSum(i - 1, i - 1)
    {
      var f := (2 * i) * (2 * i + 1);
      FactOddStep(i);
      SinSumStep(i);
      MulPos(s, f);
      s := s * f;
      r := r * f;
      if i % 2 == 1 {
        r := r - 1;
      } else {
        r := r + 1;
      }
      i := i + 1;
    }
  }

  /** 2^64, the range of `unsigned long` on an LP64 platform. */
  const ULongModulus: int := 0x1_0000_0000_0000_0000

  /** An int passed where `mpz_mul_ui` takes an `unsigned long`: C converts
      it modulo 2^64, so a negative value arrives as 2^64 plus itself. */
  function ULong(x: int): (r: nat)
    ensures r < ULongModulus
    ensures (x - r) % ULongModulus == 0
    ensures 0 <= x < ULongModulus ==> r == x
    ensures -ULongModulus <= x < 0 ==> r == ULongModulus + x
  {
    x % ULongModulus
  }

  /** `limit` as the code computes it: the first product is overwritten, and
      2k + 1 goes through the unsigned conversion. */
  function Limit(s: int, k: int): int {
    s * ULong(2 * k + 1)
  }

  /** The limit is s * (2k + 1) for a non-negative order, and
      s * (2^64 + 2k + 1) for a negative one. */
  lemma LimitCases(s: int, k: int)
    ensures 0 <= k && 2 * k + 1 < ULongModulus ==> Limit(s, k) == s * (2 * k + 1)
    ensures k < 0 && -ULongModulus <= 2 * k + 1 ==> Limit(s, k) == s * (ULongModulus + 2 * k + 1)
  {
  }

  /** With order -1 the partial sum is 1/1 and the limit is 2^64 - 1 rather
      than -1: the only quotient of 1/1 is 1, and its convergent 1/1 has a
      denominator squared below the limit. */
  lemma NegativeOrderLimit()
    ensures Iterations(-1) == 0 && Fact(2 * Iterations(-1) + 1) == 1
    ensures SinSum(Iterations(-1), Iterations(-1)) == 1
    ensures ULong(2 * -1 + 1) == ULongModulus - 1 && Limit(1, -1) == ULongModulus - 1
    ensures Quotients(1, 1) == [1]
    ensures C.Fold([1]) == M.PQ(1, 1, 0, 1) && Below([1], Limit(1, -1))
  {
    assert Prod(2, 1) == 1;
    C.FoldCons(C.Identity(), 1, []);
    assert [1] + [] == [1];
  }

  // ---------------------------------------------------------------------
  // Euclid's algorithm with convergents.

  /** The partial quotients of a/b by Euclid's algorithm with floor
      division, ending where the remainder vanishes: the regular continued
      fraction of a/b. */
  function Quotients(a: int, b: int): (ts: seq<int>)
    requires b > 0
    ensures |ts| >= 1 && ts[0] == FloorDiv(a, b)
    decreases b
  {
    var t, rem := FloorDiv(a, b), FloorMod(a, b);
    if rem == 0 then [t] else [t] + Quotients(b, rem)
  }

  /** Reading the quotients of a/b from a tableau whose convergents give
      r = p*a + pold*b and s = q*a + qold*b ends on a convergent equal to
      r/s. */
  lemma {:induction false} QuotientsValueFrom(r: int, s: int, a: int, b: int, st: M.PQ)
    requires b > 0 && r == st.p * a + st.pold * b && s == st.q * a + st.qold * b
    ensures var u := M.FoldFrom(st, Quotients(a, b));
      r * u.q == s * u.p
    decreases b
  {
    var t, rem := FloorDiv(a, b), FloorMod(a, b);
    var st1 := M.RegularRecur(st, t);
    EuclidStep(r, a, b, st.pold, st.p, t, rem);
    EuclidStep(s, a, b, st.qold, st.q, t, rem);
    assert st1.p == st.pold + st.p * t && st1.q == st.qold + st.q * t;
    if rem == 0 {
      assert M.FoldFrom(st, [t]) == M.FoldFrom(st1, []);
      ExactStep(r, s, st1.p, st1.q, b);
    } else {
      var rest := Quotients(b, rem);
      assert ([t] + rest)[1..] == rest;
      QuotientsValueFrom(r, s, b, rem, st1);
    }
  }

  /** One Euclid step moves the next quotient from the pending ones to the
      ones read. */
  lemma QuotientsAdvance(terms: seq<int>, a: int, b: int, r: int, s: int)
    requires b > 0 && s > 0 && terms + Quotients(a, b) == Quotients(r, s)
    ensures var t, rem := FloorDiv(a, b), FloorMod(a, b);
      terms + [t] <= Quotients(r, s) &&
      (rem == 0 ==> terms + [t] == Quotients(r, s)) &&
      (rem != 0 ==> terms + [t] + Quotients(b, rem) == Quotients(r, s))
  {
    var t, rem := FloorDiv(a, b), FloorMod(a, b);
    var rest := if rem == 0 then [] else Quotients(b, rem);
    assert Quotients(a, b) == [t] + rest;
    assert terms + [t] + rest == Quotients(r, s);
    assert (terms + [t] + rest)[..|terms| + 1] == terms + [t];
  }

  /** A one-term extension that is a prefix of [x] is [x] itself. */
  lemma PrefixOfSingleton(ts: seq<int>, t: int, x: int)
    ensures ts + [t] <= [x] ==> ts == [] && t == x
  {
    if ts + [t] <= [x] {
      assert |ts| == 0;
      assert ts + [t] == [t];
      assert [t] == [x][..1] == [x];
      assert [t][0] == [x][0];
    }
  }

  /** The convergent of all the quotients of r/s is r/s itself. */
  lemma QuotientsValue(r: int, s: int)
    requires s > 0
    ensures r * C.Fold(Quotients(r, s)).q == s * C.Fold(Quotients(r, s)).p
  {
    QuotientsValueFrom(r, s, r, s, C.Identity());
  }

  /** Why the expansion stopped: the remainder vanished, or the quotient
      `refused` would have given a convergent past the limit. */
  datatype Stop = Exact | LimitExceeded(refused: int)

  /** The last of the convergents of `ts` has a denominator whose square
      is below `limit`. */
  ghost predicate Below(ts: seq<int>, limit: int) {
    C.Fold(ts).q * C.Fold(ts).q < limit
  }

  /** One Euclid step keeps r = p*a + pold*b: with a = t*b + rem and the
      convergent advanced by t, r = p'*b + pold'*rem. */
  lemma EuclidStep(r: int, a: int, b: int, pold: int, p: int, t: int, rem: int)
    requires r == p * a + pold * b && a == t * b + rem
    ensures r == (pold + p * t) * b + p * rem
  {
    assert p * a == p * t * b + p * rem;
  }

  /** When the remainder vanishes, r = p*b and s = q*b, so r/s = p/q. */
  lemma ExactStep(r: int, s: int, p: int, q: int, b: int)
    requires r == p * b && s == q * b
    ensures r * q == s * p
  {
    assert r * q == p * b * q;
  }

  /** After the first step the numerator exceeds the denominator, so the
      quotient is at least 1. */
  lemma QuotientPositive(a: int, b: int, t: int, rem: int)
    requires 0 < b < a && a == t * b + rem && 0 <= rem < b
    ensures t >= 1
  {
    if t < 1 {
      MulAtLeastZero(t, b);
    }
  }

  lemma MulAtLeastZero(t: int, b: int)
    requires t <= 0 && b > 0
    ensures t * b <= 0
  {}

  /** Absorbing one more term, written with the code's variable roles. */
  lemma Advance(terms: seq<int>, t: int, p0: int, p1: int, q0: int, q1: int)
    requires M.PQ(p0, p1, q0, q1) == C.Fold(terms)
    ensures C.Fold(terms + [t]) == M.PQ(p1, p0 + p1 * t, q1, q0 + q1 * t)
  {
    C.FoldFromSnoc(C.Identity(), terms, t);
  }

  /** Every non-empty prefix of `ts` has its convergent below the limit. */
  ghost predicate AllBelow(ts: seq<int>, limit: int) {
    forall n :: 1 <= n <= |ts| ==> Below(ts[..n], limit)
  }

  lemma AllBelowSnoc(ts: seq<int>, t: int, limit: int)
    requires AllBelow(ts, limit) && Below(ts + [t], limit)
    ensures AllBelow(ts + [t], limit)
  {
    var ts' := ts + [t];
    forall n | 1 <= n <= |ts'| ensures Below(ts'[..n], limit) {
      if n <= |ts| {
        assert ts'[..n] == ts[..n];
      } else {
        assert ts'[..n] == ts';
      }
    }
  }

  /** Euclid's algorithm on r/s with s > 0.  Returns the partial quotients
      printed and the last printed convergent p1/q1.  Every printed
      convergent has a denominator whose square is below `limit`; the
      expansion stops either with the convergent equal to r/s or with the
      quotient whose convergent would have reached the limit. */
  method Expand(r: int, s: int, limit: int)
    returns (terms: seq<int>, p1: int, q1: int, stop: Stop)
    requires s > 0
    ensures p1 == C.Fold(terms).p && q1 == C.Fold(terms).q
    ensures forall i :: 1 <= i < |terms| ==> terms[i] >= 1
    ensures AllBelow(terms, limit)
    ensures stop == Exact ==> r * q1 == s * p1 && terms == Quotients(r, s)
    ensures stop.LimitExceeded? ==>
      !Below(terms + [stop.refused], limit) && terms + [stop.refused] <= Quotients(r, s)
  {
    var a, b := r, s;
    var p0, q0 := 0, 1;
    p1, q1 := 1, 0;
    terms := [];
    while true
      invariant b > 0
      invariant M.PQ(p0, p1, q0, q1) == C.Fold(terms)
      invariant r == p1 * a + p0 * b && s == q1 * a + q0 * b
      invariant AllBelow(terms, limit)
      invariant forall i :: 1 <= i < |terms| ==> terms[i] >= 1
      invariant |terms| > 0 ==> a > b
      invariant terms + Quotients(a, b) == Quotients(r, s)
      decreases b
    {
      var t0, t1 := FloorDiv(a, b), FloorMod(a, b);
      if |terms| > 0 {
        QuotientPositive(a, b, t0, t1);
      }
      Advance(terms, t0, p0, p1, q0, q1);
      EuclidStep(r, a, b, p0, p1, t0, t1);
      EuclidStep(s, a, b, q0, q1, t0, t1);
      p0 := p0 + p1 * t0;
      q0 := q0 + q1 * t0;
      QuotientsAdvance(terms, a, b, r, s);
      if q0 * q0 >= limit {
        stop := LimitExceeded(t0);
        return;
      }
      AllBelowSnoc(terms, t0, limit);
      p0, p1 := p1, p0;
      q0, q1 := q1, q0;
      terms := terms + [t0];
      if t1 == 0 {
        ExactStep(r, s, p1, q1, b);
        stop := Exact;
        return;
      }
      a, b := b, t1;
    }
  }

  // ---------------------------------------------------------------------
  // The whole program.

  /** The order when none is given on the command line. */
  const DefaultOrder := 5

  /** The program: the partial sum of order k (5 unless given), the limit,
      and the expansion.  The printed convergents all have denominators
      whose square is below s times 2k+1 read as an unsigned long, and an
      exact stop means the last convergent is the partial sum itself. */
  method SinOne(arg: Option<int>)
    returns (r: int, s: int, limit: int, terms: seq<int>, p: int, q: int, stop: Stop)
    ensures var k := if arg.Some? then arg.value else DefaultOrder;
      s == Fact(2 * Iterations(k) + 1) && r == SinSum(Iterations(k), Iterations(k)) &&
      limit == s * ULong(2 * k + 1)
    ensures s > 0
    ensures p == C.Fold(terms).p && q == C.Fold(terms).q && AllBelow(terms, limit)
    ensures stop == Exact ==> r * q == s * p && terms == Quotients(r, s)
    ensures stop.LimitExceeded? ==>
      !Below(terms + [stop.refused], limit) && terms + [stop.refused] <= Quotients(r, s)
  {
    var k := if arg.Some? then arg.value else DefaultOrder;
    r, s := PartialSum(k);
    limit := Limit(s, k);
    terms, p, q, stop := Expand(r, s, limit);
  }

  /** The program run with order -1: the sum is 1/1, the limit 2^64 - 1,
      and the expansion prints the single quotient 1 with convergent 1/1
      and stops on the vanishing remainder. */
  method NegativeOrderRun()
    returns (r: int, s: int, limit: int, terms: seq<int>, p: int, q: int, stop: Stop)
    ensures r == 1 && s == 1 && limit == ULongModulus - 1
    ensures terms == [1] && p == 1 && q == 1 && stop == Exact
  {
    r, s, limit, terms, p, q, stop := SinOne(Some(-1));
    NegativeOrderLimit();
    NegativeOrderStops(terms, stop, limit);
  }

  /** With the limit 2^64 - 1 and the quotients [1], the expansion cannot
      stop at the limit. */
  lemma NegativeOrderStops(terms: seq<int>, stop: Stop, limit: int)
    requires limit == ULongModulus - 1
    requires stop.LimitExceeded? ==>
      !Below(terms + [stop.refused], limit) && terms + [stop.refused] <= [1]
    ensures stop == Exact
  {
    NegativeOrderLimit();
    assert Below([1], limit);
    var refused := if stop.LimitExceeded? then stop.refused else 0;
    PrefixOfSingleton(terms, refused, 1);
    assert stop.LimitExceeded? ==> terms + [refused] == [1];
  }
}
