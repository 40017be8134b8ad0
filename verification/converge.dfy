/** The convergent stream of cf_converge.c, and the convergents of a finite
    list of terms that taylor.c and exercise.c also compute.

    Reading the terms d1, d2, ... of a regular continued fraction from the
    identity tableau (pold, p, qold, q) = (0, 1, 1, 0), the recurrence
    pnew = d*p + pold, qnew = d*q + qold produces the convergents p/q. */
module Converge {
  import opened Terms
  import M = Mobius

  /** The identity tableau (pold, p, qold, q) = (0, 1, 1, 0). */
  function Identity(): M.PQ {
    M.PQ(0, 1, 1, 0)
  }

  /** The convergent tableau of the terms `ts`. */
  function Fold(ts: seq<int>): M.PQ {
    M.FoldFrom(Identity(), ts)
  }

  lemma {:induction false} FoldFromSnoc(s: M.PQ, ts: seq<int>, d: int)
    ensures M.FoldFrom(s, ts + [d]) == M.RegularRecur(M.FoldFrom(s, ts), d)
    decreases |ts|
  {
    if ts == [] {
      assert [d][1..] == [];
    } else {
      assert (ts + [d])[1..] == ts[1..] + [d];
      FoldFromSnoc(M.RegularRecur(s, ts[0]), ts[1..], d);
    }
  }

  /** (-1)^n. */
  function Alt(n: nat): int {
    if n % 2 == 0 then 1 else -1
  }

  /** Each term flips the sign of p*qold - pold*q. */
  lemma {:induction false} FoldFromDeterminant(s: M.PQ, ts: seq<int>)
    ensures M.Det(M.FoldFrom(s, ts)) == Alt(|ts|) * M.Det(s)
    decreases |ts|
  {
    if ts != [] {
      var s1 := M.RegularRecur(s, ts[0]);
      M.RegularRecurSubstitutes(s, ts[0], 0, 0);
      FoldFromDeterminant(s1, ts[1..]);
      assert Alt(|ts|) == -Alt(|ts[1..]|);
    }
  }

  /** For the convergents of n terms p*qold - pold*q is (-1)^n, so
      consecutive convergents are adjacent fractions. */
  lemma FoldDeterminant(ts: seq<int>)
    ensures M.Det(Fold(ts)) == Alt(|ts|)
  {
    var id := Identity();
    assert M.Det(id) == 1;
    FoldFromDeterminant(id, ts);
  }

  /** Output pair i is the convergent of the first i + 1 terms. */
  ghost predicate ConvergentPair(out: seq<int>, inp: Input, i: nat)
    requires 2 * i + 1 < |out|
  {
    out[2 * i] == Fold(Take(inp, i + 1)).p && out[2 * i + 1] == Fold(Take(inp, i + 1)).q
  }

  /** Output pairs i - 1 and i have cross-difference (-1)^(i+1). */
  predicate Adjacent(out: seq<int>, i: nat)
    requires 1 <= i && 2 * i + 1 < |out|
  {
    out[2 * i] * out[2 * i - 1] - out[2 * i - 2] * out[2 * i + 1] == Alt(i + 1)
  }

  /** One demand: the new pair is the convergent of one more term, and it is
      adjacent to the previous one. */
  lemma ConvergentStep(inp: Input, k: nat, s: M.PQ)
    requires s == Fold(Take(inp, k))
    ensures var s1 := M.RegularRecur(s, inp.terms(inp.pos + k));
      s1 == Fold(Take(inp, k + 1)) && s1.p * s.q - s.p * s1.q == Alt(k + 1)
  {
    var d := inp.terms(inp.pos + k);
    assert Take(inp, k + 1) == Take(inp, k) + [d];
    FoldFromSnoc(Identity(), Take(inp, k), d);
    FoldDeterminant(Take(inp, k + 1));
  }

  /** `convergent`: each demand reads a term and emits the new p, then the
      new q.  After `demands` demands the output is the convergents of the
      first 1, 2, ..., `demands` terms, and consecutive convergents have
      cross-difference (-1)^(i+1). */
  method Convergent(inp: Input, demands: nat) returns (out: seq<int>)
    ensures |out| == 2 * demands
    ensures forall i :: 0 <= i < demands ==> ConvergentPair(out, inp, i)
    ensures forall i :: 1 <= i < demands ==> Adjacent(out, i)
  {
    var pold, p, qold, q := 0, 1, 1, 0;
    var rest := inp;
    out := [];
    var k := 0;
    while k < demands
      invariant 0 <= k <= demands && |out| == 2 * k
      invariant rest == Input(inp.terms, inp.pos + k)
      invariant M.PQ(pold, p, qold, q) == Fold(Take(inp, k))
      invariant forall i :: 0 <= i < k ==> ConvergentPair(out, inp, i)
      invariant k >= 1 ==> out[2 * k - 2] == p && out[2 * k - 1] == q
      invariant forall i :: 1 <= i < k ==> Adjacent(out, i)
    {
      var denom := rest.Head();
      rest := rest.Tail();
      var pnew := p * denom + pold;
      var qnew := q * denom + qold;
      ConvergentStep(inp, k, M.PQ(pold, p, qold, q));
      var out' := out + [pnew, qnew];
      assert forall i :: 0 <= i < k ==> ConvergentPair(out', inp, i) by {
        forall i | 0 <= i < k ensures ConvergentPair(out', inp, i) {
          assert ConvergentPair(out, inp, i);
        }
      }
      assert forall i :: 1 <= i < k ==> Adjacent(out', i) by {
        forall i | 1 <= i < k ensures Adjacent(out', i) {
          assert Adjacent(out, i);
        }
      }
      out := out';
      pold, p := p, pnew;
      qold, q := q, qnew;
      k := k + 1;
    }
  }

  /** The convergent engine of mobius.c started from the identity emits the
      same convergents: the i-th pair is the convergent of the first i + 1
      terms. */
  lemma {:induction false} MobiusConvergentsAreFold(s: M.PQ, inp: Input, demands: nat, i: nat)
    requires i < demands
    ensures M.ConvergentTerms(s, inp, demands)[2 * i] == M.FoldFrom(s, Take(inp, i + 1)).p
    ensures M.ConvergentTerms(s, inp, demands)[2 * i + 1] == M.FoldFrom(s, Take(inp, i + 1)).q
    decreases i
  {
    var s1 := M.RegularRecur(s, inp.Head());
    assert Take(inp, i + 1)[1..] == Take(inp.Tail(), i);
    if i > 0 {
      MobiusConvergentsAreFold(s1, inp.Tail(), demands - 1, i - 1);
    }
  }

  lemma FoldCons(s: M.PQ, d: int, ts: seq<int>)
    ensures M.FoldFrom(s, [d] + ts) == M.FoldFrom(M.RegularRecur(s, d), ts)
  {
    assert ([d] + ts)[1..] == ts;
  }

  /** mobius_test's vector: the identity on [1; 2, 2, ...] gives the
      convergents 1/1, 3/2, 7/5, 17/12. */
  lemma SqrtTwoConvergents()
    ensures Fold([1, 2, 2, 2]) == M.PQ(7, 17, 5, 12)
  {
    var two := [2];
    var s1 := M.RegularRecur(Identity(), 1);
    assert s1 == M.PQ(1, 1, 0, 1);
    var s2 := M.RegularRecur(s1, 2);
    assert s2 == M.PQ(1, 3, 1, 2);
    var s3 := M.RegularRecur(s2, 2);
    assert s3 == M.PQ(3, 7, 2, 5);
    var s4 := M.RegularRecur(s3, 2);
    assert s4 == M.PQ(7, 17, 5, 12);
    FoldCons(s3, 2, []);
    FoldCons(s2, 2, two);
    FoldCons(s1, 2, two + two);
    FoldCons(Identity(), 1, two + two + two);
    assert [1] + (two + two + two) == [1, 2, 2, 2];
  }

  /** `cf_new_cf_convergent`, which mobius_test applies to sqrt 2, starts
      mobius.c's convergent engine on the coefficients (1, 0, 0, 1), and
      `pqset_set_mobius` loads them as the identity tableau. */
  lemma SqrtTwoStart()
    ensures M.SetMobius(1, 0, 0, 1) == Identity()
  {
  }

  /** The engine's output on the stream [1; 2, 2, ...] from the identity:
      p, q of each convergent in turn, 1/1, 3/2, 7/5, 17/12. */
  lemma SqrtTwoEngine()
    ensures M.ConvergentTerms(Identity(), Input(Periodic(1, 2), 0), 4) == [1, 1, 3, 2, 7, 5, 17, 12]
  {
    var s1 := M.PQ(1, 1, 0, 1);
    var s2 := M.PQ(1, 3, 1, 2);
    var s3 := M.PQ(3, 7, 2, 5);
    var s4 := M.PQ(7, 17, 5, 12);
    var i0 := Input(Periodic(1, 2), 0);
    var i1 := i0.Tail();
    var i2 := i1.Tail();
    var i3 := i2.Tail();
    assert i0.Head() == 1 && i1.Head() == 2 && i2.Head() == 2 && i3.Head() == 2;
    assert M.RegularRecur(Identity(), 1) == s1 && M.RegularRecur(s1, 2) == s2;
    assert M.RegularRecur(s2, 2) == s3 && M.RegularRecur(s3, 2) == s4;
    assert M.ConvergentTerms(s4, i3.Tail(), 0) == [];
    assert M.ConvergentTerms(s3, i3, 1) == [17, 12];
    assert M.ConvergentTerms(s2, i2, 2) == [7, 5] + [17, 12];
    assert M.ConvergentTerms(s1, i1, 3) == [3, 2] + ([7, 5] + [17, 12]);
    assert M.ConvergentTerms(Identity(), i0, 4) == [1, 1] + ([3, 2] + ([7, 5] + [17, 12]));
  }
}
