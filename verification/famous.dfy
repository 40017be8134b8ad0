/** The term streams of famous.c and cf_famous.c.

    Each generator emits a few terms before its first demand and then a fixed
    group of terms per demand.  famous.c keeps some counters in machine
    `int`s and cf_famous.c keeps them in GMP integers; with unbounded
    integers both files produce the same streams, so one member models each
    stream.  A generator is a method that runs its loop for a given number
    of demands; its partner is a closed-form term function, and the method's
    contract says the loop emits exactly that stream's prefix. */
module Famous {
  import opened Arith
  import opened Terms
  import M = Mobius

  // ---------------------------------------------------------------------
  // e = [2; 1, 2, 1, 1, 4, 1, ...]

  /** Term `i` of e: 2, then the groups 1, 2k, 1 for k = 1, 2, ... */
  function ETerm(i: nat): int {
    if i == 0 then 2
    else
      var j := i - 1;
      if j % 3 == 1 then 2 * (j / 3 + 1) else 1
  }

  lemma ThirdOf(k: nat, r: nat)
    requires r < 3
    ensures (3 * k + r) / 3 == k && (3 * k + r) % 3 == r
  {
    DivUnique(3 * k + r, 3, k, r);
  }

  /** `e_expansion` run for `demands` demands. */
  method EExpansion(demands: nat) returns (out: seq<int>)
    ensures |out| == 1 + 3 * demands
    ensures forall i :: 0 <= i < |out| ==> out[i] == ETerm(i)
  {
    var even := 2;
    out := [even];
    var k := 0;
    while k < demands
      invariant 0 <= k <= demands
      invariant |out| == 1 + 3 * k && even == 2 * k + 2
      invariant forall i :: 0 <= i < |out| ==> out[i] == ETerm(i)
    {
      ThirdOf(k, 0);
      ThirdOf(k, 1);
      ThirdOf(k, 2);
      out := out + [1, even, 1];
      even := even + 2;
      k := k + 1;
    }
  }

  // ---------------------------------------------------------------------
  // 4/pi = 1 + 1/(3 + 4/(5 + 9/(7 + ...)))

  /** Term `i` of the non-regular expansion of 4/pi: b0 = 1, then pairs
      (a_k, b_k) = (k^2, 2k + 1). */
  function PiTerm(i: nat): int {
    if i == 0 then 1
    else
      var j := i - 1;
      var k := j / 2 + 1;
      if j % 2 == 0 then k * k else 2 * k + 1
  }

  lemma HalfOf(k: nat, r: nat)
    requires r < 2
    ensures (2 * k + r) / 2 == k && (2 * k + r) % 2 == r
  {
    DivUnique(2 * k + r, 2, k, r);
  }

  /** `pi_arctan_sequence` run for `demands` demands: the numerators are
      built by adding up the odd denominators, which yields the squares. */
  method PiArctanSequence(demands: nat) returns (out: seq<int>)
    ensures |out| == 2 + 2 * demands
    ensures forall i :: 0 <= i < |out| ==> out[i] == PiTerm(i)
  {
    var denom := 1;
    out := [denom];
    var num := 1;
    out := out + [num];
    var k := 0;
    while k < demands
      invariant 0 <= k <= demands
      invariant |out| == 2 + 2 * k
      invariant denom == 2 * k + 1 && num == (k + 1) * (k + 1)
      invariant forall i :: 0 <= i < |out| ==> out[i] == PiTerm(i)
    {
      HalfOf(k, 1);
      HalfOf(k + 1, 0);
      denom := denom + 2;
      out := out + [denom];
      num := num + denom;
      assert num == (k + 2) * (k + 2);
      out := out + [num];
      k := k + 1;
    }
  }

  /** `regularized_pi` feeds the 4/pi expansion through the non-regular
      engine with coefficients (a, b, c, d) = (0, 4, 1, 0), the map
      x |-> 4/x that turns 4/pi into pi. */
  lemma RegularizedPiCoefficients(xn: int, xd: int)
    ensures M.Num(M.SetMobius(0, 4, 1, 0), xn, xd) == 4 * xd
    ensures M.Den(M.SetMobius(0, 4, 1, 0), xn, xd) == xn
  {}

  // ---------------------------------------------------------------------
  // tan 1 = [1; 1, 1, 3, 1, 5, ...]

  /** Term `i` of tan 1: the pairs 1, 2k - 1 for k = 1, 2, ... */
  function Tan1Term(i: nat): int {
    var k := i / 2 + 1;
    if i % 2 == 0 then 1 else 2 * k - 1
  }

  /** `tan1_expansion` run for `demands` demands; nothing is emitted before
      the first demand. */
  method Tan1Expansion(demands: nat) returns (out: seq<int>)
    ensures |out| == 2 * demands
    ensures forall i :: 0 <= i < |out| ==> out[i] == Tan1Term(i)
  {
    var odd := 1;
    out := [];
    var k := 0;
    while k < demands
      invariant 0 <= k <= demands
      invariant |out| == 2 * k && odd == 2 * k + 1
      invariant forall i :: 0 <= i < |out| ==> out[i] == Tan1Term(i)
    {
      HalfOf(k, 0);
      HalfOf(k, 1);
      out := out + [1, odd];
      odd := odd + 2;
      k := k + 1;
    }
  }

  // ---------------------------------------------------------------------
  // exp(z) = 1 + z/(1 - z/(2 + z/(3 - z/(2 + z/(5 - ...)))))

  /** Term `i` of the non-regular expansion of exp(z): b0 = 1, then the
      groups z, 2k - 1, -z, 2. */
  function ExpTerm(z: int, i: nat): int {
    if i == 0 then 1
    else
      var j := i - 1;
      var k := j / 4 + 1;
      if j % 4 == 0 then z
      else if j % 4 == 1 then 2 * k - 1
      else if j % 4 == 2 then -z
      else 2
  }

  lemma QuarterOf(k: nat, r: nat)
    requires r < 4
    ensures (4 * k + r) / 4 == k && (4 * k + r) % 4 == r
  {
    DivUnique(4 * k + r, 4, k, r);
  }

  /** `exp_expansion` for argument `z`, run for `demands` demands. */
  method ExpExpansion(z: int, demands: nat) returns (out: seq<int>)
    ensures |out| == 1 + 4 * demands
    ensures forall i :: 0 <= i < |out| ==> out[i] == ExpTerm(z, i)
  {
    var odd := 1;
    var minusz := -z;
    out := [1];
    var k := 0;
    while k < demands
      invariant 0 <= k <= demands
      invariant |out| == 1 + 4 * k && odd == 2 * k + 1
      invariant forall i :: 0 <= i < |out| ==> out[i] == ExpTerm(z, i)
    {
      QuarterOf(k, 0);
      QuarterOf(k, 1);
      QuarterOf(k, 2);
      QuarterOf(k, 3);
      out := out + [z, odd, minusz, 2];
      odd := odd + 2;
      k := k + 1;
    }
  }

  // ---------------------------------------------------------------------
  // tanh z = z/(1 + z^2/(3 + ...)) and tan z = z/(1 - z^2/(3 - ...))

  /** Term `i` of Gauss's expansion with partial numerator `sq` (z^2 for
      tanh, -z^2 for tan): b0 = 0, a1 = z, then pairs (2k - 1, sq). */
  function GaussTerm(z: int, sq: int, i: nat): int {
    if i == 0 then 0
    else if i == 1 then z
    else
      var j := i - 2;
      var k := j / 2 + 1;
      if j % 2 == 0 then 2 * k - 1 else sq
  }

  /** The square of `z`, negated for tan. */
  function GaussSquare(z: int, tan: bool): int {
    if tan then -(z * z) else z * z
  }

  /** `gauss_tanh_expansion` (`tan` false) and `gauss_tan_expansion` (`tan`
      true) for argument `z`, run for `demands` demands. */
  method GaussExpansion(z: int, tan: bool, demands: nat) returns (out: seq<int>)
    ensures |out| == 2 + 2 * demands
    ensures forall i :: 0 <= i < |out| ==> out[i] == GaussTerm(z, GaussSquare(z, tan), i)
  {
    var odd := 1;
    var z2 := 0;
    out := [z2, z];
    z2 := z * z;
    if tan {
      z2 := -z2;
    }
    var k := 0;
    while k < demands
      invariant 0 <= k <= demands
      invariant |out| == 2 + 2 * k && odd == 2 * k + 1 && z2 == GaussSquare(z, tan)
      invariant forall i :: 0 <= i < |out| ==> out[i] == GaussTerm(z, z2, i)
    {
      HalfOf(k, 0);
      HalfOf(k, 1);
      out := out + [odd];
      odd := odd + 2;
      out := out + [z2];
      k := k + 1;
    }
  }
}
