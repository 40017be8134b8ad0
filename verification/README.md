# frac engines in Dafny

A model of the integer state machines inside `frac`, a C library for exact
real arithmetic with continued fractions.  In `frac`, every number is a
stream of continued-fraction terms.  Every operator is a small integer
machine that reads terms from one or two input streams and writes output
terms.  The model keeps those machines and their step functions and drops
the threads.

- **Streams.** An input is an infinite stream `nat -> int` plus a read
  cursor (`Terms.Input`).
- **Engines.** Each engine is an immutable record of integers with pure
  step functions.
- **Retry loops.** The "read until a term can be emitted" loops, and the
  sign and doubling loops, carry an explicit `fuel` bound.
- **Value preservation.** It is stated as homogeneous integer identities.
  The value x is written xn/xd, and a tableau's numerator and denominator
  are polynomials in xn and xd.  Nothing is divided and no reals are used.
- **Big integers.** GMP integers are Dafny `int`.  `mpz_fdiv_qr` is the
  explicit floor division `Arith.FloorDiv`/`Arith.FloorMod`, because
  Dafny's `/` and `%` are Euclidean.

Modules, one per source file:

| module | file | what it is |
|---|---|---|
| `Arith` | — | floor division, sign, divisibility and the gcd of `mpz_gcd` |
| `Terms` | — | input streams, the `Demand` result, `Option` |
| `Mobius` | mobius.c | the four-slot Möbius tableau (pold, p, qold, q) and its six engines |
| `CfMobius` | cf_mobius.c | the older six-slot tableau with pnew, qnew and its strict emission test |
| `Bihom` | bihom.c | Gosper's eight-entry bihomographic tableau (HAKMEM item 101) |
| `Newton` | newton.c | the quadratic solver with its two columns (a, b, c) |
| `Tee` | tee.c | the request path of the tee dispatcher |
| `Famous` | famous.c, cf_famous.c | the closed-form term generators |
| `Converge` | cf_converge.c | the identity convergent recurrence, shared by taylor.c and exercise.c |
| `Taylor` | taylor.c | a Taylor partial sum of sin 1 and its Euclid expansion |
| `Exercise` | exercise.c | the word-sized digit extraction for sqrt 2 |

A few facts about the code that the model follows, and that are easy to
get wrong when reading it:

- **Emission bracket.** The code emits t when `t*q <= p < t*q + q`. The
  lower bound is included (mobius.c:193).
- **Sign determination.** It runs only in the two regular-input engines,
  `mobius_throughput` and `mobius_decimal` (mobius.c:328, mobius.c:388).
  It negates the q column and the p column separately, and flips the
  output sign once for each negation (mobius.c:307-316).
- **taylor.c's limit.** The comment at taylor.c:28 promises `(2k+1)!/2`.
  The code computes `s * (2k+1)`: the first `mpz_mul_ui` into `limit` is
  overwritten by the second (taylor.c:29-30).  For a negative order, 2k+1
  reaches `mpz_mul_ui` as an `unsigned long`, so the limit is
  s * (2^64 + 2k + 1).
- **taylor.c's default order.** It is k = 5 (taylor.c:6).

## Model

| member | source | states |
|---|---|---|
| Arith.FloorDiv | mobius.c:334 | `mpz_fdiv_qr`'s quotient: the largest t with t*d <= n for d > 0, and the mirrored bracket for d < 0 |
| Arith.FloorMod | mobius.c:334 | `mpz_fdiv_qr`'s remainder: n = t*d + r with r in [0, d) for d > 0 and in (d, 0] for d < 0 |
| Arith.FloorDivUnique | mobius.c:334 | any t bracketing n between t*d and t*d + d is the floor quotient |
| Arith.GcdDivides | mobius.c:61-63 | `mpz_gcd` divides both arguments |
| Arith.GcdGreatest | mobius.c:61-63 | every common divisor divides `mpz_gcd` |
| Arith.GcdZero | mobius.c:60-70 | the gcd is 0 exactly when both arguments are 0 |
| Mobius.SetMobius | mobius.c:80-83 | (a, b, c, d) load as (pold, p, qold, q) = (b, a, d, c), so the tableau denotes (a*x + b)/(c*x + d) with determinant a*d - b*c |
| Mobius.RegularRecurSubstitutes | mobius.c:41-46 | the regular recurrence (p, t*p + pold, q, t*q + qold) substitutes x = t + 1/x' and negates p*qold - pold*q |
| Mobius.NonregularRecurSubstitutes | mobius.c:49-56 | the non-regular recurrence (p, den*p + num*pold, q, den*q + num*qold) substitutes x = (den*x' + 1)/(num*x') in numerator and denominator, and scales the determinant by -num |
| Mobius.RemoveGcd | mobius.c:60-70 | all four entries are divided by g = gcd(p, q, pold, qold) and g > 0; an all-zero tableau, where the code divides by zero, is excluded |
| Mobius.RemoveGcdCoprime | mobius.c:60-70 | after the gcd step the four entries have gcd 1 |
| Mobius.RemoveGcdKeepsValue | mobius.c:60-70 | the gcd step scales numerator and denominator by the same g, so both fractions and the denoted value are unchanged |
| Mobius.Emit | mobius.c:333-339 | a term is emitted only if qold != 0, and it is then floor(pold/qold) |
| Mobius.EmitIffFloorsAgree | mobius.c:333-339 | the guard fires exactly when qold != 0, q > 0 and floor(pold/qold) = floor(p/q); the emitted term is also floor(p/q) |
| Mobius.EmitSound | mobius.c:333-339 | when the guard fires with qold > 0, the emitted t is the integer part of the denoted value for every non-negative tail |
| Mobius.InvertOutDenotesReciprocal | mobius.c:341-349 | the continued-fraction update (qold, q, pold - t*qold, p - t*q) denotes 1/(V - t) and negates the determinant |
| Mobius.InvertOutRemainders | mobius.c:341-349 | after an emission the new denominators are the remainders, in [0, q) and [0, qold) |
| Mobius.DecimalOutDenotesShift | mobius.c:414-421 | the decimal update pold := 10*(pold - t*qold), p := 10*(p - t*q), q's unchanged, denotes 10*(V - t) |
| Mobius.Decide | mobius.c:333-354 | the tail of `recur`: the output is exactly the guard's verdict, and with no emission the tableau keeps its post-recurrence value |
| Mobius.RegularDemand | mobius.c:356-360 | one demand reads terms until an emission, never faults, and an emission consumes between 1 and `fuel` terms |
| Mobius.NonregularDemand | mobius.c:215-220 | one demand on a non-regular engine reads (num, den) pairs until an emission, consuming 2 to 2*`fuel` terms |
| Mobius.RegularDemandEmits | mobius.c:330-360 | a regular demand that read n terms emits what the guard gives on the tableau after those n terms, with the matching output update, and the guard was silent after each of the first n - 1; a stalled demand saw it silent after all `fuel` terms |
| Mobius.NonregularDemandEmits | mobius.c:185-220 | a non-regular demand reads an even number of terms, n pairs, and emits the guard's term and update on the gcd-reduced tableau after those n pairs, with the guard silent and no fault after each earlier pair |
| Mobius.NonregularDemandStalls | mobius.c:185-220 | a stalled non-regular demand saw no fault and a silent guard after each of its `fuel` pairs |
| Mobius.NonregularDemandFaults | mobius.c:185-220 | a non-regular demand faults only when the gcd-reduced fold over its `fuel` pairs meets an all-zero tableau |
| Mobius.NonregularStart | mobius.c:212-214 | the start of the non-regular cf and decimal engines is the guard on the reduced fold over the pair (1, b0): it faults exactly when that fold does, and otherwise emits the guard's term with the matching update, or keeps the reduced tableau |
| Mobius.NonregularStartEmits | mobius.c:185-214 | a term the start emits is the guard's term on the reduced fold over (1, b0), the first pair of 1, b0, a1, b1, ... |
| Mobius.NonregularFirstDemandEmits | mobius.c:212-220 | after a silent start, the first demand reads n >= 1 pairs after b0 and emits the guard's term, with its update, on the reduced fold over 1, b0 and those n pairs |
| Mobius.SignLoop | mobius.c:302-306 | the reading loop of `determine_sign` stops with both numerator signs equal and both denominator signs equal, and reads nothing if they already are |
| Mobius.NormalizeSign | mobius.c:307-316 | negating each negative column and flipping the sign flag each time leaves all four entries non-negative and preserves the signed value |
| Mobius.DetermineSign | mobius.c:300-317 | `determine_sign` leaves a non-negative tableau and a cursor within `fuel` terms of the start |
| Mobius.RecurKeepsNonNeg | mobius.c:331 | a non-negative tableau stays non-negative under a non-negative term |
| Mobius.RecurKeepsDigitRange | mobius.c:390 | when both fractions lie in [0, 10), they still do after a non-negative term |
| Mobius.DecimalStepFromNonNeg | mobius.c:389-427 | from a non-negative tableau a decimal step stays non-negative, and after an emission both fractions lie in [0, 10) |
| Mobius.DecimalStepDigit | mobius.c:394 | from digit range every emitted term is a digit 0..9 and the range is kept |
| Mobius.DemandFromNonNeg | mobius.c:428-432 | a demand on a non-negative tableau and non-negative input ends in digit range |
| Mobius.DemandDigit | mobius.c:428-432 | a demand from digit range emits a digit 0..9 and stays in range |
| Mobius.DigitsStayDigits | mobius.c:428-432 | from digit range every term of the decimal output is a digit |
| Mobius.DecimalTermsAreDigits | mobius.c:378-394 | with regular non-negative input, every decimal output term after the first (the integer part) is a digit 0..9 |
| Mobius.DecimalEngineDigits | mobius.c:381-432 | `mobius_decimal` end to end: after `determine_sign`, every output term but the integer part is a digit when a1, a2, ... are non-negative and a0 is non-negative or absorbed by the sign loop |
| Mobius.ConvergentTerms | mobius.c:96-101 | the convergent engine emits p then q once per demand, two terms per demand |
| Mobius.NonregularConvergentTerms | mobius.c:153-157 | unless a step hits an all-zero tableau, the demands after the start emit two terms, p and q, each |
| Mobius.NonregularConvergent | mobius.c:136-157 | the whole engine, with the start on (1, b0), emits two terms per demand plus the start's two |
| Mobius.NonregularConvergentPairs | mobius.c:143-157 | the demands fault exactly when the gcd-reduced fold over their pairs does; otherwise pair i is p, q of the reduced tableau after i + 1 pairs |
| Mobius.NonregularConvergentEmits | mobius.c:143-157 | the whole engine faults exactly when the reduced fold over 1, b0, a1, b1, ... does; otherwise pair i is p, q of the reduced tableau after the first i + 1 of those pairs |
| Mobius.NonregularFoldScaled | mobius.c:49-70 | the reduced tableau is the plain non-regular convergent tableau divided by a positive product of gcds, so both give the same fractions p/q and pold/qold |
| CfMobius.SetMobius | cf_mobius.c:79-82 | the six-slot load agrees with mobius.c's on the four old slots |
| CfMobius.RegularRecur | cf_mobius.c:39-44 | only pnew, qnew are written, and (p, pnew, q, qnew) is mobius.c's recurrence applied to (pold, p, qold, q) |
| CfMobius.NonregularRecur | cf_mobius.c:47-52 | pnew = den*p + num*pold and qnew = den*q + num*qold, which is mobius.c's non-regular recurrence |
| CfMobius.Next | cf_mobius.c:68-71 | `pqset_next` shifts the new convergent in: the old slots become (p, pnew, q, qnew) |
| CfMobius.RemoveGcd | cf_mobius.c:54-66 | p, q, pnew, qnew are divided by their gcd as mobius.c does, and pold, qold are left holding the gcds used as scratch |
| CfMobius.Emit | cf_mobius.c:175-183 | a term is emitted only if q != 0, and it is then floor(p/q) |
| CfMobius.EmitIsStrictMobiusEmit | cf_mobius.c:180-183 | the strict test fires exactly when mobius.c's fires and pnew != t*qnew; the boundary case of the TODO is never emitted |
| CfMobius.DecideIgnoresScratch | cf_mobius.c:172-199 | the pold, qold scratch left by the gcd step never influences `recur` |
| CfMobius.DecideRefinesMobius | cf_mobius.c:185-199 | an emission here is an emission in mobius.c with the same term and the same next tableau; otherwise `pqset_next` gives mobius.c's unchanged tableau |
| CfMobius.RegularStepRefinesMobius | cf_mobius.c:232-273 | a regular decimal or cf step of the six-slot engine refines mobius.c's step on the same term |
| CfMobius.NonregularStepRefinesMobius | cf_mobius.c:172-200 | the non-regular step faults exactly when mobius.c's does and otherwise refines it |
| CfMobius.RegularDemand | cf_mobius.c:275-279 | a demand reads regular terms until an emission, consuming 1 to `fuel` terms |
| CfMobius.NonregularDemand | cf_mobius.c:204-209 | a demand reads (num, den) pairs until an emission |
| CfMobius.RegularDemandRefinesMobius | cf_mobius.c:232-279 | when a six-slot regular demand emits, mobius.c's demand from the same tableau has emitted after no more terms, and after the same number it emits the same term and tableau |
| CfMobius.NonregularDemandRefinesMobius | cf_mobius.c:172-209 | the same for the non-regular demands |
| CfMobius.NonregularStartRefinesMobius | cf_mobius.c:201-203 | the six-slot start faults exactly when mobius.c's does, reads the same b0, and otherwise refines it: the same emission and tableau, or the same tableau when neither emits |
| CfMobius.ConvergentTerms | cf_mobius.c:93-99 | the six-slot convergent engine emits pnew then qnew per demand |
| CfMobius.ConvergentTermsAgree | cf_mobius.c:93-99 | the six-slot convergent engine emits exactly what mobius.c's does |
| CfMobius.TanhZeroTerms | famous.c:108-123 | Gauss's expansion of tanh 0 has zero numerators and positive odd denominators |
| CfMobius.StallsWhileNumeratorsVanish | cf_mobius.c:172-200 | with p = 0, q > 0 and zero numerators, the strict engine never emits: each demand stalls |
| CfMobius.RemoveGcdKeepsUnit | mobius.c:60-70 | a tableau with an old entry 1 has gcd 1 and the gcd step leaves it alone |
| CfMobius.MobiusStepKeepsUnit | mobius.c:185-211 | then mobius.c's non-regular step is the plain recurrence followed by the guard |
| CfMobius.MobiusStartOnZero | mobius.c:212-214 | mobius.c's non-regular cf engine, started on the identity with b0 = 0, reaches (1, 0, 0, 1) without emitting |
| CfMobius.MobiusDecideZero | mobius.c:189-207 | from (0, 0, 1, q) with q > 0 mobius.c's non-strict guard emits 0 |
| CfMobius.MobiusEmitsZero | mobius.c:185-211 | mobius.c's next step on a pair (0, den) with den > 0 emits 0, which is tanh 0's first term |
| CfMobius.TanhZeroVanishes | famous.c:108-123 | the tanh 0 stream read after b0 has the vanishing-numerator shape the stall lemma needs |
| CfMobius.CfStepKeepsUnit | cf_mobius.c:172-174 | the six-slot step leaves a unit tableau unreduced and never faults on it |
| CfMobius.CfDecideStart | cf_mobius.c:175-199 | on the view (1, 0, 0, 1) the strict engine does not emit and shifts to p = 0, q = 1 |
| CfMobius.CfMobiusStartOnZero | cf_mobius.c:201-203 | cf_mobius.c's engine started on the identity with b0 = 0 reaches p = 0, q = 1 without emitting, from where it stalls on tanh 0 |
| Bihom.SetCoeff | bihom.c:45-50 | a[0..7] load as p0, q0, r0, s0, p1, q1, r1, s1, denoting (p0*xy + q0*x + r0*y + s0)/(p1*xy + q1*x + r1*y + s1) |
| Bihom.MoveRightSubstitutes | bihom.c:81-92 | `move_right(z)` substitutes x = z + 1/x' in numerator and denominator |
| Bihom.MoveDownSubstitutes | bihom.c:69-80 | `move_down(z)` substitutes y = z + 1/y' in numerator and denominator |
| Bihom.MovesKeepNonNeg | bihom.c:69-92 | both moves keep a non-negative tableau non-negative under non-negative terms |
| Bihom.ReadRight | bihom.c:81-92 | `move_right` reads exactly one term z, from x and none from y, on the same streams, and the new tableau at x' denotes what the old one denoted at x = z + 1/x' |
| Bihom.ReadDown | bihom.c:69-80 | `move_down` reads exactly one term z, from y and none from x, on the same streams, and the new tableau at y' denotes what the old one denoted at y = z + 1/y' |
| Bihom.SignLoop | bihom.c:94-102 | the loop reads one x and one y term per round until each row's four entries share one sign |
| Bihom.NegateRowsValue | bihom.c:103-116 | negating the numerator row negates the value's numerator; negating the denominator row negates its denominator |
| Bihom.NormalizeSign | bihom.c:103-116 | negating each negative row with one sign flip each leaves all eight entries non-negative |
| Bihom.NormalizeSignKeepsValue | bihom.c:103-116 | the signed value (sign flag times tableau) is unchanged by the negation pass |
| Bihom.Start | bihom.c:94-116 | sign determination leaves a non-negative tableau reading the same streams |
| Bihom.Choose | bihom.c:118-156 | `recur` emits exactly when p1 != 0 and floor(p0/p1) = floor(q0/q1) = floor(r0/r1) = floor(s0/s1) with all denominators non-zero |
| Bihom.EmitOutDenotesReciprocal | bihom.c:157-161 | the update (x0, x1) := (x1, x0 - t*x1) on each corner makes the tableau denote 1/(V - t) |
| Bihom.EmitOutRemainders | bihom.c:157-161 | with positive denominators each new denominator lies in [0, x1) |
| Bihom.EmitSound | bihom.c:140-157 | when all four floors agree on t with positive denominators, t is the integer part of the denoted value for every non-negative x and y |
| Bihom.Recur | bihom.c:118-163 | `recur` never changes the streams; it emits exactly when `Choose` says so; a call that emits nothing consumes at least one term |
| Bihom.RecurKeepsNonNeg | bihom.c:118-163 | on non-negative tableau and input, `recur` keeps the tableau non-negative and emits non-negative terms |
| Bihom.Demand | bihom.c:164-166 | a demand repeats `recur` until an emission, reading the same streams and never going back |
| Bihom.DemandConsumes | bihom.c:164-166 | a demand that took k calls to `recur` consumed at least k - 1 terms |
| Bihom.DemandKeepsNonNeg | bihom.c:164-166 | a demand on non-negative data emits a non-negative term and keeps the tableau non-negative |
| Bihom.OperationsDenote | bihom.c:216-238 | the add, sub, mul and div vectors denote x + y, x - y, x*y and x/y |
| Bihom.ConstructorsMatchVectors | bihom.c:240-284 | `cf_new_add/sub/mul/div` install exactly the `mpz8_set_*` vectors |
| Newton.SetCoeffStatesRelation | newton.c:54-57 | column 0 = (A2, A3, A5) and column 1 = (A0, A1, A4) make the solver's quadratic vanish exactly when y = (A0*xy + A1*x + A2*y + A3)/(A4*xy - A0*x + A5*y - A2) |
| Newton.MoveRightSubstitutes | newton.c:84-95 | `move_right(z)` shifts each coefficient pair as (v0, v1) := (v1, z*v1 + v0), which substitutes x = z + 1/x' |
| Newton.MoveDownSubstitutes | newton.c:97-117 | `move_down(z)` turns the quadratic into minus itself at y = z + 1/y' |
| Newton.MoveDownKeepsDisc | newton.c:97-117 | `move_down` preserves the discriminant a^2 + b*c |
| Newton.MoveDownLeading | newton.c:97-117 | the new leading coefficient c' is -(c*z^2 - 2a*z - b) |
| Newton.SignQuad | newton.c:119-135 | `sign_quad` and `sign_quad1` return the sign of c*z^2 - 2a*z - b |
| Newton.MoveRightsSnoc | newton.c:84-95 | reading n + 1 terms is reading n and then one more |
| Newton.Bisect | newton.c:156-165 | bisection ends with z1 = z0 + 1, Q0(z0) on the start sign and Q0(z0 + 1) off it |
| Newton.Double | newton.c:148-154 | the doubling phase ends at some z1 > lower whose sign differs from the sign at lower |
| Newton.BinarySearch | newton.c:142-171 | z0 >= lower, Q0 changes sign between z0 and z0 + 1 as it does relative to lower, column 1 also changes sign there, and the tableau is the start one moved right over the terms read |
| Newton.Newton | newton.c:137-183 | over `demands` demands at most demands + 1 terms go out; the first is >= lower and every later one is >= 1 |
| Newton.SqrtSolvesSquare | newton.c:204-213 | with A1 = A5 = 1 the quadratic is xd*yn^2 - xn*yd^2, so the solver computes y with y^2 = x |
| Tee.New | tee.c:114-118 | `cf_tee` starts with both branches registered and empty backlogs, which establishes the request path's invariants: at most one backlog holds terms, and the state is consistent with nothing delivered from the current upstream position |
| Tee.Request | tee.c:69-90 | a request pops the front of the branch's own backlog without reading upstream; otherwise it reads one upstream term, which goes to the requester and is copied to the other backlog only if that branch is registered |
| Tee.RequestKeepsOneBacklog | tee.c:70-88 | at most one of the two backlogs is non-empty, before and after each request |
| Tee.RequestKeepsConsistent | tee.c:70-90 | with both branches registered, the backlogs hold exactly the upstream terms each branch has not yet received |
| Tee.Serve | tee.c:54-91 | after any sequence of requests each branch has received exactly the upstream prefix of its length, in order, and upstream has been read max(n0, n1) times |
| Famous.EExpansion | famous.c:6-17 | e is 2 up front, then 1, 2k, 1 per demand: [2; 1, 2, 1, 1, 4, 1, ...]; cf_famous.c:6-19 emits the same |
| Famous.PiArctanSequence | famous.c:24-39 | 4/pi's terms are 1, 1, then 2k + 1 and (k + 1)^2 per demand; cf_famous.c:30-46 emits the same |
| Famous.RegularizedPiCoefficients | famous.c:46-52 | the coefficients (0, 4, 1, 0) denote 4/x; cf_famous.c:53-59 uses the same |
| Famous.Tan1Expansion | famous.c:70-79 | tan 1 is 1, 2k - 1 per demand: [1; 1, 1, 3, 1, 5, ...] |
| Famous.ExpExpansion | famous.c:87-101 | exp z is 1 up front, then z, odd, -z, 2 per demand with odd = 1, 3, 5, ...; cf_famous.c:77-92 emits the same |
| Famous.GaussExpansion | famous.c:108-146 | tanh z is 0, z, then odd, z^2 per demand; tan z the same with -z^2 |
| Converge.FoldFromSnoc | cf_converge.c:18-26 | absorbing one more term is one more step of the recurrence pnew = p*d + pold, qnew = q*d + qold |
| Converge.FoldFromDeterminant | cf_converge.c:18-26 | each term flips the sign of p*qold - pold*q |
| Converge.FoldDeterminant | cf_converge.c:11-12 | from the identity (0, 1, 1, 0), the convergents of n terms have p*qold - pold*q = (-1)^n |
| Terms.TakeCons | cf_converge.c:17 | taking n + 1 terms is the head followed by n terms of the tail |
| Converge.ConvergentStep | cf_converge.c:15-26 | one demand makes the convergent of one more term, adjacent to the previous one |
| Converge.Convergent | cf_converge.c:5-27 | after n demands the output is p1, q1, ..., pn, qn, the convergents of the first 1..n terms, and consecutive ones differ by (-1)^(i+1) in cross product |
| Converge.MobiusConvergentsAreFold | mobius.c:96-101 | mobius.c's convergent engine emits the convergent of the first i + 1 terms as pair i |
| Converge.SqrtTwoConvergents | mobius_test.c:44-70 | the identity on [1; 2, 2, 2] gives the convergents 1/1, 3/2, 7/5, 17/12 |
| Converge.SqrtTwoStart | mobius.c:125-132 | `cf_new_cf_convergent`'s coefficients (1, 0, 0, 1) load as the identity tableau |
| Converge.SqrtTwoEngine | mobius_test.c:52-70 | mobius.c's convergent engine on [1; 2, 2, ...] emits 1, 1, 3, 2, 7, 5, 17, 12 over four demands |
| Taylor.FactSplit | taylor.c:15-16 | n! = m! * (m+1) * ... * n |
| Taylor.SinSumTerm | taylor.c:12-23 | term j of the numerator, times (2j+1)!, is (-1)^j * (2i+1)!, so r/s is sum_{j <= i} (-1)^j/(2j+1)! |
| Taylor.SinSumScale | taylor.c:16-17 | multiplying by (2i+2)(2i+3) moves the sum to the common denominator (2i+3)! |
| Taylor.PartialSum | taylor.c:12-23 | after the loop s = (2k+1)! and r is the numerator of the partial sum of sin 1 up to x^(2k+1)/(2k+1)! |
| Taylor.Expand | taylor.c:45-62 | the printed terms have the convergent p1/q1 and every printed convergent's denominator squared is below the limit; an exact stop prints all of Euclid's quotients of r/s and p1/q1 = r/s; a limit stop prints a prefix of those quotients and refuses the next one, whose convergent reaches the limit |
| Taylor.QuotientsValue | taylor.c:45-62 | the convergent of all of Euclid's floor quotients of r/s equals r/s |
| Taylor.QuotientsAdvance | taylor.c:46-62 | one Euclid step moves the next quotient of a/b from the pending quotients to the ones read |
| Taylor.ULong | taylor.c:30 | the `unsigned long` argument of `mpz_mul_ui`: the int reduced modulo 2^64, unchanged in [0, 2^64) and 2^64 plus itself when negative |
| Taylor.LimitCases | taylor.c:29-30 | the limit is s*(2k+1) for k >= 0 and s*(2^64 + 2k + 1) for k < 0 |
| Taylor.NegativeOrderLimit | taylor.c:5-62 | with order -1 the loop does not run: r = s = 1, the limit is 2^64 - 1, the quotients of 1/1 are [1], and the convergent 1/1 is below the limit |
| Taylor.SinOne | taylor.c:5-62 | the program with order k (5 unless given): s = (2k'+1)! for k' = max(k, 0), limit = s times 2k+1 read as an unsigned long, and the expansion's guarantees about the quotients of r/s |
| Taylor.NegativeOrderRun | taylor.c:5-62 | run with order -1, the program prints the quotient 1 with convergent 1/1 and stops on the vanishing remainder |
| Exercise.DigitCount | exercise.c:9-13 | the digit count is the argument when it is positive and 37 otherwise |
| Exercise.StartIsLeadingTerm | exercise.c:16-19 | the start (p0, p1, q0, q1) = (1, 1, 0, 1) is the convergent tableau of the leading term 1 |
| Exercise.DigitSearch | exercise.c:31-41 | the search ends with digit in 0..9, r0 = q0*(digit+1), r1 = q1*(digit+1), q0*digit <= p0, and digit = min(9, floor(p0/q0)) for q0 > 0 |
| Exercise.Round | exercise.c:22-56 | a round applies the term 2 as mobius.c's recurrence, prints exactly when q1*digit <= p1 < q1*(digit+1), and then makes mobius.c's decimal update |
| Exercise.RoundInRange | exercise.c:21-56 | after the first term 2 both fractions stay in [0, 10), so every printed digit is a digit |
| Exercise.RoundIsEngineStep | exercise.c:22-56 | in that range a round is exactly one step of mobius.c's decimal engine on the term 2 |
| Exercise.Run | exercise.c:21-57 | the program prints the digits of mobius.c's decimal engine on [1; 2, 2, ...], each in 0..9, stops exactly when n digits are out, and reaches n unless the fuel runs out |

## Left out

- cf.c, the threads and the demand channels (`cf_wait`, `cf_put`, `cf_get`, the mutexes): their point is concurrency.  Inputs are streams, outputs are sequences, and the sign flag is a plain field.
- The closure path of tee.c's `parent_loop` (tee.c:57-68) and `branch_loop`.  The code there cannot work as written: `mpz_get_ui` drops the sign, so `k < 0` never holds; `-k + 1` should be `-k - 1`; and the backlog is freed without a NULL check.  The model registers both branches for good.
- Memory management (`mpz_init`, `mpz_clear`, `malloc`, `free`, freeing the backlog lists): immutable records and sequences replace it.
- The drivers, printers and test programs, apart from the sqrt 2 convergent vector: hakmem.c, pi.c, pi2.c, sqrt2.c, epow.c, test.c, `pqset_print`, `pqrs_print`, `abc_print`.
- The wiring tasks `cf_new_one_arg`, `one_arg_nonregular`, `nonreg_const` and the thread plumbing of `regularized_pi`: only their coefficient choices are modelled.
- End-to-end digit vectors of infinite inputs (e + pi, e * pi, pi's digits, Gosper's coth 1/2): they depend on the convergence of infinite streams.
- Mobius.RegularDemand: termination of the retry loops is bounded by `fuel`.  The source relies on well-behaved input and loops forever otherwise.  The same bound applies to Mobius.NonregularDemand, Mobius.SignLoop, CfMobius.RegularDemand, CfMobius.NonregularDemand, Bihom.SignLoop, Bihom.Demand, Newton.Double, Newton.BinarySearch and Exercise.Run.
- Newton.Newton: it does not state the value of the emitted terms, only their lower bounds.  Newton.BinarySearch states only that each column's quadratic changes sign between z0 and z0 + 1.
- Bihom.Demand: value preservation over a whole demand is not stated for infinite streams.  It holds step by step through Bihom.MoveRightSubstitutes, Bihom.MoveDownSubstitutes and Bihom.EmitOutDenotesReciprocal.
- The correctness of `gauss_tan_expansion` for the engines: the library documents it as unsupported.  Only its term stream is modelled.
- CfMobius.StallsWhileNumeratorsVanish: the divergence between the strict and non-strict guards on tanh 0 is shown as a chain of single-step lemmas, with no end-to-end demand lemma for mobius.c.  The chain shows that mobius.c emits 0 on the first demand while cf_mobius.c stalls.
- Exercise.Run: the 64-bit `unsigned long long` words are unbounded here.  The source's own comment limits it to 37 digits before overflow.  `atoi`'s parsing of the argument is replaced by an optional integer.
- Taylor.PartialSum: the `int` product `(2*i)*(2*i+1)` and `atoi` are unbounded here.  The product overflows only for k beyond about 23000.
- Taylor.SinOne: the comment's limit (2k+1)!/2 is not proved.  The code computes s times 2k+1 converted to `unsigned long`, and that is what is modelled.  The `int` expression 2*k+1 itself overflows for |k| >= 2^30, and that overflow is not modelled.
- Mobius.DecimalTermsAreDigits: it needs every term non-negative, and Mobius.DecimalEngineDigits covers a negative a0 only when `determine_sign` absorbs it.  When the loaded tableau's signs already agree and a0 < 0, the tableau after a0 can have denominators of mixed sign, and no digit bound is stated for that case.
- Famous.EExpansion: the C `int` counter `even` (famous.c:8) wraps after about 2^30 demands and is unbounded here.  The same holds for `odd` in Famous.Tan1Expansion (famous.c:72) and Famous.ExpExpansion (famous.c:91).
