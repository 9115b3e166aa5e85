# Polynomial solutions of linear recurrences (Abramov's method)

This project is a Dafny model of the Sage script `algorith_poly-cornelis.py`.
The script looks for the polynomial solutions y of a linear recurrence with
polynomial coefficients,

    L y = p_0(n) y(n) + p_1(n) y(n+1) + ... + p_r(n) y(n+r) = f(n).

It follows Abramov's method:

1. Step 1 computes the auxiliary polynomials q_j = Σ_{i=j}^{r} C(i, j) p_i.
2. Step 2 finds a degree bound d. It computes:
   - the largest excess b = max(deg q_j − j);
   - the indicial polynomial alpha, built from the leading coefficients of the q_j that attain b (line 44 pairs them with n^j; the model pairs them with the falling factorial n (n − 1) ... (n − j + 1), see Findings, and keeps line 44's form alongside);
   - the largest integer root d1 of alpha, searched among the divisors of its cleared constant term.
3. Step 3 writes a generic y = a_0 + a_1 n + ... + a_d n^d. It equates every coefficient of L y − f with zero, which gives a linear system in a_0..a_d.

The model covers everything up to the hand-off to Sage's `solve`. It also covers the three helpers the script defines:
- `N`, the shift p(n) ↦ p(n + i);
- `lc`, the leading coefficient;
- `constant_coefficient`.

Representation:
- Polynomials are coefficient sequences, `seq<real>`, with the coefficient of n^k at index k. Two sequences denote the same polynomial when they agree coefficientwise (`Polynomials.Same`).
- The inputs p_i and f are sequences of exact rationals (`RatPolys.RatPoly`). The divisor search reads denominators, so it needs them. Everything else works on their value as real polynomials (`RatPolys.View`).

Modules, in dependency order:
- `Wrappers` defines `Option` and `Result`.
- `Rationals` covers rationals, reduced denominators, Python's truncating `int()` and gcd facts.
- `Polynomials` covers coefficient sequences, ring operations, evaluation, degree and leading coefficient.
- `RatPolys` covers rational coefficient sequences and `lc`.
- `Sums` covers finite sums of polynomials.
- `Shifts` covers the shift `N`.
- `Differences` covers the forward difference Δ = N − 1 and the expansion N^i = Σ_j C(i, j) Δ^j that step 1 rests on.
- `DegreeBound` covers Step 1 and Step 2 up to alpha.
- `DivisorSearch` covers the search for d1, both as written and as intended.
- `SolutionBound` covers the bound d.
- `LinearSystem` covers Step 3: the operator, the generic y, the equations and the line-79 reading of them.
- `Solver` covers the whole of `Poly` up to `solve`.
- `Abramov` proves that the bound is a degree bound: every polynomial solution has degree at most d, and so the equations of step 3 lose no solution.
- `PowerBasisExample` works one operator through lines 37–61, once with line 44 as written and once with the falling factorial.
- `DifferenceExample` works the first difference y(n + 1) − y(n), on which lines 41–44 as written stop in `lc`.

The script's failure modes become values:
- An empty list of coefficients gives `EmptyOperator`.
- In the corrected steps, an operator whose q_j are all zero gives `ZeroOperator`: with the zero q_j left out, there is no excess to take a maximum of.
- In the steps as written, a zero q_j that attains b gives `LeadOfZero`: line 44 takes `lc` of it, which indexes an empty list of terms. This covers all-zero q_j too, since q_0 then attains b = 0.
- The empty `max` of line 59 gives `NoIntegerRoot` in the as-written search.
- A negative bound gives `NoPolynomialSolutions`.

## Model

| member | source | states |
|---|---|---|
| Shifts.Shift | algorith_poly-cornelis.py:1-5 | N(p, i) is stored in as many coefficients as p; what it denotes is stated by ShiftEval |
| Shifts.ShiftEval | algorith_poly-cornelis.py:1-5 | the shifted polynomial takes at x the value the original takes at x + i |
| Shifts.ShiftByZero | algorith_poly-cornelis.py:1-5 | shifting by 0 returns the polynomial unchanged |
| Shifts.ShiftCompose | algorith_poly-cornelis.py:1-5 | shifting by i and then by j is shifting by i + j |
| Shifts.ShiftAdd | algorith_poly-cornelis.py:1-5 | the shift of a sum is the sum of the shifts |
| Shifts.ShiftScale | algorith_poly-cornelis.py:1-5 | the shift of c·p is c times the shift of p |
| Shifts.ShiftCongruent | algorith_poly-cornelis.py:1-5 | the shift depends only on the polynomial, not on trailing zeros of its coefficient list |
| Shifts.ShiftDegree | algorith_poly-cornelis.py:1-5 | a shift keeps a nonzero polynomial nonzero, with the same degree and leading coefficient |
| Polynomials.Degree | algorith_poly-cornelis.py:41 | the degree of a nonzero polynomial is the position of its highest nonzero coefficient; the zero polynomial has none |
| Polynomials.SourceDegree | algorith_poly-cornelis.py:41 | `degree` as Sage reports it: the degree of a nonzero polynomial and 0 for the zero polynomial, with no nonzero coefficient above it |
| Polynomials.LeadCoeff | algorith_poly-cornelis.py:7-12 | lc is defined only on a nonzero polynomial, and there it is not zero |
| Polynomials.DegreeCharacterization | algorith_poly-cornelis.py:7-12 | lc is the coefficient at the degree, and every coefficient above the degree vanishes |
| Polynomials.LeadCoeffIsItselfIffConstant | algorith_poly-cornelis.py:48 | `lc(alpha) == alpha` holds exactly when alpha has degree 0 |
| RatPolys.Lead | algorith_poly-cornelis.py:7-12 | lc of a rational polynomial, kept exact, has the value of the leading coefficient of its view |
| Polynomials.ConstantCoeff | algorith_poly-cornelis.py:14-20 | the constant coefficient is the value of the polynomial at n = 0 |
| LinearSystem.ConstantCoefficient | algorith_poly-cornelis.py:14-20 | the constant coefficient of a linear form in a_0..a_d is its value with every unknown set to 0 |
| Rationals.Truncate | algorith_poly-cornelis.py:20 | `int()` rounds toward zero: within 1 of x, never farther from zero than x |
| DivisorSearch.ConstantTerm | algorith_poly-cornelis.py:52 | the exact rational constant term of alpha has the value alpha(0) |
| DegreeBound.Q | algorith_poly-cornelis.py:28-37 | there are exactly r + 1 = len(p) auxiliary polynomials |
| DegreeBound.QLast | algorith_poly-cornelis.py:37 | q_r = p_r |
| DegreeBound.QFirst | algorith_poly-cornelis.py:37 | q_0 = p_0 + p_1 + ... + p_r |
| DegreeBound.MaxExcess | algorith_poly-cornelis.py:41-43 | b is absent exactly when every q_j is zero; otherwise deg q_j − j <= b for every nonzero q_j, and some q_j attains b |
| DegreeBound.SourceExcessIsMax | algorith_poly-cornelis.py:41-43 | when no zero q_j attains line 43's b, that b is the largest excess of the nonzero q_j and some nonzero q_j attains it |
| DegreeBound.SourceMaxExcess | algorith_poly-cornelis.py:41-43 | b as written: at least deg q_j − j for every j, a zero q_j counting −j, and equal to it for some j |
| DegreeBound.ZeroAttainsIff | algorith_poly-cornelis.py:41-44 | a zero q_j attains line 43's b exactly when all q_j are zero or some zero q_j has −j at least the largest excess of the nonzero ones; otherwise the two maxima agree |
| DegreeBound.SourceIndicialOf | algorith_poly-cornelis.py:28-44 | Steps 1–2 as written fail on an empty operator, and in `lc` exactly when a zero q_j attains b; otherwise b bounds every excess, a nonzero q_j attains it, and alpha is line 44's, nonzero and of degree <= r |
| DegreeBound.SourceIndicialAgrees | algorith_poly-cornelis.py:41-44 | Steps 1–2 as written fail exactly when the corrected ones fail or a zero q_j has −j at least the corrected b; otherwise both give the same b |
| DegreeBound.SourceAlpha | algorith_poly-cornelis.py:44 | alpha as written, summed over the first t of the q_j, has at most t coefficients; its coefficients are stated by SourceAlphaCoeff |
| DegreeBound.SourceAlphaCoeff | algorith_poly-cornelis.py:44 | in alpha as written, the coefficient of n^k is lc(q_k) when q_k attains b, and 0 otherwise |
| DegreeBound.SourceAlphaShape | algorith_poly-cornelis.py:43-44 | alpha as written has at least one nonzero term and degree at most r |
| DegreeBound.FallingPolyEval | algorith_poly-cornelis.py:44 | the polynomial n (n − 1) ... (n − j + 1) takes at x the falling factorial x (x − 1) ... (x − j + 1) |
| DegreeBound.FallingPolyCoeff | algorith_poly-cornelis.py:44 | its coefficients are the signed Stirling numbers of the first kind |
| DegreeBound.FallingPolyTop | algorith_poly-cornelis.py:44 | its coefficient at n^j is 1 |
| DegreeBound.FallingTimesView | algorith_poly-cornelis.py:44 | with an exact rational factor c, the product is c times that polynomial |
| DegreeBound.FallingTimesTop | algorith_poly-cornelis.py:44 | c times n (n − 1) ... (n − j + 1) has degree at most j and coefficient c at n^j |
| DegreeBound.Alpha | algorith_poly-cornelis.py:44 | the falling-factorial alpha, summed over the first t of the q_j, has at most t coefficients; its value is stated by AlphaEval |
| DegreeBound.AlphaEval | algorith_poly-cornelis.py:44 | alpha(x) = Σ lc(q_j) x (x − 1) ... (x − j + 1) over the j that attain b |
| DegreeBound.AlphaNonzero | algorith_poly-cornelis.py:43-44 | once some q_j attains b, alpha is not the zero polynomial |
| DegreeBound.AlphaShape | algorith_poly-cornelis.py:43-44 | alpha has at least one nonzero term and degree at most r |
| DegreeBound.IndicialOf | algorith_poly-cornelis.py:28-44 | Steps 1–2 fail exactly on an empty operator or one whose q_j are all zero, and never with any other failure; otherwise they give q, the maximal excess b, and a nonzero alpha of degree <= r |
| DivisorSearch.DenominatorProduct | algorith_poly-cornelis.py:57 | the product of the denominators of alpha's nonzero coefficients clears every coefficient's denominator |
| DivisorSearch.Cleared | algorith_poly-cornelis.py:57 | multiplying by that product gives integer coefficients, each the product times the rational one |
| DivisorSearch.ScaledEval | algorith_poly-cornelis.py:57 | at an integer, the cleared polynomial takes D times the value of alpha |
| DivisorSearch.ClearedConstant | algorith_poly-cornelis.py:57 | m is the denominator product times alpha(0), exactly |
| DivisorSearch.IntRootDividesConstant | algorith_poly-cornelis.py:57 | a nonzero integer root of an integer polynomial divides its constant coefficient |
| DivisorSearch.RootDividesClearedConstant | algorith_poly-cornelis.py:57 | every nonzero integer root of alpha divides m |
| DivisorSearch.Divisors | algorith_poly-cornelis.py:58 | m_divisors holds exactly the nonzero j with abs(j) <= abs(m) and abs(m) % abs(j) == 0 |
| DivisorSearch.DivisorsShape | algorith_poly-cornelis.py:58 | for m != 0, m_divisors is closed under negation and contains ±1 and ±m |
| DivisorSearch.LargestRoot | algorith_poly-cornelis.py:59 | the result is absent exactly when no candidate is a root; otherwise it is a candidate root no smaller than any candidate root |
| DivisorSearch.RootsAreCandidates | algorith_poly-cornelis.py:57-58 | when alpha(0) != 0, m is not zero and every integer root of alpha is in m_divisors |
| DivisorSearch.SearchFindsLargestRoot | algorith_poly-cornelis.py:57-59 | when alpha(0) != 0, the search over m_divisors finds the largest integer root of alpha, or reports correctly that there is none |
| DivisorSearch.SourceM | algorith_poly-cornelis.py:57 | m as written is zero exactly when the truncated constant term is |
| DivisorSearch.SourceRootBound | algorith_poly-cornelis.py:52-59 | d1 as written: 0 when the truncated constant is 0; otherwise the largest divisor of the truncated m that is a root, failing exactly when no divisor is a root |
| DivisorSearch.StripLow | algorith_poly-cornelis.py:54-55 | dividing alpha by its lowest power of n gives a nonzero constant term and the same nonzero integer roots |
| DivisorSearch.IntegerRootBound | algorith_poly-cornelis.py:46-59 | d1 is the largest integer root of alpha, and is absent exactly when alpha has no integer root |
| DivisorSearch.RootBoundIs | algorith_poly-cornelis.py:46 | any integer root that is at least every integer root is the value of d1 |
| SolutionBound.ConstantHasNoRoot | algorith_poly-cornelis.py:48-49 | a nonzero constant alpha has no integer root, so skipping the search there loses nothing |
| SolutionBound.BaseBound | algorith_poly-cornelis.py:49 | the bound for constant alpha is at least −b − 1 and at least deg f − b, and equals one of them |
| SolutionBound.Bound | algorith_poly-cornelis.py:48-61 | d is at least −b − 1, deg f − b and every integer root of alpha, and equals one of them |
| Solver.DegreeBoundOf | algorith_poly-cornelis.py:41-61 | Step 2 fails exactly when Steps 1–2 fail; otherwise d is the maximum of −b − 1, deg f − b and the integer roots of alpha: at least each, and equal to one of them |
| SolutionBound.SourceBound | algorith_poly-cornelis.py:46-61 | d as written: fails exactly when alpha is not constant and the as-written search fails; otherwise the maximum of −b − 1, deg f − b with Sage's degree, and, for a non-constant alpha, the as-written d1 |
| Solver.SourceDegreeBoundOf | algorith_poly-cornelis.py:37-61 | d as lines 37–61 compute it: the failures of the as-written steps 1–2 and of the as-written search, and otherwise the maximum of −b − 1, deg f − b with Sage's degree, and the as-written d1 when alpha is not constant |
| LinearSystem.GenericCandidate | algorith_poly-cornelis.py:71-74 | the generic y has coefficient a_i at n^i for i <= d and nothing above n^d |
| LinearSystem.ApplyCongruent | algorith_poly-cornelis.py:78 | L y depends only on the polynomial y |
| LinearSystem.ApplyAdd | algorith_poly-cornelis.py:78 | L(y + z) = L y + L z |
| LinearSystem.ApplyScale | algorith_poly-cornelis.py:78 | L(c·y) = c·L y |
| LinearSystem.ApplyCandidate | algorith_poly-cornelis.py:78 | L of the generic y is the combination of the images L(n^m) weighted by a_m |
| LinearSystem.Apply | algorith_poly-cornelis.py:78 | L y = Σ p_j N(y, j) has no power of n beyond the widest p_j plus the length of y, so finitely many equations suffice |
| LinearSystem.Equation | algorith_poly-cornelis.py:79 | one coefficient per unknown a_0..a_d, and a trivial 0 = 0 row for every power beyond those L y − f can contain; its value is stated by EquationValue |
| LinearSystem.Equations | algorith_poly-cornelis.py:79 | one equation per power of n that L y − f can contain, each a form in d + 1 unknowns |
| LinearSystem.EquationValue | algorith_poly-cornelis.py:79 | equation k at a valuation a takes the coefficient of n^k in L y − f |
| LinearSystem.SatisfiesIffSolves | algorith_poly-cornelis.py:79 | a valuation makes every equation vanish exactly when the y it gives solves L y = f |
| Solver.EquationsAreExact | algorith_poly-cornelis.py:79 | the same, for every valuation of the d + 1 unknowns |
| LinearSystem.SourceHolds | algorith_poly-cornelis.py:79 | when the constant of a form truncates to 0, the equation as written holds exactly when the form is 0 |
| LinearSystem.SourceHoldsMeans | algorith_poly-cornelis.py:79 | equation k as written holds exactly when the coefficient of n^k in L y − f is twice the truncation of −f_k |
| LinearSystem.SourceAgreesWhenSmall | algorith_poly-cornelis.py:79 | when every coefficient of f lies strictly between −1 and 1 (f = 0 in particular), the equations as written are right |
| LinearSystem.SourceEquationsMisjudge | algorith_poly-cornelis.py:79 | for y(n) = 1 the equations as written accept a non-solution and reject the solution |
| Solver.Prepare | algorith_poly-cornelis.py:28-79 | the whole pipeline fails only on an empty or zero operator, answers "no polynomial solutions" exactly when d < 0, and otherwise hands on d and the equations of L y − f |
| Differences.ShiftExpansion | algorith_poly-cornelis.py:37 | N^i y = Σ_{j=0}^{i} C(i, j) Δ^j y, the identity behind the binomial sums of step 1 |
| Differences.ShiftExpansionTo | algorith_poly-cornelis.py:37 | the same sum taken over any longer range of j, whose extra terms are zero |
| Differences.DeltaAdd | algorith_poly-cornelis.py:37 | Δ(a + b) = Δa + Δb |
| Differences.DeltaScale | algorith_poly-cornelis.py:37 | Δ(c·a) = c·Δa |
| Differences.DeltaTop | algorith_poly-cornelis.py:44 | Δ lowers the top power n^e to n^(e−1) and multiplies its coefficient by e |
| Differences.DeltasTop | algorith_poly-cornelis.py:44 | Δ^j lowers n^e to n^(e−j), multiplying its coefficient by e (e − 1) ... (e − j + 1) |
| Abramov.PartialQView | algorith_poly-cornelis.py:37 | the partial sums behind q_j, taken over the first t of the p_i, are the sums of C(i, j) p_i over those i with i >= j |
| Abramov.OperatorInDifferences | algorith_poly-cornelis.py:37 | L y = Σ_i p_i N^i y equals Σ_j q_j Δ^j y for every polynomial y |
| Abramov.TermTop | algorith_poly-cornelis.py:41-44 | for y of degree k, q_j Δ^j y vanishes above n^(k+b) and has there lc(y) times the j-th term of alpha(k) |
| Abramov.PartialTop | algorith_poly-cornelis.py:44 | the first n such terms sum to lc(y) times the first n terms of alpha(k) at n^(k+b), with nothing above |
| Abramov.OperatorTop | algorith_poly-cornelis.py:41-44 | L y vanishes above n^(deg y + b) and has lc(y)·alpha(deg y) there |
| Abramov.NegativeTop | algorith_poly-cornelis.py:43-44 | when deg y + b < 0, alpha(deg y) = 0 |
| Abramov.RightSideReaches | algorith_poly-cornelis.py:49-61 | if alpha(deg y) != 0 and y solves L y = f, then f is nonzero and deg y <= deg f − b |
| Abramov.SolutionDegreeBounded | algorith_poly-cornelis.py:41-61 | every nonzero polynomial solution of L y = f has degree at most d |
| Abramov.NoSolutionBelowZero | algorith_poly-cornelis.py:63-65 | when d < 0, the only polynomial solution is 0 |
| Abramov.SystemCapturesSolutions | algorith_poly-cornelis.py:67-79 | every polynomial solution is the generic y for its own coefficients a_0..a_d, and these satisfy the equations |
| PowerBasisExample.SquareSolves | algorith_poly-cornelis.py:78 | y = n² solves (4 − n − 3n²) y(n) + (n + 6n²) y(n + 1) − 3n² y(n + 2) = n |
| PowerBasisExample.SourceAlphaOfQ | algorith_poly-cornelis.py:44 | for that operator, alpha as written is 4 + n − 3n² |
| PowerBasisExample.SourceAlphaRoots | algorith_poly-cornelis.py:46-59 | 4 + n − 3n² has the integer root −1 and none larger |
| PowerBasisExample.SourceIndicialFor | algorith_poly-cornelis.py:37-44 | for that operator no q_j is zero, so steps 1–2 as written succeed with b = 0 and line 44's alpha |
| PowerBasisExample.SourceBoundIsOneFor | algorith_poly-cornelis.py:46-61 | with f = n, b = 0 and alpha 4 + n − 3n², the as-written search finds d1 = −1 among the divisors of m and d = 1 |
| PowerBasisExample.SourceBoundIsOne | algorith_poly-cornelis.py:41-61 | with alpha as written, d = 1 for that operator and f = n |
| DifferenceExample.SourceStopsInLead | algorith_poly-cornelis.py:41-44 | for p = [−1, 1], q_0 = 0 attains line 43's b = 0, so steps 1–2 as written stop in `lc` |
| DifferenceExample.IndicialSucceeds | algorith_poly-cornelis.py:41-44 | for the same operator the corrected steps succeed with b = −1 |
| DifferenceExample.CountingSolves | algorith_poly-cornelis.py:78 | y = n solves y(n + 1) − y(n) = 1 |
| DifferenceExample.SourceStopsOnSolvable | algorith_poly-cornelis.py:41-44 | the as-written steps stop on an operator that the corrected steps handle and that has the nonzero polynomial solution n |
| PowerBasisExample.SourceBoundMissesSolution | algorith_poly-cornelis.py:44 | the as-written d = 1 excludes the solution n², which has degree 2 |
| PowerBasisExample.AlphaRoots | algorith_poly-cornelis.py:46-59 | the falling-factorial alpha of that operator, (2 + 3n)(2 − n), has the integer root 2 and none larger |
| PowerBasisExample.CorrectedBoundIsTwo | algorith_poly-cornelis.py:41-61 | with the falling-factorial alpha, d = 2 for that operator and f = n |
| DivisorSearch.TruncationMissesRoot | algorith_poly-cornelis.py:20 | for alpha = n/2 − 3/2 the search as written fails, while the largest integer root is 3 |
| DivisorSearch.ZeroConstantMissesRoot | algorith_poly-cornelis.py:54-55 | for alpha = n^2 − 3n the source takes d1 = 0, while the largest integer root is 3 |
| DivisorSearch.NoRootFails | algorith_poly-cornelis.py:59 | for alpha = 2n + 1 the source's maximum of an empty list fails, while alpha simply has no integer root |

## Left out

- Sage's `solve` (line 83) is a foreign solver. The model stops at the equations. Their solutions are stated as a predicate on valuations of a_0..a_d (`LinearSystem.Satisfies`) and shown to be exactly the polynomial solutions of degree at most d.
- The classification of what `solve` returns (lines 85–103) is left out. It depends on the shape of Sage's output rather than on its meaning, and so is the back-substitution of free variables with 1.
- Sage's symbolic machinery is replaced by explicit coefficient sequences: `var`, `substitute`, `full_simplify`, `coefficients(n)` and `factor`.
- The demonstration `print` call (line 106) is I/O.
- DegreeBound.IndicialOf: for the zero polynomial, Sage's `degree` returns 0, so line 43 gives a zero q_j the excess −j, and line 44 then fails in `lc` when such a q_j attains b (see Findings). The corrected steps leave zero q_j out of b and alpha. The as-written steps are `DegreeBound.SourceIndicialOf`.
- DegreeBound.MaxExcess: takes the maximum over the nonzero q_j only, for the reason above; `DegreeBound.SourceMaxExcess` is line 43 as written.
- SolutionBound.BaseBound: a zero f contributes no term deg f − b to the corrected d, where the source uses 0 − b. That term is exactly one above −b − 1, and leaving it out loses no solution (Abramov.SolutionDegreeBounded); `SolutionBound.SourceBound` keeps it.
- Polynomials.LeadCoeff: on the zero polynomial, the source fails by indexing an empty list. The model instead requires a nonzero argument.
- DivisorSearch.Divisors: states which integers the list holds, but not that they come in increasing order. Nothing downstream uses the order, because only the maximum of the roots is taken.
- The sums over j in lines 37, 44 and 78 are ordered finite sums over real coefficients. Sage's exact rational arithmetic is modelled by `real` values, which are exact. Denominators are read from the `Rat` inputs only where the source reads them (line 57).

## Findings

| source | as written | input that shows it | evidently intended | confidence | as-written member | corrected member |
|---|---|---|---|---|---|---|
| algorith_poly-cornelis.py:79 | each equation reads `k − cc(k) == cc(k)`, that is, the coefficient equals twice its truncated constant | p = [1], f = 1, d = 0: a_0 = −1 is accepted and a_0 = 1 is rejected | every coefficient of L y − f equals 0 | not executed | LinearSystem.SourceEquationsMisjudge | LinearSystem.SatisfiesIffSolves |
| algorith_poly-cornelis.py:20 | `int()` truncates a non-integer constant term before m is formed on line 57 | alpha = n/2 − 3/2: m = 4·(−1) = −4, no divisor of −4 is a root, and `max` fails, yet 3 is a root | m is formed from the exact constant term, so every integer root divides it | not executed | DivisorSearch.TruncationMissesRoot | DivisorSearch.IntegerRootBound |
| algorith_poly-cornelis.py:54-55 | a zero constant term sets d1 = 0 | alpha = n^2 − 3n: d1 = 0, yet 3 is a root | the largest integer root, found after dividing alpha by its lowest power of n | not executed | DivisorSearch.ZeroConstantMissesRoot | DivisorSearch.IntegerRootBound |
| algorith_poly-cornelis.py:59 | `max` over the roots among the divisors fails when there is none | alpha = 2n + 1 | no root term in d when alpha has no integer root | not executed | DivisorSearch.NoRootFails | DivisorSearch.IntegerRootBound |
| algorith_poly-cornelis.py:44 | alpha pairs lc(q_j) with the plain power n^j | p = [4 − n − 3n², n + 6n², −3n²], f = n: q = [4, n, −3n²] and b = 0, so alpha = 4 + n − 3n², its largest integer root is −1 and d = 1; yet y = n² solves L y = n | alpha pairs lc(q_j) with n (n − 1) ... (n − j + 1), here 4 + 4n − 3n² with root 2, so that every polynomial solution has degree at most d | not executed | PowerBasisExample.SourceBoundMissesSolution | Abramov.SolutionDegreeBounded |
| algorith_poly-cornelis.py:41-44 | line 41 gives a zero q_j degree 0, line 43 counts its excess −j, and line 44 takes `lc` of every q_j attaining b, including a zero one, whose list of terms is empty | p = [−1, 1], the first difference y(n + 1) − y(n): q = [0, 1], b = max(0, −1) = 0 is attained by the zero q_0 and `lc` fails, yet y = n solves L y = 1 | b and alpha range over the nonzero q_j only, here b = −1 and alpha = n | not executed | DifferenceExample.SourceStopsOnSolvable | DegreeBound.IndicialOf |
