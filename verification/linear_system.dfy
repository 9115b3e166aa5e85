/** Step 3 (lines 67–79): the operator L y = Σ_j p_j · N(y, j), the generic
    solution candidate y = a_0 + a_1 n + ... + a_d n^d, and one linear
    equation in a_0..a_d per power of n in L y − f. */
module LinearSystem {
  import opened Rationals
  import opened Polynomials
  import opened Sums
  import opened Shifts

  // ---------------------------------------------------------------------
  // The operator.

  /** The term p_j · N(y, j) of L y, and nothing beyond the order. */
  function OperatorTerm(p: seq<Poly>, y: Poly, j: nat): Poly {
    if j < |p| then Mul(p[j], Shift(y, j)) else []
  }

  function OperatorTerms(p: seq<Poly>, y: Poly): nat -> Poly {
    (j: nat) => OperatorTerm(p, y, j)
  }

  /** L y = Σ_{j=0}^{r} p_j(n) y(n + j) (line 78). */
  function Apply(p: seq<Poly>, y: Poly): (r: Poly)
    ensures VanishesAbove(r, Width(p) + |y| - 1)
  {
    var g := OperatorTerms(p, y);
    assert forall j: nat :: j < |p| ==> VanishesAbove(g(j), Width(p) + |y| - 1) by {
      forall j: nat | j < |p| ensures VanishesAbove(g(j), Width(p) + |y| - 1) {
        var t := OperatorTerm(p, y, j);
        StoredLengthBound(t);
        VanishesMonotone(t, |t| - 1, Width(p) + |y| - 1);
      }
    }
    SigmaVanishes(|p|, g, Width(p) + |y| - 1);
    Sigma(|p|, g)
  }

  /** y is a polynomial solution of L y = f. */
  ghost predicate Solves(p: seq<Poly>, f: Poly, y: Poly) {
    Same(Apply(p, y), f)
  }

  /** L depends only on the polynomial y, not on how it is stored. */
  lemma ApplyCongruent(p: seq<Poly>, y: Poly, z: Poly)
    requires Same(y, z)
    ensures Same(Apply(p, y), Apply(p, z))
  {
    forall j: nat | j < |p| ensures Same(OperatorTerm(p, y, j), OperatorTerm(p, z, j)) {
      ShiftCongruent(y, z, j);
      MulCongruentRight(p[j], Shift(y, j), Shift(z, j));
    }
    SigmaCongruent(|p|, OperatorTerms(p, y), OperatorTerms(p, z));
  }

  /** L is additive. */
  lemma ApplyAdd(p: seq<Poly>, y: Poly, z: Poly)
    ensures Same(Apply(p, Add(y, z)), Add(Apply(p, y), Apply(p, z)))
  {
    forall j: nat | j < |p|
      ensures Same(OperatorTerm(p, Add(y, z), j), Add(OperatorTerm(p, y, j), OperatorTerm(p, z, j)))
    {
      ShiftAdd(y, z, j);
      MulAddRight(p[j], Shift(y, j), Shift(z, j));
    }
    SigmaAdd(|p|, OperatorTerms(p, y), OperatorTerms(p, z), OperatorTerms(p, Add(y, z)));
  }

  /** L is homogeneous. */
  lemma ApplyScale(p: seq<Poly>, c: real, y: Poly)
    ensures Same(Apply(p, Scale(c, y)), Scale(c, Apply(p, y)))
  {
    forall j: nat | j < |p|
      ensures OperatorTerm(p, Scale(c, y), j) == Scale(c, OperatorTerm(p, y, j))
    {
      ShiftScale(c, y, j);
      MulScaleRightExact(p[j], c, Shift(y, j));
    }
    SigmaScale(|p|, c, OperatorTerms(p, y), OperatorTerms(p, Scale(c, y)));
  }

  /** The largest number of stored coefficients among the p_j. */
  function Width(p: seq<Poly>): (w: nat)
    ensures forall j :: 0 <= j < |p| ==> |p[j]| <= w
  {
    if |p| == 0 then 0
    else
      var w := Width(p[1..]);
      assert forall j :: 1 <= j < |p| ==> p[j] == p[1..][j - 1];
      if |p[0]| < w then w else |p[0]|
  }

  // ---------------------------------------------------------------------
  // The generic candidate.

  /** a_0 + a_1 n + ... + a_{t-1} n^{t-1} (lines 71–74, where the a_i are
      fresh symbols; here a valuation of them). */
  function Candidate(a: seq<real>, t: nat): Poly
    requires t <= |a|
  {
    if t == 0 then [] else Add(Candidate(a, t - 1), Scale(a[t - 1], Monomial(t - 1)))
  }

  lemma {:induction false} CandidateCoeff(a: seq<real>, t: nat, k: nat)
    requires t <= |a|
    ensures Coeff(Candidate(a, t), k) == if k < t then a[k] else 0.0
  {
    if t != 0 {
      CandidateCoeff(a, t - 1, k);
      AddCoeff(Candidate(a, t - 1), Scale(a[t - 1], Monomial(t - 1)), k);
      ScaleCoeff(a[t - 1], Monomial(t - 1), k);
      MonomialCoeff(t - 1, k);
    }
  }

  /** The generic y of degree d for a valuation of its d + 1 unknowns: a_i
      is its coefficient of n^i, and it has nothing above n^d. */
  lemma GenericCandidate(a: seq<real>, d: nat)
    requires |a| == d + 1
    ensures VanishesAbove(Candidate(a, |a|), d)
    ensures forall i: nat :: i <= d ==> Coeff(Candidate(a, |a|), i) == a[i]
    ensures Same(Candidate(a, |a|), a)
  {
    forall k: nat ensures Coeff(Candidate(a, |a|), k) == (if k < |a| then a[k] else 0.0) == Coeff(a, k) {
      CandidateCoeff(a, |a|, k);
      CoeffIndex(a, k);
    }
  }

  // ---------------------------------------------------------------------
  // Linear forms in the unknowns.

  /** c_0 a_0 + ... + c_d a_d + c. */
  datatype LinearForm = LinearForm(coeffs: seq<real>, constant: real)

  /** c_0 a_0 + ... + c_{t-1} a_{t-1}. */
  function DotUpTo(c: seq<real>, a: seq<real>, t: nat): real
    requires t <= |c| && t <= |a|
  {
    if t == 0 then 0.0 else DotUpTo(c, a, t - 1) + a[t - 1] * c[t - 1]
  }

  /** The value of the form at a valuation of the unknowns. */
  function FormValue(e: LinearForm, a: seq<real>): real
    requires |a| == |e.coeffs|
  {
    DotUpTo(e.coeffs, a, |a|) + e.constant
  }

  function Zeros(n: nat): (z: seq<real>)
    ensures |z| == n && forall i :: 0 <= i < n ==> z[i] == 0.0
  {
    seq(n, _ => 0.0)
  }

  lemma {:induction false} DotOfZeros(c: seq<real>, t: nat)
    requires t <= |c|
    ensures DotUpTo(c, Zeros(|c|), t) == 0.0
  {
    if t != 0 {
      DotOfZeros(c, t - 1);
    }
  }

  /** constant_coefficient of a linear form (lines 14–20), without the
      truncation: its value with every unknown set to 0. */
  function ConstantCoefficient(e: LinearForm): (c: real)
    ensures c == FormValue(e, Zeros(|e.coeffs|))
  {
    DotOfZeros(e.coeffs, |e.coeffs|);
    e.constant
  }

  // ---------------------------------------------------------------------
  // The equations.

  /** The coefficient of n^k in L y − f as a linear form in a_0..a_d: a_m
      contributes the coefficient of n^k in L(n^m). */
  function Equation(p: seq<Poly>, f: Poly, d: nat, k: nat): (e: LinearForm)
    ensures |e.coeffs| == d + 1
    ensures k >= Rows(p, f, d) ==> e.constant == 0.0 && forall m :: 0 <= m <= d ==> e.coeffs[m] == 0.0
  {
    assert k >= Rows(p, f, d) ==> Coeff(f, k) == 0.0 by {
      StoredLengthBound(f);
    }
    LinearForm(seq(d + 1, m requires 0 <= m < d + 1 => Coeff(Apply(p, Monomial(m)), k)), -Coeff(f, k))
  }

  /** How many powers of n the difference L y − f can contain. */
  function Rows(p: seq<Poly>, f: Poly, d: nat): nat {
    Width(p) + d + 1 + |f|
  }

  /** The equations of line 79, one per power of n. */
  function Equations(p: seq<Poly>, f: Poly, d: nat): (eqs: seq<LinearForm>)
    ensures |eqs| == Rows(p, f, d)
    ensures forall k :: 0 <= k < |eqs| ==> |eqs[k].coeffs| == d + 1
  {
    seq(Rows(p, f, d), k requires 0 <= k => Equation(p, f, d, k))
  }

  /** Every equation holds at the valuation a, in the intended reading
      `form == 0`. */
  predicate Satisfies(eqs: seq<LinearForm>, a: seq<real>)
    requires forall k :: 0 <= k < |eqs| ==> |eqs[k].coeffs| == |a|
  {
    forall k :: 0 <= k < |eqs| ==> FormValue(eqs[k], a) == 0.0
  }

  /** L of the zero polynomial is zero. */
  lemma ApplyOfZero(p: seq<Poly>)
    ensures Same(Apply(p, []), [])
  {
    forall j: nat | j < |p| ensures Same(OperatorTerms(p, [])(j), []) {
      ShiftOfZero([], j);
      MulByZero(p[j], Shift([], j));
    }
    SigmaZero(|p|, OperatorTerms(p, []));
  }

  /** The images L(1), L(n), ..., L(n^(count−1)) of the monomials. */
  function MonomialImages(p: seq<Poly>, count: nat): (ims: seq<Poly>)
    ensures |ims| == count
  {
    seq(count, m requires 0 <= m < count => Apply(p, Monomial(m)))
  }

  /** a[0]·ims[0] + ... + a[t−1]·ims[t−1]. */
  function Combination(ims: seq<Poly>, a: seq<real>, t: nat): Poly
    requires t <= |a| && t <= |ims|
  {
    if t == 0 then [] else Add(Combination(ims, a, t - 1), Scale(a[t - 1], ims[t - 1]))
  }

  /** Adding x·m to y adds x·L(m) to L y. */
  lemma ApplyAddTerm(p: seq<Poly>, y: Poly, x: real, m: Poly, image: Poly)
    requires Same(Apply(p, y), image)
    ensures Same(Apply(p, Add(y, Scale(x, m))), Add(image, Scale(x, Apply(p, m))))
  {
    ApplyAdd(p, y, Scale(x, m));
    ApplyScale(p, x, m);
    AddCongruent(Apply(p, y), image, Apply(p, Scale(x, m)), Scale(x, Apply(p, m)));
    SameTransitive(Apply(p, Add(y, Scale(x, m))), Add(Apply(p, y), Apply(p, Scale(x, m))),
                   Add(image, Scale(x, Apply(p, m))));
  }

  /** L is linear: L applied to the candidate is the combination of the
      images of the monomials. */
  lemma {:induction false} ApplyCandidate(p: seq<Poly>, a: seq<real>, t: nat)
    requires t <= |a|
    ensures Same(Apply(p, Candidate(a, t)), Combination(MonomialImages(p, |a|), a, t))
  {
    var ims := MonomialImages(p, |a|);
    if t == 0 {
      ApplyOfZero(p);
    } else {
      ApplyCandidate(p, a, t - 1);
      assert ims[t - 1] == Apply(p, Monomial(t - 1));
      ApplyAddTerm(p, Candidate(a, t - 1), a[t - 1], Monomial(t - 1), Combination(ims, a, t - 1));
    }
  }

  /** The coefficient of n^k in a combination is the dot product of the
      weights with the images' coefficients of n^k. */
  lemma {:induction false} CombinationCoeff(ims: seq<Poly>, a: seq<real>, c: seq<real>, k: nat, t: nat)
    requires |c| == |a| == |ims| && t <= |a|
    requires forall m :: 0 <= m < |c| ==> c[m] == Coeff(ims[m], k)
    ensures Coeff(Combination(ims, a, t), k) == DotUpTo(c, a, t)
  {
    if t != 0 {
      CombinationCoeff(ims, a, c, k, t - 1);
      AddCoeff(Combination(ims, a, t - 1), Scale(a[t - 1], ims[t - 1]), k);
      ScaleCoeff(a[t - 1], ims[t - 1], k);
    }
  }

  /** The form with coefficients "coefficient of n^k in L(n^m)" takes at a
      the coefficient of n^k in L of the candidate. */
  lemma DotIsApplied(p: seq<Poly>, a: seq<real>, c: seq<real>, k: nat)
    requires |c| == |a|
    requires forall m :: 0 <= m < |c| ==> c[m] == Coeff(Apply(p, Monomial(m)), k)
    ensures DotUpTo(c, a, |a|) == Coeff(Apply(p, Candidate(a, |a|)), k)
  {
    var ims := MonomialImages(p, |a|);
    ApplyCandidate(p, a, |a|);
    CombinationCoeff(ims, a, c, k, |a|);
  }

  /** The value of equation k at a is the coefficient of n^k in L y − f for
      the candidate y with coefficients a. */
  lemma EquationValue(p: seq<Poly>, f: Poly, d: nat, k: nat, a: seq<real>)
    requires |a| == d + 1
    ensures FormValue(Equation(p, f, d, k), a) == Coeff(Sub(Apply(p, a), f), k)
  {
    var e := Equation(p, f, d, k);
    DotIsApplied(p, a, e.coeffs, k);
    GenericCandidate(a, d);
    ApplyCongruent(p, Candidate(a, |a|), a);
    SubCoeff(Apply(p, a), f, k);
  }

  /** The equations hold at a exactly when the candidate with coefficients
      a solves L y = f. */
  lemma SatisfiesIffSolves(p: seq<Poly>, f: Poly, d: nat, a: seq<real>)
    requires |a| == d + 1
    ensures Satisfies(Equations(p, f, d), a) <==> Solves(p, f, a)
  {
    var eqs := Equations(p, f, d);
    if Satisfies(eqs, a) {
      forall k: nat ensures Coeff(Sub(Apply(p, a), f), k) == 0.0 {
        SubCoeff(Apply(p, a), f, k);
        if k < |eqs| {
          assert eqs[k] == Equation(p, f, d, k);
          assert FormValue(eqs[k], a) == 0.0;
          EquationValue(p, f, d, k, a);
        } else {
          StoredLengthBound(f);
          assert Coeff(Apply(p, a), k) == 0.0;
          assert Coeff(f, k) == 0.0;
        }
      }
      SameFromZeroDifference(Apply(p, a), f);
    }
    if Solves(p, f, a) {
      forall k | 0 <= k < |eqs| ensures FormValue(eqs[k], a) == 0.0 {
        EquationValue(p, f, d, k, a);
        SubCoeff(Apply(p, a), f, k);
      }
    }
  }

  // ---------------------------------------------------------------------
  // Line 79 as written.

  /** The equation of line 79 as written, `e − cc(e) == cc(e)`, where cc
      (lines 14–20) sets every unknown to 0 and truncates the result with
      int(): it asks for the form to equal twice its truncated constant. */
  predicate SourceHolds(e: LinearForm, a: seq<real>)
    requires |a| == |e.coeffs|
    ensures Truncate(ConstantCoefficient(e)) == 0 ==> (SourceHolds(e, a) <==> FormValue(e, a) == 0.0)
  {
    var cc := Truncate(ConstantCoefficient(e)) as real;
    FormValue(e, a) - cc == cc
  }

  predicate SourceSatisfies(eqs: seq<LinearForm>, a: seq<real>)
    requires forall k :: 0 <= k < |eqs| ==> |eqs[k].coeffs| == |a|
  {
    forall k :: 0 <= k < |eqs| ==> SourceHolds(eqs[k], a)
  }

  lemma EquationConstant(p: seq<Poly>, f: Poly, d: nat, k: nat)
    ensures Equation(p, f, d, k).constant == -Coeff(f, k)
  {
  }

  lemma SourceHoldsForm(e: LinearForm, a: seq<real>, v: real, fk: real)
    requires |a| == |e.coeffs| && FormValue(e, a) == v && e.constant == -fk
    ensures SourceHolds(e, a) <==> v == 2.0 * Truncate(-fk) as real
  {
  }

  /** Equation k as written demands that the coefficient of n^k in L y − f
      be twice the truncation of −f_k, where zero is meant. */
  lemma SourceHoldsMeans(p: seq<Poly>, f: Poly, d: nat, k: nat, a: seq<real>)
    requires |a| == d + 1
    ensures SourceHolds(Equation(p, f, d, k), a) <==>
            Coeff(Sub(Apply(p, a), f), k) == 2.0 * Truncate(-Coeff(f, k)) as real
  {
    EquationConstant(p, f, d, k);
    EquationValue(p, f, d, k, a);
    SourceHoldsForm(Equation(p, f, d, k), a, Coeff(Sub(Apply(p, a), f), k), Coeff(f, k));
  }

  /** A value strictly between −1 and 1 truncates to 0. */
  lemma TruncateSmall(x: real)
    requires -1.0 < x < 1.0
    ensures Truncate(x) == 0
  {
  }

  /** The equations as written are right when every coefficient of f is
      smaller than 1 in size, in particular for a homogeneous recurrence. */
  lemma SourceAgreesWhenSmall(p: seq<Poly>, f: Poly, d: nat, a: seq<real>)
    requires |a| == d + 1
    requires forall k: nat :: -1.0 < Coeff(f, k) < 1.0
    ensures SourceSatisfies(Equations(p, f, d), a) <==> Solves(p, f, a)
  {
    var eqs := Equations(p, f, d);
    forall k | 0 <= k < |eqs| ensures SourceHolds(eqs[k], a) <==> FormValue(eqs[k], a) == 0.0 {
      assert eqs[k] == Equation(p, f, d, k);
      TruncateSmall(-Coeff(f, k));
    }
    SatisfiesIffSolves(p, f, d, a);
  }

  /** The operator L y = 1 · y(n). */
  lemma IdentityOperator(y: Poly)
    ensures Same(Apply([[1.0]], y), y)
  {
    var p := [[1.0]];
    ShiftByZero(y);
    assert Apply(p, y) == Add([], Mul([1.0], y));
    assert Mul([1.0], y) == Add(Scale(1.0, y), MulX([]));
    forall k: nat ensures Coeff(Apply(p, y), k) == Coeff(y, k) {
      AddCoeff([], Mul([1.0], y), k);
      AddCoeff(Scale(1.0, y), MulX([]), k);
      ScaleCoeff(1.0, y, k);
      MulXCoeff([], k);
    }
  }

  /** For y(n) = 1 with d = 0 the equations as written accept a_0 = −1,
      which is no solution, and reject a_0 = 1, which is one. */
  lemma SourceEquationsMisjudge()
    ensures SourceSatisfies(Equations([[1.0]], [1.0], 0), [-1.0])
    ensures !Solves([[1.0]], [1.0], [-1.0])
    ensures Solves([[1.0]], [1.0], [1.0])
    ensures !SourceSatisfies(Equations([[1.0]], [1.0], 0), [1.0])
  {
    var p, f := [[1.0]], [1.0];
    var eqs := Equations(p, f, 0);
    IdentityOperator([-1.0]);
    IdentityOperator([1.0]);
    forall k | 0 <= k < |eqs| ensures SourceHolds(eqs[k], [-1.0]) {
      assert eqs[k] == Equation(p, f, 0, k);
      SourceHoldsMeans(p, f, 0, k, [-1.0]);
      SubCoeff(Apply(p, [-1.0]), f, k);
    }
    assert Coeff(Apply(p, [-1.0]), 0) != Coeff(f, 0);
    assert eqs[0] == Equation(p, f, 0, 0);
    SourceHoldsMeans(p, f, 0, 0, [1.0]);
    SubCoeff(Apply(p, [1.0]), f, 0);
  }
}
