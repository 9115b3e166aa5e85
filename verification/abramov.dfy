/** Why the bound d of lines 41–61 is a degree bound: every polynomial
    solution y of L y = f has degree at most d. The operator
    L = Σ_i p_i N^i is first rewritten as L = Σ_j q_j Δ^j (the reason step 1
    computes the q_j); the coefficient of n^(deg y + b) in L y is then
    lc(y) · alpha(deg y), with alpha the indicial polynomial
    Σ lc(q_j) n (n − 1) ... (n − j + 1) over the j attaining b. */
module Abramov {
  import opened Wrappers
  import opened Polynomials
  import opened RatPolys
  import opened Sums
  import opened Shifts
  import opened DegreeBound
  import opened Differences
  import opened DivisorSearch
  import opened LinearSystem
  import opened Solver

  // ---------------------------------------------------------------------
  // L = Σ_i p_i N^i = Σ_j q_j Δ^j.

  /** C(i, j) p_i, the terms of q_j = Σ_i C(i, j) p_i. */
  function QTerm(p: seq<RatPoly>, j: nat, i: nat): Poly {
    if i < |p| then Scale(Binomial(i, j) as real, View(p[i])) else []
  }

  function QTerms(p: seq<RatPoly>, j: nat): nat -> Poly {
    (i: nat) => QTerm(p, j, i)
  }

  /** Below j the partial sum is empty and every C(i, j) is zero. */
  lemma PartialQBelow(p: seq<RatPoly>, j: nat, t: nat)
    requires t <= |p| && t <= j
    ensures Same(View(PartialQ(p, j, t)), Sigma(t, QTerms(p, j)))
  {
    forall i: nat | i < t ensures Same(QTerms(p, j)(i), []) {
      BinomialEdges(i, j);
      ScaleByZero(View(p[i]));
    }
    SigmaZero(t, QTerms(p, j));
    SameSymmetric(Sigma(t, QTerms(p, j)), []);
  }

  lemma AddLast(a: Poly, s: Poly, last: Poly, a': Poly, s': Poly)
    requires Same(a, s) && a' == Add(a, last) && s' == Add(s, last)
    ensures Same(a', s')
  {
    AddCongruent(a, s, last, last);
  }

  lemma PartialQUnfold(p: seq<RatPoly>, j: nat, t: nat)
    requires j < t <= |p|
    ensures View(PartialQ(p, j, t)) == Add(View(PartialQ(p, j, t - 1)), QTerms(p, j)(t - 1))
  {
  }

  lemma {:induction false} PartialQStep(p: seq<RatPoly>, j: nat, t: nat)
    requires j < t <= |p|
    ensures Same(View(PartialQ(p, j, t)), Sigma(t, QTerms(p, j)))
    decreases t, 0
  {
    PartialQView(p, j, t - 1);
    PartialQUnfold(p, j, t);
    AddLast(View(PartialQ(p, j, t - 1)), Sigma(t - 1, QTerms(p, j)), QTerms(p, j)(t - 1),
            View(PartialQ(p, j, t)), Sigma(t, QTerms(p, j)));
  }

  /** The partial sums of step 1 are the sums of the C(i, j) p_i. */
  lemma {:induction false} PartialQView(p: seq<RatPoly>, j: nat, t: nat)
    requires t <= |p|
    ensures Same(View(PartialQ(p, j, t)), Sigma(t, QTerms(p, j)))
    decreases t, 1
  {
    if t <= j {
      PartialQBelow(p, j, t);
    } else {
      PartialQStep(p, j, t);
    }
  }

  /** The double sum Σ_i Σ_j p_i C(i, j) Δ^j y. */
  function Entry(p: seq<RatPoly>, y: Poly, i: nat, j: nat): Poly {
    if i < |p| then Mul(View(p[i]), Scale(Binomial(i, j) as real, Deltas(y, j))) else []
  }

  function Table(p: seq<RatPoly>, y: Poly): (nat, nat) -> Poly {
    (i: nat, j: nat) => Entry(p, y, i, j)
  }

  /** The terms q_j Δ^j y of L y. */
  function DeltaTerms(p: seq<RatPoly>, y: Poly): nat -> Poly {
    (j: nat) => if j < |p| then Mul(View(Q(p)[j]), Deltas(y, j)) else []
  }

  lemma RowEntry(p: seq<RatPoly>, y: Poly, i: nat, j: nat)
    requires i < |p|
    ensures Row(Table(p, y), i)(j) == Mul(View(p[i]), BinomialTerms(y, i)(j))
  {
  }

  /** Row i of the table sums to p_i N(y, i). */
  lemma RowOfTable(p: seq<RatPoly>, y: Poly, i: nat)
    requires i < |p|
    ensures Same(OperatorTerms(Operator(p), y)(i), Sigma(|p|, Row(Table(p, y), i)))
  {
    var n, a := |p|, View(p[i]);
    var row := Row(Table(p, y), i);
    ShiftExpansionTo(y, i, n);
    MulCongruentRight(a, Shift(y, i), Sigma(n, BinomialTerms(y, i)));
    forall j: nat | j < n ensures Same(row(j), Mul(a, BinomialTerms(y, i)(j))) {
      RowEntry(p, y, i, j);
    }
    MulSigmaRight(a, n, BinomialTerms(y, i), row);
    SameSymmetric(Sigma(n, row), Mul(a, Sigma(n, BinomialTerms(y, i))));
    SameTransitive(Mul(a, Shift(y, i)), Mul(a, Sigma(n, BinomialTerms(y, i))), Sigma(n, row));
  }

  lemma EntryFactors(p: seq<RatPoly>, y: Poly, i: nat, j: nat)
    requires i < |p|
    ensures Same(Col(Table(p, y), j)(i), Mul(QTerms(p, j)(i), Deltas(y, j)))
  {
    var a, c, D := View(p[i]), Binomial(i, j) as real, Deltas(y, j);
    MulScaleRight(a, c, D);
    MulScaleLeft(c, a, D);
    SameSymmetric(Mul(Scale(c, a), D), Scale(c, Mul(a, D)));
    SameTransitive(Mul(a, Scale(c, D)), Scale(c, Mul(a, D)), Mul(Scale(c, a), D));
  }

  /** Column j of the table sums to q_j Δ^j y. */
  lemma ColOfTable(p: seq<RatPoly>, y: Poly, j: nat)
    requires j < |p|
    ensures Same(DeltaTerms(p, y)(j), Sigma(|p|, Col(Table(p, y), j)))
  {
    var n, D := |p|, Deltas(y, j);
    var col := Col(Table(p, y), j);
    forall i: nat | i < n ensures Same(col(i), Mul(QTerms(p, j)(i), D)) {
      EntryFactors(p, y, i, j);
    }
    MulSigmaLeft(D, n, QTerms(p, j), col);
    PartialQView(p, j, n);
    assert Q(p)[j] == PartialQ(p, j, n);
    MulCongruentLeft(View(Q(p)[j]), Sigma(n, QTerms(p, j)), D);
    SameSymmetric(Sigma(n, col), Mul(Sigma(n, QTerms(p, j)), D));
    SameTransitive(Mul(View(Q(p)[j]), D), Mul(Sigma(n, QTerms(p, j)), D), Sigma(n, col));
  }

  /** L y = Σ_j q_j Δ^j y. */
  lemma OperatorInDifferences(p: seq<RatPoly>, y: Poly)
    ensures Same(Apply(Operator(p), y), Sigma(|p|, DeltaTerms(p, y)))
  {
    forall i: nat | i < |p| ensures Same(OperatorTerms(Operator(p), y)(i), Sigma(|p|, Row(Table(p, y), i))) {
      RowOfTable(p, y, i);
    }
    forall j: nat | j < |p| ensures Same(DeltaTerms(p, y)(j), Sigma(|p|, Col(Table(p, y), j))) {
      ColOfTable(p, y, j);
    }
    SigmaSwap(|p|, |p|, Table(p, y), OperatorTerms(Operator(p), y), DeltaTerms(p, y));
  }

  // ---------------------------------------------------------------------
  // The top of L y.

  lemma MulTopProduct(a: Poly, b: Poly, A: nat, B: nat, E: nat)
    requires VanishesAbove(a, A) && VanishesAbove(b, B) && E == A + B
    ensures VanishesAbove(Mul(a, b), E)
    ensures Coeff(Mul(a, b), E) == Product(Coeff(a, A), Coeff(b, B))
  {
    MulTop(a, b, A, B);
  }

  lemma DeltasTopProduct(y: Poly, k: nat, j: nat)
    requires VanishesAbove(y, k) && j <= k
    ensures VanishesAbove(Deltas(y, j), k - j)
    ensures Coeff(Deltas(y, j), k - j) == Product(Falling(k as real, j), Coeff(y, k))
  {
    DeltasTop(y, k, j, k - j);
  }

  lemma TopStep(l: real, D: real, F: real, c: real, T: real)
    requires T == Product(l, D) && D == Product(F, c)
    ensures T == Product(c, Product(l, F))
  {
  }

  lemma ProductNonzero(c: real, x: real)
    requires c != 0.0 && x != 0.0
    ensures Product(c, x) != 0.0
  {
  }

  /** A term whose coefficient polynomial q_j attains b and whose order j
      is at most deg y reaches n^(deg y + b) with lc(q_j) times the falling
      factorial times lc(y). */
  lemma AttainingTermTop(p: seq<RatPoly>, y: Poly, b: int, j: nat, k: nat, e: nat)
    requires j < |p| && !IsZero(y) && k == Degree(y) && e == k + b && j <= k
    requires Attains(Q(p), b, j)
    ensures VanishesAbove(DeltaTerms(p, y)(j), e)
    ensures Coeff(DeltaTerms(p, y)(j), e) ==
            Product(LeadCoeff(y), FallingSumTerm(Q(p), b, j, k as real))
  {
    var a := View(Q(p)[j]);
    DegreeCharacterization(y);
    DegreeCharacterization(a);
    DeltasTopProduct(y, k, j);
    MulTopProduct(a, Deltas(y, j), Degree(a), k - j, e);
    TopStep(LeadCoeff(a), Coeff(Deltas(y, j), k - j), Falling(k as real, j), LeadCoeff(y),
            Coeff(Mul(a, Deltas(y, j)), e));
    assert DeltaTerms(p, y)(j) == Mul(a, Deltas(y, j));
    assert FallingSumTerm(Q(p), b, j, k as real) == Product(LeadCoeff(a), Falling(k as real, j));
    assert Coeff(DeltaTerms(p, y)(j), e) == Coeff(Mul(a, Deltas(y, j)), e);
    assert Coeff(Mul(a, Deltas(y, j)), e) == Product(LeadCoeff(y), Product(LeadCoeff(a), Falling(k as real, j)));
  }

  /** A term whose order j exceeds deg y is zero: Δ^j y = 0, and the
      falling factorial of deg y of order j is 0 as well. */
  lemma HighTermTop(p: seq<RatPoly>, y: Poly, b: int, j: nat, k: nat, e: nat)
    requires j < |p| && !IsZero(y) && k == Degree(y) && e == k + b && k < j
    ensures VanishesAbove(DeltaTerms(p, y)(j), e)
    ensures Coeff(DeltaTerms(p, y)(j), e) ==
            Product(LeadCoeff(y), FallingSumTerm(Q(p), b, j, k as real))
  {
    var a := View(Q(p)[j]);
    DegreeCharacterization(y);
    DeltasTop(y, k, j, k - j);
    VanishesBelowZero(Deltas(y, j), k - j);
    MulByZero(a, Deltas(y, j));
    FallingBeyond(k, j);
    if Attains(Q(p), b, j) {
      ProductZero(LeadCoeff(a), Falling(k as real, j));
    }
    ProductZero(LeadCoeff(y), FallingSumTerm(Q(p), b, j, k as real));
  }

  /** A term whose q_j is zero or falls short of b stays below n^(deg y + b). */
  lemma ShortTermTop(p: seq<RatPoly>, y: Poly, b: int, j: nat, k: nat, e: nat)
    requires j < |p| && !IsZero(y) && k == Degree(y) && e == k + b && !Attains(Q(p), b, j)
    requires Nonzero(Q(p)[j]) ==> Excess(Q(p), j) <= b
    ensures VanishesAbove(DeltaTerms(p, y)(j), e)
    ensures Coeff(DeltaTerms(p, y)(j), e) ==
            Product(LeadCoeff(y), FallingSumTerm(Q(p), b, j, k as real))
  {
    var a := View(Q(p)[j]);
    DegreeCharacterization(y);
    DeltasTop(y, k, j, k - j);
    if Nonzero(Q(p)[j]) {
      DegreeCharacterization(a);
      MulVanishes(a, Deltas(y, j), Degree(a), k - j);
      VanishesMonotone(Mul(a, Deltas(y, j)), Degree(a) + (k - j), e - 1);
    } else {
      ZeroIsSameAsEmpty(a);
      MulByZero(a, Deltas(y, j));
    }
    ProductZero(LeadCoeff(y), FallingSumTerm(Q(p), b, j, k as real));
  }

  /** Each term q_j Δ^j y vanishes above n^(deg y + b), and its coefficient
      there is lc(y) times the j-th term of alpha(deg y). */
  lemma TermTop(p: seq<RatPoly>, y: Poly, b: int, j: nat, k: nat, e: nat)
    requires j < |p| && !IsZero(y) && k == Degree(y) && e == k + b
    requires MaxExcess(Q(p), |p|) == Some(b)
    ensures VanishesAbove(DeltaTerms(p, y)(j), e)
    ensures Coeff(DeltaTerms(p, y)(j), e) ==
            Product(LeadCoeff(y), FallingSumTerm(Q(p), b, j, k as real))
  {
    if k < j {
      HighTermTop(p, y, b, j, k, e);
    } else if Attains(Q(p), b, j) {
      AttainingTermTop(p, y, b, j, k, e);
    } else {
      ShortTermTop(p, y, b, j, k, e);
    }
  }

  /** s vanishes above n^e and has coefficient v at n^e. */
  ghost predicate TopIs(s: Poly, e: nat, v: real)
  {
    VanishesAbove(s, e) && Coeff(s, e) == v
  }

  /** Adding a term whose top coefficient at n^e is c·T to a partial sum
      whose top coefficient there is c·F gives c·S, where S = F + T. */
  lemma SigmaTop(n: nat, g: nat -> Poly, e: nat, c: real, F: real, T: real, S: real)
    requires 0 < n && S == F + T
    requires TopIs(Sigma(n - 1, g), e, Product(c, F)) && TopIs(g(n - 1), e, Product(c, T))
    ensures TopIs(Sigma(n, g), e, Product(c, S))
  {
    AddCoeff(Sigma(n - 1, g), g(n - 1), e);
    forall k: nat | e < k ensures Coeff(Sigma(n, g), k) == 0.0 {
      AddCoeff(Sigma(n - 1, g), g(n - 1), k);
    }
  }

  /** If every term g(j) has c times the j-th term of alpha(x) at n^e and
      nothing above, so does their sum with the first n terms of alpha(x). */
  lemma {:induction false} PartialTop(n: nat, g: nat -> Poly, e: nat, c: real, q: seq<RatPoly>, b: int, x: real)
    requires n <= |q|
    requires forall j: nat :: j < n ==> TopIs(g(j), e, Product(c, FallingSumTerm(q, b, j, x)))
    ensures TopIs(Sigma(n, g), e, Product(c, FallingSum(q, b, n, x)))
  {
    if n == 0 {
      ProductZero(c, 0.0);
    } else {
      PartialTop(n - 1, g, e, c, q, b, x);
      SigmaTop(n, g, e, c, FallingSum(q, b, n - 1, x), FallingSumTerm(q, b, n - 1, x), FallingSum(q, b, n, x));
    }
  }

  /** The whole of Σ_j q_j Δ^j y vanishes above n^(deg y + b), with
      lc(y) alpha(deg y) there. */
  lemma OperatorTop(p: seq<RatPoly>, y: Poly, b: int, k: nat, e: nat)
    requires !IsZero(y) && k == Degree(y) && e == k + b
    requires MaxExcess(Q(p), |p|) == Some(b)
    ensures TopIs(Sigma(|p|, DeltaTerms(p, y)), e, Product(LeadCoeff(y), FallingSum(Q(p), b, |p|, k as real)))
  {
    forall j: nat | j < |p|
      ensures TopIs(DeltaTerms(p, y)(j), e, Product(LeadCoeff(y), FallingSumTerm(Q(p), b, j, k as real)))
    {
      TermTop(p, y, b, j, k, e);
    }
    PartialTop(|p|, DeltaTerms(p, y), e, LeadCoeff(y), Q(p), b, k as real);
  }

  /** When deg y + b < 0, alpha(deg y) = 0: every attaining j has
      j = deg q_j − b > deg y, so its falling factorial is 0. */
  lemma {:induction false} NegativeTop(q: seq<RatPoly>, b: int, t: nat, k: nat)
    requires t <= |q| && k + b < 0
    ensures FallingSum(q, b, t, k as real) == 0.0
  {
    if t != 0 {
      NegativeTop(q, b, t - 1, k);
      if Attains(q, b, t - 1) {
        FallingBeyond(k, t - 1);
        ProductZero(LeadCoeff(View(q[t - 1])), Falling(k as real, t - 1));
      }
    }
  }

  /** When alpha(deg y) ≠ 0, L y has degree exactly deg y + b; so a
      solution of L y = f forces deg f ≥ deg y + b. */
  lemma RightSideReaches(p: seq<RatPoly>, f: RatPoly, y: Poly, b: int, k: nat, e: nat)
    requires Solves(Operator(p), View(f), y) && !IsZero(y) && k == Degree(y) && e == k + b
    requires MaxExcess(Q(p), |p|) == Some(b)
    requires FallingSum(Q(p), b, |p|, k as real) != 0.0
    ensures !IsZero(View(f)) && e <= Degree(View(f))
  {
    OperatorTop(p, y, b, k, e);
    OperatorInDifferences(p, y);
    DegreeCharacterization(y);
    ProductNonzero(LeadCoeff(y), FallingSum(Q(p), b, |p|, k as real));
    assert Coeff(View(f), e) == Coeff(Sigma(|p|, DeltaTerms(p, y)), e);
    NonzeroWitness(View(f), e);
  }

  /** Abramov's bound: every nonzero polynomial solution of L y = f has
      degree at most the d of lines 41–61. */
  lemma SolutionDegreeBounded(p: seq<RatPoly>, f: RatPoly, y: Poly)
    requires DegreeBoundOf(p, f).Ok?
    requires Solves(Operator(p), View(f), y) && !IsZero(y)
    ensures Degree(y) <= DegreeBoundOf(p, f).value
  {
    var ind := IndicialOf(p).value;
    var k := Degree(y);
    AlphaEval(ind.q, ind.b, |p|, k as real);
    if FallingSum(ind.q, ind.b, |p|, k as real) == 0.0 {
      assert IsIntegerRoot(View(ind.alpha), k);
    } else if k + ind.b < 0 {
      NegativeTop(ind.q, ind.b, |p|, k);
    } else {
      RightSideReaches(p, f, y, ind.b, k, k + ind.b);
    }
  }

  /** When d < 0 the only polynomial solution is 0 (lines 63–65). */
  lemma NoSolutionBelowZero(p: seq<RatPoly>, f: RatPoly, y: Poly)
    requires Prepare(p, f) == Ok(NoPolynomialSolutions)
    requires Solves(Operator(p), View(f), y)
    ensures IsZero(y)
  {
    if !IsZero(y) {
      SolutionDegreeBounded(p, f, y);
    }
  }

  /** The coefficients of y at n^0 .. n^(n−1). */
  function Truncation(y: Poly, n: nat): (a: seq<real>)
    ensures |a| == n
  {
    seq(n, i requires 0 <= i < n => Coeff(y, i))
  }

  /** A polynomial that vanishes above n^(n−1) is its truncation. */
  lemma TruncationSame(y: Poly, n: nat)
    requires VanishesAbove(y, n - 1)
    ensures Same(y, Truncation(y, n))
  {
    var a := Truncation(y, n);
    forall k: nat ensures Coeff(y, k) == Coeff(a, k) {
      CoeffIndex(a, k);
    }
  }

  /** The equations of step 3 lose no solution: every polynomial solution y
      is the generic y of degree d with coefficients those of y, and these
      satisfy the equations (lines 67–79). */
  lemma SystemCapturesSolutions(p: seq<RatPoly>, f: RatPoly, y: Poly)
    requires Prepare(p, f).Ok? && Prepare(p, f).value.System?
    requires Solves(Operator(p), View(f), y)
    ensures Same(y, Truncation(y, Prepare(p, f).value.d + 1))
    ensures Satisfies(Prepare(p, f).value.equations, Truncation(y, Prepare(p, f).value.d + 1))
  {
    var d := Prepare(p, f).value.d;
    if IsZero(y) {
      ZeroIsSameAsEmpty(y);
    } else {
      SolutionDegreeBounded(p, f, y);
      DegreeCharacterization(y);
      VanishesMonotone(y, Degree(y), d);
    }
    var a := Truncation(y, d + 1);
    TruncationSame(y, d + 1);
    ApplyCongruent(Operator(p), y, a);
    SatisfiesIffSolves(Operator(p), View(f), d, a);
  }
}
