/** The forward difference Δy(n) = y(n + 1) − y(n) and its powers. Since
    N = 1 + Δ, the binomial theorem gives N(y, i) = Σ_j C(i, j) Δ^j y, which
    is why Step 1 of the solver forms q_j = Σ_i C(i, j) p_i: the operator
    Σ_i p_i N^i is Σ_j q_j Δ^j. */
module Differences {
  import opened Polynomials
  import opened Sums
  import opened Shifts
  import opened DegreeBound

  function Delta(y: Poly): Poly {
    Sub(Shift(y, 1), y)
  }

  /** Δ^j y. */
  function Deltas(y: Poly, j: nat): Poly {
    if j == 0 then y else Delta(Deltas(y, j - 1))
  }

  // ---------------------------------------------------------------------
  // Δ is linear.

  lemma DeltaCongruent(a: Poly, b: Poly)
    requires Same(a, b)
    ensures Same(Delta(a), Delta(b))
  {
    ShiftCongruent(a, b, 1);
    forall k: nat ensures Coeff(Delta(a), k) == Coeff(Delta(b), k) {
      SubCoeff(Shift(a, 1), a, k);
      SubCoeff(Shift(b, 1), b, k);
    }
  }

  lemma DeltaAdd(a: Poly, b: Poly)
    ensures Same(Delta(Add(a, b)), Add(Delta(a), Delta(b)))
  {
    ShiftAdd(a, b, 1);
    forall k: nat ensures Coeff(Delta(Add(a, b)), k) == Coeff(Add(Delta(a), Delta(b)), k) {
      SubCoeff(Shift(Add(a, b), 1), Add(a, b), k);
      AddCoeff(Shift(a, 1), Shift(b, 1), k);
      AddCoeff(a, b, k);
      AddCoeff(Delta(a), Delta(b), k);
      SubCoeff(Shift(a, 1), a, k);
      SubCoeff(Shift(b, 1), b, k);
    }
  }

  lemma ScaledDifference(c: real, s: real, a: real)
    ensures c * s - c * a == c * (s - a)
  {
  }

  lemma DeltaScale(c: real, a: Poly)
    ensures Same(Delta(Scale(c, a)), Scale(c, Delta(a)))
  {
    ShiftScale(c, a, 1);
    forall k: nat ensures Coeff(Delta(Scale(c, a)), k) == Coeff(Scale(c, Delta(a)), k) {
      SubCoeff(Scale(c, Shift(a, 1)), Scale(c, a), k);
      ScaleCoeff(c, Shift(a, 1), k);
      ScaleCoeff(c, a, k);
      ScaleCoeff(c, Delta(a), k);
      SubCoeff(Shift(a, 1), a, k);
      ScaledDifference(c, Coeff(Shift(a, 1), k), Coeff(a, k));
    }
  }

  /** Δ of a sum is the sum of the Δ of its terms. */
  lemma {:induction false} DeltaSigma(n: nat, g: nat -> Poly, h: nat -> Poly)
    requires forall j: nat :: j < n ==> Same(h(j), Delta(g(j)))
    ensures Same(Delta(Sigma(n, g)), Sigma(n, h))
  {
    if n == 0 {
      assert Delta([]) == [];
    } else {
      DeltaSigma(n - 1, g, h);
      var prev, last := Sigma(n - 1, g), g(n - 1);
      DeltaAdd(prev, last);
      SameSymmetric(h(n - 1), Delta(last));
      AddCongruent(Delta(prev), Sigma(n - 1, h), Delta(last), h(n - 1));
      SameTransitive(Delta(Add(prev, last)), Add(Delta(prev), Delta(last)), Sigma(n, h));
    }
  }

  /** A shift by one is the polynomial plus its difference: N = 1 + Δ. */
  lemma ShiftByOne(z: Poly)
    ensures Same(Shift(z, 1), Add(z, Delta(z)))
  {
    forall k: nat ensures Coeff(Shift(z, 1), k) == Coeff(Add(z, Delta(z)), k) {
      AddCoeff(z, Delta(z), k);
      SubCoeff(Shift(z, 1), z, k);
    }
  }

  // ---------------------------------------------------------------------
  // The binomial expansion N(y, i) = Σ_{j=0}^{i} C(i, j) Δ^j y.

  function BinomialTerms(y: Poly, i: nat): nat -> Poly {
    (j: nat) => Scale(Binomial(i, j) as real, Deltas(y, j))
  }

  /** C(i, j − 1) Δ^j y, with nothing for j = 0. */
  function PascalTerms(y: Poly, i: nat): nat -> Poly {
    (j: nat) => if j == 0 then [] else Scale(Binomial(i, j - 1) as real, Deltas(y, j))
  }

  /** C(i, j) Δ^(j+1) y. */
  function RaisedTerms(y: Poly, i: nat): nat -> Poly {
    (j: nat) => Scale(Binomial(i, j) as real, Deltas(y, j + 1))
  }

  lemma ScaleByZero(a: Poly)
    ensures Same(Scale(0.0, a), [])
  {
    forall k: nat ensures Coeff(Scale(0.0, a), k) == Coeff([], k) {
      ScaleCoeff(0.0, a, k);
    }
  }

  lemma ScaleBySum(c: real, c1: real, c2: real, a: Poly)
    requires c == c1 + c2
    ensures Same(Scale(c, a), Add(Scale(c1, a), Scale(c2, a)))
  {
    forall k: nat ensures Coeff(Scale(c, a), k) == Coeff(Add(Scale(c1, a), Scale(c2, a)), k) {
      ScaleCoeff(c, a, k);
      ScaleCoeff(c1, a, k);
      ScaleCoeff(c2, a, k);
      AddCoeff(Scale(c1, a), Scale(c2, a), k);
      DistributesRight(c, c1, c2, Coeff(a, k));
    }
  }

  /** Pascal's rule C(i + 1, j) = C(i, j) + C(i, j − 1) on one term. */
  lemma PascalScale(i: nat, j: nat, D: Poly)
    requires j != 0
    ensures Same(Scale(Binomial(i + 1, j) as real, D),
                 Add(Scale(Binomial(i, j) as real, D), Scale(Binomial(i, j - 1) as real, D)))
  {
    assert Binomial(i + 1, j) == Binomial(i, j - 1) + Binomial(i, j);
    ScaleBySum(Binomial(i + 1, j) as real, Binomial(i, j) as real, Binomial(i, j - 1) as real, D);
  }

  lemma PascalTerm(y: Poly, i: nat, j: nat)
    ensures Same(BinomialTerms(y, i + 1)(j), Add(BinomialTerms(y, i)(j), PascalTerms(y, i)(j)))
  {
    var D := Deltas(y, j);
    var T, T', P := BinomialTerms(y, i)(j), BinomialTerms(y, i + 1)(j), PascalTerms(y, i)(j);
    assert T == Scale(Binomial(i, j) as real, D);
    assert T' == Scale(Binomial(i + 1, j) as real, D);
    if j == 0 {
      assert P == [];
      assert Add(T, P) == T;
      assert Binomial(i + 1, j) == Binomial(i, j);
    } else {
      assert P == Scale(Binomial(i, j - 1) as real, D);
      PascalScale(i, j, D);
    }
  }

  /** Δ of the expansion of N(y, i) is the expansion with every power of Δ
      raised by one. */
  lemma DeltaOfExpansion(y: Poly, i: nat)
    ensures Same(Delta(Sigma(i + 1, BinomialTerms(y, i))), Sigma(i + 1, RaisedTerms(y, i)))
  {
    forall j: nat | j < i + 1 ensures Same(RaisedTerms(y, i)(j), Delta(BinomialTerms(y, i)(j))) {
      DeltaScale(Binomial(i, j) as real, Deltas(y, j));
      SameSymmetric(Delta(Scale(Binomial(i, j) as real, Deltas(y, j))), RaisedTerms(y, i)(j));
    }
    DeltaSigma(i + 1, BinomialTerms(y, i), RaisedTerms(y, i));
  }

  /** Pascal's rule splits the next expansion into two sums. */
  lemma SplitByPascal(y: Poly, i: nat)
    ensures Same(Sigma(i + 2, BinomialTerms(y, i + 1)),
                 Add(Sigma(i + 2, BinomialTerms(y, i)), Sigma(i + 2, PascalTerms(y, i))))
  {
    forall j: nat | j < i + 2
      ensures Same(BinomialTerms(y, i + 1)(j), Add(BinomialTerms(y, i)(j), PascalTerms(y, i)(j)))
    {
      PascalTerm(y, i, j);
    }
    SigmaAdd(i + 2, BinomialTerms(y, i), PascalTerms(y, i), BinomialTerms(y, i + 1));
  }

  /** The Pascal sum has a zero first term and is the raised sum. */
  lemma PeelPascal(y: Poly, i: nat)
    ensures Same(Sigma(i + 2, PascalTerms(y, i)), Sigma(i + 1, RaisedTerms(y, i)))
  {
    var P, R := PascalTerms(y, i), RaisedTerms(y, i);
    assert forall j: nat :: R(j) == P(j + 1);
    SigmaPeelFirst(i + 1, P, R);
    assert PascalTerms(y, i)(0) == [];
  }

  /** The next expansion is the current one plus the raised one. */
  lemma ExpansionStep(y: Poly, i: nat)
    ensures Same(Sigma(i + 2, BinomialTerms(y, i + 1)),
                 Add(Sigma(i + 1, BinomialTerms(y, i)), Sigma(i + 1, RaisedTerms(y, i))))
  {
    var T, P, R := BinomialTerms(y, i), PascalTerms(y, i), RaisedTerms(y, i);
    SplitByPascal(y, i);
    BinomialTermsBeyond(y, i, i + 2);
    SigmaExtend(i + 1, i + 2, T);
    PeelPascal(y, i);
    AddCongruent(Sigma(i + 2, T), Sigma(i + 1, T), Sigma(i + 2, P), Sigma(i + 1, R));
    SameTransitive(Sigma(i + 2, BinomialTerms(y, i + 1)), Add(Sigma(i + 2, T), Sigma(i + 2, P)),
                   Add(Sigma(i + 1, T), Sigma(i + 1, R)));
  }

  /** N(y, h + 1) = N(y, h) + Δ N(y, h). */
  lemma ShiftStep(y: Poly, h: nat)
    ensures Same(Shift(y, h + 1), Add(Shift(y, h), Delta(Shift(y, h))))
  {
    ShiftCompose(y, h, 1);
    ShiftByOne(Shift(y, h));
  }

  /** Replacing N(y, h) by its expansion in N(y, h) + Δ N(y, h). */
  lemma StepOfExpansion(y: Poly, h: nat)
    requires Same(Shift(y, h), Sigma(h + 1, BinomialTerms(y, h)))
    ensures Same(Add(Shift(y, h), Delta(Shift(y, h))),
                 Add(Sigma(h + 1, BinomialTerms(y, h)), Sigma(h + 1, RaisedTerms(y, h))))
  {
    var S, E, R := Shift(y, h), Sigma(h + 1, BinomialTerms(y, h)), Sigma(h + 1, RaisedTerms(y, h));
    DeltaCongruent(S, E);
    DeltaOfExpansion(y, h);
    SameTransitive(Delta(S), Delta(E), R);
    AddCongruent(S, E, Delta(S), R);
  }

  /** The expansion of N(y, h) gives that of N(y, h + 1). */
  lemma ExpansionInduction(y: Poly, h: nat)
    requires Same(Shift(y, h), Sigma(h + 1, BinomialTerms(y, h)))
    ensures Same(Shift(y, h + 1), Sigma(h + 2, BinomialTerms(y, h + 1)))
  {
    var mid := Add(Sigma(h + 1, BinomialTerms(y, h)), Sigma(h + 1, RaisedTerms(y, h)));
    ShiftStep(y, h);
    StepOfExpansion(y, h);
    ExpansionStep(y, h);
    SameTransitive(Shift(y, h + 1), Add(Shift(y, h), Delta(Shift(y, h))), mid);
    SameSymmetric(Sigma(h + 2, BinomialTerms(y, h + 1)), mid);
    SameTransitive(Shift(y, h + 1), mid, Sigma(h + 2, BinomialTerms(y, h + 1)));
  }

  lemma ExpansionBase(y: Poly)
    ensures Same(Shift(y, 0), Sigma(1, BinomialTerms(y, 0)))
  {
    ShiftByZero(y);
    assert Sigma(1, BinomialTerms(y, 0)) == Add([], Scale(1.0, y));
    forall k: nat ensures Coeff(Add([], Scale(1.0, y)), k) == Coeff(y, k) {
      ScaleCoeff(1.0, y, k);
    }
  }

  /** The expansion of N(y, h + 1), restated for i = h + 1. */
  lemma ExpansionRename(y: Poly, h: nat, i: nat)
    requires i == h + 1 && Same(Shift(y, h + 1), Sigma(h + 2, BinomialTerms(y, h + 1)))
    ensures Same(Shift(y, i), Sigma(i + 1, BinomialTerms(y, i)))
  {
  }

  /** N(y, i) = Σ_{j=0}^{i} C(i, j) Δ^j y. */
  lemma {:induction false} ShiftExpansion(y: Poly, i: nat)
    ensures Same(Shift(y, i), Sigma(i + 1, BinomialTerms(y, i)))
  {
    if i == 0 {
      ExpansionBase(y);
    } else {
      var h := i - 1;
      ShiftExpansion(y, h);
      ExpansionInduction(y, h);
      ExpansionRename(y, h, i);
    }
  }

  /** Every term of the expansion of N(y, i) beyond i is zero. */
  lemma BinomialTermBeyond(y: Poly, i: nat, j: nat)
    requires i < j
    ensures Same(BinomialTerms(y, i)(j), [])
  {
    BinomialEdges(i, j);
    ScaleByZero(Deltas(y, j));
  }

  /** Terms beyond i of the expansion of N(y, i) are zero. */
  lemma BinomialTermsBeyond(y: Poly, i: nat, n: nat)
    ensures ZeroBetween(i + 1, n, BinomialTerms(y, i))
  {
    forall j: nat | i + 1 <= j < n ensures Same(BinomialTerms(y, i)(j), []) {
      BinomialTermBeyond(y, i, j);
    }
  }

  /** The expansion with extra terms, all zero: N(y, i) = Σ_{j<n} C(i, j) Δ^j y
      for any n > i. */
  lemma ShiftExpansionTo(y: Poly, i: nat, n: nat)
    requires i < n
    ensures Same(Shift(y, i), Sigma(n, BinomialTerms(y, i)))
  {
    ShiftExpansion(y, i);
    BinomialTermsBeyond(y, i, n);
    SigmaExtend(i + 1, n, BinomialTerms(y, i));
    SameSymmetric(Sigma(n, BinomialTerms(y, i)), Sigma(i + 1, BinomialTerms(y, i)));
    SameTransitive(Shift(y, i), Sigma(i + 1, BinomialTerms(y, i)), Sigma(n, BinomialTerms(y, i)));
  }

  // ---------------------------------------------------------------------
  // Δ lowers the degree by one and multiplies the top coefficient by it.

  /** If z vanishes above n^e, Δz vanishes above n^d with d = e − 1, and its
      coefficient there is e times the top one of z. */
  lemma DeltaTop(z: Poly, e: nat, d: int)
    requires VanishesAbove(z, e) && d == e - 1
    ensures VanishesAbove(Delta(z), d)
    ensures e >= 1 ==> Coeff(Delta(z), d) == (e as real) * Coeff(z, e)
  {
    ShiftTop(z, 1, e);
    forall k: nat | d < k ensures Coeff(Delta(z), k) == 0.0 {
      SubCoeff(Shift(z, 1), z, k);
    }
    if e >= 1 {
      SubCoeff(Shift(z, 1), z, d);
    }
  }

  lemma DeltaOfZero(z: Poly)
    requires Same(z, [])
    ensures Same(Delta(z), [])
  {
    DeltaCongruent(z, []);
    assert Delta([]) == [];
  }

  /** One more factor of the falling factorial: if the coefficient above is
      F(e, j − 1) · c and Δ multiplies it by m = e − j + 1, the result is
      F(e, j) · c. */
  lemma FallingStep(e: nat, j: nat, m: real, c: real, below: real, top: real)
    requires j >= 1 && m == (e - (j - 1)) as real
    requires top == Falling(e as real, j - 1) * c
    requires below == m * top
    ensures below == Falling(e as real, j) * c
  {
  }

  /** If y vanishes above n^e, Δ^j y vanishes above n^d with d = e − j, and
      its coefficient there is e (e − 1) ... (e − j + 1) times the top one
      of y. */
  lemma {:induction false} DeltasTop(y: Poly, e: nat, j: nat, d: int)
    requires VanishesAbove(y, e) && d == e - j
    ensures VanishesAbove(Deltas(y, j), d)
    ensures j <= e ==> Coeff(Deltas(y, j), d) == Falling(e as real, j) * Coeff(y, e)
  {
    if j != 0 {
      var z, top := Deltas(y, j - 1), d + 1;
      DeltasTop(y, e, j - 1, top);
      if 0 <= top {
        DeltaTopStep(z, e, j, top, d, Coeff(y, e));
      } else {
        VanishesBelowZero(z, top);
        DeltaOfZero(z);
      }
    }
  }

  /** The step of DeltasTop from j − 1 to j, stated on z = Δ^(j−1) y. */
  lemma DeltaTopStep(z: Poly, e: nat, j: nat, top: nat, d: int, c: real)
    requires 1 <= j && top == e - (j - 1) && d == top - 1 && VanishesAbove(z, top)
    requires j <= e ==> Coeff(z, top) == Falling(e as real, j - 1) * c
    ensures VanishesAbove(Delta(z), d)
    ensures j <= e ==> Coeff(Delta(z), d) == Falling(e as real, j) * c
  {
    DeltaTop(z, top, d);
    if j <= e {
      FallingStep(e, j, top as real, c, Coeff(Delta(z), d), Coeff(z, top));
    }
  }
}
