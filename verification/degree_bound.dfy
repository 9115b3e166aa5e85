/** Steps 1 and 2 of the solver (algorith_poly-cornelis.py): the auxiliary
    polynomials q_j, the largest excess b = max(deg q_j − j), the indicial
    polynomial alpha, the search for its largest integer root d1 among the
    divisors of a cleared constant term, and the degree bound d. */
module DegreeBound {
  import opened Wrappers
  import opened Rationals
  import opened Polynomials
  import opened RatPolys
  import opened Sums

  /** Why the computation stops without reaching a bound. */
  datatype Failure =
    | EmptyOperator   // p has no entries, so there is no order r
    | ZeroOperator    // every q_j is zero, so there is no excess b to take
    | NoIntegerRoot   // no candidate divisor is a root: the maximum of an empty list
    | LeadOfZero      // line 44 takes lc of a zero q_j, whose list of terms is empty

  // ---------------------------------------------------------------------
  // Step 1: q_j = Σ_{i=j}^{r} C(i, j) p_i.

  function Binomial(i: nat, j: nat): nat
  {
    if j == 0 then 1 else if i == 0 then 0 else Binomial(i - 1, j - 1) + Binomial(i - 1, j)
  }

  lemma {:induction false} BinomialEdges(i: nat, j: nat)
    ensures j > i ==> Binomial(i, j) == 0
    ensures Binomial(i, i) == 1
  {
    if i != 0 && j != 0 {
      BinomialEdges(i - 1, j - 1);
      BinomialEdges(i - 1, j);
    }
    if i != 0 {
      BinomialEdges(i - 1, i - 1);
      BinomialEdges(i - 1, i);
    }
  }

  /** x · y. Stating a step as a Product keeps two products of equal
      factors recognisably equal. */
  function Product(x: real, y: real): real
  {
    x * y
  }

  /** The falling factorial x (x − 1) ... (x − j + 1). */
  function Falling(x: real, j: nat): real
  {
    if j == 0 then 1.0 else Falling(x, j - 1) * (x - (j - 1) as real)
  }

  lemma FallingNext(x: real, j: nat, m: real)
    requires j != 0 && m == x - (j - 1) as real
    ensures Falling(x, j) == Product(Falling(x, j - 1), m)
  {
  }

  /** At a natural number k, the falling factorial of a larger order
      contains the factor k − k. */
  lemma {:induction false} FallingBeyond(k: nat, j: nat)
    requires j > k
    ensures Falling(k as real, j) == 0.0
  {
    if j - 1 > k {
      FallingBeyond(k, j - 1);
    }
  }

  /** Σ_{i=j}^{t-1} C(i, j) p_i. */
  function PartialQ(p: seq<RatPoly>, j: nat, t: nat): RatPoly
    requires t <= |p|
  {
    if t <= j then [] else Sum(PartialQ(p, j, t - 1), Multiple(Binomial(t - 1, j), p[t - 1]))
  }

  /** The list q_0, ..., q_r. */
  function Q(p: seq<RatPoly>): (q: seq<RatPoly>)
    ensures |q| == |p|
  {
    seq(|p|, j requires 0 <= j < |p| => PartialQ(p, j, |p|))
  }

  // ---------------------------------------------------------------------
  // Step 2a: the excess b.

  predicate Nonzero(q: RatPoly) {
    !IsZero(View(q))
  }

  /** deg(q_j) − j. */
  function Excess(q: seq<RatPoly>, j: nat): int
    requires j < |q| && Nonzero(q[j])
  {
    Degree(View(q[j])) - j
  }

  /** The largest excess among the nonzero q_j with j < t; none when all of
      them are zero. */
  function MaxExcess(q: seq<RatPoly>, t: nat): (b: Option<int>)
    requires t <= |q|
    ensures b.None? <==> forall j :: 0 <= j < t ==> !Nonzero(q[j])
    ensures b.Some? ==> forall j :: 0 <= j < t && Nonzero(q[j]) ==> Excess(q, j) <= b.value
    ensures b.Some? ==> exists j :: 0 <= j < t && Nonzero(q[j]) && Excess(q, j) == b.value
  {
    if t == 0 then None
    else
      var prev := MaxExcess(q, t - 1);
      if !Nonzero(q[t - 1]) then prev
      else if prev.None? || prev.value < Excess(q, t - 1) then Some(Excess(q, t - 1))
      else prev
  }

  /** q_j is nonzero and attains the excess b. */
  predicate Attains(q: seq<RatPoly>, b: int, j: nat)
    requires j < |q|
  {
    Nonzero(q[j]) && Excess(q, j) == b
  }

  // ---------------------------------------------------------------------
  // Step 2b: the indicial polynomial, as the source writes it.

  /** Σ lc(q_j) n^j over the j < t attaining b: line 44 takes the plain
      power n^j where the operator's form Σ q_j Δ^j calls for the falling
      factorial n (n − 1) ... (n − j + 1); see Alpha below. */
  function SourceAlpha(q: seq<RatPoly>, b: int, t: nat): (alpha: RatPoly)
    requires t <= |q|
    ensures |alpha| <= t
  {
    if t == 0 then []
    else Sum(SourceAlpha(q, b, t - 1), SourceAlphaTerm(q, b, t - 1))
  }

  function SourceAlphaTerm(q: seq<RatPoly>, b: int, j: nat): (term: RatPoly)
    requires j < |q|
    ensures |term| <= j + 1
  {
    if Attains(q, b, j) then MonomialTimes(Lead(q[j]), j) else []
  }

  lemma SourceAlphaTermCoeff(q: seq<RatPoly>, b: int, j: nat, k: nat)
    requires j < |q|
    ensures Coeff(View(SourceAlphaTerm(q, b, j)), k) ==
            if k == j && Attains(q, b, j) then LeadCoeff(View(q[j])) else 0.0
  {
    var term := SourceAlphaTerm(q, b, j);
    CoeffIndex(View(term), k);
    if k < |term| {
      ViewIndex(term, k);
    }
  }

  /** The coefficient of n^k in alpha is lc(q_k) when q_k attains b, else 0. */
  lemma {:induction false} SourceAlphaCoeff(q: seq<RatPoly>, b: int, t: nat, k: nat)
    requires t <= |q|
    ensures Coeff(View(SourceAlpha(q, b, t)), k) ==
            if k < t && Attains(q, b, k) then LeadCoeff(View(q[k])) else 0.0
  {
    if t != 0 {
      SourceAlphaCoeff(q, b, t - 1, k);
      var prev, term := SourceAlpha(q, b, t - 1), SourceAlphaTerm(q, b, t - 1);
      assert SourceAlpha(q, b, t) == Sum(prev, term);
      AddCoeff(View(prev), View(term), k);
      SourceAlphaTermCoeff(q, b, t - 1, k);
      if k == t - 1 {
        assert Coeff(View(prev), k) == 0.0;
      } else {
        assert Coeff(View(term), k) == 0.0;
      }
    }
  }

  /** The top auxiliary polynomial is the top operator coefficient: q_r = p_r. */
  lemma QLast(p: seq<RatPoly>)
    requires |p| != 0
    ensures Same(View(Q(p)[|p| - 1]), View(p[|p| - 1]))
  {
    var r := |p| - 1;
    BinomialEdges(r, r);
    assert PartialQ(p, r, r) == [];
    assert Q(p)[r] == PartialQ(p, r, r + 1) == Sum([], Multiple(1, p[r]));
    forall k: nat ensures Coeff(View(Q(p)[r]), k) == Coeff(View(p[r]), k) {
      AddCoeff([], Scale(1.0, View(p[r])), k);
      ScaleCoeff(1.0, View(p[r]), k);
    }
  }

  /** The terms p_0, ..., p_r, read as polynomials over the reals. */
  function Terms(p: seq<RatPoly>): nat -> Poly {
    (i: nat) => if i < |p| then View(p[i]) else []
  }

  lemma {:induction false} PartialQZero(p: seq<RatPoly>, t: nat)
    requires t <= |p|
    ensures Same(View(PartialQ(p, 0, t)), Sigma(t, Terms(p)))
  {
    if t != 0 {
      PartialQZero(p, t - 1);
      var prev, last := View(PartialQ(p, 0, t - 1)), View(p[t - 1]);
      assert View(PartialQ(p, 0, t)) == Add(prev, Scale(1.0, last));
      assert Same(Scale(1.0, last), last) by {
        forall k: nat ensures Coeff(Scale(1.0, last), k) == Coeff(last, k) {
          ScaleCoeff(1.0, last, k);
        }
      }
      AddCongruent(prev, Sigma(t - 1, Terms(p)), Scale(1.0, last), Terms(p)(t - 1));
    }
  }

  /** The bottom auxiliary polynomial is the sum of all operator
      coefficients: q_0 = p_0 + ... + p_r. */
  lemma QFirst(p: seq<RatPoly>)
    requires |p| != 0
    ensures Same(View(Q(p)[0]), Sigma(|p|, Terms(p)))
  {
    PartialQZero(p, |p|);
  }

  /** When the excess is the largest one, the alpha of line 44 has at least one term, and
      its degree is at most the order r. */
  lemma SourceAlphaShape(q: seq<RatPoly>, b: int)
    requires MaxExcess(q, |q|) == Some(b)
    ensures !IsZero(View(SourceAlpha(q, b, |q|)))
    ensures Degree(View(SourceAlpha(q, b, |q|))) < |q|
  {
    var j :| 0 <= j < |q| && Nonzero(q[j]) && Excess(q, j) == b;
    SourceAlphaCoeff(q, b, |q|, j);
    DegreeCharacterization(View(q[j]));
    NonzeroWitness(View(SourceAlpha(q, b, |q|)), j);
  }

  // ---------------------------------------------------------------------
  // Step 2b, corrected: the indicial polynomial of L = Σ q_j Δ^j.

  /** t · (n − c). */
  function TimesLinear(t: Poly, c: real): (r: Poly)
    ensures |r| == |t| + 1
  {
    Add(MulX(t), Scale(-c, t))
  }

  lemma LinearEvalStep(x: real, c: real, e: real, m: real, A: real, B: real)
    requires A == Product(x, e) && B == Product(-c, e) && m == x - c
    ensures A + B == Product(e, m)
  {
  }

  lemma MulXEval(t: Poly, x: real)
    ensures Eval(MulX(t), x) == Product(x, Eval(t, x))
  {
    EvalMulX(t, x);
  }

  lemma ScaleEval(s: real, t: Poly, x: real)
    ensures Eval(Scale(s, t), x) == Product(s, Eval(t, x))
  {
    EvalScale(s, t, x);
  }

  /** Multiplying by n − c multiplies every value by x − c. */
  lemma TimesLinearEval(t: Poly, c: real, x: real, e: real, m: real)
    requires Eval(t, x) == e && m == x - c
    ensures Eval(TimesLinear(t, c), x) == Product(e, m)
  {
    EvalAdd(MulX(t), Scale(-c, t), x);
    MulXEval(t, x);
    ScaleEval(-c, t, x);
    LinearEvalStep(x, c, e, m, Eval(MulX(t), x), Eval(Scale(-c, t), x));
  }

  /** n (n − 1) ... (n − j + 1) as a polynomial over the reals. */
  function FallingPoly(j: nat): (r: Poly)
    ensures |r| == j + 1
  {
    if j == 0 then [1.0] else TimesLinear(FallingPoly(j - 1), (j - 1) as real)
  }

  /** Its value at x is the falling factorial of x. */
  lemma {:induction false} FallingPolyEval(j: nat, x: real)
    ensures Eval(FallingPoly(j), x) == Falling(x, j)
  {
    if j == 0 {
      assert [1.0][1..] == [];
    } else {
      FallingPolyEval(j - 1, x);
      var m := x - (j - 1) as real;
      FallingNext(x, j, m);
      TimesLinearEval(FallingPoly(j - 1), (j - 1) as real, x, Falling(x, j - 1), m);
    }
  }

  lemma ProductZero(x: real, y: real)
    requires y == 0.0
    ensures Product(x, y) == 0.0
  {
  }

  lemma ScaleCoeffProduct(s: real, t: Poly, k: nat)
    ensures Coeff(Scale(s, t), k) == Product(s, Coeff(t, k))
  {
    ScaleCoeff(s, t, k);
  }

  lemma LinearCoeffStep(c: real, s: real, below: real, same: real, B: real, R: real)
    requires s == -c && B == Product(s, same) && R == below + B
    ensures R == below - Product(c, same)
  {
  }

  /** The coefficient of n^k in t · (n − c) is t_(k−1) − c t_k. */
  lemma TimesLinearCoeff(t: Poly, c: real, k: nat, below: real, same: real)
    requires below == (if k == 0 then 0.0 else Coeff(t, k - 1)) && same == Coeff(t, k)
    ensures Coeff(TimesLinear(t, c), k) == below - Product(c, same)
  {
    AddCoeff(MulX(t), Scale(-c, t), k);
    MulXCoeff(t, k);
    ScaleCoeffProduct(-c, t, k);
    LinearCoeffStep(c, -c, below, same, Coeff(Scale(-c, t), k), Coeff(TimesLinear(t, c), k));
  }

  /** The signed Stirling numbers of the first kind: the coefficient of n^k
      in n (n − 1) ... (n − j + 1). */
  function Stirling(j: nat, k: nat): int
  {
    if j == 0 then (if k == 0 then 1 else 0)
    else (if k == 0 then 0 else Stirling(j - 1, k - 1)) - (j - 1) * Stirling(j - 1, k)
  }

  lemma StirlingStep(j: nat, k: nat, below: real, same: real, R: real)
    requires j >= 1
    requires below == (if k == 0 then 0 else Stirling(j - 1, k - 1)) as real
    requires same == Stirling(j - 1, k) as real
    requires R == below - Product((j - 1) as real, same)
    ensures R == Stirling(j, k) as real
  {
  }

  /** The coefficients of FallingPoly(j) are the Stirling numbers. */
  lemma {:induction false} FallingPolyCoeff(j: nat, k: nat)
    ensures Coeff(FallingPoly(j), k) == Stirling(j, k) as real
  {
    if j == 0 {
      CoeffIndex([1.0], k);
    } else {
      var t := FallingPoly(j - 1);
      FallingPolyCoeff(j - 1, k);
      var below := if k == 0 then 0.0 else Coeff(t, k - 1);
      if k != 0 {
        FallingPolyCoeff(j - 1, k - 1);
      }
      TimesLinearCoeff(t, (j - 1) as real, k, below, Coeff(t, k));
      StirlingStep(j, k, below, Coeff(t, k), Coeff(FallingPoly(j), k));
    }
  }

  /** Its leading coefficient is 1. */
  lemma {:induction false} FallingPolyTop(j: nat)
    ensures Coeff(FallingPoly(j), j) == 1.0
  {
    if j != 0 {
      var t := FallingPoly(j - 1);
      FallingPolyTop(j - 1);
      CoeffIndex(t, j);
      TimesLinearCoeff(t, (j - 1) as real, j, Coeff(t, j - 1), Coeff(t, j));
      ProductZero((j - 1) as real, Coeff(t, j));
    }
  }

  /** c n (n − 1) ... (n − j + 1), with exact rational coefficients. */
  function FallingTimes(c: Rat, j: nat): (r: RatPoly)
    ensures |r| == j + 1
  {
    seq(j + 1, k requires 0 <= k < j + 1 => Times(Stirling(j, k), c))
  }

  lemma ProductSwap(a: real, b: real, B: real, L: real)
    requires L == Product(b, a) && B == b
    ensures L == Product(a, B)
  {
  }

  lemma TimesValue(z: int, c: Rat)
    ensures Value(Times(z, c)) == Product(z as real, Value(c))
  {
  }

  lemma FallingTimesCoeff(c: Rat, j: nat, k: nat)
    ensures Coeff(View(FallingTimes(c, j)), k) == Product(Value(c), Coeff(FallingPoly(j), k))
  {
    var r := FallingTimes(c, j);
    CoeffIndex(View(r), k);
    if k <= j {
      ViewIndex(r, k);
      var z := Stirling(j, k);
      var e := Times(z, c);
      assert r[k] == e;
      TimesValue(z, c);
      FallingPolyCoeff(j, k);
      ProductSwap(Value(c), z as real, Coeff(FallingPoly(j), k), Value(e));
    } else {
      CoeffIndex(FallingPoly(j), k);
      ProductZero(Value(c), Coeff(FallingPoly(j), k));
    }
  }

  /** It is c times n (n − 1) ... (n − j + 1). */
  lemma FallingTimesView(c: Rat, j: nat)
    ensures Same(View(FallingTimes(c, j)), Scale(Value(c), FallingPoly(j)))
  {
    forall k: nat
      ensures Coeff(View(FallingTimes(c, j)), k) == Coeff(Scale(Value(c), FallingPoly(j)), k)
    {
      FallingTimesCoeff(c, j, k);
      ScaleCoeffProduct(Value(c), FallingPoly(j), k);
    }
  }

  /** Its value at x is c times the falling factorial of x. */
  lemma FallingTimesEval(c: Rat, j: nat, x: real)
    ensures Eval(View(FallingTimes(c, j)), x) == Product(Value(c), Falling(x, j))
  {
    FallingTimesView(c, j);
    EvalSame(View(FallingTimes(c, j)), Scale(Value(c), FallingPoly(j)), x);
    ScaleEval(Value(c), FallingPoly(j), x);
    FallingPolyEval(j, x);
  }

  /** It has degree j and leading coefficient c. */
  lemma FallingTimesTop(c: Rat, j: nat)
    ensures VanishesAbove(View(FallingTimes(c, j)), j)
    ensures Coeff(View(FallingTimes(c, j)), j) == Value(c)
  {
    StoredLengthBound(View(FallingTimes(c, j)));
    FallingTimesCoeff(c, j, j);
    FallingPolyTop(j);
  }

  /** Σ lc(q_j) n (n − 1) ... (n − j + 1) over the j < t attaining b: the
      coefficient of n^(k+b) in L y for y of degree k is lc(y) times its
      value at k, since Δ^j n^k = k (k − 1) ... (k − j + 1) n^(k−j) + ... */
  function Alpha(q: seq<RatPoly>, b: int, t: nat): (alpha: RatPoly)
    requires t <= |q|
    ensures |alpha| <= t
  {
    if t == 0 then []
    else Sum(Alpha(q, b, t - 1), AlphaTerm(q, b, t - 1))
  }

  function AlphaTerm(q: seq<RatPoly>, b: int, j: nat): (term: RatPoly)
    requires j < |q|
    ensures |term| <= j + 1
  {
    if Attains(q, b, j) then FallingTimes(Lead(q[j]), j) else []
  }

  /** lc(q_j) x (x − 1) ... (x − j + 1) when q_j attains b, else 0. */
  function FallingSumTerm(q: seq<RatPoly>, b: int, j: nat, x: real): real
    requires j < |q|
  {
    if Attains(q, b, j) then Product(LeadCoeff(View(q[j])), Falling(x, j)) else 0.0
  }

  /** The value the indicial polynomial should take at x, summed term by
      term over the j < t. */
  function FallingSum(q: seq<RatPoly>, b: int, t: nat, x: real): real
    requires t <= |q|
  {
    if t == 0 then 0.0 else FallingSum(q, b, t - 1, x) + FallingSumTerm(q, b, t - 1, x)
  }

  lemma AttainingTermEval(q: seq<RatPoly>, b: int, j: nat, x: real)
    requires j < |q| && Attains(q, b, j)
    ensures Eval(View(AlphaTerm(q, b, j)), x) == Product(LeadCoeff(View(q[j])), Falling(x, j))
  {
    FallingTimesEval(Lead(q[j]), j, x);
  }

  lemma AlphaTermEval(q: seq<RatPoly>, b: int, j: nat, x: real)
    requires j < |q|
    ensures Eval(View(AlphaTerm(q, b, j)), x) == FallingSumTerm(q, b, j, x)
  {
    if Attains(q, b, j) {
      AttainingTermEval(q, b, j, x);
    }
  }

  /** alpha(x) = Σ lc(q_j) x (x − 1) ... (x − j + 1) over the attaining j. */
  lemma {:induction false} AlphaEval(q: seq<RatPoly>, b: int, t: nat, x: real)
    requires t <= |q|
    ensures Eval(View(Alpha(q, b, t)), x) == FallingSum(q, b, t, x)
  {
    if t != 0 {
      AlphaEval(q, b, t - 1, x);
      var prev, term := Alpha(q, b, t - 1), AlphaTerm(q, b, t - 1);
      assert View(Alpha(q, b, t)) == Add(View(prev), View(term));
      EvalAdd(View(prev), View(term), x);
      AlphaTermEval(q, b, t - 1, x);
    }
  }

  /** Once some j < t attains b, alpha is nonzero. */
  lemma {:induction false} AlphaNonzero(q: seq<RatPoly>, b: int, t: nat, j: nat)
    requires j < t <= |q| && Attains(q, b, j)
    ensures !IsZero(View(Alpha(q, b, t)))
  {
    var prev, term := Alpha(q, b, t - 1), AlphaTerm(q, b, t - 1);
    if Attains(q, b, t - 1) {
      FallingTimesTop(Lead(q[t - 1]), t - 1);
      CoeffIndex(View(prev), t - 1);
      AddCoeff(View(prev), View(term), t - 1);
      NonzeroWitness(View(Alpha(q, b, t)), t - 1);
    } else {
      AlphaNonzero(q, b, t - 1, j);
      assert View(Alpha(q, b, t)) == View(prev);
    }
  }

  /** When b is the largest excess, alpha is nonzero and its degree is at
      most the order r. */
  lemma AlphaShape(q: seq<RatPoly>, b: int)
    requires MaxExcess(q, |q|) == Some(b)
    ensures !IsZero(View(Alpha(q, b, |q|)))
    ensures Degree(View(Alpha(q, b, |q|))) < |q|
  {
    var j :| 0 <= j < |q| && Nonzero(q[j]) && Excess(q, j) == b;
    AlphaNonzero(q, b, |q|, j);
  }

  // ---------------------------------------------------------------------
  // Steps 1 and 2 up to alpha.

  /** What steps 1 and 2 compute before the root search. */
  datatype Indicial = Indicial(q: seq<RatPoly>, b: int, alpha: RatPoly)

  /** q, b and alpha for the operator p; fails on an empty operator and on
      one whose q_j are all zero. */
  function IndicialOf(p: seq<RatPoly>): (r: Result<Indicial, Failure>)
    ensures r == Err(EmptyOperator) <==> |p| == 0
    ensures r == Err(ZeroOperator) <==> |p| != 0 && forall j :: 0 <= j < |p| ==> !Nonzero(Q(p)[j])
    ensures r.Err? ==> r.error != NoIntegerRoot
    ensures r.Ok? ==> r.value.q == Q(p) && MaxExcess(r.value.q, |p|) == Some(r.value.b)
    ensures r.Ok? ==> r.value.alpha == Alpha(r.value.q, r.value.b, |p|)
    ensures r.Ok? ==> !IsZero(View(r.value.alpha)) && Degree(View(r.value.alpha)) < |p|
  {
    if |p| == 0 then Err(EmptyOperator)
    else
      var q := Q(p);
      var b := MaxExcess(q, |q|);
      if b.None? then Err(ZeroOperator)
      else
        AlphaShape(q, b.value);
        Ok(Indicial(q, b.value, Alpha(q, b.value, |q|)))
  }

  // ---------------------------------------------------------------------
  // Steps 1 and 2 up to alpha, as the source runs them.

  /** deg(q_j) − j as lines 41 and 43 compute it: a zero q_j has degree 0
      and so the excess −j. */
  function SourceExcess(q: seq<RatPoly>, j: nat): int
    requires j < |q|
  {
    SourceDegree(View(q[j])) - j
  }

  /** b of line 43: the largest SourceExcess over j < t. */
  function SourceMaxExcess(q: seq<RatPoly>, t: nat): (b: int)
    requires 0 < t <= |q|
    ensures forall j :: 0 <= j < t ==> SourceExcess(q, j) <= b
    ensures exists j :: 0 <= j < t && SourceExcess(q, j) == b
  {
    if t == 1 then SourceExcess(q, 0)
    else
      var prev := SourceMaxExcess(q, t - 1);
      if prev < SourceExcess(q, t - 1) then SourceExcess(q, t - 1) else prev
  }

  /** Some zero q_j with j < t attains the excess b of line 43; line 44
      then takes its leading coefficient. */
  predicate ZeroAttains(q: seq<RatPoly>, b: int, t: nat)
    requires t <= |q|
  {
    exists j :: 0 <= j < t && !Nonzero(q[j]) && -j == b
  }

  /** When no zero q_j attains the source's b, that b is the largest excess
      of the nonzero q_j. */
  lemma SourceExcessIsMax(q: seq<RatPoly>, t: nat)
    requires 0 < t <= |q|
    requires !ZeroAttains(q, SourceMaxExcess(q, t), t)
    ensures MaxExcess(q, t) == Some(SourceMaxExcess(q, t))
    ensures exists j :: 0 <= j < t && Attains(q, SourceMaxExcess(q, t), j)
  {
    var s := SourceMaxExcess(q, t);
    var j :| 0 <= j < t && SourceExcess(q, j) == s;
    assert Nonzero(q[j]);
    var m := MaxExcess(q, t);
    assert m.Some?;
    var i :| 0 <= i < t && Nonzero(q[i]) && Excess(q, i) == m.value;
    assert SourceExcess(q, i) == m.value;
    assert Attains(q, s, i);
  }

  /** q, b and alpha as lines 37–44 compute them: b counts a zero q_j with
      the excess −j, and line 44 stops in lc when such a q_j attains b. */
  function SourceIndicialOf(p: seq<RatPoly>): (r: Result<Indicial, Failure>)
    ensures r == Err(EmptyOperator) <==> |p| == 0
    ensures r == Err(LeadOfZero) <==> |p| != 0 && ZeroAttains(Q(p), SourceMaxExcess(Q(p), |p|), |p|)
    ensures r.Ok? ==> r.value.q == Q(p)
    ensures r.Ok? ==> forall j :: 0 <= j < |p| ==> SourceExcess(Q(p), j) <= r.value.b
    ensures r.Ok? ==> exists j :: 0 <= j < |p| && Attains(Q(p), r.value.b, j)
    ensures r.Ok? ==> r.value.alpha == SourceAlpha(Q(p), r.value.b, |p|)
    ensures r.Ok? ==> !IsZero(View(r.value.alpha)) && Degree(View(r.value.alpha)) < |p|
  {
    if |p| == 0 then Err(EmptyOperator)
    else
      var q := Q(p);
      var b := SourceMaxExcess(q, |q|);
      if ZeroAttains(q, b, |q|) then Err(LeadOfZero)
      else
        SourceExcessIsMax(q, |q|);
        SourceAlphaShape(q, b);
        Ok(Indicial(q, b, SourceAlpha(q, b, |q|)))
  }

  /** A zero q_j reaches the source's b exactly when the q_j are all zero
      or some zero q_j has an excess −j at least the largest excess of the
      nonzero ones. */
  lemma ZeroAttainsIff(q: seq<RatPoly>)
    requires 0 < |q|
    ensures ZeroAttains(q, SourceMaxExcess(q, |q|), |q|) <==>
      MaxExcess(q, |q|).None? || exists j :: 0 <= j < |q| && !Nonzero(q[j]) && -j >= MaxExcess(q, |q|).value
    ensures !ZeroAttains(q, SourceMaxExcess(q, |q|), |q|) ==> MaxExcess(q, |q|) == Some(SourceMaxExcess(q, |q|))
  {
    var s := SourceMaxExcess(q, |q|);
    var m := MaxExcess(q, |q|);
    if !ZeroAttains(q, s, |q|) {
      SourceExcessIsMax(q, |q|);
      forall j | 0 <= j < |q| && !Nonzero(q[j]) ensures -j < m.value {
        assert SourceExcess(q, j) == -j;
      }
    } else if m.Some? {
      var j :| 0 <= j < |q| && !Nonzero(q[j]) && -j == s;
      var i :| 0 <= i < |q| && Nonzero(q[i]) && Excess(q, i) == m.value;
      assert SourceExcess(q, i) == m.value;
    }
  }

  /** The source's steps 1 and 2 stop in lc exactly when the q_j are all
      zero or some zero q_j reaches the largest excess of the nonzero ones;
      otherwise they find the same b as the corrected steps. */
  lemma SourceIndicialAgrees(p: seq<RatPoly>)
    requires |p| != 0
    ensures SourceIndicialOf(p).Err? <==>
      IndicialOf(p).Err? || exists j :: 0 <= j < |p| && !Nonzero(Q(p)[j]) && -j >= IndicialOf(p).value.b
    ensures SourceIndicialOf(p).Ok? ==> SourceIndicialOf(p).value.b == IndicialOf(p).value.b
  {
    ZeroAttainsIff(Q(p));
  }
}
