/** A worked operator on which the alpha of line 44 gives too small a
    degree bound: L y = (4 − n − 3n²) y(n) + (n + 6n²) y(n + 1) − 3n² y(n + 2)
    with right-hand side f = n. Here q = [4, n, −3n²] and b = 0, so line 44
    gives alpha = 4 + n − 3n², whose largest integer root is −1, and d = 1;
    yet y = n² solves L y = f. */
module PowerBasisExample {
  import opened Wrappers
  import opened Rationals
  import opened Polynomials
  import opened RatPolys
  import opened DegreeBound
  import opened DivisorSearch
  import opened SolutionBound
  import opened LinearSystem
  import opened Solver
  import opened Shifts
  import opened Sums

  const P0: seq<RatPoly> := [[Rat(4, 1), Rat(-1, 1), Rat(-3, 1)],
                             [Rat(0, 1), Rat(1, 1), Rat(6, 1)],
                             [Rat(0, 1), Rat(0, 1), Rat(-3, 1)]]
  const F0: RatPoly := [Rat(0, 1), Rat(1, 1)]

  lemma ViewsOfP0()
    ensures View(P0[0]) == [4.0, -1.0, -3.0]
    ensures View(P0[1]) == [0.0, 1.0, 6.0]
    ensures View(P0[2]) == [0.0, 0.0, -3.0]
  {
  }

  lemma ViewOfF0()
    ensures View(F0) == [0.0, 1.0]
  {
  }

  lemma Add3(a0: real, a1: real, a2: real, b0: real, b1: real, b2: real)
    ensures Add([a0, a1, a2], [b0, b1, b2]) == [a0 + b0, a1 + b1, a2 + b2]
  {
    assert [a0, a1, a2][1..] == [a1, a2] && [b0, b1, b2][1..] == [b1, b2];
    assert [a1, a2][1..] == [a2] && [b1, b2][1..] == [b2];
    assert [a2][1..] == [] && [b2][1..] == [];
    var r2 := Add([a2], [b2]);
    assert r2 == [a2 + b2];
    var r1 := Add([a1, a2], [b1, b2]);
    assert r1 == [a1 + b1] + r2;
    assert r1 == [a1 + b1, a2 + b2];
    var r0 := Add([a0, a1, a2], [b0, b1, b2]);
    assert r0 == [a0 + b0] + r1;
  }

  lemma ScaleOne(a0: real, a1: real, a2: real)
    ensures Scale(1.0, [a0, a1, a2]) == [a0, a1, a2]
  {
    assert [a0, a1, a2][1..] == [a1, a2];
    assert [a1, a2][1..] == [a2];
    assert [a2][1..] == [];
    var r2 := Scale(1.0, [a2]);
    assert r2 == [a2];
    var r1 := Scale(1.0, [a1, a2]);
    assert r1 == [a1] + r2;
    var r0 := Scale(1.0, [a0, a1, a2]);
    assert r0 == [a0] + r1;
  }

  lemma ScaleLast()
    ensures Scale(2.0, [0.0, 0.0, -3.0]) == [0.0, 0.0, -6.0]
  {
    assert [0.0, 0.0, -3.0][1..] == [0.0, -3.0];
    assert [0.0, -3.0][1..] == [-3.0];
    assert [-3.0][1..] == [];
    var r2 := Scale(2.0, [-3.0]);
    assert r2 == [-6.0];
    var r1 := Scale(2.0, [0.0, -3.0]);
    assert r1 == [0.0] + r2;
    var r0 := Scale(2.0, [0.0, 0.0, -3.0]);
    assert r0 == [0.0] + r1;
  }

  /** One more term of the sum defining q_j. */
  lemma PartialQNext(j: nat, t: nat)
    requires j < t <= 3
    ensures View(PartialQ(P0, j, t)) ==
            Add(View(PartialQ(P0, j, t - 1)), Scale(Binomial(t - 1, j) as real, View(P0[t - 1])))
  {
  }

  lemma ViewOfQ0()
    ensures View(Q(P0)[0]) == [4.0, 0.0, 0.0]
  {
    ViewsOfP0();
    assert Binomial(0, 0) == 1 && Binomial(1, 0) == 1 && Binomial(2, 0) == 1;
    PartialQNext(0, 1);
    PartialQNext(0, 2);
    PartialQNext(0, 3);
    ScaleOne(4.0, -1.0, -3.0);
    ScaleOne(0.0, 1.0, 6.0);
    ScaleOne(0.0, 0.0, -3.0);
    Add3(4.0, -1.0, -3.0, 0.0, 1.0, 6.0);
    Add3(4.0, 0.0, 3.0, 0.0, 0.0, -3.0);
    assert View(PartialQ(P0, 0, 0)) == [];
    assert View(PartialQ(P0, 0, 1)) == [4.0, -1.0, -3.0];
    assert View(PartialQ(P0, 0, 2)) == [4.0, 0.0, 3.0];
    assert View(PartialQ(P0, 0, 3)) == [4.0, 0.0, 0.0];
  }

  lemma ViewOfQ1()
    ensures View(Q(P0)[1]) == [0.0, 1.0, 0.0]
  {
    ViewsOfP0();
    assert Binomial(1, 1) == 1 && Binomial(2, 1) == 2;
    PartialQNext(1, 2);
    PartialQNext(1, 3);
    ScaleOne(0.0, 1.0, 6.0);
    ScaleLast();
    Add3(0.0, 1.0, 6.0, 0.0, 0.0, -6.0);
    assert Q(P0)[1] == PartialQ(P0, 1, 3);
  }

  lemma ViewOfQ2()
    ensures View(Q(P0)[2]) == [0.0, 0.0, -3.0]
  {
    ViewsOfP0();
    assert Binomial(2, 2) == 1;
    PartialQNext(2, 3);
    ScaleOne(0.0, 0.0, -3.0);
    assert Q(P0)[2] == PartialQ(P0, 2, 3);
  }

  /** The shape of q for this operator, as a property of any list of three
      coefficient polynomials. */
  ghost predicate ShapeOfQ(q: seq<RatPoly>) {
    |q| == 3 && View(q[0]) == [4.0, 0.0, 0.0] && View(q[1]) == [0.0, 1.0, 0.0] && View(q[2]) == [0.0, 0.0, -3.0]
  }

  lemma QHasShape()
    ensures ShapeOfQ(Q(P0))
  {
    ViewOfQ0();
    ViewOfQ1();
    ViewOfQ2();
  }

  lemma DegreesOfQ(q: seq<RatPoly>)
    requires ShapeOfQ(q)
    ensures Nonzero(q[0]) && Degree(View(q[0])) == 0 && LeadCoeff(View(q[0])) == 4.0
    ensures Nonzero(q[1]) && Degree(View(q[1])) == 1 && LeadCoeff(View(q[1])) == 1.0
    ensures Nonzero(q[2]) && Degree(View(q[2])) == 2 && LeadCoeff(View(q[2])) == -3.0
  {
    var a0, a1, a2 := View(q[0]), View(q[1]), View(q[2]);
    assert a0[0] != 0.0 && a1[1] != 0.0 && a2[2] != 0.0;
    assert a0[..2] == [4.0, 0.0] && a0[..2][..1] == [4.0];
    assert Degree(a0[..2][..1]) == 0;
    assert Degree(a0[..2]) == 0;
    assert Degree(a0) == 0;
    assert a1[..2] == [0.0, 1.0];
    assert Degree(a1[..2]) == 1;
    assert Degree(a1) == 1;
    assert Degree(a2) == 2;
  }

  /** Every q_j has excess 0, so b = 0 and every j attains it. */
  lemma ExcessOfQ(q: seq<RatPoly>)
    requires ShapeOfQ(q)
    ensures MaxExcess(q, 3) == Some(0)
    ensures Attains(q, 0, 0) && Attains(q, 0, 1) && Attains(q, 0, 2)
  {
    DegreesOfQ(q);
    assert MaxExcess(q, 1) == Some(0);
    assert MaxExcess(q, 2) == Some(0);
  }

  /** Line 44 gives alpha = 4 + n − 3n². */
  lemma SourceAlphaOfQ(q: seq<RatPoly>)
    requires ShapeOfQ(q)
    ensures Same(View(SourceAlpha(q, 0, 3)), [4.0, 1.0, -3.0])
  {
    DegreesOfQ(q);
    ExcessOfQ(q);
    var a := View(SourceAlpha(q, 0, 3));
    forall k: nat ensures Coeff(a, k) == Coeff([4.0, 1.0, -3.0], k) {
      SourceAlphaCoeff(q, 0, 3, k);
      CoeffIndex([4.0, 1.0, -3.0], k);
      if k == 0 {
        assert Coeff(a, k) == 4.0;
      } else if k == 1 {
        assert Coeff(a, k) == 1.0;
      } else if k == 2 {
        assert Coeff(a, k) == -3.0;
      } else {
        assert Coeff(a, k) == 0.0;
      }
    }
  }

  // ---------------------------------------------------------------------
  // y = n² solves L y = n.

  /** One row of the schoolbook product: (c + n·rest) b = c·b + n·(rest b). */
  lemma MulRow(c: real, rest: Poly, b: Poly, m: Poly, s: Poly, r: Poly)
    requires Mul(rest, b) == m && Scale(c, b) == s && Add(s, MulX(m)) == r
    ensures Mul([c] + rest, b) == r
  {
    assert ([c] + rest)[1..] == rest;
  }

  /** The last row: a single coefficient c times y. */
  lemma Row3(c: real, y: Poly, r: Poly)
    requires |y| > 0 && Scale(c, y) == r
    ensures Mul([c], y) == r
  {
    assert [c][1..] == [];
    assert Add(r[1..], []) == r[1..];
    assert Add(r, [0.0]) == r;
  }

  // Single steps of the three products p_j(n) · (n + j)², each on literals.

  lemma ShiftSquare()
    ensures Shift([0.0, 0.0, 1.0], 1) == [1.0, 2.0, 1.0]
  {
    ShiftSquareTail();
    assert [0.0, 0.0, 1.0][1..] == [0.0, 1.0];
    assert Scale(1.0, [1.0, 1.0]) == [1.0, 1.0];
    assert MulLinear(1.0, [1.0, 1.0]) == [1.0, 2.0, 1.0];
  }

  lemma ShiftSquareTail()
    ensures Shift([0.0, 1.0], 1) == [1.0, 1.0]
  {
    assert [0.0, 1.0][1..] == [1.0];
    assert [1.0][1..] == [];
    assert Shift([1.0], 1) == [1.0];
    assert MulLinear(1.0, [1.0]) == [1.0, 1.0];
  }

  lemma ShiftSquareTwo()
    ensures Shift([0.0, 0.0, 1.0], 2) == [4.0, 4.0, 1.0]
  {
    ShiftSquareTwoTail();
    assert [0.0, 0.0, 1.0][1..] == [0.0, 1.0];
    assert Scale(2.0, [2.0, 1.0]) == [4.0, 2.0];
    assert MulLinear(2.0, [2.0, 1.0]) == [4.0, 4.0, 1.0];
  }

  lemma ShiftSquareTwoTail()
    ensures Shift([0.0, 1.0], 2) == [2.0, 1.0]
  {
    assert [0.0, 1.0][1..] == [1.0];
    assert [1.0][1..] == [];
    assert Shift([1.0], 2) == [1.0];
    assert MulLinear(2.0, [1.0]) == [2.0, 1.0];
  }

  lemma ScalesOfSquare()
    ensures Scale(-3.0, [0.0, 0.0, 1.0]) == [0.0, 0.0, -3.0]
    ensures Scale(-1.0, [0.0, 0.0, 1.0]) == [0.0, 0.0, -1.0]
    ensures Scale(4.0, [0.0, 0.0, 1.0]) == [0.0, 0.0, 4.0]
  {
  }

  lemma ScalesOfShifted()
    ensures Scale(6.0, [1.0, 2.0, 1.0]) == [6.0, 12.0, 6.0]
    ensures Scale(1.0, [1.0, 2.0, 1.0]) == [1.0, 2.0, 1.0]
    ensures Scale(0.0, [1.0, 2.0, 1.0]) == [0.0, 0.0, 0.0]
  {
  }

  lemma ScalesOfShiftedTwo()
    ensures Scale(-3.0, [4.0, 4.0, 1.0]) == [-12.0, -12.0, -3.0]
    ensures Scale(0.0, [4.0, 4.0, 1.0]) == [0.0, 0.0, 0.0]
  {
  }

  lemma SumsOfTerm0()
    ensures Add([0.0, 0.0, -1.0], MulX([0.0, 0.0, -3.0])) == [0.0, 0.0, -1.0, -3.0]
    ensures Add([0.0, 0.0, 4.0], MulX([0.0, 0.0, -1.0, -3.0])) == [0.0, 0.0, 4.0, -1.0, -3.0]
  {
  }

  lemma SumsOfTerm1()
    ensures Add([1.0, 2.0, 1.0], MulX([6.0, 12.0, 6.0])) == [1.0, 8.0, 13.0, 6.0]
    ensures Add([0.0, 0.0, 0.0], MulX([1.0, 8.0, 13.0, 6.0])) == [0.0, 1.0, 8.0, 13.0, 6.0]
  {
  }

  lemma SumsOfTerm2()
    ensures Add([0.0, 0.0, 0.0], MulX([-12.0, -12.0, -3.0])) == [0.0, -12.0, -12.0, -3.0]
    ensures Add([0.0, 0.0, 0.0], MulX([0.0, -12.0, -12.0, -3.0])) == [0.0, 0.0, -12.0, -12.0, -3.0]
  {
  }

  /** (4 − n − 3n²) · n² */
  lemma Term0()
    ensures Mul([4.0, -1.0, -3.0], Shift([0.0, 0.0, 1.0], 0)) == [0.0, 0.0, 4.0, -1.0, -3.0]
  {
    var y := [0.0, 0.0, 1.0];
    ShiftByZero(y);
    ScalesOfSquare();
    SumsOfTerm0();
    Row3(-3.0, y, [0.0, 0.0, -3.0]);
    MulRow(-1.0, [-3.0], y, [0.0, 0.0, -3.0], [0.0, 0.0, -1.0], [0.0, 0.0, -1.0, -3.0]);
    MulRow(4.0, [-1.0, -3.0], y, [0.0, 0.0, -1.0, -3.0], [0.0, 0.0, 4.0], [0.0, 0.0, 4.0, -1.0, -3.0]);
    assert [4.0] + [-1.0, -3.0] == [4.0, -1.0, -3.0];
  }

  /** (n + 6n²) · (n + 1)² */
  lemma Term1()
    ensures Mul([0.0, 1.0, 6.0], Shift([0.0, 0.0, 1.0], 1)) == [0.0, 1.0, 8.0, 13.0, 6.0]
  {
    var y := [1.0, 2.0, 1.0];
    ShiftSquare();
    ScalesOfShifted();
    SumsOfTerm1();
    Row3(6.0, y, [6.0, 12.0, 6.0]);
    MulRow(1.0, [6.0], y, [6.0, 12.0, 6.0], y, [1.0, 8.0, 13.0, 6.0]);
    MulRow(0.0, [1.0, 6.0], y, [1.0, 8.0, 13.0, 6.0], [0.0, 0.0, 0.0], [0.0, 1.0, 8.0, 13.0, 6.0]);
    assert [0.0] + [1.0, 6.0] == [0.0, 1.0, 6.0];
  }

  /** −3n² · (n + 2)² */
  lemma Term2()
    ensures Mul([0.0, 0.0, -3.0], Shift([0.0, 0.0, 1.0], 2)) == [0.0, 0.0, -12.0, -12.0, -3.0]
  {
    var y := [4.0, 4.0, 1.0];
    ShiftSquareTwo();
    ScalesOfShiftedTwo();
    SumsOfTerm2();
    Row3(-3.0, y, [-12.0, -12.0, -3.0]);
    MulRow(0.0, [-3.0], y, [-12.0, -12.0, -3.0], [0.0, 0.0, 0.0], [0.0, -12.0, -12.0, -3.0]);
    MulRow(0.0, [0.0, -3.0], y, [0.0, -12.0, -12.0, -3.0], [0.0, 0.0, 0.0], [0.0, 0.0, -12.0, -12.0, -3.0]);
    assert [0.0] + [0.0, -3.0] == [0.0, 0.0, -3.0];
  }

  /** L y for a three-term operator is the sum of its three products. */
  lemma ApplyOfThree(ops: seq<Poly>, y: Poly, t0: Poly, t1: Poly, t2: Poly)
    requires |ops| == 3
    requires Mul(ops[0], Shift(y, 0)) == t0
    requires Mul(ops[1], Shift(y, 1)) == t1
    requires Mul(ops[2], Shift(y, 2)) == t2
    ensures Apply(ops, y) == Add(Add(Add([], t0), t1), t2)
  {
    var g := OperatorTerms(ops, y);
    assert g(0) == t0 && g(1) == t1 && g(2) == t2;
    assert Sigma(1, g) == Add([], t0);
    assert Sigma(2, g) == Add(Add([], t0), t1);
  }

  lemma SumOfTerms()
    ensures Add(Add(Add([], [0.0, 0.0, 4.0, -1.0, -3.0]), [0.0, 1.0, 8.0, 13.0, 6.0]),
                [0.0, 0.0, -12.0, -12.0, -3.0]) == [0.0, 1.0, 0.0, 0.0, 0.0]
  {
    assert Add([], [0.0, 0.0, 4.0, -1.0, -3.0]) == [0.0, 0.0, 4.0, -1.0, -3.0];
    SumOfTermsTail();
  }

  lemma SumOfTermsTail()
    ensures Add(Add([0.0, 0.0, 4.0, -1.0, -3.0], [0.0, 1.0, 8.0, 13.0, 6.0]),
                [0.0, 0.0, -12.0, -12.0, -3.0]) == [0.0, 1.0, 0.0, 0.0, 0.0]
  {
    SumOfFirstTwo();
    SumOfLastTwo();
  }

  lemma SumOfFirstTwo()
    ensures Add([0.0, 0.0, 4.0, -1.0, -3.0], [0.0, 1.0, 8.0, 13.0, 6.0]) == [0.0, 1.0, 12.0, 12.0, 3.0]
  {
  }

  lemma SumOfLastTwo()
    ensures Add([0.0, 1.0, 12.0, 12.0, 3.0], [0.0, 0.0, -12.0, -12.0, -3.0]) == [0.0, 1.0, 0.0, 0.0, 0.0]
  {
  }

  /** n stored with three trailing zeros is still n. */
  lemma PaddedIdentity(a: Poly)
    requires a == [0.0, 1.0, 0.0, 0.0, 0.0]
    ensures Same(a, [0.0, 1.0])
  {
    forall k: nat ensures Coeff(a, k) == Coeff([0.0, 1.0], k) {
      CoeffIndex(a, k);
      CoeffIndex([0.0, 1.0], k);
    }
  }

  lemma SquareSolvesStored(ops: seq<Poly>, f: Poly)
    requires ops == [[4.0, -1.0, -3.0], [0.0, 1.0, 6.0], [0.0, 0.0, -3.0]] && f == [0.0, 1.0]
    ensures Solves(ops, f, [0.0, 0.0, 1.0])
  {
    Term0();
    Term1();
    Term2();
    ApplyOfThree(ops, [0.0, 0.0, 1.0], [0.0, 0.0, 4.0, -1.0, -3.0], [0.0, 1.0, 8.0, 13.0, 6.0],
                 [0.0, 0.0, -12.0, -12.0, -3.0]);
    SumOfTerms();
    PaddedIdentity(Apply(ops, [0.0, 0.0, 1.0]));
  }

  /** y(n) = n² solves (4 − n − 3n²) y(n) + (n + 6n²) y(n + 1) − 3n² y(n + 2) = n. */
  lemma SquareSolves()
    ensures Solves(Operator(P0), View(F0), [0.0, 0.0, 1.0])
  {
    ViewsOfP0();
    var ops := Operator(P0);
    assert ops == [[4.0, -1.0, -3.0], [0.0, 1.0, 6.0], [0.0, 0.0, -3.0]];
    ViewOfF0();
    SquareSolvesStored(ops, View(F0));
  }

  // ---------------------------------------------------------------------
  // Line 44 bounds the degree of a solution by 1.

  /** 4 + x − 3x² = (1 + x)(4 − 3x) for any polynomial stored as 4 + n − 3n². */
  lemma SourceAlphaAt(a: Poly, x: real)
    requires Same(a, [4.0, 1.0, -3.0])
    ensures Eval(a, x) == (1.0 + x) * (4.0 - 3.0 * x)
  {
    EvalSame(a, [4.0, 1.0, -3.0], x);
    EvalQuadratic(4.0, 1.0, -3.0, x);
  }

  /** 4 + n − 3n² vanishes at n = −1, and at no larger integer. */
  lemma SourceAlphaRoots(a: Poly)
    requires Same(a, [4.0, 1.0, -3.0])
    ensures IsIntegerRoot(a, -1)
    ensures forall x: int :: IsIntegerRoot(a, x) ==> x <= -1
  {
    SourceAlphaAt(a, -1.0);
    forall x: int | 0 <= x ensures !IsIntegerRoot(a, x) {
      var u, v := 1.0 + x as real, 4.0 - 3.0 * x as real;
      SourceAlphaAt(a, x as real);
      assert u > 0.0;
      assert v != 0.0 by {
        if x >= 2 {
          assert v <= -2.0;
        }
      }
      ProductNonzero(u, v);
    }
  }

  /** The operator is nonempty and q_0 ≠ 0, so step 1 succeeds with b = 0. */
  lemma IndicialOfP0()
    ensures IndicialOf(P0).Ok? && IndicialOf(P0).value.b == 0 && IndicialOf(P0).value.q == Q(P0)
  {
    QHasShape();
    DegreesOfQ(Q(P0));
    ExcessOfQ(Q(P0));
  }

  /** Every q_j of this shape is nonzero, so line 44 never takes lc of a
      zero polynomial and the source's b is that of the corrected steps. */
  lemma NoZeroQ(q: seq<RatPoly>)
    requires ShapeOfQ(q)
    ensures forall j :: 0 <= j < 3 ==> Nonzero(q[j])
  {
    assert View(q[0])[0] != 0.0 && View(q[1])[1] != 0.0 && View(q[2])[2] != 0.0;
  }

  lemma SourceIndicialFor(p: seq<RatPoly>)
    requires IndicialOf(p).Ok? && IndicialOf(p).value.b == 0 && IndicialOf(p).value.q == Q(p)
    requires ShapeOfQ(Q(p)) && |p| == 3
    ensures SourceIndicialOf(p).Ok? && SourceIndicialOf(p).value.b == 0
    ensures SourceIndicialOf(p).value.alpha == SourceAlpha(Q(p), 0, 3)
  {
    NoZeroQ(Q(p));
    SourceIndicialAgrees(p);
  }

  /** 4 has no fractional part to drop: int(4) = 4. */
  lemma TruncateFour(x: real)
    requires x == 4.0
    ensures Truncate(x) == 4
  {
  }

  /** With f = n, b = 0 and an alpha stored as 4 + n − 3n², lines 46–61
      take the maximum of deg f − b = 1, −b − 1 = −1 and the root d1 = −1
      that the search over the divisors of m finds. */
  lemma SourceBoundIsOneFor(f: RatPoly, alpha: RatPoly)
    requires View(f) == [0.0, 1.0] && Same(View(alpha), [4.0, 1.0, -3.0])
    ensures !IsZero(View(alpha)) && SourceBound(f, 0, alpha) == Ok(1)
  {
    var A := View(alpha);
    CoeffIndex([4.0, 1.0, -3.0], 2);
    CoeffIndex(A, 2);
    NonzeroWitness(A, 2);
    assert Degree(A) != 0;
    SourceAlphaAt(A, 0.0);
    TruncateFour(Eval(A, 0.0));
    var m := SourceM(alpha);
    assert m == DenominatorProduct(alpha) * 4;
    DivisorsShape(m);
    SourceAlphaRoots(A);
    var d1 := SourceRootBound(alpha);
    assert d1 == Ok(-1);
    CoeffIndex([0.0, 1.0], 1);
    NonzeroWitness(View(f), 1);
    assert SourceDegree(View(f)) == 1;
  }

  lemma SourceBoundFor(p: seq<RatPoly>, f: RatPoly)
    requires IndicialOf(p).Ok? && IndicialOf(p).value.b == 0 && IndicialOf(p).value.q == Q(p)
    requires ShapeOfQ(Q(p)) && |p| == 3 && View(f) == [0.0, 1.0]
    ensures SourceDegreeBoundOf(p, f) == Ok(1)
  {
    SourceIndicialFor(p);
    SourceAlphaOfQ(Q(p));
    SourceBoundIsOneFor(f, SourceAlpha(Q(p), 0, 3));
  }

  /** The as-written degree bound is d = max(1, −1, −1) = 1. */
  lemma SourceBoundIsOne()
    ensures SourceDegreeBoundOf(P0, F0) == Ok(1)
  {
    IndicialOfP0();
    QHasShape();
    ViewOfF0();
    SourceBoundFor(P0, F0);
  }

  // ---------------------------------------------------------------------
  // The falling-factorial alpha bounds the degree by 2, which admits n².

  /** With falling factorials, alpha(x) = 4 + x − 3x(x − 1) = (2 + 3x)(2 − x). */
  lemma FallingSumOfQ(q: seq<RatPoly>, x: real)
    requires ShapeOfQ(q)
    ensures FallingSum(q, 0, 3, x) == (2.0 + 3.0 * x) * (2.0 - x)
  {
    DegreesOfQ(q);
    ExcessOfQ(q);
    FallingNext(x, 1, x);
    FallingNext(x, 2, x - 1.0);
    var f1, f2 := Falling(x, 1), Falling(x, 2);
    assert f1 == x;
    assert FallingSumTerm(q, 0, 0, x) == 4.0;
    assert FallingSumTerm(q, 0, 1, x) == f1;
    assert FallingSumTerm(q, 0, 2, x) == -3.0 * f2;
    assert FallingSum(q, 0, 1, x) == 4.0;
    assert FallingSum(q, 0, 2, x) == 4.0 + f1;
    FactorAlpha(x, f1, f2);
  }

  lemma FactorAlpha(x: real, f1: real, f2: real)
    requires f1 == x && f2 == Product(f1, x - 1.0)
    ensures 4.0 + f1 + -3.0 * f2 == (2.0 + 3.0 * x) * (2.0 - x)
  {
  }

  /** The corrected alpha vanishes at 2 and at no larger integer. */
  lemma AlphaRoots(q: seq<RatPoly>)
    requires ShapeOfQ(q)
    ensures IsIntegerRoot(View(Alpha(q, 0, 3)), 2)
    ensures forall x: int :: IsIntegerRoot(View(Alpha(q, 0, 3)), x) ==> x <= 2
  {
    AlphaEval(q, 0, 3, 2.0);
    FallingSumOfQ(q, 2.0);
    forall x: int | 3 <= x ensures !IsIntegerRoot(View(Alpha(q, 0, 3)), x) {
      AlphaEval(q, 0, 3, x as real);
      FallingSumOfQ(q, x as real);
      ProductNonzero(2.0 + 3.0 * x as real, 2.0 - x as real);
    }
  }

  /** With f = n, b = 0 and an alpha whose integer roots are at most 2, with
      2 among them, the candidates for d are −1, 1 and 2. */
  lemma BoundIsTwo(f: RatPoly, alpha: RatPoly)
    requires View(f) == [0.0, 1.0] && !IsZero(View(alpha)) && IsIntegerRoot(View(alpha), 2)
    requires forall x: int :: IsIntegerRoot(View(alpha), x) ==> x <= 2
    ensures Bound(f, 0, alpha) == 2
  {
    CoeffIndex([0.0, 1.0], 1);
    NonzeroWitness(View(f), 1);
    assert Degree(View(f)) == 1;
  }

  lemma CorrectedBoundFor(p: seq<RatPoly>, f: RatPoly)
    requires IndicialOf(p).Ok? && IndicialOf(p).value.b == 0 && IndicialOf(p).value.q == Q(p)
    requires ShapeOfQ(Q(p)) && |p| == 3 && View(f) == [0.0, 1.0]
    ensures DegreeBoundOf(p, f) == Ok(2)
  {
    AlphaRoots(Q(p));
    BoundIsTwo(f, IndicialOf(p).value.alpha);
  }

  /** The falling-factorial alpha gives d = max(1, −1, 2) = 2. */
  lemma CorrectedBoundIsTwo()
    ensures DegreeBoundOf(P0, F0) == Ok(2)
  {
    IndicialOfP0();
    QHasShape();
    ViewOfF0();
    CorrectedBoundFor(P0, F0);
  }

  /** Line 44 admits only solutions of degree at most 1, yet n², of degree 2,
      solves L y = n. */
  lemma SourceBoundMissesSolution()
    ensures SourceDegreeBoundOf(P0, F0) == Ok(1)
    ensures Solves(Operator(P0), View(F0), [0.0, 0.0, 1.0])
    ensures !IsZero([0.0, 0.0, 1.0]) && Degree([0.0, 0.0, 1.0]) == 2
  {
    assert Degree([0.0, 0.0, 1.0]) == 2;
    SourceBoundIsOne();
    SquareSolves();
  }
}
