/** A worked operator on which lines 41–44 stop: the first difference
    L y = −y(n) + y(n + 1). Here q_0 = −1 + 1 = 0 and q_1 = 1, Sage gives the
    zero q_0 degree 0, so line 43 takes b = max(0 − 0, 0 − 1) = 0, attained
    by q_0, and line 44 asks for the leading coefficient of the zero
    polynomial. Yet L y = 1 has the polynomial solution y = n. */
module DifferenceExample {
  import opened Wrappers
  import opened Rationals
  import opened Polynomials
  import opened RatPolys
  import opened DegreeBound
  import opened LinearSystem
  import opened Solver
  import opened Shifts
  import opened Sums
  import PowerBasisExample

  const D0: seq<RatPoly> := [[Rat(-1, 1)], [Rat(1, 1)]]

  lemma ViewsOfD0()
    ensures View(D0[0]) == [-1.0] && View(D0[1]) == [1.0]
  {
  }

  /** The two sums of line 37 for a list [a, c] of constants. */
  lemma PartialQOfTwo(p: seq<RatPoly>, a: real, c: real)
    requires |p| == 2 && View(p[0]) == [a] && View(p[1]) == [c]
    ensures View(PartialQ(p, 0, 2)) == [a + c]
    ensures View(PartialQ(p, 1, 2)) == [c]
  {
    assert Binomial(0, 0) == 1 && Binomial(1, 0) == 1 && Binomial(1, 1) == 1;
    assert Scale(1.0, [a]) == [a] && Scale(1.0, [c]) == [c];
    assert View(PartialQ(p, 0, 0)) == [];
    assert View(PartialQ(p, 0, 1)) == Add([], [a]) == [a];
    assert View(PartialQ(p, 1, 1)) == [];
  }

  /** q_0 = p_0 + p_1 = 0 and q_1 = p_1 = 1. */
  lemma ViewsOfQ()
    ensures View(Q(D0)[0]) == [0.0] && View(Q(D0)[1]) == [1.0]
  {
    ViewsOfD0();
    PartialQOfTwo(D0, -1.0, 1.0);
    assert Q(D0)[0] == PartialQ(D0, 0, 2) && Q(D0)[1] == PartialQ(D0, 1, 2);
  }

  /** The excesses of line 43 for q = [0, 1]: 0 − 0 for the zero q_0 and
      0 − 1 for q_1. */
  lemma SourceExcessesOf(q: seq<RatPoly>)
    requires |q| == 2 && View(q[0]) == [0.0] && View(q[1]) == [1.0]
    ensures !Nonzero(q[0]) && Nonzero(q[1])
    ensures SourceMaxExcess(q, 2) == 0
    ensures MaxExcess(q, 2) == Some(-1)
  {
    assert View(q[1])[0] != 0.0;
    assert Degree(View(q[1])) == 0;
    assert SourceExcess(q, 0) == 0 && SourceExcess(q, 1) == -1;
  }

  /** The source stops in lc on line 44. */
  lemma SourceStopsInLead()
    ensures SourceIndicialOf(D0) == Err(LeadOfZero)
  {
    ViewsOfQ();
    SourceExcessesOf(Q(D0));
    assert ZeroAttains(Q(D0), 0, 2);
  }

  /** The corrected steps leave the zero q_0 out and find b = −1. */
  lemma IndicialSucceeds()
    ensures IndicialOf(D0).Ok? && IndicialOf(D0).value.b == -1
  {
    ViewsOfQ();
    SourceExcessesOf(Q(D0));
  }

  /** −n + (n + 1) = 1 for any list of operator polynomials −1, 1. */
  lemma CountingSolvesStored(ops: seq<Poly>)
    requires ops == [[-1.0], [1.0]]
    ensures Solves(ops, [1.0], [0.0, 1.0])
  {
    var y := [0.0, 1.0];
    assert Shift(y, 0) == y by {
      ShiftByZero(y);
      assert [1.0][1..] == [] && y[1..] == [1.0];
    }
    assert Shift(y, 1) == [1.0, 1.0] by {
      assert y[1..] == [1.0] && [1.0][1..] == [];
      assert Shift([1.0], 1) == [1.0];
      assert MulLinear(1.0, [1.0]) == [1.0, 1.0];
    }
    var t0, t1 := Mul([-1.0], y), Mul([1.0], [1.0, 1.0]);
    assert Scale(-1.0, y) == [0.0, -1.0];
    assert Scale(1.0, [1.0, 1.0]) == [1.0, 1.0];
    PowerBasisExample.Row3(-1.0, y, [0.0, -1.0]);
    PowerBasisExample.Row3(1.0, [1.0, 1.0], [1.0, 1.0]);
    var g := OperatorTerms(ops, y);
    assert g(0) == t0 && g(1) == t1;
    assert Sigma(1, g) == Add([], t0) == [0.0, -1.0];
    assert Apply(ops, y) == Add([0.0, -1.0], [1.0, 1.0]);
    assert Add([0.0, -1.0], [1.0, 1.0]) == [1.0, 0.0] by {
      assert [0.0, -1.0][1..] == [-1.0] && [1.0, 1.0][1..] == [1.0];
      assert Add([-1.0], [1.0]) == [0.0];
    }
    forall k: nat ensures Coeff([1.0, 0.0], k) == Coeff([1.0], k) {
      CoeffIndex([1.0, 0.0], k);
      CoeffIndex([1.0], k);
    }
  }

  /** y(n) = n solves y(n + 1) − y(n) = 1. */
  lemma CountingSolves()
    ensures Solves(Operator(D0), [1.0], [0.0, 1.0])
  {
    ViewsOfD0();
    CountingSolvesStored(Operator(D0));
  }

  /** Lines 41–44 stop on an operator for which the corrected steps find
      b = −1 and which has a polynomial solution. */
  lemma SourceStopsOnSolvable()
    ensures SourceIndicialOf(D0) == Err(LeadOfZero)
    ensures IndicialOf(D0).Ok? && IndicialOf(D0).value.b == -1
    ensures Solves(Operator(D0), [1.0], [0.0, 1.0]) && !IsZero([0.0, 1.0])
  {
    SourceStopsInLead();
    IndicialSucceeds();
    CountingSolves();
    assert [0.0, 1.0][1] != 0.0;
  }
}
