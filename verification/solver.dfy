/** The function Poly(p, f) of algorith_poly-cornelis.py (lines 22–79), up to
    the hand-off to Sage's linear solver: the degree bound d and, when it is
    not negative, the system of linear equations whose solutions are exactly
    the polynomial solutions of degree at most d. */
module Solver {
  import opened Wrappers
  import opened Polynomials
  import opened RatPolys
  import opened DegreeBound
  import opened DivisorSearch
  import opened SolutionBound
  import opened LinearSystem

  /** What the solver hands on: either the early answer of line 65, or the
      degree bound d together with the equations of line 79. */
  datatype Outcome =
    | NoPolynomialSolutions
    | System(d: nat, equations: seq<LinearForm>)

  /** The operator coefficients p_0..p_r read as polynomials over the reals. */
  function Operator(p: seq<RatPoly>): (ops: seq<Poly>)
    ensures |ops| == |p|
    ensures forall i :: 0 <= i < |p| ==> ops[i] == View(p[i])
  {
    seq(|p|, i requires 0 <= i < |p| => View(p[i]))
  }

  /** The degree bound of lines 41–61 for the operator p and right-hand side f. */
  function DegreeBoundOf(p: seq<RatPoly>, f: RatPoly): (d: Result<int, Failure>)
    ensures d.Err? <==> IndicialOf(p).Err?
    ensures d.Err? ==> d.error == IndicialOf(p).error
    ensures d.Ok? ==> d.value >= -IndicialOf(p).value.b - 1
    ensures d.Ok? && !IsZero(View(f)) ==> d.value >= Degree(View(f)) - IndicialOf(p).value.b
    ensures d.Ok? ==> forall x: int :: IsIntegerRoot(View(IndicialOf(p).value.alpha), x) ==> x <= d.value
    ensures d.Ok? ==>
      || d.value == -IndicialOf(p).value.b - 1
      || (!IsZero(View(f)) && d.value == Degree(View(f)) - IndicialOf(p).value.b)
      || IsIntegerRoot(View(IndicialOf(p).value.alpha), d.value)
  {
    match IndicialOf(p)
    case Err(e) => Err(e)
    case Ok(ind) => Ok(Bound(f, ind.b, ind.alpha))
  }

  /** The degree bound as lines 37–61 compute it: b counts a zero q_j with
      Sage's degree 0, alpha is that of line 44 (plain powers n^j in place
      of falling factorials), and d1 comes from the root search of lines
      52–59 as written. */
  function SourceDegreeBoundOf(p: seq<RatPoly>, f: RatPoly): (d: Result<int, Failure>)
    ensures SourceIndicialOf(p).Err? ==> d == Err(SourceIndicialOf(p).error)
    ensures SourceIndicialOf(p).Ok? ==>
      var ind := SourceIndicialOf(p).value;
      (d.Err? <==> Degree(View(ind.alpha)) != 0 && SourceRootBound(ind.alpha).Err?)
    ensures d.Err? && SourceIndicialOf(p).Ok? ==> d.error == NoIntegerRoot
    ensures d.Ok? ==> SourceIndicialOf(p).Ok?
    ensures d.Ok? ==>
      var ind := SourceIndicialOf(p).value;
      d.value >= -ind.b - 1 && d.value >= SourceDegree(View(f)) - ind.b
    ensures d.Ok? ==>
      var ind := SourceIndicialOf(p).value;
      Degree(View(ind.alpha)) != 0 ==> d.value >= SourceRootBound(ind.alpha).value
    ensures d.Ok? ==>
      var ind := SourceIndicialOf(p).value;
      || d.value == -ind.b - 1
      || d.value == SourceDegree(View(f)) - ind.b
      || (Degree(View(ind.alpha)) != 0 && d.value == SourceRootBound(ind.alpha).value)
  {
    match SourceIndicialOf(p)
    case Err(e) => Err(e)
    case Ok(ind) => SourceBound(f, ind.b, ind.alpha)
  }

  /** The equations are satisfied exactly by the solutions, for every
      valuation of the unknowns. */
  lemma EquationsAreExact(p: seq<Poly>, f: Poly, d: nat)
    ensures forall a: seq<real> :: |a| == d + 1 ==> (Satisfies(Equations(p, f, d), a) <==> Solves(p, f, a))
  {
    forall a: seq<real> | |a| == d + 1 ensures Satisfies(Equations(p, f, d), a) <==> Solves(p, f, a) {
      SatisfiesIffSolves(p, f, d, a);
    }
  }

  /** Steps 1 to 3: fail on an empty or zero operator; answer that there are
      no polynomial solutions when d < 0 (lines 63–65); otherwise set up the
      equations for the generic y of degree d (lines 67–79), which
      EquationsAreExact shows are satisfied exactly by the solutions. */
  function Prepare(p: seq<RatPoly>, f: RatPoly): (r: Result<Outcome, Failure>)
    ensures r == Err(EmptyOperator) <==> |p| == 0
    ensures r == Err(ZeroOperator) <==> |p| != 0 && forall j :: 0 <= j < |p| ==> !Nonzero(Q(p)[j])
    ensures r.Err? ==> r.error != NoIntegerRoot
    ensures r == Ok(NoPolynomialSolutions) <==> DegreeBoundOf(p, f).Ok? && DegreeBoundOf(p, f).value < 0
    ensures r.Ok? && r.value.System? ==> DegreeBoundOf(p, f) == Ok(r.value.d as int)
    ensures r.Ok? && r.value.System? ==> r.value.equations == Equations(Operator(p), View(f), r.value.d)
  {
    match DegreeBoundOf(p, f)
    case Err(e) => Err(e)
    case Ok(d) =>
      if d < 0 then Ok(NoPolynomialSolutions)
      else
        Ok(System(d, Equations(Operator(p), View(f), d)))
  }
}
