/** The degree bound d of lines 46–65: the largest of deg f − b, −b − 1
    and, when alpha is not constant, its largest integer root d1. */
module SolutionBound {
  import opened Wrappers
  import opened Rationals
  import opened Polynomials
  import opened RatPolys
  import opened DegreeBound
  import opened DivisorSearch

  function Max(x: int, y: int): int {
    if x < y then y else x
  }

  /** A nonzero constant has no root. */
  lemma ConstantHasNoRoot(p: Poly)
    requires !IsZero(p) && Degree(p) == 0
    ensures forall x: int :: !IsIntegerRoot(p, x)
  {
    LeadCoeffIsItselfIffConstant(p);
    var c := LeadCoeff(p);
    forall x: int ensures !IsIntegerRoot(p, x) {
      var X := x as real;
      EvalSame([c], p, X);
      assert [c][1..] == [];
      assert Eval([c], X) == c + X * 0.0;
    }
  }

  /** The terms of the bound that do not depend on alpha: −b − 1, and
      deg f − b when f is not zero. */
  function BaseBound(f: RatPoly, b: int): (d: int)
    ensures d >= -b - 1
    ensures !IsZero(View(f)) ==> d >= Degree(View(f)) - b
    ensures d == -b - 1 || (!IsZero(View(f)) && d == Degree(View(f)) - b)
  {
    if IsZero(View(f)) then -b - 1 else Max(Degree(View(f)) - b, -b - 1)
  }

  /** d for the right-hand side f, the excess b and the indicial polynomial
      alpha. The source tests `lc(alpha) == alpha`, which holds exactly when
      alpha is constant, and a nonzero constant has no root; so d is the
      largest of −b − 1, deg f − b and the integer roots of alpha. */
  function Bound(f: RatPoly, b: int, alpha: RatPoly): (d: int)
    requires !IsZero(View(alpha))
    ensures d >= -b - 1
    ensures !IsZero(View(f)) ==> d >= Degree(View(f)) - b
    ensures forall x: int :: IsIntegerRoot(View(alpha), x) ==> x <= d
    ensures d == -b - 1 || (!IsZero(View(f)) && d == Degree(View(f)) - b) || IsIntegerRoot(View(alpha), d)
  {
    var base := BaseBound(f, b);
    if Degree(View(alpha)) == 0 then
      ConstantHasNoRoot(View(alpha));
      base
    else
      match IntegerRootBound(alpha)
      case None => base
      case Some(d1) => Max(base, d1)
  }

  /** d as lines 46–61 compute it: Sage's degree 0 for a zero f, and d1 from
      the root search of lines 52–59 as written, which may fail. The result
      is the largest of −b − 1, deg f − b and, when alpha is not constant,
      d1. */
  function SourceBound(f: RatPoly, b: int, alpha: RatPoly): (d: Result<int, Failure>)
    requires !IsZero(View(alpha))
    ensures d.Err? <==> Degree(View(alpha)) != 0 && SourceRootBound(alpha).Err?
    ensures d.Err? ==> d.error == NoIntegerRoot
    ensures d.Ok? ==> d.value >= -b - 1 && d.value >= SourceDegree(View(f)) - b
    ensures d.Ok? && Degree(View(alpha)) != 0 ==> d.value >= SourceRootBound(alpha).value
    ensures d.Ok? ==>
      || d.value == -b - 1
      || d.value == SourceDegree(View(f)) - b
      || (Degree(View(alpha)) != 0 && d.value == SourceRootBound(alpha).value)
    ensures d.Ok? && Degree(View(alpha)) != 0 && Truncate(Eval(View(alpha), 0.0)) != 0 ==>
      forall x :: x in Divisors(SourceM(alpha)) && IsIntegerRoot(View(alpha), x) ==> x <= d.value
  {
    var base := Max(SourceDegree(View(f)) - b, -b - 1);
    if Degree(View(alpha)) == 0 then Ok(base)
    else
      match SourceRootBound(alpha)
      case Err(e) => Err(e)
      case Ok(d1) => Ok(Max(base, d1))
  }
}
