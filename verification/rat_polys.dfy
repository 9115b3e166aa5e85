/** Polynomials with exact rational coefficients, as the recurrence's
    inputs p_0..p_r and f are given. `View` reads one as a polynomial over
    the reals; all algebra is done on that view except where a denominator
    has to be read off a coefficient. */
module RatPolys {
  import opened Rationals
  import opened Polynomials

  type RatPoly = seq<Rat>

  const RatZero := Rat(0, 1)

  /** The polynomial a sequence of rationals denotes. */
  function View(p: RatPoly): (r: Poly)
    ensures |r| == |p|
  {
    if |p| == 0 then [] else [Value(p[0])] + View(p[1..])
  }

  /** Each coefficient of the view is the value of the matching entry. */
  lemma {:induction false} ViewIndex(p: RatPoly, k: int)
    requires 0 <= k < |p|
    ensures View(p)[k] == Value(p[k])
  {
    if k != 0 {
      ViewIndex(p[1..], k - 1);
    }
  }

  /** Coefficientwise sum. */
  function Sum(a: RatPoly, b: RatPoly): (r: RatPoly)
    ensures View(r) == Add(View(a), View(b))
  {
    if |a| == 0 then b
    else if |b| == 0 then a
    else
      var t := Sum(a[1..], b[1..]);
      var r := [Plus(a[0], b[0])] + t;
      HeadTailEqual(View(r), Add(View(a), View(b)));
      r
  }

  /** Integer multiple. */
  function Multiple(k: int, a: RatPoly): (r: RatPoly)
    ensures View(r) == Scale(k as real, View(a))
  {
    if |a| == 0 then []
    else
      var r := [Times(k, a[0])] + Multiple(k, a[1..]);
      HeadTailEqual(View(r), Scale(k as real, View(a)));
      r
  }

  /** c * n^j. */
  function MonomialTimes(c: Rat, j: nat): (r: RatPoly)
    ensures |r| == j + 1 && r[j] == c
    ensures forall k :: 0 <= k < j ==> r[k] == RatZero
  {
    seq(j, _ => RatZero) + [c]
  }

  /** The entry at the degree of the view: the leading coefficient, kept as
      an exact rational so that its denominator can be read. */
  function Lead(p: RatPoly): (c: Rat)
    requires !IsZero(View(p))
    ensures Value(c) == LeadCoeff(View(p))
  {
    ViewIndex(p, Degree(View(p)));
    p[Degree(View(p))]
  }
}
