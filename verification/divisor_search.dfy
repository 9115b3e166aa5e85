/** The search for the largest integer root d1 of the indicial polynomial
    (algorith_poly-cornelis.py, lines 52–59): clear the denominators of the
    constant term, list every divisor of the result, and keep the largest
    divisor at which alpha vanishes. */
module DivisorSearch {
  import opened Wrappers
  import opened Rationals
  import opened Polynomials
  import opened RatPolys
  import opened DegreeBound

  // ---------------------------------------------------------------------
  // The constant coefficient.

  /** The constant coefficient of alpha as an exact rational. */
  function ConstantTerm(a: RatPoly): (c: Rat)
    ensures Value(c) == Eval(View(a), 0.0)
  {
    if |a| == 0 then RatZero else a[0]
  }

  // ---------------------------------------------------------------------
  // Clearing denominators.

  lemma DenominatorOfZero(q: Rat)
    requires q.num == 0
    ensures Denominator(q) == 1
  {
    assert Gcd(0, q.den) == Gcd(q.den, 0) == q.den;
  }

  lemma MultipleOfMultiple(x: int, y: int, g: int)
    requires g > 0 && y % g == 0
    ensures (x * y) % g == 0
  {
    var u := y / g;
    assert y == u * g;
    assert x * y == (x * u) * g;
    MultipleMod(x * u, g);
  }

  /** D clears the denominator of every coefficient of a. */
  predicate Clears(D: int, a: RatPoly) {
    |a| == 0 || (D % Denominator(a[0]) == 0 && Clears(D, a[1..]))
  }

  /** What clears every denominator still does so when multiplied. */
  lemma {:induction false} ClearsMultiple(x: int, D: int, a: RatPoly)
    requires Clears(D, a)
    ensures Clears(x * D, a)
  {
    if |a| != 0 {
      MultipleOfMultiple(x, D, Denominator(a[0]));
      ClearsMultiple(x, D, a[1..]);
    }
  }

  /** The product of the denominators of the nonzero coefficients (line 57);
      it clears the denominator of every coefficient. */
  function DenominatorProduct(a: RatPoly): (D: Positive)
    ensures Clears(D, a)
  {
    if |a| == 0 then 1
    else
      var rest := DenominatorProduct(a[1..]);
      var d := if a[0].num == 0 then 1 else Denominator(a[0]);
      assert d * rest > 0;
      assert (d * rest) % Denominator(a[0]) == 0 by {
        if a[0].num == 0 {
          DenominatorOfZero(a[0]);
        }
        MultipleMod(rest, d);
      }
      ClearsMultiple(d, rest, a[1..]);
      d * rest
  }

  /** Each integer coefficient of A is D times the matching one of a. */
  predicate ScaledBy(D: real, A: seq<int>, a: RatPoly) {
    |A| == |a| && (|A| == 0 || (A[0] as real == D * Value(a[0]) && ScaledBy(D, A[1..], a[1..])))
  }

  /** D times each coefficient, each an integer. */
  function Cleared(D: int, a: RatPoly): (A: seq<int>)
    requires Clears(D, a)
    ensures ScaledBy(D as real, A, a)
  {
    if |a| == 0 then []
    else
      var rest := Cleared(D, a[1..]);
      var A := [ClearedBy(D, a[0])] + rest;
      assert A[1..] == rest;
      A
  }

  /** Value of an integer polynomial at an integer. */
  function IntEval(A: seq<int>, x: int): int {
    if |A| == 0 then 0 else A[0] + x * IntEval(A[1..], x)
  }

  /** One Horner step, on plain numbers: if A0 = D·a0 and T = D·e, then
      A0 + x·T = D·(a0 + x·e). */
  lemma ClearStep(D: real, a0: real, x: int, e: real, A0: int, T: int, lhs: int, rhs: real)
    requires A0 as real == D * a0 && T as real == D * e
    requires lhs == A0 + x * T && rhs == a0 + x as real * e
    ensures lhs as real == D * rhs
  {
    var X := x as real;
    assert lhs as real == A0 as real + X * T as real;
    calc {
      A0 as real + X * T as real;
      D * a0 + X * (D * e);
      { assert X * (D * e) == D * (X * e); }
      D * a0 + D * (X * e);
      D * (a0 + X * e);
    }
  }

  lemma EvalViewStep(a: RatPoly, X: real)
    requires |a| != 0
    ensures Eval(View(a), X) == Value(a[0]) + X * Eval(View(a[1..]), X)
  {
    assert View(a)[1..] == View(a[1..]);
  }

  /** An integer polynomial that is D times a rational one has D times its
      value at every integer. */
  lemma {:induction false} ScaledEval(D: real, A: seq<int>, a: RatPoly, x: int)
    requires ScaledBy(D, A, a)
    ensures IntEval(A, x) as real == D * Eval(View(a), x as real)
  {
    if |A| != 0 {
      ScaledEval(D, A[1..], a[1..], x);
      EvalViewStep(a, x as real);
      ClearStep(D, Value(a[0]), x, Eval(View(a[1..]), x as real), A[0], IntEval(A[1..], x),
                IntEval(A, x), Eval(View(a), x as real));
    }
  }

  /** An integer root of the rational polynomial is one of any integer
      multiple of it. */
  lemma ScaledRoot(D: real, A: seq<int>, a: RatPoly, x: int)
    requires ScaledBy(D, A, a) && IsIntegerRoot(View(a), x)
    ensures IntEval(A, x) == 0
  {
    ScaledEval(D, A, a, x);
    TimesZeroRight(D, Eval(View(a), x as real));
  }

  /** j divides m, as line 58 tests it: j is not 0 and |m| % |j| == 0. */
  predicate Divides(j: int, m: int) {
    j != 0 && Abs(m) % Abs(j) == 0
  }

  lemma AbsOfProduct(x: int, t: int)
    ensures Abs(x * t) == Abs(x) * Abs(t)
  {
  }

  /** An integer that is x times another is divisible by x. */
  lemma DividesProduct(a: int, x: int, t: int)
    requires x != 0 && a == x * t
    ensures Divides(x, a)
  {
    AbsOfProduct(x, t);
    assert Abs(a) == Abs(t) * Abs(x);
    MultipleMod(Abs(t), Abs(x));
  }

  /** The cleared first coefficient is D times the value at 0. */
  lemma ClearedHeadValue(D: int, a: RatPoly)
    requires |a| != 0 && D % Denominator(a[0]) == 0
    ensures ClearedBy(D, a[0]) as real == D as real * Eval(View(a), 0.0)
  {
    EvalViewStep(a, 0.0);
    assert 0.0 * Eval(View(a[1..]), 0.0) == 0.0;
  }

  /** The bound of line 57: the product of the denominators times the
      exact constant term, an integer. */
  function ClearedConstant(a: RatPoly): (m: int)
    ensures m as real == DenominatorProduct(a) as real * Eval(View(a), 0.0)
  {
    var D := DenominatorProduct(a);
    if |a| == 0 then
      TimesZeroRight(D as real, Eval(View(a), 0.0));
      0
    else
      ClearedHeadValue(D, a);
      ClearedBy(D, a[0])
  }

  /** A nonzero integer root of an integer polynomial divides its constant
      coefficient. */
  lemma IntRootDividesConstant(A: seq<int>, x: int)
    requires |A| != 0 && x != 0 && IntEval(A, x) == 0
    ensures Divides(x, A[0])
  {
    var T := IntEval(A[1..], x);
    assert A[0] == x * (-T);
    DividesProduct(A[0], x, -T);
  }

  /** A nonzero integer root of a rational polynomial divides the first
      coefficient of the integer polynomial obtained by clearing its
      denominators. */
  lemma RootDividesCleared(D: int, a: RatPoly, x: int)
    requires Clears(D, a)
    requires |a| != 0 && x != 0 && IsIntegerRoot(View(a), x)
    ensures Divides(x, ClearedBy(D, a[0]))
  {
    var A := Cleared(D, a);
    ScaledRoot(D as real, A, a, x);
    IntRootDividesConstant(A, x);
    assert A[0] == ClearedBy(D, a[0]);
  }

  /** Every nonzero integer root of alpha divides the cleared constant term
      (the rational root theorem, for the numerator). */
  lemma RootDividesClearedConstant(a: RatPoly, x: int)
    requires x != 0 && IsIntegerRoot(View(a), x)
    ensures Divides(x, ClearedConstant(a))
  {
    if |a| != 0 {
      RootDividesCleared(DenominatorProduct(a), a, x);
    } else {
      MultipleMod(0, Abs(x));
    }
  }

  // ---------------------------------------------------------------------
  // The divisor list and the root search.

  /** x is an integer at which the polynomial vanishes. */
  predicate IsIntegerRoot(a: Poly, x: int) {
    Eval(a, x as real) == 0.0
  }

  /** [j for j in range(lo, |m| + 1) if j divides m]. */
  function DivisorsFrom(m: int, lo: int): (ds: seq<int>)
    ensures forall x :: x in ds <==> lo <= x <= Abs(m) && Divides(x, m)
    decreases Abs(m) + 1 - lo
  {
    if lo > Abs(m) then []
    else
      var rest := DivisorsFrom(m, lo + 1);
      var head := if Divides(lo, m) then [lo] else [];
      head + rest
  }

  /** The candidate list m_divisors of line 58: exactly the nonzero j with
      |j| <= |m| dividing m. */
  function Divisors(m: int): (ds: seq<int>)
    ensures forall x :: x in ds <==> -(Abs(m) as int) <= x <= Abs(m) && Divides(x, m)
  {
    DivisorsFrom(m, -(Abs(m) as int))
  }

  /** The candidate list is closed under negation and holds ±1 and ±m. */
  lemma DivisorsShape(m: int)
    requires m != 0
    ensures forall x :: x in Divisors(m) <==> -x in Divisors(m)
    ensures 1 in Divisors(m) && -1 in Divisors(m)
    ensures m in Divisors(m) && -m in Divisors(m)
  {
    assert Divides(m, m) by {
      MultipleMod(1, Abs(m));
    }
  }

  /** The largest candidate at which the polynomial vanishes (line 59);
      none when no candidate is a root, where the source's `max` fails. */
  function LargestRoot(a: Poly, candidates: seq<int>): (r: Option<int>)
    ensures r.None? <==> forall x :: x in candidates ==> !IsIntegerRoot(a, x)
    ensures r.Some? ==> r.value in candidates && IsIntegerRoot(a, r.value)
    ensures r.Some? ==> forall x :: x in candidates && IsIntegerRoot(a, x) ==> x <= r.value
  {
    if |candidates| == 0 then None
    else
      var rest := LargestRoot(a, candidates[1..]);
      var x := candidates[0];
      assert forall y :: y in candidates <==> y == x || y in candidates[1..];
      if IsIntegerRoot(a, x) && (rest.None? || rest.value < x) then Some(x) else rest
  }

  lemma ProductNonzero(D: real, c: real)
    requires D > 0.0 && c != 0.0
    ensures D * c != 0.0
  {
  }

  /** A nonzero integer root dividing a nonzero m is a candidate. */
  lemma DivisorIsCandidate(m: int, x: int)
    requires m != 0 && Divides(x, m)
    ensures x in Divisors(m)
  {
  }

  /** Every integer root of alpha is a candidate when the constant term is
      not zero. */
  lemma RootsAreCandidates(a: RatPoly)
    requires Eval(View(a), 0.0) != 0.0
    ensures ClearedConstant(a) != 0
    ensures forall x :: IsIntegerRoot(View(a), x) ==> x in Divisors(ClearedConstant(a))
  {
    var m := ClearedConstant(a);
    ProductNonzero(DenominatorProduct(a) as real, Eval(View(a), 0.0));
    forall x | IsIntegerRoot(View(a), x) ensures x in Divisors(m) {
      assert x != 0;
      RootDividesClearedConstant(a, x);
      DivisorIsCandidate(m, x);
    }
  }

  // ---------------------------------------------------------------------
  // d1 as the source computes it.

  /** m of line 57: the product of the denominators times the truncated
      constant term. */
  function SourceM(a: RatPoly): (m: int)
    ensures m == 0 <==> Truncate(Eval(View(a), 0.0)) == 0
  {
    DenominatorProduct(a) * Truncate(Value(ConstantTerm(a)))
  }

  /** d1 exactly as lines 52–59 compute it: 0 when the truncated constant
      term is 0, otherwise the largest divisor of m at which alpha vanishes,
      failing when there is none. */
  function SourceRootBound(a: RatPoly): (d1: Result<int, Failure>)
    ensures Truncate(Eval(View(a), 0.0)) == 0 ==> d1 == Ok(0)
    ensures d1.Err? ==> d1.error == NoIntegerRoot
    ensures d1.Err? ==> forall x :: x in Divisors(SourceM(a)) ==> !IsIntegerRoot(View(a), x)
    ensures d1.Ok? && Truncate(Eval(View(a), 0.0)) != 0 ==>
      d1.value in Divisors(SourceM(a)) && IsIntegerRoot(View(a), d1.value)
    ensures d1.Ok? && Truncate(Eval(View(a), 0.0)) != 0 ==>
      forall x :: x in Divisors(SourceM(a)) && IsIntegerRoot(View(a), x) ==> x <= d1.value
    ensures Truncate(Eval(View(a), 0.0)) != 0 && (forall x :: x in Divisors(SourceM(a)) ==> !IsIntegerRoot(View(a), x)) ==>
      d1.Err?
  {
    var c := Truncate(Value(ConstantTerm(a)));
    if c == 0 then Ok(0)
    else
      match LargestRoot(View(a), Divisors(SourceM(a)))
      case None => Err(NoIntegerRoot)
      case Some(x) => Ok(x)
  }

  // ---------------------------------------------------------------------
  // d1 as the comment of line 46 describes it: the largest integer root.

  lemma RootOfShifted(a: RatPoly, x: int)
    requires |a| != 0 && a[0].num == 0 && x != 0
    ensures IsIntegerRoot(View(a), x) <==> IsIntegerRoot(View(a[1..]), x)
  {
    var X := x as real;
    var E := Eval(View(a[1..]), X);
    assert View(a)[1..] == View(a[1..]);
    assert Eval(View(a), X) == X * E;
    if X * E == 0.0 {
      assert E == 0.0;
    }
  }

  /** alpha with its vanishing low coefficients removed (alpha = n^k beta):
      the same nonzero roots and a nonzero constant term. */
  function StripLow(a: RatPoly): (s: RatPoly)
    requires !IsZero(View(a))
    ensures Eval(View(s), 0.0) != 0.0
    ensures forall x: int :: x != 0 ==> (IsIntegerRoot(View(a), x) <==> IsIntegerRoot(View(s), x))
  {
    if a[0].num != 0 then
      assert Value(ConstantTerm(a)) != 0.0;
      a
    else
      assert !IsZero(View(a[1..])) by {
        var k :| 0 <= k < |a| && View(a)[k] != 0.0;
        assert View(a[1..])[k - 1] == View(a)[k];
      }
      forall x: int | x != 0 ensures IsIntegerRoot(View(a), x) <==> IsIntegerRoot(View(a[1..]), x) {
        RootOfShifted(a, x);
      }
      StripLow(a[1..])
  }

  /** r is the largest integer root of A, and is none when A has no
      integer root. */
  ghost predicate IsLargestRoot(A: Poly, r: Option<int>) {
    && (r.None? <==> forall x: int :: !IsIntegerRoot(A, x))
    && (r.Some? ==> IsIntegerRoot(A, r.value))
    && (r.Some? ==> forall x: int :: IsIntegerRoot(A, x) ==> x <= r.value)
  }

  /** For a polynomial whose constant term is not zero, the search of lines
      57–59 over the divisors of the cleared constant term finds its largest
      integer root. */
  lemma SearchFindsLargestRoot(s: RatPoly)
    requires Eval(View(s), 0.0) != 0.0
    ensures IsLargestRoot(View(s), LargestRoot(View(s), Divisors(ClearedConstant(s))))
  {
    RootsAreCandidates(s);
  }

  /** Combining the root 0 of alpha (when its constant term vanishes) with
      the largest root of the stripped polynomial. */
  lemma CombinedRoots(A: Poly, S: Poly, r: Option<int>, d1: Option<int>)
    requires !IsIntegerRoot(S, 0)
    requires forall x: int :: x != 0 ==> (IsIntegerRoot(A, x) <==> IsIntegerRoot(S, x))
    requires IsLargestRoot(S, r)
    requires d1 == if !IsIntegerRoot(A, 0) then r else if r.Some? && r.value > 0 then r else Some(0)
    ensures IsLargestRoot(A, d1)
  {
    if r.Some? {
      assert r.value != 0;
    }
  }

  /** The largest integer root of a nonzero alpha, if it has one: 0 is a
      root when the constant term vanishes, and every other root divides
      the cleared constant term of the stripped polynomial. */
  function IntegerRootBound(a: RatPoly): (d1: Option<int>)
    requires !IsZero(View(a))
    ensures IsLargestRoot(View(a), d1)
  {
    var s := StripLow(a);
    var r := LargestRoot(View(s), Divisors(ClearedConstant(s)));
    SearchFindsLargestRoot(s);
    var d1 := if !IsIntegerRoot(View(a), 0) then r else if r.Some? && r.value > 0 then r else Some(0);
    CombinedRoots(View(a), View(s), r, d1);
    d1
  }

  /** A root at least as large as every root is the value of the bound. */
  lemma RootBoundIs(a: RatPoly, x: int)
    requires !IsZero(View(a)) && IsIntegerRoot(View(a), x)
    requires forall y: int :: IsIntegerRoot(View(a), y) ==> y <= x
    ensures IntegerRootBound(a) == Some(x)
  {
    var d1 := IntegerRootBound(a);
    assert d1.Some?;
    assert d1.value <= x && x <= d1.value;
  }

  // ---------------------------------------------------------------------
  // Where the two differ.

  lemma HalvesView()
    ensures View([Rat(-3, 2), Rat(1, 2)]) == [-1.5, 0.5]
  {
  }

  lemma HalvesDenominators()
    ensures DenominatorProduct([Rat(-3, 2), Rat(1, 2)]) == 4
  {
    var a := [Rat(-3, 2), Rat(1, 2)];
    assert Gcd(3, 2) == 1 && Gcd(1, 2) == 1;
    assert Denominator(a[0]) == 2 && Denominator(a[1]) == 2;
    assert a[1..][1..] == [];
  }

  lemma HalvesSourceM()
    ensures SourceM([Rat(-3, 2), Rat(1, 2)]) == -4
  {
    HalvesDenominators();
    HalvesView();
    assert Truncate(-1.5) == -1;
  }

  lemma HalvesRoots(x: int)
    ensures IsIntegerRoot(View([Rat(-3, 2), Rat(1, 2)]), x) <==> x == 3
  {
    HalvesView();
    EvalLinear(-1.5, 0.5, x as real);
  }

  /** With alpha = n/2 − 3/2 the truncated constant is −1, so m = −4 and no
      divisor of m is a root, although 3 is. */
  lemma TruncationMissesRoot()
    ensures SourceRootBound([Rat(-3, 2), Rat(1, 2)]) == Err(NoIntegerRoot)
    ensures IntegerRootBound([Rat(-3, 2), Rat(1, 2)]) == Some(3)
  {
    var a := [Rat(-3, 2), Rat(1, 2)];
    HalvesSourceM();
    HalvesView();
    assert Truncate(Eval(View(a), 0.0)) == -1 by {
      EvalLinear(-1.5, 0.5, 0.0);
    }
    forall x | x in Divisors(-4) ensures !IsIntegerRoot(View(a), x) {
      HalvesRoots(x);
    }
    forall x: int | IsIntegerRoot(View(a), x) ensures x <= 3 {
      HalvesRoots(x);
    }
    HalvesRoots(3);
    assert View(a)[1] != 0.0;
    RootBoundIs(a, 3);
  }

  lemma CancelFactor(x: real, y: real)
    requires x * y == 0.0 && x != 0.0
    ensures y == 0.0
  {
  }

  lemma QuadraticRoots(x: int)
    ensures IsIntegerRoot(View([Rat(0, 1), Rat(-3, 1), Rat(1, 1)]), x) <==> x == 0 || x == 3
  {
    var X := x as real;
    assert View([Rat(0, 1), Rat(-3, 1), Rat(1, 1)]) == [0.0, -3.0, 1.0];
    EvalQuadratic(0.0, -3.0, 1.0, X);
    assert X * (-3.0 + X * 1.0) == X * (X - 3.0);
    if X * (X - 3.0) == 0.0 && X != 0.0 {
      CancelFactor(X, X - 3.0);
    }
  }

  /** With alpha = n^2 − 3n the constant term is 0, so the source takes
      d1 = 0, although 3 is a root. */
  lemma ZeroConstantMissesRoot()
    ensures View([Rat(0, 1), Rat(-3, 1), Rat(1, 1)])[1] == -3.0
    ensures SourceRootBound([Rat(0, 1), Rat(-3, 1), Rat(1, 1)]) == Ok(0)
    ensures IntegerRootBound([Rat(0, 1), Rat(-3, 1), Rat(1, 1)]) == Some(3)
  {
    var a := [Rat(0, 1), Rat(-3, 1), Rat(1, 1)];
    assert View(a) == [0.0, -3.0, 1.0];
    assert Truncate(Eval(View(a), 0.0)) == 0 by {
      EvalQuadratic(0.0, -3.0, 1.0, 0.0);
    }
    forall x: int | IsIntegerRoot(View(a), x) ensures x <= 3 {
      QuadraticRoots(x);
    }
    QuadraticRoots(3);
    assert View(a)[1] != 0.0;
    RootBoundIs(a, 3);
  }

  lemma OddRoots(x: int)
    ensures !IsIntegerRoot(View([Rat(1, 1), Rat(2, 1)]), x)
  {
    assert View([Rat(1, 1), Rat(2, 1)]) == [1.0, 2.0];
    EvalLinear(1.0, 2.0, x as real);
  }

  lemma OddSourceM()
    ensures SourceM([Rat(1, 1), Rat(2, 1)]) == 1
  {
    var a := [Rat(1, 1), Rat(2, 1)];
    assert Gcd(1, 1) == 1 && Gcd(2, 1) == 1;
    assert Denominator(a[0]) == 1 && Denominator(a[1]) == 1;
    assert a[1..][1..] == [];
    assert DenominatorProduct(a) == 1;
    assert Value(ConstantTerm(a)) == 1.0;
  }

  /** With alpha = 2n + 1 no divisor of m = 1 is a root and the source's
      maximum of an empty list fails; alpha has no integer root at all. */
  lemma NoRootFails()
    ensures SourceRootBound([Rat(1, 1), Rat(2, 1)]) == Err(NoIntegerRoot)
    ensures IntegerRootBound([Rat(1, 1), Rat(2, 1)]) == None
  {
    var a := [Rat(1, 1), Rat(2, 1)];
    forall x: int ensures !IsIntegerRoot(View(a), x) {
      OddRoots(x);
    }
    OddSourceM();
    assert View(a)[0] != 0.0;
  }
}
