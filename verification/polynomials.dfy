/** Univariate polynomials in the recurrence variable n with exact (rational)
    coefficients, as coefficient sequences: p[k] is the coefficient of n^k.
    A sequence may carry trailing zeros; two sequences denote the same
    polynomial when their coefficients agree everywhere (`Same`). */
module Polynomials {

  type Poly = seq<real>

  /** Coefficient of n^k; zero beyond the stored sequence. */
  function Coeff(p: Poly, k: nat): real
  {
    if |p| == 0 then 0.0 else if k == 0 then p[0] else Coeff(p[1..], k - 1)
  }

  /** Equality of polynomials: the same coefficient for every power of n. */
  ghost predicate Same(a: Poly, b: Poly) {
    forall k: nat :: Coeff(a, k) == Coeff(b, k)
  }

  /** The zero polynomial (every stored coefficient is 0). */
  predicate IsZero(p: Poly) {
    forall k :: 0 <= k < |p| ==> p[k] == 0.0
  }

  /** Every coefficient above n^e is zero; for negative e the polynomial is zero. */
  ghost predicate VanishesAbove(p: Poly, e: int) {
    forall k: nat :: e < k ==> Coeff(p, k) == 0.0
  }

  /** The stored entries are the coefficients. */
  lemma CoeffIndex(p: Poly, k: nat)
    ensures Coeff(p, k) == if k < |p| then p[k] else 0.0
  {
    if |p| != 0 && k != 0 {
      CoeffIndex(p[1..], k - 1);
    }
  }

  lemma SameSymmetric(a: Poly, b: Poly)
    requires Same(a, b)
    ensures Same(b, a)
  {
  }

  lemma SameTransitive(a: Poly, b: Poly, c: Poly)
    requires Same(a, b) && Same(b, c)
    ensures Same(a, c)
  {
  }

  /** Two sequences of equal length denoting the same polynomial are equal. */
  lemma SameLengthSameIsEqual(a: Poly, b: Poly)
    requires |a| == |b| && Same(a, b)
    ensures a == b
  {
    forall k | 0 <= k < |a|
      ensures a[k] == b[k]
    {
      CoeffIndex(a, k);
      CoeffIndex(b, k);
    }
  }

  /** `IsZero` is exactly sameness with the empty sequence. */
  lemma ZeroIsSameAsEmpty(p: Poly)
    ensures IsZero(p) <==> Same(p, [])
  {
    if IsZero(p) {
      forall k: nat ensures Coeff(p, k) == 0.0 {
        CoeffIndex(p, k);
      }
    } else {
      var k :| 0 <= k < |p| && p[k] != 0.0;
      CoeffIndex(p, k);
    }
  }

  /** A polynomial vanishing above a negative index is zero. */
  lemma VanishesBelowZero(p: Poly, e: int)
    requires e < 0 && VanishesAbove(p, e)
    ensures IsZero(p) && Same(p, [])
  {
    ZeroIsSameAsEmpty(p);
  }

  lemma VanishesMonotone(p: Poly, e: int, e': int)
    requires VanishesAbove(p, e) && e <= e'
    ensures VanishesAbove(p, e')
  {
  }

  /** Nothing is stored above the last entry. */
  lemma StoredLengthBound(p: Poly)
    ensures VanishesAbove(p, |p| - 1)
  {
    forall k: nat | |p| - 1 < k ensures Coeff(p, k) == 0.0 {
      CoeffIndex(p, k);
    }
  }

  /** Dropping the constant coefficient lowers the vanishing bound by one. */
  lemma TailVanishes(p: Poly, e: int)
    requires |p| != 0 && VanishesAbove(p, e)
    ensures VanishesAbove(p[1..], e - 1)
  {
    forall k: nat | e - 1 < k ensures Coeff(p[1..], k) == 0.0 {
      assert Coeff(p, k + 1) == Coeff(p[1..], k);
    }
  }

  lemma VanishesOfSame(a: Poly, b: Poly, e: int)
    requires Same(a, b) && VanishesAbove(a, e)
    ensures VanishesAbove(b, e)
  {
  }

  // ---------------------------------------------------------------------
  // Ring operations.

  function Add(a: Poly, b: Poly): (r: Poly)
    ensures |r| == if |a| < |b| then |b| else |a|
  {
    if |a| == 0 then b else if |b| == 0 then a else [a[0] + b[0]] + Add(a[1..], b[1..])
  }

  lemma AddCoeff(a: Poly, b: Poly, k: nat)
    ensures Coeff(Add(a, b), k) == Coeff(a, k) + Coeff(b, k)
  {
    if |a| != 0 && |b| != 0 && k != 0 {
      AddCoeff(a[1..], b[1..], k - 1);
    }
  }

  lemma AddCongruent(a: Poly, a': Poly, b: Poly, b': Poly)
    requires Same(a, a') && Same(b, b')
    ensures Same(Add(a, b), Add(a', b'))
  {
    forall k: nat ensures Coeff(Add(a, b), k) == Coeff(Add(a', b'), k) {
      AddCoeff(a, b, k);
      AddCoeff(a', b', k);
    }
  }

  function Scale(c: real, a: Poly): (r: Poly)
    ensures |r| == |a|
  {
    if |a| == 0 then [] else [c * a[0]] + Scale(c, a[1..])
  }

  lemma ScaleCoeff(c: real, a: Poly, k: nat)
    ensures Coeff(Scale(c, a), k) == c * Coeff(a, k)
  {
    if |a| != 0 && k != 0 {
      ScaleCoeff(c, a[1..], k - 1);
    }
  }

  lemma ScaleCongruent(c: real, a: Poly, a': Poly)
    requires Same(a, a')
    ensures Same(Scale(c, a), Scale(c, a'))
  {
    forall k: nat ensures Coeff(Scale(c, a), k) == Coeff(Scale(c, a'), k) {
      ScaleCoeff(c, a, k);
      ScaleCoeff(c, a', k);
    }
  }

  /** Sequences agreeing in head and tail are equal. */
  lemma HeadTailEqual(x: Poly, y: Poly)
    requires |x| != 0 && |y| != 0 && x[0] == y[0] && x[1..] == y[1..]
    ensures x == y
  {
    assert x == [x[0]] + x[1..];
    assert y == [y[0]] + y[1..];
  }

  /** A scalar distributes over a sum, as an exact sequence identity. */
  lemma ScaleAdd(c: real, a: Poly, b: Poly)
    ensures Scale(c, Add(a, b)) == Add(Scale(c, a), Scale(c, b))
  {
    if |a| != 0 && |b| != 0 {
      ScaleAdd(c, a[1..], b[1..]);
      var s, sa, sb := Add(a, b), Scale(c, a), Scale(c, b);
      var l, r := Scale(c, s), Add(sa, sb);
      assert s[0] == a[0] + b[0] && s[1..] == Add(a[1..], b[1..]);
      assert sa[0] == c * a[0] && sa[1..] == Scale(c, a[1..]);
      assert sb[0] == c * b[0] && sb[1..] == Scale(c, b[1..]);
      assert l[0] == c * s[0] && l[1..] == Scale(c, s[1..]);
      assert r[0] == sa[0] + sb[0] && r[1..] == Add(sa[1..], sb[1..]);
      Distributes(c, s[0], a[0], b[0]);
      HeadTailEqual(l, r);
    }
  }

  /** Two scalars commute, as an exact sequence identity. */
  lemma ScaleScale(c: real, x: real, t: Poly)
    ensures Scale(c, Scale(x, t)) == Scale(x, Scale(c, t))
  {
    if |t| != 0 {
      ScaleScale(c, x, t[1..]);
      var xt, ct := Scale(x, t), Scale(c, t);
      var l, r := Scale(c, xt), Scale(x, ct);
      assert xt[0] == x * t[0] && xt[1..] == Scale(x, t[1..]);
      assert ct[0] == c * t[0] && ct[1..] == Scale(c, t[1..]);
      assert l[0] == c * xt[0] && l[1..] == Scale(c, xt[1..]);
      assert r[0] == x * ct[0] && r[1..] == Scale(x, ct[1..]);
      Commutes(c, x, t[0]);
      HeadTailEqual(l, r);
    }
  }

  /** A scalar commutes with multiplication by n. */
  lemma ScaleMulX(c: real, t: Poly)
    ensures Scale(c, MulX(t)) == MulX(Scale(c, t))
  {
    assert MulX(t)[0] == 0.0 && MulX(t)[1..] == t;
  }

  function Sub(a: Poly, b: Poly): (r: Poly)
    ensures |r| == if |a| < |b| then |b| else |a|
  {
    Add(a, Scale(-1.0, b))
  }

  lemma SubCoeff(a: Poly, b: Poly, k: nat)
    ensures Coeff(Sub(a, b), k) == Coeff(a, k) - Coeff(b, k)
  {
    AddCoeff(a, Scale(-1.0, b), k);
    ScaleCoeff(-1.0, b, k);
  }

  /** Multiplication by n. */
  function MulX(a: Poly): (r: Poly)
    ensures |r| == |a| + 1
  {
    [0.0] + a
  }

  lemma MulXCoeff(a: Poly, k: nat)
    ensures Coeff(MulX(a), k) == if k == 0 then 0.0 else Coeff(a, k - 1)
  {
    assert MulX(a)[1..] == a;
  }

  /** (n + c) * q. */
  function MulLinear(c: real, q: Poly): (r: Poly)
    ensures |r| == |q| + 1
  {
    Add(Scale(c, q), MulX(q))
  }

  lemma MulLinearCoeff(c: real, q: Poly, k: nat)
    ensures k == 0 ==> Coeff(MulLinear(c, q), k) == c * Coeff(q, k)
    ensures k != 0 ==> Coeff(MulLinear(c, q), k) == c * Coeff(q, k) + Coeff(q, k - 1)
  {
    AddCoeff(Scale(c, q), MulX(q), k);
    ScaleCoeff(c, q, k);
    MulXCoeff(q, k);
  }

  /** One step of Horner's scheme: p0 + (n + x) * t. */
  function Horner(p0: real, x: real, t: Poly): (r: Poly)
    ensures |r| == |t| + 1
  {
    Add([p0], MulLinear(x, t))
  }

  lemma HornerCoeff(p0: real, x: real, t: Poly, k: nat)
    ensures k == 0 ==> Coeff(Horner(p0, x, t), k) == p0 + x * Coeff(t, 0)
    ensures k != 0 ==> Coeff(Horner(p0, x, t), k) == x * Coeff(t, k) + Coeff(t, k - 1)
  {
    AddCoeff([p0], MulLinear(x, t), k);
    MulLinearCoeff(x, t, k);
    CoeffIndex([p0], k);
  }

  /** Product of two polynomials, by Horner's scheme on the left factor. */
  function Mul(a: Poly, b: Poly): (r: Poly)
    ensures |r| <= |a| + |b|
  {
    if |a| == 0 then [] else Add(Scale(a[0], b), MulX(Mul(a[1..], b)))
  }

  /** Constant coefficient of the product. */
  lemma MulCoeffZero(a: Poly, b: Poly)
    requires |a| != 0
    ensures Coeff(Mul(a, b), 0) == a[0] * Coeff(b, 0)
  {
    AddCoeff(Scale(a[0], b), MulX(Mul(a[1..], b)), 0);
    ScaleCoeff(a[0], b, 0);
    MulXCoeff(Mul(a[1..], b), 0);
  }

  /** Coefficient recurrence of the product above the constant term. */
  lemma MulCoeffSucc(a: Poly, b: Poly, k: nat)
    requires |a| != 0 && k != 0
    ensures Coeff(Mul(a, b), k) == a[0] * Coeff(b, k) + Coeff(Mul(a[1..], b), k - 1)
  {
    AddCoeff(Scale(a[0], b), MulX(Mul(a[1..], b)), k);
    ScaleCoeff(a[0], b, k);
    MulXCoeff(Mul(a[1..], b), k);
  }

  /** n^k. */
  function Monomial(k: nat): (r: Poly)
    ensures |r| == k + 1
  {
    if k == 0 then [1.0] else MulX(Monomial(k - 1))
  }

  lemma MonomialCoeff(k: nat, i: nat)
    ensures Coeff(Monomial(k), i) == if i == k then 1.0 else 0.0
  {
    if k != 0 {
      MulXCoeff(Monomial(k - 1), i);
      if i != 0 {
        MonomialCoeff(k - 1, i - 1);
      }
    }
  }

  /** Value of the polynomial at x, by Horner's scheme. */
  function Eval(p: Poly, x: real): real {
    if |p| == 0 then 0.0 else p[0] + x * Eval(p[1..], x)
  }

  // ---------------------------------------------------------------------
  // Evaluation respects the ring operations.

  lemma EvalAdd(a: Poly, b: Poly, x: real)
    ensures Eval(Add(a, b), x) == Eval(a, x) + Eval(b, x)
  {
    if |a| != 0 && |b| != 0 {
      EvalAdd(a[1..], b[1..], x);
      assert Add(a, b)[1..] == Add(a[1..], b[1..]);
      Distributes(x, Eval(Add(a[1..], b[1..]), x), Eval(a[1..], x), Eval(b[1..], x));
    }
  }

  lemma EvalScale(c: real, a: Poly, x: real)
    ensures Eval(Scale(c, a), x) == c * Eval(a, x)
  {
    if |a| != 0 {
      EvalScale(c, a[1..], x);
      assert Scale(c, a)[1..] == Scale(c, a[1..]);
      Commutes(c, x, Eval(a[1..], x));
    }
  }

  lemma EvalMulX(a: Poly, x: real)
    ensures Eval(MulX(a), x) == x * Eval(a, x)
  {
    assert MulX(a)[1..] == a;
  }

  lemma EvalMulLinear(c: real, q: Poly, x: real)
    ensures Eval(MulLinear(c, q), x) == (x + c) * Eval(q, x)
  {
    EvalAdd(Scale(c, q), MulX(q), x);
    EvalScale(c, q, x);
    EvalMulX(q, x);
    Distributes(Eval(q, x), x + c, x, c);
  }

  lemma EvalAtZero(p: Poly)
    ensures Eval(p, 0.0) == Coeff(p, 0)
  {
  }

  lemma EvalLinear(c0: real, c1: real, x: real)
    ensures Eval([c0, c1], x) == c0 + x * c1
  {
    assert [c0, c1][1..] == [c1];
    assert [c1][1..] == [];
    assert Eval([c1], x) == c1 + x * 0.0;
  }

  lemma EvalQuadratic(c0: real, c1: real, c2: real, x: real)
    ensures Eval([c0, c1, c2], x) == c0 + x * (c1 + x * c2)
  {
    assert [c0, c1, c2][1..] == [c1, c2];
    EvalLinear(c1, c2, x);
  }

  /** Evaluation depends only on the polynomial, not on its stored form. */
  lemma EvalSame(a: Poly, b: Poly, x: real)
    requires Same(a, b)
    ensures Eval(a, x) == Eval(b, x)
    decreases |a| + |b|
  {
    if |a| != 0 && |b| != 0 {
      assert Same(a[1..], b[1..]) by {
        forall k: nat ensures Coeff(a[1..], k) == Coeff(b[1..], k) {
          assert Coeff(a, k + 1) == Coeff(b, k + 1);
        }
      }
      EvalSame(a[1..], b[1..], x);
      assert a[0] == Coeff(a, 0) == Coeff(b, 0) == b[0];
    } else if |a| != 0 {
      EvalOfZero(a, x);
    } else if |b| != 0 {
      EvalOfZero(b, x);
    }
  }

  lemma EvalOfZero(p: Poly, x: real)
    requires Same(p, [])
    ensures Eval(p, x) == 0.0
  {
    if |p| != 0 {
      assert Same(p[1..], []) by {
        forall k: nat ensures Coeff(p[1..], k) == 0.0 {
          assert Coeff(p, k + 1) == 0.0;
        }
      }
      EvalOfZero(p[1..], x);
      assert p[0] == Coeff(p, 0);
    }
  }

  // ---------------------------------------------------------------------
  // Arithmetic facts, each stated on exactly the terms its callers hold.

  lemma Distributes(x: real, s: real, a: real, b: real)
    requires s == a + b
    ensures x * s == x * a + x * b
  {
  }

  lemma DistributesRight(s: real, a: real, b: real, x: real)
    requires s == a + b
    ensures s * x == a * x + b * x
  {
  }

  lemma Commutes(c: real, x: real, e: real)
    ensures c * (x * e) == x * (c * e)
  {
  }

  lemma TimesZeroRight(x: real, y: real)
    requires y == 0.0
    ensures x * y == 0.0
  {
  }

  lemma TimesZeroLeft(x: real, y: real)
    requires x == 0.0
    ensures x * y == 0.0
  {
  }

  lemma EqualFactors(x: real, y: real, x': real, y': real)
    requires x == x' && y == y'
    ensures x * y == x' * y'
  {
  }

  // ---------------------------------------------------------------------
  // Multiplication: congruence, bilinearity and the top coefficient.

  lemma MulZeroRightCoeff(a: Poly, b: Poly, k: nat)
    requires Same(b, [])
    ensures Coeff(Mul(a, b), k) == 0.0
  {
    if |a| != 0 {
      if k == 0 {
        MulCoeffZero(a, b);
        TimesZeroRight(a[0], Coeff(b, 0));
      } else {
        MulCoeffSucc(a, b, k);
        TimesZeroRight(a[0], Coeff(b, k));
        MulZeroRightCoeff(a[1..], b, k - 1);
      }
    }
  }

  lemma TailOfZero(a: Poly)
    requires |a| != 0 && Same(a, [])
    ensures a[0] == 0.0 && Same(a[1..], [])
  {
    assert a[0] == Coeff(a, 0);
    forall i: nat ensures Coeff(a[1..], i) == 0.0 {
      assert Coeff(a, i + 1) == 0.0;
    }
  }

  lemma TailOfSame(a: Poly, b: Poly)
    requires |a| != 0 && |b| != 0 && Same(a, b)
    ensures a[0] == b[0] && Same(a[1..], b[1..])
  {
    assert a[0] == Coeff(a, 0) == Coeff(b, 0) == b[0];
    forall i: nat ensures Coeff(a[1..], i) == Coeff(b[1..], i) {
      assert Coeff(a, i + 1) == Coeff(b, i + 1);
    }
  }

  lemma MulZeroLeftCoeff(a: Poly, b: Poly, k: nat)
    requires Same(a, [])
    ensures Coeff(Mul(a, b), k) == 0.0
  {
    if |a| != 0 {
      TailOfZero(a);
      if k == 0 {
        MulCoeffZero(a, b);
        TimesZeroLeft(a[0], Coeff(b, 0));
      } else {
        MulCoeffSucc(a, b, k);
        TimesZeroLeft(a[0], Coeff(b, k));
        MulZeroLeftCoeff(a[1..], b, k - 1);
      }
    }
  }

  /** A product with a zero factor is zero. */
  lemma MulByZero(a: Poly, b: Poly)
    requires Same(a, []) || Same(b, [])
    ensures Same(Mul(a, b), [])
  {
    forall k: nat ensures Coeff(Mul(a, b), k) == 0.0 {
      if Same(a, []) {
        MulZeroLeftCoeff(a, b, k);
      } else {
        MulZeroRightCoeff(a, b, k);
      }
    }
  }

  lemma MulCongruentRightCoeff(a: Poly, b: Poly, b': Poly, k: nat)
    requires Same(b, b')
    ensures Coeff(Mul(a, b), k) == Coeff(Mul(a, b'), k)
  {
    if |a| != 0 {
      if k == 0 {
        MulCoeffZero(a, b);
        MulCoeffZero(a, b');
        EqualFactors(a[0], Coeff(b, 0), a[0], Coeff(b', 0));
      } else {
        MulCoeffSucc(a, b, k);
        MulCoeffSucc(a, b', k);
        EqualFactors(a[0], Coeff(b, k), a[0], Coeff(b', k));
        MulCongruentRightCoeff(a[1..], b, b', k - 1);
      }
    }
  }

  lemma MulCongruentRight(a: Poly, b: Poly, b': Poly)
    requires Same(b, b')
    ensures Same(Mul(a, b), Mul(a, b'))
  {
    forall k: nat ensures Coeff(Mul(a, b), k) == Coeff(Mul(a, b'), k) {
      MulCongruentRightCoeff(a, b, b', k);
    }
  }

  lemma MulCongruentLeftCoeff(a: Poly, a': Poly, b: Poly, k: nat)
    requires Same(a, a')
    ensures Coeff(Mul(a, b), k) == Coeff(Mul(a', b), k)
    decreases |a| + |a'|
  {
    if |a| != 0 && |a'| != 0 {
      TailOfSame(a, a');
      if k == 0 {
        MulCoeffZero(a, b);
        MulCoeffZero(a', b);
        EqualFactors(a[0], Coeff(b, 0), a'[0], Coeff(b, 0));
      } else {
        MulCoeffSucc(a, b, k);
        MulCoeffSucc(a', b, k);
        EqualFactors(a[0], Coeff(b, k), a'[0], Coeff(b, k));
        MulCongruentLeftCoeff(a[1..], a'[1..], b, k - 1);
      }
    } else if |a| != 0 {
      MulZeroLeftCoeff(a, b, k);
    } else if |a'| != 0 {
      MulZeroLeftCoeff(a', b, k);
    }
  }

  lemma MulCongruentLeft(a: Poly, a': Poly, b: Poly)
    requires Same(a, a')
    ensures Same(Mul(a, b), Mul(a', b))
  {
    forall k: nat ensures Coeff(Mul(a, b), k) == Coeff(Mul(a', b), k) {
      MulCongruentLeftCoeff(a, a', b, k);
    }
  }

  /** Multiplication by n distributes over a sum. */
  lemma MulXAdd(x: Poly, y: Poly)
    ensures MulX(Add(x, y)) == Add(MulX(x), MulX(y))
  {
    var l, r := MulX(Add(x, y)), Add(MulX(x), MulX(y));
    assert r[0] == 0.0 + 0.0 && r[1..] == Add(x, y);
    HeadTailEqual(l, r);
  }

  /** (A + B) + (C + D) == (A + C) + (B + D), as an exact sequence identity. */
  lemma AddSwapMiddle(A: Poly, B: Poly, C: Poly, D: Poly)
    ensures Add(Add(A, B), Add(C, D)) == Add(Add(A, C), Add(B, D))
  {
    var l, r := Add(Add(A, B), Add(C, D)), Add(Add(A, C), Add(B, D));
    forall k: nat ensures Coeff(l, k) == Coeff(r, k) {
      AddCoeff(Add(A, B), Add(C, D), k);
      AddCoeff(Add(A, C), Add(B, D), k);
      AddCoeff(A, B, k);
      AddCoeff(C, D, k);
      AddCoeff(A, C, k);
      AddCoeff(B, D, k);
    }
    SameLengthSameIsEqual(l, r);
  }

  /** The product distributes over a sum in the right factor, as an exact
      sequence identity. */
  lemma {:induction false} MulAddRightExact(a: Poly, b: Poly, c: Poly)
    ensures Mul(a, Add(b, c)) == Add(Mul(a, b), Mul(a, c))
  {
    if |a| != 0 {
      var a0, t := a[0], a[1..];
      MulAddRightExact(t, b, c);
      ScaleAdd(a0, b, c);
      MulXAdd(Mul(t, b), Mul(t, c));
      AddSwapMiddle(Scale(a0, b), Scale(a0, c), MulX(Mul(t, b)), MulX(Mul(t, c)));
    }
  }

  /** The product distributes over a sum in the right factor. */
  lemma MulAddRight(a: Poly, b: Poly, c: Poly)
    ensures Same(Mul(a, Add(b, c)), Add(Mul(a, b), Mul(a, c)))
  {
    MulAddRightExact(a, b, c);
  }

  /** A scalar factor in the right factor moves out of the product, as an
      exact sequence identity. */
  lemma {:induction false} MulScaleRightExact(a: Poly, c: real, b: Poly)
    ensures Mul(a, Scale(c, b)) == Scale(c, Mul(a, b))
  {
    if |a| != 0 {
      var a0, t := a[0], a[1..];
      MulScaleRightExact(t, c, b);
      ScaleScale(c, a0, b);
      ScaleMulX(c, Mul(t, b));
      ScaleAdd(c, Scale(a0, b), MulX(Mul(t, b)));
    }
  }

  /** A scalar factor in the right factor moves out of the product. */
  lemma MulScaleRight(a: Poly, c: real, b: Poly)
    ensures Same(Mul(a, Scale(c, b)), Scale(c, Mul(a, b)))
  {
    MulScaleRightExact(a, c, b);
  }

  /** The head of a + a', used as a scalar, distributes: an exact sequence
      identity. */
  lemma {:induction false} ScaleBySumHead(a: Poly, a': Poly, b: Poly)
    requires |a| != 0 && |a'| != 0
    ensures Scale(Add(a, a')[0], b) == Add(Scale(a[0], b), Scale(a'[0], b))
  {
    if |b| != 0 {
      ScaleBySumHead(a, a', b[1..]);
      var h := Add(a, a')[0];
      var l, r, m, m' := Scale(h, b), Add(Scale(a[0], b), Scale(a'[0], b)), Scale(a[0], b), Scale(a'[0], b);
      assert m[0] == a[0] * b[0] && m[1..] == Scale(a[0], b[1..]);
      assert m'[0] == a'[0] * b[0] && m'[1..] == Scale(a'[0], b[1..]);
      assert r[0] == m[0] + m'[0] && r[1..] == Add(m[1..], m'[1..]);
      DistributesRight(h, a[0], a'[0], b[0]);
      HeadTailEqual(l, r);
    }
  }

  /** The product distributes over a sum in the left factor, as an exact
      sequence identity. */
  lemma {:induction false} MulAddLeftExact(a: Poly, a': Poly, b: Poly)
    ensures Mul(Add(a, a'), b) == Add(Mul(a, b), Mul(a', b))
    decreases |a| + |a'|
  {
    if |a| != 0 && |a'| != 0 {
      var s, t, t' := Add(a, a'), a[1..], a'[1..];
      assert s[1..] == Add(t, t');
      MulAddLeftExact(t, t', b);
      ScaleBySumHead(a, a', b);
      MulXAdd(Mul(t, b), Mul(t', b));
      AddSwapMiddle(Scale(a[0], b), Scale(a'[0], b), MulX(Mul(t, b)), MulX(Mul(t', b)));
    }
  }

  /** The product distributes over a sum in the left factor. */
  lemma MulAddLeft(a: Poly, a': Poly, b: Poly)
    ensures Same(Mul(Add(a, a'), b), Add(Mul(a, b), Mul(a', b)))
  {
    MulAddLeftExact(a, a', b);
  }

  /** (c a0) x == c (a0 x). */
  lemma Associates(c: real, a0: real, h: real, x: real)
    requires h == c * a0
    ensures h * x == c * (a0 * x)
  {
  }

  /** The head of c·a, used as a scalar, is c times the head of a: an exact
      sequence identity. */
  lemma {:induction false} ScaleByHead(c: real, a: Poly, b: Poly)
    requires |a| != 0
    ensures Scale(Scale(c, a)[0], b) == Scale(c, Scale(a[0], b))
  {
    if |b| != 0 {
      ScaleByHead(c, a, b[1..]);
      var h := Scale(c, a)[0];
      var l, r, m := Scale(h, b), Scale(c, Scale(a[0], b)), Scale(a[0], b);
      assert m[0] == a[0] * b[0] && m[1..] == Scale(a[0], b[1..]);
      Associates(c, a[0], h, b[0]);
      HeadTailEqual(l, r);
    }
  }

  /** A scalar factor in the left factor moves out of the product, as an
      exact sequence identity. */
  lemma {:induction false} MulScaleLeftExact(c: real, a: Poly, b: Poly)
    ensures Mul(Scale(c, a), b) == Scale(c, Mul(a, b))
  {
    if |a| != 0 {
      var s, t := Scale(c, a), a[1..];
      assert s[1..] == Scale(c, t);
      MulScaleLeftExact(c, t, b);
      ScaleByHead(c, a, b);
      ScaleMulX(c, Mul(t, b));
      ScaleAdd(c, Scale(a[0], b), MulX(Mul(t, b)));
    }
  }

  /** A scalar factor in the left factor moves out of the product. */
  lemma MulScaleLeft(c: real, a: Poly, b: Poly)
    ensures Same(Mul(Scale(c, a), b), Scale(c, Mul(a, b)))
  {
    MulScaleLeftExact(c, a, b);
  }

  /** Above A + B the product of a polynomial vanishing above A and one
      vanishing above B is zero. */
  lemma MulVanishes(a: Poly, b: Poly, A: int, B: int)
    requires VanishesAbove(a, A) && VanishesAbove(b, B)
    ensures VanishesAbove(Mul(a, b), A + B)
  {
    if A < 0 {
      VanishesBelowZero(a, A);
      MulByZero(a, b);
    } else {
      forall k: nat | A + B < k ensures Coeff(Mul(a, b), k) == 0.0 {
        MulVanishesCoeff(a, b, A, B, k);
      }
    }
  }

  lemma MulVanishesCoeff(a: Poly, b: Poly, A: int, B: int, k: nat)
    requires VanishesAbove(a, A) && VanishesAbove(b, B) && A + B < k
    ensures Coeff(Mul(a, b), k) == 0.0
    decreases |a|
  {
    if |a| != 0 {
      if A < 0 {
        VanishesBelowZero(a, A);
        MulZeroLeftCoeff(a, b, k);
      } else {
        TailVanishes(a, A);
        if k == 0 {
          MulCoeffZero(a, b);
          TimesZeroRight(a[0], Coeff(b, 0));
        } else {
          MulCoeffSucc(a, b, k);
          TimesZeroRight(a[0], Coeff(b, k));
          MulVanishesCoeff(a[1..], b, A - 1, B, k - 1);
        }
      }
    }
  }

  /** The coefficient of n^(A+B) in the product of a polynomial vanishing
      above A and one vanishing above B is the product of the two top ones. */
  lemma MulTopCoeff(a: Poly, b: Poly, A: nat, B: nat)
    requires VanishesAbove(a, A) && VanishesAbove(b, B)
    ensures Coeff(Mul(a, b), A + B) == Coeff(a, A) * Coeff(b, B)
    decreases |a|
  {
    if |a| == 0 {
      TimesZeroLeft(Coeff(a, A), Coeff(b, B));
    } else if A == 0 {
      TailVanishes(a, A);
      VanishesBelowZero(a[1..], -1);
      EqualFactors(a[0], Coeff(b, B), Coeff(a, A), Coeff(b, B));
      if B == 0 {
        MulCoeffZero(a, b);
      } else {
        MulCoeffSucc(a, b, B);
        MulZeroLeftCoeff(a[1..], b, B - 1);
      }
    } else {
      TailVanishes(a, A);
      MulTopCoeff(a[1..], b, A - 1, B);
      MulCoeffSucc(a, b, A + B);
      TimesZeroRight(a[0], Coeff(b, A + B));
      EqualFactors(Coeff(a[1..], A - 1), Coeff(b, B), Coeff(a, A), Coeff(b, B));
    }
  }

  /** Both facts about the top of a product. */
  lemma MulTop(a: Poly, b: Poly, A: int, B: int)
    requires VanishesAbove(a, A) && VanishesAbove(b, B) && B >= 0
    ensures VanishesAbove(Mul(a, b), A + B)
    ensures A >= 0 ==> Coeff(Mul(a, b), A + B) == Coeff(a, A) * Coeff(b, B)
  {
    MulVanishes(a, b, A, B);
    if A >= 0 {
      MulTopCoeff(a, b, A, B);
    }
  }

  // ---------------------------------------------------------------------
  // Degree and the two coefficient extractors.

  /** Degree of a nonzero polynomial: the highest power with a nonzero
      coefficient. The zero polynomial has no degree. */
  function Degree(p: Poly): (d: nat)
    requires !IsZero(p)
    ensures d < |p| && p[d] != 0.0
    ensures forall k :: d < k < |p| ==> p[k] == 0.0
  {
    if p[|p| - 1] != 0.0 then |p| - 1 else Degree(p[..|p| - 1])
  }

  /** Leading coefficient: the coefficient of the highest-degree term. There
      is none for the zero polynomial, whose list of terms is empty. */
  function LeadCoeff(p: Poly): (c: real)
    requires !IsZero(p)
    ensures c != 0.0
  {
    p[Degree(p)]
  }

  /** Degree as Sage's `degree` reports it: that of a nonzero polynomial,
      and 0 for the zero polynomial. */
  function SourceDegree(p: Poly): (d: nat)
    ensures !IsZero(p) ==> d == Degree(p)
    ensures IsZero(p) ==> d == 0
    ensures forall k :: d < k < |p| ==> p[k] == 0.0
  {
    if IsZero(p) then 0 else Degree(p)
  }

  /** Constant coefficient: the value at n = 0. */
  function ConstantCoeff(p: Poly): (c: real)
    ensures c == Eval(p, 0.0)
  {
    Coeff(p, 0)
  }

  /** A nonzero polynomial vanishes above its degree and its coefficient at
      the degree is the leading coefficient. */
  lemma DegreeCharacterization(p: Poly)
    requires !IsZero(p)
    ensures VanishesAbove(p, Degree(p))
    ensures Coeff(p, Degree(p)) == LeadCoeff(p) != 0.0
  {
    var d := Degree(p);
    CoeffIndex(p, d);
    forall k: nat | d < k ensures Coeff(p, k) == 0.0 {
      CoeffIndex(p, k);
    }
  }

  /** A nonzero coefficient makes the polynomial nonzero and sits at or
      below the degree. */
  lemma NonzeroWitness(p: Poly, k: nat)
    requires Coeff(p, k) != 0.0
    ensures !IsZero(p) && k <= Degree(p)
  {
    CoeffIndex(p, k);
  }

  /** Degree and leading coefficient depend only on the polynomial. */
  lemma DegreeOfSame(a: Poly, b: Poly)
    requires Same(a, b) && !IsZero(a)
    ensures !IsZero(b) && Degree(b) == Degree(a) && LeadCoeff(b) == LeadCoeff(a)
  {
    DegreeCharacterization(a);
    var d := Degree(a);
    assert Coeff(b, d) == Coeff(a, d);
    NonzeroWitness(b, d);
    DegreeCharacterization(b);
    var e := Degree(b);
    assert Coeff(a, e) == Coeff(b, e);
    NonzeroWitness(a, e);
  }

  /** A nonzero polynomial vanishing above e has degree at most e, and
      exactly e when its coefficient of n^e is nonzero. */
  lemma DegreeFromVanishing(p: Poly, e: int)
    requires !IsZero(p) && VanishesAbove(p, e)
    ensures Degree(p) <= e
    ensures e >= 0 && Coeff(p, e) != 0.0 ==> Degree(p) == e
  {
    DegreeCharacterization(p);
    if e >= 0 && Coeff(p, e) != 0.0 {
      NonzeroWitness(p, e);
    }
  }

  /** The leading coefficient, read as a polynomial, is the polynomial itself
      exactly when the polynomial is constant. */
  lemma LeadCoeffIsItselfIffConstant(p: Poly)
    requires !IsZero(p)
    ensures Same([LeadCoeff(p)], p) <==> Degree(p) == 0
  {
    DegreeCharacterization(p);
    var d := Degree(p);
    if Degree(p) == 0 {
      forall k: nat ensures Coeff([LeadCoeff(p)], k) == Coeff(p, k) {
        CoeffIndex([LeadCoeff(p)], k);
      }
    } else {
      CoeffIndex([LeadCoeff(p)], d);
    }
  }
}
