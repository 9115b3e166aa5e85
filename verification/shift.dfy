/** The shift operator N: p(n) ↦ p(n + i), computed by Horner's scheme
    p(n + i) = p_0 + (n + i) * p'(n + i) where p = p_0 + n * p'. */
module Shifts {
  import opened Polynomials

  function Shift(p: Poly, i: int): (r: Poly)
    ensures |r| == |p|
  {
    if |p| == 0 then [] else Horner(p[0], i as real, Shift(p[1..], i))
  }

  /** Shifting is evaluation at a translated point: N(p, i)(x) = p(x + i). */
  lemma ShiftEval(p: Poly, i: int, x: real)
    ensures Eval(Shift(p, i), x) == Eval(p, x + i as real)
  {
    if |p| != 0 {
      var t, p0 := Shift(p[1..], i), p[0];
      ShiftEval(p[1..], i, x);
      EvalAdd([p0], MulLinear(i as real, t), x);
      EvalMulLinear(i as real, t, x);
    }
  }

  /** N(p, 0) = p. */
  lemma {:induction false} ShiftByZero(p: Poly)
    ensures Shift(p, 0) == p
  {
    if |p| != 0 {
      ShiftByZero(p[1..]);
      var p0, t := p[0], p[1..];
      assert Shift(p, 0) == Horner(p0, 0.0, t);
      forall k: nat ensures Coeff(Horner(p0, 0.0, t), k) == Coeff(p, k) {
        HornerCoeff(p0, 0.0, t, k);
      }
      SameLengthSameIsEqual(Shift(p, 0), p);
    }
  }

  // ---------------------------------------------------------------------
  // Linearity, stated on one Horner step and lifted by induction.

  /** (n + x) ta + (n + x) tb = (n + x) (ta + tb). */
  lemma MulLinearAdd(x: real, ta: Poly, tb: Poly)
    ensures Add(MulLinear(x, ta), MulLinear(x, tb)) == MulLinear(x, Add(ta, tb))
  {
    AddSwapMiddle(Scale(x, ta), MulX(ta), Scale(x, tb), MulX(tb));
    ScaleAdd(x, ta, tb);
    MulXAdd(ta, tb);
  }

  lemma HornerAdd(a0: real, b0: real, x: real, ta: Poly, tb: Poly)
    ensures Add(Horner(a0, x, ta), Horner(b0, x, tb)) == Horner(a0 + b0, x, Add(ta, tb))
  {
    AddSwapMiddle([a0], MulLinear(x, ta), [b0], MulLinear(x, tb));
    assert Add([a0], [b0]) == [a0 + b0];
    MulLinearAdd(x, ta, tb);
  }

  /** The shift is additive. */
  lemma {:induction false} ShiftAdd(a: Poly, b: Poly, i: int)
    ensures Shift(Add(a, b), i) == Add(Shift(a, i), Shift(b, i))
    decreases |a| + |b|
  {
    if |a| != 0 && |b| != 0 {
      ShiftAdd(a[1..], b[1..], i);
      var s, a0, b0 := Add(a, b), a[0], b[0];
      assert s[0] == a0 + b0 && s[1..] == Add(a[1..], b[1..]);
      assert Shift(s, i) == Horner(a0 + b0, i as real, Add(Shift(a[1..], i), Shift(b[1..], i)));
      HornerAdd(a0, b0, i as real, Shift(a[1..], i), Shift(b[1..], i));
    } else if |a| == 0 {
      assert Add(a, b) == b && Add(Shift(a, i), Shift(b, i)) == Shift(b, i);
    } else {
      assert Add(a, b) == a && Add(Shift(a, i), Shift(b, i)) == Shift(a, i);
    }
  }

  /** c * (n + x) t == (n + x) (c t). */
  lemma MulLinearScale(c: real, x: real, t: Poly)
    ensures Scale(c, MulLinear(x, t)) == MulLinear(x, Scale(c, t))
  {
    ScaleAdd(c, Scale(x, t), MulX(t));
    ScaleScale(c, x, t);
    ScaleMulX(c, t);
  }

  lemma ScaleSingleton(c: real, a0: real)
    ensures Scale(c, [a0]) == [c * a0]
  {
    var l := Scale(c, [a0]);
    assert [a0][1..] == [];
    assert l[0] == c * a0 && l[1..] == Scale(c, []);
    HeadTailEqual(l, [c * a0]);
  }

  /** c * (a0 + (n + x) t) == c a0 + (n + x) (c t). */
  lemma HornerScale(c: real, a0: real, x: real, t: Poly)
    ensures Horner(c * a0, x, Scale(c, t)) == Scale(c, Horner(a0, x, t))
  {
    var m := MulLinear(x, t);
    ScaleAdd(c, [a0], m);
    ScaleSingleton(c, a0);
    MulLinearScale(c, x, t);
  }

  /** The shift commutes with scaling. */
  lemma {:induction false} ShiftScale(c: real, a: Poly, i: int)
    ensures Shift(Scale(c, a), i) == Scale(c, Shift(a, i))
  {
    if |a| != 0 {
      ShiftScale(c, a[1..], i);
      var s, t, a0 := Scale(c, a), Shift(a[1..], i), a[0];
      assert s[0] == c * a0 && s[1..] == Scale(c, a[1..]);
      assert Shift(s, i) == Horner(c * a0, i as real, Scale(c, t));
      HornerScale(c, a0, i as real, t);
    }
  }

  lemma {:induction false} ShiftOfZero(p: Poly, i: int)
    requires Same(p, [])
    ensures Same(Shift(p, i), [])
  {
    if |p| != 0 {
      var p0, t := p[0], p[1..];
      assert p0 == Coeff(p, 0) == 0.0;
      assert Same(t, []) by {
        forall j: nat ensures Coeff(t, j) == 0.0 {
          assert Coeff(p, j + 1) == 0.0;
        }
      }
      ShiftOfZero(t, i);
      var u, x := Shift(t, i), i as real;
      forall k: nat ensures Coeff(Horner(p0, x, u), k) == 0.0 {
        HornerCoeff(p0, x, u, k);
        assert Coeff(u, k) == 0.0;
        if k != 0 {
          assert Coeff(u, k - 1) == 0.0;
        }
      }
    }
  }

  /** The shift commutes with subtraction. */
  lemma ShiftSub(a: Poly, b: Poly, i: int)
    ensures Shift(Sub(a, b), i) == Sub(Shift(a, i), Shift(b, i))
  {
    ShiftAdd(a, Scale(-1.0, b), i);
    ShiftScale(-1.0, b, i);
  }

  /** Polynomials whose difference is zero are the same. */
  lemma SameFromZeroDifference(a: Poly, b: Poly)
    requires Same(Sub(a, b), [])
    ensures Same(a, b)
  {
    forall k: nat ensures Coeff(a, k) == Coeff(b, k) {
      SubCoeff(a, b, k);
    }
  }

  /** The shift depends only on the polynomial, not on its stored form. */
  lemma ShiftCongruent(a: Poly, b: Poly, i: int)
    requires Same(a, b)
    ensures Same(Shift(a, i), Shift(b, i))
  {
    assert Same(Sub(a, b), []) by {
      forall k: nat ensures Coeff(Sub(a, b), k) == 0.0 {
        SubCoeff(a, b, k);
      }
    }
    ShiftOfZero(Sub(a, b), i);
    ShiftSub(a, b, i);
    SameFromZeroDifference(Shift(a, i), Shift(b, i));
  }

  // ---------------------------------------------------------------------
  // Composition.

  /** N(n * q, j) = (n + j) * N(q, j). */
  lemma ShiftMulX(q: Poly, j: int)
    ensures Shift(MulX(q), j) == MulLinear(j as real, Shift(q, j))
  {
    var m, u := MulX(q), Shift(q, j);
    assert m[0] == 0.0 && m[1..] == q;
    var x := j as real;
    assert Shift(m, j) == Horner(0.0, x, u);
    forall k: nat ensures Coeff(Horner(0.0, x, u), k) == Coeff(MulLinear(x, u), k) {
      HornerCoeff(0.0, x, u, k);
      MulLinearCoeff(x, u, k);
    }
    SameLengthSameIsEqual(Horner(0.0, x, u), MulLinear(x, u));
  }

  /** p0 + x * u + (n + y) * u == p0 + (n + x + y) * u. */
  lemma HornerMerge(p0: real, x: real, y: real, u: Poly)
    ensures Add([p0], Add(Scale(x, u), MulLinear(y, u))) == Horner(p0, x + y, u)
  {
    var l, r := Add([p0], Add(Scale(x, u), MulLinear(y, u))), Horner(p0, x + y, u);
    forall k: nat ensures Coeff(l, k) == Coeff(r, k) {
      AddCoeff([p0], Add(Scale(x, u), MulLinear(y, u)), k);
      AddCoeff(Scale(x, u), MulLinear(y, u), k);
      ScaleCoeff(x, u, k);
      MulLinearCoeff(y, u, k);
      HornerCoeff(p0, x + y, u, k);
      CoeffIndex([p0], k);
      DistributesRight(x + y, x, y, Coeff(u, k));
    }
    SameLengthSameIsEqual(l, r);
  }

  /** Shifting one Horner step: N(p0 + (n + i) t, j) = p0 + (n + i + j) N(t, j). */
  lemma ShiftHorner(p0: real, i: int, t: Poly, j: int)
    ensures Shift(Horner(p0, i as real, t), j) == Horner(p0, (i + j) as real, Shift(t, j))
  {
    var u := Shift(t, j);
    ShiftAdd([p0], MulLinear(i as real, t), j);
    assert Shift([p0], j) == [p0];
    ShiftAdd(Scale(i as real, t), MulX(t), j);
    ShiftScale(i as real, t, j);
    ShiftMulX(t, j);
    HornerMerge(p0, i as real, j as real, u);
  }

  /** Shifts compose: N(N(p, i), j) = N(p, i + j). */
  lemma {:induction false} ShiftCompose(p: Poly, i: int, j: int)
    ensures Shift(Shift(p, i), j) == Shift(p, i + j)
  {
    if |p| != 0 {
      ShiftCompose(p[1..], i, j);
      var p0, t := p[0], Shift(p[1..], i);
      assert Shift(p, i) == Horner(p0, i as real, t);
      ShiftHorner(p0, i, t, j);
    }
  }

  // ---------------------------------------------------------------------
  // Degree and leading coefficient.

  /** A constant is unchanged by a shift. */
  lemma ShiftConstant(p: Poly, i: int)
    requires |p| != 0 && VanishesAbove(p, 0)
    ensures VanishesAbove(Shift(p, i), 0) && Coeff(Shift(p, i), 0) == Coeff(p, 0)
  {
    var p0, t := p[0], Shift(p[1..], i);
    assert Shift(p, i) == Horner(p0, i as real, t);
    TailVanishes(p, 0);
    VanishesBelowZero(p[1..], -1);
    ShiftOfZero(p[1..], i);
    forall k: nat ensures Coeff(Shift(p, i), k) == Coeff(p, k) {
      HornerCoeff(p0, i as real, t, k);
      assert Coeff(t, k) == 0.0;
      if k != 0 {
        assert Coeff(t, k - 1) == 0.0;
      }
    }
  }

  /** One Horner step p0 + (n + x) t on the top two coefficients, where t
      has the top two coefficients that ShiftTop gives for the tail q. */
  lemma HornerTop(p0: real, x: real, q: Poly, t: Poly, e: nat)
    requires e >= 1 && VanishesAbove(t, e - 1)
    requires Coeff(t, e - 1) == Coeff(q, e - 1)
    requires e - 1 >= 1 ==> Coeff(t, (e - 1) - 1) == Coeff(q, (e - 1) - 1) + ((e - 1) as real) * x * Coeff(q, e - 1)
    ensures VanishesAbove(Horner(p0, x, t), e)
    ensures Coeff(Horner(p0, x, t), e) == Coeff(q, e - 1)
    ensures Coeff(Horner(p0, x, t), e - 1) ==
            (if e == 1 then p0 else Coeff(q, (e - 1) - 1)) + (e as real) * x * Coeff(q, e - 1)
  {
    forall k: nat | e < k ensures Coeff(Horner(p0, x, t), k) == 0.0 {
      HornerCoeff(p0, x, t, k);
    }
    HornerCoeff(p0, x, t, e);
    HornerCoeff(p0, x, t, e - 1);
    if e >= 2 {
      TopArithmetic(e, x, Coeff(Horner(p0, x, t), e - 1), Coeff(t, e - 1), Coeff(t, (e - 1) - 1),
                    Coeff(q, e - 1), Coeff(q, (e - 1) - 1));
    }
  }

  lemma TopArithmetic(e: nat, x: real, h: real, tTop: real, c: real, top: real, below: real)
    requires e >= 2
    requires h == x * tTop + c && tTop == top
    requires c == below + ((e - 1) as real) * x * top
    ensures h == below + (e as real) * x * top
  {
  }

  /** Renaming the coefficients in the conclusion of HornerTop. */
  lemma TopRename(h: real, below: real, top: real, below1: real, top1: real, k: real, x: real)
    requires h == below1 + k * x * top1 && below1 == below && top1 == top
    ensures h == below + k * x * top
  {
  }

  /** The top two coefficients under a shift: if p vanishes above n^e, so
      does N(p, i), with the same coefficient of n^e, and the coefficient of
      n^(e-1) gains e * i times the top one. */
  lemma {:induction false} ShiftTop(p: Poly, i: int, e: nat)
    requires VanishesAbove(p, e)
    ensures VanishesAbove(Shift(p, i), e)
    ensures Coeff(Shift(p, i), e) == Coeff(p, e)
    ensures e >= 1 ==> Coeff(Shift(p, i), e - 1) == Coeff(p, e - 1) + (e as real) * (i as real) * Coeff(p, e)
  {
    if |p| != 0 {
      if e == 0 {
        ShiftConstant(p, i);
      } else {
        var p0, q := p[0], p[1..];
        var t := Shift(q, i);
        assert Shift(p, i) == Horner(p0, i as real, t);
        TailVanishes(p, e);
        ShiftTop(q, i, e - 1);
        HornerTop(p0, i as real, q, t, e);
        assert Coeff(q, e - 1) == Coeff(p, e);
        var below1 := if e == 1 then p0 else Coeff(q, (e - 1) - 1);
        assert below1 == Coeff(p, e - 1);
        TopRename(Coeff(Horner(p0, i as real, t), e - 1), Coeff(p, e - 1), Coeff(p, e), below1,
                  Coeff(q, e - 1), e as real, i as real);
      }
    }
  }

  /** Shifting preserves degree and leading coefficient. */
  lemma ShiftDegree(p: Poly, i: int)
    requires !IsZero(p)
    ensures !IsZero(Shift(p, i))
    ensures Degree(Shift(p, i)) == Degree(p) && LeadCoeff(Shift(p, i)) == LeadCoeff(p)
  {
    DegreeCharacterization(p);
    ShiftTop(p, i, Degree(p));
    NonzeroWitness(Shift(p, i), Degree(p));
    DegreeFromVanishing(Shift(p, i), Degree(p));
    DegreeCharacterization(Shift(p, i));
  }
}
