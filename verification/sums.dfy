/** Finite sums of polynomials, Σ_{j<n} g(j), and the rearrangements the
    degree-bound argument needs: congruence, linearity, reindexing,
    exchanging a double sum, and distributing a product. */
module Sums {
  import opened Polynomials

  /** g(0) + g(1) + ... + g(n-1). */
  function Sigma(n: nat, g: nat -> Poly): Poly
  {
    if n == 0 then [] else Add(Sigma(n - 1, g), g(n - 1))
  }

  lemma SigmaCongruent(n: nat, g: nat -> Poly, h: nat -> Poly)
    requires forall j: nat :: j < n ==> Same(g(j), h(j))
    ensures Same(Sigma(n, g), Sigma(n, h))
  {
    if n != 0 {
      SigmaCongruent(n - 1, g, h);
      AddCongruent(Sigma(n - 1, g), Sigma(n - 1, h), g(n - 1), h(n - 1));
    }
  }

  lemma SigmaAddCoeff(n: nat, g: nat -> Poly, h: nat -> Poly, s: nat -> Poly, k: nat)
    requires forall j: nat :: j < n ==> Same(s(j), Add(g(j), h(j)))
    ensures Coeff(Sigma(n, s), k) == Coeff(Sigma(n, g), k) + Coeff(Sigma(n, h), k)
  {
    if n != 0 {
      SigmaAddCoeff(n - 1, g, h, s, k);
      AddCoeff(Sigma(n - 1, s), s(n - 1), k);
      AddCoeff(Sigma(n - 1, g), g(n - 1), k);
      AddCoeff(Sigma(n - 1, h), h(n - 1), k);
      AddCoeff(g(n - 1), h(n - 1), k);
    }
  }

  /** A sum of termwise sums is the sum of the two sums. */
  lemma SigmaAdd(n: nat, g: nat -> Poly, h: nat -> Poly, s: nat -> Poly)
    requires forall j: nat :: j < n ==> Same(s(j), Add(g(j), h(j)))
    ensures Same(Sigma(n, s), Add(Sigma(n, g), Sigma(n, h)))
  {
    forall k: nat ensures Coeff(Sigma(n, s), k) == Coeff(Add(Sigma(n, g), Sigma(n, h)), k) {
      SigmaAddCoeff(n, g, h, s, k);
      AddCoeff(Sigma(n, g), Sigma(n, h), k);
    }
  }

  /** A common scalar factor moves out of a sum, as an exact sequence
      identity. */
  lemma SigmaScale(n: nat, c: real, g: nat -> Poly, s: nat -> Poly)
    requires forall j: nat :: j < n ==> s(j) == Scale(c, g(j))
    ensures Sigma(n, s) == Scale(c, Sigma(n, g))
  {
    if n != 0 {
      SigmaScale(n - 1, c, g, s);
      ScaleAdd(c, Sigma(n - 1, g), g(n - 1));
    }
  }

  /** A sum of zero polynomials is zero. */
  lemma SigmaZero(n: nat, g: nat -> Poly)
    requires forall j: nat :: j < n ==> Same(g(j), [])
    ensures Same(Sigma(n, g), [])
  {
    if n != 0 {
      SigmaZero(n - 1, g);
      AddCongruent(Sigma(n - 1, g), [], g(n - 1), []);
    }
  }

  /** Every term g(j) with n <= j < m is zero. */
  ghost predicate ZeroBetween(n: nat, m: nat, g: nat -> Poly) {
    forall j: nat :: n <= j < m ==> Same(g(j), [])
  }

  /** Appending zero terms does not change a sum. */
  lemma SigmaExtend(n: nat, m: nat, g: nat -> Poly)
    requires n <= m && ZeroBetween(n, m, g)
    ensures Same(Sigma(m, g), Sigma(n, g))
  {
    if n < m {
      SigmaExtend(n, m - 1, g);
      AddCongruent(Sigma(m - 1, g), Sigma(n, g), g(m - 1), []);
    }
  }

  /** Splitting off the first term: Σ_{j<n+1} g(j) = g(0) + Σ_{j<n} g(j+1). */
  lemma SigmaPeelFirst(n: nat, g: nat -> Poly, h: nat -> Poly)
    requires forall j: nat :: j < n ==> h(j) == g(j + 1)
    ensures Same(Sigma(n + 1, g), Add(g(0), Sigma(n, h)))
  {
    if n != 0 {
      SigmaPeelFirst(n - 1, g, h);
      forall k: nat ensures Coeff(Sigma(n + 1, g), k) == Coeff(Add(g(0), Sigma(n, h)), k) {
        AddCoeff(Sigma(n, g), g(n), k);
        AddCoeff(g(0), Sigma(n - 1, h), k);
        AddCoeff(g(0), Sigma(n, h), k);
        AddCoeff(Sigma(n - 1, h), h(n - 1), k);
      }
    }
  }

  /** Every term vanishing above E makes the sum vanish above E. */
  lemma SigmaVanishes(n: nat, g: nat -> Poly, E: int)
    requires forall j: nat :: j < n ==> VanishesAbove(g(j), E)
    ensures VanishesAbove(Sigma(n, g), E)
  {
    if n != 0 {
      SigmaVanishes(n - 1, g, E);
      forall k: nat | E < k ensures Coeff(Sigma(n, g), k) == 0.0 {
        AddCoeff(Sigma(n - 1, g), g(n - 1), k);
      }
    }
  }

  /** Row i and column j of a table of polynomials g. */
  function Row(g: (nat, nat) -> Poly, i: nat): nat -> Poly {
    (j: nat) => g(i, j)
  }

  function Col(g: (nat, nat) -> Poly, j: nat): nat -> Poly {
    (i: nat) => g(i, j)
  }

  /** Exchanging the order of a finite double sum. */
  lemma {:induction false} SigmaSwap(n: nat, m: nat, g: (nat, nat) -> Poly, rows: nat -> Poly, cols: nat -> Poly)
    requires forall i: nat :: i < n ==> Same(rows(i), Sigma(m, Row(g, i)))
    requires forall j: nat :: j < m ==> Same(cols(j), Sigma(n, Col(g, j)))
    ensures Same(Sigma(n, rows), Sigma(m, cols))
  {
    if n == 0 {
      forall j: nat | j < m ensures Same(cols(j), []) {
      }
      SigmaZero(m, cols);
    } else {
      var cols' := (j: nat) => Sigma(n - 1, Col(g, j));
      SigmaSwap(n - 1, m, g, rows, cols');
      forall j: nat | j < m ensures Same(cols(j), Add(cols'(j), Row(g, n - 1)(j))) {
      }
      SigmaAdd(m, cols', Row(g, n - 1), cols);
      AddCongruent(Sigma(n - 1, rows), Sigma(m, cols'), rows(n - 1), Sigma(m, Row(g, n - 1)));
    }
  }

  /** A left factor distributes over a sum. */
  lemma MulSigmaRight(a: Poly, n: nat, g: nat -> Poly, s: nat -> Poly)
    requires forall j: nat :: j < n ==> Same(s(j), Mul(a, g(j)))
    ensures Same(Sigma(n, s), Mul(a, Sigma(n, g)))
  {
    if n == 0 {
      MulByZero(a, []);
    } else {
      MulSigmaRight(a, n - 1, g, s);
      MulAddRight(a, Sigma(n - 1, g), g(n - 1));
      AddCongruent(Sigma(n - 1, s), Mul(a, Sigma(n - 1, g)), s(n - 1), Mul(a, g(n - 1)));
    }
  }

  /** A right factor distributes over a sum. */
  lemma MulSigmaLeft(b: Poly, n: nat, g: nat -> Poly, s: nat -> Poly)
    requires forall j: nat :: j < n ==> Same(s(j), Mul(g(j), b))
    ensures Same(Sigma(n, s), Mul(Sigma(n, g), b))
  {
    if n == 0 {
      MulByZero([], b);
    } else {
      MulSigmaLeft(b, n - 1, g, s);
      MulAddLeft(Sigma(n - 1, g), g(n - 1), b);
      AddCongruent(Sigma(n - 1, s), Mul(Sigma(n - 1, g), b), s(n - 1), Mul(g(n - 1), b));
    }
  }
}
