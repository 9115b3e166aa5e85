/** Exact rational numbers num/den, as the computer-algebra system keeps the
    coefficients of the recurrence. Fractions are not kept reduced; the
    reduced denominator is computed on demand, as the divisor search needs it. */
module Rationals {

  type Positive = n: int | n > 0 witness 1

  datatype Rat = Rat(num: int, den: Positive)

  /** The number a rational denotes. */
  function Value(q: Rat): real {
    q.num as real / q.den as real
  }

  function FromInt(z: int): (q: Rat)
    ensures Value(q) == z as real
  {
    Rat(z, 1)
  }

  lemma ValueZero(q: Rat)
    ensures Value(q) == 0.0 <==> q.num == 0
  {
  }

  lemma SumOfQuotients(a: int, x: int, b: int, y: int)
    requires x > 0 && y > 0
    ensures (a * y + b * x) as real / (x * y) as real == a as real / x as real + b as real / y as real
  {
    var X, Y := x as real, y as real;
    assert (x * y) as real == X * Y;
    assert (a * y + b * x) as real == a as real * Y + b as real * X;
    assert (a as real * Y + b as real * X) / (X * Y) == a as real / X + b as real / Y;
  }

  function Plus(a: Rat, b: Rat): (r: Rat)
    ensures Value(r) == Value(a) + Value(b)
  {
    SumOfQuotients(a.num, a.den, b.num, b.den);
    Rat(a.num * b.den + b.num * a.den, a.den * b.den)
  }

  lemma ScaledQuotient(k: int, a: int, x: int)
    requires x > 0
    ensures (k * a) as real / x as real == k as real * (a as real / x as real)
  {
    assert (k * a) as real == k as real * a as real;
  }

  /** An integer multiple of a rational. */
  function Times(k: int, a: Rat): (r: Rat)
    ensures Value(r) == k as real * Value(a)
  {
    ScaledQuotient(k, a.num, a.den);
    Rat(k * a.num, a.den)
  }

  /** Conversion of a rational to an integer by truncation toward zero, as
      Python's `int()` does. */
  function Truncate(x: real): (z: int)
    ensures 0.0 <= x ==> z as real <= x < z as real + 1.0
    ensures x < 0.0 ==> z as real - 1.0 < x <= z as real
  {
    if 0.0 <= x then x.Floor else -((-x).Floor)
  }

  // ---------------------------------------------------------------------
  // Reduced form.

  function Abs(z: int): nat {
    if z < 0 then -z else z
  }

  /** Greatest common divisor by Euclid's algorithm. */
  function Gcd(a: nat, b: nat): nat
    decreases b
  {
    if b == 0 then a else Gcd(b, a % b)
  }

  lemma {:induction false} GcdDivides(a: nat, b: nat)
    requires a > 0 || b > 0
    ensures Gcd(a, b) > 0 && a % Gcd(a, b) == 0 && b % Gcd(a, b) == 0
    decreases b
  {
    if b != 0 {
      GcdDivides(b, a % b);
      var g := Gcd(b, a % b);
      DividesCombination(g, b, a % b, a / b, a);
    }
  }

  lemma DividesCombination(g: int, b: int, r: int, t: int, a: int)
    requires g > 0 && b % g == 0 && r % g == 0 && a == t * b + r
    ensures a % g == 0
  {
    var u, v := b / g, r / g;
    assert b == u * g && r == v * g;
    assert a == (t * u + v) * g;
    MultipleMod(t * u + v, g);
  }

  lemma MultipleMod(k: int, g: int)
    requires g > 0
    ensures (k * g) % g == 0
  {
    var q := (k * g) / g;
    var s := (k * g) % g;
    assert (k - q) * g == s by {
      assert k * g == q * g + s;
    }
    if k - q >= 1 {
      assert false;
    } else if k - q <= -1 {
      assert false;
    }
  }

  /** Denominator of the fraction in lowest terms (1 for zero). */
  function Denominator(q: Rat): (d: Positive)
  {
    GcdDivides(Abs(q.num), q.den);
    q.den / Gcd(Abs(q.num), q.den)
  }

  /** Numerator of the fraction in lowest terms. */
  function Numerator(q: Rat): int
  {
    GcdDivides(Abs(q.num), q.den);
    q.num / Gcd(Abs(q.num), q.den)
  }

  /** The reduced fraction denotes the same number. */
  lemma ReducedValue(q: Rat)
    ensures Numerator(q) as real == Denominator(q) as real * Value(q)
  {
    GcdDivides(Abs(q.num), q.den);
    var g := Gcd(Abs(q.num), q.den);
    var n, d := q.num / g, q.den / g;
    assert q.den == d * g;
    assert q.num == n * g by {
      if q.num < 0 {
        assert Abs(q.num) == -q.num;
        NegatedDivision(q.num, g);
      }
    }
    QuotientCancels(n, d, g);
  }

  lemma NegatedDivision(a: int, g: int)
    requires g > 0 && a < 0 && (-a) % g == 0
    ensures a % g == 0
  {
    var k := (-a) / g;
    assert -a == k * g;
    assert a == (-k) * g;
    MultipleMod(-k, g);
  }

  lemma QuotientCancels(n: int, d: int, g: int)
    requires d > 0 && g > 0
    ensures n as real == d as real * ((n * g) as real / (d * g) as real)
  {
    var N, D, G := n as real, d as real, g as real;
    assert (n * g) as real == N * G;
    assert (d * g) as real == D * G;
    assert (N * G) / (D * G) == N / D;
  }

  /** k * q is an integer whenever the reduced denominator of q divides k;
      this is that integer. */
  function ClearedBy(k: int, q: Rat): (z: int)
    requires k % Denominator(q) == 0
    ensures z as real == k as real * Value(q)
  {
    ReducedValue(q);
    var t := k / Denominator(q);
    assert k == t * Denominator(q);
    assert (t * Numerator(q)) as real == t as real * Numerator(q) as real;
    t * Numerator(q)
  }
}
