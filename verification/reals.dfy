/** Exact real arithmetic standing in for Python floats: an abstract square
    root, and finite sums over a set of keys (the counterpart of the
    accumulating loops `h += w * sign` and `next_beta_sq += w_prime**2`,
    whose iteration order does not matter over the reals). */
module Reals {

  /** `x**2`. Products are kept behind this function so that the solver
      reasons about squares through the lemmas below. */
  function Square(x: real): real {
    x * x
  }

  /** `sqrt` behaves as the square root (`x**0.5`) on non-negative reals. */
  ghost predicate IsSqrt(sqrt: real -> real) {
    forall x | 0.0 <= x :: 0.0 <= sqrt(x) && Square(sqrt(x)) == x
  }

  /** A square is non-negative, and zero only for zero. */
  lemma SquareSign(x: real)
    ensures 0.0 <= Square(x)
    ensures Square(x) == 0.0 <==> x == 0.0
  {
    if x != 0.0 {
      SquarePositive(x);
    }
  }

  lemma SquarePositive(x: real)
    requires x != 0.0
    ensures 0.0 < Square(x)
  {
    if x < 0.0 {
      calc {
        Square(x);
        (-x) * (-x);
      >
        0.0 * (-x);
      }
    } else {
      calc {
        Square(x);
        x * x;
      >
        0.0 * x;
      }
    }
  }

  /** A square root is zero exactly when its argument is. */
  lemma SqrtZero(sqrt: real -> real, x: real)
    requires IsSqrt(sqrt) && 0.0 <= x
    ensures sqrt(x) == 0.0 <==> x == 0.0
  {
    SquareSign(sqrt(x));
  }

  /** The root of 1/x, for positive x, is positive and its square times x
      is 1. */
  lemma InverseRoot(sqrt: real -> real, x: real)
    requires IsSqrt(sqrt) && 0.0 < x
    ensures 0.0 < sqrt(1.0 / x)
    ensures Square(sqrt(1.0 / x)) * x == 1.0
  {
    var y := 1.0 / x;
    SqrtZero(sqrt, y);
    assert Square(sqrt(y)) == y;
    assert y * x == 1.0;
  }

  /** Squaring a quotient divides the square by the squared divisor. */
  lemma DivSquare(r: real, b: real)
    requires b != 0.0
    ensures Square(b) != 0.0 && Square(r / b) == Square(r) / Square(b)
  {
    SquarePositive(b);
  }

  /** The square of a positive number is positive and cancels against its
      reciprocal. */
  lemma InverseSquare(b: real)
    requires 0.0 < b
    ensures 0.0 < Square(b)
    ensures Square(b) / Square(b) == 1.0
    ensures (1.0 / Square(b)) * Square(b) == 1.0
  {
    SquarePositive(b);
  }

  lemma DivMul(x: real, b: real)
    requires b != 0.0
    ensures (x / b) * b == x
  {
  }

  /** Some element of a non-empty set; the same one every time. */
  ghost function Pick<T>(s: set<T>): (x: T)
    requires s != {}
    ensures x in s
  {
    var x :| x in s; x
  }

  ghost function Sum<T>(s: set<T>, f: T -> real): real
    decreases s
  {
    if s == {} then 0.0 else var x := Pick(s); f(x) + Sum(s - {x}, f)
  }

  /** A constant factor comes out of the sum. */
  lemma {:induction false} SumScale<T>(s: set<T>, f: T -> real, g: T -> real, c: real)
    requires forall x | x in s :: g(x) == c * f(x)
    ensures Sum(s, g) == c * Sum(s, f)
    decreases s
  {
    if s != {} {
      var x := Pick(s);
      SumScale(s - {x}, f, g, c);
      assert Sum(s, f) == f(x) + Sum(s - {x}, f);
      assert Sum(s, g) == g(x) + Sum(s - {x}, g);
    }
  }

  /** A sum of non-negative terms is non-negative, and it is zero only when
      every term is. */
  lemma {:induction false} SumNonNegative<T>(s: set<T>, f: T -> real)
    requires forall x | x in s :: 0.0 <= f(x)
    ensures 0.0 <= Sum(s, f)
    ensures Sum(s, f) == 0.0 ==> forall x | x in s :: f(x) == 0.0
    decreases s
  {
    if s != {} {
      var x := Pick(s);
      SumNonNegative(s - {x}, f);
      assert Sum(s, f) == f(x) + Sum(s - {x}, f);
    }
  }

  /** A non-empty sum of positive terms is positive. */
  lemma SumPositive<T>(s: set<T>, f: T -> real)
    requires s != {}
    requires forall x | x in s :: 0.0 < f(x)
    ensures 0.0 < Sum(s, f)
  {
    SumNonNegative(s, f);
    var x :| x in s;
    assert f(x) != 0.0;
  }

  lemma SumSingleton<T>(a: T, f: T -> real)
    ensures Sum({a}, f) == f(a)
  {
    var x := Pick({a});
    assert x == a;
    assert {a} - {x} == {};
  }

  lemma SumPair<T>(a: T, b: T, f: T -> real)
    requires a != b
    ensures Sum({a, b}, f) == f(a) + f(b)
  {
    var x := Pick({a, b});
    if x == a {
      assert {a, b} - {x} == {b};
      SumSingleton(b, f);
    } else {
      assert {a, b} - {x} == {a};
      SumSingleton(a, f);
    }
  }
}
