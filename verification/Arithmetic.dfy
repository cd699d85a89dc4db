/**
  Facts about products and floor division that the solver does not find on its own.

  A floor quotient `q` of `n` by `d` is used through its two bounds, `q * d <= n < (q + 1) * d`; the lemmas whose
  names start with `Floor` are about any number within such bounds.
 */
module Arithmetic {
  lemma MulMono(a: int, b: int, c: int)
    requires a <= b && c >= 0
    ensures a * c <= b * c && c * a <= c * b
  {
  }

  lemma MulSign(a: nat, b: nat)
    ensures a * b > 0 <==> a > 0 && b > 0
  {
    if a > 0 && b > 0 {
      MulMono(1, a, b);
    }
  }

  lemma MulAssoc(a: int, b: int, c: int)
    ensures (a * b) * c == a * (b * c) == a * (c * b)
  {
  }

  lemma SumOfProducts(x: int, y: int, c: int)
    ensures x * c + y * c == (x + y) * c == c * (x + y)
  {
  }

  /** `c` cancels from an inequality of products. */
  lemma MulCancel(a: int, b: int, c: int)
    requires a * c <= b * c && c > 0
    ensures a <= b
  {
    if a > b {
      MulMono(b + 1, a, c);
      SumOfProducts(b, 1, c);
    }
  }

  lemma DivBounds(a: nat, b: nat)
    requires b > 0
    ensures (a / b) * b <= a < (a / b + 1) * b
  {
    assert a == (a / b) * b + a % b;
    SumOfProducts(a / b, 1, b);
  }

  lemma FloorReaches(a: int, b: int, c: int, q: int)
    requires b > 0 && q * b <= a < (q + 1) * b
    ensures q >= c <==> a >= b * c
  {
    if q >= c {
      MulMono(c, q, b);
    } else {
      MulMono(q + 1, c, b);
    }
  }

  /** A floor quotient reaches `c` exactly when the dividend reaches `b * c`. */
  lemma DivReaches(a: nat, b: nat, c: nat)
    requires b > 0
    ensures a / b >= c <==> a >= b * c
  {
    DivBounds(a, b);
    FloorReaches(a, b, c, a / b);
  }

  /** When the floor of `a * q / b` is `q` itself. */
  lemma FloorIsFactor(a: int, q: int, b: int, w: int)
    requires b > 0 && q > 0 && w * b <= a * q < (w + 1) * b
    ensures w == q <==> b <= a && (a - b) * q < b
  {
    SumOfProducts(a - b, b, q);
    SumOfProducts(q, 1, b);
    FloorReaches(a * q, b, q, w);
    FloorReaches(a * q, b, q + 1, w);
    if b <= a {
      MulMono(0, a - b, q);
    } else {
      MulMono(a - b, -1, q);
    }
  }

  lemma FloorMono(a: int, b: int, c: int, d: int, x: int, z: int)
    requires 0 <= a <= c && b >= d > 0 && x >= 0
    requires x * b <= a && c < (z + 1) * d
    ensures x <= z
  {
    if x > z {
      MulMono(d, b, x);
      MulMono(z + 1, x, d);
    }
  }

  /** A larger dividend over a smaller divisor gives a larger quotient. */
  lemma DivMono(a: nat, b: nat, c: nat, d: nat)
    requires a <= c && b >= d > 0
    ensures a / b <= c / d
  {
    DivPositive(a, b);
    DivBounds(a, b);
    DivBounds(c, d);
    FloorMono(a, b, c, d, a / b, c / d);
  }

  lemma DivPositive(a: nat, b: nat)
    requires b > 0
    ensures a / b >= 0
  {
  }

  lemma FloorSum(a: int, b: int, c: int, x: int, y: int, z: int)
    requires c > 0 && x * c <= a && y * c <= b && a + b < (z + 1) * c
    ensures x + y <= z
  {
    SumOfProducts(x, y, c);
    if x + y > z {
      MulMono(z + 1, x + y, c);
    }
  }

  /** Floor is superadditive. */
  lemma DivSum(a: nat, b: nat, c: nat)
    requires c > 0
    ensures a / c + b / c <= (a + b) / c
  {
    DivBounds(a, c);
    DivBounds(b, c);
    DivBounds(a + b, c);
    FloorSum(a, b, c, a / c, b / c, (a + b) / c);
  }

  /** The quotient rounded up past, one less, and two less, against the dividend. */
  lemma DivNeighbours(n: nat, d: nat)
    requires d > 0
    ensures (n / d + 1) * d > n
    ensures (n / d) * d <= n && ((n / d) * d == n <==> n % d == 0)
    ensures (n / d - 1) * d < n || n == 0
  {
    DivBounds(n, d);
    assert n == (n / d) * d + n % d;
    SumOfProducts(n / d, -1, d);
  }
}
