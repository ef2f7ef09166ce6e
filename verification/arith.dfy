/** Integer multiplication and division facts the solver does not find by
    itself; used for bucket alignment and the proportional byte shares. */
module Arith {

  lemma MulAtLeast(b: int, k: int)
    requires b > 0 && k >= 1
    ensures b * k >= b
  {
    assert b * k == b * (k - 1) + b;
    assert b * (k - 1) >= 0;
  }

  lemma MulAtMost(b: int, k: int)
    requires b > 0 && k <= -1
    ensures b * k <= -b
  {
    MulAtLeast(b, -k);
    assert b * k == -(b * (-k));
  }

  /** Euclidean division by a positive divisor floors. */
  lemma DivMod(x: int, b: int)
    requires b > 0
    ensures x == (x / b) * b + x % b && 0 <= x % b < b
  {
  }

  /** A multiple of `b` divides back exactly. */
  lemma MulDiv(q: int, b: int)
    requires b > 0
    ensures (q * b) / b == q && (q * b) % b == 0
  {
    var x := q * b;
    var d := x / b;
    var r := x % b;
    DivMod(x, b);
    assert r == b * (q - d);
    if q - d >= 1 {
      MulAtLeast(b, q - d);
    } else if q - d <= -1 {
      MulAtMost(b, q - d);
    }
  }

  /** Two multiples of `b` less than `b` apart are equal. */
  lemma MultiplesClose(q: int, q': int, b: int)
    requires b > 0 && -b < q * b - q' * b < b
    ensures q == q'
  {
    assert q * b - q' * b == b * (q - q');
    if q - q' >= 1 {
      MulAtLeast(b, q - q');
    } else if q - q' <= -1 {
      MulAtMost(b, q - q');
    }
  }

  /** Multiples of `b` are ordered as their factors. */
  lemma MultiplesOrdered(q: int, q': int, b: int)
    requires b > 0 && q <= q'
    ensures q * b <= q' * b
  {
    if q < q' {
      MulAtLeast(b, q' - q);
      assert q' * b - q * b == b * (q' - q);
    }
  }

  /** A multiple of `b` below another is at least `b` below it. */
  lemma MultiplesGap(q: int, q': int, b: int)
    requires b > 0 && q * b < q' * b
    ensures q * b + b <= q' * b
  {
    assert q' * b - q * b == b * (q' - q);
    if q' - q <= 0 {
      if q' - q <= -1 {
        MulAtMost(b, q' - q);
      }
    } else {
      MulAtLeast(b, q' - q);
    }
  }

  /** `int(x / n)` in Python truncates toward zero. */
  function TruncDiv(x: int, n: int): (r: int)
    requires n > 0
    ensures x >= 0 ==> r >= 0 && 0 <= r * n <= x < r * n + n
    ensures x < 0 ==> x <= r * n <= 0
  {
    DivMod(x, n);
    DivMod(-x, n);
    if x >= 0 then
      (MulNonNegative(x / n, n); x / n)
    else
      (MulNonNegative((-x) / n, n); -((-x) / n))
  }

  lemma MulNonNegative(a: int, b: int)
    requires a >= 0 && b > 0
    ensures a * b >= 0
  {
  }
}
