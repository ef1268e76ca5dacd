/** Facts about products, quotients and remainders. */
module Arith {

  function Min(a: int, b: int): int { if a < b then a else b }

  function Max(a: int, b: int): int { if a > b then a else b }

  lemma {:induction false} MulMono(a: nat, b: nat, k: nat)
    requires a <= b
    ensures a * k <= b * k
    decreases b
  {
    if a < b {
      MulMono(a, b - 1, k);
      assert b * k == (b - 1) * k + k;
    }
  }

  /** A number determines its quotient and remainder. */
  lemma DivModUnique(x: nat, q: nat, d: nat, r: nat)
    requires r < d && x == q * d + r
    ensures x / d == q && x % d == r
  {
    var p, s := x / d, x % d;
    assert x == p * d + s;
    assert (p + 1) * d == p * d + d && (q + 1) * d == q * d + d;
    if p > q {
      MulMono(q + 1, p, d);
    } else if p < q {
      MulMono(p + 1, q, d);
    }
  }

  lemma DivMono(a: nat, b: nat, d: nat)
    requires a <= b && d > 0
    ensures a / d <= b / d
  {
    var p, q := a / d, b / d;
    assert a == p * d + a % d && b == q * d + b % d;
    assert (q + 1) * d == q * d + d;
    if p > q {
      MulMono(q + 1, p, d);
    }
  }

  /** Part of a row of a pixmap lies inside the pixmap. */
  lemma RowInside(bufferWidth: nat, bufferHeight: nat, x: nat, y: nat, width: nat)
    requires x + width <= bufferWidth && y < bufferHeight
    ensures y * bufferWidth + x + width <= bufferHeight * bufferWidth
  {
    MulMono(y + 1, bufferHeight, bufferWidth);
    assert (y + 1) * bufferWidth == y * bufferWidth + bufferWidth;
  }
}
