/** Facts about division by a piece or chunk length, used by the layout and streaming proofs. */
module Arithmetic {

  function Min(a: int, b: int): int { if a <= b then a else b }

  function Max(a: int, b: int): int { if a <= b then b else a }

  lemma DivBounds(b: int, n: int)
    requires 0 < n
    ensures (b / n) * n <= b < (b / n) * n + n
    ensures b % n == b - (b / n) * n
  {
    assert b == n * (b / n) + b % n;
  }

  lemma MulMono(a: int, b: int, n: int)
    requires a <= b && 0 <= n
    ensures a * n <= b * n
  {
    assert 0 <= (b - a) * n;
  }

  lemma MulSucc(a: int, n: int)
    ensures (a + 1) * n == a * n + n
  {
  }

  lemma MulSub(a: int, b: int, n: int)
    ensures (a - b) * n == a * n - b * n
  {
  }

  lemma DivUnique(b: int, n: int, q: int)
    requires 0 < n && q * n <= b < q * n + n
    ensures b / n == q
  {
    DivBounds(b, n);
    var d := b / n;
    MulSucc(d, n);
    MulSucc(q, n);
    if d < q {
      MulMono(d + 1, q, n);
    } else if q < d {
      MulMono(q + 1, d, n);
    }
  }

  lemma DivMono(a: int, b: int, n: int)
    requires a <= b && 0 < n
    ensures a / n <= b / n
  {
    DivBounds(a, n);
    DivBounds(b, n);
    var p, q := a / n, b / n;
    MulSucc(q, n);
    if q < p {
      MulMono(q + 1, p, n);
    }
  }
}
