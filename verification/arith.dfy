/** Facts about multiplication and division that the other modules share. */
module Arith {
  lemma MulGap(a: int, b: int, k: nat)
    requires a < b
    ensures a * k + k <= b * k
  {
    var d := b - a - 1;
    assert d * k >= 0;
    assert b * k == (a + d + 1) * k == a * k + d * k + k;
  }

  lemma MulMono(a: int, b: int, c: int)
    requires a <= b && 0 <= c
    ensures a * c <= b * c
  {
  }

  lemma MulLess(a: int, b: int, p: int)
    requires p >= 0 && a * p < b * p
    ensures a < b
  {
    if a >= b { MulMono(b, a, p); }
  }

  lemma MulOrder(a: int, b: int, bs: nat)
    requires bs > 0
    ensures a < b <==> a * bs < b * bs
  {
    if a < b { MulGap(a, b, bs); }
    if b < a { MulGap(b, a, bs); }
  }

  lemma Distribute(k: int, bs: nat)
    ensures (k + 1) * bs == k * bs + bs
  {
  }

  lemma Factor(a: int, b: int, bs: nat)
    ensures (a + b) * bs == a * bs + b * bs
  {
  }

  lemma DivFacts(x: int, bs: nat)
    requires bs > 0
    ensures x == (x / bs) * bs + x % bs && 0 <= x % bs < bs
  {
  }

  lemma MulDiv(k: int, bs: nat)
    requires bs > 0
    ensures (k * bs) / bs == k && (k * bs) % bs == 0
  {
    var x := k * bs;
    DivFacts(x, bs);
    if x / bs < k { MulGap(x / bs, k, bs); }
    if k < x / bs { MulGap(k, x / bs, bs); }
  }

  lemma ModUnique(x: int, q: int, r: int, n: nat)
    requires n > 0 && 0 <= r < n && x == q * n + r
    ensures x / n == q && x % n == r
  {
    DivFacts(x, n);
    if q < x / n { MulGap(q, x / n, n); }
    if x / n < q { MulGap(x / n, q, n); }
  }
}
