// Small facts about multiplication and Euclidean division on naturals that
// the index arithmetic of the transpose and of the work partitions rests on.
module Arith {

  /** Multiplying both sides of `a <= b` by the same natural keeps the order. */
  lemma MulMono(a: int, b: int, c: nat)
    requires a <= b
    ensures a * c <= b * c
  {
    var d := b - a;
    assert b * c == a * c + d * c;
  }

  /** `q * n + r` with `0 <= r < n` has quotient `q` and remainder `r`. */
  lemma DivModOf(n: nat, q: int, r: int)
    requires 0 <= r < n
    ensures (q * n + r) / n == q && (q * n + r) % n == r
  {
    var k := q * n + r;
    var q', r' := k / n, k % n;
    assert k == q' * n + r';
    if q' < q {
      MulMono(q' + 1, q, n);
    } else if q < q' {
      MulMono(q + 1, q', n);
    }
  }

  /** A multiple of `b` that is below another multiple of `b` is at least `b` below it. */
  lemma NextMultiple(b: nat, x: int, n: int)
    requires b >= 1 && x % b == 0 && n % b == 0 && x < n
    ensures x + b <= n
  {
    var p, q := x / b, n / b;
    assert x == p * b && n == q * b;
    if q <= p {
      MulMono(q, p, b);
    }
    MulMono(p + 1, q, b);
  }

  /** Adding `b` to a multiple of `b` gives a multiple of `b`. */
  lemma StepMultiple(b: nat, x: int)
    requires b >= 1 && x % b == 0
    ensures (x + b) % b == 0
  {
    DivModOf(b, x / b + 1, 0);
    assert x + b == (x / b + 1) * b;
  }
}
