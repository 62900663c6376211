// Multiplication and division of integers.
module Arithmetic {

  lemma Mono(a: int, b: int, c: int)
    requires a <= b && 0 <= c
    ensures a * c <= b * c && c * a <= c * b
  {
  }

  lemma Assoc(a: int, b: int, c: int)
    ensures a * (b * c) == a * b * c
  {
  }

  lemma Distribute(a: int, b: int, c: int)
    ensures (a + b) * c == a * c + b * c && c * (a + b) == c * a + c * b
  {
  }

  lemma DivSmall(x: nat, d: nat)
    requires d > 0
    ensures 0 <= x / d <= x
  {
    Mono(1, d, x / d);
    assert x == d * (x / d) + x % d;
  }

  lemma DivUnique(a: int, d: int, q: int, r: int)
    requires d > 0 && a == q * d + r && 0 <= r < d
    ensures a / d == q && a % d == r
  {
    var q', r' := a / d, a % d;
    assert a == d * q' + r';
    Distribute(q, -q', d);
    assert (q - q') * d == r' - r;
    if q > q' {
      Mono(1, q - q', d);
    } else if q < q' {
      Mono(q - q', -1, d);
    }
  }

  lemma NonZero(w: int, s: int)
    requires s > 0
    ensures w * s == 0 <==> w == 0
  {
    if w != 0 {
      Mono(1, s, if w > 0 then w else -w);
    }
  }
}
