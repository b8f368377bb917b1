/** Products and quotients of natural numbers. */
module Arithmetic {
  lemma {:induction false} MulStep(a: nat, b: nat, c: nat)
    requires a < b
    ensures a * c + c <= b * c
  {
    if a + 1 < b {
      MulStep(a, b - 1, c);
      assert b * c == (b - 1) * c + c;
    } else {
      assert b * c == a * c + c;
    }
  }

  lemma DivMod(q: nat, m: nat, c: nat)
    requires m < c
    ensures (q * c + m) / c == q && (q * c + m) % c == m
  {
    var x := q * c + m;
    assert x == (x / c) * c + x % c;
    if x / c < q {
      MulStep(x / c, q, c);
    } else if x / c > q {
      MulStep(q, x / c, c);
    }
  }

  lemma Swap(x: nat, y: nat)
    ensures x * y == y * x
  {}
}
