/** Facts about products and quotients that the other modules need one at a time. */
module Arith {
  lemma MulMono(a: int, b: int, k: nat)
    requires a <= b
    ensures a * k <= b * k
  {
  }

  lemma MulReflects(a: int, b: int, k: nat)
    requires a * k < b * k
    ensures a < b
  {
    if b <= a { MulMono(b, a, k); }
  }

  lemma MulSub(a: int, b: int, k: int)
    ensures (a - b) * k == a * k - b * k
    ensures (a + b) * k == a * k + b * k
  {
  }

  lemma DivOfMul(a: int, k: nat)
    requires k > 0
    ensures (a * k) / k == a && (a * k) % k == 0
  {
    DivUnique(a * k, k, a, 0);
  }

  lemma DivUnique(x: int, k: nat, q: int, r: int)
    requires k > 0 && x == q * k + r && 0 <= r < k
    ensures x / k == q && x % k == r
  {
    var q', r' := x / k, x % k;
    assert x == q' * k + r';
    MulSub(q, q', k);
    if q < q' { MulMono(1, q' - q, k); MulSub(q', q, k); }
    if q' < q { MulMono(1, q - q', k); }
  }

  /** A product by name, for loops over blocks of b that need no more about it than its steps. */
  function Times(a: nat, b: nat): nat {
    a * b
  }

  lemma TimesNext(a: nat, b: nat)
    ensures Times(a + 1, b) == Times(a, b) + b && Times(0, b) == 0
  {
    MulSub(a, 1, b);
  }

  lemma TimesMono(a: nat, c: nat, b: nat)
    requires a <= c
    ensures Times(a, b) <= Times(c, b)
  {
    MulMono(a, c, b);
  }
}
