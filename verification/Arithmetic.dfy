/** The few facts of non-linear arithmetic that the other modules need. */
module Arithmetic {
  lemma Monotone(k: nat, x: int, y: int)
    ensures x <= y ==> k * x <= k * y
  {
  }

  lemma DivMod(a: nat, size: nat)
    requires size > 0
    ensures a / size >= 0 && 0 <= a % size < size && a == size * (a / size) + a % size
  {
  }

  /** Quotient and remainder are the only ones. */
  lemma DivModUnique(a: nat, size: nat, q: nat, r: nat)
    requires size > 0 && r < size && a == size * q + r
    ensures a / size == q && a % size == r
  {
    var t := a / size;
    assert a == size * t + a % size;
    Monotone(size, t + 1, q);
    Monotone(size, q + 1, t);
    assert size * (t + 1) == size * t + size && size * (q + 1) == size * q + size;
  }
}
