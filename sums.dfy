/** Sums and products of lists of naturals, as the solvers' `sum()` and
    `product()` fold them, first to last. */
module Sums {

  function Sum(s: seq<nat>): nat {
    if s == [] then 0 else Sum(s[..|s| - 1]) + s[|s| - 1]
  }

  function Product(s: seq<nat>): nat {
    if s == [] then 1 else Product(s[..|s| - 1]) * s[|s| - 1]
  }

  /** The sum of two lists side by side is the sum of their sums. */
  lemma {:induction false} SumAppend(a: seq<nat>, b: seq<nat>)
    ensures Sum(a + b) == Sum(a) + Sum(b)
    decreases |b|
  {
    if b != [] {
      var m := |b| - 1;
      var ab := a + b;
      assert ab[..|ab| - 1] == a + b[..m];
      assert ab[|ab| - 1] == b[m];
      SumAppend(a, b[..m]);
      assert Sum(ab) == Sum(a + b[..m]) + b[m];
    } else {
      assert a + b == a;
    }
  }
}
