/** Small facts of integer arithmetic used by the proofs about indices and ranges. */
module Arith {

  function Min(a: int, b: int): (m: int)
    ensures m <= a && m <= b && (m == a || m == b)
  {
    if a <= b then a else b
  }

  /** The quotient of Dafny's `/` brackets the dividend. */
  lemma DivBounds(a: int, b: int)
    requires b > 0
    ensures (a / b) * b <= a < (a / b) * b + b
  {
  }

  /** Multiplying by a positive number keeps order. */
  lemma MulMonotone(x: int, y: int, c: int)
    requires x <= y && c > 0
    ensures x * c <= y * c
  {
  }

  /** One more multiple of `c`. */
  lemma MulSucc(k: int, c: int)
    ensures (k + 1) * c == k * c + c
  {
  }

  /** A decomposition `a == q*b + r` with `0 <= r < b` is the one `/` and `%` compute. */
  lemma DivModUnique(a: int, b: int, q: int, r: int)
    requires b > 0 && 0 <= r < b && a == q * b + r
    ensures a / b == q && a % b == r
  {
    var q', r' := a / b, a % b;
    if q' < q {
      MulMonotone(q' + 1, q, b);
      assert false;
    } else if q < q' {
      MulMonotone(q + 1, q', b);
      assert false;
    }
  }
}
