/** Small datatypes shared by every module of the model. */
module Common {

  /** An optional value (Rust's `Option`). */
  datatype Option<T> = None | Some(value: T)

  /**
   * The outcome of an operation that can abort the program.  `Panic` stands
   * for a Rust panic: an index out of bounds, `unwrap` on an error, or an
   * arithmetic overflow that a debug build traps.
   */
  datatype Outcome<T> = Ok(value: T) | Panic

  /** An unsigned 8-bit value. */
  type byte = b: int | 0 <= b < 256

  function Min(a: int, b: int): int { if a <= b then a else b }
  function Max(a: int, b: int): int { if a >= b then a else b }
  function Abs(a: int): nat { if a < 0 then -a else a }

  /** Multiplying both sides of `a <= b` by the same natural number keeps the order. */
  lemma MulLeMono(a: int, b: int, c: nat)
    requires a <= b
    ensures a * c <= b * c
  {
    if c > 0 {
      MulLeMono(a, b, c - 1);
      assert a * c == a * (c - 1) + a && b * c == b * (c - 1) + b;
    }
  }

  /** Distributivity, stated for use as a proof step. */
  lemma MulAddSplit(a: int, b: int, c: int)
    ensures a * b + a * c == a * (b + c)
  {
  }

  /** Integer division is determined by the bracket that holds its dividend. */
  lemma DivUnique(n: int, d: int, k: int)
    requires d > 0
    requires d * k <= n < d * k + d
    ensures n / d == k
  {
    var q := n / d;
    if q < k {
      MulLeMono(q, k - 1, d);
    } else if q > k {
      MulLeMono(k + 1, q, d);
    }
  }
}
