/**
 * Machine-level vocabulary shared by the ciphertext model: bytes, 64-bit
 * unsigned words (the width of both `size_type` and `uint64_t` on the
 * 64-bit platforms the library targets), the errors the container raises,
 * and the overflow-checked multiplication `mul_safe`.
 */
module Common {

  /** 2^64: one more than the largest `size_type` / `uint64_t` value. */
  const WORD_BOUND: int := 0x1_0000_0000_0000_0000

  /** The largest value of `size_type`, `std::numeric_limits<size_type>::max()`. */
  const SIZE_TYPE_MAX: int := WORD_BOUND - 1

  type byte = x: int | 0 <= x < 256

  /** A 64-bit unsigned machine word. */
  type U64 = x: int | 0 <= x < WORD_BOUND

  /**
   * The errors the container raises. The first six are the
   * `std::invalid_argument` messages of ciphertext.cpp, `Overflow` is the
   * `std::logic_error` of `mul_safe`, and `StreamFailure` is a read that runs
   * past the end of the input (a set failbit, which the strict exception mask
   * turns into an exception).
   */
  datatype Error =
    | InvalidContext        // "invalid context"
    | ParametersNotSet      // "encryption parameters are not set correctly"
    | InvalidParmsId        // "parms_id is not valid for encryption parameters"
    | InvalidSizeCapacity   // "invalid size_capacity"
    | InvalidSize           // "invalid size"
    | InvalidData           // "ciphertext data is invalid"
    | Overflow              // "unsigned overflow"
    | StreamFailure

  datatype Option<+T> = None | Some(value: T)

  /** A value or the exception that was thrown instead. */
  datatype Result<+T> = Ok(value: T) | Err(error: Error) {
    predicate IsFailure() { Err? }

    function PropagateFailure<U>(): Result<U>
      requires Err?
    {
      Err(error)
    }

    function Extract(): T
      requires Ok?
    {
      value
    }
  }

  /** The outcome of a `void` operation: it returned, or it threw. */
  datatype Status = Pass | Fail(error: Error)

  function Min(a: int, b: int): (m: int)
    ensures m <= a && m <= b && (m == a || m == b)
  {
    if a <= b then a else b
  }

  /** Multiplication by a natural number is monotone. */
  lemma MulMonotone(x: nat, y: int, z: int)
    requires y <= z
    ensures x * y <= x * z
  {
    var d := z - y;
    assert x * z == x * y + x * d;
  }

  /** The guard of `mul_safe` rejects exactly the products that do not fit. */
  lemma MulGuard(a: U64, b: U64)
    ensures (a != 0 && b > SIZE_TYPE_MAX / a) <==> a * b > SIZE_TYPE_MAX
  {
    if a != 0 {
      var q := SIZE_TYPE_MAX / a;
      var m := SIZE_TYPE_MAX % a;
      assert SIZE_TYPE_MAX == a * q + m && 0 <= m < a;
      if b > q {
        MulMonotone(a, q + 1, b);
        assert a * (q + 1) == a * q + a;
      } else {
        MulMonotone(a, b, q);
      }
    }
  }

  /**
   * `mul_safe(a, b)` for unsigned operands: the product, or `Overflow` when
   * it is not representable.
   */
  function MulSafe(a: U64, b: U64): (r: Result<U64>)
    ensures r.Ok? <==> a * b < WORD_BOUND
    ensures r.Ok? ==> r.value == a * b
    ensures r.Err? ==> r.error == Overflow
  {
    MulGuard(a, b);
    if a != 0 && b > SIZE_TYPE_MAX / a then Err(Overflow) else Ok(a * b)
  }

  /**
   * The three-operand `mul_safe(a, b, c)`, a left fold: `a * b` is checked
   * first, so it fails even when `c == 0` if `a * b` alone overflows.
   */
  function MulSafe3(a: U64, b: U64, c: U64): (r: Result<U64>)
    ensures r.Ok? <==> a * b < WORD_BOUND && a * b * c < WORD_BOUND
    ensures r.Ok? ==> r.value == a * b * c
    ensures r.Err? ==> r.error == Overflow
  {
    var ab :- MulSafe(a, b);
    MulSafe(ab, c)
  }

  /** When no factor is zero, the left fold fails exactly when the whole product overflows. */
  lemma MulSafe3NonzeroFactors(a: U64, b: U64, c: U64)
    requires c > 0
    ensures MulSafe3(a, b, c).Ok? <==> a * b * c < WORD_BOUND
  {
    assert a * b <= a * b * c by {
      assert a * b * c - a * b == a * b * (c - 1);
      assert a * b * (c - 1) >= 0;
    }
  }

  /** With a zero last factor the product is zero, yet the fold still reports an overflow of `a * b`. */
  lemma MulSafe3ZeroFactor(a: U64, b: U64)
    ensures MulSafe3(a, b, 0).Ok? <==> a * b < WORD_BOUND
  {
  }
}
