/**
 * Shared vocabulary of the model: optional values, the machine integer
 * widths the C++ sources rely on, and the exception kinds they throw.
 */
module Base {

  /** `std::optional<T>`. */
  datatype Option<T> = None | Some(value: T)

  /** The two standard exception classes thrown by the modelled code. */
  datatype Error = LogicError | RuntimeError

  /** A value, or the exception thrown instead of returning it. */
  datatype Result<T> = Ok(value: T) | Err(error: Error)

  /**
   * The state of an object after a mutating call: the call returned, or it
   * threw, leaving the object in whatever state it had reached by then.
   */
  datatype Outcome<S> = Done(state: S) | Threw(error: Error, state: S)

  /** `uint8_t`. */
  type byte = x: int | 0 <= x < 256

  const U16_LIMIT: nat := 0x1_0000
  const U32_LIMIT: nat := 0x1_0000_0000
  const U64_LIMIT: nat := 0x1_0000_0000_0000_0000

  /** Unsigned `size_t` subtraction, which wraps modulo 2^64. */
  function SizeSub(a: nat, b: nat): (r: nat)
    requires a < U64_LIMIT && b < U64_LIMIT
    ensures r < U64_LIMIT
    ensures b <= a ==> r == a - b
    ensures a < b ==> r == U64_LIMIT + a - b
  {
    (a - b) % U64_LIMIT
  }

  /** `static_cast<uint16_t>` of a natural number: reduction modulo 2^16. */
  function U16Cast(n: nat): (r: nat)
    ensures r < U16_LIMIT
    ensures n < U16_LIMIT ==> r == n
  {
    n % U16_LIMIT
  }

  /** `x^n` for a natural exponent. */
  function Pow(x: real, n: nat): real
  {
    if n == 0 then 1.0 else x * Pow(x, n - 1)
  }

  /** `2^n` over the integers; it outgrows its exponent. */
  function Pow2(n: nat): (r: nat)
    ensures r > n
  {
    if n == 0 then 1 else 2 * Pow2(n - 1)
  }

  /** Exponents add when powers of two multiply. */
  lemma {:induction false} Pow2Add(a: nat, b: nat)
    ensures Pow2(a + b) == Pow2(a) * Pow2(b)
  {
    if a > 0 {
      Pow2Add(a - 1, b);
      assert Pow2(a + b) == 2 * Pow2(a - 1 + b);
    }
  }

  /** The first position of `x` in `s`, as `std::find` finds it. */
  function IndexOf<T(==)>(s: seq<T>, x: T): (r: Option<nat>)
    ensures r.None? <==> x !in s
    ensures r.Some? ==> r.value < |s| && s[r.value] == x && x !in s[..r.value]
  {
    if |s| == 0 then None
    else if s[0] == x then Some(0)
    else match IndexOf(s[1..], x)
      case None => None
      case Some(k) =>
        assert s[..k + 1] == [s[0]] + s[1..][..k];
        Some(k + 1)
  }

  /** The first occurrence of a separator that the prefix does not contain is right after the prefix. */
  lemma IndexOfAfter<T>(a: seq<T>, x: T, b: seq<T>)
    requires x !in a
    ensures IndexOf(a + [x] + b, x) == Some(|a|)
  {
    var s := a + [x] + b;
    assert s[..|a|] == a;
    assert s[|a|] == x;
  }
}
