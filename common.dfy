/** Shared vocabulary of the numerical-analysis model: IEEE sentinels, the
    exceptions the .NET runtime raises, complex numbers, exact powers,
    factorials, floor logarithms and dense matrices as sequences of rows. */
module Common {

  /** A double that may be non-finite: `None` stands for NaN or an infinity,
      which is what a division by zero produces in the source. */
  datatype Option<+T> = None | Some(value: T)

  /** The run-time exceptions the source can raise. */
  datatype Exception =
    | IndexOutOfRange   // an array index outside the array
    | Overflow          // an array allocated with a negative length
    | InvalidArgument   // a setter or a method rejecting its argument
    | DivideByZero      // an integer division by zero

  datatype Result<+T> = Ok(value: T) | Err(error: Exception)

  /** `short.MaxValue`, the iteration cap of every iterative method. */
  const ShortMax: nat := 32767

  /** The range of a C# `int`, and the modulus of its wrap-around. */
  const IntMin: int := -0x8000_0000
  const IntMax: int := 0x7FFF_FFFF
  const Modulus: int := 0x1_0000_0000

  /** A C# `int`, and a non-negative one (a count or a size). */
  type Int32 = v: int | IntMin <= v <= IntMax
  type Nat32 = v: int | 0 <= v <= IntMax

  /** The 32-bit two's-complement value of `v`: `v` moved by multiples of
      2^32 into `[IntMin, IntMax]` (`WrapIsMod` in `ImagingPoints` gives the
      closed form). Unchecked C# `int` arithmetic returns this. */
  function Wrap32(v: int): Int32
    decreases if v < IntMin then IntMin - v else if v > IntMax then v - IntMax else 0
  {
    if v < IntMin then Wrap32(v + Modulus)
    else if v > IntMax then Wrap32(v - Modulus)
    else v
  }

  /** `v + 1` in unchecked C# `int` arithmetic, for a non-negative `v`: one
      more, except at `IntMax`, which wraps to `IntMin`. */
  function Increment32(v: Nat32): (s: Int32)
    ensures v < IntMax ==> s == v + 1
    ensures v == IntMax ==> s == IntMin
  {
    if v == IntMax then
      assert Wrap32(v + 1) == Wrap32(IntMin);
      Wrap32(v + 1)
    else Wrap32(v + 1)
  }

  /** A complex number, used only where the complex overloads behave differently
      from the real ones. */
  datatype Complex = Complex(re: real, im: real)

  function CMul(u: Complex, v: Complex): Complex {
    Complex(u.re * v.re - u.im * v.im, u.re * v.im + u.im * v.re)
  }

  /** `Math.Pow(x, k)` for a non-negative integer exponent, with `Pow(0, 0) == 1`. */
  function Pow(x: real, k: nat): real {
    if k == 0 then 1.0 else Pow(x, k - 1) * x
  }

  /** `2^k` as an integer: the divisor of a right shift by `k`. */
  function Pow2(k: nat): (r: nat)
    ensures r >= 1
  {
    if k == 0 then 1 else 2 * Pow2(k - 1)
  }

  /** `n >> k` for a non-negative `n`: `k` halvings, each rounding down (shift
      counts stay below 32 in the source, so C#'s masking of the count never applies). */
  function Shr(n: nat, k: nat): (r: nat)
    ensures r <= n
  {
    if k == 0 then n else Shr(n, k - 1) / 2
  }

  /** The exact factorial, taken for `Special.Factorial`. */
  function Factorial(k: nat): (r: nat)
    ensures r >= 1
  {
    if k == 0 then 1 else k * Factorial(k - 1)
  }

  /** The floor of log2 of a positive integer: the value the source obtains by
      truncating a floating-point base-2 logarithm to `int`. */
  function FloorLog2(n: nat): nat
    requires n >= 1
  {
    if n == 1 then 0 else 1 + FloorLog2(n / 2)
  }

  lemma {:induction false} FloorLog2Bounds(n: nat)
    requires n >= 1
    ensures Pow2(FloorLog2(n)) <= n < 2 * Pow2(FloorLog2(n))
  {
    if n > 1 {
      FloorLog2Bounds(n / 2);
    }
  }

  /** Sum of the entries of `s`, accumulated from index 0 upwards. */
  function Sum(s: seq<real>): real {
    if s == [] then 0.0 else Sum(s[..|s| - 1]) + s[|s| - 1]
  }

  /** A dense matrix, as a sequence of rows. */
  type Matrix = seq<seq<real>>

  predicate IsMatrix(m: Matrix, rows: nat, cols: nat) {
    |m| == rows && forall i :: 0 <= i < rows ==> |m[i]| == cols
  }

  function Abs(x: real): (r: real)
    ensures r >= 0.0 && (r == x || r == -x)
  {
    if x < 0.0 then -x else x
  }

  function Min(a: int, b: int): int {
    if a < b then a else b
  }
}
