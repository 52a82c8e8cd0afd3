/**
 * The slice of Java semantics the symbol-table writer depends on: fixed-width
 * integers with two's-complement wrap-around, the narrowing cast to short,
 * Math.toIntExact, Boolean.compare, Long.compare and String.compareTo, and the
 * exceptions that abort a build.
 */
module JavaSemantics {

  const INT_MIN: int := -0x8000_0000
  const INT_MAX: int := 0x7FFF_FFFF
  const LONG_MIN: int := -0x8000_0000_0000_0000
  const LONG_MAX: int := 0x7FFF_FFFF_FFFF_FFFF

  /** Java `short`, `int` and `long`. */
  type Int16 = x: int | -0x8000 <= x < 0x8000
  type Int32 = x: int | -0x8000_0000 <= x < 0x8000_0000
  type Int64 = x: int | -0x8000_0000_0000_0000 <= x < 0x8000_0000_0000_0000

  /** A Java reference that may be null. */
  datatype Option<+T> = None | Some(value: T)

  /** The exceptions (and assertion failures, with -ea) the core can raise. */
  datatype JavaError =
    | ArithmeticException
    | IllegalStateException(message: string)
    | IllegalArgumentException(message: string)
    | AssertionError

  /** Either a value or a thrown exception. */
  datatype Result<+T> = Ok(value: T) | Throws(error: JavaError) {
    predicate IsFailure() { Throws? }
    function PropagateFailure<U>(): Result<U>
      requires Throws?
    {
      Throws(error)
    }
    function Extract(): T
      requires Ok?
    {
      value
    }
  }

  /** Wrap-around of a mathematical integer into a Java long (the result of long `+`/`-`). */
  function WrapLong(x: int): (r: Int64)
    ensures (r - x) % 0x1_0000_0000_0000_0000 == 0
    ensures LONG_MIN <= x <= LONG_MAX ==> r == x
  {
    (x - LONG_MIN) % 0x1_0000_0000_0000_0000 + LONG_MIN
  }

  /** The narrowing conversion `(short) x`: keeps the low 16 bits, read as signed. */
  function ToShort(x: Int32): (r: Int16)
    ensures (r - x) % 0x1_0000 == 0
    ensures -0x8000 <= x < 0x8000 ==> r == x
  {
    (x + 0x8000) % 0x1_0000 - 0x8000
  }

  /** `Math.toIntExact`: the same value as an int, or ArithmeticException when it does not fit. */
  function ToIntExact(x: Int64): (r: Result<Int32>)
    ensures r.Ok? <==> INT_MIN <= x <= INT_MAX
    ensures r.Ok? ==> r.value == x
    ensures r.Throws? ==> r.error == ArithmeticException
  {
    if INT_MIN <= x <= INT_MAX then Ok(x) else Throws(ArithmeticException)
  }

  /** `Boolean.compare`: false sorts before true. */
  function BooleanCompare(x: bool, y: bool): int
  {
    if x == y then 0 else if x then 1 else -1
  }

  /** `Long.compare`. */
  function LongCompare(x: int, y: int): int
  {
    if x < y then -1 else if x == y then 0 else 1
  }

  /**
   * `String.compareTo`: the difference of the first differing characters, or
   * else the difference of the lengths. Characters are Unicode scalar values.
   */
  function StringCompareTo(a: string, b: string): int
  {
    if a == [] || b == [] then |a| - |b|
    else if a[0] != b[0] then a[0] as int - b[0] as int
    else StringCompareTo(a[1..], b[1..])
  }

  /** compareTo returns 0 exactly for equal strings. */
  lemma {:induction false} StringCompareToZero(a: string, b: string)
    ensures StringCompareTo(a, b) == 0 <==> a == b
  {
    if a != [] && b != [] && a[0] == b[0] {
      StringCompareToZero(a[1..], b[1..]);
      assert a == [a[0]] + a[1..] && b == [b[0]] + b[1..];
    }
  }

  /** Swapping the operands negates the result. */
  lemma {:induction false} StringCompareToAntisymmetric(a: string, b: string)
    ensures StringCompareTo(a, b) == -StringCompareTo(b, a)
  {
    if a != [] && b != [] && a[0] == b[0] {
      StringCompareToAntisymmetric(a[1..], b[1..]);
    }
  }

  /** compareTo is a strict order on strings. */
  lemma {:induction false} StringCompareToTransitive(a: string, b: string, c: string)
    requires StringCompareTo(a, b) < 0 && StringCompareTo(b, c) < 0
    ensures StringCompareTo(a, c) < 0
  {
    if a != [] && b != [] && c != [] && a[0] == b[0] && b[0] == c[0] {
      StringCompareToTransitive(a[1..], b[1..], c[1..]);
    }
  }
}
