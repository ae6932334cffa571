/** Small building blocks shared by every other module: optional values,
    results with an error side, and the integer rounding rules of the two
    runtimes the application is written for. */
module Base {

  /** A value that may be missing: a JavaScript `null`/`undefined`, or a
      nullable reference in C#. */
  datatype Option<+T> = None | Some(value: T) {
    function GetOr(default: T): T {
      match this
      case Some(v) => v
      case None => default
    }
  }

  /** The outcome of an operation that can fail with an error of type E
      (an HTTP error status or a thrown exception in the source). */
  datatype Result<+T, +E> = Success(value: T) | Failure(error: E)

  function Min(a: int, b: int): int { if a <= b then a else b }

  function Max(a: int, b: int): int { if a >= b then a else b }

  function MaxReal(a: real, b: real): real { if a >= b then a else b }

  /** JavaScript `Math.round(n / d)` for a positive divisor: the nearest
      integer, halves rounded up (towards positive infinity). */
  function RoundHalfUp(n: int, d: int): (r: int)
    requires d > 0
    ensures n >= 0 ==> r >= 0
  {
    (2 * n + d) / (2 * d)
  }

  /** `RoundHalfUp` is within one half of the exact quotient, and a tie
      goes up. */
  lemma RoundHalfUpNearest(n: int, d: int)
    requires d > 0
    ensures 2 * d * RoundHalfUp(n, d) <= 2 * n + d < 2 * d * (RoundHalfUp(n, d) + 1)
  {
    var q := (2 * n + d) / (2 * d);
    assert 2 * n + d == (2 * d) * q + (2 * n + d) % (2 * d);
  }

  /** .NET `Math.Round(n / d)` (MidpointRounding.ToEven) for a positive
      divisor: the nearest integer, a tie going to the even neighbour. */
  function RoundHalfEven(n: int, d: int): (r: int)
    requires d > 0
    ensures n >= 0 ==> r >= 0
  {
    var q := n / d;
    var m := n % d;
    if 2 * m < d then q
    else if 2 * m > d then q + 1
    else if q % 2 == 0 then q
    else q + 1
  }

  /** `RoundHalfEven` is within one half of the exact quotient, and a tie
      goes to the even neighbour. */
  lemma RoundHalfEvenNearest(n: int, d: int)
    requires d > 0
    ensures var r := RoundHalfEven(n, d);
            -d <= 2 * (n - d * r) <= d
            && (2 * (n - d * r) == d || 2 * (n - d * r) == -d ==> r % 2 == 0)
  {
    var q := n / d;
    var m := n % d;
    assert n == d * q + m;
  }
}
