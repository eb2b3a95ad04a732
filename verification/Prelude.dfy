/** Small value types shared by the other modules. */
module Prelude {

  datatype Option<+T> = None | Some(value: T)

  /** Nanoseconds, the unit of Go's time.Duration. */
  const SECOND: int := 1_000_000_000
  const MINUTE: int := 60_000_000_000
  const DAY: int := 86_400_000_000_000
  /** The longest whole number of seconds a 64-bit Duration can hold. */
  const MAX_DURATION_SECS: int := 9_223_372_036

  function Min(a: int, b: int): int { if a < b then a else b }
  function Max(a: int, b: int): int { if a < b then b else a }

  /** Two's complement, 64 bits. */
  function Wrap64(x: int): (r: int)
    ensures -0x8000_0000_0000_0000 <= r < 0x8000_0000_0000_0000
    ensures r == x <==> -0x8000_0000_0000_0000 <= x < 0x8000_0000_0000_0000
  {
    (x + 0x8000_0000_0000_0000) % 0x1_0000_0000_0000_0000 - 0x8000_0000_0000_0000
  }

  // ---------- division by a variable ----------

  lemma MulSteps(n: int, d: int)
    requires n > 0
    ensures d >= 1 ==> n * d >= n
    ensures d <= -1 ==> n * d <= -n
  {
  }

  lemma DivModUnique(a: int, n: int, q: int, r: int)
    requires 0 <= r < n && a == n * q + r
    ensures a / n == q && a % n == r
  {
    var d := a / n - q;
    assert n * d == r - a % n;
    MulSteps(n, d);
  }
}
