/**
 Time as the .NET `DateTime` type represents it: a count of 100-nanosecond
 ticks between `DateTime.MinValue` and `DateTime.MaxValue`. The services read
 the wall clock through `DateTime.UtcNow`; the model passes one frozen `now`
 instead.
 */
module Clock {
  import opened Common

  const TicksPerDay: int := 864_000_000_000
  /** `DateTime.MaxValue.Ticks`. */
  const MaxTicks: int := 3_155_378_975_999_999_999

  /** A representable `DateTime`. */
  type Instant = t: int | 0 <= t <= MaxTicks

  /** Integer division rounding toward zero, as a C# cast of a quotient to
      `int` does (Dafny's own `/` rounds toward negative infinity for a
      negative dividend). */
  function TruncDiv(a: int, b: int): (q: int)
    requires b > 0
    ensures a >= 0 ==> 0 <= q * b <= a < q * b + b
    ensures a < 0 ==> q * b - b < a <= q * b <= 0
  {
    if a >= 0 then
      DivBounds(a, b);
      a / b
    else
      DivBounds(-a, b);
      assert -((-a) / b) * b == -(((-a) / b) * b);
      -((-a) / b)
  }

  /** Multiplying by a positive number keeps a nonzero factor at least that far from zero. */
  lemma MulAway(x: int, b: int)
    requires b > 0
    ensures x >= 1 ==> x * b >= b
    ensures x <= -1 ==> x * b <= -b
  {
    if x >= 1 { assert x * b - b == (x - 1) * b; }
    if x <= -1 { assert x * b + b == (x + 1) * b; }
  }

  lemma DivBounds(a: int, b: int)
    requires a >= 0 && b > 0
    ensures 0 <= (a / b) * b <= a < (a / b) * b + b
  {
    var q, r := a / b, a % b;
    assert a == q * b + r;
    MulAway(q, b);
  }

  /** At most one quotient fits between consecutive multiples of `b`. */
  lemma QuotientUnique(a: int, b: int, q: int, q': int)
    requires b > 0
    requires q * b <= a < q * b + b && q' * b <= a < q' * b + b
    ensures q == q'
  {
    assert (q - q') * b == q * b - q' * b;
    MulAway(q - q', b);
  }

  /** The same, for the upper-closed intervals of a negative dividend. */
  lemma QuotientUniqueBelow(a: int, b: int, q: int, q': int)
    requires b > 0
    requires q * b - b < a <= q * b && q' * b - b < a <= q' * b
    ensures q == q'
  {
    assert (q - q') * b == q * b - q' * b;
    MulAway(q - q', b);
  }

  /** `DateTime.AddDays(days)` for a whole number of days; `None` where .NET
      throws `ArgumentOutOfRangeException` because the result would leave the
      representable range. */
  function AddDays(t: Instant, days: int): (r: Option<Instant>)
    ensures r.Some? <==> 0 <= t + days * TicksPerDay <= MaxTicks
    ensures r.Some? ==> r.value == t + days * TicksPerDay
  {
    var u := t + days * TicksPerDay;
    if 0 <= u <= MaxTicks then Some(u) else None
  }

  /** `(int)(later - earlier).TotalDays`: the whole days between two instants,
      truncated toward zero. */
  function WholeDaysBetween(earlier: Instant, later: Instant): (d: int)
    ensures later >= earlier ==> d >= 0 && earlier + d * TicksPerDay <= later < earlier + (d + 1) * TicksPerDay
    ensures later < earlier ==> d <= 0 && earlier + (d - 1) * TicksPerDay < later <= earlier + d * TicksPerDay
  {
    TruncDiv(later - earlier, TicksPerDay)
  }

  /** Whole days survive the round trip through `AddDays` and `TotalDays`. */
  lemma WholeDaysRoundTrip(t: Instant, days: int)
    requires AddDays(t, days).Some?
    ensures WholeDaysBetween(t, AddDays(t, days).value) == days
  {
    var a := AddDays(t, days).value - t;
    assert a == days * TicksPerDay;
    var d := TruncDiv(a, TicksPerDay);
    if a >= 0 {
      QuotientUnique(a, TicksPerDay, d, days);
    } else {
      QuotientUniqueBelow(a, TicksPerDay, d, days);
    }
  }
}
