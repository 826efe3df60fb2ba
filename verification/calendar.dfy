/** Calendar arithmetic shared by the agenda and log logic. A date is a day
    number (day 0 is 1970-01-01, a Thursday); a timestamp is a count of
    seconds of naive local time on the same scale. */
module Calendar {

  const SECONDS_PER_DAY: int := 86400

  /** Day of the week with Sunday = 0, as `strftime('%w', date)` and
      chrono's `num_days_from_sunday` number them. */
  function Weekday(d: int): (w: int)
    ensures 0 <= w < 7
  {
    (d + 4) % 7
  }

  /** 1970-01-01 was a Thursday, and every week later is one too. */
  lemma EpochIsThursday()
    ensures Weekday(0) == 4 && Weekday(7) == 4 && Weekday(-7) == 4
  {
  }

  /** Shifting a date by whole weeks keeps its weekday. */
  lemma {:induction false} WeekdayPeriodic(d: int, k: nat)
    ensures Weekday(d + 7 * k) == Weekday(d)
    ensures Weekday(d - 7 * k) == Weekday(d)
  {
    if k > 0 {
      WeekdayPeriodic(d, k - 1);
      assert d + 7 * k == (d + 7 * (k - 1)) + 7;
      assert d - 7 * k + 7 == d - 7 * (k - 1);
    }
  }

  /** The next day is the next weekday, Saturday wrapping round to Sunday. */
  lemma WeekdayNext(d: int)
    ensures Weekday(d + 1) == (Weekday(d) + 1) % 7
  {
  }

  /** Integer division rounding toward zero, as Rust's `/` on `i64` and
      chrono's `num_weeks` do; Dafny's own `/` rounds toward minus infinity
      for a positive divisor. */
  function TruncDiv(a: int, b: int): (q: int)
    requires b > 0
    ensures a >= 0 ==> q >= 0 && q * b <= a < q * b + b
    ensures a < 0 ==> q <= 0 && q * b - b < a <= q * b
  {
    if a >= 0 then a / b else -((-a) / b)
  }

  /** Where truncation and flooring part ways: six days before a date is
      week 0 of it, not week -1. */
  lemma TruncDivOfNegative()
    ensures TruncDiv(-6, 7) == 0 && -6 / 7 == -1
    ensures TruncDiv(-8, 7) == -1 && -8 / 7 == -2
  {
  }

  /** The calendar day a timestamp falls on. */
  function DayOf(ts: int): (d: int)
    ensures d * SECONDS_PER_DAY <= ts < d * SECONDS_PER_DAY + SECONDS_PER_DAY
  {
    ts / SECONDS_PER_DAY
  }
}
