/** The collection gate `should_collect_data` (cloudflare_analytics.py:330-334): the
    hourly loop collects only when the clock's day of the month is 1. The clock read
    becomes the `now` parameter. */
module Schedule {
  import opened Dates

  /** For a real date, the gate opens exactly when no earlier date of the same
      month exists. */
  function ShouldCollect(now: CalendarDate): (r: bool)
    ensures ValidDate(now) ==>
      (r <==> forall d | ValidDate(d) && d.year == now.year && d.month == now.month :: !Before(d, now))
  {
    var first := CalendarDate(now.year, now.month, 1);
    assert ValidDate(now) && now.day != 1 ==> ValidDate(first) && Before(first, now);
    now.day == 1
  }

  /** In every month exactly one date opens the gate, and it is the first. */
  lemma {:induction false} OnlyFirstDayOpens(year: int, month: int)
    requires 1 <= year <= 9999 && 1 <= month <= 12
    ensures ValidDate(CalendarDate(year, month, 1)) && ShouldCollect(CalendarDate(year, month, 1))
    ensures forall d :: ValidDate(d) && d.year == year && d.month == month && ShouldCollect(d) ==> d.day == 1
  {
  }
}
