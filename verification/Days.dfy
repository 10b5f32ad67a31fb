/** Calendar days of times in seconds. */
module Days {
  const SECONDS_PER_DAY := 86400

  function DayOf(t: int): int {
    t / SECONDS_PER_DAY
  }

  lemma DayMonotone(s: int, t: int)
    requires s <= t
    ensures DayOf(s) <= DayOf(t)
  {
  }
}
