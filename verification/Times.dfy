/** Times of day in milliseconds. */
module Times {
  const MS_PER_DAY: nat := 86400000

  /** utils_time_before: less than half a day earlier. */
  predicate Before(t1: int, t2: int) {
    t1 < t2 && t2 - t1 < MS_PER_DAY / 2
  }
}
