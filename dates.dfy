/**
 * The next-Monday computation (get_next_monday_date). A date is its proleptic Gregorian
 * ordinal, day 1 being 0001-01-01, a Monday; `today` is an input instead of the clock.
 */
module Dates {
  import opened Wrappers

  /** The ordinal of the earliest representable date, 0001-01-01. */
  const MinOrdinal: int := 1

  /** The ordinal of the latest representable date, 9999-12-31. */
  const MaxOrdinal: int := 3652059

  /** Day of the week, Monday being 0 and Sunday 6, computed from the ordinal as the date type does. */
  function Weekday(ordinal: int): (w: int)
    ensures 0 <= w < 7
  {
    (ordinal + 6) % 7
  }

  /** Advancing a date by k days advances its weekday by k, modulo 7. */
  lemma WeekdayAfter(ordinal: int, k: nat)
    ensures Weekday(ordinal + k) == (Weekday(ordinal) + k) % 7
  {
  }

  /**
   * The Monday strictly after `today`: 1 to 6 days ahead, or 7 when today is itself a
   * Monday. Adding the offset past the latest representable date fails (None).
   */
  method NextMonday(today: int) returns (monday: Option<int>)
    requires MinOrdinal <= today <= MaxOrdinal
    ensures monday.Some? ==> today < monday.value <= today + 7 && monday.value <= MaxOrdinal
    ensures monday.Some? ==> Weekday(monday.value) == 0
    ensures monday.Some? ==> (monday.value == today + 7 <==> Weekday(today) == 0)
    ensures monday.Some? ==> forall d :: today < d < monday.value ==> Weekday(d) != 0
    ensures monday.None? <==> forall d :: today < d <= MaxOrdinal ==> Weekday(d) != 0
  {
    // Dafny's % agrees with Python's here: the divisor is positive.
    var daysAhead := (0 - Weekday(today)) % 7;
    if daysAhead == 0 {
      daysAhead := 7;
    }
    forall d | today < d < today + daysAhead
      ensures Weekday(d) != 0
    {
      WeekdayAfter(today, d - today);
    }
    WeekdayAfter(today, daysAhead);
    if today + daysAhead > MaxOrdinal {
      return None;
    }
    monday := Some(today + daysAhead);
  }
}
