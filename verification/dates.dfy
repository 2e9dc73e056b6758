/** Calendar helpers: snapping a date to the start of its week and listing
    the days of a half-open range. A date is its proleptic Gregorian ordinal,
    as Python's `date.toordinal` gives it: day 1 is 0001-01-01, a Monday. */
module Dates {

  type Date = int

  /** Python's `weekday()` numbering: Monday is 0 and Sunday is 6. */
  const SUNDAY := 6

  /** 2019-09-08, a Sunday. */
  const SEP_8_2019: Date := 737310

  /** Day of the week of `d`, Monday = 0 … Sunday = 6. */
  function Weekday(d: Date): (r: int)
    ensures 0 <= r < 7
  {
    (d + 6) % 7
  }

  /** The weekdays cycle: 0001-01-01 (day 1) is a Monday, and the day after `d`
      has the next weekday number, Sunday wrapping round to Monday. */
  lemma WeekdayNext(d: Date)
    ensures Weekday(1) == 0
    ensures Weekday(d + 1) == if Weekday(d) == SUNDAY then 0 else Weekday(d) + 1
  {
  }

  /** Two days have the same weekday exactly when they are a whole number of weeks apart. */
  lemma SameWeekday(a: Date, b: Date)
    ensures Weekday(a) == Weekday(b) <==> (a - b) % 7 == 0
  {
    var q := (a + 6) / 7;
    var p := (b + 6) / 7;
    assert a + 6 == 7 * q + Weekday(a);
    assert b + 6 == 7 * p + Weekday(b);
    assert a - b == 7 * (q - p) + (Weekday(a) - Weekday(b));
    if Weekday(a) == Weekday(b) {
      assert a - b == 7 * (q - p);
    } else {
      var k := (a - b) / 7;
      assert a - b == 7 * k + (a - b) % 7;
    }
  }

  /** The Sunday that starts the week containing `d`: `d` itself when it is a
      Sunday, otherwise the most recent Sunday before it. */
  function StartOfWeek(d: Date): (r: Date)
    ensures Weekday(r) == SUNDAY
    ensures r <= d && d - r <= 6
  {
    if Weekday(d) == SUNDAY then d else d - (Weekday(d) + 1)
  }

  /** The contract of `StartOfWeek` pins its result down: the only Sunday at
      most six days before (or on) `d` is `StartOfWeek(d)`. */
  lemma StartOfWeekUnique(d: Date, s: Date)
    requires Weekday(s) == SUNDAY
    requires s <= d && d - s <= 6
    ensures StartOfWeek(d) == s
  {
    var r := StartOfWeek(d);
    SameWeekday(s, r);
    assert -6 <= s - r <= 6;
  }

  /** A Sunday is its own start of week, and the date is unchanged. */
  lemma StartOfWeekOfSunday(d: Date)
    requires Weekday(d) == SUNDAY
    ensures StartOfWeek(d) == d
  {
    StartOfWeekUnique(d, d);
  }

  /** Any other day moves back by its weekday number plus one. */
  lemma StartOfWeekOfWeekday(d: Date)
    requires Weekday(d) != SUNDAY
    ensures StartOfWeek(d) == d - (Weekday(d) + 1)
    ensures StartOfWeek(d) < d
  {
  }

  /** Snapping twice is the same as snapping once. */
  lemma StartOfWeekIdempotent(d: Date)
    ensures StartOfWeek(StartOfWeek(d)) == StartOfWeek(d)
  {
    StartOfWeekOfSunday(StartOfWeek(d));
  }

  /** Every day of one Sunday-to-Saturday week snaps to the same Sunday. */
  lemma StartOfWeekConstantOnWeek(s: Date, i: int)
    requires Weekday(s) == SUNDAY
    requires 0 <= i < 7
    ensures StartOfWeek(s + i) == s
  {
    StartOfWeekUnique(s + i, s);
  }

  /** 2019-09-08 is a Sunday and maps to itself; Friday 2019-09-13 maps to 2019-09-08. */
  lemma StartOfWeekExamples()
    ensures Weekday(SEP_8_2019) == SUNDAY
    ensures StartOfWeek(SEP_8_2019) == SEP_8_2019
    ensures Weekday(SEP_8_2019 + 5) == 4
    ensures StartOfWeek(SEP_8_2019 + 5) == SEP_8_2019
  {
  }

  /** The days `start, start + 1, …` strictly before `end`; empty when
      `end <= start`. */
  function DateRange(start: Date, end: Date): (r: seq<Date>)
    ensures |r| == if end <= start then 0 else end - start
    ensures forall i :: 0 <= i < |r| ==> r[i] == start + i
    ensures forall x :: x in r <==> start <= x < end
    decreases end - start
  {
    if end <= start then [] else [start] + DateRange(start + 1, end)
  }

  /** Consecutive elements of a range are consecutive days. */
  lemma DateRangeConsecutive(start: Date, end: Date)
    ensures forall i :: 0 <= i < |DateRange(start, end)| - 1 ==>
      DateRange(start, end)[i + 1] == DateRange(start, end)[i] + 1
  {
  }

  /** 2019-09-08 to 2019-09-10 lists the 8th and the 9th; an empty range lists nothing. */
  lemma DateRangeExamples()
    ensures DateRange(SEP_8_2019, SEP_8_2019 + 2) == [SEP_8_2019, SEP_8_2019 + 1]
    ensures DateRange(SEP_8_2019, SEP_8_2019) == []
  {
  }
}
