/**
 * Calendar logic shared by the three schedule selectors: toggling a date in the month
 * calendar, and listing the selected dates of the Monday-to-Sunday week being shown.
 *
 * A day is an integer counted from 1970-01-01 (a Thursday), so `Date.getDay()` is arithmetic on
 * it. `date.toISOString().split('T')[0]`, the date's `YYYY-MM-DD` text, is the parameter
 * `dateString`: the model does not reproduce the JavaScript `Date` type.
 */
module Calendar {
  import opened Common
  import opened Strings

  // ---------------------------------------------------------------------------------------
  // Choosing dates in the month calendar
  // ---------------------------------------------------------------------------------------

  /**
   * `handleDateClick(dateString, isPast)`: a past day is ignored; a selected day is removed;
   * any other day is added and the list is sorted again (`[...prev, dateString].sort()`).
   */
  function ToggleDate(dates: seq<string>, d: string, isPast: bool): (r: seq<string>)
    ensures isPast ==> r == dates
    ensures !isPast ==> (d in r <==> d !in dates)
    ensures forall x :: x != d ==> (x in r <==> x in dates)
  {
    if isPast then dates
    else if d in dates then Without(dates, d)
    else
      SortIsSortedPermutation(dates + [d]);
      assert forall x :: x in Sort(dates + [d]) <==> x in multiset(dates + [d]);
      Sort(dates + [d])
  }

  /** Toggling keeps the selected dates ascending and free of repeats. */
  lemma ToggleKeepsStrictlySorted(dates: seq<string>, d: string, isPast: bool)
    requires StrictlySorted(dates)
    ensures StrictlySorted(ToggleDate(dates, d, isPast))
  {
    StrictlySortedIsSortedAndDistinct(dates);
    var r := ToggleDate(dates, d, isPast);
    if !isPast {
      if d in dates {
        WithoutKeepsSorted(dates, d);
        WithoutPreservesDistinct(dates, d);
      } else {
        SortIsSortedPermutation(dates + [d]);
        DistinctMultiset(dates);
        assert multiset(dates + [d]) == multiset(dates) + multiset{d};
        assert multiset(dates)[d] == 0;
        DistinctMultiset(r);
      }
    }
    StrictlySortedIsSortedAndDistinct(r);
  }

  /** Clicking the same present or future day twice gives back the dates selected before. */
  lemma ToggleTwiceRestores(dates: seq<string>, d: string)
    requires StrictlySorted(dates)
    ensures ToggleDate(ToggleDate(dates, d, false), d, false) == dates
  {
    StrictlySortedIsSortedAndDistinct(dates);
    DistinctMultiset(dates);
    if d in dates {
      assert multiset(dates)[d] == 1;
      RemoveThenAdd(dates, d);
    } else {
      assert multiset(dates)[d] == 0;
      AddThenRemove(dates, d);
    }
  }

  /** A selected date removed and clicked again is sorted back into its place. */
  lemma RemoveThenAdd(dates: seq<string>, d: string)
    requires Sorted(dates) && multiset(dates)[d] == 1
    ensures Sort(Without(dates, d) + [d]) == dates
  {
    var once := Without(dates, d);
    var twice := Sort(once + [d]);
    WithoutMultiset(dates, d);
    SortIsSortedPermutation(once + [d]);
    assert multiset(twice) == multiset(dates)[d := 0] + multiset{d};
    assert multiset(twice) == multiset(dates);
    SortedUnique(twice, dates);
  }

  /** A date added and clicked again is removed, leaving the list as it was. */
  lemma AddThenRemove(dates: seq<string>, d: string)
    requires Sorted(dates) && multiset(dates)[d] == 0
    ensures Without(Sort(dates + [d]), d) == dates
  {
    var once := Sort(dates + [d]);
    var twice := Without(once, d);
    SortIsSortedPermutation(dates + [d]);
    WithoutKeepsSorted(once, d);
    WithoutMultiset(once, d);
    assert multiset(dates + [d]) == multiset(dates) + multiset{d};
    assert multiset(twice) == multiset(dates);
    SortedUnique(twice, dates);
  }

  // ---------------------------------------------------------------------------------------
  // The week grid
  // ---------------------------------------------------------------------------------------

  /** `Date.getDay()`: 0 for Sunday up to 6 for Saturday; day 0 (1970-01-01) is a Thursday. */
  function DayOfWeek(day: int): (w: nat)
    ensures w < 7
  {
    (day + 4) % 7
  }

  /** `dayOfWeek === 0 ? -6 : 1 - dayOfWeek`: how many days back the week's Monday lies. */
  function MondayOffset(dayOfWeek: nat): (off: int)
    requires dayOfWeek < 7
    ensures -6 <= off <= 0
  {
    if dayOfWeek == 0 then -6 else 1 - dayOfWeek
  }

  /** The Monday of the week that holds `day`. */
  function Monday(day: int): int {
    day + MondayOffset(DayOfWeek(day))
  }

  /** The offset lands on a Monday, and on the latest Monday not after the day itself. */
  lemma MondayIsLatestMonday(day: int)
    ensures DayOfWeek(Monday(day)) == 1
    ensures day - 6 <= Monday(day) <= day
    ensures forall k :: Monday(day) < k <= day ==> DayOfWeek(k) != 1
  {
    var w := DayOfWeek(day);
    assert day + 4 == 7 * ((day + 4) / 7) + w;
    forall k | Monday(day) < k <= day ensures DayOfWeek(k) != 1 {
      var q := (day + 4) / 7;
      assert k + 4 == 7 * q + (w - (day - k));
    }
    assert Monday(day) + 4 == 7 * ((day + 4) / 7 - (if w == 0 then 1 else 0)) + 1;
  }

  /** The `i`-th day, counting from 0, of the week that holds `weekStart`. */
  function WeekDay(weekStart: int, i: nat): int {
    Monday(weekStart) + i
  }

  /** One column of the week grid: the date and its position Monday (0) to Sunday (6). */
  datatype WeekDate = WeekDate(dateString: string, dayIndex: nat)

  /**
   * `generateWeekDates`: of the seven days from the Monday of `weekStart`'s week, those whose
   * date is selected, in order, each with its position in the week.
   */
  method WeekDates(weekStart: int, dateString: int -> string, selectedDates: seq<string>)
    returns (dates: seq<WeekDate>)
    ensures |dates| <= 7
    ensures forall j :: 0 <= j < |dates| ==>
              && dates[j].dayIndex < 7
              && dates[j].dateString == dateString(WeekDay(weekStart, dates[j].dayIndex))
              && dates[j].dateString in selectedDates
    ensures forall j, k :: 0 <= j < k < |dates| ==> dates[j].dayIndex < dates[k].dayIndex
    ensures forall i: nat :: i < 7 && dateString(WeekDay(weekStart, i)) in selectedDates ==>
              exists j :: 0 <= j < |dates| && dates[j].dayIndex == i
  {
    var startOfWeek := weekStart + MondayOffset(DayOfWeek(weekStart));
    dates := [];
    for i := 0 to 7
      invariant |dates| <= i
      invariant forall j :: 0 <= j < |dates| ==>
                  && dates[j].dayIndex < i
                  && dates[j].dateString == dateString(WeekDay(weekStart, dates[j].dayIndex))
                  && dates[j].dateString in selectedDates
      invariant forall j, k :: 0 <= j < k < |dates| ==> dates[j].dayIndex < dates[k].dayIndex
      invariant forall n: nat :: n < i && dateString(WeekDay(weekStart, n)) in selectedDates ==>
                  exists j :: 0 <= j < |dates| && dates[j].dayIndex == n
    {
      var date := dateString(startOfWeek + i);
      assert date == dateString(WeekDay(weekStart, i));
      if date in selectedDates {
        ghost var before := dates;
        dates := dates + [WeekDate(date, i)];
        assert forall j :: 0 <= j < |before| ==> dates[j] == before[j];
        assert dates[|dates| - 1].dayIndex == i;
      }
    }
  }
}
