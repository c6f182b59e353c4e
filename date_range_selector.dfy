/**
 * The date-range room's setup screen: the organiser clicks days of a month calendar
 * (`Calendar.ToggleDate`) and submits the chosen dates.
 */
module DateRangeSelector {
  import opened Common
  import opened Strings
  import opened Calendar

  /** A click on a calendar day: its `YYYY-MM-DD` text and whether it lies before today. */
  datatype DayClick = DayClick(dateString: string, isPast: bool)

  /** `selectedDates` after a series of clicks, starting from `dates`. */
  function AfterClicks(dates: seq<string>, clicks: seq<DayClick>): seq<string> {
    if clicks == [] then dates
    else ToggleDate(AfterClicks(dates, Init(clicks)), Last(clicks).dateString, Last(clicks).isPast)
  }

  /**
   * Whatever days are clicked, starting from the empty selection, the chosen dates stay in
   * ascending order with no date twice, and a date is chosen exactly when it was clicked an odd
   * number of times while not in the past.
   */
  lemma {:induction false} ClicksKeepDatesSortedAndUnique(clicks: seq<DayClick>)
    ensures StrictlySorted(AfterClicks([], clicks))
    ensures forall d :: d in AfterClicks([], clicks) <==> PresentClicks(clicks, d) % 2 == 1
    decreases |clicks|
  {
    if clicks != [] {
      var before, c := AfterClicks([], Init(clicks)), Last(clicks);
      var after := AfterClicks([], clicks);
      assert after == ToggleDate(before, c.dateString, c.isPast);
      ClicksKeepDatesSortedAndUnique(Init(clicks));
      ToggleKeepsStrictlySorted(before, c.dateString, c.isPast);
      forall d ensures d in after <==> PresentClicks(clicks, d) % 2 == 1 {
        assert PresentClicks(clicks, d) == PresentClicks(Init(clicks), d) + (if c == DayClick(d, false) then 1 else 0);
        if c == DayClick(d, false) {
          assert d in after <==> d !in before;
        } else {
          assert d in after <==> d in before;
        }
      }
    }
  }

  /** How many of the clicks were on day `d` and not in the past. */
  function PresentClicks(clicks: seq<DayClick>, d: string): nat {
    if clicks == [] then 0
    else PresentClicks(Init(clicks), d) + (if Last(clicks) == DayClick(d, false) then 1 else 0)
  }

  /** `{type: 'date_range', selected_dates}`. */
  datatype DateRangeSettings = DateRangeSettings(selectedDates: seq<string>)

  /** `handleComplete`: nothing is submitted without a date; otherwise the dates go out as they are. */
  function HandleComplete(selectedDates: seq<string>): (r: Option<DateRangeSettings>)
    ensures r.None? <==> selectedDates == []
    ensures r.Some? ==> r.value.selectedDates == selectedDates
  {
    if |selectedDates| == 0 then None else Some(DateRangeSettings(selectedDates))
  }
}
