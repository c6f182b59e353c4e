/**
 * The hourly room's setup screen. The organiser picks dates in a month calendar, then paints
 * half-hour cells of a week grid by pressing and dragging, and finally submits the painted cells
 * grouped by date.
 *
 * The screen's state is the value `Selector`. Each event handler is a function from the old state
 * to the new one; the handlers that loop (`generateTimeSlots`, `handleSelectAll`,
 * `handleComplete`) are methods proved against specification functions.
 */
module TimeRangeSelector {
  import opened Common
  import opened Strings
  import opened Grouping
  import opened Calendar

  // ---------------------------------------------------------------------------------------
  // The half-hour rows of the grid
  // ---------------------------------------------------------------------------------------

  /** One row of the grid: `{time, display, isHour, minute, hour}`. */
  datatype TimeSlot = TimeSlot(time: string, display: string, isHour: bool, minute: nat, hour: nat)

  /** `HH:MM` with both parts padded to two digits. */
  function TimeString(hour: nat, minute: nat): string
    requires hour < 100 && minute < 100
  {
    Pad2(hour) + ":" + Pad2(minute)
  }

  /** The row label: a 12-hour clock reading on the hour, `:30` on the half hour. */
  function DisplayTime(hour: nat, minute: nat): string {
    if minute == 0 then
      if hour == 0 then "12 AM"
      else if hour == 12 then "12 PM"
      else if hour < 12 then NatToString(hour) + " AM"
      else NatToString(hour - 12) + " PM"
    else ":30"
  }

  /** A row whose time, label and hour flag are those of its own hour and minute. */
  predicate WellFormed(slot: TimeSlot) {
    && slot.hour < 24 && slot.minute < 60
    && slot.time == TimeString(slot.hour, slot.minute)
    && slot.display == DisplayTime(slot.hour, slot.minute)
    && slot.isHour == (slot.minute == 0)
  }

  /** Row `k` of the day is well formed and stands `k` half hours after midnight. */
  predicate IsRow(slot: TimeSlot, k: nat) {
    WellFormed(slot) && slot.hour == k / 2 && slot.minute == 30 * (k % 2)
  }

  /** `generateTimeSlots`: 24 hours, two rows each, from 00:00 to 23:30. */
  method GenerateTimeSlots() returns (slots: seq<TimeSlot>)
    ensures |slots| == 48
    ensures forall k :: 0 <= k < 48 ==> IsRow(slots[k], k)
  {
    slots := [];
    for hour := 0 to 24
      invariant |slots| == 2 * hour
      invariant forall k :: 0 <= k < |slots| ==> IsRow(slots[k], k)
    {
      var minute := 0;
      while minute < 60
        invariant minute == 0 || minute == 30 || minute == 60
        invariant |slots| == 2 * hour + minute / 30
        invariant forall k :: 0 <= k < |slots| ==> IsRow(slots[k], k)
      {
        var timeString := TimeString(hour, minute);
        var isHour := minute == 0;
        var displayTime := DisplayTime(hour, minute);
        ghost var k := |slots|;
        assert k / 2 == hour && 30 * (k % 2) == minute;
        slots := slots + [TimeSlot(timeString, displayTime, isHour, minute, hour)];
        assert IsRow(slots[k], k);
        minute := minute + 30;
      }
    }
  }

  /** A string sorts before another that agrees with it up to a smaller character at `k`. */
  lemma {:induction false} LessAtFirstDifference(a: string, b: string, k: nat)
    requires k < |a| && k < |b| && a[..k] == b[..k] && a[k] < b[k]
    ensures Less(a, b)
  {
    if k > 0 {
      assert a[0] == a[..k][0] && b[0] == b[..k][0];
      assert a[1..][..k - 1] == a[..k][1..] && b[1..][..k - 1] == b[..k][1..];
      LessAtFirstDifference(a[1..], b[1..], k - 1);
    }
  }

  /** `HH:MM` spelled out digit by digit. */
  lemma TimeStringDigits(hour: nat, minute: nat)
    requires hour < 100 && minute < 100
    ensures TimeString(hour, minute) ==
            [DigitChar(hour / 10), DigitChar(hour % 10), ':', DigitChar(minute / 10), DigitChar(minute % 10)]
  {
  }

  /** Later rows have later times in string order, so the sorted times run top to bottom. */
  lemma TimesAscend(x: TimeSlot, i: nat, y: TimeSlot, j: nat)
    requires IsRow(x, i) && IsRow(y, j) && i < j
    ensures Less(x.time, y.time)
  {
    var a, b := x.time, y.time;
    TimeStringDigits(x.hour, x.minute);
    TimeStringDigits(y.hour, y.minute);
    if x.hour == y.hour {
      assert x.minute == 0 && y.minute == 30;
      assert a[..3] == b[..3];
      LessAtFirstDifference(a, b, 3);
    } else if x.hour / 10 < y.hour / 10 {
      LessAtFirstDifference(a, b, 0);
    } else {
      assert x.hour % 10 < y.hour % 10;
      assert a[..1] == b[..1];
      LessAtFirstDifference(a, b, 1);
    }
  }

  /** The label on the hour is the 12-hour clock reading: 12 for midnight and noon, AM before noon. */
  lemma HourLabelIsTwelveHourClock(hour: nat)
    requires hour < 24
    ensures DisplayTime(hour, 0) ==
            NatToString(if hour % 12 == 0 then 12 else hour % 12) + (if hour < 12 then " AM" else " PM")
  {
    assert NatToString(12) == NatToString(1) + [DigitChar(2)] == "12";
  }

  // ---------------------------------------------------------------------------------------
  // The grid's state and its events
  // ---------------------------------------------------------------------------------------

  datatype Step = DateStep | TimeStep
  datatype DragMode = Select | Deselect

  /**
   * The component's state: the step shown, the chosen dates (ascending), the day whose week
   * the grid shows, the painted cells (a `Set`, held in insertion order without repeats) and
   * the drag in progress.
   */
  datatype Selector = Selector(
    step: Step,
    selectedDates: seq<string>,
    weekStart: int,
    selectedSlots: seq<string>,
    isDragging: bool,
    dragMode: DragMode)

  /** `getSlotId`: the date, a dash, and the time. */
  function SlotId(dateString: string, timeString: string): string {
    dateString + "-" + timeString
  }

  /**
   * `handleDateStepComplete`: without a chosen date nothing happens; otherwise the grid moves to
   * the week of the first chosen date and starts with no painted cell. `parseDay` stands for
   * `new Date(selectedDates[0])`.
   */
  function DateStepComplete(s: Selector, parseDay: string -> int): (r: Selector)
    ensures s.selectedDates == [] ==> r == s
    ensures s.selectedDates != [] ==>
              r.step == TimeStep && r.weekStart == parseDay(s.selectedDates[0]) && r.selectedSlots == []
              && r.selectedDates == s.selectedDates && r.isDragging == s.isDragging && r.dragMode == s.dragMode
  {
    if |s.selectedDates| == 0 then s
    else s.(weekStart := parseDay(s.selectedDates[0]), step := TimeStep, selectedSlots := [])
  }

  /** `handleBackToDateSelection`: back to the calendar, and the painted cells are cleared. */
  function BackToDateSelection(s: Selector): (r: Selector)
    ensures r.step == DateStep && r.selectedSlots == []
    ensures r.(step := s.step, selectedSlots := s.selectedSlots) == s
  {
    s.(step := DateStep, selectedSlots := [])
  }

  /** `handleDateClick` on the calendar step. */
  function DateClick(s: Selector, dateString: string, isPast: bool): (r: Selector)
    ensures r.selectedDates == ToggleDate(s.selectedDates, dateString, isPast)
    ensures r.(selectedDates := s.selectedDates) == s
  {
    s.(selectedDates := ToggleDate(s.selectedDates, dateString, isPast))
  }

  /**
   * `handleMouseDown`: pressing a cell starts a drag and flips the cell; the drag erases when the
   * cell was painted and paints when it was not.
   */
  function MouseDown(s: Selector, dateString: string, timeString: string): (r: Selector)
    ensures r.isDragging
    ensures r.dragMode == Deselect <==> SlotId(dateString, timeString) in s.selectedSlots
    ensures SlotId(dateString, timeString) in r.selectedSlots <==> SlotId(dateString, timeString) !in s.selectedSlots
    ensures forall x :: x != SlotId(dateString, timeString) ==> (x in r.selectedSlots <==> x in s.selectedSlots)
    ensures Distinct(s.selectedSlots) ==> Distinct(r.selectedSlots)
    ensures r.step == s.step && r.selectedDates == s.selectedDates && r.weekStart == s.weekStart
  {
    var slotId := SlotId(dateString, timeString);
    var isSelected := slotId in s.selectedSlots;
    if isSelected then
      WithoutPreservesDistinct(s.selectedSlots, slotId);
      s.(isDragging := true, dragMode := Deselect, selectedSlots := Without(s.selectedSlots, slotId))
    else
      s.(isDragging := true, dragMode := Select, selectedSlots := SetAdd(s.selectedSlots, slotId))
  }

  /**
   * `handleMouseEnter`: outside a drag nothing happens; during one the entered cell is painted or
   * erased according to the drag's mode.
   */
  function MouseEnter(s: Selector, dateString: string, timeString: string): (r: Selector)
    ensures !s.isDragging ==> r == s
    ensures s.isDragging ==> (SlotId(dateString, timeString) in r.selectedSlots <==> s.dragMode == Select)
    ensures forall x :: x != SlotId(dateString, timeString) ==> (x in r.selectedSlots <==> x in s.selectedSlots)
    ensures Distinct(s.selectedSlots) ==> Distinct(r.selectedSlots)
    ensures r.(selectedSlots := s.selectedSlots) == s
  {
    if !s.isDragging then s
    else
      var slotId := SlotId(dateString, timeString);
      WithoutPreservesDistinct(s.selectedSlots, slotId);
      s.(selectedSlots := if s.dragMode == Select then SetAdd(s.selectedSlots, slotId) else Without(s.selectedSlots, slotId))
  }

  /** `handleMouseUp`: the drag ends and the painted cells stay as they are. */
  function MouseUp(s: Selector): (r: Selector)
    ensures !r.isDragging
    ensures r.(isDragging := s.isDragging) == s
  {
    s.(isDragging := false)
  }

  /** Entering the cells `cells` one after another. */
  function Drag(s: Selector, cells: seq<(string, string)>): Selector
    decreases |cells|
  {
    if cells == [] then s else Drag(MouseEnter(s, cells[0].0, cells[0].1), cells[1..])
  }

  /**
   * A press followed by a drag gives every cell it crossed the state the first cell took: all
   * painted if the first was blank, all erased if it was painted. Cells the drag did not cross
   * keep their state.
   */
  lemma {:induction false} DragPaintsLikeFirstCell(s: Selector, first: (string, string), cells: seq<(string, string)>)
    ensures var r := Drag(MouseDown(s, first.0, first.1), cells);
            var painting := SlotId(first.0, first.1) !in s.selectedSlots;
            && (forall c :: c in [first] + cells ==> (SlotId(c.0, c.1) in r.selectedSlots <==> painting))
            && (forall x :: (forall c :: c in [first] + cells ==> x != SlotId(c.0, c.1)) ==>
                  (x in r.selectedSlots <==> x in s.selectedSlots))
  {
    DragKeepsMode(MouseDown(s, first.0, first.1), cells, [first]);
  }

  lemma {:induction false} DragKeepsMode(s: Selector, cells: seq<(string, string)>, done: seq<(string, string)>)
    requires s.isDragging
    requires forall c :: c in done ==> (SlotId(c.0, c.1) in s.selectedSlots <==> s.dragMode == Select)
    ensures var r := Drag(s, cells);
            && r.isDragging && r.dragMode == s.dragMode
            && (forall c :: c in done + cells ==> (SlotId(c.0, c.1) in r.selectedSlots <==> s.dragMode == Select))
            && (forall x :: (forall c :: c in cells ==> x != SlotId(c.0, c.1)) ==>
                  (x in r.selectedSlots <==> x in s.selectedSlots))
    decreases |cells|
  {
    if cells != [] {
      var next := MouseEnter(s, cells[0].0, cells[0].1);
      assert done + cells == (done + [cells[0]]) + cells[1..];
      DragKeepsMode(next, cells[1..], done + [cells[0]]);
      forall x | forall c :: c in cells ==> x != SlotId(c.0, c.1)
        ensures x in Drag(s, cells).selectedSlots <==> x in s.selectedSlots
      {
        assert cells[0] in cells;
        assert forall c :: c in cells[1..] ==> c in cells;
      }
    }
  }

  /** Every cell of the shown week: one per date shown and row, painted in date order. */
  predicate InWeek(weekDates: seq<WeekDate>, slots: seq<TimeSlot>, x: string) {
    exists i, j :: 0 <= i < |weekDates| && 0 <= j < |slots| && x == SlotId(weekDates[i].dateString, slots[j].time)
  }

  /** `handleSelectAll`: every cell of the shown week is painted, each once. */
  method SelectAll(weekDates: seq<WeekDate>, slots: seq<TimeSlot>) returns (all: seq<string>)
    ensures forall x :: x in all <==> InWeek(weekDates, slots, x)
    ensures Distinct(all)
  {
    all := [];
    for i := 0 to |weekDates|
      invariant Distinct(all)
      invariant forall x :: x in all <==> InWeek(weekDates[..i], slots, x)
    {
      for j := 0 to |slots|
        invariant Distinct(all)
        invariant forall x :: x in all <==>
                    InWeek(weekDates[..i], slots, x) || InWeek([weekDates[i]], slots[..j], x)
      {
        all := SetAdd(all, SlotId(weekDates[i].dateString, slots[j].time));
        assert InWeek([weekDates[i]], slots[..j + 1], SlotId(weekDates[i].dateString, slots[j].time)) by {
          assert slots[..j + 1][j] == slots[j] && [weekDates[i]][0] == weekDates[i];
        }
        forall x | InWeek([weekDates[i]], slots[..j + 1], x)
          ensures InWeek([weekDates[i]], slots[..j], x) || x == SlotId(weekDates[i].dateString, slots[j].time)
        {
          var a, b :| 0 <= a < 1 && 0 <= b < j + 1 && x == SlotId([weekDates[i]][a].dateString, slots[..j + 1][b].time);
          if b < j {
            assert slots[..j + 1][b] == slots[..j][b];
          }
        }
        forall x | InWeek([weekDates[i]], slots[..j], x) ensures InWeek([weekDates[i]], slots[..j + 1], x) {
          var a, b :| 0 <= a < 1 && 0 <= b < j && x == SlotId([weekDates[i]][a].dateString, slots[..j][b].time);
          assert slots[..j + 1][b] == slots[..j][b];
        }
      }
      InWeekNextDate(weekDates, slots, i);
    }
    assert weekDates[..|weekDates|] == weekDates;
  }

  lemma InWeekNextDate(weekDates: seq<WeekDate>, slots: seq<TimeSlot>, i: nat)
    requires i < |weekDates|
    ensures forall x :: InWeek(weekDates[..i + 1], slots, x) <==>
                        InWeek(weekDates[..i], slots, x) || InWeek([weekDates[i]], slots[..|slots|], x)
  {
    assert slots[..|slots|] == slots;
    forall x | InWeek(weekDates[..i + 1], slots, x)
      ensures InWeek(weekDates[..i], slots, x) || InWeek([weekDates[i]], slots, x)
    {
      var a, b :| 0 <= a < i + 1 && 0 <= b < |slots| && x == SlotId(weekDates[..i + 1][a].dateString, slots[b].time);
      if a < i {
        assert weekDates[..i + 1][a] == weekDates[..i][a];
      } else {
        assert [weekDates[i]][0] == weekDates[..i + 1][a];
      }
    }
    forall x | InWeek(weekDates[..i], slots, x) ensures InWeek(weekDates[..i + 1], slots, x) {
      var a, b :| 0 <= a < i && 0 <= b < |slots| && x == SlotId(weekDates[..i][a].dateString, slots[b].time);
      assert weekDates[..i + 1][a] == weekDates[..i][a];
    }
    forall x | InWeek([weekDates[i]], slots, x) ensures InWeek(weekDates[..i + 1], slots, x) {
      var a, b :| 0 <= a < 1 && 0 <= b < |slots| && x == SlotId([weekDates[i]][a].dateString, slots[b].time);
      assert weekDates[..i + 1][i] == weekDates[i];
    }
  }

  /** `handleSelectAll` as a state change: the week's cells replace the painted ones. */
  method SelectAllCells(s: Selector, weekDates: seq<WeekDate>, slots: seq<TimeSlot>) returns (r: Selector)
    ensures forall x :: x in r.selectedSlots <==> InWeek(weekDates, slots, x)
    ensures Distinct(r.selectedSlots)
    ensures r.(selectedSlots := s.selectedSlots) == s
  {
    var all := SelectAll(weekDates, slots);
    r := s.(selectedSlots := all);
  }

  /** `handleDeselectAll`: no cell stays painted. */
  function DeselectAll(s: Selector): (r: Selector)
    ensures forall x :: x !in r.selectedSlots
    ensures r.(selectedSlots := s.selectedSlots) == s
  {
    s.(selectedSlots := [])
  }

  // ---------------------------------------------------------------------------------------
  // Submitting: `handleComplete`
  // ---------------------------------------------------------------------------------------

  /** The settings passed to `onComplete`: `{type: 'time_range', selected_dates, time_slots_by_date, total_slots}`. */
  datatype TimeRangeSettings = TimeRangeSettings(
    selectedDates: seq<string>,
    timeSlotsByDate: map<string, seq<string>>,
    totalSlots: nat)

  /**
   * `const [dateString, timeString] = slotId.split('-')`: the first two dash-separated fields.
   * For an id without a dash the second is `undefined`, shown here as the empty string; every id
   * made by `SlotId` holds a dash.
   */
  function SplitSlotIdAsWritten(slotId: string): (string, string) {
    var fields := Split(slotId, '-');
    (fields[0], if |fields| > 1 then fields[1] else "")
  }

  /** For a cell on a `YYYY-MM-DD` date, the split above gives the year as the date and the month as the time. */
  lemma AsWrittenSplitLosesTheDate(year: string, month: string, day: string, time: string)
    requires '-' !in year && '-' !in month
    ensures SplitSlotIdAsWritten(SlotId(year + "-" + month + "-" + day, time)) == (year, month)
  {
    var rest := day + "-" + time;
    assert SlotId(year + "-" + month + "-" + day, time) == year + ['-'] + (month + ['-'] + rest);
    SplitAfterField(year, '-', month + ['-'] + rest);
    SplitAfterField(month, '-', rest);
  }

  /** The concrete case: the cell for 09:00 on 2025-08-09 is filed under "2025" as "08". */
  lemma AsWrittenSplitExample()
    ensures SplitSlotIdAsWritten("2025-08-09-09:00") == ("2025", "08")
  {
    AsWrittenSplitLosesTheDate("2025", "08", "09", "09:00");
    assert SlotId("2025" + "-" + "08" + "-" + "09", "09:00") == "2025-08-09-09:00";
  }

  /** The intended reading of a cell id: everything before the last dash, and the time after it. */
  function SplitSlotId(slotId: string): (r: (string, string))
    ensures '-' in slotId ==> SlotId(r.0, r.1) == slotId
  {
    SplitAtLast(slotId, '-')
  }

  /** A cell id splits back into its date and time, whatever dashes the date holds. */
  lemma SplitSlotIdRoundTrip(dateString: string, timeString: string)
    requires '-' !in timeString
    ensures SplitSlotId(SlotId(dateString, timeString)) == (dateString, timeString)
  {
    SplitAtLastRoundTrip(dateString, '-', timeString);
  }

  /** The (date, time) pairs read back from the painted cells with `split`, in the `Set`'s order. */
  function PairsWith(ids: seq<string>, split: string -> (string, string)): (r: seq<(string, string)>)
    ensures |r| == |ids| && forall i :: 0 <= i < |ids| ==> r[i] == split(ids[i])
  {
    seq(|ids|, i requires 0 <= i < |ids| => split(ids[i]))
  }

  /** The object `time_slots_by_date` after the grouping loop and the sorting loop. */
  function SortedGroups(es: seq<(string, string)>): (m: map<string, seq<string>>)
    ensures forall k :: k in m <==> k in KeyOrder(es)
  {
    map k | k in Grouped(es) :: Sort(Grouped(es)[k])
  }

  /**
   * `handleComplete` with the cell ids read back by `split`: without a date or without a painted
   * cell nothing is submitted; otherwise the cells are grouped by date, each date's times
   * sorted, and the count of cells reported.
   */
  method CompleteWith(s: Selector, split: string -> (string, string)) returns (r: Option<TimeRangeSettings>)
    ensures s.selectedDates == [] || s.selectedSlots == [] ==> r == None
    ensures s.selectedDates != [] && s.selectedSlots != [] ==>
              r == Some(TimeRangeSettings(s.selectedDates, SortedGroups(PairsWith(s.selectedSlots, split)), |s.selectedSlots|))
  {
    if |s.selectedDates| == 0 {
      return None;
    }
    if |s.selectedSlots| == 0 {
      return None;
    }
    var timeSlotsByDate, dates := GroupByDate(s.selectedSlots, split);
    KeyOrderCoversKeys(PairsWith(s.selectedSlots, split));
    timeSlotsByDate := SortEachDate(timeSlotsByDate, dates);
    assert timeSlotsByDate == SortedGroups(PairsWith(s.selectedSlots, split));
    r := Some(TimeRangeSettings(s.selectedDates, timeSlotsByDate, |s.selectedSlots|));
  }

  /** `handleComplete` as written, splitting ids on every dash. */
  method HandleCompleteAsWritten(s: Selector) returns (r: Option<TimeRangeSettings>)
    ensures s.selectedDates == [] || s.selectedSlots == [] ==> r == None
    ensures s.selectedDates != [] && s.selectedSlots != [] ==>
              r == Some(TimeRangeSettings(s.selectedDates,
                                          SortedGroups(PairsWith(s.selectedSlots, SplitSlotIdAsWritten)),
                                          |s.selectedSlots|))
  {
    r := CompleteWith(s, SplitSlotIdAsWritten);
  }

  /** As written, no key of `time_slots_by_date` is ever a date: keys never hold a dash. */
  lemma AsWrittenKeysAreNeverDates(ids: seq<string>, date: string)
    requires '-' in date
    ensures date !in SortedGroups(PairsWith(ids, SplitSlotIdAsWritten))
  {
    var es := PairsWith(ids, SplitSlotIdAsWritten);
    KeyOrderCoversKeys(es);
    forall i | 0 <= i < |es| ensures KeysOf(es)[i] != date {
      SplitFieldsHaveNoSeparator(ids[i], '-');
    }
  }

  /** As written, a cell painted on `year-month-day` is filed under its year, with its month as the time. */
  lemma AsWrittenFilesUnderTheYear(ids: seq<string>, i: nat, year: string, month: string, day: string, time: string)
    requires i < |ids| && ids[i] == SlotId(year + "-" + month + "-" + day, time)
    requires '-' !in year && '-' !in month
    ensures var m := SortedGroups(PairsWith(ids, SplitSlotIdAsWritten));
            year in m && month in m[year]
  {
    var es := PairsWith(ids, SplitSlotIdAsWritten);
    AsWrittenSplitLosesTheDate(year, month, day, time);
    KeyOrderCoversKeys(es);
    assert KeysOf(es)[i] == year;
    ValuesForHoldsThePairs(es, year);
    assert es[i] == (year, month);
    SortIsSortedPermutation(ValuesFor(es, year));
    assert month in multiset(ValuesFor(es, year));
  }

  /** `handleComplete` with the id read back at its last dash, so each cell is filed under its own date. */
  method HandleComplete(s: Selector) returns (r: Option<TimeRangeSettings>)
    ensures s.selectedDates == [] || s.selectedSlots == [] ==> r == None
    ensures s.selectedDates != [] && s.selectedSlots != [] ==>
              r == Some(TimeRangeSettings(s.selectedDates, SortedGroups(PairsWith(s.selectedSlots, SplitSlotId)),
                                          |s.selectedSlots|))
  {
    r := CompleteWith(s, SplitSlotId);
  }

  /** The `forEach` that files each cell's time under its date; `dates` is the keys' order. */
  method GroupByDate(ids: seq<string>, split: string -> (string, string))
    returns (timeSlotsByDate: map<string, seq<string>>, dates: seq<string>)
    ensures timeSlotsByDate == Grouped(PairsWith(ids, split))
    ensures dates == KeyOrder(PairsWith(ids, split))
  {
    timeSlotsByDate, dates := map[], [];
    for i := 0 to |ids|
      invariant timeSlotsByDate == Grouped(PairsWith(ids[..i], split))
      invariant dates == KeyOrder(PairsWith(ids[..i], split))
    {
      var pair := split(ids[i]);
      assert PairsWith(ids[..i + 1], split) == PairsWith(ids[..i], split) + [pair];
      GroupedAppend(PairsWith(ids[..i], split), pair);
      KeyOrderAppend(PairsWith(ids[..i], split), pair);
      if pair.0 !in timeSlotsByDate {
        ValuesForEmptyIffAbsent(PairsWith(ids[..i], split), pair.0);
        timeSlotsByDate := timeSlotsByDate[pair.0 := []];
        dates := dates + [pair.0];
      }
      timeSlotsByDate := timeSlotsByDate[pair.0 := timeSlotsByDate[pair.0] + [pair.1]];
    }
    assert ids[..|ids|] == ids;
  }

  /** `Object.keys(timeSlotsByDate).forEach(date => timeSlotsByDate[date].sort())`. */
  method SortEachDate(grouped: map<string, seq<string>>, dates: seq<string>) returns (sorted: map<string, seq<string>>)
    requires Distinct(dates) && forall k :: k in grouped <==> k in dates
    ensures forall k :: k in sorted <==> k in grouped
    ensures forall k :: k in grouped ==> sorted[k] == Sort(grouped[k])
  {
    sorted := grouped;
    for j := 0 to |dates|
      invariant forall k :: k in sorted <==> k in grouped
      invariant forall k :: k in grouped && k in dates[..j] ==> sorted[k] == Sort(grouped[k])
      invariant forall k :: k in grouped && k !in dates[..j] ==> sorted[k] == grouped[k]
    {
      var date := dates[j];
      assert date !in dates[..j];
      assert dates[..j + 1] == dates[..j] + [date];
      sorted := sorted[date := Sort(sorted[date])];
    }
    assert dates[..|dates|] == dates;
  }

  /**
   * What the submitted grouping means for cells made by `SlotId` with dash-free times: a date is
   * a key exactly when some painted cell lies on it, and its list holds exactly the times painted
   * on that date, ascending, once each when the cells are distinct.
   */
  lemma {:induction false} SubmittedGroupsAreThePaintedCells(ids: seq<string>, date: string, time: string)
    requires forall i :: 0 <= i < |ids| ==> exists d, t :: '-' !in t && ids[i] == SlotId(d, t)
    requires '-' !in time
    ensures var m := SortedGroups(PairsWith(ids, SplitSlotId));
            && (date in m <==> exists t :: '-' !in t && SlotId(date, t) in ids)
            && (date in m ==> Sorted(m[date]) && (time in m[date] <==> SlotId(date, time) in ids))
  {
    var es := PairsWith(ids, SplitSlotId);
    var m := SortedGroups(es);
    KeyOrderCoversKeys(es);
    PaintedDates(ids, date);
    if date in m {
      var vs := ValuesFor(es, date);
      ValuesForHoldsThePairs(es, date);
      SortIsSortedPermutation(vs);
      assert forall v :: v in m[date] <==> v in multiset(vs);
      PaintedPairs(ids, date, time);
    }
  }

  /** A date is read back from some painted cell exactly when a painted cell lies on it. */
  lemma PaintedDates(ids: seq<string>, date: string)
    requires forall i :: 0 <= i < |ids| ==> exists d, t :: '-' !in t && ids[i] == SlotId(d, t)
    ensures date in KeysOf(PairsWith(ids, SplitSlotId)) <==> exists t :: '-' !in t && SlotId(date, t) in ids
  {
    var es := PairsWith(ids, SplitSlotId);
    forall t | '-' !in t && SlotId(date, t) in ids ensures date in KeysOf(es) {
      var i :| 0 <= i < |ids| && ids[i] == SlotId(date, t);
      SplitSlotIdRoundTrip(date, t);
      assert KeysOf(es)[i] == date;
    }
    if date in KeysOf(es) {
      var k :| 0 <= k < |KeysOf(es)| && KeysOf(es)[k] == date;
      var d, t :| '-' !in t && ids[k] == SlotId(d, t);
      SplitSlotIdRoundTrip(d, t);
      assert SlotId(date, t) in ids;
    }
  }

  /** A (date, time) pair is read back exactly when that cell is painted. */
  lemma PaintedPairs(ids: seq<string>, date: string, time: string)
    requires forall i :: 0 <= i < |ids| ==> exists d, t :: '-' !in t && ids[i] == SlotId(d, t)
    requires '-' !in time
    ensures (date, time) in PairsWith(ids, SplitSlotId) <==> SlotId(date, time) in ids
  {
    var es := PairsWith(ids, SplitSlotId);
    SplitSlotIdRoundTrip(date, time);
    if (date, time) in es {
      var i :| 0 <= i < |es| && es[i] == (date, time);
      var d, t :| '-' !in t && ids[i] == SlotId(d, t);
      SplitSlotIdRoundTrip(d, t);
    }
    if SlotId(date, time) in ids {
      var i :| 0 <= i < |ids| && ids[i] == SlotId(date, time);
      assert es[i] == (date, time);
    }
  }
}
