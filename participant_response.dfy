/**
 * The participant's page: a name step, then a response step whose buttons toggle entries of
 * the response payload (hours, dates or blocks, by room type) before it is submitted.
 * Each handler is a function from the old payload to the new one.
 */
module ParticipantResponse {
  import opened Common
  import opened Strings
  import opened Payload
  import TimeRangeSelector

  // ---------------------------------------------------------------------------------------
  // Steps and validation
  // ---------------------------------------------------------------------------------------

  datatype Step = NameStep | ResponseStep

  /** `handleNameSubmit`: a name of white space only keeps the page on the name step. */
  function NameSubmit(name: string, step: Step): (r: Step)
    ensures IsBlank(name) ==> r == step
    ensures !IsBlank(name) ==> r == ResponseStep
  {
    if IsBlank(name) then step else ResponseStep
  }

  /** A name with a visible character passes; the empty name and one of spaces do not. */
  lemma NameSubmitExamples()
    ensures NameSubmit("", NameStep) == NameStep
    ensures NameSubmit(" \t", NameStep) == NameStep
    ensures NameSubmit(" 민수 ", NameStep) == ResponseStep
  {
    assert !IsJsWhitespace(" 민수 "[1]);
  }

  /** What `handleResponseSubmit` does: nothing (room not loaded), an alert, or submit. */
  datatype SubmitOutcome = Ignored | Rejected | Submitted

  /** The list is there and not empty (`!xs || xs.length === 0` is its negation). */
  predicate HasEntries<T>(xs: Option<seq<T>>) {
    xs.Some? && |xs.value| > 0
  }

  /**
   * `handleResponseSubmit`: with the room not yet loaded nothing happens; an hourly room needs
   * at least one time, a daily room one date, a block room one block; any other room type is
   * submitted as it is.
   */
  function ResponseSubmit(roomType: Option<int>, data: ResponseData): (r: SubmitOutcome)
    ensures r == Ignored <==> roomType.None?
    ensures roomType == Some(HOURLY) ==> (r == Submitted <==> HasEntries(data.availableTimes))
    ensures roomType == Some(DAILY) ==> (r == Submitted <==> HasEntries(data.availableDates))
    ensures roomType == Some(BLOCK) ==> (r == Submitted <==> HasEntries(data.availableBlocks))
    ensures roomType.Some? && roomType.value !in {HOURLY, DAILY, BLOCK} ==> r == Submitted
  {
    if roomType.None? then Ignored
    else if roomType.value == HOURLY then
      if !HasEntries(data.availableTimes) then Rejected else Submitted
    else if roomType.value == DAILY then
      if !HasEntries(data.availableDates) then Rejected else Submitted
    else if roomType.value == BLOCK then
      if !HasEntries(data.availableBlocks) then Rejected else Submitted
    else Submitted
  }

  /** The empty payload is never submitted for the three known room types. */
  lemma EmptyPayloadIsRejected(roomType: int)
    requires roomType in {HOURLY, DAILY, BLOCK}
    ensures ResponseSubmit(Some(roomType), EmptyData) == Rejected
  {
  }

  // ---------------------------------------------------------------------------------------
  // Toggling entries
  // ---------------------------------------------------------------------------------------

  /**
   * `xs.includes(x) ? xs.filter(y => y !== x) : [...xs, x]`: an entry present is removed
   * wherever it occurs; an absent one goes last.
   */
  function Toggle(xs: seq<string>, x: string): (r: seq<string>)
    ensures x in r <==> x !in xs
    ensures forall y :: y != x ==> (y in r <==> y in xs)
    ensures x !in xs ==> |r| == |xs| + 1 && r[..|xs|] == xs
  {
    if x in xs then Without(xs, x) else xs + [x]
  }

  /** Toggling twice restores the set of entries, and the very list when the entry was absent. */
  lemma {:induction false} ToggleTwice(xs: seq<string>, x: string)
    ensures forall y :: y in Toggle(Toggle(xs, x), x) <==> y in xs
    ensures x !in xs ==> Toggle(Toggle(xs, x), x) == xs
  {
    if x !in xs {
      WithoutAppended(xs, x);
    }
  }

  /** `${hour.toString().padStart(2, '0')}:00`. */
  function HourLabel(hour: nat): string
    requires hour < 24
  {
    Pad2(hour) + ":00"
  }

  /** The 24 hour buttons, 00:00 to 23:00. */
  function HourOptions(): (r: seq<string>)
    ensures |r| == 24 && forall h :: 0 <= h < 24 ==> r[h] == HourLabel(h)
  {
    seq(24, h requires 0 <= h < 24 => HourLabel(h))
  }

  /**
   * The hour labels are the on-the-hour times of the organiser's grid, and they run in
   * ascending string order, so no two hours share a label.
   */
  lemma HourLabelsAscend(i: nat, j: nat)
    requires i < j < 24
    ensures HourLabel(i) == TimeRangeSelector.TimeString(i, 0)
    ensures Less(HourLabel(i), HourLabel(j))
  {
    var a, b := HourLabel(i), HourLabel(j);
    assert DigitChar(0) == '0';
    if i / 10 < j / 10 {
      TimeRangeSelector.LessAtFirstDifference(a, b, 0);
    } else {
      assert a[..1] == b[..1];
      TimeRangeSelector.LessAtFirstDifference(a, b, 1);
    }
  }

  /** The hour button's handler: only `available_times` changes. */
  function ToggleHour(data: ResponseData, hour: nat): (r: ResponseData)
    requires hour < 24
    ensures r.availableTimes == Some(Toggle(data.availableTimes.GetOr([]), HourLabel(hour)))
    ensures r.availableDates == data.availableDates && r.availableBlocks == data.availableBlocks
  {
    data.(availableTimes := Some(Toggle(data.availableTimes.GetOr([]), HourLabel(hour))))
  }

  /** The date button's handler: only `available_dates` changes, and no re-sorting happens. */
  function ToggleDate(data: ResponseData, date: string): (r: ResponseData)
    ensures r.availableDates == Some(Toggle(data.availableDates.GetOr([]), date))
    ensures r.availableTimes == data.availableTimes && r.availableBlocks == data.availableBlocks
  {
    data.(availableDates := Some(Toggle(data.availableDates.GetOr([]), date)))
  }

  /** The fourteen days offered, today first; `dateString` stands for the `YYYY-MM-DD` text of a day. */
  function DateOptions(today: int, dateString: int -> string): (r: seq<string>)
    ensures |r| == 14 && forall i :: 0 <= i < 14 ==> r[i] == dateString(today + i)
  {
    seq(14, i => dateString(today + i))
  }

  /** The `value` of the three block buttons: morning, afternoon, evening. */
  const BlockValues: seq<string> := ["09:00-12:00", "13:00-18:00", "19:00-22:00"]

  /** `selectedBlocks.some(b => b.time_range === value)`. */
  predicate HasRange(bs: seq<BlockChoice>, value: string) {
    exists i :: 0 <= i < |bs| && bs[i].timeRange == Some(value)
  }

  /** `selectedBlocks.filter(b => b.time_range !== value)`. */
  function DropRange(bs: seq<BlockChoice>, value: string): (r: seq<BlockChoice>)
    ensures !HasRange(r, value)
    ensures forall b :: b in r <==> b in bs && b.timeRange != Some(value)
    ensures !HasRange(bs, value) ==> r == bs
  {
    if bs == [] then []
    else
      var rest := DropRange(bs[1..], value);
      assert !HasRange(bs, value) ==> !HasRange(bs[1..], value) by {
        if HasRange(bs[1..], value) {
          var i :| 0 <= i < |bs[1..]| && bs[1..][i].timeRange == Some(value);
          assert bs[i + 1].timeRange == Some(value);
        }
      }
      (if bs[0].timeRange == Some(value) then [] else [bs[0]]) + rest
  }

  /**
   * The block button's handler: when some chosen block has this time range, every such block is
   * removed; otherwise `{time_range, date: today}` goes last. Only `available_blocks` changes.
   */
  function ToggleBlock(data: ResponseData, value: string, today: string): (r: ResponseData)
    ensures var before, after := data.availableBlocks.GetOr([]), r.availableBlocks.GetOr([]);
            && r.availableBlocks.Some?
            && (HasRange(after, value) <==> !HasRange(before, value))
            && (forall b: BlockChoice :: b.timeRange != Some(value) ==> (b in after <==> b in before))
            && (!HasRange(before, value) ==> after == before + [BlockChoice(Some(today), Some(value))])
    ensures r.availableTimes == data.availableTimes && r.availableDates == data.availableDates
  {
    var selected := data.availableBlocks.GetOr([]);
    var updated :=
      if HasRange(selected, value) then DropRange(selected, value)
      else selected + [BlockChoice(Some(today), Some(value))];
    assert !HasRange(selected, value) ==> updated[|selected|].timeRange == Some(value);
    data.(availableBlocks := Some(updated))
  }

  /** Pressing a block button twice from a state without that range gives back the same blocks. */
  lemma ToggleBlockTwice(data: ResponseData, value: string, today: string)
    requires !HasRange(data.availableBlocks.GetOr([]), value)
    ensures ToggleBlock(ToggleBlock(data, value, today), value, today).availableBlocks ==
            Some(data.availableBlocks.GetOr([]))
  {
    var before := data.availableBlocks.GetOr([]);
    var once := ToggleBlock(data, value, today).availableBlocks.GetOr([]);
    assert once == before + [BlockChoice(Some(today), Some(value))];
    DropRangeLast(before, BlockChoice(Some(today), Some(value)), value);
  }

  lemma {:induction false} DropRangeLast(bs: seq<BlockChoice>, b: BlockChoice, value: string)
    requires !HasRange(bs, value) && b.timeRange == Some(value)
    ensures DropRange(bs + [b], value) == bs
  {
    var r := DropRange(bs + [b], value);
    assert forall x :: x in r <==> x in bs;
    DropRangeAppend(bs, b, value);
  }

  lemma {:induction false} DropRangeAppend(bs: seq<BlockChoice>, b: BlockChoice, value: string)
    requires b.timeRange == Some(value)
    ensures DropRange(bs + [b], value) == DropRange(bs, value)
    decreases |bs|
  {
    if bs == [] {
      assert [b][1..] == [];
    } else {
      assert (bs + [b])[1..] == bs[1..] + [b];
      DropRangeAppend(bs[1..], b, value);
    }
  }
}
