/**
 * The custom-block room's setup screen. The organiser picks dates, edits a list of named time
 * blocks (a film's showings, say), then ticks (date, block) cells of a week grid and submits the
 * ticked cells grouped by date.
 *
 * Each piece of React state is its own value here (`selectedDates`, `blocks`,
 * `selectedBlockSlots`), and each handler is a function from the old value to the new one; the
 * handlers that loop (`handleBlockStepComplete`, `handleComplete`) are methods.
 */
module BlockSelector {
  import opened Common
  import opened Strings
  import opened Grouping
  import opened Calendar

  /** `TimeBlock`: `{id, name, time_range, memo?}`. */
  datatype TimeBlock = TimeBlock(id: string, name: string, timeRange: string, memo: Option<string>)

  /** The four showings the screen starts with, and that `resetToDefault` puts back. */
  const DefaultBlocks: seq<TimeBlock> := [
    TimeBlock("movie_a_2", "영화A-2회차", "11:30-13:00", Some("CGV용산")),
    TimeBlock("movie_a_3", "영화A-3회차", "14:00-15:30", Some("CGV용산")),
    TimeBlock("movie_a_5", "영화A-5회차", "18:00-19:30", Some("CGV용산")),
    TimeBlock("movie_a_6", "영화A-6회차", "20:00-21:30", Some("CGV용산"))
  ]

  // ---------------------------------------------------------------------------------------
  // Steps
  // ---------------------------------------------------------------------------------------

  datatype Step = DateStep | BlockStep | GridStep

  /** `handleDateStepComplete`: on to the block step, unless no date is chosen. */
  function DateStepComplete(selectedDates: seq<string>, step: Step): (r: Step)
    ensures r == if selectedDates == [] then step else BlockStep
  {
    if |selectedDates| == 0 then step else BlockStep
  }

  /** A block the organiser has filled in: neither its name nor its time range is blank. */
  predicate Filled(b: TimeBlock) {
    !IsBlank(b.name) && !IsBlank(b.timeRange)
  }

  /**
   * What `handleBlockStepComplete` does: stay (an alert), or go to the grid with the week of
   * the first chosen date. `weekStart` is None when there is no chosen date, for the invalid
   * `new Date(undefined)`.
   */
  datatype BlockStepOutcome = Rejected | ToGrid(weekStart: Option<int>)

  /**
   * `handleBlockStepComplete`: first every block is checked for a blank name or time range, then
   * the list for emptiness; only a non-empty list of filled blocks moves on. `parseDay` stands
   * for `new Date(...)`.
   */
  method BlockStepComplete(blocks: seq<TimeBlock>, selectedDates: seq<string>, parseDay: string -> int)
    returns (r: BlockStepOutcome)
    ensures r.ToGrid? <==> |blocks| > 0 && forall i :: 0 <= i < |blocks| ==> Filled(blocks[i])
    ensures r.ToGrid? ==> r.weekStart == if selectedDates == [] then None else Some(parseDay(selectedDates[0]))
  {
    for i := 0 to |blocks|
      invariant forall j :: 0 <= j < i ==> Filled(blocks[j])
    {
      if IsBlank(blocks[i].name) || IsBlank(blocks[i].timeRange) {
        return Rejected;
      }
    }
    if |blocks| == 0 {
      return Rejected;
    }
    var firstDate := if |selectedDates| == 0 then None else Some(parseDay(selectedDates[0]));
    r := ToGrid(firstDate);
  }

  /** The default showings pass the block step's check, and no two of them share an id. */
  lemma DefaultBlocksAreFilled()
    ensures |DefaultBlocks| > 0 && forall i :: 0 <= i < |DefaultBlocks| ==> Filled(DefaultBlocks[i])
    ensures forall i, j :: 0 <= i < j < |DefaultBlocks| ==> DefaultBlocks[i].id != DefaultBlocks[j].id
  {
    forall i, j | 0 <= i < j < |DefaultBlocks| ensures DefaultBlocks[i].id != DefaultBlocks[j].id {
      assert DefaultBlocks[i].id[8] != DefaultBlocks[j].id[8];
    }
    forall i | 0 <= i < |DefaultBlocks| ensures Filled(DefaultBlocks[i]) {
      var b := DefaultBlocks[i];
      assert b.name[0] != ' ' && !IsJsWhitespace(b.name[0]);
      assert !IsJsWhitespace(b.timeRange[0]);
    }
  }

  // ---------------------------------------------------------------------------------------
  // Editing the block list
  // ---------------------------------------------------------------------------------------

  /** `addBlock`: an empty block, keyed `block_<now>`, goes last; `now` stands for `Date.now()`. */
  function AddBlock(blocks: seq<TimeBlock>, now: nat): (r: seq<TimeBlock>)
    ensures |r| == |blocks| + 1 && r[..|blocks|] == blocks
    ensures !Filled(r[|blocks|])
  {
    blocks + [TimeBlock("block_" + NatToString(now), "", "", Some(""))]
  }

  /** A freshly added block keeps the block step closed until it is filled in. */
  lemma AddedBlockBlocksTheStep(blocks: seq<TimeBlock>, now: nat)
    ensures !(forall i :: 0 <= i < |AddBlock(blocks, now)| ==> Filled(AddBlock(blocks, now)[i]))
  {
    assert !Filled(AddBlock(blocks, now)[|blocks|]);
  }

  /** `keyof TimeBlock`. */
  datatype BlockField = Id | Name | TimeRange | Memo

  /** The text a field holds (an absent memo reads as None). */
  function FieldText(b: TimeBlock, field: BlockField): Option<string> {
    match field
    case Id => Some(b.id)
    case Name => Some(b.name)
    case TimeRange => Some(b.timeRange)
    case Memo => b.memo
  }

  /** `{ ...block, [field]: value }`. */
  function SetField(b: TimeBlock, field: BlockField, value: string): (r: TimeBlock)
    ensures FieldText(r, field) == Some(value)
    ensures forall f :: f != field ==> FieldText(r, f) == FieldText(b, f)
  {
    match field
    case Id => b.(id := value)
    case Name => b.(name := value)
    case TimeRange => b.(timeRange := value)
    case Memo => b.(memo := Some(value))
  }

  /**
   * `updateBlock(index, field, value)`: the block at `index` takes `value` in `field`; every
   * other field of it and every other block are unchanged. The index comes from the rendered
   * list, so it is in range.
   */
  function UpdateBlock(blocks: seq<TimeBlock>, index: nat, field: BlockField, value: string): (r: seq<TimeBlock>)
    requires index < |blocks|
    ensures |r| == |blocks|
    ensures FieldText(r[index], field) == Some(value)
    ensures forall f :: f != field ==> FieldText(r[index], f) == FieldText(blocks[index], f)
    ensures forall i :: 0 <= i < |blocks| && i != index ==> r[i] == blocks[i]
  {
    blocks[index := SetField(blocks[index], field, value)]
  }

  /** `blocks.filter((_, i) => i !== index)`, walking the positions from 0. */
  function WithoutIndex(blocks: seq<TimeBlock>, index: int): seq<TimeBlock> {
    if blocks == [] then []
    else (if index == 0 then [] else [blocks[0]]) + WithoutIndex(blocks[1..], index - 1)
  }

  /** Filtering by position drops exactly that position, or nothing when it is out of range. */
  lemma {:induction false} WithoutIndexIsRemoveAt(blocks: seq<TimeBlock>, index: int)
    ensures 0 <= index < |blocks| ==> WithoutIndex(blocks, index) == RemoveAt(blocks, index)
    ensures !(0 <= index < |blocks|) ==> WithoutIndex(blocks, index) == blocks
    decreases |blocks|
  {
    if blocks != [] {
      WithoutIndexIsRemoveAt(blocks[1..], index - 1);
      if 0 < index < |blocks| {
        assert blocks[..index] == [blocks[0]] + blocks[1..][..index - 1];
        assert blocks[index + 1..] == blocks[1..][index..];
      } else if !(0 <= index < |blocks|) {
        assert blocks == [blocks[0]] + blocks[1..];
      }
    }
  }

  /**
   * `removeBlock(index)`: with one block left nothing happens; otherwise the block at `index`
   * leaves and the others keep their order.
   */
  function RemoveBlock(blocks: seq<TimeBlock>, index: int): (r: seq<TimeBlock>)
    ensures |blocks| <= 1 ==> r == blocks
    ensures |blocks| > 1 && 0 <= index < |blocks| ==> r == RemoveAt(blocks, index)
    ensures !(0 <= index < |blocks|) ==> r == blocks
  {
    WithoutIndexIsRemoveAt(blocks, index);
    if |blocks| > 1 then WithoutIndex(blocks, index) else blocks
  }

  /** Removing never empties the list. */
  lemma RemoveKeepsABlock(blocks: seq<TimeBlock>, index: int)
    requires blocks != []
    ensures RemoveBlock(blocks, index) != []
  {
  }

  // ---------------------------------------------------------------------------------------
  // The grid
  // ---------------------------------------------------------------------------------------

  /** `getSlotId(dateIndex, blockIndex)`: the two positions in decimal, joined by a dash. */
  function SlotId(dateIndex: nat, blockIndex: nat): string {
    NatToString(dateIndex) + "-" + NatToString(blockIndex)
  }

  /**
   * `slotId.split('-').map(Number)` destructured into two numbers. A field that is not a plain
   * number (NaN) or is missing (`undefined`) is None.
   */
  function ParseSlotId(slotId: string): (Option<nat>, Option<nat>) {
    var fields := Split(slotId, '-');
    (ParseNat(fields[0]), if |fields| > 1 then ParseNat(fields[1]) else None)
  }

  /** A cell id reads back as the two positions it was made from. */
  lemma ParseSlotIdRoundTrip(dateIndex: nat, blockIndex: nat)
    ensures ParseSlotId(SlotId(dateIndex, blockIndex)) == (Some(dateIndex), Some(blockIndex))
  {
    var a, b := NatToString(dateIndex), NatToString(blockIndex);
    assert '-' !in a && '-' !in b;
    SplitAfterField(a, '-', b);
    SplitWithoutSeparator(b, '-');
    assert SlotId(dateIndex, blockIndex) == a + ['-'] + b;
    NatToStringRoundTrip(dateIndex);
    NatToStringRoundTrip(blockIndex);
  }

  /** `handleBlockSlotClick`: the cell is ticked if it was not, and unticked if it was. */
  function BlockSlotClick(selected: seq<string>, dateIndex: nat, blockIndex: nat): (r: seq<string>)
    ensures SlotId(dateIndex, blockIndex) in r <==> SlotId(dateIndex, blockIndex) !in selected
    ensures forall x :: x != SlotId(dateIndex, blockIndex) ==> (x in r <==> x in selected)
    ensures Distinct(selected) ==> Distinct(r)
  {
    var slotId := SlotId(dateIndex, blockIndex);
    if slotId in selected then
      WithoutPreservesDistinct(selected, slotId);
      Without(selected, slotId)
    else SetAdd(selected, slotId)
  }

  /**
   * Clicking a cell twice gives back the same set of ticked cells; when the cell was not ticked
   * it gives back the very same sequence.
   */
  lemma ClickTwiceRestores(selected: seq<string>, dateIndex: nat, blockIndex: nat)
    ensures var twice := BlockSlotClick(BlockSlotClick(selected, dateIndex, blockIndex), dateIndex, blockIndex);
            forall x :: x in twice <==> x in selected
    ensures SlotId(dateIndex, blockIndex) !in selected ==>
              BlockSlotClick(BlockSlotClick(selected, dateIndex, blockIndex), dateIndex, blockIndex) == selected
  {
    var x := SlotId(dateIndex, blockIndex);
    if x !in selected {
      WithoutAppended(selected, x);
    }
  }

  // ---------------------------------------------------------------------------------------
  // Submitting: `handleComplete`
  // ---------------------------------------------------------------------------------------

  /** `{type: 'custom_blocks', selected_dates, time_blocks, block_slots_by_date, use_custom_blocks: true}`. */
  datatype BlockSettings = BlockSettings(
    selectedDates: seq<string>,
    timeBlocks: seq<TimeBlock>,
    blockSlotsByDate: map<string, seq<string>>,
    useCustomBlocks: bool)

  /** `weekDates[dateIndex] && blocks[blockIndex]`: both positions read back and both in range. */
  predicate InRange(slotId: string, weekDates: seq<WeekDate>, blocks: seq<TimeBlock>) {
    var (d, b) := ParseSlotId(slotId);
    d.Some? && d.value < |weekDates| && b.Some? && b.value < |blocks|
  }

  /** The (date, block id) a cell in range stands for. */
  function CellPair(slotId: string, weekDates: seq<WeekDate>, blocks: seq<TimeBlock>): (string, string)
    requires InRange(slotId, weekDates, blocks)
  {
    var (d, b) := ParseSlotId(slotId);
    (weekDates[d.value].dateString, blocks[b.value].id)
  }

  /** The pairs pushed by the `forEach`, in the `Set`'s order: out-of-range cells push nothing. */
  function CellPairs(ids: seq<string>, weekDates: seq<WeekDate>, blocks: seq<TimeBlock>): seq<(string, string)> {
    if ids == [] then []
    else
      CellPairs(Init(ids), weekDates, blocks)
      + (if InRange(Last(ids), weekDates, blocks) then [CellPair(Last(ids), weekDates, blocks)] else [])
  }

  /**
   * `handleComplete`: nothing is submitted without a ticked cell; otherwise each ticked cell in
   * range files its block's id under its date, and the dates, blocks and grouping are submitted.
   * `weekDates` is the list `generateWeekDates` gives (`Calendar.WeekDates`).
   */
  method HandleComplete(selectedDates: seq<string>, blocks: seq<TimeBlock>, selected: seq<string>, weekDates: seq<WeekDate>)
    returns (r: Option<BlockSettings>)
    ensures selected == [] ==> r == None
    ensures selected != [] ==>
              r == Some(BlockSettings(selectedDates, blocks, Grouped(CellPairs(selected, weekDates, blocks)), true))
  {
    if |selected| == 0 {
      return None;
    }
    var blockSlotsByDate: map<string, seq<string>> := map[];
    for i := 0 to |selected|
      invariant blockSlotsByDate == Grouped(CellPairs(selected[..i], weekDates, blocks))
    {
      var slotId := selected[i];
      ghost var before := CellPairs(selected[..i], weekDates, blocks);
      CellPairsStep(selected, i, weekDates, blocks);
      var (dateIndex, blockIndex) := ParseSlotId(slotId);
      assert InRange(slotId, weekDates, blocks) <==>
             dateIndex.Some? && dateIndex.value < |weekDates| && blockIndex.Some? && blockIndex.value < |blocks|;
      if dateIndex.Some? && dateIndex.value < |weekDates| && blockIndex.Some? && blockIndex.value < |blocks| {
        var date := weekDates[dateIndex.value].dateString;
        var blockId := blocks[blockIndex.value].id;
        assert CellPair(slotId, weekDates, blocks) == (date, blockId);
        assert CellPairs(selected[..i + 1], weekDates, blocks) == before + [(date, blockId)];
        GroupedAppend(before, (date, blockId));
        if date !in blockSlotsByDate {
          ValuesForEmptyIffAbsent(before, date);
          blockSlotsByDate := blockSlotsByDate[date := []];
        }
        blockSlotsByDate := blockSlotsByDate[date := blockSlotsByDate[date] + [blockId]];
      } else {
        assert CellPairs(selected[..i + 1], weekDates, blocks) == before;
      }
    }
    assert selected[..|selected|] == selected;
    r := Some(BlockSettings(selectedDates, blocks, blockSlotsByDate, true));
  }

  /** One more cell of the `forEach` pushes its pair when it is in range, and nothing otherwise. */
  lemma CellPairsStep(ids: seq<string>, i: nat, weekDates: seq<WeekDate>, blocks: seq<TimeBlock>)
    requires i < |ids|
    ensures CellPairs(ids[..i + 1], weekDates, blocks) ==
            CellPairs(ids[..i], weekDates, blocks)
            + (if InRange(ids[i], weekDates, blocks) then [CellPair(ids[i], weekDates, blocks)] else [])
  {
    assert Init(ids[..i + 1]) == ids[..i];
    assert Last(ids[..i + 1]) == ids[i];
  }

  /**
   * What the submitted grouping means for a grid of distinct dates: a block id is listed under
   * a date exactly when some ticked cell in range pairs that date with a block of that id, and
   * cells whose positions are out of range or unreadable contribute nothing.
   */
  lemma {:induction false} CellPairsAreTheTickedCells(ids: seq<string>, weekDates: seq<WeekDate>, blocks: seq<TimeBlock>)
    ensures forall p :: p in CellPairs(ids, weekDates, blocks) <==>
              exists i :: 0 <= i < |ids| && InRange(ids[i], weekDates, blocks) && p == CellPair(ids[i], weekDates, blocks)
    decreases |ids|
  {
    if ids != [] {
      var t := Init(ids);
      CellPairsAreTheTickedCells(t, weekDates, blocks);
      assert forall i :: 0 <= i < |t| ==> t[i] == ids[i];
      forall p | p in CellPairs(ids, weekDates, blocks)
        ensures exists i :: 0 <= i < |ids| && InRange(ids[i], weekDates, blocks) && p == CellPair(ids[i], weekDates, blocks)
      {
        if p !in CellPairs(t, weekDates, blocks) {
          assert ids[|ids| - 1] == Last(ids);
        }
      }
    }
  }

  /** A ticked cell made by `SlotId` from positions in range files its block's id under its date. */
  lemma TickedCellIsFiled(ids: seq<string>, weekDates: seq<WeekDate>, blocks: seq<TimeBlock>, i: nat, d: nat, b: nat)
    requires i < |ids| && ids[i] == SlotId(d, b) && d < |weekDates| && b < |blocks|
    ensures var m := Grouped(CellPairs(ids, weekDates, blocks));
            weekDates[d].dateString in m && blocks[b].id in m[weekDates[d].dateString]
  {
    var es := CellPairs(ids, weekDates, blocks);
    ParseSlotIdRoundTrip(d, b);
    CellPairsAreTheTickedCells(ids, weekDates, blocks);
    var p := (weekDates[d].dateString, blocks[b].id);
    assert p == CellPair(ids[i], weekDates, blocks);
    assert p in es;
    var k :| 0 <= k < |es| && es[k] == p;
    KeyOrderCoversKeys(es);
    assert KeysOf(es)[k] == p.0;
    ValuesForHoldsThePairs(es, p.0);
  }
}
