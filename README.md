# yakjeong scheduling poll, modelled in Dafny

yakjeong lets an organiser open a scheduling room and participants answer it. A room is one of
three kinds: by hour (type 1), by custom time block (type 2) or by date (type 3). Participants
join a room under a name and submit responses. Each new response of a participant is meant to
get the next version number, and the newest one is what counts. The server then ranks the time
slots by how many participants can attend. As written, the handlers that store a response hand
the database a dictionary where it expects text and always fail (see "## Findings"); the model
states both that and the intended behaviour, on which the ranking builds.

This project models the core of that system and proves properties of the model.

Back end:
- The three tables and the FastAPI handlers that read and change them (`Tables`,
  `RoomsApi`, `ParticipantsApi`, `ResponsesApi`).
- The ranking algorithm (`ScheduleOptimizer`) and the response payload it reads (`Payload`).

Front end:
- The organiser's three setup screens: `TimeRangeSelector`, `BlockSelector` and
  `DateRangeSelector`, with the calendar logic they share (`Calendar`).
- The participant's page (`ParticipantResponse`).
- The global store (`StoreActions`, `UseStore`).

Shared helpers:
- `Common`: options, results, list filters.
- `Strings`: JavaScript's default string sort, `split`, decimal numbers, `padStart`, `trim`.
- `Grouping`: building a dictionary of lists by appending under keys, as `defaultdict(list)`
  and the JavaScript `obj[key] = obj[key] || []; obj[key].push(v)` idiom do.

How each part is modelled:
- The database is a class, `Tables.Database`. Its three tables are sequence fields in insertion
  order. Its `Valid()` invariant says:
  - row ids are fresh and increasing;
  - the foreign keys hold;
  - versions are at least 1;
  - `created_at` rises along the response table.
- Handlers that write are methods on the database. Handlers that only read are functions of the
  tables.
- Each React state cell of a screen is a value. Each handler is a function from the old value to
  the new one. Handlers that loop (`generateWeekDates`, `generateTimeSlots`, `handleSelectAll`,
  `handleBlockStepComplete` and the `handleComplete` groupings) are methods with loop invariants.
  Each of those methods is proved against a specification function.
- A JavaScript `Set` is a duplicate-free sequence in insertion order.

## Model

| member | source | states |
|---|---|---|
| Tables.Database.constructor | backend/app/main.py:14 | The three tables start empty and the table invariant holds. |
| Tables.ActiveRoomIndex | backend/app/api/v1/rooms.py:33 | `filter(id == room_id, is_active).first()`: None exactly when no active room has that id; otherwise an active row with that id. |
| Tables.NewestFirstIsDescending | backend/app/api/v1/responses.py:51-53 | A participant's responses ordered by `created_at desc` really are strictly descending, because the table is in creation order. |
| Tables.LatestIsNewest | backend/app/api/v1/rooms.py:87-89 | The latest response exists iff the participant has a response; it is theirs, and no response of theirs is newer. |
| ResponsesApi.NextVersion | backend/app/api/v1/responses.py:23-28 | The next version exceeds every version the participant has. It is 1 when they have none, and otherwise one more than an existing version. |
| ResponsesApi.NextVersionIsOneIffFirst | backend/app/api/v1/responses.py:28 | With versions at least 1, the next version is at least 1, and it is 1 exactly for a participant's first response. |
| ResponsesApi.CreateResponseAsWritten | backend/app/api/v1/responses.py:11-39 | As written: 404 iff the participant does not exist. Otherwise the new row's `Text` column `response_data` holds the request's dict (models/response.py:13; `set_response_data` is never called), so `commit` raises and the handler never succeeds; the database is untouched. |
| ResponsesApi.CreateResponse | backend/app/api/v1/responses.py:11-39 | Intended, with the payload stored as its JSON text as `set_response_data` (models/response.py:28-30) would: unknown participant, 404 and nothing changes. Otherwise one row is appended, with a fresh id and the next version; the other tables are untouched and the invariant holds. |
| ResponsesApi.GetResponsesByParticipant | backend/app/api/v1/responses.py:41-55 | 404 iff the participant does not exist; otherwise exactly that participant's responses, strictly newest first by `created_at` whenever the table is in creation order. |
| ResponsesApi.GetResponse | backend/app/api/v1/responses.py:57-67 | 404 iff no response has the id; otherwise the row with that id. |
| ResponsesApi.UpdateResponseAsWritten | backend/app/api/v1/responses.py:69-84 | As written: 404 iff no response has the id. Otherwise the row's `Text` column is assigned the request's dict, so `commit` raises and the handler never succeeds; the row keeps its payload and version. |
| ResponsesApi.UpdateResponse | backend/app/api/v1/responses.py:69-84 | Intended, with the new payload stored as its JSON text: 404 and no change for an unknown id. Otherwise that row gets the new payload and its version plus one; nothing else changes. |
| ResponsesApi.ActivateResponse | backend/app/api/v1/responses.py:86-106 | As written: 404 iff no response has the id. Otherwise the bulk update names an `is_active` column the `responses` table lacks (models/response.py:8-19), so the handler fails before `commit` and never succeeds; the database is untouched. |
| ResponsesApi.Deactivated | backend/app/api/v1/responses.py:97-99 | Intended, on a table with the column: the bulk update clears `is_active` on exactly the participant's rows; other rows keep their flag, and no row changes anything else. |
| ResponsesApi.Activated | backend/app/api/v1/responses.py:96-102 | Intended: the chosen row is active and the participant's other rows are inactive. Other participants' rows are unchanged, and no column but `is_active` moves. |
| ResponsesApi.ActivateIsIdempotent | backend/app/api/v1/responses.py:96-102 | Intended: activating the same response twice is the same as activating it once. |
| ResponsesApi.ActivateIntended | backend/app/api/v1/responses.py:86-106 | The endpoint as intended: 404 iff the id is unknown, and then nothing changes. Otherwise the returned row is the one asked for and is active, the participant's other rows are inactive, other participants' rows are untouched, and the rows without the flag are unchanged, so the optimal times are too. |
| ResponsesApi.DeleteResponse | backend/app/api/v1/responses.py:108-119 | 404 for an unknown id. Otherwise exactly that row is removed, in order, and the invariant holds. |
| ResponsesApi.RemoveResponse | backend/app/api/v1/responses.py:116 | Removing a response row keeps ids fresh, foreign keys, versions and creation order. |
| ParticipantsApi.MatchIndex | backend/app/api/v1/participants.py:23-26 | The same-name lookup finds a participant of that room with that name, or None when there is none. |
| ParticipantsApi.MatchAfterInsert | backend/app/api/v1/participants.py:23-35 | After an insert, the lookup finds the new row, and names stay unique per room. |
| ParticipantsApi.CreateParticipant | backend/app/api/v1/participants.py:11-37 | 404 for a missing or inactive room. An existing participant with that name is returned unchanged. Otherwise one participant is appended. Names stay unique within a room. |
| ParticipantsApi.GetParticipantsByRoom | backend/app/api/v1/participants.py:39-51 | 404 iff no active room has the id; otherwise exactly the room's participants. |
| ParticipantsApi.GetParticipant | backend/app/api/v1/participants.py:53-62 | 404 iff the id is unknown; otherwise that participant with exactly their responses. |
| ParticipantsApi.DeleteParticipant | backend/app/api/v1/participants.py:64-75 | 404 for an unknown id. Otherwise the participant and, by the ORM cascade, all of their responses are removed. |
| ParticipantsApi.RemoveParticipant | backend/app/models/participant.py:17 | The cascade keeps every table invariant: fresh ids, foreign keys, versions, creation order. |
| RoomsApi.CreateRoom | backend/app/api/v1/rooms.py:15-22 | One active room with a fresh id is appended, carrying the given fields; the other tables are untouched. |
| RoomsApi.GetRooms | backend/app/api/v1/rooms.py:24-28 | The active rooms from position `skip` on, at most `limit` of them, in table order. `skip` and `limit` are any integers: as SQLite does, a negative offset skips nothing and a negative limit sets no bound. |
| RoomsApi.NegativeSkipIsNoSkip | backend/app/api/v1/rooms.py:25-27 | A negative `skip` gives exactly the list `skip=0` gives. |
| RoomsApi.NegativeLimitIsNoBound | backend/app/api/v1/rooms.py:25-27 | A negative `limit` gives the same list as any limit of at least the table's size: every active room from the offset on. |
| RoomsApi.GetRoom | backend/app/api/v1/rooms.py:30-39 | 404 iff no active room has the id; otherwise that room with exactly its participants. |
| RoomsApi.Apply | backend/app/api/v1/rooms.py:52-53 | `setattr` of one updatable column changes that column only. |
| RoomsApi.UpdateSetsExactlyTheSentFields | backend/app/api/v1/rooms.py:51-53 | After the loop every sent column holds its sent value, and every unsent column is unchanged. |
| RoomsApi.UpdateRoom | backend/app/api/v1/rooms.py:41-57 | 404 for a missing or inactive room; otherwise only that room changes, by the sent columns. |
| RoomsApi.SoftDeletedRoomIsNotFound | backend/app/api/v1/rooms.py:59-70 | A soft-deleted room is no longer found by id lookups. |
| RoomsApi.DeleteRoom | backend/app/api/v1/rooms.py:59-70 | 404 for a missing or inactive room. Otherwise only `is_active` of that room becomes false, and lookups then miss it. |
| RoomsApi.InputFollowsParticipants | backend/app/api/v1/rooms.py:83-99 | The optimizer's input has one entry per participant with a latest response that decodes, in participant order. Each entry carries that participant's name and decoded latest payload; the others contribute nothing. |
| RoomsApi.GetOptimalTimes | backend/app/api/v1/rooms.py:72-105 | 404 for a missing or inactive room. Otherwise the optimizer's result for the room type, on the room's participants' latest decodable responses. |
| RoomsApi.InputIgnoresVersions | backend/app/api/v1/rooms.py:86-99 | The tally's input depends only on each participant's newest row and its payload: tables that differ only in `version` give the same input. |
| ScheduleOptimizer.FindOptimalTimes | backend/app/services/schedule_optimizer.py:8-98 | Returns `OptimalTimes`; empty for no responses. The result is sorted by count, descending, and each count is the length of its name list. |
| ScheduleOptimizer.Tally | backend/app/services/schedule_optimizer.py:22-30 | After the nested loops the dictionary's keys, in insertion order, are the first-seen slot keys; each key holds the names appended under it. |
| ScheduleOptimizer.SortByCountInPlace | backend/app/services/schedule_optimizer.py:43 | The in-place sort leaves the array equal to the stable descending sort of its old contents. |
| ScheduleOptimizer.SortByCountIsStableDescending | backend/app/services/schedule_optimizer.py:43 | `sort(key=count, reverse=True)` orders by count descending and permutes the records. It is stable, and it keeps time slots distinct. |
| ScheduleOptimizer.ResultRecordsAreConsistent | backend/app/services/schedule_optimizer.py:35-40 | Each record's count is the length of its names, and its rate is count over the number of responses. Its names are one per selection, in response order. |
| ScheduleOptimizer.ResultSlotsAreTheSelectedKeys | backend/app/services/schedule_optimizer.py:29-40 | The result's slots are distinct, and a slot appears iff some response selects it. |
| ScheduleOptimizer.ResultIsStablyOrdered | backend/app/services/schedule_optimizer.py:34-43 | The result is non-increasing in count, and equal counts keep the dictionary's first-seen order. |
| ScheduleOptimizer.CountsAddUpToSelections | backend/app/services/schedule_optimizer.py:29-38 | The counts sum to the total number of selections across responses. |
| ScheduleOptimizer.RateAtMostOneWithoutRepeats | backend/app/services/schedule_optimizer.py:39 | When no response repeats a key, no count exceeds the number of responses. |
| ScheduleOptimizer.RepeatedSelectionCountsTwice | backend/app/services/schedule_optimizer.py:29-30 | A response listing "09:00" twice is counted twice: there is no deduplication. |
| ScheduleOptimizer.NoResponsesNoSlots | backend/app/services/schedule_optimizer.py:10-11 | No responses, empty result. |
| ScheduleOptimizer.OtherRoomTypesTallyDates | backend/app/services/schedule_optimizer.py:17-18 | Every room type other than 1 and 2 is tallied exactly as type 3, by `available_dates`. |
| ScheduleOptimizer.BlockKeysSeparateChoices | backend/app/services/schedule_optimizer.py:57 | Block keys with dates of equal length coincide only when both the date and the time range coincide. |
| ScheduleOptimizer.BlockKeysCanMergeUnevenDates | backend/app/services/schedule_optimizer.py:57 | Dates of different lengths can share a block key. |
| ScheduleOptimizer.MissingNameIsUnknown | backend/app/services/schedule_optimizer.py:26 | A response without a name is tallied under "Unknown". |
| Grouping.Grouped | backend/app/services/schedule_optimizer.py:22-30 | The dictionary built by appending pairs has exactly the pushed keys, each holding a non-empty list of its values in push order. |
| Grouping.GroupedAppend | backend/app/services/schedule_optimizer.py:30 | One more append adds the value at the end of its key's list and changes no other key. |
| Grouping.ValuesForHoldsThePairs | backend/app/services/schedule_optimizer.py:30 | A value is under a key iff that pair was appended. |
| Strings.SortIsSortedPermutation | frontend/src/components/TimeRangeSelector.tsx:117 | JavaScript's default `sort()` yields a sorted permutation of its input. |
| Strings.SortedUnique | frontend/src/components/TimeRangeSelector.tsx:117 | Two sorted permutations of the same strings are equal, so any correct default sort gives this result. |
| Strings.NatToStringRoundTrip | frontend/src/components/BlockSelector.tsx:174-176 | `Number` reads back the decimal text `${n}` as `n`. |
| Strings.SplitAtLastRoundTrip | frontend/src/components/TimeRangeSelector.tsx:164 | Splitting at the last dash recovers the two parts when the second has no dash. |
| Calendar.ToggleDate | frontend/src/components/TimeRangeSelector.tsx:111-121 | Also `BlockSelector.tsx:83-93` and `DateRangeSelector.tsx:46-56`. A past day changes nothing. Otherwise the day's membership flips and every other date keeps its membership. |
| Calendar.ToggleKeepsStrictlySorted | frontend/src/components/DateRangeSelector.tsx:49-55 | A sorted list without duplicates stays sorted and without duplicates. |
| Calendar.ToggleTwiceRestores | frontend/src/components/DateRangeSelector.tsx:49-55 | Clicking a present or future day twice restores exactly the previous list. |
| Calendar.MondayOffset | frontend/src/components/BlockSelector.tsx:62-63 | The offset lies between -6 and 0. |
| Calendar.MondayIsLatestMonday | frontend/src/components/TimeRangeSelector.tsx:58-60 | The offset lands on a Monday within the six days before, and no Monday lies between it and the day. |
| Calendar.WeekDates | frontend/src/components/TimeRangeSelector.tsx:53-78 | The week's selected days in order, with increasing day indices below 7. Each entry is the date of its day of that Monday-based week, and no selected day of the week is missing. |
| DateRangeSelector.ClicksKeepDatesSortedAndUnique | frontend/src/components/DateRangeSelector.tsx:46-56 | From no dates, any series of clicks leaves the dates strictly ascending. A date is chosen iff it was clicked an odd number of times while not past. |
| DateRangeSelector.HandleComplete | frontend/src/components/DateRangeSelector.tsx:66-76 | Nothing is submitted for no dates; otherwise the dates go out unchanged. |
| TimeRangeSelector.GenerateTimeSlots | frontend/src/components/TimeRangeSelector.tsx:81-109 | 48 rows, row k being hour k/2 at minute 30·(k mod 2). Each row has its zero-padded `HH:MM`, its on-the-hour flag, and its label. |
| TimeRangeSelector.TimesAscend | frontend/src/components/TimeRangeSelector.tsx:85 | Later rows have later `HH:MM` strings in string order. |
| TimeRangeSelector.HourLabelIsTwelveHourClock | frontend/src/components/TimeRangeSelector.tsx:89-97 | The on-the-hour label is the 12-hour reading (12 for 0 and 12), AM before noon. |
| TimeRangeSelector.DateStepComplete | frontend/src/components/TimeRangeSelector.tsx:131-143 | No dates: nothing changes. Otherwise the step becomes the time step, the week is that of the first date, and the painted cells are cleared. |
| TimeRangeSelector.BackToDateSelection | frontend/src/components/TimeRangeSelector.tsx:145-148 | Back to the date step with the cells cleared; every other field (dates, week, drag state) is kept. |
| TimeRangeSelector.DateClick | frontend/src/components/TimeRangeSelector.tsx:111-121 | The dates become `ToggleDate` of the old ones; nothing else changes. |
| TimeRangeSelector.MouseDown | frontend/src/components/TimeRangeSelector.tsx:167-181 | Dragging starts. The mode is deselect iff the cell was painted, and the cell's membership flips. Other cells are unchanged and no cell appears twice. |
| TimeRangeSelector.MouseEnter | frontend/src/components/TimeRangeSelector.tsx:183-196 | Not dragging: no change. Otherwise the cell ends up painted iff the mode is select; other cells and fields are unchanged. |
| TimeRangeSelector.MouseUp | frontend/src/components/TimeRangeSelector.tsx:198-200 | Dragging stops; nothing else changes. |
| TimeRangeSelector.DragPaintsLikeFirstCell | frontend/src/components/TimeRangeSelector.tsx:167-196 | A drag paints or erases every cell it crosses as the first cell went, and leaves other cells alone. |
| TimeRangeSelector.SelectAll | frontend/src/components/TimeRangeSelector.tsx:203-211 | The set holds exactly the (shown date, row time) cells, each once. |
| TimeRangeSelector.SelectAllCells | frontend/src/components/TimeRangeSelector.tsx:203-211 | Only the painted cells change, to all cells of the week. |
| TimeRangeSelector.DeselectAll | frontend/src/components/TimeRangeSelector.tsx:213-215 | No cell remains painted; nothing else changes. |
| TimeRangeSelector.AsWrittenSplitLosesTheDate | frontend/src/components/TimeRangeSelector.tsx:232 | `split('-')` of a `YYYY-MM-DD-HH:MM` id yields the year and the month, not the date and the time. |
| TimeRangeSelector.AsWrittenSplitExample | frontend/src/components/TimeRangeSelector.tsx:232 | "2025-08-09-09:00" splits into ("2025", "08"). |
| TimeRangeSelector.HandleCompleteAsWritten | frontend/src/components/TimeRangeSelector.tsx:217-250 | The submission as written: nothing without dates or cells. Otherwise the cells are grouped by the as-written split, each list sorted, and the cell count given. |
| TimeRangeSelector.AsWrittenKeysAreNeverDates | frontend/src/components/TimeRangeSelector.tsx:232-236 | As written, no ISO date is ever a key of `time_slots_by_date`. |
| TimeRangeSelector.AsWrittenFilesUnderTheYear | frontend/src/components/TimeRangeSelector.tsx:232-236 | As written, each cell is filed under its year with its month as the "time". |
| TimeRangeSelector.SplitSlotIdRoundTrip | frontend/src/components/TimeRangeSelector.tsx:162-165 | The corrected split recovers the date and the time of any id made by `getSlotId`. |
| TimeRangeSelector.HandleComplete | frontend/src/components/TimeRangeSelector.tsx:217-250 | The corrected submission: as above, with the cells grouped by date and time. |
| TimeRangeSelector.GroupByDate | frontend/src/components/TimeRangeSelector.tsx:229-237 | The `forEach` leaves the dictionary of appended (date, time) pairs, and the key order of first appearance. |
| TimeRangeSelector.SortEachDate | frontend/src/components/TimeRangeSelector.tsx:240-242 | Same keys, each list replaced by its sorted version. |
| TimeRangeSelector.SubmittedGroupsAreThePaintedCells | frontend/src/components/TimeRangeSelector.tsx:228-242 | With the corrected split, a date is a key iff a painted cell lies on it. Its list is sorted and holds a time iff that (date, time) cell is painted. |
| BlockSelector.DateStepComplete | frontend/src/components/BlockSelector.tsx:115-121 | No dates: the step stays; otherwise it becomes the block step. |
| BlockSelector.BlockStepComplete | frontend/src/components/BlockSelector.tsx:123-141 | Moves on iff there is a block and every block's name and time range are non-blank. The week is then that of the first date. |
| BlockSelector.DefaultBlocksAreFilled | frontend/src/components/BlockSelector.tsx:14-19 | The four default showings pass the block step's check and have distinct ids. |
| BlockSelector.AddBlock | frontend/src/components/BlockSelector.tsx:143-151 | One block is appended, unfilled, and the others are kept. |
| BlockSelector.AddedBlockBlocksTheStep | frontend/src/components/BlockSelector.tsx:123-151 | After `addBlock` the block step rejects until the new block is filled in. |
| BlockSelector.SetField | frontend/src/components/BlockSelector.tsx:155 | The spread sets the named field and keeps the others. |
| BlockSelector.UpdateBlock | frontend/src/components/BlockSelector.tsx:153-157 | Only the given field of the block at the index changes. |
| BlockSelector.WithoutIndexIsRemoveAt | frontend/src/components/BlockSelector.tsx:161 | Filtering by position removes exactly that position, or nothing when it is out of range. |
| BlockSelector.RemoveBlock | frontend/src/components/BlockSelector.tsx:159-163 | With one block left nothing changes. Otherwise exactly the block at the index leaves, the others keeping their order. |
| BlockSelector.RemoveKeepsABlock | frontend/src/components/BlockSelector.tsx:160 | Removal never empties the list. |
| BlockSelector.ParseSlotIdRoundTrip | frontend/src/components/BlockSelector.tsx:174-201 | `"d-b".split('-').map(Number)` gives back d and b. |
| BlockSelector.BlockSlotClick | frontend/src/components/BlockSelector.tsx:178-189 | The clicked cell's membership flips, other cells keep theirs, and no cell appears twice. |
| BlockSelector.ClickTwiceRestores | frontend/src/components/BlockSelector.tsx:178-189 | Two clicks restore the set of ticked cells, and the very sequence when the cell was not ticked. |
| BlockSelector.HandleComplete | frontend/src/components/BlockSelector.tsx:191-220 | Nothing without a ticked cell. Otherwise the dates, the blocks, and the dictionary of (date, block id) pairs of in-range cells are submitted. |
| BlockSelector.CellPairsAreTheTickedCells | frontend/src/components/BlockSelector.tsx:200-211 | A pair is pushed iff some ticked cell is in range and stands for it; out-of-range or unreadable cells push nothing. |
| BlockSelector.TickedCellIsFiled | frontend/src/components/BlockSelector.tsx:200-211 | A ticked in-range cell files its block's id under its date. |
| ParticipantResponse.NameSubmit | frontend/src/pages/ParticipantResponse.tsx:40-47 | A whitespace-only name keeps the step; any other name moves to the response step. |
| ParticipantResponse.ResponseSubmit | frontend/src/pages/ParticipantResponse.tsx:49-77 | Nothing happens without a room. Each known type submits iff its own list is present and non-empty: times for hourly, dates for daily, blocks for block. Other types always submit. |
| ParticipantResponse.EmptyPayloadIsRejected | frontend/src/pages/ParticipantResponse.tsx:54-70 | The empty payload is rejected for all three room types. |
| ParticipantResponse.Toggle | frontend/src/pages/ParticipantResponse.tsx:93-95 | The entry's membership flips, others keep theirs, and an absent entry goes last. |
| ParticipantResponse.ToggleTwice | frontend/src/pages/ParticipantResponse.tsx:93-95 | Two toggles restore the set, and exactly the list when the entry was absent. |
| ParticipantResponse.HourOptions | frontend/src/pages/ParticipantResponse.tsx:80-92 | 24 buttons, the h-th labelled `HH:00`. |
| ParticipantResponse.HourLabelsAscend | frontend/src/pages/ParticipantResponse.tsx:80-92 | The labels are the on-the-hour times of the organiser's grid, ascending and distinct. |
| ParticipantResponse.ToggleHour | frontend/src/pages/ParticipantResponse.tsx:91-97 | Only `available_times` changes, by the toggle of `HH:00`. |
| ParticipantResponse.ToggleDate | frontend/src/pages/ParticipantResponse.tsx:136-141 | Only `available_dates` changes, by the unsorted toggle. |
| ParticipantResponse.DateOptions | frontend/src/pages/ParticipantResponse.tsx:117-121 | The fourteen days from today, in order. |
| ParticipantResponse.DropRange | frontend/src/pages/ParticipantResponse.tsx:184 | Removes every block with that time range and keeps the rest. |
| ParticipantResponse.ToggleBlock | frontend/src/pages/ParticipantResponse.tsx:181-187 | Only `available_blocks` changes. If a block has the range, all such blocks go; otherwise `{time_range, date: today}` is appended. Other blocks are unaffected. |
| ParticipantResponse.ToggleBlockTwice | frontend/src/pages/ParticipantResponse.tsx:181-187 | Pressing a block button twice from a state without that range restores the blocks. |
| StoreActions.SetCurrentRoom | frontend/src/store/useStore.ts:39 | Sets `currentRoom` only. |
| StoreActions.SetRooms | frontend/src/store/useStore.ts:41 | Sets `rooms` only. |
| StoreActions.AddRoom | frontend/src/store/useStore.ts:43-45 | Appends the room and changes nothing else. |
| StoreActions.SetParticipants | frontend/src/store/useStore.ts:47 | Sets `participants` only. |
| StoreActions.AddParticipant | frontend/src/store/useStore.ts:49-51 | Appends the participant and changes nothing else. |
| StoreActions.RemoveParticipant | frontend/src/store/useStore.ts:53-55 | Exactly the participants without that id remain; nothing else changes. |
| StoreActions.RemoveKeepsOrder | frontend/src/store/useStore.ts:54 | The remaining participants keep their order: the result is the order-keeping filter. |
| StoreActions.RemoveUndoesAdd | frontend/src/store/useStore.ts:49-55 | Adding a participant with a new id and then removing that id restores the state. |
| StoreActions.SetOptimalTimes | frontend/src/store/useStore.ts:57 | Sets `optimalTimes` only. |
| StoreActions.SetLoading | frontend/src/store/useStore.ts:59 | Sets `loading` only. |
| StoreActions.SetError | frontend/src/store/useStore.ts:61 | Sets `error` only. |
| StoreActions.ClearError | frontend/src/store/useStore.ts:63 | The error becomes null, as with `setError(null)`. |
| StoreActions.Reset | frontend/src/store/useStore.ts:65-72 | Every field returns to its initial value (lines 30-36). |
| UseStore.Store.constructor | frontend/src/store/useStore.ts:29-36 | The store starts in the initial state. |
| UseStore.Store.SetCurrentRoom | frontend/src/store/useStore.ts:39 | The state becomes `SetCurrentRoom` of the old state. |
| UseStore.Store.SetRooms | frontend/src/store/useStore.ts:41 | The state becomes `SetRooms` of the old state. |
| UseStore.Store.AddRoom | frontend/src/store/useStore.ts:43-45 | The state becomes `AddRoom` of the old state. |
| UseStore.Store.SetParticipants | frontend/src/store/useStore.ts:47 | The state becomes `SetParticipants` of the old state. |
| UseStore.Store.AddParticipant | frontend/src/store/useStore.ts:49-51 | The state becomes `AddParticipant` of the old state. |
| UseStore.Store.RemoveParticipant | frontend/src/store/useStore.ts:53-55 | The state becomes `RemoveParticipant` of the old state. |
| UseStore.Store.SetOptimalTimes | frontend/src/store/useStore.ts:57 | The state becomes `SetOptimalTimes` of the old state. |
| UseStore.Store.SetLoading | frontend/src/store/useStore.ts:59 | The state becomes `SetLoading` of the old state. |
| UseStore.Store.SetError | frontend/src/store/useStore.ts:61 | The state becomes `SetError` of the old state. |
| UseStore.Store.ClearError | frontend/src/store/useStore.ts:63 | The state becomes `ClearError` of the old state, so the error is cleared. |
| UseStore.Store.Reset | frontend/src/store/useStore.ts:65-72 | The state becomes the initial state. |

## Left out

- The FastAPI routing, `Depends(get_db)`, sessions, commits and refreshes, and response-model
  serialisation. Every handler is a method or function over the tables. The two commits that
  always fail are modelled by `ResponsesApi.CreateResponseAsWritten` and
  `ResponsesApi.UpdateResponseAsWritten`.
- ResponsesApi.GetResponse returns the stored row. The source validates it against
  `ResponseResponse`, whose `response_data` is a `Dict` (schemas/response.py:6,14), and the
  stored JSON text is not a dict, so as written the handler answers HTTP 500 for every row it
  finds. The model follows the intended reading, in which the text is decoded on the way out.
- ResponsesApi.GetResponsesByParticipant: the same validation fails as written whenever the
  participant has at least one response; the model returns the rows.
- ParticipantsApi.GetParticipant: the same validation of the nested `responses` fails as written
  whenever the participant has at least one response; the model returns the participant and
  their rows.
- ResponsesApi.CreateResponse and ResponsesApi.UpdateResponse, the intended halves, return the
  row; in the source the same validation of the returned row would fail after the commit.
- `json.loads`: it is the parameter `decode`. A decode that fails is None, which the `except:
  continue` at rooms.py:98-99 skips.
- Payloads that are not JSON objects are not modelled. Payload keys other than the three lists
  are ignored, because nothing reads them.
- ScheduleOptimizer.SlotKeys: a payload is decoded into lists of strings and blocks of strings,
  and a JSON `null` is modelled like an absent key. So the model does not capture what the
  source does with other well-formed JSON values:
  - An explicit `null` for `available_times`, `available_blocks` or `available_dates` makes
    `.get(key, [])` return `None`, and iterating it raises, so `get_optimal_times` fails with
    HTTP 500 where the model tallies nothing for that response.
  - A block whose `date` or `time_range` is `null` is keyed with the text `None` by the
    f-string at schedule_optimizer.py:57, where the model uses the empty text.
  - A string in place of a list (`"available_times": "09:00"`) is iterated character by
    character at schedule_optimizer.py:29 and :83, so each character becomes a slot key.
  - A list element that is not a string (`[9]`) becomes a `time_slot` value that fails
    `OptimalTimeSlot.time_slot: str` (schemas/response.py:25), so the endpoint answers HTTP 500;
    an element that is itself a list or an object cannot be a dictionary key and raises at once.
  - A block that is not an object raises `AttributeError` on `.get` at schedule_optimizer.py:57
    (HTTP 500).
  - A number as a block's `date` or `time_range` is formatted into the key by the f-string
    (`{"date": 5, "time_range": "am"}` is keyed `5-am`).
- `availability_rate` is kept as the pair (count, number of responses) instead of a float
  division.
- `uuid4()` is replaced by a counter of fresh ids, and `datetime.utcnow()` by a rising clock.
  `updated_at` is not modelled, because nothing reads it.
- Queries without `order_by` are taken to return rows in insertion order. A database may return
  another order.
- `RoomsApi.GetRooms` follows SQLite, the default engine (database.py:7), for negative `skip` and
  `limit`. Another engine chosen through `DATABASE_URL` may differ (PostgreSQL rejects negative
  values with an error); that is not modelled.
- `RoomsApi.UpdateRoom`: an explicit `null` sent for `title` (rejected by the database's NOT NULL
  constraint) is not modelled.
- JavaScript `Date` is not modelled: month navigation, the 42-day month grid, `toISOString`, and
  the time zone. A day is an integer; `dateString` and `parseDay` are parameters.
- Week navigation (`handlePrevWeek`/`handleNextWeek`) and the `dayName` labels are not modelled.
- JSX rendering, react-query, routing, the mutation that creates the participant and its
  response, and `alert` are not modelled. An alert is a rejected or unchanged result.
- JavaScript's default `sort()` compares UTF-16 code units, while `Strings.Less` compares code
  points. They agree on the ASCII date and time strings sorted here.
- `BlockSelector.ParseSlotId` reads plain decimal digits, and the empty string as 0 as `Number`
  does. `Number`'s other forms (surrounding spaces, signs, decimals, exponents, hex) are not
  modelled; ids come from `getSlotId`.
- `BlockSelector.BlockStepComplete`: `new Date(undefined)` for an empty date list is the week
  start None.
- `BlockSelector.UpdateBlock` requires the index to be in range. The rendered list only passes
  positions that exist.
- Dictionaries built in JavaScript objects (`time_slots_by_date`, `block_slots_by_date`) are
  Dafny maps, which do not record key order. `TimeRangeSelector.GroupByDate` returns the key
  order separately.
- `TimeRangeSelector.SplitSlotIdAsWritten` shows a missing second field (`undefined`) as "".
- The store's records carry only the fields the store or its callers read.

## Findings

| source | as written | input that shows it | evidently intended | confidence | as-written member | corrected member |
|---|---|---|---|---|---|---|
| backend/app/api/v1/responses.py:97-102 | `activate_response` runs `update({"is_active": False})` on the participant's responses and sets `response.is_active = True`, but the `Response` model and the `responses` table have no `is_active` column (backend/app/models/response.py:8-19). | `PUT /responses/{id}/activate` for any existing id: the bulk update names an unknown column and raises before `commit`, so the client gets HTTP 500 and no row changes. | An `is_active` column on `responses`, with the chosen row active and the participant's other rows inactive. | not executed | ResponsesApi.ActivateResponse | ResponsesApi.ActivateIntended (with Activated, Deactivated, ActivateIsIdempotent) |
| backend/app/api/v1/responses.py:31-37 | `create_response` puts the request's `response_data`, a `Dict[str, Any]` (schemas/response.py:6,9), straight into the `Text` column `response_data` (backend/app/models/response.py:13) and commits; `update_response` does the same at responses.py:79-81. `set_response_data`, which would `json.dumps` it (models/response.py:28-30), is never called. The read side is the mirror image: `ResponseResponse.response_data` is a `Dict`, so a stored text fails validation in `get_response`, `get_responses_by_participant` and `get_participant`. | `POST /responses {"participant_id": <existing>, "response_data": {"available_times": ["09:00"]}}`, which the participant page sends: the driver cannot bind a dict, `commit` raises, the client gets HTTP 500 and no row is written. `PUT /responses/{id}` with any payload fails the same way and leaves the row unchanged. | The payload stored as its JSON text by `set_response_data`, and decoded again by `get_response_data` when a row is returned. | not executed | ResponsesApi.CreateResponseAsWritten, ResponsesApi.UpdateResponseAsWritten | ResponsesApi.CreateResponse, ResponsesApi.UpdateResponse (with NextVersion, NextVersionIsOneIffFirst) |
| frontend/src/components/TimeRangeSelector.tsx:164,232 | The cell id is `${dateString}-${timeString}`. `handleComplete` destructures `slotId.split('-')` into `[dateString, timeString]`, but an ISO date itself contains dashes. | "2025-08-09-09:00" splits into ("2025", "08"): the cell is filed under "2025" with the "time" "08". | Split at the last dash, giving ("2025-08-09", "09:00"), so cells are grouped by their date. | not executed | TimeRangeSelector.HandleCompleteAsWritten (with AsWrittenFilesUnderTheYear, AsWrittenKeysAreNeverDates) | TimeRangeSelector.HandleComplete (with SubmittedGroupsAreThePaintedCells) |
