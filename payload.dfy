/**
 * The response payload shared by the participant page and the backend: a JSON object whose
 * room-type-specific key lists what the participant can attend. Keys other than these three are
 * never read; each of the three may be absent.
 */
module Payload {
  import opened Common

  /** `room_type` values: 1 = by hour, 2 = by block, 3 = by date. */
  const HOURLY: int := 1
  const BLOCK: int := 2
  const DAILY: int := 3

  /** One element of `available_blocks`: `{date, time_range}`, either key possibly absent. */
  datatype BlockChoice = BlockChoice(date: Option<string>, timeRange: Option<string>)

  /** `response_data`: `available_times` (hourly), `available_blocks` (block), `available_dates` (daily). */
  datatype ResponseData = ResponseData(
    availableTimes: Option<seq<string>>,
    availableBlocks: Option<seq<BlockChoice>>,
    availableDates: Option<seq<string>>)

  /** The empty object `{}`. */
  const EmptyData := ResponseData(None, None, None)
}
