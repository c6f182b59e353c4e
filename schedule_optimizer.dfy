/**
 * The availability tally. For each slot key chosen in any response it lists the names of the
 * participants who chose it, then orders the slots by how many names they carry, most first.
 *
 * The specification functions below describe the result. `Entries` is the sequence of
 * (slot key, name) pairs in the order the nested loops visit them, and `KeyOrder` is the
 * dictionary's insertion order. `ValuesFor` gives a key's list of names, `Unsorted` is the list
 * before sorting, and `SortByCount` is the stable sort by count, descending. The method
 * `FindOptimalTimes` computes the same result with a dictionary, loops and an in-place sort.
 */
module ScheduleOptimizer {
  import opened Common
  import opened Payload
  import opened Grouping

  /** One element of the input list: `{participant_name, response_data}`, either key possibly absent. */
  datatype ResponseEntry = ResponseEntry(participantName: Option<string>, responseData: Option<ResponseData>)

  /** `availability_rate` as the exact fraction `count / total`, where total = len(responses). */
  datatype Rate = Rate(count: nat, total: nat)

  /** One output record: `{time_slot, available_participants, participant_count, availability_rate}`. */
  datatype OptimalTimeSlot = OptimalTimeSlot(
    timeSlot: string,
    availableParticipants: seq<string>,
    participantCount: nat,
    availabilityRate: Rate)

  // ---------------------------------------------------------------------------------------
  // Reading one response
  // ---------------------------------------------------------------------------------------

  /** `response.get('participant_name', 'Unknown')`. */
  function NameOf(r: ResponseEntry): string {
    r.participantName.GetOr("Unknown")
  }

  /** The block tally's key: `f"{block.get('date', '')}-{block.get('time_range', '')}"`. */
  function BlockKey(b: BlockChoice): string {
    b.date.GetOr("") + "-" + b.timeRange.GetOr("")
  }

  /**
   * The slot keys one response contributes, chosen by room type: type 1 reads `available_times`,
   * type 2 turns each of `available_blocks` into its block key, and every other type reads
   * `available_dates`. A missing `response_data` or a missing list contributes nothing.
   */
  function SlotKeys(roomType: int, r: ResponseEntry): seq<string> {
    var data := r.responseData.GetOr(EmptyData);
    if roomType == HOURLY then data.availableTimes.GetOr([])
    else if roomType == BLOCK then
      var blocks := data.availableBlocks.GetOr([]);
      seq(|blocks|, i requires 0 <= i < |blocks| => BlockKey(blocks[i]))
    else data.availableDates.GetOr([])
  }

  /** Pairs every key of one response with that response's name. */
  function Tag(keys: seq<string>, name: string): (r: seq<(string, string)>)
    ensures |r| == |keys|
    ensures forall i :: 0 <= i < |keys| ==> r[i] == (keys[i], name)
  {
    seq(|keys|, i requires 0 <= i < |keys| => (keys[i], name))
  }

  /** The (slot key, name) pairs the nested loops append, in visiting order. */
  function Entries(roomType: int, rs: seq<ResponseEntry>): seq<(string, string)> {
    if rs == [] then []
    else Entries(roomType, Init(rs)) + Tag(SlotKeys(roomType, Last(rs)), NameOf(Last(rs)))
  }

  /** Total number of slot keys selected across all responses. */
  function TotalSelected(roomType: int, rs: seq<ResponseEntry>): nat {
    if rs == [] then 0 else TotalSelected(roomType, Init(rs)) + |SlotKeys(roomType, Last(rs))|
  }

  // ---------------------------------------------------------------------------------------
  // The dictionary `defaultdict(list)` after the loops
  // ---------------------------------------------------------------------------------------

  // `KeyOrder` and `ValuesFor` (module `Grouping`) describe the dictionary's keys and lists.

  function SlotFor(es: seq<(string, string)>, k: string, total: nat): OptimalTimeSlot {
    var names := ValuesFor(es, k);
    OptimalTimeSlot(k, names, |names|, Rate(|names|, total))
  }

  /** One record per key of `ko`, in that order. */
  function SlotsFor(es: seq<(string, string)>, ko: seq<string>, total: nat): (r: seq<OptimalTimeSlot>)
    ensures |r| == |ko|
    ensures forall i :: 0 <= i < |ko| ==> r[i] == SlotFor(es, ko[i], total)
  {
    if ko == [] then [] else SlotsFor(es, Init(ko), total) + [SlotFor(es, Last(ko), total)]
  }

  /** `optimal_times` before `.sort`: one record per dictionary key, in insertion order. */
  function Unsorted(roomType: int, rs: seq<ResponseEntry>): seq<OptimalTimeSlot> {
    var es := Entries(roomType, rs);
    SlotsFor(es, KeyOrder(es), |rs|)
  }

  /** What `find_optimal_times` returns. */
  function OptimalTimes(roomType: int, rs: seq<ResponseEntry>): seq<OptimalTimeSlot> {
    if rs == [] then [] else SortByCount(Unsorted(roomType, rs))
  }

  // ---------------------------------------------------------------------------------------
  // `.sort(key=participant_count, reverse=True)`: stable, most names first
  // ---------------------------------------------------------------------------------------

  /** Places `x` after every element whose count is at least its own. */
  function InsertByCount(s: seq<OptimalTimeSlot>, x: OptimalTimeSlot): seq<OptimalTimeSlot> {
    if s == [] || Last(s).participantCount >= x.participantCount then s + [x]
    else InsertByCount(Init(s), x) + [Last(s)]
  }

  function SortByCount(s: seq<OptimalTimeSlot>): seq<OptimalTimeSlot> {
    if s == [] then [] else InsertByCount(SortByCount(Init(s)), Last(s))
  }

  predicate NonIncreasing(s: seq<OptimalTimeSlot>) {
    forall i, j :: 0 <= i < j < |s| ==> s[i].participantCount >= s[j].participantCount
  }

  /** The elements whose count is `c`, in order. */
  function WithCount(s: seq<OptimalTimeSlot>, c: nat): seq<OptimalTimeSlot> {
    if s == [] then []
    else WithCount(Init(s), c) + (if Last(s).participantCount == c then [Last(s)] else [])
  }

  function TimeSlots(s: seq<OptimalTimeSlot>): seq<string> {
    seq(|s|, i requires 0 <= i < |s| => s[i].timeSlot)
  }

  function SumCounts(s: seq<OptimalTimeSlot>): nat {
    if s == [] then 0 else SumCounts(Init(s)) + Last(s).participantCount
  }

  /** The names per response: `Count(keys, k)` copies of each response's name, response by response. */
  function NamesByResponse(roomType: int, rs: seq<ResponseEntry>, k: string): seq<string> {
    if rs == [] then []
    else NamesByResponse(roomType, Init(rs), k)
         + Repeat(NameOf(Last(rs)), Count(SlotKeys(roomType, Last(rs)), k))
  }

  // ---------------------------------------------------------------------------------------
  // The implementation
  // ---------------------------------------------------------------------------------------

  /**
   * `ScheduleOptimizer(room_type).find_optimal_times(responses)`: an empty list gives an empty
   * result; otherwise the `_optimize_*` method for the room type fills the dictionary in two
   * nested loops, builds one record per key, and sorts the records in place.
   */
  method FindOptimalTimes(roomType: int, responses: seq<ResponseEntry>) returns (optimalTimes: seq<OptimalTimeSlot>)
    ensures optimalTimes == OptimalTimes(roomType, responses)
    ensures responses == [] ==> optimalTimes == []
    ensures NonIncreasing(optimalTimes)
    ensures forall i :: 0 <= i < |optimalTimes| ==>
              optimalTimes[i].participantCount == |optimalTimes[i].availableParticipants|
  {
    if responses == [] {
      return [];
    }
    var availability, keyOrder := Tally(roomType, responses);
    var unsorted := Records(availability, keyOrder, |responses|);
    assert unsorted == Unsorted(roomType, responses);
    var a := new OptimalTimeSlot[|unsorted|](k requires 0 <= k < |unsorted| => unsorted[k]);
    assert a[..] == unsorted;
    SortByCountInPlace(a);
    optimalTimes := a[..];
    SortByCountIsStableDescending(unsorted);
    forall i | 0 <= i < |optimalTimes|
      ensures optimalTimes[i].participantCount == |optimalTimes[i].availableParticipants|
    {
      var p := PermutationMember(optimalTimes, unsorted, i);
    }
  }

  /**
   * The two nested loops of an `_optimize_*` method: `availability[slot].append(name)` for every
   * slot key of every response, in order.
   */
  method Tally(roomType: int, responses: seq<ResponseEntry>)
    returns (availability: map<string, seq<string>>, keyOrder: seq<string>)
    ensures keyOrder == KeyOrder(Entries(roomType, responses))
    ensures forall k :: k in availability <==> k in keyOrder
    ensures forall k :: k in availability ==> availability[k] == ValuesFor(Entries(roomType, responses), k)
  {
    availability, keyOrder := map[], [];
    var i := 0;
    while i < |responses|
      invariant 0 <= i <= |responses|
      invariant keyOrder == KeyOrder(Entries(roomType, responses[..i]))
      invariant forall k :: k in availability <==> k in keyOrder
      invariant forall k :: k in availability ==> availability[k] == ValuesFor(Entries(roomType, responses[..i]), k)
    {
      availability, keyOrder := TallyOne(availability, keyOrder, Entries(roomType, responses[..i]),
                                         SlotKeys(roomType, responses[i]), NameOf(responses[i]));
      assert Init(responses[..i + 1]) == responses[..i];
      i := i + 1;
    }
    assert responses[..|responses|] == responses;
  }

  /** The inner loop: appends `name` under each of one response's slot keys. */
  method TallyOne(availability0: map<string, seq<string>>, keyOrder0: seq<string>, ghost done: seq<(string, string)>,
                  keys: seq<string>, name: string)
    returns (availability: map<string, seq<string>>, keyOrder: seq<string>)
    requires keyOrder0 == KeyOrder(done)
    requires forall k :: k in availability0 <==> k in keyOrder0
    requires forall k :: k in availability0 ==> availability0[k] == ValuesFor(done, k)
    ensures keyOrder == KeyOrder(done + Tag(keys, name))
    ensures forall k :: k in availability <==> k in keyOrder
    ensures forall k :: k in availability ==> availability[k] == ValuesFor(done + Tag(keys, name), k)
  {
    availability, keyOrder := availability0, keyOrder0;
    assert done + Tag(keys[..0], name) == done;
    var j := 0;
    while j < |keys|
      invariant 0 <= j <= |keys|
      invariant keyOrder == KeyOrder(done + Tag(keys[..j], name))
      invariant forall k :: k in availability <==> k in keyOrder
      invariant forall k :: k in availability ==> availability[k] == ValuesFor(done + Tag(keys[..j], name), k)
    {
      var slot := keys[j];
      ghost var es := done + Tag(keys[..j], name);
      assert done + Tag(keys[..j + 1], name) == es + [(slot, name)];
      forall k ensures ValuesFor(es + [(slot, name)], k) == ValuesFor(es, k) + (if slot == k then [name] else []) {
        ValuesForAppend(es, (slot, name), k);
      }
      KeyOrderAppend(es, (slot, name));
      ValuesForEmptyIffAbsent(es, slot);
      if slot !in availability {
        availability := availability[slot := []];
        keyOrder := keyOrder + [slot];
      }
      availability := availability[slot := availability[slot] + [name]];
      j := j + 1;
    }
    assert keys[..|keys|] == keys;
  }

  /** The list comprehension building one record per dictionary key. */
  method Records(availability: map<string, seq<string>>, keyOrder: seq<string>, total: nat)
    returns (unsorted: seq<OptimalTimeSlot>)
    requires forall k :: k in keyOrder ==> k in availability
    ensures |unsorted| == |keyOrder|
    ensures forall n :: 0 <= n < |keyOrder| ==>
              var names := availability[keyOrder[n]];
              unsorted[n] == OptimalTimeSlot(keyOrder[n], names, |names|, Rate(|names|, total))
  {
    unsorted := [];
    var n := 0;
    while n < |keyOrder|
      invariant 0 <= n <= |keyOrder|
      invariant |unsorted| == n
      invariant forall m :: 0 <= m < n ==>
                  var names := availability[keyOrder[m]];
                  unsorted[m] == OptimalTimeSlot(keyOrder[m], names, |names|, Rate(|names|, total))
    {
      var participants := availability[keyOrder[n]];
      unsorted := unsorted + [OptimalTimeSlot(keyOrder[n], participants, |participants|, Rate(|participants|, total))];
      n := n + 1;
    }
  }

  /** Python's `list.sort` on the records, run in place as an insertion sort. */
  method SortByCountInPlace(a: array<OptimalTimeSlot>)
    modifies a
    ensures a[..] == SortByCount(old(a[..]))
  {
    ghost var input := a[..];
    var i := 0;
    while i < a.Length
      invariant 0 <= i <= a.Length
      invariant a[..i] == SortByCount(input[..i])
      invariant a[i..] == input[i..]
    {
      ghost var before := a[..];
      assert before[i..] == input[i..];
      assert before[i + 1..] == before[i..][1..] && input[i + 1..] == input[i..][1..];
      assert before[i] == before[i..][0];
      InsertLast(a, i);
      assert a[i + 1..] == before[i + 1..];
      assert Init(input[..i + 1]) == input[..i];
      assert Last(input[..i + 1]) == before[i];
      i := i + 1;
    }
    assert a[..] == a[..a.Length] && input == input[..a.Length];
  }

  /** One step of the insertion sort: moves `a[i]` left past the records with a smaller count. */
  method InsertLast(a: array<OptimalTimeSlot>, i: nat)
    requires i < a.Length
    modifies a
    ensures a[..i + 1] == InsertByCount(old(a[..i]), old(a[i]))
    ensures a[i + 1..] == old(a[i + 1..])
  {
    ghost var sorted := a[..i];
    var x := a[i];
    var j := i;
    while j > 0 && a[j - 1].participantCount < x.participantCount
      invariant 0 <= j <= i
      invariant forall k :: 0 <= k < j ==> a[k] == sorted[k]
      invariant forall k :: j < k <= i ==> a[k] == sorted[k - 1]
      invariant forall k :: i < k < a.Length ==> a[k] == old(a[k])
      invariant forall k :: j <= k < i ==> sorted[k].participantCount < x.participantCount
    {
      a[j] := a[j - 1];
      j := j - 1;
    }
    a[j] := x;
    InsertByCountAt(sorted, x, j);
    ghost var expected := sorted[..j] + [x] + sorted[j..];
    assert forall k :: 0 <= k <= i ==> a[k] == expected[k];
    assert a[..i + 1] == expected;
  }

  // ---------------------------------------------------------------------------------------
  // The sort
  // ---------------------------------------------------------------------------------------

  /** The insertion point the in-place sort finds is where `InsertByCount` puts `x`. */
  lemma {:induction false} InsertByCountAt(s: seq<OptimalTimeSlot>, x: OptimalTimeSlot, j: nat)
    requires j <= |s|
    requires forall k :: j <= k < |s| ==> s[k].participantCount < x.participantCount
    requires j == 0 || s[j - 1].participantCount >= x.participantCount
    ensures InsertByCount(s, x) == s[..j] + [x] + s[j..]
    decreases |s|
  {
    if j < |s| {
      InsertByCountAt(Init(s), x, j);
      assert Init(s)[..j] == s[..j];
      assert Init(s)[j..] + [Last(s)] == s[j..];
    } else {
      assert s[..j] == s;
    }
  }

  lemma {:induction false} InsertByCountPermutes(s: seq<OptimalTimeSlot>, x: OptimalTimeSlot)
    ensures multiset(InsertByCount(s, x)) == multiset(s) + multiset{x}
    decreases |s|
  {
    if s != [] && Last(s).participantCount < x.participantCount {
      InsertByCountPermutes(Init(s), x);
      assert s == Init(s) + [Last(s)];
    }
  }

  lemma {:induction false} InsertByCountOrders(s: seq<OptimalTimeSlot>, x: OptimalTimeSlot)
    requires NonIncreasing(s)
    ensures NonIncreasing(InsertByCount(s, x))
    decreases |s|
  {
    if s != [] && Last(s).participantCount < x.participantCount {
      var t, l := Init(s), Last(s);
      assert NonIncreasing(t) by {
        forall i, j | 0 <= i < j < |t| ensures t[i].participantCount >= t[j].participantCount {
          assert t[i] == s[i] && t[j] == s[j];
        }
      }
      InsertByCountOrders(t, x);
      InsertByCountPermutes(t, x);
      var r := InsertByCount(t, x);
      forall k | 0 <= k < |r| ensures r[k].participantCount >= l.participantCount {
        assert r[k] in multiset(r);
        if r[k] != x {
          assert r[k] in multiset(t);
          var m :| 0 <= m < |t| && t[m] == r[k];
          assert s[m] == r[k];
        }
      }
      var out := r + [l];
      forall i, j | 0 <= i < j < |out| ensures out[i].participantCount >= out[j].participantCount {
        if j == |r| {
          assert out[i] == r[i];
        } else {
          assert out[i] == r[i] && out[j] == r[j];
        }
      }
    }
  }

  lemma {:induction false} InsertByCountIsStable(s: seq<OptimalTimeSlot>, x: OptimalTimeSlot, c: nat)
    ensures WithCount(InsertByCount(s, x), c)
            == WithCount(s, c) + (if x.participantCount == c then [x] else [])
    decreases |s|
  {
    if s == [] || Last(s).participantCount >= x.participantCount {
      assert Init(s + [x]) == s;
    } else {
      InsertByCountIsStable(Init(s), x, c);
      var r := InsertByCount(Init(s), x);
      assert Init(r + [Last(s)]) == r;
    }
  }

  lemma DistinctSlotsOfPrefix(s: seq<OptimalTimeSlot>)
    requires s != [] && Distinct(TimeSlots(s))
    ensures Distinct(TimeSlots(Init(s)))
    ensures Last(s).timeSlot !in TimeSlots(Init(s))
  {
    var t := Init(s);
    forall i, j | 0 <= i < j < |t| ensures TimeSlots(t)[i] != TimeSlots(t)[j] {
      assert TimeSlots(t)[i] == TimeSlots(s)[i] && TimeSlots(t)[j] == TimeSlots(s)[j];
    }
    forall m | 0 <= m < |t| ensures TimeSlots(t)[m] != Last(s).timeSlot {
      assert TimeSlots(t)[m] == TimeSlots(s)[m] != TimeSlots(s)[|s| - 1] == Last(s).timeSlot;
    }
  }

  /** Elements of a permutation are elements of the original. */
  lemma PermutationMember(r: seq<OptimalTimeSlot>, t: seq<OptimalTimeSlot>, k: nat) returns (m: nat)
    requires multiset(r) == multiset(t) && k < |r|
    ensures m < |t| && t[m] == r[k]
  {
    assert r[k] in multiset(t);
    m :| 0 <= m < |t| && t[m] == r[k];
  }

  lemma {:induction false} InsertByCountKeepsSlotsDistinct(s: seq<OptimalTimeSlot>, x: OptimalTimeSlot)
    requires Distinct(TimeSlots(s)) && x.timeSlot !in TimeSlots(s)
    ensures Distinct(TimeSlots(InsertByCount(s, x)))
    decreases |s|
  {
    if s == [] || Last(s).participantCount >= x.participantCount {
      assert TimeSlots(s + [x]) == TimeSlots(s) + [x.timeSlot];
    } else {
      var t, l := Init(s), Last(s);
      DistinctSlotsOfPrefix(s);
      forall m | 0 <= m < |t| ensures TimeSlots(t)[m] != x.timeSlot {
        assert TimeSlots(t)[m] == TimeSlots(s)[m];
      }
      InsertByCountKeepsSlotsDistinct(t, x);
      var r := InsertByCount(t, x);
      InsertByCountPermutes(t, x);
      forall k | 0 <= k < |r| ensures r[k].timeSlot != l.timeSlot {
        if r[k] != x {
          assert r[k] in multiset(r);
          assert r[k] in multiset(t);
          var m :| 0 <= m < |t| && t[m] == r[k];
          assert TimeSlots(t)[m] == r[k].timeSlot;
        } else {
          assert TimeSlots(s)[|s| - 1] == l.timeSlot;
        }
      }
      var out := r + [l];
      forall i, j | 0 <= i < j < |out| ensures TimeSlots(out)[i] != TimeSlots(out)[j] {
        if j == |r| {
          assert TimeSlots(out)[i] == r[i].timeSlot;
        } else {
          assert TimeSlots(out)[i] == TimeSlots(r)[i] && TimeSlots(out)[j] == TimeSlots(r)[j];
        }
      }
    }
  }

  lemma {:induction false} SortByCountPermutes(s: seq<OptimalTimeSlot>)
    ensures multiset(SortByCount(s)) == multiset(s)
    decreases |s|
  {
    if s != [] {
      SortByCountPermutes(Init(s));
      InsertByCountPermutes(SortByCount(Init(s)), Last(s));
      assert s == Init(s) + [Last(s)];
    }
  }

  lemma {:induction false} SortByCountOrders(s: seq<OptimalTimeSlot>)
    ensures NonIncreasing(SortByCount(s))
    decreases |s|
  {
    if s != [] {
      SortByCountOrders(Init(s));
      InsertByCountOrders(SortByCount(Init(s)), Last(s));
    }
  }

  lemma {:induction false} SortByCountIsStable(s: seq<OptimalTimeSlot>, c: nat)
    ensures WithCount(SortByCount(s), c) == WithCount(s, c)
    decreases |s|
  {
    if s != [] {
      SortByCountIsStable(Init(s), c);
      InsertByCountIsStable(SortByCount(Init(s)), Last(s), c);
    }
  }

  lemma {:induction false} SortByCountKeepsSlotsDistinct(s: seq<OptimalTimeSlot>)
    requires Distinct(TimeSlots(s))
    ensures Distinct(TimeSlots(SortByCount(s)))
    decreases |s|
  {
    if s != [] {
      var t := Init(s);
      DistinctSlotsOfPrefix(s);
      SortByCountKeepsSlotsDistinct(t);
      SortByCountPermutes(t);
      var st := SortByCount(t);
      forall m | 0 <= m < |st| ensures TimeSlots(st)[m] != Last(s).timeSlot {
        var p := PermutationMember(st, t, m);
        assert TimeSlots(t)[p] == st[m].timeSlot;
      }
      InsertByCountKeepsSlotsDistinct(st, Last(s));
    }
  }

  /**
   * The sort orders by count, descending; it permutes the records; it is stable, since the
   * records of any one count keep their relative order; and it keeps time slots distinct.
   */
  lemma SortByCountIsStableDescending(s: seq<OptimalTimeSlot>)
    ensures NonIncreasing(SortByCount(s))
    ensures multiset(SortByCount(s)) == multiset(s)
    ensures forall c: nat :: WithCount(SortByCount(s), c) == WithCount(s, c)
    ensures Distinct(TimeSlots(s)) ==> Distinct(TimeSlots(SortByCount(s)))
  {
    SortByCountOrders(s);
    SortByCountPermutes(s);
    forall c: nat ensures WithCount(SortByCount(s), c) == WithCount(s, c) {
      SortByCountIsStable(s, c);
    }
    if Distinct(TimeSlots(s)) {
      SortByCountKeepsSlotsDistinct(s);
    }
  }

  lemma {:induction false} SumCountsPermutation(s: seq<OptimalTimeSlot>, x: OptimalTimeSlot)
    ensures SumCounts(InsertByCount(s, x)) == SumCounts(s) + x.participantCount
    decreases |s|
  {
    if s != [] && Last(s).participantCount < x.participantCount {
      SumCountsPermutation(Init(s), x);
      var r := InsertByCount(Init(s), x);
      assert Init(r + [Last(s)]) == r;
    } else {
      assert Init(s + [x]) == s;
    }
  }

  lemma {:induction false} SortByCountKeepsSum(s: seq<OptimalTimeSlot>)
    ensures SumCounts(SortByCount(s)) == SumCounts(s)
    decreases |s|
  {
    if s != [] {
      SortByCountKeepsSum(Init(s));
      SumCountsPermutation(SortByCount(Init(s)), Last(s));
    }
  }

  // ---------------------------------------------------------------------------------------
  // The dictionary
  // ---------------------------------------------------------------------------------------

  lemma {:induction false} ValuesForTagged(es: seq<(string, string)>, keys: seq<string>, name: string, k: string)
    ensures ValuesFor(es + Tag(keys, name), k) == ValuesFor(es, k) + Repeat(name, Count(keys, k))
    decreases |keys|
  {
    if keys == [] {
      assert es + Tag(keys, name) == es;
    } else {
      var es' := es + [(keys[0], name)];
      assert es + Tag(keys, name) == es' + Tag(keys[1..], name);
      assert Init(es') == es;
      ValuesForTagged(es', keys[1..], name, k);
      var a := if keys[0] == k then 1 else 0;
      assert Repeat(name, a) + Repeat(name, Count(keys[1..], k)) == Repeat(name, Count(keys, k));
    }
  }

  /**
   * The names under a key are the responses' names in response order, one copy per time the
   * response lists the key: no deduplication.
   */
  lemma {:induction false} ValuesForIsPerResponse(roomType: int, rs: seq<ResponseEntry>, k: string)
    ensures ValuesFor(Entries(roomType, rs), k) == NamesByResponse(roomType, rs, k)
    decreases |rs|
  {
    if rs != [] {
      ValuesForIsPerResponse(roomType, Init(rs), k);
      ValuesForTagged(Entries(roomType, Init(rs)), SlotKeys(roomType, Last(rs)), NameOf(Last(rs)), k);
    }
  }

  lemma {:induction false} SumOfNames(es: seq<(string, string)>, ko: seq<string>, e: (string, string))
    requires Distinct(ko)
    ensures SumNames(es + [e], ko) == SumNames(es, ko) + (if e.0 in ko then 1 else 0)
    decreases |ko|
  {
    assert Init(es + [e]) == es;
    if ko != [] {
      SumOfNames(es, Init(ko), e);
      assert ko == Init(ko) + [Last(ko)];
    }
  }

  function SumNames(es: seq<(string, string)>, ko: seq<string>): nat {
    if ko == [] then 0 else SumNames(es, Init(ko)) + |ValuesFor(es, Last(ko))|
  }

  lemma {:induction false} SumNamesIsEntryCount(es: seq<(string, string)>)
    ensures SumNames(es, KeyOrder(es)) == |es|
    decreases |es|
  {
    if es != [] {
      var t, e := Init(es), Last(es);
      assert es == t + [e];
      SumNamesIsEntryCount(t);
      KeyOrderCoversKeys(t);
      SumOfNames(t, KeyOrder(t), e);
      if e.0 !in KeyOrder(t) {
        ValuesForEmptyIffAbsent(t, e.0);
        var ko := KeyOrder(t) + [e.0];
        assert Init(ko) == KeyOrder(t);
      }
    }
  }

  lemma {:induction false} SumCountsOfSlots(es: seq<(string, string)>, ko: seq<string>, total: nat)
    ensures SumCounts(SlotsFor(es, ko, total)) == SumNames(es, ko)
    decreases |ko|
  {
    if ko != [] {
      SumCountsOfSlots(es, Init(ko), total);
      var r := SlotsFor(es, ko, total);
      assert Init(r) == SlotsFor(es, Init(ko), total);
    }
  }

  lemma {:induction false} EntriesCount(roomType: int, rs: seq<ResponseEntry>)
    ensures |Entries(roomType, rs)| == TotalSelected(roomType, rs)
    decreases |rs|
  {
    if rs != [] {
      EntriesCount(roomType, Init(rs));
    }
  }

  lemma UnsortedCountsMatchNames(roomType: int, rs: seq<ResponseEntry>)
    ensures forall x :: x in Unsorted(roomType, rs) ==>
              x.participantCount == |x.availableParticipants| && x.availabilityRate == Rate(x.participantCount, |rs|)
  {
  }

  // ---------------------------------------------------------------------------------------
  // Properties of the result
  // ---------------------------------------------------------------------------------------

  /** No responses, no slots. */
  lemma NoResponsesNoSlots(roomType: int)
    ensures OptimalTimes(roomType, []) == []
  {
  }

  /** Every room type other than 1 and 2 is tallied exactly like type 3, by `available_dates`. */
  lemma {:induction false} OtherRoomTypesTallyDates(roomType: int, rs: seq<ResponseEntry>)
    requires roomType != HOURLY && roomType != BLOCK
    ensures OptimalTimes(roomType, rs) == OptimalTimes(DAILY, rs)
  {
    EntriesOfOtherRoomTypes(roomType, rs);
  }

  lemma {:induction false} EntriesOfOtherRoomTypes(roomType: int, rs: seq<ResponseEntry>)
    requires roomType != HOURLY && roomType != BLOCK
    ensures Entries(roomType, rs) == Entries(DAILY, rs)
    decreases |rs|
  {
    if rs != [] {
      EntriesOfOtherRoomTypes(roomType, Init(rs));
    }
  }

  /**
   * Each record: its count is the length of its name list; its rate is count over the number
   * of responses; its names are one per selection, in response order.
   */
  lemma ResultRecordsAreConsistent(roomType: int, rs: seq<ResponseEntry>, i: nat)
    requires i < |OptimalTimes(roomType, rs)|
    ensures var x := OptimalTimes(roomType, rs)[i];
            && x.participantCount == |x.availableParticipants|
            && x.availabilityRate == Rate(x.participantCount, |rs|)
            && x.availableParticipants == NamesByResponse(roomType, rs, x.timeSlot)
  {
    var u := Unsorted(roomType, rs);
    SortByCountIsStableDescending(u);
    var x := OptimalTimes(roomType, rs)[i];
    assert x in multiset(u);
    var p :| 0 <= p < |u| && u[p] == x;
    ValuesForIsPerResponse(roomType, rs, x.timeSlot);
  }

  /**
   * The time slots are distinct, and a string is among them exactly when some response
   * selects it.
   */
  lemma ResultSlotsAreTheSelectedKeys(roomType: int, rs: seq<ResponseEntry>)
    ensures Distinct(TimeSlots(OptimalTimes(roomType, rs)))
    ensures forall k :: k in TimeSlots(OptimalTimes(roomType, rs)) <==> Selected(roomType, rs, k)
  {
    var es := Entries(roomType, rs);
    var u := Unsorted(roomType, rs);
    KeyOrderCoversKeys(es);
    assert TimeSlots(u) == KeyOrder(es);
    EntriesHoldSelectedKeys(roomType, rs);
    SortByCountIsStableDescending(u);
    if rs != [] {
      PermutationKeepsSlots(OptimalTimes(roomType, rs), u);
    }
  }

  lemma PermutationKeepsSlots(r: seq<OptimalTimeSlot>, u: seq<OptimalTimeSlot>)
    requires multiset(r) == multiset(u)
    ensures forall k :: k in TimeSlots(r) <==> k in TimeSlots(u)
  {
    forall k ensures k in TimeSlots(r) <==> k in TimeSlots(u) {
      if k in TimeSlots(r) {
        var m :| 0 <= m < |r| && TimeSlots(r)[m] == k;
        var p := PermutationMember(r, u, m);
        assert TimeSlots(u)[p] == k;
      }
      if k in TimeSlots(u) {
        var p :| 0 <= p < |u| && TimeSlots(u)[p] == k;
        var m := PermutationMember(u, r, p);
        assert TimeSlots(r)[m] == k;
      }
    }
  }

  /** Some response lists `k` among its slot keys. */
  predicate Selected(roomType: int, rs: seq<ResponseEntry>, k: string) {
    exists j :: 0 <= j < |rs| && k in SlotKeys(roomType, rs[j])
  }

  lemma {:induction false} EntriesHoldSelectedKeys(roomType: int, rs: seq<ResponseEntry>)
    ensures forall k :: k in KeysOf(Entries(roomType, rs)) <==> Selected(roomType, rs, k)
    decreases |rs|
  {
    if rs != [] {
      var t, r := Init(rs), Last(rs);
      EntriesHoldSelectedKeys(roomType, t);
      var keys := SlotKeys(roomType, r);
      assert KeysOf(Entries(roomType, rs)) == KeysOf(Entries(roomType, t)) + keys;
      forall k ensures k in KeysOf(Entries(roomType, rs)) <==> Selected(roomType, rs, k) {
        if Selected(roomType, t, k) {
          var j :| 0 <= j < |t| && k in SlotKeys(roomType, t[j]);
          assert rs[j] == t[j];
        }
        if k in keys {
          assert rs[|rs| - 1] == r;
        }
        if Selected(roomType, rs, k) {
          var j :| 0 <= j < |rs| && k in SlotKeys(roomType, rs[j]);
          if j < |t| {
            assert t[j] == rs[j];
          }
        }
      }
    }
  }

  /** The result is ordered by count, most first, and records with equal counts keep first-seen order. */
  lemma ResultIsStablyOrdered(roomType: int, rs: seq<ResponseEntry>)
    ensures NonIncreasing(OptimalTimes(roomType, rs))
    ensures forall c: nat :: WithCount(OptimalTimes(roomType, rs), c) == WithCount(Unsorted(roomType, rs), c)
    ensures TimeSlots(Unsorted(roomType, rs)) == KeyOrder(Entries(roomType, rs))
  {
    SortByCountIsStableDescending(Unsorted(roomType, rs));
  }

  /** The counts add up to the number of selections across all responses. */
  lemma CountsAddUpToSelections(roomType: int, rs: seq<ResponseEntry>)
    ensures SumCounts(OptimalTimes(roomType, rs)) == TotalSelected(roomType, rs)
  {
    var es := Entries(roomType, rs);
    EntriesCount(roomType, rs);
    SumNamesIsEntryCount(es);
    SumCountsOfSlots(es, KeyOrder(es), |rs|);
    SortByCountKeepsSum(Unsorted(roomType, rs));
  }

  /** When no response lists a key twice, no count exceeds the number of responses (rate at most 1). */
  lemma {:induction false} RateAtMostOneWithoutRepeats(roomType: int, rs: seq<ResponseEntry>, k: string)
    requires forall j :: 0 <= j < |rs| ==> Distinct(SlotKeys(roomType, rs[j]))
    ensures |NamesByResponse(roomType, rs, k)| <= |rs|
    decreases |rs|
  {
    if rs != [] {
      assert forall j :: 0 <= j < |Init(rs)| ==> Init(rs)[j] == rs[j];
      RateAtMostOneWithoutRepeats(roomType, Init(rs), k);
      CountOfDistinct(SlotKeys(roomType, Last(rs)), k);
    }
  }

  /** With repeats the count can exceed the number of responses: one response listing "09:00" twice. */
  lemma RepeatedSelectionCountsTwice()
    ensures var rs := [ResponseEntry(Some("Kim"), Some(ResponseData(Some(["09:00", "09:00"]), None, None)))];
            OptimalTimes(HOURLY, rs) == [OptimalTimeSlot("09:00", ["Kim", "Kim"], 2, Rate(2, 1))]
  {
    var rs := [ResponseEntry(Some("Kim"), Some(ResponseData(Some(["09:00", "09:00"]), None, None)))];
    var es := Entries(HOURLY, rs);
    assert Init(rs) == [];
    assert es == [("09:00", "Kim"), ("09:00", "Kim")];
    assert Init(es) == [("09:00", "Kim")];
    assert Init(Init(es)) == [];
    assert KeyOrder(Init(es)) == ["09:00"];
    assert KeyOrder(es) == ["09:00"];
    assert ValuesFor(Init(es), "09:00") == ["Kim"];
    assert ValuesFor(es, "09:00") == ["Kim", "Kim"];
    var u := Unsorted(HOURLY, rs);
    assert u == [OptimalTimeSlot("09:00", ["Kim", "Kim"], 2, Rate(2, 1))];
    assert Init(u) == [];
  }

  /**
   * Block keys of dates with the same length (ISO dates are all ten characters) coincide only
   * when date and time range both coincide, absent values counting as "".
   */
  lemma BlockKeysSeparateChoices(b1: BlockChoice, b2: BlockChoice)
    requires |b1.date.GetOr("")| == |b2.date.GetOr("")|
    requires BlockKey(b1) == BlockKey(b2)
    ensures b1.date.GetOr("") == b2.date.GetOr("") && b1.timeRange.GetOr("") == b2.timeRange.GetOr("")
  {
    var d1, d2 := b1.date.GetOr(""), b2.date.GetOr("");
    var n := |d1|;
    assert BlockKey(b1)[..n] == d1 && BlockKey(b2)[..n] == d2;
    assert BlockKey(b1)[n + 1..] == b1.timeRange.GetOr("");
    assert BlockKey(b2)[n + 1..] == b2.timeRange.GetOr("");
  }

  /** Dates of different lengths can merge: ("a-b", "c") and ("a", "b-c") share the key "a-b-c". */
  lemma BlockKeysCanMergeUnevenDates()
    ensures BlockKey(BlockChoice(Some("a-b"), Some("c"))) == BlockKey(BlockChoice(Some("a"), Some("b-c")))
  {
  }

  /** A response without `participant_name` is tallied under "Unknown". */
  lemma MissingNameIsUnknown(roomType: int, r: ResponseEntry, k: string)
    requires r.participantName == None && k in SlotKeys(roomType, r)
    ensures "Unknown" in NamesByResponse(roomType, [r], k)
  {
    assert Init([r]) == [];
    assert Count(SlotKeys(roomType, r), k) > 0;
  }
}
