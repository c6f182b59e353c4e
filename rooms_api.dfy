/**
 * The `/rooms` handlers over the room table. A room is never removed: deleting it only clears
 * `is_active`, and every handler that looks a room up treats an inactive room as missing.
 * `GetOptimalTimes` gathers each participant's latest response and hands the decoded payloads to
 * the availability tally.
 */
module RoomsApi {
  import opened Common
  import opened Payload
  import opened Tables
  import opened ScheduleOptimizer
  import opened ResponsesApi

  // ---------------------------------------------------------------------------------------
  // Create, list and read
  // ---------------------------------------------------------------------------------------

  /** `create_room`: one new active row built from the request fields, with a fresh key. */
  method CreateRoom(db: Database, title: string, description: Option<string>, roomType: int, creatorName: string,
                    maxParticipants: Option<int>, deadline: Option<int>) returns (room: Room)
    requires db.Valid()
    modifies db
    ensures db.Valid()
    ensures room == Room(old(db.nextId), title, description, roomType, creatorName, maxParticipants, deadline,
                         old(db.clock), true)
    ensures room.id !in RoomIds(old(db.rooms))
    ensures db.rooms == old(db.rooms) + [room]
    ensures db.participants == old(db.participants) && db.responses == old(db.responses)
  {
    room := Room(db.nextId, title, description, roomType, creatorName, maxParticipants, deadline, db.clock, true);
    assert RoomIds(db.rooms + [room]) == RoomIds(db.rooms) + [room.id];
    assert forall i :: 0 <= i < |db.participants| ==> db.participants[i].roomId in RoomIds(db.rooms + [room]);
    db.rooms := db.rooms + [room];
    db.nextId := db.nextId + 1;
    db.clock := db.clock + 1;
  }

  function ActiveRooms(rooms: seq<Room>): (r: seq<Room>)
    ensures forall x :: x in r <==> x in rooms && x.isActive
  {
    Filter(rooms, (x: Room) => x.isActive)
  }

  /** SQLite's reading of `OFFSET n`: a negative offset skips nothing. */
  function Offset(skip: int): (n: nat)
    ensures skip >= 0 ==> n == skip
    ensures skip < 0 ==> n == 0
  {
    if skip < 0 then 0 else skip
  }

  /**
   * `get_rooms`: the active rooms in table order, the first `skip` of them dropped and at most
   * `limit` of the rest kept. Both are plain integers, passed to `OFFSET` and `LIMIT` as they
   * come; SQLite, the default engine, reads a negative offset as 0 and a negative limit as no
   * bound at all.
   */
  function GetRooms(rooms: seq<Room>, skip: int, limit: int): (r: seq<Room>)
    ensures var left := |ActiveRooms(rooms)| - Offset(skip);
            |r| == (if left <= 0 then 0 else if limit < 0 || left < limit then left else limit)
    ensures forall i :: 0 <= i < |r| ==>
              Offset(skip) + i < |ActiveRooms(rooms)| && r[i] == ActiveRooms(rooms)[Offset(skip) + i]
    ensures forall x :: x in r ==> x in rooms && x.isActive
  {
    var active := ActiveRooms(rooms);
    var from := Offset(skip);
    if |active| <= from then []
    else
      var rest := active[from..];
      if limit < 0 || |rest| <= limit then rest else rest[..limit]
  }

  /** A negative `skip` lists the same rooms as `skip=0`. */
  lemma NegativeSkipIsNoSkip(rooms: seq<Room>, skip: int, limit: int)
    requires skip < 0
    ensures GetRooms(rooms, skip, limit) == GetRooms(rooms, 0, limit)
  {
    var r, z := GetRooms(rooms, skip, limit), GetRooms(rooms, 0, limit);
    assert |r| == |z|;
    forall i | 0 <= i < |r| ensures r[i] == z[i] {
    }
  }

  /**
   * A negative `limit` (SQLAlchemy's SQLite dialect writes `LIMIT -1` for "unlimited") keeps every
   * active room from the offset on: no limit cuts more.
   */
  lemma NegativeLimitIsNoBound(rooms: seq<Room>, skip: int, limit: int, more: int)
    requires limit < 0 && more >= |rooms|
    ensures GetRooms(rooms, skip, limit) == GetRooms(rooms, skip, more)
    ensures Offset(skip) < |ActiveRooms(rooms)| ==> GetRooms(rooms, skip, limit) == ActiveRooms(rooms)[Offset(skip)..]
  {
    var r, m := GetRooms(rooms, skip, limit), GetRooms(rooms, skip, more);
    assert |ActiveRooms(rooms)| <= |rooms|;
    assert |r| == |m|;
    forall i | 0 <= i < |r| ensures r[i] == m[i] {
    }
  }

  /** `get_room`: an active room together with its participants, or 404. */
  function GetRoom(rooms: seq<Room>, ps: seq<Participant>, id: Id): (r: Result<(Room, seq<Participant>)>)
    ensures r.NotFound? <==> forall i :: 0 <= i < |rooms| ==> !(rooms[i].id == id && rooms[i].isActive)
    ensures r.Ok? ==> r.value.0 in rooms && r.value.0.id == id && r.value.0.isActive
    ensures r.Ok? ==> forall p :: p in r.value.1 <==> p in ps && p.roomId == id
  {
    match ActiveRoomIndex(rooms, id)
    case None => NotFound
    case Some(k) => Ok((rooms[k], Filter(ps, (p: Participant) => p.roomId == id)))
  }

  // ---------------------------------------------------------------------------------------
  // Partial update
  // ---------------------------------------------------------------------------------------

  /** The columns a `RoomUpdate` may carry. */
  datatype FieldName = Title | Description | MaxParticipants | Deadline

  /** One entry of `room_update.dict(exclude_unset=True)`: a column and the value sent for it. */
  datatype RoomField =
    | SetTitle(title: string)
    | SetDescription(description: Option<string>)
    | SetMaxParticipants(maxParticipants: Option<int>)
    | SetDeadline(deadline: Option<int>)

  function FieldOf(f: RoomField): FieldName {
    match f
    case SetTitle(_) => Title
    case SetDescription(_) => Description
    case SetMaxParticipants(_) => MaxParticipants
    case SetDeadline(_) => Deadline
  }

  /** A room's current value of one updatable column. */
  function Read(room: Room, n: FieldName): (f: RoomField)
    ensures FieldOf(f) == n
  {
    match n
    case Title => SetTitle(room.title)
    case Description => SetDescription(room.description)
    case MaxParticipants => SetMaxParticipants(room.maxParticipants)
    case Deadline => SetDeadline(room.deadline)
  }

  /** `setattr(room, field, value)`: the named column takes the value and no other column moves. */
  function Apply(room: Room, f: RoomField): (r: Room)
    ensures Read(r, FieldOf(f)) == f
    ensures forall n :: n != FieldOf(f) ==> Read(r, n) == Read(room, n)
    ensures r.id == room.id && r.roomType == room.roomType && r.creatorName == room.creatorName
    ensures r.createdAt == room.createdAt && r.isActive == room.isActive
  {
    match f
    case SetTitle(t) => room.(title := t)
    case SetDescription(d) => room.(description := d)
    case SetMaxParticipants(m) => room.(maxParticipants := m)
    case SetDeadline(d) => room.(deadline := d)
  }

  /** The room after the `setattr` loop over `fields`, in order. */
  function ApplyAll(room: Room, fields: seq<RoomField>): (r: Room)
    ensures r.id == room.id && r.roomType == room.roomType && r.creatorName == room.creatorName
    ensures r.createdAt == room.createdAt && r.isActive == room.isActive
  {
    if fields == [] then room else Apply(ApplyAll(room, Init(fields)), Last(fields))
  }

  /** A dictionary names each column at most once. */
  predicate OneOfEach(fields: seq<RoomField>) {
    forall i, j :: 0 <= i < j < |fields| ==> FieldOf(fields[i]) != FieldOf(fields[j])
  }

  /**
   * After the loop every column that was sent holds the value sent for it, every column that
   * was not sent keeps its value, and the key, type, creator, creation time and active flag
   * never change.
   */
  lemma {:induction false} UpdateSetsExactlyTheSentFields(room: Room, fields: seq<RoomField>)
    requires OneOfEach(fields)
    ensures forall i :: 0 <= i < |fields| ==> Read(ApplyAll(room, fields), FieldOf(fields[i])) == fields[i]
    ensures forall n :: (forall i :: 0 <= i < |fields| ==> FieldOf(fields[i]) != n) ==>
              Read(ApplyAll(room, fields), n) == Read(room, n)
  {
    if fields != [] {
      var init := Init(fields);
      assert OneOfEach(init) by {
        forall i, j | 0 <= i < j < |init| ensures FieldOf(init[i]) != FieldOf(init[j]) {
          assert init[i] == fields[i] && init[j] == fields[j];
        }
      }
      UpdateSetsExactlyTheSentFields(room, init);
      forall i | 0 <= i < |fields| - 1 ensures FieldOf(fields[i]) != FieldOf(Last(fields)) && init[i] == fields[i] {
      }
    }
  }

  /**
   * `update_room`: 404 unless the room is active; otherwise the `setattr` loop runs over the
   * sent fields and only that row changes.
   */
  method UpdateRoom(db: Database, id: Id, update: seq<RoomField>) returns (r: Result<Room>)
    requires db.Valid()
    modifies db
    ensures db.Valid()
    ensures ActiveRoomIndex(old(db.rooms), id).None? ==> r == NotFound && unchanged(db)
    ensures ActiveRoomIndex(old(db.rooms), id).Some? ==>
              var k := ActiveRoomIndex(old(db.rooms), id).value;
              && r == Ok(ApplyAll(old(db.rooms)[k], update))
              && db.rooms == old(db.rooms)[k := r.value]
              && db.participants == old(db.participants) && db.responses == old(db.responses)
              && db.nextId == old(db.nextId) && db.clock == old(db.clock)
  {
    var found := ActiveRoomIndex(db.rooms, id);
    if found.None? {
      return NotFound;
    }
    var k := found.value;
    var room := db.rooms[k];
    var i := 0;
    while i < |update|
      invariant 0 <= i <= |update|
      invariant room == ApplyAll(db.rooms[k], update[..i])
    {
      assert Init(update[..i + 1]) == update[..i];
      room := Apply(room, update[i]);
      i := i + 1;
    }
    assert update[..|update|] == update;
    assert RoomIds(db.rooms[k := room]) == RoomIds(db.rooms);
    db.rooms := db.rooms[k := room];
    r := Ok(room);
  }

  // ---------------------------------------------------------------------------------------
  // Soft delete
  // ---------------------------------------------------------------------------------------

  /** The table after `room.is_active = False` on row `k`. */
  function SoftDeleted(rooms: seq<Room>, k: nat): (r: seq<Room>)
    requires k < |rooms|
    ensures |r| == |rooms| && !r[k].isActive && r[k].(isActive := true) == rooms[k].(isActive := true)
    ensures forall i :: 0 <= i < |rooms| && i != k ==> r[i] == rooms[i]
  {
    rooms[k := rooms[k].(isActive := false)]
  }

  /** Once its row is soft-deleted, a room with a unique key is reported missing. */
  lemma SoftDeletedRoomIsNotFound(rooms: seq<Room>, ps: seq<Participant>, next: Id, k: nat)
    requires k < |rooms| && IdsFresh(RoomIds(rooms), next)
    ensures GetRoom(SoftDeleted(rooms, k), ps, rooms[k].id) == NotFound
    ensures ActiveRoomIndex(SoftDeleted(rooms, k), rooms[k].id) == None
  {
    var after := SoftDeleted(rooms, k);
    forall i | 0 <= i < |after| && i != k ensures after[i].id != rooms[k].id {
      assert RoomIds(rooms)[i] != RoomIds(rooms)[k];
    }
  }

  /** `delete_room`: 404 unless the room is active; otherwise it only becomes inactive. */
  method DeleteRoom(db: Database, id: Id) returns (r: Result<()>)
    requires db.Valid()
    modifies db
    ensures db.Valid()
    ensures ActiveRoomIndex(old(db.rooms), id).None? ==> r == NotFound && unchanged(db)
    ensures ActiveRoomIndex(old(db.rooms), id).Some? ==>
              && r == Ok(())
              && db.rooms == SoftDeleted(old(db.rooms), ActiveRoomIndex(old(db.rooms), id).value)
              && ActiveRoomIndex(db.rooms, id).None?
              && db.participants == old(db.participants) && db.responses == old(db.responses)
              && db.nextId == old(db.nextId) && db.clock == old(db.clock)
  {
    var found := ActiveRoomIndex(db.rooms, id);
    if found.None? {
      return NotFound;
    }
    var k := found.value;
    SoftDeletedRoomIsNotFound(db.rooms, db.participants, db.nextId, k);
    assert RoomIds(SoftDeleted(db.rooms, k)) == RoomIds(db.rooms);
    db.rooms := SoftDeleted(db.rooms, k);
    r := Ok(());
  }

  // ---------------------------------------------------------------------------------------
  // Optimal times
  // ---------------------------------------------------------------------------------------

  /** A participant is tallied when it has a latest response whose payload decodes. */
  predicate Contributes(p: Participant, rs: seq<Response>, decode: string -> Option<ResponseData>) {
    Latest(rs, p.id).Some? && decode(Latest(rs, p.id).value.responseData).Some?
  }

  /** `{'participant_name': participant.name, 'response_data': json.loads(...)}`. */
  function EntryFor(p: Participant, rs: seq<Response>, decode: string -> Option<ResponseData>): ResponseEntry
    requires Contributes(p, rs, decode)
  {
    ResponseEntry(Some(p.name), decode(Latest(rs, p.id).value.responseData))
  }

  /** `responses_data` after the loop over `ps`. */
  function OptimizerInput(ps: seq<Participant>, rs: seq<Response>, decode: string -> Option<ResponseData>)
    : seq<ResponseEntry>
  {
    if ps == [] then []
    else OptimizerInput(Init(ps), rs, decode)
         + (if Contributes(Last(ps), rs, decode) then [EntryFor(Last(ps), rs, decode)] else [])
  }

  /** Positions, in `ps`, of the participants that are tallied. */
  function Contributors(ps: seq<Participant>, rs: seq<Response>, decode: string -> Option<ResponseData>): seq<nat> {
    Positions(ps, (p: Participant) => Contributes(p, rs, decode))
  }

  /**
   * The tally's input has one entry per tallied participant and none for the others, in
   * participant order, each named after its participant and carrying its latest decoded payload.
   */
  lemma {:induction false} InputFollowsParticipants(ps: seq<Participant>, rs: seq<Response>,
                                                    decode: string -> Option<ResponseData>)
    ensures var c := Contributors(ps, rs, decode);
            && |OptimizerInput(ps, rs, decode)| == |c| <= |ps|
            && (forall a, b :: 0 <= a < b < |c| ==> c[a] < c[b])
            && (forall i :: 0 <= i < |ps| && Contributes(ps[i], rs, decode) ==> i in c)
            && forall j :: 0 <= j < |c| ==>
                 (c[j] < |ps| && Contributes(ps[c[j]], rs, decode)
                  && OptimizerInput(ps, rs, decode)[j] == EntryFor(ps[c[j]], rs, decode))
  {
    PositionsAreExactlyTheMatches(ps, (p: Participant) => Contributes(p, rs, decode));
    if ps != [] {
      var t := Init(ps);
      InputFollowsParticipants(t, rs, decode);
      PositionsAreExactlyTheMatches(t, (p: Participant) => Contributes(p, rs, decode));
      var c0 := Contributors(t, rs, decode);
      var c := Contributors(ps, rs, decode);
      var input := OptimizerInput(ps, rs, decode);
      forall j | 0 <= j < |c0| ensures input[j] == EntryFor(ps[c[j]], rs, decode) {
        assert c[j] == c0[j] && input[j] == OptimizerInput(t, rs, decode)[j] && t[c0[j]] == ps[c0[j]];
      }
    }
  }

  /** The participants of room `roomId`, in table order. */
  function RoomParticipants(ps: seq<Participant>, roomId: Id): (r: seq<Participant>)
    ensures forall p :: p in r <==> p in ps && p.roomId == roomId
  {
    Filter(ps, (p: Participant) => p.roomId == roomId)
  }

  /**
   * `get_optimal_times`: 404 unless the room is active; otherwise the tally, for the room's type,
   * of the latest decodable response of each of the room's participants.
   */
  method GetOptimalTimes(db: Database, roomId: Id, decode: string -> Option<ResponseData>)
    returns (r: Result<seq<OptimalTimeSlot>>)
    ensures ActiveRoomIndex(db.rooms, roomId).None? ==> r == NotFound
    ensures ActiveRoomIndex(db.rooms, roomId).Some? ==>
              r == Ok(OptimalTimes(db.rooms[ActiveRoomIndex(db.rooms, roomId).value].roomType,
                                   OptimizerInput(RoomParticipants(db.participants, roomId), db.responses, decode)))
  {
    var found := ActiveRoomIndex(db.rooms, roomId);
    if found.None? {
      return NotFound;
    }
    var room := db.rooms[found.value];
    var participants := RoomParticipants(db.participants, roomId);
    var responsesData: seq<ResponseEntry> := [];
    var i := 0;
    while i < |participants|
      invariant 0 <= i <= |participants|
      invariant responsesData == OptimizerInput(participants[..i], db.responses, decode)
    {
      assert Init(participants[..i + 1]) == participants[..i];
      var latest := Latest(db.responses, participants[i].id);
      if latest.Some? {
        var data := decode(latest.value.responseData);
        if data.Some? {
          responsesData := responsesData + [ResponseEntry(Some(participants[i].name), data)];
        }
      }
      i := i + 1;
    }
    assert participants[..|participants|] == participants;
    var optimal := FindOptimalTimes(room.roomType, responsesData);
    r := Ok(optimal);
  }

  // ---------------------------------------------------------------------------------------
  // Only the latest row counts: `version` is never read
  // ---------------------------------------------------------------------------------------

  /** Two tables that differ at most in the `version` column. */
  predicate SameButVersions(a: seq<Response>, b: seq<Response>) {
    |a| == |b| && forall i :: 0 <= i < |a| ==> a[i].(version := b[i].version) == b[i]
  }

  lemma {:induction false} NewestFirstSameButVersions(a: seq<Response>, b: seq<Response>, pid: Id)
    requires SameButVersions(a, b)
    ensures SameButVersions(NewestFirst(a, pid), NewestFirst(b, pid))
  {
    if a != [] {
      assert SameButVersions(a[1..], b[1..]) by {
        forall i | 0 <= i < |a| - 1
          ensures a[1..][i].(version := b[1..][i].version) == b[1..][i]
        {
          assert a[1..][i] == a[i + 1] && b[1..][i] == b[i + 1];
        }
      }
      NewestFirstSameButVersions(a[1..], b[1..], pid);
      assert a[0].participantId == b[0].participantId;
    }
  }

  /**
   * The tally's input, and so the optimal times, depend only on which row of each participant is
   * newest and on its payload: the version numbers `create_response` hands out change nothing.
   */
  lemma {:induction false} InputIgnoresVersions(ps: seq<Participant>, a: seq<Response>, b: seq<Response>,
                                                decode: string -> Option<ResponseData>)
    requires SameButVersions(a, b)
    ensures OptimizerInput(ps, a, decode) == OptimizerInput(ps, b, decode)
  {
    if ps != [] {
      InputIgnoresVersions(Init(ps), a, b, decode);
      NewestFirstSameButVersions(a, b, Last(ps).id);
    }
  }
}
