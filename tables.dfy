/**
 * The three database tables (`rooms`, `participants`, `responses`) held in memory.
 *
 * A row is a value; a table is a sequence of rows in insertion order, which is the order a
 * query without `ORDER BY` returns them in this model. `nextId` stands in for `uuid4()` (every
 * new row takes it and it is then advanced) and `clock` for `datetime.utcnow()` (it moves forward
 * once per insert). The handlers in `RoomsApi`, `ParticipantsApi` and `ResponsesApi` receive the
 * `Database` the way FastAPI hands them a `Session`.
 */
module Tables {
  import opened Common

  /** A primary key: `str(uuid.uuid4())` in the source, a number drawn from `nextId` here. */
  type Id = nat

  /** A `rooms` row. `deadline` and the timestamps are abstract instants. */
  datatype Room = Room(
    id: Id,
    title: string,
    description: Option<string>,
    roomType: int,
    creatorName: string,
    maxParticipants: Option<int>,
    deadline: Option<int>,
    createdAt: nat,
    isActive: bool)

  /** A `participants` row. */
  datatype Participant = Participant(id: Id, roomId: Id, name: string, createdAt: nat)

  /**
   * A `responses` row; `responseData` is the JSON text of the payload, as `set_response_data`
   * would store it (the handlers as written never do; see `ResponsesApi.CreateResponseAsWritten`).
   * The table has no `is_active` column (see `ResponsesApi.ActivateResponse`).
   */
  datatype Response = Response(
    id: Id,
    participantId: Id,
    responseData: string,
    version: int,
    createdAt: nat)

  function RoomIds(rooms: seq<Room>): (r: seq<Id>)
    ensures |r| == |rooms| && forall i :: 0 <= i < |rooms| ==> r[i] == rooms[i].id
  {
    seq(|rooms|, i requires 0 <= i < |rooms| => rooms[i].id)
  }

  function ParticipantIds(ps: seq<Participant>): (r: seq<Id>)
    ensures |r| == |ps| && forall i :: 0 <= i < |ps| ==> r[i] == ps[i].id
  {
    seq(|ps|, i requires 0 <= i < |ps| => ps[i].id)
  }

  function ResponseIds(rs: seq<Response>): (r: seq<Id>)
    ensures |r| == |rs| && forall i :: 0 <= i < |rs| ==> r[i] == rs[i].id
  {
    seq(|rs|, i requires 0 <= i < |rs| => rs[i].id)
  }

  /** Keys were handed out in increasing order and all lie below `next`, so none repeats. */
  predicate IdsFresh(ids: seq<Id>, next: Id) {
    (forall i, j :: 0 <= i < j < |ids| ==> ids[i] < ids[j]) && forall i :: 0 <= i < |ids| ==> ids[i] < next
  }

  /** Later rows of the response table were created later. */
  predicate CreatedInOrder(rs: seq<Response>) {
    forall i, j :: 0 <= i < j < |rs| ==> rs[i].createdAt < rs[j].createdAt
  }

  /** Responses were inserted in `created_at` order and all before `clock`. */
  predicate Chronological(rs: seq<Response>, clock: nat) {
    CreatedInOrder(rs) && forall i :: 0 <= i < |rs| ==> rs[i].createdAt < clock
  }

  /** Every participant's room exists: the foreign key `participants.room_id`. */
  predicate RoomsReferenced(rooms: seq<Room>, ps: seq<Participant>) {
    forall i :: 0 <= i < |ps| ==> ps[i].roomId in RoomIds(rooms)
  }

  /** Every response's participant exists: the foreign key `responses.participant_id`. */
  predicate ParticipantsReferenced(ps: seq<Participant>, rs: seq<Response>) {
    forall i :: 0 <= i < |rs| ==> rs[i].participantId in ParticipantIds(ps)
  }

  /** Versions start at 1 and only grow. */
  predicate VersionsPositive(rs: seq<Response>) {
    forall i :: 0 <= i < |rs| ==> rs[i].version >= 1
  }

  /** A removed row takes no other key with it. */
  lemma RemoveKeepsFresh(ids: seq<Id>, next: Id, k: nat)
    requires IdsFresh(ids, next) && k < |ids|
    ensures IdsFresh(RemoveAt(ids, k), next)
    ensures forall x :: x in RemoveAt(ids, k) <==> x in ids && x != ids[k]
  {
    var r := RemoveAt(ids, k);
    forall x | x in ids && x != ids[k] ensures x in r {
      var m :| 0 <= m < |ids| && ids[m] == x;
      if m < k { assert r[m] == x; } else { assert r[m - 1] == x; }
    }
  }

  /**
   * The query `filter(Response.participant_id == pid).order_by(Response.created_at.desc()).all()`:
   * the participant's rows, last inserted first.
   */
  function NewestFirst(rs: seq<Response>, pid: Id): (r: seq<Response>)
    ensures forall x :: x in r <==> x in rs && x.participantId == pid
    ensures |r| <= |rs|
  {
    if rs == [] then []
    else NewestFirst(rs[1..], pid) + (if rs[0].participantId == pid then [rs[0]] else [])
  }

  /** In a table kept in creation order, the query's rows are in strictly descending `created_at`. */
  lemma {:induction false} NewestFirstIsDescending(rs: seq<Response>, pid: Id)
    requires CreatedInOrder(rs)
    ensures forall a, b :: 0 <= a < b < |NewestFirst(rs, pid)| ==>
              NewestFirst(rs, pid)[a].createdAt > NewestFirst(rs, pid)[b].createdAt
  {
    if rs != [] {
      var tail := NewestFirst(rs[1..], pid);
      NewestFirstIsDescending(rs[1..], pid);
      var r := NewestFirst(rs, pid);
      forall a, b | 0 <= a < b < |r| ensures r[a].createdAt > r[b].createdAt {
        if b < |tail| {
          assert r[a] == tail[a] && r[b] == tail[b];
        } else {
          assert r[a] == tail[a] && r[b] == rs[0];
          var m :| 0 <= m < |rs[1..]| && rs[1..][m] == tail[a];
          assert rs[m + 1] == tail[a];
        }
      }
    }
  }

  /** The query above with `.first()`: the participant's latest response, if any. */
  function Latest(rs: seq<Response>, pid: Id): Option<Response> {
    var newest := NewestFirst(rs, pid);
    if newest == [] then None else Some(newest[0])
  }

  /**
   * The latest response exists exactly when the participant has a response; it is one of that
   * participant's rows, and no row of that participant was created after it.
   */
  lemma LatestIsNewest(rs: seq<Response>, pid: Id)
    requires CreatedInOrder(rs)
    ensures Latest(rs, pid).None? <==> forall i :: 0 <= i < |rs| ==> rs[i].participantId != pid
    ensures Latest(rs, pid).Some? ==>
              var x := Latest(rs, pid).value;
              x in rs && x.participantId == pid
              && forall i :: 0 <= i < |rs| && rs[i].participantId == pid ==> rs[i].createdAt <= x.createdAt
  {
    var newest := NewestFirst(rs, pid);
    NewestFirstIsDescending(rs, pid);
    if newest == [] {
      forall i | 0 <= i < |rs| ensures rs[i].participantId != pid {
        assert rs[i] in rs;
      }
    } else {
      assert newest[0] in newest;
      forall i | 0 <= i < |rs| && rs[i].participantId == pid ensures rs[i].createdAt <= newest[0].createdAt {
        assert rs[i] in newest;
        var m :| 0 <= m < |newest| && newest[m] == rs[i];
      }
    }
  }

  /** The query `filter(Room.id == id, Room.is_active == True).first()`, as a row index. */
  function ActiveRoomIndex(rooms: seq<Room>, id: Id): (k: Option<nat>)
    ensures k.None? <==> forall i :: 0 <= i < |rooms| ==> !(rooms[i].id == id && rooms[i].isActive)
    ensures k.Some? ==> k.value < |rooms| && rooms[k.value].id == id && rooms[k.value].isActive
  {
    FindFirst(rooms, (r: Room) => r.id == id && r.isActive)
  }

  /** Keeping only some rows of a table keeps any order that was increasing along the table. */
  lemma {:induction false} FilterKeepsIncreasing<T(!new)>(s: seq<T>, p: T -> bool, key: T -> int)
    requires forall i, j :: 0 <= i < j < |s| ==> key(s[i]) < key(s[j])
    ensures forall i, j :: 0 <= i < j < |Filter(s, p)| ==> key(Filter(s, p)[i]) < key(Filter(s, p)[j])
  {
    if s != [] {
      FilterKeepsIncreasing(s[1..], p, key);
      var tail := Filter(s[1..], p);
      var r := Filter(s, p);
      if p(s[0]) {
        forall i, j | 0 <= i < j < |r| ensures key(r[i]) < key(r[j]) {
          assert r[j] == tail[j - 1];
          if i == 0 {
            assert tail[j - 1] in s[1..];
            var m :| 0 <= m < |s[1..]| && s[1..][m] == tail[j - 1];
            assert s[m + 1] == tail[j - 1];
          } else {
            assert r[i] == tail[i - 1];
          }
        }
      } else {
        assert r == tail;
      }
    }
  }

  class Database {
    var rooms: seq<Room>
    var participants: seq<Participant>
    var responses: seq<Response>
    var nextId: Id
    var clock: nat

    ghost predicate Valid()
      reads this
    {
      && IdsFresh(RoomIds(rooms), nextId)
      && IdsFresh(ParticipantIds(participants), nextId)
      && IdsFresh(ResponseIds(responses), nextId)
      && RoomsReferenced(rooms, participants)
      && ParticipantsReferenced(participants, responses)
      && VersionsPositive(responses)
      && Chronological(responses, clock)
    }

    /** An empty database. */
    constructor ()
      ensures Valid()
      ensures rooms == [] && participants == [] && responses == []
    {
      rooms, participants, responses := [], [], [];
      nextId, clock := 0, 0;
    }
  }
}
