/**
 * The `/participants` handlers over the participant table. Joining a room is get-or-create by
 * (room, name); deleting a participant takes that participant's responses with it, as the
 * relationship's `delete-orphan` cascade does.
 */
module ParticipantsApi {
  import opened Common
  import opened Tables

  /** The query `filter(room_id == roomId, name == name).first()`, as a row index. */
  function MatchIndex(ps: seq<Participant>, roomId: Id, name: string): (k: Option<nat>)
    ensures k.None? <==> forall i :: 0 <= i < |ps| ==> !(ps[i].roomId == roomId && ps[i].name == name)
    ensures k.Some? ==> k.value < |ps| && ps[k.value].roomId == roomId && ps[k.value].name == name
  {
    FindFirst(ps, (p: Participant) => p.roomId == roomId && p.name == name)
  }

  /** No two rows share a room and a name. */
  predicate OnePerName(ps: seq<Participant>) {
    forall i, j :: 0 <= i < j < |ps| ==> !(ps[i].roomId == ps[j].roomId && ps[i].name == ps[j].name)
  }

  /** A row appended when no row matched is the one the query finds from then on. */
  lemma MatchAfterInsert(ps: seq<Participant>, p: Participant)
    requires MatchIndex(ps, p.roomId, p.name).None?
    ensures MatchIndex(ps + [p], p.roomId, p.name) == Some(|ps|)
    ensures OnePerName(ps) ==> OnePerName(ps + [p])
  {
    assert (ps + [p])[|ps|] == p;
    assert forall i :: 0 <= i < |ps| ==> (ps + [p])[i] == ps[i];
  }

  /**
   * `create_participant`: a missing or inactive room gives 404 and inserts nothing; a row with the
   * same room and name is returned as it is; otherwise exactly one new row is appended. Either
   * way the returned row is the one the lookup finds afterwards, so a repeated call returns it
   * again, and the path never makes a second row for one (room, name).
   */
  method CreateParticipant(db: Database, roomId: Id, name: string) returns (r: Result<Participant>)
    requires db.Valid()
    modifies db
    ensures db.Valid()
    ensures ActiveRoomIndex(old(db.rooms), roomId).None? ==> r == NotFound && unchanged(db)
    ensures ActiveRoomIndex(old(db.rooms), roomId).Some? && MatchIndex(old(db.participants), roomId, name).Some? ==>
              r == Ok(old(db.participants)[MatchIndex(old(db.participants), roomId, name).value]) && unchanged(db)
    ensures ActiveRoomIndex(old(db.rooms), roomId).Some? && MatchIndex(old(db.participants), roomId, name).None? ==>
              && r == Ok(Participant(old(db.nextId), roomId, name, old(db.clock)))
              && db.participants == old(db.participants) + [r.value]
              && db.rooms == old(db.rooms) && db.responses == old(db.responses)
    ensures r.Ok? ==> r.value.roomId == roomId && r.value.name == name
    ensures r.Ok? ==> MatchIndex(db.participants, roomId, name).Some?
                      && db.participants[MatchIndex(db.participants, roomId, name).value] == r.value
    ensures OnePerName(old(db.participants)) ==> OnePerName(db.participants)
  {
    var room := ActiveRoomIndex(db.rooms, roomId);
    if room.None? {
      return NotFound;
    }
    var existing := MatchIndex(db.participants, roomId, name);
    if existing.Some? {
      return Ok(db.participants[existing.value]);
    }
    var p := Participant(db.nextId, roomId, name, db.clock);
    MatchAfterInsert(db.participants, p);
    assert ParticipantIds(db.participants + [p]) == ParticipantIds(db.participants) + [p.id];
    assert roomId == RoomIds(db.rooms)[room.value];
    db.participants := db.participants + [p];
    db.nextId := db.nextId + 1;
    db.clock := db.clock + 1;
    r := Ok(p);
  }

  /** `get_participants_by_room`: 404 unless the room is active, otherwise its participants in table order. */
  function GetParticipantsByRoom(rooms: seq<Room>, ps: seq<Participant>, roomId: Id): (r: Result<seq<Participant>>)
    ensures r.NotFound? <==> forall i :: 0 <= i < |rooms| ==> !(rooms[i].id == roomId && rooms[i].isActive)
    ensures r.Ok? ==> forall p :: p in r.value <==> p in ps && p.roomId == roomId
  {
    if ActiveRoomIndex(rooms, roomId).None? then NotFound
    else Ok(Filter(ps, (p: Participant) => p.roomId == roomId))
  }

  /** `get_participant`: the row with its responses, or 404. */
  function GetParticipant(ps: seq<Participant>, rs: seq<Response>, id: Id): (r: Result<(Participant, seq<Response>)>)
    ensures r.NotFound? <==> id !in ParticipantIds(ps)
    ensures r.Ok? ==> r.value.0 in ps && r.value.0.id == id
    ensures r.Ok? ==> forall x :: x in r.value.1 <==> x in rs && x.participantId == id
  {
    match FindFirst(ps, (p: Participant) => p.id == id)
    case None => NotFound
    case Some(k) => Ok((ps[k], Filter(rs, (x: Response) => x.participantId == id)))
  }

  /** The response table once participant `pid`'s rows have gone with it. */
  function ResponsesAfterCascade(rs: seq<Response>, pid: Id): (r: seq<Response>)
    ensures forall x :: x in r <==> x in rs && x.participantId != pid
  {
    Filter(rs, (x: Response) => x.participantId != pid)
  }

  /**
   * `delete_participant`: 404 for an unknown key; otherwise the row leaves the table together
   * with all of its responses, and every other row stays.
   */
  method DeleteParticipant(db: Database, id: Id) returns (r: Result<()>)
    requires db.Valid()
    modifies db
    ensures db.Valid()
    ensures id !in ParticipantIds(old(db.participants)) ==> r == NotFound && unchanged(db)
    ensures id in ParticipantIds(old(db.participants)) ==>
              && r == Ok(())
              && (forall p :: p in db.participants <==> p in old(db.participants) && p.id != id)
              && |db.participants| == |old(db.participants)| - 1
              && db.responses == ResponsesAfterCascade(old(db.responses), id)
              && db.rooms == old(db.rooms)
              && db.nextId == old(db.nextId) && db.clock == old(db.clock)
  {
    var found := FindFirst(db.participants, (p: Participant) => p.id == id);
    if found.None? {
      return NotFound;
    }
    var k := found.value;
    RemoveParticipant(db.participants, db.rooms, db.responses, db.nextId, db.clock, k);
    db.responses := ResponsesAfterCascade(db.responses, id);
    db.participants := RemoveAt(db.participants, k);
    r := Ok(());
  }

  /** Removing participant row `k` and its responses keeps every table invariant. */
  lemma RemoveParticipant(ps: seq<Participant>, rooms: seq<Room>, rs: seq<Response>, next: Id, clock: nat, k: nat)
    requires k < |ps|
    requires IdsFresh(ParticipantIds(ps), next) && IdsFresh(ResponseIds(rs), next)
    requires RoomsReferenced(rooms, ps) && ParticipantsReferenced(ps, rs)
    requires VersionsPositive(rs) && Chronological(rs, clock)
    ensures var ps' := RemoveAt(ps, k);
            var rs' := ResponsesAfterCascade(rs, ps[k].id);
            && IdsFresh(ParticipantIds(ps'), next) && IdsFresh(ResponseIds(rs'), next)
            && RoomsReferenced(rooms, ps') && ParticipantsReferenced(ps', rs')
            && VersionsPositive(rs') && Chronological(rs', clock)
            && (forall p :: p in ps' <==> p in ps && p.id != ps[k].id)
  {
    RemovedParticipantRows(ps, rooms, next, k);
    CascadeKeepsResponses(ps, rs, next, clock, k);
  }

  /** The participant table without row `k` keeps fresh keys and room references. */
  lemma RemovedParticipantRows(ps: seq<Participant>, rooms: seq<Room>, next: Id, k: nat)
    requires k < |ps|
    requires IdsFresh(ParticipantIds(ps), next) && RoomsReferenced(rooms, ps)
    ensures var ps' := RemoveAt(ps, k);
            && IdsFresh(ParticipantIds(ps'), next) && RoomsReferenced(rooms, ps')
            && (forall p :: p in ps' <==> p in ps && p.id != ps[k].id)
  {
    var ps' := RemoveAt(ps, k);
    var pid := ps[k].id;
    RemoveKeepsFresh(ParticipantIds(ps), next, k);
    assert ParticipantIds(ps') == RemoveAt(ParticipantIds(ps), k);
    forall p | p in ps && p.id != pid ensures p in ps' {
      var m :| 0 <= m < |ps| && ps[m] == p;
      if m < k { assert ps'[m] == p; } else { assert ps'[m - 1] == p; }
    }
    forall p | p in ps' ensures p in ps && p.id != pid {
      var m :| 0 <= m < |ps'| && ps'[m] == p;
      assert ParticipantIds(ps')[m] in RemoveAt(ParticipantIds(ps), k);
    }
    forall i | 0 <= i < |ps'| ensures ps'[i].roomId in RoomIds(rooms) {
      assert ps'[i] in ps;
    }
  }

  /** The responses left by the cascade keep fresh keys, versions, order, and point at remaining participants. */
  lemma CascadeKeepsResponses(ps: seq<Participant>, rs: seq<Response>, next: Id, clock: nat, k: nat)
    requires k < |ps|
    requires IdsFresh(ParticipantIds(ps), next) && IdsFresh(ResponseIds(rs), next)
    requires ParticipantsReferenced(ps, rs)
    requires VersionsPositive(rs) && Chronological(rs, clock)
    ensures var rs' := ResponsesAfterCascade(rs, ps[k].id);
            && IdsFresh(ResponseIds(rs'), next) && ParticipantsReferenced(RemoveAt(ps, k), rs')
            && VersionsPositive(rs') && Chronological(rs', clock)
  {
    var ps' := RemoveAt(ps, k);
    var pid := ps[k].id;
    var rs' := ResponsesAfterCascade(rs, pid);
    RemoveKeepsFresh(ParticipantIds(ps), next, k);
    assert ParticipantIds(ps') == RemoveAt(ParticipantIds(ps), k);
    var keep := (x: Response) => x.participantId != pid;
    FilterKeepsIncreasing(rs, keep, (x: Response) => x.id);
    FilterKeepsIncreasing(rs, keep, (x: Response) => x.createdAt);
    forall i | 0 <= i < |rs'| ensures rs'[i].participantId in ParticipantIds(ps') && rs'[i].id < next
      && rs'[i].version >= 1 && rs'[i].createdAt < clock
    {
      assert rs'[i] in rs;
      var m :| 0 <= m < |rs| && rs[m] == rs'[i];
      assert ResponseIds(rs)[m] == rs'[i].id;
    }
  }
}
