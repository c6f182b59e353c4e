/**
 * The `/responses` handlers over the response table. Every create is meant to add a new row
 * with the next version number for that participant; update to rewrite one row in place;
 * delete removes one row. Activate is meant to turn one row on and its participant's other rows
 * off.
 *
 * As written, create and update store the request's dict itself in the `Text` column, which
 * the driver cannot bind, so both fail at `commit` for every row they find; and activate writes
 * a column the table lacks, so it always fails too. Each of these has an as-written member here
 * and an intended one, on which the rest of the model builds.
 */
module ResponsesApi {
  import opened Common
  import opened Tables
  import opened Payload

  /** `[r.version for r in existing_responses]`: the participant's versions, in table order. */
  function VersionsOf(rs: seq<Response>, pid: Id): (vs: seq<int>)
    ensures forall v :: v in vs <==> exists i :: 0 <= i < |rs| && rs[i].participantId == pid && rs[i].version == v
  {
    if rs == [] then []
    else
      var vs := VersionsOf(Init(rs), pid);
      assert forall i :: 0 <= i < |Init(rs)| ==> Init(rs)[i] == rs[i];
      vs + (if Last(rs).participantId == pid then [Last(rs).version] else [])
  }

  /** Python's `max(vs, default=d)`. */
  function MaxOr(vs: seq<int>, d: int): (m: int)
    ensures vs == [] ==> m == d
    ensures vs != [] ==> m in vs && forall v :: v in vs ==> v <= m
  {
    if vs == [] then d
    else
      var m := MaxOr(vs[1..], vs[0]);
      assert forall v :: v in vs ==> v == vs[0] || v in vs[1..];
      if m < vs[0] then vs[0] else m
  }

  /** `max([r.version for r in existing_responses], default=0) + 1`. */
  function NextVersion(rs: seq<Response>, pid: Id): (v: int)
    ensures forall i :: 0 <= i < |rs| && rs[i].participantId == pid ==> rs[i].version < v
    ensures (forall i :: 0 <= i < |rs| ==> rs[i].participantId != pid) ==> v == 1
    ensures (exists i :: 0 <= i < |rs| && rs[i].participantId == pid) ==>
              exists i :: 0 <= i < |rs| && rs[i].participantId == pid && rs[i].version == v - 1
  {
    var vs := VersionsOf(rs, pid);
    assert forall i :: 0 <= i < |rs| && rs[i].participantId == pid ==> rs[i].version in vs;
    MaxOr(vs, 0) + 1
  }

  /** With positive versions, a participant with earlier responses never gets version 1 again. */
  lemma NextVersionIsOneIffFirst(rs: seq<Response>, pid: Id)
    requires VersionsPositive(rs)
    ensures NextVersion(rs, pid) >= 1
    ensures NextVersion(rs, pid) == 1 <==> forall i :: 0 <= i < |rs| ==> rs[i].participantId != pid
  {
    if exists i :: 0 <= i < |rs| && rs[i].participantId == pid {
      var i :| 0 <= i < |rs| && rs[i].participantId == pid;
      assert rs[i].version < NextVersion(rs, pid);
    }
  }

  /**
   * How `create_response` and `update_response` end as written: 404, or the error `commit`
   * raises because `response_data` (a `Text` column) was given the request's dict rather than
   * its JSON text, which the database driver cannot bind (HTTP 500, transaction rolled back).
   */
  datatype WriteFailure = NoSuchRow | PayloadNotText

  /**
   * `create_response` as written: 404 for an unknown participant. For a known one the handler
   * computes the next version and adds a row whose `response_data` is the dict itself
   * (`set_response_data` is never called), so `commit` raises and no row is written. It never
   * succeeds, and it has nothing to modify.
   */
  method CreateResponseAsWritten(db: Database, participantId: Id, payload: ResponseData) returns (r: WriteFailure)
    ensures r == NoSuchRow <==> participantId !in ParticipantIds(db.participants)
    ensures r == PayloadNotText <==> participantId in ParticipantIds(db.participants)
  {
    var found := FindFirst(db.participants, (p: Participant) => p.id == participantId);
    if found.None? {
      return NoSuchRow;
    }
    r := PayloadNotText;
  }

  /**
   * `create_response` as intended, with the payload stored as the JSON text `responseData` that
   * `set_response_data` produces: a participant id with no row gives 404 and changes nothing;
   * otherwise one new row with a fresh id, the current time and the next version is appended.
   */
  method CreateResponse(db: Database, participantId: Id, responseData: string) returns (r: Result<Response>)
    requires db.Valid()
    modifies db
    ensures db.Valid()
    ensures participantId !in ParticipantIds(old(db.participants)) ==> r == NotFound && unchanged(db)
    ensures participantId in ParticipantIds(old(db.participants)) ==>
              && r == Ok(Response(old(db.nextId), participantId, responseData,
                                  NextVersion(old(db.responses), participantId), old(db.clock)))
              && r.value.id !in ResponseIds(old(db.responses))
              && db.responses == old(db.responses) + [r.value]
              && db.rooms == old(db.rooms) && db.participants == old(db.participants)
  {
    var found := FindFirst(db.participants, (p: Participant) => p.id == participantId);
    if found.None? {
      return NotFound;
    }
    var version := NextVersion(db.responses, participantId);
    NextVersionIsOneIffFirst(db.responses, participantId);
    var row := Response(db.nextId, participantId, responseData, version, db.clock);
    AppendKeepsResponsesValid(db.responses, db.participants, db.nextId, db.clock, row);
    IdsStayFresh(RoomIds(db.rooms), db.nextId);
    IdsStayFresh(ParticipantIds(db.participants), db.nextId);
    db.responses := db.responses + [row];
    db.nextId := db.nextId + 1;
    db.clock := db.clock + 1;
    r := Ok(row);
  }

  /** A row with the next key, the current time and a positive version keeps the response table's invariants. */
  lemma AppendKeepsResponsesValid(rs: seq<Response>, ps: seq<Participant>, next: Id, clock: nat, row: Response)
    requires IdsFresh(ResponseIds(rs), next) && ParticipantsReferenced(ps, rs)
    requires VersionsPositive(rs) && Chronological(rs, clock)
    requires row.id == next && row.participantId in ParticipantIds(ps) && row.version >= 1 && row.createdAt == clock
    ensures IdsFresh(ResponseIds(rs + [row]), next + 1) && ParticipantsReferenced(ps, rs + [row])
    ensures VersionsPositive(rs + [row]) && Chronological(rs + [row], clock + 1)
  {
    assert ResponseIds(rs + [row]) == ResponseIds(rs) + [row.id];
  }

  /** Advancing the key counter keeps every existing key below it. */
  lemma IdsStayFresh(ids: seq<Id>, next: Id)
    requires IdsFresh(ids, next)
    ensures IdsFresh(ids, next + 1)
  {
  }

  /**
   * `get_responses_by_participant`: 404 for an unknown participant, otherwise exactly the
   * participant's rows, newest first whenever the table is in creation order (as `Valid` keeps it).
   */
  function GetResponsesByParticipant(ps: seq<Participant>, rs: seq<Response>, pid: Id): (r: Result<seq<Response>>)
    ensures r.NotFound? <==> pid !in ParticipantIds(ps)
    ensures r.Ok? ==> forall x :: x in r.value <==> x in rs && x.participantId == pid
    ensures r.Ok? && CreatedInOrder(rs) ==>
              forall a, b :: 0 <= a < b < |r.value| ==> r.value[a].createdAt > r.value[b].createdAt
  {
    if FindFirst(ps, (p: Participant) => p.id == pid).None? then NotFound
    else
      var rows := NewestFirst(rs, pid);
      assert CreatedInOrder(rs) ==> forall a, b :: 0 <= a < b < |rows| ==> rows[a].createdAt > rows[b].createdAt by {
        if CreatedInOrder(rs) {
          NewestFirstIsDescending(rs, pid);
        }
      }
      Ok(rows)
  }

  /** The index of the row with key `id`, if any. */
  function ResponseIndex(rs: seq<Response>, id: Id): (k: Option<nat>)
    ensures k.None? <==> id !in ResponseIds(rs)
    ensures k.Some? ==> k.value < |rs| && rs[k.value].id == id
  {
    FindFirst(rs, (x: Response) => x.id == id)
  }

  /** `get_response`: the row with that key, or 404. */
  function GetResponse(rs: seq<Response>, id: Id): (r: Result<Response>)
    ensures r.NotFound? <==> id !in ResponseIds(rs)
    ensures r.Ok? ==> r.value in rs && r.value.id == id
  {
    match ResponseIndex(rs, id)
    case None => NotFound
    case Some(k) => Ok(rs[k])
  }

  /**
   * `update_response` as written: 404 for an unknown key. For a known one the handler assigns the
   * request's dict to `response_data` and bumps the version, so `commit` raises and the row stays
   * as it was. It never succeeds, and it has nothing to modify.
   */
  method UpdateResponseAsWritten(db: Database, id: Id, payload: ResponseData) returns (r: WriteFailure)
    ensures r == NoSuchRow <==> id !in ResponseIds(db.responses)
    ensures r == PayloadNotText <==> id in ResponseIds(db.responses)
  {
    var found := ResponseIndex(db.responses, id);
    if found.None? {
      return NoSuchRow;
    }
    r := PayloadNotText;
  }

  /**
   * `update_response` as intended, with the new payload stored as its JSON text: 404 for an
   * unknown key; otherwise the row keeps its key, participant and creation time, takes the new
   * payload, and its version goes up by exactly one. No other row changes.
   */
  method UpdateResponse(db: Database, id: Id, responseData: string) returns (r: Result<Response>)
    requires db.Valid()
    modifies db
    ensures db.Valid()
    ensures ResponseIndex(old(db.responses), id).None? ==> r == NotFound && unchanged(db)
    ensures ResponseIndex(old(db.responses), id).Some? ==>
              var k := ResponseIndex(old(db.responses), id).value;
              var before := old(db.responses)[k];
              && r == Ok(before.(responseData := responseData, version := before.version + 1))
              && db.responses == old(db.responses)[k := r.value]
              && db.rooms == old(db.rooms) && db.participants == old(db.participants)
              && db.nextId == old(db.nextId) && db.clock == old(db.clock)
  {
    var found := ResponseIndex(db.responses, id);
    if found.None? {
      return NotFound;
    }
    var k := found.value;
    var row := db.responses[k].(responseData := responseData, version := db.responses[k].version + 1);
    assert ResponseIds(db.responses[k := row]) == ResponseIds(db.responses);
    db.responses := db.responses[k := row];
    r := Ok(row);
  }

  // ---------------------------------------------------------------------------------------
  // Activation
  // ---------------------------------------------------------------------------------------

  /** How `activate_response` ends: 404, or the error the bulk update raises (HTTP 500). */
  datatype ActivateFailure = NoSuchResponse | NoActiveColumn

  /**
   * `activate_response` as written: 404 for an unknown key. For a known key the handler runs
   * `update({"is_active": False})` on the participant's rows, but `responses` has no `is_active`
   * column, so the update raises before `commit` and no row changes. It never succeeds.
   */
  method ActivateResponse(db: Database, id: Id) returns (r: ActivateFailure)
    ensures r == NoSuchResponse <==> id !in ResponseIds(db.responses)
    ensures r == NoActiveColumn <==> id in ResponseIds(db.responses)
  {
    var found := ResponseIndex(db.responses, id);
    if found.None? {
      return NoSuchResponse;
    }
    r := NoActiveColumn;
  }

  /** A response row of the table the handler expects, with the `is_active` column it writes. */
  datatype FlaggedResponse = FlaggedResponse(row: Response, isActive: bool)

  /** The table without its `is_active` column. */
  function Rows(fs: seq<FlaggedResponse>): (r: seq<Response>)
    ensures |r| == |fs| && forall i :: 0 <= i < |fs| ==> r[i] == fs[i].row
  {
    seq(|fs|, i requires 0 <= i < |fs| => fs[i].row)
  }

  /** The intended bulk `update({"is_active": False})` on every row of participant `pid`. */
  function Deactivated(fs: seq<FlaggedResponse>, pid: Id): (r: seq<FlaggedResponse>)
    ensures Rows(r) == Rows(fs)
    ensures forall i :: 0 <= i < |fs| ==> r[i].isActive == (fs[i].isActive && fs[i].row.participantId != pid)
  {
    var r := seq(|fs|, i requires 0 <= i < |fs| =>
                   if fs[i].row.participantId == pid then fs[i].(isActive := false) else fs[i]);
    assert Rows(r) == Rows(fs);
    r
  }

  /**
   * The intended table after activating row `k`: the row is active, every other row of the same
   * participant is inactive, rows of other participants are untouched, and no row changes
   * anything but `is_active`.
   */
  function Activated(fs: seq<FlaggedResponse>, k: nat): (r: seq<FlaggedResponse>)
    requires k < |fs|
    ensures Rows(r) == Rows(fs)
    ensures r[k].isActive
    ensures forall i :: 0 <= i < |fs| && i != k && fs[i].row.participantId == fs[k].row.participantId ==> !r[i].isActive
    ensures forall i :: 0 <= i < |fs| && fs[i].row.participantId != fs[k].row.participantId ==> r[i] == fs[i]
  {
    var off := Deactivated(fs, fs[k].row.participantId);
    var r := off[k := fs[k].(isActive := true)];
    assert Rows(r) == Rows(fs) by {
      assert forall i :: 0 <= i < |fs| ==> r[i].row == Rows(off)[i];
    }
    r
  }

  /** Activating the same row twice leaves the table as activating it once. */
  lemma ActivateIsIdempotent(fs: seq<FlaggedResponse>, k: nat)
    requires k < |fs|
    ensures Activated(Activated(fs, k), k) == Activated(fs, k)
  {
    var once := Activated(fs, k);
    var twice := Activated(once, k);
    assert once[k].row == Rows(fs)[k];
    forall i | 0 <= i < |fs| ensures twice[i] == once[i] {
      assert once[i].row == Rows(once)[i] == Rows(fs)[i];
    }
  }

  /**
   * `activate_response` as intended, on a table with the column: 404 for an unknown key;
   * otherwise the returned row is the one asked for and is active, the participant's other rows
   * are inactive, other participants' rows are untouched, and no payload, version or time
   * changes, so the optimal times (which read only `Rows`) stay the same.
   */
  function ActivateIntended(fs: seq<FlaggedResponse>, id: Id): (r: (Result<FlaggedResponse>, seq<FlaggedResponse>))
    ensures r.0.NotFound? <==> id !in ResponseIds(Rows(fs))
    ensures r.0.NotFound? ==> r.1 == fs
    ensures r.0.Ok? ==>
              && r.0.value.row.id == id && r.0.value.isActive && r.0.value in r.1
              && Rows(r.1) == Rows(fs)
              && (forall i :: (0 <= i < |fs| && r.1[i].row.participantId == r.0.value.row.participantId
                                 && r.1[i].row.id != id) ==> !r.1[i].isActive)
              && (forall i :: 0 <= i < |fs| && fs[i].row.participantId != r.0.value.row.participantId ==> r.1[i] == fs[i])
  {
    match ResponseIndex(Rows(fs), id)
    case None => (NotFound, fs)
    case Some(k) =>
      var after := Activated(fs, k);
      assert after[k].row == Rows(after)[k] == Rows(fs)[k];
      assert forall i :: 0 <= i < |fs| ==> after[i].row == Rows(after)[i] == Rows(fs)[i];
      (Ok(after[k]), after)
  }

  /** `delete_response`: 404 for an unknown key; otherwise exactly that row leaves the table. */
  method DeleteResponse(db: Database, id: Id) returns (r: Result<()>)
    requires db.Valid()
    modifies db
    ensures db.Valid()
    ensures ResponseIndex(old(db.responses), id).None? ==> r == NotFound && unchanged(db)
    ensures ResponseIndex(old(db.responses), id).Some? ==>
              && r == Ok(())
              && db.responses == RemoveAt(old(db.responses), ResponseIndex(old(db.responses), id).value)
              && (forall x :: x in db.responses <==> x in old(db.responses) && x.id != id)
              && db.rooms == old(db.rooms) && db.participants == old(db.participants)
              && db.nextId == old(db.nextId) && db.clock == old(db.clock)
  {
    var found := ResponseIndex(db.responses, id);
    if found.None? {
      return NotFound;
    }
    RemoveResponse(db.responses, db.participants, db.nextId, db.clock, found.value);
    db.responses := RemoveAt(db.responses, found.value);
    r := Ok(());
  }

  /** Removing the row at `k` keeps the table's invariants and drops exactly that row's key. */
  lemma RemoveResponse(rs: seq<Response>, ps: seq<Participant>, next: Id, clock: nat, k: nat)
    requires k < |rs|
    requires IdsFresh(ResponseIds(rs), next) && ParticipantsReferenced(ps, rs)
    requires VersionsPositive(rs) && Chronological(rs, clock)
    ensures var after := RemoveAt(rs, k);
            && IdsFresh(ResponseIds(after), next) && ParticipantsReferenced(ps, after)
            && VersionsPositive(after) && Chronological(after, clock)
            && forall x :: x in after <==> x in rs && x.id != rs[k].id
  {
    var after := RemoveAt(rs, k);
    RemoveKeepsFresh(ResponseIds(rs), next, k);
    assert ResponseIds(after) == RemoveAt(ResponseIds(rs), k);
    RemovedRowsAreTheOthers(rs, k);
    RemoveKeepsCreationOrder(rs, clock, k);
  }

  /** The rows left are the others, told apart by their distinct ids. */
  lemma RemovedRowsAreTheOthers(rs: seq<Response>, k: nat)
    requires k < |rs|
    requires forall i, j :: 0 <= i < j < |rs| ==> rs[i].id < rs[j].id
    ensures forall x :: x in RemoveAt(rs, k) <==> x in rs && x.id != rs[k].id
  {
    var after := RemoveAt(rs, k);
    forall x | x in rs && x.id != rs[k].id ensures x in after {
      var m :| 0 <= m < |rs| && rs[m] == x;
      if m < k { assert after[m] == x; } else { assert after[m - 1] == x; }
    }
    forall x | x in after ensures x in rs && x.id != rs[k].id {
      var m :| 0 <= m < |after| && after[m] == x;
      if m < k { assert rs[m] == x; } else { assert rs[m + 1] == x; }
    }
  }

  /** Dropping a row keeps the rest in creation order. */
  lemma RemoveKeepsCreationOrder(rs: seq<Response>, clock: nat, k: nat)
    requires k < |rs| && Chronological(rs, clock)
    ensures Chronological(RemoveAt(rs, k), clock)
  {
    var after := RemoveAt(rs, k);
    forall i, j | 0 <= i < j < |after| ensures after[i].createdAt < after[j].createdAt {
      if j < k { } else if i < k { assert after[j] == rs[j + 1]; } else { assert after[i] == rs[i + 1]; }
    }
  }
}
