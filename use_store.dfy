/**
 * The front end's global store (`useStore`): one state cell that every action replaces with a
 * spread or filter of the old one. The transitions are functions on `AppState` (this module);
 * `UseStore.Store` is the mutable cell, whose methods replace its state by those functions.
 */
module StoreActions {
  import opened Common

  /** The store's copies of the API's records; only the fields the store reads are spelled out. */
  datatype Room = Room(id: string, title: string, roomType: int)
  datatype Participant = Participant(id: string, roomId: string, name: string)
  datatype OptimalTimeSlot = OptimalTimeSlot(timeSlot: string, availableParticipants: seq<string>, participantCount: nat)

  datatype AppState = AppState(
    currentRoom: Option<Room>,
    rooms: seq<Room>,
    participants: seq<Participant>,
    optimalTimes: seq<OptimalTimeSlot>,
    loading: bool,
    error: Option<string>)

  /** The state the store is created with: nothing loaded, no error. */
  const Initial := AppState(None, [], [], [], false, None)

  /** `setCurrentRoom`. */
  function SetCurrentRoom(s: AppState, room: Option<Room>): (r: AppState)
    ensures r.currentRoom == room
    ensures r.rooms == s.rooms && r.participants == s.participants && r.optimalTimes == s.optimalTimes
    ensures r.loading == s.loading && r.error == s.error
  {
    s.(currentRoom := room)
  }

  /** `setRooms`. */
  function SetRooms(s: AppState, rooms: seq<Room>): (r: AppState)
    ensures r.rooms == rooms
    ensures r.currentRoom == s.currentRoom && r.participants == s.participants && r.optimalTimes == s.optimalTimes
    ensures r.loading == s.loading && r.error == s.error
  {
    s.(rooms := rooms)
  }

  /** `addRoom`: the room goes last. */
  function AddRoom(s: AppState, room: Room): (r: AppState)
    ensures |r.rooms| == |s.rooms| + 1 && r.rooms[..|s.rooms|] == s.rooms && r.rooms[|s.rooms|] == room
    ensures r.currentRoom == s.currentRoom && r.participants == s.participants && r.optimalTimes == s.optimalTimes
    ensures r.loading == s.loading && r.error == s.error
  {
    s.(rooms := s.rooms + [room])
  }

  /** `setParticipants`. */
  function SetParticipants(s: AppState, participants: seq<Participant>): (r: AppState)
    ensures r.participants == participants
    ensures r.currentRoom == s.currentRoom && r.rooms == s.rooms && r.optimalTimes == s.optimalTimes
    ensures r.loading == s.loading && r.error == s.error
  {
    s.(participants := participants)
  }

  /** `addParticipant`: the participant goes last. */
  function AddParticipant(s: AppState, p: Participant): (r: AppState)
    ensures |r.participants| == |s.participants| + 1
    ensures r.participants[..|s.participants|] == s.participants && r.participants[|s.participants|] == p
    ensures r.currentRoom == s.currentRoom && r.rooms == s.rooms && r.optimalTimes == s.optimalTimes
    ensures r.loading == s.loading && r.error == s.error
  {
    s.(participants := s.participants + [p])
  }

  /** `participants.filter(p => p.id !== id)`, walked from the front. */
  function WithoutId(ps: seq<Participant>, id: string): (r: seq<Participant>)
    ensures forall p :: p in r <==> p in ps && p.id != id
  {
    if ps == [] then []
    else (if ps[0].id == id then [] else [ps[0]]) + WithoutId(ps[1..], id)
  }

  /** `removeParticipant`: every participant with that id leaves. */
  function RemoveParticipant(s: AppState, id: string): (r: AppState)
    ensures forall p :: p in r.participants <==> p in s.participants && p.id != id
    ensures r.currentRoom == s.currentRoom && r.rooms == s.rooms && r.optimalTimes == s.optimalTimes
    ensures r.loading == s.loading && r.error == s.error
  {
    s.(participants := WithoutId(s.participants, id))
  }

  /** The others keep their order: removing is the order-keeping filter on the id. */
  lemma {:induction false} RemoveKeepsOrder(ps: seq<Participant>, id: string)
    ensures WithoutId(ps, id) == Filter(ps, (p: Participant) => p.id != id)
    decreases |ps|
  {
    if ps != [] {
      RemoveKeepsOrder(ps[1..], id);
    }
  }

  /** Adding a participant with a new id and removing that id gives back the list as it was. */
  lemma {:induction false} RemoveUndoesAdd(s: AppState, p: Participant)
    requires forall q :: q in s.participants ==> q.id != p.id
    ensures RemoveParticipant(AddParticipant(s, p), p.id) == s
  {
    WithoutIdAppend(s.participants, p);
  }

  lemma {:induction false} WithoutIdAppend(ps: seq<Participant>, p: Participant)
    requires forall q :: q in ps ==> q.id != p.id
    ensures WithoutId(ps + [p], p.id) == ps
    decreases |ps|
  {
    if ps == [] {
      assert [p][1..] == [];
    } else {
      assert (ps + [p])[1..] == ps[1..] + [p];
      WithoutIdAppend(ps[1..], p);
      assert ps == [ps[0]] + ps[1..];
    }
  }

  /** `setOptimalTimes`. */
  function SetOptimalTimes(s: AppState, times: seq<OptimalTimeSlot>): (r: AppState)
    ensures r.optimalTimes == times
    ensures r.currentRoom == s.currentRoom && r.rooms == s.rooms && r.participants == s.participants
    ensures r.loading == s.loading && r.error == s.error
  {
    s.(optimalTimes := times)
  }

  /** `setLoading`. */
  function SetLoading(s: AppState, loading: bool): (r: AppState)
    ensures r.loading == loading
    ensures r.currentRoom == s.currentRoom && r.rooms == s.rooms && r.participants == s.participants
    ensures r.optimalTimes == s.optimalTimes && r.error == s.error
  {
    s.(loading := loading)
  }

  /** `setError`. */
  function SetError(s: AppState, error: Option<string>): (r: AppState)
    ensures r.error == error
    ensures r.currentRoom == s.currentRoom && r.rooms == s.rooms && r.participants == s.participants
    ensures r.optimalTimes == s.optimalTimes && r.loading == s.loading
  {
    s.(error := error)
  }

  /** `clearError`: the error is gone, as after `setError(null)`, and nothing else moves. */
  function ClearError(s: AppState): (r: AppState)
    ensures r.error.None?
    ensures r == SetError(s, None)
  {
    s.(error := None)
  }

  /** `reset`: every field back to its initial value, whatever the state was. */
  function Reset(s: AppState): (r: AppState)
    ensures r == Initial
  {
    AppState(None, [], [], [], false, None)
  }
}

module UseStore {
  import opened Common
  import opened StoreActions
  import A = StoreActions

  /** The store's single state cell; each action replaces it with the matching transition. */
  class Store {
    var state: AppState

    constructor ()
      ensures state == Initial
    {
      state := Initial;
    }

    method SetCurrentRoom(room: Option<Room>)
      modifies this
      ensures state == A.SetCurrentRoom(old(state), room)
    {
      state := A.SetCurrentRoom(state, room);
    }

    method SetRooms(rooms: seq<Room>)
      modifies this
      ensures state == A.SetRooms(old(state), rooms)
    {
      state := A.SetRooms(state, rooms);
    }

    method AddRoom(room: Room)
      modifies this
      ensures state == A.AddRoom(old(state), room)
    {
      state := A.AddRoom(state, room);
    }

    method SetParticipants(participants: seq<Participant>)
      modifies this
      ensures state == A.SetParticipants(old(state), participants)
    {
      state := A.SetParticipants(state, participants);
    }

    method AddParticipant(p: Participant)
      modifies this
      ensures state == A.AddParticipant(old(state), p)
    {
      state := A.AddParticipant(state, p);
    }

    method RemoveParticipant(id: string)
      modifies this
      ensures state == A.RemoveParticipant(old(state), id)
    {
      state := A.RemoveParticipant(state, id);
    }

    method SetOptimalTimes(times: seq<OptimalTimeSlot>)
      modifies this
      ensures state == A.SetOptimalTimes(old(state), times)
    {
      state := A.SetOptimalTimes(state, times);
    }

    method SetLoading(loading: bool)
      modifies this
      ensures state == A.SetLoading(old(state), loading)
    {
      state := A.SetLoading(state, loading);
    }

    method SetError(error: Option<string>)
      modifies this
      ensures state == A.SetError(old(state), error)
    {
      state := A.SetError(state, error);
    }

    method ClearError()
      modifies this
      ensures state == A.ClearError(old(state))
    {
      state := A.ClearError(state);
    }

    method Reset()
      modifies this
      ensures state == Initial
    {
      state := A.Reset(state);
    }
  }
}
