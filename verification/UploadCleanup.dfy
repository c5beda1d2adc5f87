// The periodic pass over upload sessions: interrupted finalizations are resolved, overdue
// sessions expire and give their reservation back, and old terminal ones are dropped.
module UploadCleanup {
  import opened UploadStore

  // How resolving an interrupted finalization ends.
  datatype Resolution = Unresolved | Published | Reopened

  // What one pass finds out about a session: whether a transfer holds it, how a resolution
  // would end, whether it is overdue, and whether its record or staging file can be changed.
  datatype Finding = Finding(busy: bool, resolution: Resolution, due: bool, stored: bool, tempGone: bool)

  datatype Fate = Stays(state: SessionState) | Dropped

  // What the pass does to a session.
  function FateOf(state: SessionState, f: Finding): Fate {
    if f.busy || (state == Finalizing && f.resolution == Unresolved) then Stays(state)
    else if state == Finalizing && f.resolution == Published then Stays(Complete)
    else
      var now := if state == Finalizing then Open else state;
      if !f.due then Stays(now)
      else if now == Open then Stays(if f.stored then Expired else Open)
      else if f.tempGone then Dropped else Stays(now)
  }

  // Ends a session and gives its reservation back.
  method EndSession(store: TransferStore, id: Id, to: SessionState, tempGone: bool)
    requires store.Valid() && store.releasing == {} && id in store.sessions && IsOpen(store.sessions[id].state)
      && !IsOpen(to)
    modifies store
    ensures store.Valid() && store.releasing == {}
    ensures store.sessions == old(store.sessions)[id := old(store.sessions)[id].(state := to)]
    ensures store.activeUploads == old(store.activeUploads) - 1
    ensures store.reservedBytes == old(store.reservedBytes) - old(store.sessions)[id].size
  {
    hide Apart, Table, Sizes, Ids;
    var record := store.sessions[id];
    HeldLikeItsSession(store, id);
    store.ChangeState(id, to);
    var released := store.ReleasePaths(record, tempGone);
  }

  lemma HeldLikeItsSession(store: TransferStore, id: Id)
    requires store.Valid() && store.releasing == {} && id in store.sessions && IsOpen(store.sessions[id].state)
    ensures store.sessions[id].id == id && id in Ids(store.held)
    ensures forall r | r in store.held && r.id == id ::
      r.target == store.sessions[id].target && r.size == store.sessions[id].size
  {
    hide Apart, Table, Sizes;
  }

  // Handles one session.
  method CleanOne(store: TransferStore, id: Id, f: Finding)
    requires store.Valid() && store.releasing == {} && id in store.sessions
    modifies store
    ensures store.Valid() && store.releasing == {}
    ensures var fate := FateOf(old(store.sessions)[id].state, f);
      store.sessions == if fate.Dropped? then old(store.sessions) - {id}
                        else old(store.sessions)[id := old(store.sessions)[id].(state := fate.state)]
  {
    hide store.Valid;
    var record := store.sessions[id];
    assert store.sessions == store.sessions[id := record];
    if f.busy {
      return;
    }
    if record.state == Finalizing {
      if f.resolution == Unresolved {
        return;
      }
      if f.resolution == Published {
        EndSession(store, id, Complete, f.tempGone);
        return;
      }
      store.ChangeState(id, Open);
    }
    if !f.due {
      return;
    }
    if IsOpen(store.sessions[id].state) {
      if f.stored {
        EndSession(store, id, Expired, f.tempGone);
      }
    } else if f.tempGone {
      store.Forget(id);
    }
  }

  // The whole pass. Every reservation it ends is given back, and no other.
  method CleanupExpired(store: TransferStore, findings: map<Id, Finding>)
    requires store.Valid() && store.releasing == {} && findings.Keys == store.sessions.Keys
    modifies store
    ensures store.Valid() && store.releasing == {}
    ensures forall id | id in old(store.sessions) :: var r := old(store.sessions)[id];
      match FateOf(r.state, findings[id])
      case Dropped => id !in store.sessions
      case Stays(state) => id in store.sessions && store.sessions[id] == r.(state := state)
    ensures store.sessions.Keys <= old(store.sessions.Keys)
    ensures store.activeUploads == |set id | id in store.sessions && IsOpen(store.sessions[id].state)|
  {
    hide store.Valid, FateOf;
    var rest := store.sessions.Keys;
    while rest != {}
      invariant store.Valid() && store.releasing == {} && rest <= store.sessions.Keys <= old(store.sessions.Keys)
      invariant forall id | id in rest :: store.sessions[id] == old(store.sessions)[id]
      invariant forall id | id in old(store.sessions) && id !in rest :: var r := old(store.sessions)[id];
        match FateOf(r.state, findings[id])
        case Dropped => id !in store.sessions
        case Stays(state) => id in store.sessions && store.sessions[id] == r.(state := state)
    {
      var id :| id in rest;
      CleanOne(store, id, findings[id]);
      rest := rest - {id};
    }
    store.ReservedAreOpenSessions();
  }

  datatype AbortResult = Busy | Undecided | Settled(state: SessionState) | NotStored

  // What aborting a session in that state comes to.
  function AbortOf(was: SessionState, f: Finding): AbortResult {
    if f.busy then Busy
    else if was == Finalizing && f.resolution == Unresolved then Undecided
    else if was == Finalizing && f.resolution == Published then Settled(Complete)
    else if !IsOpen(was) then Settled(was)
    else if f.stored then Settled(Aborted)
    else NotStored
  }

  // Aborts a session: a finalization is resolved first, and a published or otherwise ended
  // session keeps its state.
  method Abort(store: TransferStore, id: Id, f: Finding) returns (r: AbortResult)
    requires store.Valid() && store.releasing == {} && id in store.sessions
    modifies store
    ensures store.Valid() && store.releasing == {}
    ensures r == AbortOf(old(store.sessions)[id].state, f)
    ensures store.sessions == match r
      case Settled(state) => old(store.sessions)[id := old(store.sessions)[id].(state := state)]
      case NotStored => old(store.sessions)[id := old(store.sessions)[id].(state := Open)]
      case _ => old(store.sessions)
    ensures r.Settled? && IsOpen(old(store.sessions)[id].state) ==>
      && store.activeUploads == old(store.activeUploads) - 1
      && store.reservedBytes == old(store.reservedBytes) - old(store.sessions)[id].size
    ensures !r.Settled? || !IsOpen(old(store.sessions)[id].state) ==>
      store.activeUploads == old(store.activeUploads) && store.reservedBytes == old(store.reservedBytes)
  {
    hide store.Valid;
    var record := store.sessions[id];
    assert store.sessions == store.sessions[id := record];
    if f.busy {
      return Busy;
    }
    if record.state == Finalizing {
      if f.resolution == Unresolved {
        return Undecided;
      }
      if f.resolution == Published {
        EndSession(store, id, Complete, f.tempGone);
        return Settled(Complete);
      }
      store.ChangeState(id, Open);
    }
    if !IsOpen(store.sessions[id].state) {
      return Settled(record.state);
    }
    if !f.stored {
      return NotStored;
    }
    EndSession(store, id, Aborted, f.tempGone);
    r := Settled(Aborted);
  }
}
