// The in-memory registry of upload sessions: which targets are reserved, by whom,
// and how many sessions and bytes that amounts to.
module UploadStore {
  import opened Options

  type Path = string
  type Id = string

  datatype SessionState = Open | Finalizing | Complete | Failed | Aborted | Expired

  predicate IsOpen(s: SessionState) { s == Open || s == Finalizing }

  // details stands for the declared digest, mode and overwrite flag.
  datatype Record = Record(
    id: Id, request: string, target: Path, temp: Path, size: nat, details: nat, state: SessionState)

  // Equal, or one is an ancestor directory of the other.
  predicate PathOverlaps(left: Path, right: Path) {
    left == right || right + "/" <= left || left + "/" <= right
  }

  ghost predicate Apart(held: seq<Record>) {
    forall i, j | 0 <= i < j < |held| ::
      held[i].id != held[j].id && !PathOverlaps(held[i].target, held[j].target)
  }

  ghost function Sizes(held: seq<Record>): nat {
    if held == [] then 0 else Sizes(held[..|held| - 1]) + held[|held| - 1].size
  }

  ghost function Without(held: seq<Record>, i: nat): seq<Record>
    requires i < |held|
  {
    held[..i] + held[i + 1..]
  }

  lemma {:induction false} SizesWithout(held: seq<Record>, i: nat)
    requires i < |held|
    ensures Sizes(Without(held, i)) + held[i].size == Sizes(held)
  {
    var init := held[..|held| - 1];
    if i == |held| - 1 {
      assert Without(held, i) == init;
    } else {
      SizesWithout(init, i);
      assert Without(held, i)[..|held| - 2] == Without(init, i);
    }
  }

  // The reservation table that lists exactly the held records.
  ghost function Table(held: seq<Record>): map<Path, Id> {
    if held == [] then map[] else
    var last := held[|held| - 1];
    Table(held[..|held| - 1])[last.target := last.id]
  }

  ghost function Ids(held: seq<Record>): set<Id> {
    set r | r in held :: r.id
  }

  // Held records and open sessions are the same, up to the releases still to come.
  ghost predicate Holds(sessions: map<Id, Record>, held: seq<Record>, releasing: set<Id>) {
    && (forall id | id in sessions :: sessions[id].id == id)
    && (forall id | id in sessions && IsOpen(sessions[id].state) :: id in Ids(held) && id !in releasing)
    && (forall id | id in Ids(held) && id !in releasing :: id in sessions && IsOpen(sessions[id].state))
    && (forall r | r in held && r.id in sessions ::
          r.target == sessions[r.id].target && r.size == sessions[r.id].size)
    && releasing <= Ids(held)
  }

  datatype CreateResult =
    | Created
    | Existing(id: Id)
    | DifferentMetadata
    | Conflict
    | InvalidTarget
    | TooManySessions
    | TooManyBytes
    | NoId
    | StorageError

  class TransferStore {
    const maxSessions: nat
    const maxStaging: nat
    var sessions: map<Id, Record>
    var requests: map<string, Id>
    var targets: map<Path, Id>
    var temps: map<Path, Id>
    var activeUploads: int
    var reservedBytes: int

    // Records whose target is reserved, and those of them that reached a terminal
    // state and whose release is still to come.
    ghost var held: seq<Record>
    ghost var releasing: set<Id>

    // The maps, counters and sessions agree.
    ghost predicate Consistent()
      reads this
    {
      && Apart(held)
      && targets == Table(held)
      && activeUploads == |held|
      && reservedBytes == Sizes(held)
      && Holds(sessions, held, releasing)
      && (forall q | q in requests :: requests[q] in sessions)
    }

    // And the limits every session was admitted under still hold.
    ghost predicate Valid()
      reads this
    {
      Consistent() && activeUploads <= maxSessions && reservedBytes <= maxStaging
    }

    constructor (maxSessions: nat, maxStaging: nat)
      ensures Valid() && sessions == map[] && held == [] && releasing == {}
      ensures this.maxSessions == maxSessions && this.maxStaging == maxStaging
    {
      this.maxSessions, this.maxStaging := maxSessions, maxStaging;
      sessions, requests, targets, temps := map[], map[], map[], map[];
      activeUploads, reservedBytes := 0, 0;
      held, releasing := [], {};
    }

    predicate MutationConflicts(rel: Path)
      reads this
    {
      (exists p | p in targets :: PathOverlaps(rel, p)) || (exists p | p in temps :: PathOverlaps(rel, p))
    }

    // Admits a session, or says why not. `valid` is the outcome of checking the target,
    // `stored` that of persisting the record and creating the staging file.
    method Create(wanted: Record, valid: bool, stored: bool) returns (result: CreateResult)
      requires Valid() && wanted.state == Open && (wanted.id in Ids(held) ==> wanted.id in sessions)
      modifies this
      ensures Valid()
      ensures wanted.request in old(requests) ==>
        var session := old(sessions)[old(requests)[wanted.request]];
        result == if session.target == wanted.target && session.size == wanted.size && session.details == wanted.details
                  then Existing(session.id) else DifferentMetadata
      ensures wanted.request !in old(requests) ==>
        result == if old(MutationConflicts(wanted.target)) then Conflict
                  else if !valid then InvalidTarget
                  else if old(activeUploads) >= maxSessions then TooManySessions
                  else if old(reservedBytes) + wanted.size > maxStaging then TooManyBytes
                  else if wanted.id in old(sessions) then NoId
                  else if !stored then StorageError
                  else Created
      ensures result.Created? ==>
        && held == old(held) + [wanted] && releasing == old(releasing)
        && activeUploads == old(activeUploads) + 1 <= maxSessions
        && reservedBytes == old(reservedBytes) + wanted.size <= maxStaging
        && sessions == old(sessions)[wanted.id := wanted]
      ensures !result.Created? ==>
        && held == old(held) && releasing == old(releasing) && sessions == old(sessions) && targets == old(targets)
        && activeUploads == old(activeUploads) && reservedBytes == old(reservedBytes)
    {
      if wanted.request in requests {
        var session := sessions[requests[wanted.request]];
        if session.target != wanted.target || session.size != wanted.size || session.details != wanted.details {
          return DifferentMetadata;
        }
        return Existing(session.id);
      }
      if MutationConflicts(wanted.target) {
        return Conflict;
      }
      if !valid {
        return InvalidTarget;
      }
      if activeUploads >= maxSessions {
        return TooManySessions;
      }
      if wanted.size > maxStaging - reservedBytes {
        return TooManyBytes;
      }
      if wanted.id in sessions {
        return NoId;
      }
      if !stored {
        return StorageError;
      }
      Admit(wanted);
      return Created;
    }

    method Admit(wanted: Record)
      requires Consistent() && IsOpen(wanted.state) && wanted.id !in Ids(held)
      requires !(exists p :: p in targets && PathOverlaps(wanted.target, p)) && wanted.id !in sessions
      modifies this
      ensures Consistent()
      ensures held == old(held) + [wanted] && releasing == old(releasing)
      ensures activeUploads == old(activeUploads) + 1 && reservedBytes == old(reservedBytes) + wanted.size
      ensures sessions == old(sessions)[wanted.id := wanted]
    {
      hide Holds, Apart, Table, Sizes, PathOverlaps;
      ApartFromAll(held, wanted);
      HoldsMore(sessions, held, releasing, wanted);
      OneMoreHeld(held, wanted);
      sessions := sessions[wanted.id := wanted];
      requests := requests[wanted.request := wanted.id];
      targets := targets[wanted.target := wanted.id];
      temps := temps[wanted.temp := wanted.id];
      activeUploads := activeUploads + 1;
      reservedBytes := reservedBytes + wanted.size;
      held := held + [wanted];
    }

    // The durable state change of a session: to FINALIZING and back while it is open,
    // or to a terminal state, after which its reservation has to be released.
    method ChangeState(id: Id, to: SessionState)
      requires Valid() && id in sessions && IsOpen(sessions[id].state)
      modifies this`sessions, this`releasing
      ensures Valid()
      ensures sessions == old(sessions)[id := old(sessions)[id].(state := to)]
      ensures releasing == old(releasing) + if IsOpen(to) then {} else {id}
    {
      hide Apart, Table, Sizes, Holds;
      ChangeKeeps(sessions, held, releasing, id, to);
      assert releasing + {} == releasing;
      sessions := sessions[id := sessions[id].(state := to)];
      if !IsOpen(to) {
        releasing := releasing + {id};
      }
    }

    // Gives a reservation back, if the record still holds it: a second release changes nothing.
    method ReleasePaths(record: Record, tempGone: bool) returns (released: bool)
      requires Valid() && (record.id in releasing || record.id !in Ids(held))
      requires forall r | r in held && r.id == record.id :: r.target == record.target && r.size == record.size
      modifies this
      ensures Valid() && sessions == old(sessions)
      ensures released <==> record.id in old(Ids(held))
      ensures Ids(held) == old(Ids(held)) - {record.id} && releasing == old(releasing) - {record.id}
      ensures activeUploads == old(activeUploads) - (if released then 1 else 0)
      ensures reservedBytes == old(reservedBytes) - (if released then record.size else 0)
      ensures !released ==> held == old(held) && targets == old(targets)
    {
      hide Apart, Table, Sizes, Holds;
      released := false;
      ghost var i := HolderOf(held, record);
      if record.target in targets && targets[record.target] == record.id {
        WithoutFacts(sessions, held, releasing, i);
        SizesWithout(held, i);
        targets := targets - {record.target};
        held := Without(held, i);
        releasing := releasing - {record.id};
        released := true;
      } else {
        ReleasingIsHeld(sessions, held, releasing);
      }
      if tempGone && record.temp in temps && temps[record.temp] == record.id {
        temps := temps - {record.temp};
      }
      if released {
        activeUploads := activeUploads - 1;
        reservedBytes := reservedBytes - record.size;
      }
    }

    // Drops a terminal session nobody can ask for any more.
    method Forget(id: Id)
      requires Valid() && id in sessions && !IsOpen(sessions[id].state)
      modifies this`sessions, this`requests, this`temps
      ensures Valid() && sessions == old(sessions) - {id}
    {
      hide Apart, Table, Sizes, Holds;
      ForgetKeeps(sessions, held, releasing, id);
      var record := sessions[id];
      sessions := sessions - {id};
      requests := map q | q in requests && requests[q] != id :: requests[q];
      if record.temp in temps && temps[record.temp] == id {
        temps := temps - {record.temp};
      }
    }

    // Enters a recovered record: an open one takes its reservation back.
    method Load(record: Record)
      requires Consistent() && record.id !in sessions && record.id !in Ids(held)
      requires IsOpen(record.state) ==> forall r | r in held :: !PathOverlaps(record.target, r.target)
      modifies this
      ensures Consistent() && releasing == old(releasing) && sessions == old(sessions)[record.id := record]
      ensures held == old(held) + if IsOpen(record.state) then [record] else []
    {
      hide Apart, Table, Sizes, Holds, PathOverlaps;
      if IsOpen(record.state) {
        TableOnlyHolds(held, record.target);
        Admit(record);
      } else {
        LoadKeeps(sessions, held, releasing, record);
        sessions := sessions[record.id := record];
        requests := requests[record.request := record.id];
      }
    }

    // What a crash can leave on disk of a session being created: its record, persisted
    // after the checks that admit it and before the session was entered.
    predicate Pending(record: Record)
      reads this
    {
      && record.state == Open && record.id !in sessions && !MutationConflicts(record.target)
      && activeUploads < maxSessions && record.size <= maxStaging - reservedBytes
    }

    // An open session on disk was open in memory, or was just being created.
    predicate Recorded(record: Record, pending: Option<Record>)
      reads this
    {
      || (record.id in sessions && IsOpen(sessions[record.id].state)
        && record.target == sessions[record.id].target && record.size == sessions[record.id].size)
      || (pending.Some? && record == pending.value)
    }

    // Restarting from the session records on disk gives every session that is still
    // open its reservation back, and no one else; the limits still hold.
    static method Restart(before: TransferStore, records: seq<Record>, pending: Option<Record>)
      returns (after: TransferStore)
      requires before.Valid() && before.releasing == {} && (pending.Some? ==> before.Pending(pending.value))
      requires forall i, j | 0 <= i < j < |records| :: records[i].id != records[j].id
      requires forall r | r in records && IsOpen(r.state) :: before.Recorded(r, pending)
      ensures after.Valid() && after.releasing == {} && fresh(after)
      ensures after.maxSessions == before.maxSessions && after.maxStaging == before.maxStaging
      ensures forall r :: r in after.held <==> r in records && IsOpen(r.state)
      ensures forall id :: id in after.sessions <==> exists k :: 0 <= k < |records| && records[k].id == id
      ensures forall k | 0 <= k < |records| ::
        records[k].id in after.sessions && after.sessions[records[k].id] == records[k]
    {
      hide Apart, Table, Sizes, PathOverlaps, Holds;
      after := new TransferStore(before.maxSessions, before.maxStaging);
      for i := 0 to |records|
        invariant after.Consistent() && after.releasing == {} && fresh(after) && before.Valid()
          && before.releasing == {}
        invariant after.maxSessions == before.maxSessions && after.maxStaging == before.maxStaging
        invariant forall r :: r in after.held <==> r in records[..i] && IsOpen(r.state)
        invariant forall id :: id in after.sessions <==> exists k :: 0 <= k < i && records[k].id == id
        invariant forall k | 0 <= k < i ::
          records[k].id in after.sessions && after.sessions[records[k].id] == records[k]
      {
        var record := records[i];
        assert records[..i + 1] == records[..i] + [record];
        forall r | r in after.held
          ensures r.id != record.id && (IsOpen(record.state) ==> !PathOverlaps(record.target, r.target))
        {
          var k :| 0 <= k < i && records[k] == r;
          if IsOpen(record.state) {
            RecordedApart(before, pending, record, r);
          }
        }
        after.Load(record);
      }
      assert records[..|records|] == records;
      RestartKeepsLimits(before, pending, after.held);
    }

    // Once no release is outstanding the reservations are exactly the open sessions.
    lemma ReservedAreOpenSessions()
      requires Valid() && releasing == {}
      ensures activeUploads == |set id | id in sessions && IsOpen(sessions[id].state)|
    {
      IdsCount(held);
      assert Ids(held) == set id | id in sessions && IsOpen(sessions[id].state);
    }
  }

  // Two open sessions found on disk never overlap.
  lemma RecordedApart(store: TransferStore, pending: Option<Record>, a: Record, b: Record)
    requires store.Valid() && store.releasing == {} && (pending.Some? ==> store.Pending(pending.value))
    requires IsOpen(a.state) && IsOpen(b.state) && a.id != b.id && store.Recorded(a, pending)
      && store.Recorded(b, pending)
    ensures !PathOverlaps(a.target, b.target)
  {
    hide Apart, Table, Sizes;
    if pending.Some? {
      PendingIsNew(store, pending.value);
    }
    if pending.Some? && a == pending.value {
      HeldTarget(store.sessions, store.held, store.releasing, b.id);
    } else if pending.Some? && b == pending.value {
      HeldTarget(store.sessions, store.held, store.releasing, a.id);
      OverlapIsMutual(a.target, b.target);
    } else {
      OpenSessionsApart(store.sessions, store.held, store.releasing, a.id, b.id);
    }
  }

  lemma PendingIsNew(store: TransferStore, record: Record)
    requires store.Valid() && store.releasing == {} && store.Pending(record)
    ensures record.id !in Ids(store.held) && forall r | r in store.held :: !PathOverlaps(record.target, r.target)
  {
    hide PathOverlaps, Table, Sizes;
    forall r | r in store.held
      ensures !PathOverlaps(record.target, r.target)
    {
      var i :| 0 <= i < |store.held| && store.held[i] == r;
      TableLists(store.held, i);
      assert r.target in store.targets;
    }
  }

  lemma OverlapIsMutual(a: Path, b: Path)
    ensures PathOverlaps(a, b) == PathOverlaps(b, a)
  {
  }

  lemma HeldTarget(sessions: map<Id, Record>, held: seq<Record>, releasing: set<Id>, id: Id)
    requires Holds(sessions, held, releasing) && id in sessions && IsOpen(sessions[id].state)
    ensures exists r :: r in held && r.id == id && r.target == sessions[id].target && r.size == sessions[id].size
  {
    var r :| r in held && r.id == id;
  }

  ghost predicate AmongHeld(r: Record, all: seq<Record>) {
    exists h :: h in all && h.id == r.id && h.size == r.size
  }

  // Reservations whose records are among others are no more and no larger.
  lemma {:induction false} SubHeld(part: seq<Record>, all: seq<Record>)
    requires Apart(part) && Apart(all)
    requires forall r | r in part :: AmongHeld(r, all)
    ensures |part| <= |all| && Sizes(part) <= Sizes(all)
    decreases |part|
  {
    hide PathOverlaps, Apart;
    if part != [] {
      var init, last := part[..|part| - 1], part[|part| - 1];
      assert last in part && AmongHeld(last, all);
      var h :| h in all && h.id == last.id && h.size == last.size;
      var i :| 0 <= i < |all| && all[i] == h;
      ApartPrefix(part);
      LastIsNew(part);
      ApartWithout(all, i);
      WithoutMembers(all, i);
      SizesWithout(all, i);
      forall r | r in init
        ensures AmongHeld(r, Without(all, i))
      {
        assert r in part && AmongHeld(r, all);
      }
      SubHeld(init, Without(all, i));
    }
  }

  lemma LastIsNew(held: seq<Record>)
    requires Apart(held) && held != []
    ensures forall r | r in held[..|held| - 1] :: r.id != held[|held| - 1].id
  {
  }

  lemma RestartKeepsLimits(store: TransferStore, pending: Option<Record>, held: seq<Record>)
    requires store.Valid() && store.releasing == {} && (pending.Some? ==> store.Pending(pending.value)) && Apart(held)
    requires forall r | r in held :: IsOpen(r.state) && store.Recorded(r, pending)
    ensures |held| <= store.maxSessions && Sizes(held) <= store.maxStaging
  {
    hide Apart, PathOverlaps, Table, Sizes;
    var all := store.held + if pending.Some? then [pending.value] else [];
    if pending.Some? {
      PendingIsNew(store, pending.value);
      PendingApart(store.held, pending.value);
      OneMoreHeld(store.held, pending.value);
    } else {
      assert all == store.held;
    }
    forall r | r in held
      ensures AmongHeld(r, all)
    {
      if pending.Some? && r == pending.value {
        assert r in all;
      } else {
        HeldTarget(store.sessions, store.held, store.releasing, r.id);
        var h :| h in store.held && h.id == r.id && h.size == r.size;
        assert h in all;
      }
    }
    SubHeld(held, all);
  }

  lemma PendingApart(held: seq<Record>, record: Record)
    requires Apart(held) && record.id !in Ids(held) && forall r | r in held :: !PathOverlaps(record.target, r.target)
    ensures Apart(held + [record])
  {
    hide PathOverlaps;
    forall i | 0 <= i < |held|
      ensures held[i].id != record.id && !PathOverlaps(held[i].target, record.target)
    {
      assert held[i] in held && held[i].id in Ids(held);
      OverlapIsMutual(held[i].target, record.target);
    }
  }

  lemma {:induction false} IdsCount(held: seq<Record>)
    requires Apart(held)
    ensures |Ids(held)| == |held|
  {
    if held != [] {
      var init, last := held[..|held| - 1], held[|held| - 1];
      IdsCount(init);
      assert Ids(held) == Ids(init) + {last.id};
      assert last.id !in Ids(init);
    }
  }

  lemma ReleasingIsHeld(sessions: map<Id, Record>, held: seq<Record>, releasing: set<Id>)
    requires Holds(sessions, held, releasing)
    ensures releasing <= Ids(held)
  {
  }

  lemma OneMoreHeld(held: seq<Record>, wanted: Record)
    ensures Table(held + [wanted]) == Table(held)[wanted.target := wanted.id]
    ensures Sizes(held + [wanted]) == Sizes(held) + wanted.size
  {
    assert (held + [wanted])[..|held|] == held;
  }

  lemma {:induction false} TableLists(held: seq<Record>, i: nat)
    requires Apart(held) && i < |held|
    ensures held[i].target in Table(held) && Table(held)[held[i].target] == held[i].id
  {
    if i < |held| - 1 {
      TableLists(held[..|held| - 1], i);
      assert !PathOverlaps(held[i].target, held[|held| - 1].target);
    }
  }

  lemma {:induction false} TableHasHolder(held: seq<Record>, p: Path) returns (i: nat)
    requires p in Table(held)
    ensures i < |held| && held[i].target == p && held[i].id == Table(held)[p]
  {
    if held[|held| - 1].target == p {
      i := |held| - 1;
    } else {
      i := TableHasHolder(held[..|held| - 1], p);
    }
  }

  lemma ApartFromAll(held: seq<Record>, wanted: Record)
    requires Apart(held) && wanted.id !in Ids(held)
    requires !exists p :: p in Table(held) && PathOverlaps(wanted.target, p)
    ensures Apart(held + [wanted])
  {
    hide Table;
    forall i | 0 <= i < |held|
      ensures held[i].id != wanted.id && !PathOverlaps(held[i].target, wanted.target)
    {
      TableLists(held, i);
      assert held[i] in held && held[i].id in Ids(held);
      assert !PathOverlaps(wanted.target, held[i].target);
    }
  }

  lemma HoldsMore(sessions: map<Id, Record>, held: seq<Record>, releasing: set<Id>, wanted: Record)
    requires Holds(sessions, held, releasing) && IsOpen(wanted.state)
    requires wanted.id !in sessions && wanted.id !in Ids(held)
    ensures Holds(sessions[wanted.id := wanted], held + [wanted], releasing)
  {
    assert Ids(held + [wanted]) == Ids(held) + {wanted.id};
  }

  // The table gives a reservation to a record exactly when the record holds it.
  lemma HolderOf(held: seq<Record>, record: Record) returns (i: nat)
    requires Apart(held)
    requires forall r | r in held && r.id == record.id :: r.target == record.target && r.size == record.size
    ensures record.target in Table(held) && Table(held)[record.target] == record.id <==> record.id in Ids(held)
    ensures record.id in Ids(held) ==>
      i < |held| && held[i].id == record.id && held[i].target == record.target && held[i].size == record.size
  {
    hide Table, Apart;
    i := 0;
    if record.target in Table(held) && Table(held)[record.target] == record.id {
      var k := TableHasHolder(held, record.target);
      assert held[k] in held;
    }
    if record.id in Ids(held) {
      var r :| r in held && r.id == record.id;
      i :| 0 <= i < |held| && held[i] == r;
      TableLists(held, i);
    }
  }

  lemma TableForgets(held: seq<Record>, n: nat)
    requires Apart(held) && n < |held|
    ensures held[n].target !in Table(held[..n])
  {
    hide Table;
    if held[n].target in Table(held[..n]) {
      var k := TableHasHolder(held[..n], held[n].target);
      assert false;
    }
  }

  lemma {:induction false} TableWithout(held: seq<Record>, i: nat)
    requires Apart(held) && i < |held|
    ensures Table(Without(held, i)) == Table(held) - {held[i].target}
  {
    hide PathOverlaps, Table, Apart;
    var init, last := held[..|held| - 1], held[|held| - 1];
    TableStep(held);
    if i == |init| {
      assert Without(held, i) == init;
      TableForgets(held, i);
      assert Table(init)[last.target := last.id] - {last.target} == Table(init);
    } else {
      ApartPrefix(held);
      TableWithout(init, i);
      assert Without(held, i)[..|held| - 2] == Without(init, i);
      DifferentTargets(held, i);
      TableStep(Without(held, i));
      SwapUpdate(Table(init), held[i].target, last.target, last.id);
    }
  }

  lemma TableStep(held: seq<Record>)
    requires held != []
    ensures Table(held) == Table(held[..|held| - 1])[held[|held| - 1].target := held[|held| - 1].id]
  {
  }

  lemma SwapUpdate(m: map<Path, Id>, drop: Path, p: Path, id: Id)
    requires drop != p
    ensures (m - {drop})[p := id] == m[p := id] - {drop}
  {
  }

  lemma ApartPrefix(held: seq<Record>)
    requires Apart(held) && held != []
    ensures Apart(held[..|held| - 1])
  {
  }

  lemma DifferentTargets(held: seq<Record>, i: nat)
    requires Apart(held) && i < |held| - 1
    ensures held[i].target != held[|held| - 1].target
  {
  }

  lemma WithoutMembers(held: seq<Record>, i: nat)
    requires Apart(held) && i < |held|
    ensures forall r :: r in Without(held, i) <==> r in held && r.id != held[i].id
  {
    hide PathOverlaps;
    var rest := Without(held, i);
    forall r | r in held && r.id != held[i].id
      ensures r in rest
    {
      var j :| 0 <= j < |held| && held[j] == r;
      assert if j < i then rest[j] == r else rest[j - 1] == r;
    }
    forall r | r in rest
      ensures r in held && r.id != held[i].id
    {
      var j :| 0 <= j < |rest| && rest[j] == r;
      assert r == if j < i then held[j] else held[j + 1];
    }
  }

  lemma ApartWithout(held: seq<Record>, i: nat)
    requires Apart(held) && i < |held|
    ensures Apart(Without(held, i))
  {
    hide PathOverlaps;
    var rest := Without(held, i);
    forall j, k | 0 <= j < k < |rest|
      ensures rest[j].id != rest[k].id && !PathOverlaps(rest[j].target, rest[k].target)
    {
      assert rest[j] == held[if j < i then j else j + 1] && rest[k] == held[if k < i then k else k + 1];
    }
  }

  lemma WithoutFacts(sessions: map<Id, Record>, held: seq<Record>, releasing: set<Id>, i: nat)
    requires Apart(held) && Holds(sessions, held, releasing) && i < |held| && held[i].id in releasing
    ensures Apart(Without(held, i)) && Table(Without(held, i)) == Table(held) - {held[i].target}
    ensures Ids(Without(held, i)) == Ids(held) - {held[i].id}
    ensures Holds(sessions, Without(held, i), releasing - {held[i].id})
  {
    hide PathOverlaps, Table, Apart, Without;
    TableWithout(held, i);
    ApartWithout(held, i);
    WithoutMembers(held, i);
    var rest := Without(held, i);
    assert Ids(rest) == Ids(held) - {held[i].id};
  }

  lemma ForgetKeeps(sessions: map<Id, Record>, held: seq<Record>, releasing: set<Id>, id: Id)
    requires Holds(sessions, held, releasing) && id in sessions && !IsOpen(sessions[id].state)
    ensures Holds(sessions - {id}, held, releasing)
  {
  }

  lemma ChangeKeeps(sessions: map<Id, Record>, held: seq<Record>, releasing: set<Id>, id: Id, to: SessionState)
    requires Holds(sessions, held, releasing) && id in sessions && IsOpen(sessions[id].state)
    ensures Holds(sessions[id := sessions[id].(state := to)], held, releasing + if IsOpen(to) then {} else {id})
  {
  }

  lemma LoadKeeps(sessions: map<Id, Record>, held: seq<Record>, releasing: set<Id>, record: Record)
    requires Holds(sessions, held, releasing) && !IsOpen(record.state)
    requires record.id !in sessions && record.id !in Ids(held)
    ensures Holds(sessions[record.id := record], held, releasing)
  {
  }

  lemma TableOnlyHolds(held: seq<Record>, target: Path)
    requires forall r | r in held :: !PathOverlaps(target, r.target)
    ensures forall p | p in Table(held) :: !PathOverlaps(target, p)
  {
    hide Table, PathOverlaps;
    forall p | p in Table(held)
      ensures !PathOverlaps(target, p)
    {
      var k := TableHasHolder(held, p);
      assert held[k] in held;
    }
  }

  lemma OpenSessionsApart(sessions: map<Id, Record>, held: seq<Record>, releasing: set<Id>, a: Id, b: Id)
    requires Holds(sessions, held, releasing) && Apart(held) && a != b
    requires a in sessions && IsOpen(sessions[a].state) && b in sessions && IsOpen(sessions[b].state)
    ensures !PathOverlaps(sessions[a].target, sessions[b].target)
  {
    var x :| x in held && x.id == a;
    var y :| y in held && y.id == b;
    var i :| 0 <= i < |held| && held[i] == x;
    var j :| 0 <= j < |held| && held[j] == y;
  }
}
