// Uploads from admission to release: what each way of ending a session does to the store,
// and what holds of the reservations over every run, restarts included.
module UploadRuns {
  import opened Options
  import U = UploadProtocol
  import S = UploadSession
  import opened UploadStore
  import opened UploadCleanup

  function OpenIds(sessions: map<Id, Record>): set<Id> {
    set id | id in sessions && IsOpen(sessions[id].state)
  }

  // ----- a session on disk and its entry in the store

  function StateOf(record: U.RecordState): SessionState {
    match record
    case Absent => Open
    case Open => Open
    case Finalizing => Finalizing
    case Complete => Complete
    case Failed => Failed
    case Aborted => Aborted
    case Expired => Expired
  }

  ghost predicate Linked(store: TransferStore, id: Id, session: S.Session)
    reads store, session
  {
    id in store.sessions && store.sessions[id].state == StateOf(session.state.record) && !session.state.record.Absent?
  }

  // What a reply leaves the session as.
  function Leaves(reply: S.Reply): SessionState {
    match reply
    case Completed => Complete
    case NotPublished => Failed
    case PublishedUnconfirmed => Finalizing
    case _ => Open
  }

  // Whether it gives the reservation back.
  predicate Gives(reply: S.Reply) { reply == S.Completed || reply == S.NotPublished }

  // Ends a transfer as its reply says.
  method EndTransfer(store: TransferStore, id: Id, reply: S.Reply, tempGone: bool)
    requires store.Valid() && store.releasing == {} && id in store.sessions && store.sessions[id].state == Open
    modifies store
    ensures store.Valid() && store.releasing == {}
    ensures store.sessions == old(store.sessions)[id := old(store.sessions)[id].(state := Leaves(reply))]
    ensures store.activeUploads == old(store.activeUploads) - (if Gives(reply) then 1 else 0)
    ensures store.reservedBytes == old(store.reservedBytes) - (if Gives(reply) then old(store.sessions)[id].size else 0)
  {
    hide store.Valid;
    var record := store.sessions[id];
    if Gives(reply) {
      EndSession(store, id, Leaves(reply), tempGone);
    } else {
      store.ChangeState(id, Leaves(reply));
    }
  }

  // A transfer: an upload that completes or fails gives its reservation back, any other
  // keeps it.
  method Transfer(store: TransferStore, id: Id, session: S.Session, overdue: bool,
      frames: seq<S.Frame>, end: S.StreamEnd, luck: S.Luck, tempGone: bool)
    returns (reply: S.Reply)
    requires store.Valid() && store.releasing == {} && session.Valid() && Linked(store, id, session)
      && session.state.phase == U.Idle
    modifies store, session
    ensures store.Valid() && store.releasing == {} && session.Valid() && Linked(store, id, session)
    ensures old(session.state).record != U.Open ==> reply == S.SessionNotOpen && store.sessions == old(store.sessions)
    ensures old(session.state).record == U.Open ==>
      store.sessions == old(store.sessions)[id := old(store.sessions)[id].(state := Leaves(reply))]
    ensures store.activeUploads == old(store.activeUploads) - (if Gives(reply) then 1 else 0)
    ensures store.reservedBytes == old(store.reservedBytes) - (if Gives(reply) then old(store.sessions)[id].size else 0)
  {
    hide store.Valid, U.Inv, U.Run, S.Judge, S.Carried, S.Finalized;
    var record := store.sessions[id];
    reply := session.TransferUpload(overdue, frames, end, luck);
    if record.state == Open {
      EndTransfer(store, id, reply, tempGone);
    }
  }

  // Resolving an interrupted finalization, when a session is asked for, aborted or swept.
  method Resolve(store: TransferStore, id: Id, session: S.Session, luck: S.Luck, tempGone: bool) returns (release: bool)
    requires store.Valid() && store.releasing == {} && session.Valid() && Linked(store, id, session)
      && session.state.phase == U.Idle
    modifies store, session
    ensures store.Valid() && store.releasing == {} && session.Valid() && Linked(store, id, session)
    ensures store.sessions
      == old(store.sessions)[id := old(store.sessions)[id].(state := StateOf(session.state.record))]
    ensures release <==> old(session.state).record == U.Finalizing && session.state.record == U.Complete
    ensures store.activeUploads == old(store.activeUploads) - (if release then 1 else 0)
  {
    hide store.Valid, U.Inv, U.Run, U.PublishedOk;
    var record := store.sessions[id];
    release := session.Reconcile(luck);
    if release {
      EndSession(store, id, Complete, tempGone);
    } else if record.state == Finalizing {
      store.ChangeState(id, StateOf(session.state.record));
    } else {
      assert store.sessions == store.sessions[id := record];
    }
  }

  // ----- steps of a workspace

  // One thing that happens to the uploads of a workspace. Restart finds records on disk,
  // one of them perhaps of a session whose creation the crash cut short.
  datatype Step =
    | Create(wanted: Record, valid: bool, stored: bool)
    | Finish(id: Id, reply: S.Reply, tempGone: bool)
    | Visit(id: Id, finding: Finding)
    | AbortUpload(id: Id, finding: Finding)
    | Cleanup(findings: map<Id, Finding>)
    | Reload(records: seq<Record>, pending: Option<Record>)

  // What of a store a step goes by: its limits, sessions and requests, the paths no new
  // upload may overlap, and the two counters.
  datatype Books = Books(maxSessions: nat, maxStaging: nat, sessions: map<Id, Record>, requests: map<string, Id>,
    reserved: set<Path>, uploads: int, bytes: int)
  {
    // Whether there is room for a session that has this record.
    predicate HasRoom(record: Record) {
      && record.id !in sessions && (forall p | p in reserved :: !PathOverlaps(record.target, p))
      && uploads < maxSessions && record.size <= maxStaging - bytes
    }
  }

  function BooksOf(store: TransferStore): Books
    reads store
  {
    Books(store.maxSessions, store.maxStaging, store.sessions, store.requests,
      store.targets.Keys + store.temps.Keys, store.activeUploads, store.reservedBytes)
  }

  predicate CanHappen(step: Step, b: Books) {
    match step
    case Create(wanted, _, _) => wanted.state == Open
    case Finish(id, _, _) => id in b.sessions && b.sessions[id].state == Open
    case Visit(id, _) => id in b.sessions
    case AbortUpload(id, _) => id in b.sessions
    case Cleanup(findings) => findings.Keys == b.sessions.Keys
    case Reload(records, pending) =>
      && (pending.Some? ==> pending.value.state == Open && b.HasRoom(pending.value))
      && (forall i, j | 0 <= i < j < |records| :: records[i].id != records[j].id)
      && (forall r | r in records && IsOpen(r.state) :: WasOpen(r, b.sessions) || (pending.Some? && r == pending.value))
  }

  predicate WasOpen(r: Record, sessions: map<Id, Record>) {
    && r.id in sessions && IsOpen(sessions[r.id].state)
    && r.target == sessions[r.id].target && r.size == sessions[r.id].size
  }

  function WithState(sessions: map<Id, Record>, id: Id, state: SessionState): map<Id, Record>
    requires id in sessions
  {
    sessions[id := sessions[id].(state := state)]
  }

  function WithFate(sessions: map<Id, Record>, id: Id, fate: Fate): map<Id, Record>
    requires id in sessions
  {
    if fate.Dropped? then sessions - {id} else WithState(sessions, id, fate.state)
  }

  // The sessions a step leaves.
  ghost function SessionsAfter(step: Step, b: Books): map<Id, Record> {
    if !CanHappen(step, b) then b.sessions
    else
      match step
      case Create(wanted, valid, stored) =>
        if wanted.request !in b.requests && valid && stored && b.HasRoom(wanted) then b.sessions[wanted.id := wanted]
        else b.sessions
      case Finish(id, reply, _) => WithState(b.sessions, id, Leaves(reply))
      case Visit(id, finding) => WithFate(b.sessions, id, FateOf(b.sessions[id].state, finding))
      case AbortUpload(id, finding) =>
        (match AbortOf(b.sessions[id].state, finding)
         case Settled(state) => WithState(b.sessions, id, state)
         case NotStored => WithState(b.sessions, id, Open)
         case _ => b.sessions)
      case Cleanup(findings) =>
        map id | id in b.sessions && FateOf(b.sessions[id].state, findings[id]).Stays? ::
          b.sessions[id].(state := FateOf(b.sessions[id].state, findings[id]).state)
      case Reload(records, _) =>
        map id | id in (set r | r in records :: r.id) :: RecordOf(records, id)
  }

  ghost function RecordOf(records: seq<Record>, id: Id): Record
    requires exists k :: 0 <= k < |records| && records[k].id == id
  {
    var k :| 0 <= k < |records| && records[k].id == id;
    records[k]
  }

  // Sessions a step may admit.
  ghost function Newcomers(step: Step): set<Id> {
    match step
    case Create(wanted, _, _) => {wanted.id}
    case Reload(_, pending) => if pending.Some? then {pending.value.id} else {}
    case _ => {}
  }

  lemma FateNeverReopens(state: SessionState, f: Finding)
    ensures FateOf(state, f).Stays? && IsOpen(FateOf(state, f).state) ==> IsOpen(state)
  {
  }

  // Nobody but its newcomers comes to hold a reservation by a step.
  lemma OnlyNewcomersOpen(step: Step, b: Books)
    ensures OpenIds(SessionsAfter(step, b)) <= OpenIds(b.sessions) + Newcomers(step)
  {
    hide FateOf, RecordOf;
    if CanHappen(step, b) {
      match step
      case Create(wanted, _, _) =>
      case Finish(id, _, _) =>
      case Visit(id, finding) => FateNeverReopens(b.sessions[id].state, finding);
      case AbortUpload(id, _) =>
      case Cleanup(findings) =>
        forall id | id in b.sessions {
          FateNeverReopens(b.sessions[id].state, findings[id]);
        }
      case Reload(records, pending) => ReloadOpens(step, b);
    }
  }

  lemma ReloadOpens(step: Step, b: Books)
    requires step.Reload? && CanHappen(step, b)
    ensures OpenIds(SessionsAfter(step, b)) <= OpenIds(b.sessions) + Newcomers(step)
  {
    forall id | id in OpenIds(SessionsAfter(step, b))
      ensures id in OpenIds(b.sessions) + Newcomers(step)
    {
      assert RecordOf(step.records, id) in step.records;
    }
  }

  // ----- performing a step

  lemma OpenAreHeld(store: TransferStore)
    requires store.Valid() && store.releasing == {}
    ensures Ids(store.held) == OpenIds(store.sessions) && store.activeUploads == |OpenIds(store.sessions)|
    ensures OpenIds(store.sessions) <= store.sessions.Keys
  {
    hide Apart, Table, Sizes;
    store.ReservedAreOpenSessions();
    assert OpenIds(store.sessions) == set id | id in store.sessions && IsOpen(store.sessions[id].state);
  }

  lemma ConflictsAlike(store: TransferStore, target: Path)
    ensures store.MutationConflicts(target) <==> exists p :: p in BooksOf(store).reserved && PathOverlaps(target, p)
  {
    hide PathOverlaps;
  }

  method PerformCreate(store: TransferStore, wanted: Record, valid: bool, stored: bool)
    requires store.Valid() && store.releasing == {} && wanted.state == Open
    modifies store
    ensures store.Valid() && store.releasing == {}
    ensures store.sessions == old(SessionsAfter(Create(wanted, valid, stored), BooksOf(store)))
  {
    hide store.Valid, PathOverlaps, OpenIds;
    OpenAreHeld(store);
    ConflictsAlike(store, wanted.target);
    var result := store.Create(wanted, valid, stored);
  }

  method PerformReload(store: TransferStore, records: seq<Record>,
      pending: Option<Record>) returns (after: TransferStore)
    requires store.Valid() && store.releasing == {} && CanHappen(Reload(records, pending), BooksOf(store))
    ensures after.Valid() && after.releasing == {} && fresh(after)
    ensures after.maxSessions == store.maxSessions && after.maxStaging == store.maxStaging
    ensures after.sessions == SessionsAfter(Reload(records, pending), BooksOf(store))
  {
    hide TransferStore.Consistent, PathOverlaps;
    if pending.Some? {
      ConflictsAlike(store, pending.value.target);
    }
    after := TransferStore.Restart(store, records, pending);
    SameRecords(records, after.sessions);
  }

  lemma SameRecords(records: seq<Record>, sessions: map<Id, Record>)
    requires forall i, j | 0 <= i < j < |records| :: records[i].id != records[j].id
    requires forall id :: id in sessions <==> exists k :: 0 <= k < |records| && records[k].id == id
    requires forall k | 0 <= k < |records| :: records[k].id in sessions && sessions[records[k].id] == records[k]
    ensures sessions == map id | id in (set r | r in records :: r.id) :: RecordOf(records, id)
  {
    var other := map id | id in (set r | r in records :: r.id) :: RecordOf(records, id);
    forall id
      ensures id in sessions <==> id in other
      ensures id in sessions ==> sessions[id] == other[id]
    {
      if id in sessions {
        var k :| 0 <= k < |records| && records[k].id == id;
        assert records[k] in records;
      }
    }
  }

  lemma SameFates(before: map<Id, Record>, after: map<Id, Record>, findings: map<Id, Finding>)
    requires findings.Keys == before.Keys && after.Keys <= before.Keys
    requires forall id | id in before :: var r := before[id];
      match FateOf(r.state, findings[id])
      case Dropped => id !in after
      case Stays(state) => id in after && after[id] == r.(state := state)
    ensures after == map id | id in before && FateOf(before[id].state, findings[id]).Stays? ::
      before[id].(state := FateOf(before[id].state, findings[id]).state)
  {
    hide FateOf;
  }

  // Performs a step, if it can happen here.
  method Apply(store: TransferStore, step: Step) returns (after: TransferStore)
    requires store.Valid() && store.releasing == {}
    modifies store
    ensures after.Valid() && after.releasing == {} && (after == store || fresh(after))
    ensures after.maxSessions == store.maxSessions && after.maxStaging == store.maxStaging
    ensures after.sessions == old(SessionsAfter(step, BooksOf(store)))
  {
    hide store.Valid, FateOf, OpenIds, Leaves, AbortOf, RecordOf;
    after := store;
    ghost var before := store.sessions;
    if CanHappen(step, BooksOf(store)) {
      match step {
        case Create(wanted, valid, stored) => PerformCreate(store, wanted, valid, stored);
        case Finish(id, reply, tempGone) => EndTransfer(store, id, reply, tempGone);
        case Visit(id, finding) => CleanOne(store, id, finding);
        case AbortUpload(id, finding) => var _ := Abort(store, id, finding);
        case Cleanup(findings) =>
          CleanupExpired(store, findings);
          SameFates(before, store.sessions, findings);
        case Reload(records, pending) => after := PerformReload(store, records, pending);
      }
    }
  }

  // ----- whole runs

  // The bytes reserved are those of the open sessions.
  ghost predicate Reserves(sessions: map<Id, Record>, bytes: int) {
    exists held :: Lists(held, sessions) && bytes == Sizes(held)
  }

  // Each open session once, with its size.
  ghost predicate Lists(held: seq<Record>, sessions: map<Id, Record>) {
    && (forall i, j | 0 <= i < j < |held| :: held[i].id != held[j].id)
    && (forall r | r in held :: r.id in OpenIds(sessions) && r.size == sessions[r.id].size)
    && OpenIds(sessions) <= Ids(held)
  }

  ghost predicate TargetsApart(sessions: map<Id, Record>) {
    forall a, b | a in OpenIds(sessions) && b in OpenIds(sessions) && a != b ::
      !PathOverlaps(sessions[a].target, sessions[b].target)
  }

  // What holds of the books at any time.
  ghost predicate Sound(b: Books) {
    && b.uploads == |OpenIds(b.sessions)| <= b.maxSessions
    && Reserves(b.sessions, b.bytes) && b.bytes <= b.maxStaging
    && TargetsApart(b.sessions)
  }

  lemma BooksAreSound(store: TransferStore)
    requires store.Valid() && store.releasing == {}
    ensures Sound(BooksOf(store))
  {
    hide Table, Sizes, PathOverlaps;
    OpenAreHeld(store);
    assert Lists(store.held, store.sessions);
    forall a, b | a in OpenIds(store.sessions) && b in OpenIds(store.sessions) && a != b
      ensures !PathOverlaps(store.sessions[a].target, store.sessions[b].target)
    {
      OpenSessionsApart(store.sessions, store.held, store.releasing, a, b);
    }
  }

  // The books before the first step and after each.
  ghost predicate RunOf(trace: seq<Books>, steps: seq<Step>) {
    && |trace| == |steps| + 1 && trace[0].sessions == map[]
    && forall i | 0 <= i < |steps| :: trace[i + 1].sessions == SessionsAfter(steps[i], trace[i])
  }

  ghost function OpenAt(trace: seq<Books>, i: nat): set<Id>
    requires i < |trace|
  {
    OpenIds(trace[i].sessions)
  }

  // The sessions whose reservation a step gave back.
  ghost function Releases(trace: seq<Books>, i: nat): set<Id>
    requires i + 1 < |trace|
  {
    OpenAt(trace, i) - OpenAt(trace, i + 1)
  }

  // Session names are never used twice.
  ghost predicate FreshNames(steps: seq<Step>) {
    forall i, j | 0 <= i < j < |steps| :: Newcomers(steps[i]) !! Newcomers(steps[j])
  }

  // An open session was admitted by some step.
  lemma {:induction false} AdmittedBy(trace: seq<Books>, steps: seq<Step>, i: nat, id: Id) returns (o: nat)
    requires RunOf(trace, steps) && i < |trace| && id in OpenAt(trace, i)
    ensures o < i && id in Newcomers(steps[o])
  {
    hide SessionsAfter, Newcomers;
    OnlyNewcomersOpen(steps[i - 1], trace[i - 1]);
    if id in Newcomers(steps[i - 1]) {
      o := i - 1;
    } else {
      o := AdmittedBy(trace, steps, i - 1, id);
    }
  }

  // A session that is no longer open never is again.
  lemma {:induction false} NeverReopens(trace: seq<Books>, steps: seq<Step>, i: nat, j: nat, k: nat, id: Id)
    requires RunOf(trace, steps) && FreshNames(steps) && i < j <= k < |trace|
    requires id in OpenAt(trace, i) && id !in OpenAt(trace, j)
    ensures id !in OpenAt(trace, k)
  {
    hide SessionsAfter, Newcomers, OpenIds;
    if j < k {
      NeverReopens(trace, steps, i, j, k - 1, id);
      var o := AdmittedBy(trace, steps, i, id);
      assert Newcomers(steps[o]) !! Newcomers(steps[k - 1]);
      OnlyNewcomersOpen(steps[k - 1], trace[k - 1]);
    }
  }

  // No two steps give back the reservation of one session.
  lemma ReleasedOnce(trace: seq<Books>, steps: seq<Step>, i: nat, j: nat)
    requires RunOf(trace, steps) && FreshNames(steps) && i < j < |steps|
    ensures Releases(trace, i) !! Releases(trace, j)
  {
    hide OpenIds, SessionsAfter;
    forall id | id in Releases(trace, i)
      ensures id !in Releases(trace, j)
    {
      NeverReopens(trace, steps, i, i + 1, j, id);
    }
  }

  // Over every run both counters match the open sessions and stay within their limits, open
  // targets never overlap, and no session gives its reservation back twice. `trace` is what
  // the store's books were before the first step and after each.
  method Run(maxSessions: nat, maxStaging: nat, steps: seq<Step>) returns (store: TransferStore,
      ghost trace: seq<Books>)
    requires FreshNames(steps)
    ensures store.Valid() && RunOf(trace, steps) && trace[|steps|] == BooksOf(store)
    ensures forall i | 0 <= i <= |steps| ::
      Sound(trace[i]) && trace[i].maxSessions == maxSessions && trace[i].maxStaging == maxStaging
    ensures forall i, j | 0 <= i < j < |steps| :: Releases(trace, i) !! Releases(trace, j)
    ensures forall i, j, k, id | 0 <= i < j < k <= |steps| && id in OpenAt(trace, i) && id !in OpenAt(trace, j) ::
      id !in OpenAt(trace, k)
  {
    hide TransferStore.Consistent, OpenIds, Sound, SessionsAfter, Releases;
    store := new TransferStore(maxSessions, maxStaging);
    BooksAreSound(store);
    trace := [BooksOf(store)];
    for i := 0 to |steps|
      invariant fresh(store) && store.Valid() && store.releasing == {}
      invariant |trace| == i + 1 && trace[i] == BooksOf(store) && trace[0].sessions == map[]
      invariant forall j | 0 <= j < i :: trace[j + 1].sessions == SessionsAfter(steps[j], trace[j])
      invariant forall j | 0 <= j <= i ::
        Sound(trace[j]) && trace[j].maxSessions == maxSessions && trace[j].maxStaging == maxStaging
    {
      store := Apply(store, steps[i]);
      BooksAreSound(store);
      trace := trace + [BooksOf(store)];
    }
    forall i, j | 0 <= i < j < |steps|
      ensures Releases(trace, i) !! Releases(trace, j)
    {
      ReleasedOnce(trace, steps, i, j);
    }
    forall i, j, k, id | 0 <= i < j < k <= |steps| && id in OpenAt(trace, i) && id !in OpenAt(trace, j)
      ensures id !in OpenAt(trace, k)
    {
      NeverReopens(trace, steps, i, j, k, id);
    }
  }
}
