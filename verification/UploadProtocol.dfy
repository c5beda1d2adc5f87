// The life of one resumable upload on disk, one durable or volatile effect a step,
// with a crash possible between any two.
module UploadProtocol {
  import opened Bytes
  import opened Options

  datatype File = File(bytes: seq<byte>, mode: nat)

  // What the client declared, the digest function, and the target before the upload.
  datatype Upload = Upload(
    size: nat, digest: nat, mode: nat, overwrite: bool, hash: seq<byte> -> nat, before: Option<File>)
  {
    predicate Matches(f: File) { |f.bytes| == size && hash(f.bytes) == digest && f.mode == mode }
  }

  datatype RecordState = Absent | Open | Finalizing | Complete | Failed | Aborted | Expired

  // Where the target's name leads: to what was there before, or to the staged file.
  datatype Target = Before | Staged
  datatype Names = Names(temp: bool, target: Target)

  // The staged file. A crash keeps bytes[..safe] and, unless the file is clean
  // (synced and not touched since), may change anything after it.
  datatype Inode = Inode(bytes: seq<byte>, safe: nat, clean: bool, mode: nat, safeMode: nat)

  // What the controller is in the middle of; Down is after a crash.
  datatype Phase =
    | Fresh
    | RecordCreated
    | TempCreated
    | Idle
    | Down
    | Receiving(received: seq<byte>)
    | Synced(received: seq<byte>)
    | Verifying
    | Verified
    | ModeSet
    | FileSynced
    | TargetChecked
    | Linked
    | Published
    | PublishedSynced
    | Resolved         // the published target was verified and the temporary name is gone
    | ResolvedSynced
    | Terminated       // a terminal state other than COMPLETE was persisted

  // names lists the directory states a crash may leave, the current one last.
  datatype State = State(
    phase: Phase, record: RecordState, committed: nat, names: seq<Names>, inode: Inode,
    stream: seq<byte>)  // the client bytes accepted below the committed offset

  datatype Action =
    | CreateRecord | CreateTemp | SyncCreation
    | OpenTransfer
    | Chunk(offset: nat, data: seq<byte>)
    | TornChunk(written: seq<byte>)
    | SyncData | PersistCheckpoint
    | Disconnect
    | PersistFinalizing
    | Verify | SetMode | SyncFile | CheckTarget(free: bool)
    | Publish | RemoveTemp | SyncDirectory | PersistComplete
    | Fail
    | GiveUp
    | Abort | Expire | RemoveTerminalTemp
    | Resolve | SyncResolved | PersistResolved
    | Recover
    | Crash(keep: nat, bytes: seq<byte>, newMode: bool)

  function Initial(): State {
    State(Fresh, Absent, 0, [Names(false, Before)], Inode([], 0, false, 0, 0), [])
  }

  function Now(s: State): Names
    requires s.names != []
  {
    s.names[|s.names| - 1]
  }

  function TargetFile(u: Upload, s: State, n: Names): Option<File> {
    if n.target == Staged then Some(File(s.inode.bytes, s.inode.mode)) else u.before
  }

  // The target as it stands has the declared size, digest and mode.
  predicate PublishedOk(u: Upload, s: State)
    requires s.names != []
  {
    TargetFile(u, s, Now(s)).Some? && u.Matches(TargetFile(u, s, Now(s)).value)
  }

  function Rename(s: State, n: Names): State {
    s.(names := s.names + [n])
  }

  function SyncNames(s: State): State
    requires s.names != []
  {
    s.(names := [Now(s)])
  }

  function Extend(i: Inode, data: seq<byte>): Inode {
    i.(bytes := i.bytes + data, clean := false)
  }

  function Cut(i: Inode, n: nat): Inode {
    if n < |i.bytes| then i.(bytes := i.bytes[..n], safe := if n < i.safe then n else i.safe, clean := false) else i
  }

  // ----- creating a session

  function CreateStep(s: State, a: Action): Option<State>
    requires s.names != []
  {
    match a
    case CreateRecord => if s.phase.Fresh? then Some(s.(phase := RecordCreated, record := Open)) else None
    case CreateTemp =>
      if s.phase.RecordCreated? then Some(Rename(s.(phase := TempCreated), Now(s).(temp := true))) else None
    case SyncCreation => if s.phase.TempCreated? then Some(SyncNames(s).(phase := Idle)) else None
    case _ => None
  }

  // ----- receiving data

  function TransferStep(u: Upload, s: State, a: Action): Option<State>
    requires s.names != []
  {
    match a
    case OpenTransfer =>
      if !(s.phase.Idle? && s.record.Open?) then None
      else if !Now(s).temp then Some(s)                        // opening the file fails
      else if |s.inode.bytes| < s.committed then Some(s.(phase := Terminated, record := Failed))
      else var cut := Cut(s.inode, s.committed);
        Some(s.(phase := Receiving(cut.bytes), inode := cut))
    case Chunk(offset, data) =>
      if !s.phase.Receiving? then None
      else if data == [] || offset != |s.phase.received|
        || |s.phase.received| + |data| > u.size then Some(s.(phase := Idle))
      else Some(s.(phase := Receiving(s.phase.received + data), inode := Extend(s.inode, data)))
    case TornChunk(written) =>
      if s.phase.Receiving? then Some(s.(phase := Idle, inode := Extend(s.inode, written))) else None
    case SyncData =>
      if s.phase.Receiving? && |s.phase.received| != s.committed
      then Some(s.(phase := Synced(s.phase.received), inode := s.inode.(safe := |s.inode.bytes|, clean := true)))
        else None
    case PersistCheckpoint =>
      if s.phase.Synced?
      then Some(s.(phase := Receiving(s.phase.received), committed := |s.phase.received|, stream := s.phase.received))
      else None
    case Disconnect => if s.phase.Receiving? || s.phase.Synced? then Some(s.(phase := Idle)) else None
    case PersistFinalizing =>
      if s.phase.Receiving? && |s.phase.received| == u.size && s.committed == u.size
      then Some(s.(phase := Verifying, record := Finalizing)) else None
    case _ => None
  }

  // ----- finalizing

  function FinalizeStep(u: Upload, s: State, a: Action): Option<State>
    requires s.names != []
  {
    match a
    case Verify =>
      if !s.phase.Verifying? then None
      else if |s.inode.bytes| == u.size && u.hash(s.inode.bytes) == u.digest then Some(s.(phase := Verified))
      else Some(s.(phase := Terminated, record := Failed))
    case SetMode => if s.phase.Verified? then Some(s.(phase := ModeSet, inode := s.inode.(mode := u.mode))) else None
    case SyncFile =>
      if s.phase.ModeSet?
      then Some(s.(phase := FileSynced,
          inode := s.inode.(safe := |s.inode.bytes|, clean := true, safeMode := s.inode.mode))) else None
    case CheckTarget(free) =>
      if !s.phase.FileSynced? then None
      else if free then Some(s.(phase := TargetChecked)) else Some(s.(phase := Terminated, record := Failed))
    case Publish =>
      if !s.phase.TargetChecked? then None
      else if u.overwrite then Some(Rename(s.(phase := Published), Names(false, Staged)))
      else Some(Rename(s.(phase := Linked), Names(true, Staged)))
    case RemoveTemp => if s.phase.Linked? then Some(Rename(s.(phase := Published), Now(s).(temp := false))) else None
    case SyncDirectory => if s.phase.Published? then Some(SyncNames(s).(phase := PublishedSynced)) else None
    case PersistComplete => if s.phase.PublishedSynced? then Some(s.(phase := Idle, record := Complete)) else None
    case Fail =>
      // any error after FINALIZING was persisted and before the target was published
      if s.phase.Verifying? || s.phase.Verified? || s.phase.ModeSet? || s.phase.FileSynced? || s.phase.TargetChecked?
      then Some(s.(phase := Terminated, record := Failed)) else None
    case GiveUp =>
      // any error after it was published
      if s.phase.Linked? || s.phase.Published? || s.phase.PublishedSynced? || s.phase.Resolved?
        || s.phase.ResolvedSynced?
      then Some(s.(phase := Idle)) else None
    case _ => None
  }

  // ----- abort, expiry, and resolving an interrupted finalization

  function ResolveStep(u: Upload, s: State, a: Action): Option<State>
    requires s.names != []
  {
    match a
    case Abort => if s.phase.Idle? && s.record.Open? then Some(s.(phase := Terminated, record := Aborted)) else None
    case Expire => if s.phase.Idle? && s.record.Open? then Some(s.(phase := Terminated, record := Expired)) else None
    case RemoveTerminalTemp =>
      if s.phase.Terminated? then Some(SyncNames(Rename(s, Now(s).(temp := false))).(phase := Idle)) else None
    case Resolve =>
      if !(s.phase.Idle? && s.record.Finalizing?) then None
      else if PublishedOk(u, s) then
        Some((if Now(s).temp then Rename(s, Now(s).(temp := false)) else s).(phase := Resolved))
      else if Now(s).temp then Some(s.(record := Open))
      else Some(s.(record := Failed))
    case SyncResolved => if s.phase.Resolved? then Some(SyncNames(s).(phase := ResolvedSynced)) else None
    case PersistResolved => if s.phase.ResolvedSynced? then Some(s.(phase := Idle, record := Complete)) else None
    case _ => None
  }

  // Loading the session after a restart.
  function RecoverStep(u: Upload, s: State): Option<State>
    requires s.names != []
  {
    if !s.phase.Down? then None
    else if s.record.Absent? then Some(s.(phase := Fresh))
    else if !s.record.Open? && !s.record.Finalizing? then Some(s.(phase := Terminated))
    else if !Now(s).temp then
      if s.record.Finalizing? && PublishedOk(u, s) then Some(s.(phase := Resolved))
        else Some(s.(phase := Idle, record := Failed))
    else if |s.inode.bytes| < s.committed then Some(s.(phase := Idle, record := Failed))
    else if s.record.Finalizing? && PublishedOk(u, s) then Some(Rename(s.(phase := Resolved), Now(s).(temp := false)))
    else Some(s.(phase := Idle, record := Open, inode := Cut(s.inode, s.committed)))
  }

  function CrashStep(s: State, keep: nat, bytes: seq<byte>, newMode: bool): Option<State> {
    if s.phase.Down? || |s.names| <= keep || s.inode.safe > |bytes| || s.inode.safe > |s.inode.bytes|
       || bytes[..s.inode.safe] != s.inode.bytes[..s.inode.safe] || (s.inode.clean && bytes != s.inode.bytes)
    then None
    else
      var mode := if newMode then s.inode.mode else s.inode.safeMode;
      Some(s.(phase := Down, names := [s.names[keep]], inode := Inode(bytes, |bytes|, true, mode, mode)))
  }

  function Step(u: Upload, s: State, a: Action): Option<State>
    requires s.names != []
  {
    match a
    case CreateRecord | CreateTemp | SyncCreation => CreateStep(s, a)
    case OpenTransfer | Chunk(_, _) | TornChunk(_) | SyncData | PersistCheckpoint | Disconnect | PersistFinalizing =>
      TransferStep(u, s, a)
    case Abort | Expire | RemoveTerminalTemp | Resolve | SyncResolved | PersistResolved => ResolveStep(u, s, a)
    case Recover => RecoverStep(u, s)
    case Crash(keep, bytes, newMode) => CrashStep(s, keep, bytes, newMode)
    case _ => FinalizeStep(u, s, a)
  }

  // ----- what every run keeps

  // The staged file is verified, has its mode, and a crash cannot change it.
  ghost predicate Sealed(u: Upload, s: State) {
    u.Matches(File(s.inode.bytes, s.inode.mode)) && s.inode.clean && s.inode.safeMode == s.inode.mode
  }

  ghost predicate AllNames(s: State, n: Names) {
    forall m | m in s.names :: m == n
  }

  // What the record's state says about every directory state a crash may leave.
  ghost predicate NamesOk(u: Upload, s: State) {
    forall n | n in s.names ::
      && (n.target == Staged ==> Sealed(u, s) && (s.record.Finalizing? || s.record.Complete?))
      && (s.record.Absent? ==> n == Names(false, Before))
      && (s.record.Open? && !n.temp ==> s.phase.RecordCreated? || s.phase.TempCreated? || s.phase.Down?)
      && (s.record.Finalizing? && !n.temp ==> TargetFile(u, s, n).Some? && u.Matches(TargetFile(u, s, n).value))
      && (s.record.Complete? ==> TargetFile(u, s, n).Some? && u.Matches(TargetFile(u, s, n).value))
  }

  ghost predicate PhaseOk(u: Upload, s: State)
    requires s.names != []
  {
    match s.phase
    case Fresh => s.record.Absent?
    case RecordCreated => s.record.Open? && s.committed == 0 && AllNames(s, Names(false, Before))
    case TempCreated => s.record.Open? && s.committed == 0 && Now(s) == Names(true, Before)
    case Idle => !s.record.Absent?
    case Down => |s.names| == 1
    case Receiving(r) => s.record.Open? && s.inode.bytes == r && s.committed <= |r| <= u.size
    case Synced(r) => s.record.Open? && s.inode.bytes == r && s.committed <= |r| <= u.size && s.inode.safe == |r|
    case Verifying => s.record.Finalizing? && AllNames(s, Names(true, Before)) && s.inode.bytes == s.stream
    case Verified =>
      && s.record.Finalizing? && AllNames(s, Names(true, Before)) && s.inode.bytes == s.stream
      && u.hash(s.inode.bytes) == u.digest
    case ModeSet =>
      && s.record.Finalizing? && AllNames(s, Names(true, Before)) && s.inode.bytes == s.stream
      && u.hash(s.inode.bytes) == u.digest && s.inode.mode == u.mode
    case FileSynced => s.record.Finalizing? && AllNames(s, Names(true, Before)) && Sealed(u, s)
    case TargetChecked => s.record.Finalizing? && AllNames(s, Names(true, Before)) && Sealed(u, s)
    case Linked => s.record.Finalizing? && Now(s) == Names(true, Staged)
    case Published => s.record.Finalizing? && Now(s) == Names(false, Staged)
    case PublishedSynced => s.record.Finalizing? && s.names == [Names(false, Staged)]
    case Resolved => s.record.Finalizing? && !Now(s).temp
    case ResolvedSynced => s.record.Finalizing? && |s.names| == 1 && !Now(s).temp
    case Terminated => s.record.Failed? || s.record.Aborted? || s.record.Expired? || s.record.Complete?
  }

  ghost predicate Inv(u: Upload, s: State) {
    && s.names != []
    && s.inode.safe <= |s.inode.bytes| && (s.inode.clean ==> s.inode.safe == |s.inode.bytes|)
    && |s.stream| == s.committed <= u.size
    && (s.record.Absent? ==> s.committed == 0)
    && (s.record.Open? || s.record.Finalizing? || s.record.Complete? ==>
          s.committed <= s.inode.safe && s.inode.bytes[..s.committed] == s.stream)
    && (s.record.Finalizing? || s.record.Complete? ==> s.committed == u.size)
    && (Now(s).target == Before ==> forall n | n in s.names :: n.target == Before)
    && (s.record.Open? && (exists n | n in s.names :: !n.temp) ==> s.committed == 0)
    && NamesOk(u, s)
    && PhaseOk(u, s)
  }

  lemma InitialInv(u: Upload)
    ensures Inv(u, Initial())
  {
  }

  lemma CreateKeeps(u: Upload, s: State, a: Action)
    requires Inv(u, s) && CreateStep(s, a).Some?
    ensures Inv(u, CreateStep(s, a).value)
  {
  }

  lemma OpenKeeps(u: Upload, s: State)
    requires Inv(u, s) && TransferStep(u, s, OpenTransfer).Some?
    ensures Inv(u, TransferStep(u, s, OpenTransfer).value)
  {
    hide Sealed;
  }

  lemma FinalizingKeeps(u: Upload, s: State)
    requires Inv(u, s) && TransferStep(u, s, PersistFinalizing).Some?
    ensures Inv(u, TransferStep(u, s, PersistFinalizing).value)
  {
    hide Sealed;
  }

  lemma ReceiveKeeps(u: Upload, s: State, a: Action)
    requires Inv(u, s) && TransferStep(u, s, a).Some? && !a.OpenTransfer? && !a.PersistFinalizing?
    ensures Inv(u, TransferStep(u, s, a).value)
  {
    hide Sealed, TargetFile;
  }

  lemma TransferKeeps(u: Upload, s: State, a: Action)
    requires Inv(u, s) && TransferStep(u, s, a).Some?
    ensures Inv(u, TransferStep(u, s, a).value)
  {
    hide Inv;
    if a.OpenTransfer? {
      OpenKeeps(u, s);
    } else if a.PersistFinalizing? {
      FinalizingKeeps(u, s);
    } else {
      ReceiveKeeps(u, s, a);
    }
  }

  lemma RenameAdds(s: State, n: Names)
    ensures Now(Rename(s, n)) == n && forall m :: m in Rename(s, n).names <==> m in s.names || m == n
  {
  }

  lemma FailKeeps(u: Upload, s: State)
    requires Inv(u, s) && s.record.Finalizing? && AllNames(s, Names(true, Before))
    ensures Inv(u, s.(phase := Terminated, record := Failed))
  {
    hide Sealed;
  }

  lemma ModeKeeps(u: Upload, s: State)
    requires Inv(u, s) && s.phase.Verified?
    ensures Inv(u, s.(phase := ModeSet, inode := s.inode.(mode := u.mode)))
  {
    hide Sealed;
  }

  lemma SyncFileKeeps(u: Upload, s: State)
    requires Inv(u, s) && s.phase.ModeSet?
    ensures Inv(u, s.(phase := FileSynced,
        inode := s.inode.(safe := |s.inode.bytes|, clean := true, safeMode := s.inode.mode)))
  {
  }

  lemma PassedKeeps(u: Upload, s: State, a: Action)
    requires Inv(u, s) && FinalizeStep(u, s, a).Some? && (a.Verify? || a.CheckTarget?)
    requires FinalizeStep(u, s, a).value.record.Finalizing?
    ensures Inv(u, FinalizeStep(u, s, a).value)
  {
  }

  // Until the target is published every failure finds only the staged name.
  lemma PreparingFacts(u: Upload, s: State, a: Action)
    requires Inv(u, s) && FinalizeStep(u, s, a).Some? && (a.Verify? || a.CheckTarget? || a.Fail?)
    ensures s.names != [] && s.record.Finalizing? && AllNames(s, Names(true, Before))
    ensures var t := FinalizeStep(u, s, a).value;
      t == s.(phase := Terminated, record := Failed) || (t.record.Finalizing? && !a.Fail?)
  {
    hide Sealed, NamesOk;
  }

  lemma PrepareKeeps(u: Upload, s: State, a: Action)
    requires Inv(u, s) && FinalizeStep(u, s, a).Some?
    requires a.Verify? || a.SetMode? || a.SyncFile? || a.CheckTarget? || a.Fail?
    ensures Inv(u, FinalizeStep(u, s, a).value)
  {
    hide Inv, AllNames;
    if a.SetMode? {
      ModeKeeps(u, s);
    } else if a.SyncFile? {
      SyncFileKeeps(u, s);
    } else {
      PreparingFacts(u, s, a);
      var t := FinalizeStep(u, s, a).value;
      if t == s.(phase := Terminated, record := Failed) {
        FailKeeps(u, s);
      } else {
        PassedKeeps(u, s, a);
      }
    }
  }

  lemma PublishKeeps(u: Upload, s: State, a: Action)
    requires Inv(u, s) && FinalizeStep(u, s, a).Some?
    requires a.Publish? || a.RemoveTemp?
    ensures Inv(u, FinalizeStep(u, s, a).value)
  {
    var n := if a.RemoveTemp? then Now(s).(temp := false) else Names(!u.overwrite, Staged);
    var p := if a.Publish? && !u.overwrite then Linked else Published;
    RenameAdds(s.(phase := p), n);
    hide Rename;
  }

  lemma PublishedKeeps(u: Upload, s: State, a: Action)
    requires Inv(u, s) && FinalizeStep(u, s, a).Some?
    requires a.SyncDirectory? || a.PersistComplete? || a.GiveUp?
    ensures Inv(u, FinalizeStep(u, s, a).value)
  {
  }

  lemma FinalizeKeeps(u: Upload, s: State, a: Action)
    requires Inv(u, s) && FinalizeStep(u, s, a).Some?
    ensures Inv(u, FinalizeStep(u, s, a).value)
  {
    hide Inv;
    if a.Publish? || a.RemoveTemp? {
      PublishKeeps(u, s, a);
    } else if a.SyncDirectory? || a.PersistComplete? || a.GiveUp? {
      PublishedKeeps(u, s, a);
    } else {
      PrepareKeeps(u, s, a);
    }
  }

  lemma TerminateKeeps(u: Upload, s: State, a: Action)
    requires Inv(u, s) && ResolveStep(u, s, a).Some?
    requires a.Abort? || a.Expire? || a.RemoveTerminalTemp?
    ensures Inv(u, ResolveStep(u, s, a).value)
  {
  }

  lemma ResolvedKeeps(u: Upload, s: State, a: Action)
    requires Inv(u, s) && ResolveStep(u, s, a).Some?
    requires a.SyncResolved? || a.PersistResolved?
    ensures Inv(u, ResolveStep(u, s, a).value)
  {
  }

  // A finalization interrupted anywhere resolves to COMPLETE or back to OPEN.
  lemma FinalizingIsResolvable(u: Upload, s: State)
    requires Inv(u, s) && s.record.Finalizing?
    ensures PublishedOk(u, s) || AllNames(s, Names(true, Before))
  {
    assert Now(s) in s.names;
  }

  lemma ResolveStartKeeps(u: Upload, s: State)
    requires Inv(u, s) && ResolveStep(u, s, Resolve).Some?
    ensures Inv(u, ResolveStep(u, s, Resolve).value) && !ResolveStep(u, s, Resolve).value.record.Failed?
  {
    FinalizingIsResolvable(u, s);
    RenameAdds(s, Now(s).(temp := false));
    hide Rename;
  }

  lemma ResolveKeeps(u: Upload, s: State, a: Action)
    requires Inv(u, s) && ResolveStep(u, s, a).Some?
    ensures Inv(u, ResolveStep(u, s, a).value)
  {
    hide Inv;
    if a.Resolve? {
      ResolveStartKeeps(u, s);
    } else if a.SyncResolved? || a.PersistResolved? {
      ResolvedKeeps(u, s, a);
    } else {
      TerminateKeeps(u, s, a);
    }
  }

  lemma RecoverKeeps(u: Upload, s: State)
    requires Inv(u, s) && RecoverStep(u, s).Some?
    ensures Inv(u, RecoverStep(u, s).value)
    ensures s.record.Finalizing? ==> !RecoverStep(u, s).value.record.Failed?
  {
    if s.record.Finalizing? {
      FinalizingIsResolvable(u, s);
      RenameAdds(s.(phase := Resolved), Now(s).(temp := false));
      hide Rename;
    } else if s.record.Open? {
      hide Sealed;
    } else {
      hide Sealed;
    }
  }

  lemma CrashKeeps(u: Upload, s: State, keep: nat, bytes: seq<byte>, newMode: bool)
    requires Inv(u, s) && CrashStep(s, keep, bytes, newMode).Some?
    ensures Inv(u, CrashStep(s, keep, bytes, newMode).value)
  {
  }

  lemma StepKeeps(u: Upload, s: State, a: Action)
    requires Inv(u, s) && Step(u, s, a).Some?
    ensures Inv(u, Step(u, s, a).value)
  {
    hide Inv, CreateStep, TransferStep, FinalizeStep, ResolveStep, RecoverStep, CrashStep;
    match a
    case CreateRecord | CreateTemp | SyncCreation => CreateKeeps(u, s, a);
    case OpenTransfer | Chunk(_, _) | TornChunk(_) | SyncData | PersistCheckpoint | Disconnect | PersistFinalizing =>
      TransferKeeps(u, s, a);
    case Abort | Expire | RemoveTerminalTemp | Resolve | SyncResolved | PersistResolved => ResolveKeeps(u, s, a);
    case Recover => RecoverKeeps(u, s);
    case Crash(keep, bytes, newMode) => CrashKeeps(u, s, keep, bytes, newMode);
    case _ => FinalizeKeeps(u, s, a);
  }

  // ----- whole runs

  // The state a run of the protocol ends in, when every action was enabled in turn.
  function Run(u: Upload, actions: seq<Action>): (end: Option<State>)
    ensures end.Some? ==> end.value.names != []
  {
    if actions == [] then Some(Initial()) else
    var before := Run(u, actions[..|actions| - 1]);
    if before.None? then None else
    var after := Step(u, before.value, actions[|actions| - 1]);
    if after.Some? && after.value.names != [] then after else None
  }

  lemma {:induction false} RunsKeepInv(u: Upload, actions: seq<Action>)
    requires Run(u, actions).Some?
    ensures Inv(u, Run(u, actions).value)
  {
    hide Inv, Step;
    if actions == [] {
      InitialInv(u);
    } else {
      RunsKeepInv(u, actions[..|actions| - 1]);
      StepKeeps(u, Run(u, actions[..|actions| - 1]).value, actions[|actions| - 1]);
    }
  }

  // Publication: after any run, and whatever a crash at that point keeps of the
  // directory, the target is the old file or the whole declared content; it is the
  // declared content when the session says COMPLETE and the old file when it says
  // FAILED, ABORTED or EXPIRED.
  lemma Publication(u: Upload, actions: seq<Action>, n: Names)
    requires Run(u, actions).Some? && n in Run(u, actions).value.names
    ensures var s := Run(u, actions).value; var target := TargetFile(u, s, n);
      && (target == u.before || (target.Some? && u.Matches(target.value)))
      && (s.record.Complete? ==> target.Some? && u.Matches(target.value))
      && (s.record.Complete? && n.target == Staged ==> target.value.bytes == s.stream)
      && (s.record.Failed? || s.record.Aborted? || s.record.Expired? || s.record.Open? ==> target == u.before)
  {
    RunsKeepInv(u, actions);
  }

  // Durability: an open session's committed bytes are on disk, under any crash they are
  // still there, and recovery leaves exactly them in the staged file.
  lemma Durability(u: Upload, actions: seq<Action>, keep: nat, bytes: seq<byte>, newMode: bool)
    requires Run(u, actions).Some?
    requires var s := Run(u, actions).value;
      && s.record.Open? && CrashStep(s, keep, bytes, newMode).Some? && s.names[keep].temp
    ensures var s := Run(u, actions).value;
      var r := RecoverStep(u, CrashStep(s, keep, bytes, newMode).value);
      && s.committed <= s.inode.safe
      && r.Some? && r.value.record.Open? && r.value.phase.Idle?
      && r.value.committed == s.committed && r.value.inode.bytes == r.value.stream == s.stream
  {
    RunsKeepInv(u, actions);
    var s := Run(u, actions).value;
    var c := CrashStep(s, keep, bytes, newMode).value;
    assert c.inode.bytes[..s.committed] == c.inode.bytes[..s.inode.safe][..s.committed];
    assert s.inode.bytes[..s.committed] == s.inode.bytes[..s.inode.safe][..s.committed];
    assert s.names[keep] in s.names;
  }

  // A crash or an error once FINALIZING is recorded ends in COMPLETE or back in OPEN.
  lemma InterruptedFinalization(u: Upload, actions: seq<Action>)
    requires Run(u, actions).Some? && Run(u, actions).value.record.Finalizing?
    ensures var s := Run(u, actions).value;
      && (s.phase.Idle? ==> Step(u, s, Resolve).Some? && !Step(u, s, Resolve).value.record.Failed?)
      && (s.phase.Down? ==> Step(u, s, Recover).Some? && !Step(u, s, Recover).value.record.Failed?)
  {
    hide Run, Inv, Cut, TargetFile;
    RunsKeepInv(u, actions);
    var s := Run(u, actions).value;
    if s.phase.Idle? {
      ResolveStartKeeps(u, s);
    } else if s.phase.Down? {
      RecoverKeeps(u, s);
    }
  }

  // Reopening continues the committed stream: what was not checkpointed is cut off.
  lemma ReopenContinuesStream(u: Upload, actions: seq<Action>)
    requires Run(u, actions).Some? && Run(u, actions).value.record.Open? && Run(u, actions).value.phase.Idle?
    ensures var s := Run(u, actions).value;
      Step(u, s, OpenTransfer) == Some(s.(phase := Receiving(s.stream), inode := Cut(s.inode, s.committed)))
      && Cut(s.inode, s.committed).bytes == s.stream
  {
    RunsKeepInv(u, actions);
    var s := Run(u, actions).value;
    assert Now(s) in s.names;
    assert s.inode.bytes[..|s.inode.bytes|] == s.inode.bytes;
  }

  // What a step outside the transfer leaves alone.
  ghost predicate Quiet(s: State, t: State) {
    && t.stream == s.stream && t.committed == s.committed && !t.phase.Receiving? && !t.phase.Synced?
    && (Terminal(s.record) ==> t.record == s.record)
  }

  predicate Terminal(r: RecordState) { r.Complete? || r.Failed? || r.Aborted? || r.Expired? }

  lemma CreateIsQuiet(u: Upload, s: State, a: Action)
    requires Inv(u, s) && CreateStep(s, a).Some?
    ensures Quiet(s, CreateStep(s, a).value)
  {
    hide NamesOk;
  }

  lemma FinalizeIsQuiet(u: Upload, s: State, a: Action)
    requires Inv(u, s) && FinalizeStep(u, s, a).Some?
    ensures Quiet(s, FinalizeStep(u, s, a).value)
  {
    hide NamesOk, AllNames, Sealed;
  }

  lemma ResolveIsQuiet(u: Upload, s: State, a: Action)
    requires Inv(u, s) && ResolveStep(u, s, a).Some?
    ensures Quiet(s, ResolveStep(u, s, a).value)
  {
    hide NamesOk, AllNames, Sealed, PublishedOk;
  }

  lemma RecoverIsQuiet(u: Upload, s: State)
    requires Inv(u, s) && RecoverStep(u, s).Some?
    ensures Quiet(s, RecoverStep(u, s).value)
  {
    hide NamesOk, AllNames, Sealed, PublishedOk, Cut;
  }

  lemma CrashIsQuiet(s: State, keep: nat, bytes: seq<byte>, newMode: bool)
    requires CrashStep(s, keep, bytes, newMode).Some?
    ensures Quiet(s, CrashStep(s, keep, bytes, newMode).value)
  {
  }

  predicate InTransfer(a: Action) {
    a.OpenTransfer? || a.Chunk? || a.TornChunk? || a.SyncData? || a.PersistCheckpoint? || a.Disconnect?
      || a.PersistFinalizing?
  }

  lemma StepIsQuiet(u: Upload, s: State, a: Action)
    requires Inv(u, s) && Step(u, s, a).Some? && !InTransfer(a)
    ensures Quiet(s, Step(u, s, a).value)
  {
    hide Inv, Quiet, CreateStep, TransferStep, FinalizeStep, ResolveStep, RecoverStep, CrashStep;
    match a
    case CreateRecord | CreateTemp | SyncCreation => CreateIsQuiet(u, s, a);
    case Abort | Expire | RemoveTerminalTemp | Resolve | SyncResolved | PersistResolved => ResolveIsQuiet(u, s, a);
    case Recover => RecoverIsQuiet(u, s);
    case Crash(keep, bytes, newMode) => CrashIsQuiet(s, keep, bytes, newMode);
    case _ => FinalizeIsQuiet(u, s, a);
  }

  lemma TransferIsMonotone(u: Upload, s: State, a: Action)
    requires Inv(u, s) && TransferStep(u, s, a).Some?
    ensures var t := TransferStep(u, s, a).value;
      && s.committed <= t.committed && s.stream <= t.stream && (Terminal(s.record) ==> t.record == s.record)
  {
    hide NamesOk, AllNames, Sealed;
  }

  // Committed bytes are never taken back, and terminal states are final.
  lemma StepIsMonotone(u: Upload, s: State, a: Action)
    requires Inv(u, s) && Step(u, s, a).Some?
    ensures var t := Step(u, s, a).value;
      && s.committed <= t.committed && s.stream <= t.stream
      && (s.record.Complete? || s.record.Failed? || s.record.Aborted? || s.record.Expired? ==> t.record == s.record)
  {
    hide Inv, CreateStep, TransferStep, FinalizeStep, ResolveStep, RecoverStep, CrashStep;
    if InTransfer(a) {
      TransferIsMonotone(u, s, a);
    } else {
      StepIsQuiet(u, s, a);
    }
  }

  // ----- one client, any number of connections

  ghost predicate SentBy(content: seq<byte>, a: Action) {
    a.Chunk? ==> a.offset + |a.data| <= |content| && a.data == content[a.offset..a.offset + |a.data|]
  }

  ghost predicate FromClient(content: seq<byte>, s: State) {
    && s.stream <= content
    && (s.phase.Receiving? ==> s.phase.received <= content)
    && (s.phase.Synced? ==> s.phase.received <= content)
  }

  lemma TransferKeepsContent(u: Upload, s: State, a: Action, content: seq<byte>)
    requires Inv(u, s) && FromClient(content, s) && SentBy(content, a) && TransferStep(u, s, a).Some?
    ensures FromClient(content, TransferStep(u, s, a).value)
  {
    hide NamesOk, AllNames, Sealed;
    if a.OpenTransfer? && s.phase.Idle? && s.record.Open? {
      assert s.inode.bytes[..|s.inode.bytes|] == s.inode.bytes;
    }
  }

  lemma StepKeepsContent(u: Upload, s: State, a: Action, content: seq<byte>)
    requires Inv(u, s) && FromClient(content, s) && SentBy(content, a) && Step(u, s, a).Some?
    ensures FromClient(content, Step(u, s, a).value)
  {
    hide Inv, CreateStep, TransferStep, FinalizeStep, ResolveStep, RecoverStep, CrashStep, SentBy;
    if InTransfer(a) {
      hide FromClient;
      TransferKeepsContent(u, s, a, content);
    } else {
      StepIsQuiet(u, s, a);
    }
  }

  lemma {:induction false} RunsKeepContent(u: Upload, actions: seq<Action>, content: seq<byte>)
    requires Run(u, actions).Some? && forall a | a in actions :: SentBy(content, a)
    ensures FromClient(content, Run(u, actions).value)
  {
    hide Step, SentBy;
    if actions != [] {
      var init := actions[..|actions| - 1];
      RunsKeepContent(u, init, content);
      RunsKeepInv(u, init);
      StepKeepsContent(u, Run(u, init).value, actions[|actions| - 1], content);
    }
  }

  // However many connections, crashes and resumes it took, a completed upload that
  // staged its file published exactly the bytes the client meant to send.
  lemma ResumesRebuildTheContent(u: Upload, actions: seq<Action>, content: seq<byte>, n: Names)
    requires Run(u, actions).Some? && (forall a | a in actions :: SentBy(content, a)) && |content| == u.size
    requires var s := Run(u, actions).value; s.record.Complete? && n in s.names && n.target == Staged
    ensures TargetFile(u, Run(u, actions).value, n) == Some(File(content, u.mode))
  {
    hide Run, Step;
    Publication(u, actions, n);
    RunsKeepContent(u, actions, content);
    assert Run(u, actions).value.stream == content;
  }
}
