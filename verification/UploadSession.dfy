// The controller's side of one upload: the receive loop and the finalization, each
// of whose effects is a step of the protocol.
module UploadSession {
  import opened Bytes
  import opened UploadProtocol
  import opened Options

  // What arrives on a transfer stream. `due` says that a checkpoint is due after the
  // chunk, `synced` that syncing the file for it succeeds, and `written` is what reached
  // the file when writing it failed.
  datatype Frame =
    | ChunkFrame(offset: nat, data: seq<byte>, digestOk: bool, due: bool, synced: bool)
    | UnwritableChunk(written: seq<byte>)
    | FinishFrame(synced: bool)

  // How a stream ends that is not finished: the client closes it, or receiving fails.
  datatype StreamEnd = StreamEnd(broken: bool, synced: bool)

  datatype Reply =
    | SessionNotOpen
    | SessionExpired
    | Rejected
    | OffsetMismatch(expected: nat)
    | WriteFailed
    | CheckpointFailed
    | ReceiveFailed
    | TooShort
    | Ended
    | NotPublished
    | PublishedUnconfirmed
    | Completed

  // Which of finalization's own effects succeed.
  datatype Luck = Luck(mode: bool, sync: bool, free: bool, publish: bool, remove: bool, syncDirectory: bool)

  // What a stream of frames comes to: a reply and the bytes kept, or a whole upload to
  // finalize. `received` has arrived so far, `kept` is what was checkpointed of it.
  datatype Verdict = Ends(reply: Reply, kept: seq<byte>) | Finalizes(content: seq<byte>)

  ghost function Judge(received: seq<byte>, kept: seq<byte>, frames: seq<Frame>, end: StreamEnd, size: nat): Verdict
    decreases |frames|
  {
    if frames == [] then
      var after := if end.synced then received else kept;
      Ends(if end.broken then ReceiveFailed else if after == received then Ended else CheckpointFailed, after)
    else
      match frames[0]
      case ChunkFrame(offset, data, digestOk, due, synced) =>
        if data == [] || !digestOk then Ends(Rejected, kept)
        else if offset != |received| then Ends(OffsetMismatch(|received|), kept)
        else if |received| + |data| > size then Ends(Rejected, kept)
        else if due && !synced then Ends(CheckpointFailed, kept)
        else Judge(received + data, if due then received + data else kept, frames[1..], end, size)
      case UnwritableChunk(_) => Ends(WriteFailed, kept)
      case FinishFrame(synced) =>
        if |received| != size then Ends(TooShort, kept)
        else if !synced && kept != received then Ends(CheckpointFailed, kept)
        else Finalizes(received)
  }

  // Whatever a stream comes to, bytes once kept stay kept, and only bytes it carried are added.
  lemma {:induction false} KeptStaysKept(received: seq<byte>, kept: seq<byte>, frames: seq<Frame>,
        end: StreamEnd, size: nat)
    requires kept <= received
    ensures match Judge(received, kept, frames, end, size)
      case Ends(r, after) => kept <= after && after <= received + Carried(frames) && RecordAfter(r) == Open
      case Finalizes(content) => received <= content && content <= received + Carried(frames) && |content| == size
    decreases |frames|
  {
    hide Judge, Carried, RecordAfter;
    if frames != [] && TakenIn(received, frames[0], size) {
      var r := received + frames[0].data;
      var k := if frames[0].due then r else kept;
      KeptStaysKept(r, k, frames[1..], end, size);
      JudgeGoesOn(received, kept, frames, end, size);
      assert r + Carried(frames[1..]) == received + Carried(frames) by { CarriedStep(frames); }
    } else {
      JudgeStops(received, kept, frames, end, size);
    }
  }

  ghost predicate TakenIn(received: seq<byte>, f: Frame, size: nat) {
    f.ChunkFrame? && f.data != [] && f.digestOk && f.offset == |received| && |received| + |f.data| <= size
      && (f.due ==> f.synced)
  }

  lemma JudgeGoesOn(received: seq<byte>, kept: seq<byte>, frames: seq<Frame>, end: StreamEnd, size: nat)
    requires frames != [] && TakenIn(received, frames[0], size)
    ensures Judge(received, kept, frames, end, size)
         == Judge(received + frames[0].data, if frames[0].due then received + frames[0].data
           else kept, frames[1..], end, size)
  {
  }

  lemma JudgeStops(received: seq<byte>, kept: seq<byte>, frames: seq<Frame>, end: StreamEnd, size: nat)
    requires kept <= received && (frames != [] ==> !TakenIn(received, frames[0], size))
    ensures match Judge(received, kept, frames, end, size)
      case Ends(r, after) => (after == kept || after == received) && RecordAfter(r) == Open
      case Finalizes(content) => content == received && |content| == size
  {
  }

  lemma CarriedStep(frames: seq<Frame>)
    requires frames != [] && frames[0].ChunkFrame?
    ensures Carried(frames) == frames[0].data + Carried(frames[1..])
  {
  }

  // The bytes a stream carries.
  ghost function Carried(frames: seq<Frame>): seq<byte> {
    if frames == [] then [] else (if frames[0].ChunkFrame? then frames[0].data else []) + Carried(frames[1..])
  }

  // How finalizing received content ends.
  ghost function Finalized(u: Upload, content: seq<byte>, luck: Luck): Reply {
    if u.hash(content) != u.digest || !luck.mode || !luck.sync || !luck.free || !luck.publish then NotPublished
    else if !luck.syncDirectory || (!u.overwrite && !luck.remove) then PublishedUnconfirmed
    else Completed
  }

  ghost function RecordAfter(reply: Reply): RecordState {
    if reply == Completed then Complete
    else if reply == NotPublished then Failed
    else if reply == PublishedUnconfirmed then Finalizing
    else Open
  }

  class Session {
    const upload: Upload
    var state: State
    ghost var history: seq<Action>

    // The state is one a run of the protocol reaches.
    ghost predicate Valid()
      reads this
    {
      Run(upload, history) == Some(state) && Inv(upload, state)
    }

    // A session whose record, staging file and directory entry were just made durable.
    constructor (upload: Upload)
      ensures Valid() && this.upload == upload && state.record == Open && state.phase == Idle && state.stream == []
    {
      this.upload := upload;
      state := Initial();
      history := [];
      new;
      InitialInv(upload);
      Do(CreateRecord);
      Do(CreateTemp);
      Do(SyncCreation);
    }

    method Do(a: Action)
      requires Valid() && Step(upload, state, a).Some?
      modifies this
      ensures Valid() && Some(state) == Step(upload, old(state), a) && history == old(history) + [a]
    {
      hide Inv, Step;
      StepKeeps(upload, state, a);
      InvHasNames(upload, Step(upload, state, a).value);
      history := history + [a];
      assert history[..|history| - 1] == old(history);
      state := Step(upload, state, a).value;
    }

    // Makes the bytes accepted so far durable, then records that they are; if syncing the
    // file fails, nothing is recorded.
    method Checkpoint(synced: bool) returns (ok: bool)
      requires Valid() && state.phase.Receiving?
      modifies this
      ensures Valid() && state.phase == old(state.phase) && state.record == Open
      ensures ok <==> synced || old(state).stream == old(state).phase.received
      ensures state.stream == if ok then state.phase.received else old(state).stream
      ensures state.committed == |state.stream|
    {
      hide Inv, Run;
      ReceivingFacts(upload, state);
      if |state.phase.received| == state.committed {
        return true;
      }
      if !synced {
        return false;
      }
      Do(SyncData);
      Do(PersistCheckpoint);
      ok := true;
    }

    // One transfer. An overdue session is refused even before it is swept.
    method TransferUpload(overdue: bool, frames: seq<Frame>, end: StreamEnd, luck: Luck) returns (reply: Reply)
      requires Valid() && state.phase == Idle
      modifies this
      ensures Valid() && state.phase == Idle
      ensures old(state).record != Open ==> reply == SessionNotOpen && state == old(state)
      ensures old(state).record == Open && overdue ==> reply == SessionExpired && state == old(state)
      ensures old(state).record == Open && !overdue ==>
        match Judge(old(state).stream, old(state).stream, frames, end, upload.size)
        case Ends(r, kept) => reply == r && state.stream == kept && state.record == Open
        case Finalizes(content) =>
          && reply == Finalized(upload, content, luck)
          && state.stream == content && state.record == RecordAfter(reply)
      ensures old(state).record == Open ==> state.record == RecordAfter(reply)
      ensures old(state).stream <= state.stream <= old(state).stream + Carried(frames)
    {
      hide Inv, Run, Step, Carried;
      if state.record != Open {
        return SessionNotOpen;
      }
      if overdue {
        return SessionExpired;
      }
      OpenKeepsStream(upload, state);
      IdleOpenHasTemp(upload, state);
      KeptStaysKept(state.stream, state.stream, frames, end, upload.size);
      Do(OpenTransfer);
      ghost var start := old(state).stream;
      assert frames[0..] == frames;
      for i := 0 to |frames|
        invariant Valid() && state.phase.Receiving? && state.record == Open
        invariant Judge(state.phase.received, state.stream, frames[i..], end, upload.size)
               == Judge(start, start, frames, end, upload.size)
      {
        assert frames[i..][1..] == frames[i + 1..];
        ReceivingFacts(upload, state);
        match frames[i]
        case ChunkFrame(offset, data, digestOk, due, synced) =>
          if data == [] || !digestOk {
            Leave();
            return Rejected;
          }
          if offset != |state.phase.received| {
            var expected := |state.phase.received|;
            Leave();
            return OffsetMismatch(expected);
          }
          if |data| > upload.size - |state.phase.received| {
            Leave();
            return Rejected;
          }
          ChunkStep(upload, state, offset, data);
          Do(Chunk(offset, data));
          if due {
            var ok := Checkpoint(synced);
            if !ok {
              Leave();
              return CheckpointFailed;
            }
          }
        case UnwritableChunk(written) =>
          TornStep(upload, state, written);
          Do(TornChunk(written));
          return WriteFailed;
        case FinishFrame(synced) =>
          if |state.phase.received| != upload.size {
            Leave();
            return TooShort;
          }
          var ok := Checkpoint(synced);
          if !ok {
            Leave();
            return CheckpointFailed;
          }
          reply := FinalizeUpload(luck);
          return;
      }
      assert frames[|frames|..] == [];
      var ok := Checkpoint(end.synced);
      Leave();
      reply := if end.broken then ReceiveFailed else if ok then Ended else CheckpointFailed;
    }

    // Closes the transfer; what was accepted since the last checkpoint is not kept.
    method Leave()
      requires Valid() && state.phase.Receiving?
      modifies this
      ensures Valid() && state == old(state).(phase := Idle) && state.record == Open
      ensures |state.stream| <= |old(state).phase.received|
    {
      hide Inv, Run;
      ReceivingFacts(upload, state);
      Do(Disconnect);
    }

    // Marks the upload failed and removes its staging file.
    method FailUpload()
      requires Valid() && Step(upload, state, Fail).Some?
      modifies this
      ensures Valid() && state.phase == Idle && state.record == Failed && state.stream == old(state).stream
    {
      hide Inv, Run;
      Do(Fail);
      Do(RemoveTerminalTemp);
    }

    // Verifies the staged file and gives it its mode and a durable state.
    method PrepareStaged(luck: Luck) returns (ok: bool)
      requires Valid() && state.phase == Verifying
      modifies this
      ensures Valid() && state.stream == old(state).stream
      ensures ok <==> |old(state).inode.bytes| == upload.size && upload.hash(old(state).inode.bytes) == upload.digest
                      && luck.mode && luck.sync && luck.free
      ensures if ok then state.phase == TargetChecked && state.record == old(state).record
              else state.phase == Idle && state.record == Failed
    {
      hide Inv, Run;
      if |state.inode.bytes| != upload.size || upload.hash(state.inode.bytes) != upload.digest {
        FailUpload();
        return false;
      }
      Do(Verify);
      if !luck.mode {
        FailUpload();
        return false;
      }
      Do(SetMode);
      if !luck.sync {
        FailUpload();
        return false;
      }
      Do(SyncFile);
      if !luck.free {
        FailUpload();
        return false;
      }
      Do(CheckTarget(true));
      ok := true;
    }

    method FinalizeUpload(luck: Luck) returns (reply: Reply)
      requires Valid() && state.phase.Receiving? && state.committed == upload.size == |state.phase.received|
      modifies this
      ensures Valid() && state.phase == Idle && state.stream == old(state).stream
      ensures reply == Finalized(upload, old(state).phase.received, luck) && state.record == RecordAfter(reply)
    {
      hide Inv, Run;
      CommittedIsStream(upload, state);
      ReceivingFacts(upload, state);
      Do(PersistFinalizing);
      var ok := PrepareStaged(luck);
      if !ok {
        return NotPublished;
      }
      if !luck.publish {
        FailUpload();
        return NotPublished;
      }
      reply := PublishStaged(luck);
    }

    // Moves the staged file to its target name. An error after that leaves the
    // session FINALIZING, to be resolved later.
    method PublishStaged(luck: Luck) returns (reply: Reply)
      requires Valid() && state.phase == TargetChecked && state.record == Finalizing
      modifies this
      ensures Valid() && state.phase == Idle && state.stream == old(state).stream
      ensures if luck.syncDirectory && (upload.overwrite || luck.remove) then reply == Completed
        && state.record == Complete
              else reply == PublishedUnconfirmed && state.record == Finalizing
    {
      hide Inv, Run, Step;
      InvHasNames(upload, state);
      PublishSteps(upload, state);
      Do(Publish);
      InvHasNames(upload, state);
      PublishSteps(upload, state);
      if !upload.overwrite {
        if !luck.remove {
          Do(GiveUp);
          return PublishedUnconfirmed;
        }
        Do(RemoveTemp);
        InvHasNames(upload, state);
        PublishSteps(upload, state);
      }
      if !luck.syncDirectory {
        Do(GiveUp);
        return PublishedUnconfirmed;
      }
      Do(SyncDirectory);
      InvHasNames(upload, state);
      PublishSteps(upload, state);
      Do(PersistComplete);
      reply := Completed;
    }

    // Resolves a finalization that an error left behind.
    method Reconcile(luck: Luck) returns (release: bool)
      requires Valid() && state.phase == Idle
      modifies this
      ensures Valid() && state.phase == Idle && state.stream == old(state).stream
      ensures old(state).record != Finalizing ==> !release && state == old(state)
      ensures old(state).record == Finalizing ==>
        && old(state).names != []
        && state.record == (if !PublishedOk(upload, old(state)) then Open else if luck.syncDirectory then Complete
          else Finalizing)
      ensures old(state).record == Finalizing ==> (release <==> state.record == Complete)
    {
      hide Inv, Run, Step, PublishedOk;
      InvHasNames(upload, state);
      if state.record != Finalizing {
        return false;
      }
      ResolveOutcome(upload, state);
      Do(Resolve);
      if state.phase != Resolved {
        return false;
      }
      InvHasNames(upload, state);
      ResolvedSteps(upload, state);
      if !luck.syncDirectory {
        Do(GiveUp);
        return false;
      }
      Do(SyncResolved);
      InvHasNames(upload, state);
      ResolvedSteps(upload, state);
      Do(PersistResolved);
      release := true;
    }
  }

  lemma ResolveOutcome(u: Upload, s: State)
    requires Inv(u, s) && s.names != [] && s.phase == Idle && s.record == Finalizing
    ensures Step(u, s, Resolve).Some?
    ensures var t := Step(u, s, Resolve).value;
      t.stream == s.stream && if PublishedOk(u, s) then t.phase == Resolved && t.record == Finalizing
        else t.phase == Idle && t.record == Open
  {
    hide PublishedOk, Inv;
    ResolveStartKeeps(u, s);
  }

  // What follows once the published target was verified.
  lemma ResolvedSteps(u: Upload, s: State)
    requires s.names != [] && (s.phase == Resolved || s.phase == ResolvedSynced)
    ensures s.phase == Resolved ==> Step(u, s, SyncResolved) == Some(SyncNames(s).(phase := ResolvedSynced))
    ensures s.phase == Resolved ==> Step(u, s, GiveUp) == Some(s.(phase := Idle))
    ensures s.phase == ResolvedSynced ==> Step(u, s, PersistResolved) == Some(s.(phase := Idle, record := Complete))
  {
  }

  // What publishing goes through.
  lemma PublishSteps(u: Upload, s: State)
    requires s.names != []
    ensures s.phase == TargetChecked ==>
      && Step(u, s, Publish).Some?
      && Step(u, s, Publish).value.(names := []) == s.(names := [], phase := if u.overwrite then Published else Linked)
    ensures s.phase == Linked ==>
      && Step(u, s, RemoveTemp).Some?
        && Step(u, s, RemoveTemp).value.(names := []) == s.(names := [], phase := Published)
    ensures s.phase == Linked || s.phase == Published ==> Step(u, s, GiveUp) == Some(s.(phase := Idle))
    ensures s.phase == Published ==> Step(u, s, SyncDirectory) == Some(SyncNames(s).(phase := PublishedSynced))
    ensures s.phase == PublishedSynced ==> Step(u, s, PersistComplete) == Some(s.(phase := Idle, record := Complete))
  {
  }

  lemma InvHasNames(u: Upload, s: State)
    requires Inv(u, s)
    ensures s.names != []
  {
  }

  lemma ReceivingFacts(u: Upload, s: State)
    requires Inv(u, s) && s.phase.Receiving?
    ensures s.record == Open && s.names != [] && s.committed <= |s.phase.received| <= u.size
    ensures |s.stream| == s.committed && s.stream == s.phase.received[..s.committed]
      && s.inode.bytes == s.phase.received
  {
  }

  lemma CommittedIsStream(u: Upload, s: State)
    requires Inv(u, s)
    ensures |s.stream| == s.committed
  {
  }

  lemma IdleOpenHasTemp(u: Upload, s: State)
    requires Inv(u, s) && s.phase == Idle && s.record == Open
    ensures s.names != [] && Now(s).temp
  {
    assert Now(s) in s.names;
  }

  // Opening a transfer continues the committed stream.
  lemma OpenKeepsStream(u: Upload, s: State)
    requires Inv(u, s) && s.phase == Idle && s.record == Open
    ensures s.names != [] && Step(u, s, OpenTransfer).Some?
    ensures var t := Step(u, s, OpenTransfer).value;
      t.phase == Receiving(s.stream) && t.stream == s.stream && t.record == Open
  {
    IdleOpenHasTemp(u, s);
    assert s.inode.bytes[..|s.inode.bytes|] == s.inode.bytes;
  }

  lemma ChunkStep(u: Upload, s: State, offset: nat, data: seq<byte>)
    requires s.names != [] && s.phase.Receiving? && data != []
    requires offset == |s.phase.received| && offset + |data| <= u.size
    ensures Step(u, s, Chunk(offset, data))
         == Some(s.(phase := Receiving(s.phase.received + data), inode := Extend(s.inode, data)))
  {
  }

  lemma TornStep(u: Upload, s: State, written: seq<byte>)
    requires s.names != [] && s.phase.Receiving?
    ensures Step(u, s, TornChunk(written)) == Some(s.(phase := Idle, inode := Extend(s.inode, written)))
  {
  }
}
