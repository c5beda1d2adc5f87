// The two kinds of readers of a process log: one that follows it while it grows,
// and one that takes byte-bounded snapshots and resumes from where the last ended.
module LogReaders {
  import opened Bytes
  import opened LogRecord
  import opened LogSegment
  import opened ProcessLogs
  import opened LogTail

  const MAX_TAIL_LINES := 100000
  const MAX_SNAPSHOT := 16777216

  // ----- reading a range in several windows

  lemma {:induction false} WindowsJoin(rs: seq<Stored>, low: nat, middle: nat, high: nat, earliest: nat, sel: Selection)
    requires Consecutive(rs, 0) && low <= middle <= high
    ensures Emitted(rs, low, high, earliest, sel)
         == Emitted(rs, low, middle, earliest, sel) + Emitted(rs, middle, high, earliest, sel)
  {
    if rs != [] {
      var init, r := rs[..|rs| - 1], rs[|rs| - 1];
      WindowsJoin(init, low, middle, high, earliest, sel);
      if middle <= r.offset {
      } else {
        NothingOutside(init, middle, high, earliest, sel);
      }
    }
  }

  lemma WindowUnchanged(rs: seq<Stored>, added: seq<Stored>, low: nat, high: nat, earliest: nat, sel: Selection)
    requires Consecutive(rs + added, 0) && high <= |rs|
    ensures Emitted(rs + added, low, high, earliest, sel) == Emitted(rs, low, high, earliest, sel)
  {
    EmittedSplit(rs + added, |rs|, low, high, earliest, sel);
    assert (rs + added)[..|rs|] == rs && (rs + added)[|rs|..] == added;
    forall i | 0 <= i < |added|
      ensures high <= added[i].offset
    {
      assert (rs + added)[|rs| + i] == added[i];
    }
    NothingOutside(added, low, high, earliest, sel);
  }

  lemma {:induction false} EmptyWindow(rs: seq<Stored>, at: nat, earliest: nat, sel: Selection)
    ensures Emitted(rs, at, at, earliest, sel) == []
  {
    if rs != [] {
      EmptyWindow(rs[..|rs| - 1], at, earliest, sel);
    }
  }

  // ----- where a read starts

  datatype From = AtOffset(offset: nat) | Tail(lines: nat)

  datatype Prepared =
    | Prepared(start: nat, end: nat, earliest: nat, sel: Selection, tailTruncated: bool)
    | TooManyLines
    | OutOfRange

  function EveryLine(streams: set<Stream>): Selection { Selection(streams, true, {}) }

  // What a read that starts there asks for; chosen are the lines of a tail.
  ghost function Wanted(from: From, streams: set<Stream>, chosen: seq<LineEntry>): Selection {
    if from.AtOffset? then EveryLine(streams) else Selection(streams, false, Starts(chosen))
  }

  // The records such a read shows below an offset.
  ghost function Shown(rs: seq<Stored>, from: From, end: nat, earliest: nat, sel: Selection): seq<Sent> {
    Emitted(rs, if from.AtOffset? then from.offset else earliest, end, earliest, sel)
  }

  // Pins where a read starts and ends and which lines it shows.
  method Prepare(log: ProcessLog, from: From, streams: set<Stream>) returns (p: Prepared, ghost chosen: seq<LineEntry>)
    requires log.Valid()
    ensures p.TooManyLines? <==> from.Tail? && from.lines > MAX_TAIL_LINES
    ensures p.OutOfRange? <==> from.AtOffset? && !(log.earliest <= from.offset <= log.next)
    ensures p.Prepared? ==> log.earliest == p.earliest <= p.start <= p.end == log.next && p.sel.streams == streams
    ensures p.Prepared? && from.AtOffset? ==> p.start == from.offset && p.sel == EveryLine(streams)
    ensures p.Prepared? && from.Tail? ==> LastLines(log, from.lines, streams, chosen)
    ensures p.Prepared? ==>
      && (forall r | r in log.records :: p.sel.Takes(r) == Wanted(from, streams, chosen).Takes(r))
      && forall end :: Emitted(log.records, p.start, end, p.earliest, p.sel)
                       == Shown(log.records, from, end, p.earliest, Wanted(from, streams, chosen))
  {
    hide Emitted, log.Valid, LastLines, PhantomTakes, Starts, HasPhantom, Pool;
    chosen := [];
    if from.AtOffset? {
      log.RecordsAreConsecutive();
      var ok := log.PrepareOffset(from.offset);
      p := if ok then Prepared(from.offset, log.next, log.earliest, EveryLine(streams), false) else OutOfRange;
    } else if from.lines > MAX_TAIL_LINES {
      p := TooManyLines;
    } else {
      var start, selected, truncated;
      start, selected, truncated, chosen := PrepareTail(log, from.lines, streams);
      forall end: nat
        ensures Emitted(log.records, start, end, log.earliest, Selection(streams, false, selected))
             == Shown(log.records, from, end, log.earliest, Wanted(from, streams, chosen))
      {
        TailReadsWholeLines(log, streams, chosen, selected, start, end);
      }
      TailReadsWholeLines(log, streams, chosen, selected, start, log.next);
      p := Prepared(start, log.next, log.earliest, Selection(streams, false, selected), truncated);
    }
  }

  // ----- following

  // What can happen to a log between two looks of a follower, and the looks themselves.
  datatype Step =
    | Write(stream: Stream, payload: seq<byte>, now: int)
    | Finalize
    | TrimOldest
    | Expire
    | Acquire
    | Release
    | Delete
    | Poll

  // One step of anyone but the reader. Other observers release only what they acquired;
  // while there are observers nothing that is retained goes away.
  method Other(log: ProcessLog, step: Step, held: nat) returns (ghost added: seq<Stored>, deleted: bool)
    requires log.Valid() && log.observers >= held
    modifies log
    ensures log.Valid() && log.observers >= held && log.records == old(log.records) + added
    ensures old(log.earliest) <= log.earliest && (deleted ==> step == Delete)
    ensures if old(log.finalized) then log.finalized && added == [] else log.finalized <==> step == Finalize
    ensures held > 0 ==> log.earliest == old(log.earliest) && !deleted
  {
    hide *;
    added, deleted := [], false;
    match step
    case Write(stream, payload, now) =>
      if log.next + |payload| < TWO_64 && -TWO_64 / 2 <= now < TWO_64 / 2 {
        var written, ok, more := log.Write(stream, payload, now);
        added := more;
      }
    case Finalize => log.Finalize();
    case TrimOldest => var _ := log.TrimOldest();
    case Expire => var _ := log.Expire();
    case Acquire => var _ := log.AcquireObserver();
    case Release =>
      if log.observers > held {
        log.ReleaseObserver();
      }
    case Delete => deleted := log.LockForDeletion();
    case Poll =>
  }

  // Several such steps, up to a deletion.
  method Turn(log: ProcessLog, steps: seq<Step>, held: nat) returns (deleted: bool)
    requires log.Valid() && log.observers >= held
    modifies log
    ensures log.Valid() && log.observers >= held && old(log.records) <= log.records && old(log.earliest) <= log.earliest
    ensures deleted ==> Delete in steps
    ensures !deleted ==> (log.finalized <==> old(log.finalized) || Finalize in steps)
    ensures held > 0 ==> log.earliest == old(log.earliest) && !deleted
    ensures steps == [] ==> log.records == old(log.records) && log.earliest == old(log.earliest)
  {
    hide log.Valid;
    deleted := false;
    for i := 0 to |steps|
      invariant log.Valid() && log.observers >= held && old(log.records) <= log.records
        && old(log.earliest) <= log.earliest
      invariant i == 0 ==> log.records == old(log.records) && log.earliest == old(log.earliest)
      invariant held > 0 ==> log.earliest == old(log.earliest)
      invariant log.finalized <==> old(log.finalized) || Finalize in steps[..i]
    {
      ghost var added;
      added, deleted := Other(log, steps[i], held);
      if deleted {
        return;
      }
      assert steps[..i + 1] == steps[..i] + [steps[i]];
    }
    assert steps[..|steps|] == steps;
  }

  datatype Outcome =
    | TooManyObservers
    | InvalidTail
    | InvalidOffset
    | ExpiredWhileFollowing
    | Following(sent: seq<Sent>, cursor: nat)
    | Ended(sent: seq<Sent>, cursor: nat, complete: bool)

  datatype Progress = Waiting | Finished(complete: bool) | Overtaken

  // Whether the log is looked at twice once it is over: the first look finds all there is
  // and the second that there is no more.
  ghost predicate LooksTwice(steps: seq<Step>, over: bool, looks: nat) {
    looks >= 2
    || (steps != []
        && LooksTwice(steps[1..], over || steps[0] == Finalize, if over && steps[0] == Poll then looks + 1 else looks))
  }

  // Follows a log from the end it was pinned at, under every interleaving of the looks
  // with what its other users do.
  method Follow(log: ProcessLog, pinned: nat, streams: set<Stream>, steps: seq<Step>)
    returns (later: seq<Sent>, cursor: nat, progress: Progress)
    requires log.Valid() && log.observers > 0 && log.earliest <= pinned <= log.next
    modifies log
    ensures log.Valid() && log.observers > 0 && log.earliest == old(log.earliest) && old(log.records) <= log.records
    ensures progress != Overtaken && pinned <= cursor <= log.next
    ensures later == Emitted(log.records, pinned, cursor, log.earliest, EveryLine(streams))
    ensures progress.Finished? ==> log.finalized && cursor == log.next && progress.complete == log.complete
    ensures LooksTwice(steps, old(log.finalized), 0) ==> progress.Finished?
    ensures progress.Waiting? && steps != [] && steps[|steps| - 1] == Poll ==> cursor == log.next
  {
    hide Emitted, log.Valid, LooksTwice;
    ghost var earliest, looks := log.earliest, 0;
    later, cursor := [], pinned;
    EmptyWindow(log.records, pinned, earliest, EveryLine(streams));
    assert steps[0..] == steps;
    for i := 0 to |steps|
      invariant log.Valid() && log.observers > 0 && log.earliest == earliest
      invariant pinned <= cursor <= log.next && old(log.records) <= log.records
      invariant later == Emitted(log.records, pinned, cursor, earliest, EveryLine(streams))
      invariant LooksTwice(steps[i..], log.finalized, looks) == LooksTwice(steps, old(log.finalized), 0)
      invariant looks <= 1 && (looks == 1 ==> log.finalized && cursor == log.next)
      invariant i > 0 && steps[i - 1] == Poll ==> cursor == log.next
    {
      log.RecordsAreConsecutive();
      OneLook(steps, i, log.finalized, looks);
      if steps[i] == Poll {
        if cursor < log.earliest {
          return later, cursor, Overtaken;
        }
        if cursor < log.next {
          var more := log.ReadRange(cursor, log.next, log.earliest, EveryLine(streams));
          WindowsJoin(log.records, pinned, cursor, log.next, earliest, EveryLine(streams));
          later, cursor := later + more, log.next;
        } else if log.finalized {
          return later, cursor, Finished(log.complete);
        }
        looks := if log.finalized then looks + 1 else looks;
      } else {
        ghost var before := log.records;
        var added, deleted := Other(log, steps[i], 1);
        log.RecordsAreConsecutive();
        WindowUnchanged(before, added, pinned, cursor, earliest, EveryLine(streams));
      }
    }
    NoMoreLooks(looks, log.finalized);
    assert steps[|steps|..] == [];
    progress := Waiting;
  }

  lemma OneLook(steps: seq<Step>, i: nat, over: bool, looks: nat)
    requires i < |steps| && looks < 2
    ensures LooksTwice(steps[i..], over, looks)
         == LooksTwice(steps[i + 1..], over || steps[i] == Finalize, if over && steps[i] == Poll then looks + 1
           else looks)
  {
    assert steps[i..][1..] == steps[i + 1..];
  }

  lemma NoMoreLooks(looks: nat, over: bool)
    requires looks < 2
    ensures !LooksTwice([], over, looks)
  {
  }

  // An observer under every interleaving with the log's other users: it sends the
  // history it asked for, then every later record of its streams once, in order; it is
  // never overtaken, and it ends only when everything was sent of a log that is finalized,
  // no later than at the second look after that. The steps `during` happen before its
  // history is read.
  method Observe(log: ProcessLog, from: From, streams: set<Stream>, follow: bool, during: seq<Step>, steps: seq<Step>)
    returns (outcome: Outcome, ghost chosen: seq<LineEntry>)
    requires log.Valid()
    modifies log
    ensures log.Valid() && old(log.records) <= log.records
    ensures outcome != ExpiredWhileFollowing
    ensures outcome.TooManyObservers? <==> old(log.observers) >= log.maxObservers
    ensures !outcome.TooManyObservers? ==>
      && (outcome.InvalidTail? <==> from.Tail? && from.lines > MAX_TAIL_LINES)
      && (outcome.InvalidOffset? <==> from.AtOffset? && !(old(log.earliest) <= from.offset <= old(log.next)))
    ensures outcome.Following? || outcome.Ended? ==>
      && old(log.next) <= outcome.cursor <= log.next
      && outcome.sent == Shown(log.records, from, old(log.next), old(log.earliest), Wanted(from, streams, chosen))
                         + Emitted(log.records, old(log.next), outcome.cursor, old(log.earliest), EveryLine(streams))
      && (from.Tail? ==> old(LastLines(log, from.lines, streams, chosen)))
      && (from.AtOffset? ==>
            outcome.sent == Emitted(log.records, from.offset, outcome.cursor, old(log.earliest), EveryLine(streams)))
    ensures outcome.Following? ==> follow && log.observers > 0 && log.earliest == old(log.earliest)
    ensures outcome.Following? ==> !LooksTwice(steps, old(log.finalized) || Finalize in during, 0)
    ensures outcome.Following? && steps != [] && steps[|steps| - 1] == Poll ==> outcome.cursor == log.next
    ensures outcome.Ended? ==>
      if follow then log.finalized && outcome.cursor == log.next && outcome.complete == log.complete
                               else outcome.cursor == old(log.next) && outcome.complete == old(log.complete)
  {
    hide Emitted, log.Valid, LastLines;
    chosen := [];
    var acquired := log.AcquireObserver();
    if !acquired {
      return TooManyObservers, [];
    }
    var p;
    p, chosen := Prepare(log, from, streams);
    if !p.Prepared? {
      log.ReleaseObserver();
      return if p.OutOfRange? then InvalidOffset else InvalidTail, chosen;
    }
    log.RecordsAreConsecutive();
    ghost var before, low, wanted := log.records, if from.AtOffset? then from.offset
      else p.earliest, Wanted(from, streams, chosen);
    var complete := log.complete;
    var _ := Turn(log, during, 1);
    log.RecordsAreConsecutive();
    StaysShown(before, log.records, p.start, p.end, p.earliest, p.sel);
    var sent := log.ReadRange(p.start, p.end, p.earliest, p.sel);
    if !follow {
      StaysShown(before, log.records, low, p.end, p.earliest, wanted);
      EmptyWindow(log.records, p.end, p.earliest, EveryLine(streams));
      log.ReleaseObserver();
      return Ended(sent, p.end, complete), chosen;
    }
    var later, cursor, progress := Follow(log, p.end, streams, steps);
    log.RecordsAreConsecutive();
    StaysShown(before, log.records, low, p.end, p.earliest, wanted);
    if from.AtOffset? {
      WindowsJoin(log.records, low, p.end, cursor, p.earliest, wanted);
    }
    match progress
    case Overtaken => outcome := ExpiredWhileFollowing;
    case Waiting => outcome := Following(sent + later, cursor);
    case Finished(complete) =>
      log.ReleaseObserver();
      outcome := Ended(sent + later, cursor, complete);
  }

  // What was shown of a log stays the same while it grows.
  lemma StaysShown(rs: seq<Stored>, later: seq<Stored>, low: nat, high: nat, earliest: nat, sel: Selection)
    requires rs <= later && Consecutive(later, 0) && high <= |rs|
    ensures Emitted(later, low, high, earliest, sel) == Emitted(rs, low, high, earliest, sel)
  {
    hide Emitted;
    assert later == rs + later[|rs|..];
    WindowUnchanged(rs, later[|rs|..], low, high, earliest, sel);
  }

  // ----- bounded snapshots

  function PayloadBytes(sent: seq<Sent>): nat {
    if sent == [] then 0 else PayloadBytes(sent[..|sent| - 1]) + |sent[|sent| - 1].record.payload|
  }

  lemma OneRecord(rs: seq<Stored>, at: nat, earliest: nat, sel: Selection)
    requires Consecutive(rs, 0) && at < |rs|
    ensures Emitted(rs, at, at + 1, earliest, sel)
         == if sel.Takes(rs[at]) then [Sent(rs[at], rs[at].lineOffset < earliest)] else []
  {
    EmittedSplit(rs, at, at, at + 1, earliest, sel);
    NothingOutside(rs[..at], at, at + 1, earliest, sel);
    EmittedSplit(rs[at..], 1, at, at + 1, earliest, sel);
    NothingOutside(rs[at..][1..], at, at + 1, earliest, sel);
    assert rs[at..][..1] == [rs[at]];
  }

  lemma {:induction false} NoMoreChunks(rs: seq<Stored>, low: nat, middle: nat, high: nat, earliest: nat,
        sel: Selection)
    requires Consecutive(rs, 0) && low <= middle <= high <= |rs|
    requires forall j | middle <= j < high :: !sel.Takes(rs[j])
    ensures Emitted(rs, low, high, earliest, sel) == Emitted(rs, low, middle, earliest, sel)
    decreases high - middle
  {
    hide Emitted;
    if middle < high {
      NoMoreChunks(rs, low, middle, high - 1, earliest, sel);
      WindowsJoin(rs, low, high - 1, high, earliest, sel);
      OneRecord(rs, high - 1, earliest, sel);
    }
  }

  lemma NextChunk(rs: seq<Stored>, low: nat, middle: nat, at: nat, earliest: nat, sel: Selection)
    requires Consecutive(rs, 0) && low <= middle <= at < |rs| && sel.Takes(rs[at])
    requires forall j | middle <= j < at :: !sel.Takes(rs[j])
    ensures Emitted(rs, low, at + 1, earliest, sel)
         == Emitted(rs, low, middle, earliest, sel) + [Sent(rs[at], rs[at].lineOffset < earliest)]
  {
    hide Emitted;
    NoMoreChunks(rs, low, middle, at, earliest, sel);
    WindowsJoin(rs, low, at, at + 1, earliest, sel);
    OneRecord(rs, at, earliest, sel);
  }

  // The first record a read gives is the first one its selection takes.
  lemma {:induction false} FirstSent(rs: seq<Stored>, low: nat, high: nat, earliest: nat, sel: Selection)
    requires Consecutive(rs, 0) && low <= high <= |rs|
    ensures var sent := Emitted(rs, low, high, earliest, sel);
      if sent == [] then forall j | low <= j < high :: !sel.Takes(rs[j])
      else
        var at := sent[0].record.offset;
        && low <= at < high && sel.Takes(rs[at]) && sent[0] == Sent(rs[at], rs[at].lineOffset < earliest)
        && (forall j | low <= j < at :: !sel.Takes(rs[j]))
        && sent[1..] == Emitted(rs, at + 1, high, earliest, sel)
    decreases high - low
  {
    hide Emitted;
    if low == high {
      EmptyWindow(rs, low, earliest, sel);
    } else {
      WindowsJoin(rs, low, low + 1, high, earliest, sel);
      OneRecord(rs, low, earliest, sel);
      if sel.Takes(rs[low]) {
        assert rs[low].offset == low;
      } else {
        FirstSent(rs, low + 1, high, earliest, sel);
      }
    }
  }

  // The next record selected after a window would take its payload over the budget.
  ghost predicate OverBudget(rs: seq<Stored>, nextOffset: nat, taken: nat, sel: Selection, maxBytes: nat) {
    exists i | nextOffset <= i < |rs| ::
      sel.Takes(rs[i]) && taken + |rs[i].payload| > maxBytes && forall j | nextOffset <= j < i :: !sel.Takes(rs[j])
  }

  lemma BothStreams(rs: seq<Stored>, sel: Selection)
    ensures forall j | 0 <= j < |rs| ::
      sel.Takes(rs[j]) <==> rs[j].stream in sel.streams && BothStreamsOf(sel).Takes(rs[j])
  {
    forall j | 0 <= j < |rs|
      ensures rs[j].stream in {Stdout, Stderr}
    {
      assert rs[j].stream == Stdout || rs[j].stream == Stderr;
    }
  }

  function BothStreamsOf(sel: Selection): Selection { Selection({Stdout, Stderr}, sel.allLines, sel.lines) }

  // Where a bounded read is: `left` is still to come of what is read from `at` on, and the
  // chunks are everything selected before.
  ghost predicate Taking(rs: seq<Stored>, p: Prepared, left: seq<Sent>, chunks: seq<Sent>, nextOffset: nat, at: nat)
    requires p.Prepared?
  {
    && p.start <= nextOffset <= at <= p.end == |rs|
    && left == Emitted(rs, at, p.end, p.earliest, BothStreamsOf(p.sel))
    && chunks == Emitted(rs, p.start, nextOffset, p.earliest, p.sel)
    && (forall j | nextOffset <= j < at :: !p.sel.Takes(rs[j]))
    && (nextOffset == p.start || p.sel.Takes(rs[nextOffset - 1]))
  }

  lemma TakingStarts(rs: seq<Stored>, p: Prepared, left: seq<Sent>)
    requires p.Prepared? && p.start <= p.end == |rs|
      && left == Emitted(rs, p.start, p.end, p.earliest, BothStreamsOf(p.sel))
    ensures Taking(rs, p, left, [], p.start, p.start) && PayloadBytes([]) == 0
  {
    hide Emitted;
    EmptyWindow(rs, p.start, p.earliest, p.sel);
  }

  lemma TakesNext(rs: seq<Stored>, p: Prepared, left: seq<Sent>, chunks: seq<Sent>, nextOffset: nat, at: nat,
      maxBytes: nat)
    requires p.Prepared? && Consecutive(rs, 0) && Taking(rs, p, left, chunks, nextOffset, at) && left != []
    ensures var stored := left[0].record;
      && nextOffset <= stored.offset
      && if stored.stream !in p.sel.streams then Taking(rs, p, left[1..], chunks, nextOffset, stored.offset + 1)
         else
           && Taking(rs, p, left[1..], chunks + [left[0]], stored.offset + 1, stored.offset + 1)
           && (PayloadBytes(chunks) + |stored.payload| > maxBytes ==>
                 OverBudget(rs, nextOffset, PayloadBytes(chunks), p.sel, maxBytes))
  {
    hide Emitted, PayloadBytes;
    FirstSent(rs, at, p.end, p.earliest, BothStreamsOf(p.sel));
    BothStreams(rs, p.sel);
    var stored := left[0].record;
    if stored.stream in p.sel.streams {
      NextChunk(rs, p.start, nextOffset, stored.offset, p.earliest, p.sel);
    }
  }

  lemma TakingEnds(rs: seq<Stored>, p: Prepared, chunks: seq<Sent>, nextOffset: nat, at: nat)
    requires p.Prepared? && Consecutive(rs, 0) && Taking(rs, p, [], chunks, nextOffset, at)
    ensures chunks == Emitted(rs, p.start, p.end, p.earliest, p.sel)
  {
    hide Emitted;
    FirstSent(rs, at, p.end, p.earliest, BothStreamsOf(p.sel));
    BothStreams(rs, p.sel);
    NoMoreChunks(rs, p.start, nextOffset, p.end, p.earliest, p.sel);
  }

  lemma TakingBounds(rs: seq<Stored>, p: Prepared, left: seq<Sent>, chunks: seq<Sent>, nextOffset: nat, at: nat)
    requires p.Prepared? && Taking(rs, p, left, chunks, nextOffset, at)
    ensures p.start <= nextOffset <= at <= p.end == |rs|
      && chunks == Emitted(rs, p.start, nextOffset, p.earliest, p.sel)
    ensures nextOffset == p.start || p.sel.Takes(rs[nextOffset - 1])
  {
  }

  lemma OneChunkMore(chunks: seq<Sent>, chunk: Sent)
    ensures PayloadBytes(chunks + [chunk]) == PayloadBytes(chunks) + |chunk.record.payload| && PayloadBytes([]) == 0
  {
    assert (chunks + [chunk])[..|chunks|] == chunks;
  }

  // Reads what was prepared, as many records as fit in the byte budget.
  method Bounded(log: ProcessLog, p: Prepared, maxBytes: nat)
    returns (chunks: seq<Sent>, nextOffset: nat, truncated: bool)
    requires log.Valid() && p.Prepared? && log.earliest == p.earliest <= p.start <= p.end == log.next
    ensures p.start <= nextOffset <= p.end
    ensures chunks == Emitted(log.records, p.start, nextOffset, p.earliest, p.sel)
    ensures PayloadBytes(chunks) <= maxBytes
    ensures if truncated
            then OverBudget(log.records, nextOffset, PayloadBytes(chunks), p.sel, maxBytes)
                 && (nextOffset == p.start || (nextOffset <= |log.records| && p.sel.Takes(log.records[nextOffset - 1])))
            else nextOffset == p.end
  {
    hide Emitted, log.Valid, Taking, PayloadBytes, OverBudget, Consecutive;
    log.RecordsAreConsecutive();
    var sent := log.ReadRange(p.start, p.end, p.earliest, BothStreamsOf(p.sel));
    chunks, nextOffset, truncated := [], p.start, false;
    TakingStarts(log.records, p, sent);
    ghost var at: nat := p.start;
    assert sent[0..] == sent;
    for i := 0 to |sent|
      invariant Taking(log.records, p, sent[i..], chunks, nextOffset, at)
      invariant PayloadBytes(chunks) <= maxBytes
    {
      TakesNext(log.records, p, sent[i..], chunks, nextOffset, at, maxBytes);
      var stored := sent[i].record;
      assert sent[i..][0] == sent[i] && sent[i..][1..] == sent[i + 1..];
      if stored.stream in p.sel.streams {
        if PayloadBytes(chunks) + |stored.payload| > maxBytes {
          TakingBounds(log.records, p, sent[i..], chunks, nextOffset, at);
          return chunks, nextOffset, true;
        }
        OneChunkMore(chunks, sent[i]);
        chunks := chunks + [sent[i]];
        nextOffset := stored.offset + 1;
      }
      at := stored.offset + 1;
    }
    assert sent[|sent|..] == [];
    TakingEnds(log.records, p, chunks, nextOffset, at);
    nextOffset := p.end;
  }

  datatype Snapshot =
    | Taken(chunks: seq<Sent>, start: nat, nextOffset: nat, end: nat, bytesTruncated: bool)
    | BadRequest
    | NotRetained
    | TooManyReaders

  // What a snapshot of a log whose records these are must hold.
  ghost predicate IsSnapshot(rs: seq<Stored>, snap: Snapshot, from: From, earliest: nat, sel: Selection,
        maxBytes: nat) {
    snap.Taken? ==>
      && earliest <= snap.start <= snap.nextOffset <= snap.end == |rs| && (from.AtOffset? ==> snap.start == from.offset)
      && snap.chunks == Shown(rs, from, snap.nextOffset, earliest, sel) && PayloadBytes(snap.chunks) <= maxBytes
      && if snap.bytesTruncated
         then OverBudget(rs, snap.nextOffset, PayloadBytes(snap.chunks), sel, maxBytes)
              && (snap.nextOffset == snap.start || sel.Takes(rs[snap.nextOffset - 1]))
         else snap.nextOffset == |rs|
  }

  // Takes the records asked for, as many as fit in the byte budget, and says where to go on.
  method TakeSnapshot(log: ProcessLog, from: From, streams: set<Stream>, maxBytes: nat)
    returns (snap: Snapshot, ghost chosen: seq<LineEntry>)
    requires log.Valid()
    ensures snap != TooManyReaders
    ensures snap.BadRequest?
      <==> maxBytes == 0 || maxBytes > MAX_SNAPSHOT || (from.Tail? && from.lines > MAX_TAIL_LINES)
    ensures !snap.BadRequest? ==> (snap.NotRetained? <==> from.AtOffset? && !(log.earliest <= from.offset <= log.next))
    ensures IsSnapshot(log.records, snap, from, log.earliest, Wanted(from, streams, chosen), maxBytes)
    ensures snap.Taken? && from.Tail? ==> LastLines(log, from.lines, streams, chosen)
  {
    hide Emitted, log.Valid, LastLines, Starts;
    chosen := [];
    if maxBytes == 0 || maxBytes > MAX_SNAPSHOT {
      return BadRequest, [];
    }
    var p;
    p, chosen := Prepare(log, from, streams);
    if !p.Prepared? {
      return if p.OutOfRange? then NotRetained else BadRequest, chosen;
    }
    log.RecordsAreConsecutive();
    var chunks, nextOffset, truncated := Bounded(log, p, maxBytes);
    snap := Taken(chunks, p.start, nextOffset, p.end, truncated);
    if truncated {
      SameBudget(log.records, nextOffset, PayloadBytes(chunks), p.sel, Wanted(from, streams, chosen), maxBytes);
    }
  }

  lemma SameBudget(rs: seq<Stored>, nextOffset: nat, taken: nat, a: Selection, b: Selection, maxBytes: nat)
    requires OverBudget(rs, nextOffset, taken, a, maxBytes) && forall r | r in rs :: a.Takes(r) == b.Takes(r)
    ensures OverBudget(rs, nextOffset, taken, b, maxBytes)
  {
    var i :| nextOffset <= i < |rs| && a.Takes(rs[i]) && taken + |rs[i].payload| > maxBytes
             && forall j | nextOffset <= j < i :: !a.Takes(rs[j]);
    forall j | nextOffset <= j <= i
      ensures a.Takes(rs[j]) == b.Takes(rs[j])
    {
      assert rs[j] in rs;
    }
  }

  // A snapshot from an offset gets nowhere exactly when the first record it selects is by
  // itself over the budget.
  lemma StallsIff(rs: seq<Stored>, offset: nat, snap: Snapshot, sel: Selection, maxBytes: nat, earliest: nat)
    requires Consecutive(rs, 0) && snap.Taken? && IsSnapshot(rs, snap, AtOffset(offset), earliest, sel, maxBytes)
    ensures snap.bytesTruncated && snap.nextOffset == offset <==> OverBudget(rs, offset, 0, sel, maxBytes)
    ensures OverBudget(rs, offset, 0, sel, maxBytes) ==> maxBytes < MAX_FRAME
  {
    hide Emitted;
    EmptyWindow(rs, offset, earliest, sel);
    if OverBudget(rs, offset, 0, sel, maxBytes) {
      var i :| offset <= i < |rs| && sel.Takes(rs[i]) && |rs[i].payload| > maxBytes
               && forall j | offset <= j < i :: !sel.Takes(rs[j]);
      assert rs[i].Storable();
      if snap.nextOffset > i {
        NextChunk(rs, offset, offset, i, earliest, sel);
        WindowsJoin(rs, offset, i + 1, snap.nextOffset, earliest, sel);
        FirstIsCounted(snap.chunks);
        assert false;
      }
    }
  }

  lemma {:induction false} FirstIsCounted(sent: seq<Sent>)
    requires sent != []
    ensures |sent[0].record.payload| <= PayloadBytes(sent)
  {
    if |sent| > 1 {
      FirstIsCounted(sent[..|sent| - 1]);
    }
  }

  // A snapshot holds an observer only while it is taken.
  method SnapshotLogs(log: ProcessLog, from: From, streams: set<Stream>, maxBytes: nat)
    returns (snap: Snapshot, ghost chosen: seq<LineEntry>)
    requires log.Valid()
    modifies log`observers, log`segments, log`earliest
    ensures log.Valid() && log.observers == old(log.observers) && old(log.earliest) <= log.earliest
    ensures snap.BadRequest?
      <==> maxBytes == 0 || maxBytes > MAX_SNAPSHOT || (from.Tail? && from.lines > MAX_TAIL_LINES)
    ensures !snap.BadRequest? ==> (snap.TooManyReaders? <==> log.observers >= log.maxObservers)
    ensures snap.NotRetained? ==> from.AtOffset? && !(old(log.earliest) <= from.offset <= log.next)
    ensures IsSnapshot(log.records, snap, from, old(log.earliest), Wanted(from, streams, chosen), maxBytes)
    ensures snap.Taken? && from.Tail? ==> old(LastLines(log, from.lines, streams, chosen))
    ensures snap.Taken? && from.AtOffset? ==> old(log.earliest) <= from.offset <= log.next
  {
    hide log.Valid, LastLines, IsSnapshot, Wanted;
    chosen := [];
    if maxBytes == 0 || maxBytes > MAX_SNAPSHOT || (from.Tail? && from.lines > MAX_TAIL_LINES) {
      IsNoSnapshot(log.records, BadRequest, from, log.earliest, Wanted(from, streams, chosen), maxBytes);
      return BadRequest, [];
    }
    var acquired := log.AcquireObserver();
    if !acquired {
      IsNoSnapshot(log.records, TooManyReaders, from, log.earliest, Wanted(from, streams, chosen), maxBytes);
      return TooManyReaders, [];
    }
    snap, chosen := TakeSnapshot(log, from, streams, maxBytes);
    log.ReleaseObserver();
  }

  lemma IsNoSnapshot(rs: seq<Stored>, snap: Snapshot, from: From, earliest: nat, sel: Selection, maxBytes: nat)
    requires !snap.Taken?
    ensures IsSnapshot(rs, snap, from, earliest, sel, maxBytes)
  {
  }

  // ----- resuming snapshots

  function Records(sent: seq<Sent>): seq<Record> {
    seq(|sent|, i requires 0 <= i < |sent| => sent[i].record)
  }

  // Which records a window holds does not depend on what is retained.
  lemma {:induction false} SameRecords(rs: seq<Stored>, low: nat, high: nat, a: nat, b: nat, sel: Selection)
    ensures Records(Emitted(rs, low, high, a, sel)) == Records(Emitted(rs, low, high, b, sel))
  {
    if rs != [] {
      var init, r := rs[..|rs| - 1], rs[|rs| - 1];
      SameRecords(init, low, high, a, b, sel);
      var takes := low <= r.offset < high && sel.Takes(r);
      RecordsJoin(Emitted(init, low, high, a, sel), if takes then [Sent(r, r.lineOffset < a)] else []);
      RecordsJoin(Emitted(init, low, high, b, sel), if takes then [Sent(r, r.lineOffset < b)] else []);
      assert Records([Sent(r, r.lineOffset < a)]) == Records([Sent(r, r.lineOffset < b)]);
    }
  }

  lemma RecordsJoin(a: seq<Sent>, b: seq<Sent>)
    ensures Records(a + b) == Records(a) + Records(b)
  {
  }

  datatype ReadEnd = CaughtUp | Stalled | Lost | NotServed | Removed

  // What resuming snapshots has read so far.
  ghost predicate ReadSoFar(rs: seq<Stored>, chunks: seq<Sent>, offset: nat, cursor: nat, earliest: nat,
        sel: Selection, trimmed: bool) {
    && offset <= cursor && (cursor <= |rs| || (cursor == offset && chunks == []))
    && Records(chunks) == Records(Emitted(rs, offset, cursor, 0, sel))
    && (!trimmed ==> chunks == Emitted(rs, offset, cursor, earliest, sel))
  }

  lemma NothingRead(rs: seq<Stored>, offset: nat, earliest: nat, sel: Selection)
    ensures ReadSoFar(rs, [], offset, offset, earliest, sel, false)
  {
    EmptyWindow(rs, offset, 0, sel);
    EmptyWindow(rs, offset, earliest, sel);
  }

  lemma StillRead(rs: seq<Stored>, later: seq<Stored>, chunks: seq<Sent>, offset: nat, cursor: nat,
        earliest: nat, sel: Selection, trimmed: bool)
    requires ReadSoFar(rs, chunks, offset, cursor, earliest, sel, trimmed) && rs <= later && Consecutive(later, 0)
    ensures ReadSoFar(later, chunks, offset, cursor, earliest, sel, trimmed)
    ensures ReadSoFar(later, chunks, offset, cursor, earliest, sel, true)
  {
    hide Emitted, Records;
    assert later == rs + later[|rs|..];
    if cursor <= |rs| {
      WindowUnchanged(rs, later[|rs|..], offset, cursor, 0, sel);
      WindowUnchanged(rs, later[|rs|..], offset, cursor, earliest, sel);
    } else {
      EmptyWindow(rs, offset, 0, sel);
      EmptyWindow(later, offset, 0, sel);
      EmptyWindow(later, offset, earliest, sel);
    }
  }

  lemma ReadMore(rs: seq<Stored>, chunks: seq<Sent>, more: seq<Sent>, offset: nat, cursor: nat, next: nat,
                 earliest: nat, seen: nat, sel: Selection, trimmed: bool)
    requires ReadSoFar(rs, chunks, offset, cursor, earliest, sel, trimmed) && Consecutive(rs, 0)
      && cursor <= next <= |rs|
    requires more == Emitted(rs, cursor, next, seen, sel) && (!trimmed ==> seen == earliest)
    ensures ReadSoFar(rs, chunks + more, offset, next, earliest, sel, trimmed)
  {
    hide Emitted, Records;
    WindowsJoin(rs, offset, cursor, next, 0, sel);
    WindowsJoin(rs, offset, cursor, next, earliest, sel);
    SameRecords(rs, cursor, next, seen, 0, sel);
    RecordsJoin(chunks, more);
    RecordsJoin(Emitted(rs, offset, cursor, 0, sel), Emitted(rs, cursor, next, 0, sel));
  }

  lemma ShownFrom(rs: seq<Stored>, snap: Snapshot, offset: nat, earliest: nat, sel: Selection, maxBytes: nat)
    requires snap.Taken? && IsSnapshot(rs, snap, AtOffset(offset), earliest, sel, maxBytes)
    ensures earliest <= offset <= snap.nextOffset <= |rs|
      && snap.chunks == Emitted(rs, offset, snap.nextOffset, earliest, sel)
    ensures !snap.bytesTruncated ==> snap.nextOffset == |rs|
  {
  }

  datatype Answer = Chunks(chunks: seq<Sent>, nextOffset: nat, more: bool) | Ends(end: ReadEnd)

  // One round of a reader: what others do, then its next snapshot. `low` is the first
  // offset retained when the snapshot is taken.
  method Round(log: ProcessLog, steps: seq<Step>, cursor: nat, streams: set<Stream>, maxBytes: nat)
    returns (answer: Answer, ghost low: nat)
    requires log.Valid()
    modifies log
    ensures log.Valid() && old(log.records) <= log.records && (steps == [] ==> log.records == old(log.records))
    ensures old(log.earliest) <= low <= log.earliest
    ensures answer.Chunks? ==>
      && low <= cursor <= answer.nextOffset <= |log.records|
      && answer.chunks == Emitted(log.records, cursor, answer.nextOffset, low, EveryLine(streams))
      && (if answer.more then cursor < answer.nextOffset else answer.nextOffset == |log.records|)
    ensures answer.Ends? ==>
      match answer.end
      case Stalled => OverBudget(log.records, cursor, 0, EveryLine(streams), maxBytes) && maxBytes < MAX_FRAME
      case Lost => !(low <= cursor <= |log.records|)
      case NotServed => maxBytes == 0 || maxBytes > MAX_SNAPSHOT || log.observers >= log.maxObservers
      case Removed => Delete in steps
      case CaughtUp => false
  {
    hide Emitted, log.Valid, OverBudget, IsSnapshot;
    var deleted := Turn(log, steps, 0);
    low := log.earliest;
    if deleted {
      return Ends(Removed), low;
    }
    log.RecordsAreConsecutive();
    var snap, _ := SnapshotLogs(log, AtOffset(cursor), streams, maxBytes);
    if !snap.Taken? {
      return Ends(if snap.NotRetained? then Lost else NotServed), low;
    }
    ShownFrom(log.records, snap, cursor, low, EveryLine(streams), maxBytes);
    StallsIff(log.records, cursor, snap, EveryLine(streams), maxBytes, low);
    if snap.bytesTruncated && snap.nextOffset == cursor {
      return Ends(Stalled), low;
    }
    answer := Chunks(snap.chunks, snap.nextOffset, snap.bytesTruncated);
  }

  // Repeating snapshots from where the last one ended, with anything happening to the log
  // between two of them, gives exactly the selected records once each, in order, up to where
  // the last one ended. Unless the log is deleted, its observers are too many, or retention
  // passed the offset it started from, that is the end of the log; if retention dropped
  // nothing at all the chunks are those of one full read. `low` is the first offset that was
  // retained when the last snapshot was taken.
  method SnapshotAll(log: ProcessLog, offset: nat, streams: set<Stream>, maxBytes: nat, rounds: seq<seq<Step>>)
    returns (chunks: seq<Sent>, cursor: nat, calls: nat, end: ReadEnd, ghost low: nat)
    requires log.Valid()
    modifies log
    ensures log.Valid() && old(log.records) <= log.records && old(log.earliest) <= low <= log.earliest
    ensures ReadSoFar(log.records, chunks, offset, cursor, old(log.earliest), EveryLine(streams),
        old(log.earliest) < low)
    ensures match end
      case CaughtUp => cursor == |log.records|
      case Stalled => OverBudget(log.records, cursor, 0, EveryLine(streams), maxBytes) && maxBytes < MAX_FRAME
      case Lost => !(low <= cursor <= |log.records|) && (offset <= old(log.next) ==> cursor < low)
      case NotServed => maxBytes == 0 || maxBytes > MAX_SNAPSHOT || log.observers >= log.maxObservers
      case Removed => exists i :: 0 <= i < |rounds| && Delete in rounds[i]
    ensures (forall i | 0 <= i < |rounds| :: Delete !in rounds[i]) && log.earliest <= offset <= old(log.next)
            && log.observers < log.maxObservers && MAX_FRAME <= maxBytes <= MAX_SNAPSHOT ==>
      && end.CaughtUp?
      && Records(chunks) == Records(Emitted(log.records, offset, |log.records|, 0, EveryLine(streams)))
      && (log.earliest == old(log.earliest) ==>
            chunks == Emitted(log.records, offset, |log.records|, log.earliest, EveryLine(streams)))
    ensures calls <= |rounds| + 1 + cursor - offset
  {
    hide Emitted, log.Valid, ReadSoFar, OverBudget;
    ghost var earliest, sel := log.earliest, EveryLine(streams);
    log.RecordsAreConsecutive();
    NothingRead(log.records, offset, earliest, sel);
    chunks, cursor, calls, low := [], offset, 0, earliest;
    var i, more := 0, true;
    while i < |rounds| || more
      invariant log.Valid() && old(log.records) <= log.records && earliest <= low <= log.earliest
      invariant i <= |rounds| && offset <= cursor && calls <= i + (if more then 0 else 1) + cursor - offset
      invariant ReadSoFar(log.records, chunks, offset, cursor, earliest, sel, earliest < low)
      invariant offset <= |old(log.records)| ==> cursor <= |log.records|
      invariant !more ==> cursor == |log.records|
      decreases |rounds| - i, more, if cursor < |log.records| then |log.records| - cursor else 0
    {
      ghost var before, trimmed := log.records, earliest < low;
      var answer;
      answer, low := Round(log, if i < |rounds| then rounds[i] else [], cursor, streams, maxBytes);
      log.RecordsAreConsecutive();
      StillRead(before, log.records, chunks, offset, cursor, earliest, sel, trimmed);
      calls := calls + 1;
      if answer.Ends? {
        end := answer.end;
        WhatWasRead(log.records, chunks, offset, cursor, earliest, sel, earliest < low);
        return;
      }
      ReadMore(log.records, chunks, answer.chunks, offset, cursor, answer.nextOffset, earliest, low, sel,
          earliest < low);
      chunks, cursor, more := chunks + answer.chunks, answer.nextOffset, answer.more;
      i := if i < |rounds| then i + 1 else i;
    }
    end := CaughtUp;
    WhatWasRead(log.records, chunks, offset, cursor, earliest, sel, earliest < low);
  }

  lemma WhatWasRead(rs: seq<Stored>, chunks: seq<Sent>, offset: nat, cursor: nat, earliest: nat, sel: Selection,
      trimmed: bool)
    requires ReadSoFar(rs, chunks, offset, cursor, earliest, sel, trimmed)
    ensures Records(chunks) == Records(Emitted(rs, offset, cursor, 0, sel))
    ensures !trimmed ==> chunks == Emitted(rs, offset, cursor, earliest, sel)
  {
  }
}
