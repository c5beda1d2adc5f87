// Reopening a log from its files after a crash cut its last segment short.
module LogRecovery {
  import opened Bytes
  import opened LogRecord
  import opened LogSegment
  import opened LogLines
  import opened LogStore
  import opened ProcessLogs

  datatype Recovery =
    | Recovered(segments: seq<Segment>, records: seq<Stored>, truncated: bool)
    | Unrecoverable

  function WithFile(before: Recovery, first: nat, file: seq<byte>): Recovery {
    if before.Unrecoverable? then Unrecoverable else
    var next := first + |before.records|;
    if ReadHeader(file) != Declares(next) then Unrecoverable else
    match Scan(file, SEGMENT_HEADER, next)
    case ScanFailed => Unrecoverable
    case Scanned(rs, end) =>
      Recovered(before.segments + [Segment(next, next + |rs|, file[..end], OffsetIndex(rs),
                                           LineIndex(rs, Stdout), LineIndex(rs, Stderr))],
                before.records + rs, before.truncated || end < |file|)
  }

  // What the segment files of a log amount to, the first of them named for offset `first`.
  function RecoverAll(files: seq<seq<byte>>, first: nat): Recovery {
    if files == [] then Recovered([], [], false)
    else WithFile(RecoverAll(files[..|files| - 1], first), first, files[|files| - 1])
  }

  // The files of a store whose last record file was cut to `cut` bytes.
  function CutFiles(segs: seq<Segment>, cut: nat): seq<seq<byte>>
    requires segs != [] && cut <= |segs[|segs| - 1].log|
  {
    seq(|segs|, i requires 0 <= i < |segs| => if i < |segs| - 1 then segs[i].log else segs[|segs| - 1].log[..cut])
  }

  // The number of records of a segment that survive the cut.
  function Survivors(seg: Segment, records: seq<Stored>, cut: nat): (w: nat)
    requires seg.first <= seg.next <= |records| && SEGMENT_HEADER <= cut
    ensures seg.first + w <= seg.next
  {
    Whole(records[seg.first..seg.next], cut - SEGMENT_HEADER)
  }

  lemma ScanCutLog(log: seq<byte>, rs: seq<Stored>, first: nat, cut: nat)
    requires SEGMENT_HEADER <= cut <= |log| && log[SEGMENT_HEADER..] == EncodeAll(rs) && Consecutive(rs, first)
    ensures var w := Whole(rs, cut - SEGMENT_HEADER);
      && Position(rs, w) <= cut
      && Scan(log[..cut], SEGMENT_HEADER, first) == Scanned(rs[..w], Position(rs, w))
  {
    hide Encode, EncodeAll, Scan, Whole;
    var body := cut - SEGMENT_HEADER;
    SliceOfCut(log, cut, body);
    assert log[..cut][..cut] == log[..cut];
    ScanOfCut(log[..cut], rs, first, body, 0);
    WholeIsLongest(rs, body);
    var w := Whole(rs, body);
    assert rs[0..w] == rs[..w];
  }

  lemma SurvivorsFit(seg: Segment, records: seq<Stored>, cut: nat)
    requires seg.first <= seg.next <= |records| && SEGMENT_HEADER <= cut
    ensures var w := Survivors(seg, records, cut);
      var rs, kept := records[seg.first..seg.next], records[seg.first..seg.first + w];
      kept == rs[..w] && Position(kept, w) == Position(rs, w) <= cut
  {
    hide Encode, EncodeAll, Whole;
    var w := Survivors(seg, records, cut);
    var rs, kept := records[seg.first..seg.next], records[seg.first..seg.first + w];
    FirstOfSlice(records, seg.first, seg.next, w);
    assert kept[..w] == kept;
    WholeIsLongest(rs, cut - SEGMENT_HEADER);
  }

  lemma FirstOfSlice(records: seq<Stored>, low: nat, high: nat, w: nat)
    requires low + w <= high <= |records|
    ensures records[low..high][..w] == records[low..low + w]
  {
  }

  // Rebuilding one cut segment: exactly its surviving records, with the files
  // appending just those records would have written.
  lemma RebuildOfCut(seg: Segment, records: seq<Stored>, out: seq<LineEntry>, err: seq<LineEntry>, cut: nat)
    requires Covers(seg, records, out, err) && SEGMENT_HEADER <= cut <= |seg.log|
    ensures var w := Survivors(seg, records, cut);
      var kept := records[seg.first..seg.first + w];
      && ReadHeader(seg.log[..cut]) == Declares(seg.first)
      && Scan(seg.log[..cut], SEGMENT_HEADER, seg.first) == Scanned(kept, Position(kept, w))
      && Position(kept, w) <= cut
  {
    hide Encode, EncodeAll, ReadHeader, OffsetIndex, LineIndex, Scan, Position;
    SurvivorsFit(seg, records, cut);
    ScanCutLog(seg.log, records[seg.first..seg.next], seg.first, cut);
    HeaderOfPrefix(seg.log, cut);
  }

  lemma SliceOfCut(log: seq<byte>, cut: nat, a: nat)
    requires SEGMENT_HEADER + a <= cut <= |log|
    ensures log[..cut][..SEGMENT_HEADER + a][SEGMENT_HEADER..] == log[SEGMENT_HEADER..][..a]
  {
  }

  lemma HeaderOfPrefix(log: seq<byte>, cut: nat)
    requires SEGMENT_HEADER <= cut <= |log|
    ensures ReadHeader(log[..cut]) == ReadHeader(log[..SEGMENT_HEADER])
  {
    assert log[..cut][0..8] == log[..SEGMENT_HEADER][0..8];
    assert log[..cut][8..12] == log[..SEGMENT_HEADER][8..12];
    assert log[..cut][12..16] == log[..SEGMENT_HEADER][12..16];
    assert log[..cut][16..24] == log[..SEGMENT_HEADER][16..24];
  }

  // The files recovery leaves of a segment of which w records survived.
  function RebuiltSegment(seg: Segment, kept: seq<Stored>): Segment
    requires Position(kept, |kept|) <= |seg.log|
  {
    Segment(seg.first, seg.first + |kept|, seg.log[..Position(kept, |kept|)], OffsetIndex(kept),
            LineIndex(kept, Stdout), LineIndex(kept, Stderr))
  }

  lemma RebuiltIsSegment(seg: Segment, records: seq<Stored>, out: seq<LineEntry>, err: seq<LineEntry>, w: nat)
    requires Covers(seg, records, out, err) && seg.first + w <= seg.next
    ensures var kept := records[seg.first..seg.first + w];
      && Position(kept, w) <= |seg.log|
      && IsSegmentOf(RebuiltSegment(seg, kept), kept, [], [])
  {
    hide Encode, EncodeAll, ReadHeader, OffsetIndex, LineIndex;
    var rs, kept := records[seg.first..seg.next], records[seg.first..seg.first + w];
    EncodeAllSplit(rs, w);
    assert rs[..w] == kept && kept[..w] == kept;
    SliceOfCut(seg.log, |seg.log|, |EncodeAll(kept)|);
    assert seg.log[..|seg.log|] == seg.log;
    assert seg.log[..Position(kept, w)][..SEGMENT_HEADER] == seg.log[..SEGMENT_HEADER];
  }

  // An uncut segment rebuilds to itself, apart from the entries finalization added.
  lemma RebuildOfWhole(seg: Segment, records: seq<Stored>)
    requires Covers(seg, records, [], [])
    ensures var kept := records[seg.first..seg.next];
      && ReadHeader(seg.log) == Declares(seg.first)
      && Scan(seg.log, SEGMENT_HEADER, seg.first) == Scanned(kept, |seg.log|)
      && seg == Segment(seg.first, seg.next, seg.log, OffsetIndex(kept), LineIndex(kept, Stdout),
          LineIndex(kept, Stderr))
  {
    hide Encode, EncodeAll, ReadHeader, OffsetIndex, LineIndex, Scan, Position;
    var rs := records[seg.first..seg.next];
    RebuildOfCut(seg, records, [], [], |seg.log|);
    assert seg.log[..|seg.log|] == seg.log;
    EndOfFile(seg.log, rs);
    assert Survivors(seg, records, |seg.log|) == |rs|;
  }

  // The segments a crash leaves once recovery is done with them.
  ghost function AfterCrash(segs: seq<Segment>, records: seq<Stored>, cut: nat): seq<Segment>
    requires segs != []
    requires var last := segs[|segs| - 1]; last.first <= last.next <= |records| && SEGMENT_HEADER <= cut <= |last.log|
  {
    var last := segs[|segs| - 1];
    SurvivorsFit(last, records, cut);
    segs[|segs| - 1 := RebuiltSegment(last, records[last.first..last.first + Survivors(last, records, cut)])]
  }

  lemma RecoverOneMore(before: Recovery, seg: Segment, segs: seq<Segment>, records: seq<Stored>, earliest: nat)
    requires Covers(seg, records, [], []) && earliest <= seg.first
    requires before == Recovered(segs, records[earliest..seg.first], false)
    ensures WithFile(before, earliest, seg.log) == Recovered(segs + [seg], records[earliest..seg.next], false)
  {
    hide Encode, EncodeAll, ReadHeader, OffsetIndex, LineIndex, Scan, IsSegmentOf;
    RebuildOfWhole(seg, records);
    assert seg.log[..|seg.log|] == seg.log;
    assert records[earliest..seg.first] + records[seg.first..seg.next] == records[earliest..seg.next];
  }

  // Recovering the segments before the last one gives them back unchanged.
  lemma {:induction false} RecoverWhole(segs: seq<Segment>, records: seq<Stored>, earliest: nat,
                                        out: seq<LineEntry>, err: seq<LineEntry>, cut: nat, n: nat)
    requires IsStore(segs, records, earliest, out, err) && segs != [] && cut <= |segs[|segs| - 1].log|
    requires n < |segs|
    ensures earliest <= segs[n].first <= |records|
    ensures RecoverAll(CutFiles(segs, cut)[..n], earliest)
         == Recovered(segs[..n], records[earliest..segs[n].first], false)
  {
    hide Encode, EncodeAll, ReadHeader, OffsetIndex, LineIndex, Scan, IsSegmentOf;
    Bounds(segs, records, earliest, out, err);
    var files := CutFiles(segs, cut)[..n];
    if n > 0 {
      RecoverWhole(segs, records, earliest, out, err, cut, n - 1);
      assert files[..n - 1] == CutFiles(segs, cut)[..n - 1];
      var seg := segs[n - 1];
      RecoverOneMore(RecoverAll(files[..n - 1], earliest), seg, segs[..n - 1], records, earliest);
      assert segs[..n] == segs[..n - 1] + [seg];
    } else {
      assert records[earliest..earliest] == [] && files == [] && segs[..0] == [];
    }
  }

  // Crash recovery: cutting the last segment anywhere after its header and
  // recovering loses exactly the records that do not fit whole before the cut.
  lemma RecoverAfterCrash(segs: seq<Segment>, records: seq<Stored>, earliest: nat,
                          out: seq<LineEntry>, err: seq<LineEntry>, cut: nat)
    requires IsStore(segs, records, earliest, out, err) && segs != []
    requires SEGMENT_HEADER <= cut <= |segs[|segs| - 1].log|
    ensures var last := segs[|segs| - 1];
      && last.first <= last.next <= |records|
      && var end := last.first + Survivors(last, records, cut);
        && earliest <= end <= |records|
        && RecoverAll(CutFiles(segs, cut), earliest)
           == Recovered(AfterCrash(segs, records, cut), records[earliest..end],
                        Position(records[last.first..end], end - last.first) < cut)
        && IsStore(AfterCrash(segs, records, cut), records[..end], earliest, [], [])
  {
    hide Encode, EncodeAll, ReadHeader, OffsetIndex, LineIndex, Scan, IsSegmentOf, Whole, Position, RebuiltSegment,
        WithFile;
    Bounds(segs, records, earliest, out, err);
    var n := |segs| - 1;
    var last := segs[n];
    RecoverWhole(segs, records, earliest, out, err, cut, n);
    SurvivorsFit(last, records, cut);
    RecoverCut(RecoverAll(CutFiles(segs, cut)[..n], earliest), last, segs[..n], records, earliest, out, err, cut);
    var files := CutFiles(segs, cut);
    assert files[|files| - 1] == last.log[..cut];
    assert AfterCrash(segs, records, cut) == segs[..n] + [AfterCrash(segs, records, cut)[n]];
    CrashedIsStore(segs, records, earliest, out, err, last.first + Survivors(last, records, cut));
  }

  // What recovering the cut last segment after the others comes to.
  ghost predicate CutRecovered(before: Recovery, seg: Segment, segs: seq<Segment>, records: seq<Stored>,
        earliest: nat, cut: nat)
    requires earliest <= seg.first <= seg.next <= |records| && SEGMENT_HEADER <= cut <= |seg.log|
  {
    var end := seg.first + Survivors(seg, records, cut);
    var kept := records[seg.first..end];
    && Position(kept, |kept|) <= cut
    && WithFile(before, earliest, seg.log[..cut])
       == Recovered(segs + [RebuiltSegment(seg, kept)], records[earliest..end], Position(kept, |kept|) < cut)
  }

  lemma RecoverCut(before: Recovery, seg: Segment, segs: seq<Segment>, records: seq<Stored>, earliest: nat,
                   out: seq<LineEntry>, err: seq<LineEntry>, cut: nat)
    requires Covers(seg, records, out, err) && earliest <= seg.first && SEGMENT_HEADER <= cut <= |seg.log|
    requires before == Recovered(segs, records[earliest..seg.first], false)
    ensures CutRecovered(before, seg, segs, records, earliest, cut)
  {
    hide Encode, EncodeAll, ReadHeader, OffsetIndex, LineIndex, Scan, IsSegmentOf, Survivors;
    RebuildOfCut(seg, records, out, err, cut);
    var end := seg.first + Survivors(seg, records, cut);
    var kept := records[seg.first..end];
    assert seg.log[..cut][..Position(kept, |kept|)] == seg.log[..Position(kept, |kept|)];
    assert records[earliest..seg.first] + kept == records[earliest..end];
  }

  // A store whose last segment was rebuilt from a prefix of its records is a store of that prefix.
  lemma CrashedIsStore(segs: seq<Segment>, records: seq<Stored>, earliest: nat,
                       out: seq<LineEntry>, err: seq<LineEntry>, end: nat)
    requires IsStore(segs, records, earliest, out, err) && segs != []
    requires segs[|segs| - 1].first <= end <= segs[|segs| - 1].next <= |records|
    ensures var last := segs[|segs| - 1];
      var kept := records[last.first..end];
      && Position(kept, |kept|) <= |last.log|
      && IsStore(segs[|segs| - 1 := RebuiltSegment(last, kept)], records[..end], earliest, [], [])
  {
    hide IsSegmentOf, Position, EncodeAll, OffsetIndex, LineIndex;
    var n := |segs| - 1;
    var last := segs[n];
    RebuiltIsSegment(last, records, out, err, end - last.first);
    assert records[..end][last.first..end] == records[last.first..end];
    Bounds(segs, records, earliest, out, err);
    forall i | 0 <= i < n
      ensures Covers(segs[i], records[..end], [], [])
    {
      TiledBefore(segs, earliest, |records|, i, n);
      CoversLonger(segs[i], records, records[..end], [], []);
    }
  }

  lemma {:induction false} TiledBefore(segs: seq<Segment>, earliest: nat, next: nat, i: nat, n: nat)
    requires Tiled(segs, earliest, next) && i < n < |segs|
    ensures segs[i].next <= segs[n].first
    decreases n - i
  {
    if i + 1 < n {
      TiledBefore(segs, earliest, next, i + 1, n);
    }
  }

  // ----- reopening

  datatype Persisted = Persisted(earliest: nat, next: nat, complete: bool, expired: bool)

  // The open line a stream is left with after one more recovered record.
  method Follow(state: LineState, record: Stored) returns (after: LineState)
    ensures after == Advance(state, record)
  {
    after := state;
    if record.LineStart() || !after.open {
      after := LineState(true, record.lineOffset, 0, 0);
    }
    after := after.(last := record.offset, timestamp := record.timestamp);
    if record.LineEnd() {
      after := NO_LINE;
    }
  }

  // The open lines after more recovered records.
  method FollowLines(before: seq<Stored>, records: seq<Stored>, stdout: LineState, stderr: LineState)
    returns (out: LineState, err: LineState)
    requires stdout == OpenLine(before, Stdout) && stderr == OpenLine(before, Stderr)
    ensures out == OpenLine(before + records, Stdout) && err == OpenLine(before + records, Stderr)
  {
    out, err := stdout, stderr;
    assert before + records[..0] == before;
    for i := 0 to |records|
      invariant out == OpenLine(before + records[..i], Stdout) && err == OpenLine(before + records[..i], Stderr)
    {
      var more := before + records[..i + 1];
      assert more[..|more| - 1] == before + records[..i] && more[|more| - 1] == records[i];
      if records[i].stream == Stderr {
        err := Follow(err, records[i]);
      } else {
        out := Follow(out, records[i]);
      }
    }
    assert records[..|records|] == records;
  }

  lemma RecoverNothing(first: nat)
    ensures RecoverAll([], first) == Recovered([], [], false)
    ensures OpenLine([], Stdout) == OpenLine([], Stderr) == NO_LINE
  {
  }

  lemma RecoverNext(files: seq<seq<byte>>, file: seq<byte>, first: nat)
    ensures RecoverAll(files + [file], first) == WithFile(RecoverAll(files, first), first, file)
  {
    assert (files + [file])[..|files|] == files;
  }

  // Rebuilds the segments of a log from its files, in name order.
  method RebuildAll(files: seq<seq<byte>>, first: nat)
    returns (result: Recovery, stdout: LineState, stderr: LineState)
    ensures result == RecoverAll(files, first)
    ensures result.Recovered? ==>
      stdout == OpenLine(result.records, Stdout) && stderr == OpenLine(result.records, Stderr)
  {
    hide ReadHeader, Scan, OffsetIndex, LineIndex, Position, RecoverAll, OpenLine;
    stdout, stderr := NO_LINE, NO_LINE;
    var segments: seq<Segment>, records: seq<Stored>, truncated := [], [], false;
    RecoverNothing(first);
    assert files[..0] == [];
    for i := 0 to |files|
      invariant RecoverAll(files[..i], first) == Recovered(segments, records, truncated)
      invariant stdout == OpenLine(records, Stdout) && stderr == OpenLine(records, Stderr)
    {
      RecoverNext(files[..i], files[i], first);
      assert files[..i + 1] == files[..i] + [files[i]];
      var rebuilt := Rebuild(files[i], first + |records|);
      if rebuilt.RebuildError? {
        UnrecoverableStays(files, first, i + 1);
        return Unrecoverable, stdout, stderr;
      }
      stdout, stderr := FollowLines(records, rebuilt.records, stdout, stderr);
      segments, records := segments + [rebuilt.segment], records + rebuilt.records;
      truncated := truncated || rebuilt.truncated;
    }
    assert files[..|files|] == files;
    result := Recovered(segments, records, truncated);
  }

  lemma {:induction false} UnrecoverableStays(files: seq<seq<byte>>, first: nat, n: nat)
    requires n <= |files| && RecoverAll(files[..n], first).Unrecoverable?
    ensures RecoverAll(files, first).Unrecoverable?
    decreases |files| - n
  {
    if n < |files| {
      assert files[..n + 1][..n] == files[..n];
      UnrecoverableStays(files, first, n + 1);
    } else {
      assert files[..n] == files;
    }
  }

  lemma {:induction false} RecoveryStartsAt(files: seq<seq<byte>>, first: nat)
    requires files != [] && RecoverAll(files, first).Recovered?
    ensures var r := RecoverAll(files, first); r.segments != [] && r.segments[0].first == first
  {
    hide ReadHeader, Scan, OffsetIndex, LineIndex;
    if |files| > 1 {
      RecoveryStartsAt(files[..|files| - 1], first);
    } else {
      assert files[..0] == [];
    }
  }

  // Reopens a log. `prior` stands for the records before the first retained offset.
  method OpenLog(config: ProcessLog, files: seq<seq<byte>>, first: nat, saved: Persisted, finalized: bool,
                 ghost prior: seq<Stored>)
    returns (log: ProcessLog?)
    ensures log == null <==> files != [] && RecoverAll(files, first).Unrecoverable?
    ensures log != null ==> fresh(log) && log.finalized == finalized && log.expired == saved.expired && !log.active
    ensures log != null ==> !log.broken && log.observers == 0 && log.origin == log.earliest
    ensures log != null ==>
      log.maxBytes == config.maxBytes && log.segmentBytes == config.segmentBytes
        && log.maxObservers == config.maxObservers
    ensures log != null && finalized ==> log.stdout == log.stderr == NO_LINE
    ensures log != null && files == [] ==>
      && log.segments == [] && log.records == prior && log.complete == saved.complete
      && log.earliest == saved.earliest && log.next == saved.next
      && log.stdout == log.stderr == NO_LINE && log.openOut == log.openErr == []
    ensures log != null && files != [] ==>
      var r := RecoverAll(files, first);
      var out, err := OpenLine(r.records, Stdout), OpenLine(r.records, Stderr);
      && log.records == prior + r.records && log.complete == (saved.complete && !r.truncated)
      && log.earliest == first && log.next == first + |r.records|
      && (if finalized then log.segments == EnterOpen(r.segments, out, err)
                            && log.openOut == OpenEntry(out) && log.openErr == OpenEntry(err)
          else log.segments == r.segments && log.stdout == out && log.stderr == err && log.openOut == log.openErr == [])
  {
    hide RecoverAll, OpenLine, OpenEntry;
    if files == [] {
      log := new ProcessLog.Restore(config.maxBytes, config.segmentBytes, config.maxObservers, [], saved.earliest,
                                    saved.next, finalized, saved.complete, saved.expired, NO_LINE, NO_LINE, prior, [],
                                        []);
      return;
    }
    var recovery, out, err := RebuildAll(files, first);
    if recovery.Unrecoverable? {
      return null;
    }
    RecoveryStartsAt(files, first);
    var segments := recovery.segments;
    if finalized {
      var last := EnterOpenLines(segments[|segments| - 1], out, err);
      segments := segments[|segments| - 1 := last];
      log := new ProcessLog.Restore(config.maxBytes, config.segmentBytes, config.maxObservers, segments, first,
                                    first + |recovery.records|, true, saved.complete && !recovery.truncated,
                                    saved.expired, NO_LINE, NO_LINE, prior + recovery.records,
                                    OpenEntry(out), OpenEntry(err));
    } else {
      log := new ProcessLog.Restore(config.maxBytes, config.segmentBytes, config.maxObservers, segments, first,
                                    first + |recovery.records|, false, saved.complete && !recovery.truncated,
                                    saved.expired, out, err, prior + recovery.records, [], []);
    }
  }

  // A crash at any byte after the last segment's header, followed by a reopen, gives
  // a valid log of the longest prefix of whole records.
  method CrashAndReopen(log: ProcessLog, cut: nat, saved: Persisted, finalized: bool) returns (again: ProcessLog?)
    requires log.Valid() && log.segments != []
    requires SEGMENT_HEADER <= cut <= |log.segments[|log.segments| - 1].log|
    ensures again != null && fresh(again) && again.Valid() && again.finalized == finalized
    ensures var last := log.segments[|log.segments| - 1];
      && last.first <= last.next <= |log.records|
      && var end := last.first + Survivors(last, log.records, cut);
        && again.earliest == log.earliest && again.next == end
        && again.records == log.records[..end]
        && again.complete == (saved.complete && Position(log.records[last.first..end], end - last.first) == cut)
  {
    hide RecoverAll, OpenLine, OpenEntry, IsStore, WellLined, Continues, Survivors, Position, RebuiltSegment;
    ghost var records, earliest := log.records, log.earliest;
    ghost var last := log.segments[|log.segments| - 1];
    Bounds(log.segments, records, earliest, log.openOut, log.openErr);
    RecoverAfterCrash(log.segments, records, earliest, log.openOut, log.openErr, cut);
    ghost var end := last.first + Survivors(last, records, cut);
    SurvivorsFit(last, records, cut);
    EarliestIs(log.segments, records, earliest, log.openOut, log.openErr);
    again := OpenLog(log, CutFiles(log.segments, cut), log.segments[0].first, saved, finalized, records[..earliest]);
    assert records[..earliest] + records[earliest..end] == records[..end];
    LinesOfPrefix(records, log.origin, earliest, end);
    assert again.records[again.origin..] == records[earliest..end];
    ghost var segs := AfterCrash(log.segments, records, cut);
    if finalized {
      AddOpenEntries(segs, records[..end], earliest, OpenEntry(OpenLine(records[earliest..end], Stdout)),
                     OpenEntry(OpenLine(records[earliest..end], Stderr)));
    } else {
      again.OpenStartsBefore(Stdout);
    }
  }

  lemma LinesOfPrefix(records: seq<Stored>, origin: nat, earliest: nat, end: nat)
    requires origin <= earliest <= end <= |records| && WellLined(records) && Continues(records[origin..])
    ensures WellLined(records[..end]) && Continues(records[earliest..end])
  {
    hide WellLined, Continues;
    WellLinedPrefix(records, end);
    ContinuesPrefix(records[origin..], end - origin);
    assert records[origin..][..end - origin] == records[origin..earliest] + records[earliest..end];
    ContinuesLater(records[origin..earliest], records[earliest..end]);
  }
}
