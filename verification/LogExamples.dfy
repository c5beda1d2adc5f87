// Inputs on which a process log does not do what it is for.
module LogExamples {
  import opened Bytes
  import opened LogRecord
  import opened LogSegment
  import opened LogLines
  import opened LogStore
  import opened ProcessLogs
  import opened LogRecovery
  import opened LogTail

  // The file of a segment that holds these records from offset 0 on.
  function FileOf(records: seq<Stored>): seq<byte> { SegmentHeader(0, 0) + EncodeAll(records) }

  function SegmentOf(records: seq<Stored>): Segment {
    Segment(0, |records|, FileOf(records), OffsetIndex(records), LineIndex(records, Stdout), LineIndex(records, Stderr))
  }

  lemma FileIsSegment(records: seq<Stored>)
    requires Consecutive(records, 0)
    ensures Covers(SegmentOf(records), records, [], [])
  {
    hide SegmentHeader, ReadHeader, EncodeAll, OffsetIndex, LineIndex;
    var h, body := SegmentHeader(0, 0), EncodeAll(records);
    ReadHeaderInverts(0, 0, []);
    assert h + [] == h && (h + body)[..SEGMENT_HEADER] == h && (h + body)[SEGMENT_HEADER..] == body;
    assert records[0..|records|] == records;
    assert LineIndex(records, Stdout) + [] == LineIndex(records, Stdout);
    assert LineIndex(records, Stderr) + [] == LineIndex(records, Stderr);
  }

  lemma FileRecovers(records: seq<Stored>)
    requires Consecutive(records, 0)
    ensures RecoverAll([FileOf(records)], 0) == Recovered([SegmentOf(records)], records, false)
  {
    hide SegmentHeader, ReadHeader, EncodeAll, OffsetIndex, LineIndex, Scan;
    FileIsSegment(records);
    RebuildOfWhole(SegmentOf(records), records);
    assert records[0..|records|] == records;
    var file := FileOf(records);
    var files := [file];
    assert file[..|file|] == file && files[..0] == [];
  }

  // A header with nothing after it, written for the offset after the records.
  lemma TornRecovers(records: seq<Stored>)
    requires Consecutive(records, 0) && |records| < TWO_64
    ensures RecoverAll([FileOf(records), NewSegment(|records|, 0).log], 0)
         == Recovered([SegmentOf(records), NewSegment(|records|, 0)], records, false)
  {
    hide SegmentHeader, ReadHeader, EncodeAll, OffsetIndex, LineIndex, Scan, FileOf, SegmentOf;
    FileRecovers(records);
    var seg := NewSegment(|records|, 0);
    NewSegmentIsEmpty(|records|, 0);
    assert records[|records|..|records|] == [];
    RebuildOfWhole(seg, records);
    var files := [FileOf(records), seg.log];
    assert files[..1] == [FileOf(records)];
    assert seg.log[..|seg.log|] == seg.log && records + [] == records;
  }

  function Segments(records: seq<Stored>, torn: bool): seq<Segment> {
    [SegmentOf(records)] + if torn then [NewSegment(|records|, 0)] else []
  }

  lemma SegmentsAreStore(records: seq<Stored>, torn: bool)
    requires Consecutive(records, 0) && |records| < TWO_64 && (torn ==> records != [])
    ensures IsStore(Segments(records, torn), records, 0, [], [])
  {
    hide NewSegment, SegmentOf, IsSegmentOf;
    FileIsSegment(records);
    OneSegment(records);
    NewSegmentIsEmpty(|records|, 0);
    NewSegmentBounds(|records|, 0);
    assert records[|records|..|records|] == [];
    assert [SegmentOf(records)] + [] == [SegmentOf(records)];
    assert Segments(records, torn)[0] == SegmentOf(records);
    assert torn ==> Segments(records, torn)[1] == NewSegment(|records|, 0);
  }

  lemma OneSegment(records: seq<Stored>)
    ensures SegmentOf(records).first == 0 && SegmentOf(records).next == |records|
  {
  }

  // A log holding these records that is reopened while its process runs; torn when a crash
  // left a last segment without records.
  method Reopened(ghost records: seq<Stored>, file: seq<byte>, torn: bool, next: nat) returns (log: ProcessLog)
    requires file == FileOf(records) && next == |records| < TWO_64 && (torn ==> records != [])
    requires Consecutive(records, 0) && WellLined(records) && Continues(records)
    ensures fresh(log) && log.Valid() && !log.finalized && !log.broken && !log.active && log.observers == 0
    ensures log.maxObservers == 1 && log.records == records && log.earliest == log.origin == 0
    ensures torn ==> log.HeaderOnly()
  {
    hide WellLined, Continues, OpenLine, NewSegment, FileOf, SegmentOf, IsStore, RecoverAll, Consecutive;
    FileRecovers(records);
    TornRecovers(records);
    SegmentsAreStore(records, torn);
    NewSegmentBounds(next, 0);
    var config := new ProcessLog(0, 1048576, 1);
    var files := if torn then [file, NewSegment(next, 0).log] else [file];
    var reopened := OpenLog(config, files, 0, Persisted(0, 0, true, false), false, []);
    assert [SegmentOf(records)] + [] == [SegmentOf(records)];
    assert [] + records == records && records[0..] == records;
    assert reopened.segments == Segments(records, torn);
    OpenIsNotNext(records);
    log := reopened;
  }

  lemma OpenIsNotNext(records: seq<Stored>)
    requires Consecutive(records, 0) && WellLined(records) && Continues(records)
    ensures forall s :: OpenLine(records, s).open ==> OpenLine(records, s).start < |records|
  {
    hide WellLined, Continues, OpenLine;
    assert records[0..] == records;
    forall s | OpenLine(records, s).open
      ensures OpenLine(records, s).start < |records|
    {
      OpenLineFacts(records, 0, s);
    }
  }

  // One line of one byte on the standard output, with its newline or without.
  function OneLine(ended: bool): seq<Stored> {
    [Record(0, 0, 0, Stdout, if ended then 3 else 1, [10])]
  }

  lemma OneLineIsSound(ended: bool)
    ensures var rs := OneLine(ended);
      && |rs| == 1 && Consecutive(rs, 0) && WellLined(rs) && Continues(rs)
      && rs[0].LineEnd() == ended && rs[0].LineStart()
      && OpenLine(rs, Stdout) == (if ended then NO_LINE else LineState(true, 0, 0, 0))
        && OpenLine(rs, Stderr) == NO_LINE
      && LineIndex(rs, Stdout) == (if ended then [LineEntry(0, 0, 0)] else []) && LineIndex(rs, Stderr) == []
  {
    var rs := OneLine(ended);
    assert rs[..0] == [];
  }

  lemma OneLinePool(log: ProcessLog)
    requires log.Valid() && !log.finalized && log.records == OneLine(true) && log.earliest == log.origin == 0
    ensures Pool(log, {Stdout, Stderr}) == [LineEntry(0, 0, 0)]
  {
    hide IsStore, WellLined, Continues, OpenLine, LineIndex, AllLines;
    OneLineIsSound(true);
    AllIndexedLines(log.segments, log.records, 0, [], [], Stdout);
    AllIndexedLines(log.segments, log.records, 0, [], [], Stderr);
    assert log.records[0..] == log.records;
  }

  // A reopened log whose last segment lost all its records refuses every later write, for a
  // segment of that name exists. A tail of one line then has none, although there is one.
  method HeaderOnlyLogFails()
    returns (log: ProcessLog, ok: bool, selected: set<nat>, ghost lines: seq<LineEntry>)
    ensures log.Valid() && !log.finalized && !ok && log.records == OneLine(true)
    ensures Pool(log, {Stdout, Stderr}) == [LineEntry(0, 0, 0)] && selected == {1}
  {
    hide ProcessLog.Valid, WellLined, Continues, OpenLine, FileOf, LineIndex, OneLine, Consecutive, LastLines, Pool,
        HasPhantom;
    OneLineIsSound(true);
    log := Reopened(OneLine(true), FileOf(OneLine(true)), true, 1);
    ghost var added;
    ok, added := RefusedWrite(log);
    OneLinePool(log);
    var start, truncated;
    start, selected, truncated, lines := PrepareTail(log, 1, {Stdout, Stderr});
    FirstGivesWay(log, lines);
  }

  // A write of one byte to the other stream, refused.
  method RefusedWrite(log: ProcessLog) returns (ok: bool, ghost added: seq<Stored>)
    requires log.Valid() && !log.finalized && !log.broken && log.HeaderOnly() && log.records == OneLine(true)
    requires log.origin == log.earliest == 0
    modifies log
    ensures log.Valid() && !ok && !log.finalized && log.records == old(log.records) && log.origin == log.earliest == 0
    ensures log.next == 1 && HasPhantom(log, {Stdout, Stderr})
  {
    hide log.Valid, OpenLine, OneLine;
    OneLineIsSound(true);
    log.RecordsAreConsecutive();
    var written;
    written, ok, added := log.Write(Stderr, [65], 0);
    log.RecordsAreConsecutive();
    assert log.records[0..] == log.records;
  }

  lemma FirstGivesWay(log: ProcessLog, lines: seq<LineEntry>)
    requires log.next == 1 && HasPhantom(log, {Stdout, Stderr}) && Pool(log, {Stdout, Stderr}) == [LineEntry(0, 0, 0)]
    requires LastLines(log, 1, {Stdout, Stderr}, lines)
    ensures Starts(lines) + (if PhantomTakes(log, 1, {Stdout, Stderr}) then {log.next} else {}) == {1}
  {
    hide HasPhantom, Pool;
    assert LineEntry(0, 0, 0) in Pool(log, {Stdout, Stderr});
    assert lines == [];
  }

  lemma ForgottenPool(log: ProcessLog)
    requires log.Valid() && log.finalized && log.records == OneLine(false) && log.earliest == log.origin == 0
    requires !NamesAll(log, Stdout)
    ensures Pool(log, {Stdout, Stderr}) == [] && !HasPhantom(log, {Stdout, Stderr})
  {
    hide WellLined, Continues, OpenLine, LineIndex, OneLine, NamesAll, AllLines, IsStore;
    OneLineIsSound(false);
    assert log.records[0..] == log.records;
    TailSeesEveryLine(log, Stdout);
    RetainedOpenLine(log, Stdout);
    AllIndexedLines(log.segments, log.records, 0, log.openOut, log.openErr, Stderr);
    assert LinesOf(log, Stdout, {Stdout, Stderr}) == LinesOf(log, Stdout, {Stdout});
  }

  // A log reopened with a line still open and ended before anything more is written: its
  // only line is in no index, so a tail of one line has none.
  method OpenLineIsForgotten() returns (log: ProcessLog, selected: set<nat>)
    ensures log.Valid() && log.finalized && !log.broken && log.records == OneLine(false) && log.earliest == 0
    ensures selected == {}
  {
    hide ProcessLog.Valid, WellLined, Continues, OpenLine, FileOf, LineIndex, OneLine, Consecutive, NamesAll, Pool,
        HasPhantom;
    OneLineIsSound(false);
    log := Reopened(OneLine(false), FileOf(OneLine(false)), false, 1);
    var held := log.AcquireObserver();
    assert log.records[0..] == log.records;
    EndLog(log);
    ForgottenPool(log);
    var start, truncated;
    ghost var lines;
    start, selected, truncated, lines := PrepareTail(log, 1, {Stdout, Stderr});
  }
}
