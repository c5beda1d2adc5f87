// The segmented process log: an append-only sequence of records, of which a
// suffix of whole segments is retained.
module ProcessLogs {
  import opened Bytes
  import opened LogRecord
  import opened LogSegment
  import opened LogLines
  import opened LogStore

  const NEWLINE: byte := 10

  // The bytes a run of records carries.
  ghost function Joined(rs: seq<Stored>): seq<byte> {
    if rs == [] then [] else Joined(rs[..|rs| - 1]) + rs[|rs| - 1].payload
  }

  // One record of a write: it ends at the first newline or at the frame limit.
  ghost predicate IsPiece(r: Record, stream: Stream, now: int) {
    && r.stream == stream && r.timestamp == now
    && 0 < |r.payload| <= MAX_FRAME
    && NEWLINE !in r.payload[..|r.payload| - 1]
    && (r.LineEnd() <==> r.payload[|r.payload| - 1] == NEWLINE)
  }

  // The records one write of a payload adds.
  ghost predicate Splits(rs: seq<Stored>, stream: Stream, now: int, payload: seq<byte>) {
    && Joined(rs) == payload
    && (forall r | r in rs :: IsPiece(r, stream, now))
    && (forall i | 0 <= i < |rs| - 1 :: rs[i].LineEnd() || |rs[i].payload| == MAX_FRAME)
  }

  lemma SplitsNothing(stream: Stream, now: int)
    ensures Splits([], stream, now, [])
  {
  }

  lemma SplitsMore(rs: seq<Stored>, r: Stored, stream: Stream, now: int, payload: seq<byte>)
    requires Splits(rs, stream, now, payload) && IsPiece(r, stream, now)
    requires rs != [] ==> rs[|rs| - 1].LineEnd() || |rs[|rs| - 1].payload| == MAX_FRAME
    ensures Splits(rs + [r], stream, now, payload + r.payload)
  {
    assert (rs + [r])[..|rs|] == rs;
  }

  // The segments left after dropping as many from the front as it takes to fit.
  function Trimmed(segs: seq<Segment>, keepLast: bool, limit: nat): seq<Segment> {
    if segs == [] || DiskBytes(segs) <= limit || (keepLast && |segs| == 1) then segs
    else Trimmed(segs[1..], keepLast, limit)
  }

  // Retention drops the shortest prefix of segments that brings the log within its limit.
  lemma {:induction false} TrimmedIsSuffix(segs: seq<Segment>, keepLast: bool, limit: nat) returns (dropped: nat)
    ensures var left := Trimmed(segs, keepLast, limit);
      && dropped <= |segs| && left == segs[dropped..]
      && (DiskBytes(left) <= limit || (keepLast && |left| == 1))
      && (dropped > 0 ==> limit < DiskBytes(segs[dropped - 1..]))
      && (keepLast && segs != [] ==> left != [])
  {
    hide DiskBytes;
    DiskBytesOfNone();
    if segs == [] || DiskBytes(segs) <= limit || (keepLast && |segs| == 1) {
      dropped := 0;
    } else {
      dropped := TrimmedIsSuffix(segs[1..], keepLast, limit);
      assert segs[1..][dropped..] == segs[dropped + 1..];
      if dropped > 0 {
        assert segs[1..][dropped - 1..] == segs[dropped..];
      } else {
        assert segs[0..] == segs;
      }
      dropped := dropped + 1;
    }
  }

  lemma DiskBytesOfNone()
    ensures DiskBytes([]) == 0
  {
  }

  method IndexByte(bs: seq<byte>, b: byte) returns (index: int)
    ensures index == -1 ==> b !in bs
    ensures index != -1 ==> 0 <= index < |bs| && bs[index] == b && b !in bs[..index]
  {
    for i := 0 to |bs|
      invariant b !in bs[..i]
    {
      if bs[i] == b {
        return i;
      }
    }
    index := -1;
  }

  // The next record of a stream with an open line: up to the first newline or the frame limit.
  method NextRecord(offset: nat, state: LineState, stream: Stream, rest: seq<byte>, now: int)
    returns (record: Stored, length: nat)
    requires state.open && state.start <= offset < TWO_64 && -TWO_64 / 2 <= now < TWO_64 / 2 && rest != []
    ensures 0 < length <= |rest| && record.payload == rest[..length] && IsPiece(record, stream, now)
    ensures length < |rest| ==> record.LineEnd() || length == MAX_FRAME
    ensures record.offset == offset && record.lineOffset == state.start
    ensures record.LineStart() <==> state.last < state.start || offset == state.start
  {
    length := if |rest| > MAX_FRAME then MAX_FRAME else |rest|;
    var lineEnd := false;
    var index := IndexByte(rest[..length], NEWLINE);
    if index >= 0 {
      length := index + 1;
      lineEnd := true;
    }
    var flags: byte := 0;
    if state.last < state.start || offset == state.start {
      flags := flags + 1;
    }
    if lineEnd {
      flags := flags + 2;
    }
    record := Record(offset, state.start, now, stream, flags, rest[..length]);
  }

  // The state the write loop keeps is the one recovery rebuilds from the record.
  lemma AdvanceOpened(before: LineState, started: LineState, r: Record)
    requires started.open && r.lineOffset == started.start
    requires before.open ==> started == before
    ensures Advance(before, r)
         == if r.LineEnd() then NO_LINE else started.(last := r.offset, timestamp := r.timestamp)
  {
  }

  method EnterOpenLines(seg: Segment, stdout: LineState, stderr: LineState) returns (more: Segment)
    ensures more == seg.(stdoutLines := seg.stdoutLines + OpenEntry(stdout), stderrLines := seg.stderrLines
      + OpenEntry(stderr))
  {
    more := seg;
    if stdout.open {
      more := more.(stdoutLines := more.stdoutLines + [LineEntry(stdout.start, stdout.last, stdout.timestamp)]);
    }
    if stderr.open {
      more := more.(stderrLines := more.stderrLines + [LineEntry(stderr.start, stderr.last, stderr.timestamp)]);
    }
  }

  // The segments with the lines still open entered in the last one's indexes.
  function EnterOpen(segs: seq<Segment>, stdout: LineState, stderr: LineState): seq<Segment> {
    if segs == [] then [] else
    var last := segs[|segs| - 1];
    segs[|segs| - 1 := last.(stdoutLines := last.stdoutLines + OpenEntry(stdout),
                             stderrLines := last.stderrLines + OpenEntry(stderr))]
  }

  class ProcessLog {
    const maxBytes: nat
    const segmentBytes: nat
    const maxObservers: nat

    var segments: seq<Segment>
    var active: bool  // the last segment is open for appending
    var earliest: nat
    var next: nat
    var finalized: bool
    var complete: bool
    var expired: bool
    var broken: bool  // an append failed
    var observers: nat
    var stdout: LineState
    var stderr: LineState

    // Every record ever appended, the offset from which this process has followed
    // the lines, and what finalization added to the last line indexes.
    ghost var records: seq<Stored>
    ghost var origin: nat
    ghost var openOut: seq<LineEntry>
    ghost var openErr: seq<LineEntry>

    ghost predicate Core()
      reads this`segments, this`records, this`earliest, this`openOut, this`openErr, this`next, this`active,
          this`finalized, this`origin
    {
      && IsStore(segments, records, earliest, openOut, openErr)
      && next == |records|
      && (active ==> segments != [] && !finalized)
      && origin <= earliest <= next
      && WellLined(records) && Continues(records[origin..])
      && (!finalized ==> openOut == [] && openErr == [])
    }

    ghost function Open(s: Stream): LineState
      requires origin <= |records|
      reads this`records, this`origin
    {
      OpenLine(records[origin..], s)
    }

    ghost predicate Ready()
      reads this`segments, this`records, this`earliest, this`openOut, this`openErr, this`next, this`active,
          this`finalized, this`origin
    {
      && Core()
      && (active ==> segments[|segments| - 1].first < next)
    }

    ghost predicate Valid()
      reads this
    {
      && Ready()
      && (!finalized ==> Tracks(Stdout) && Tracks(Stderr) && !(Phantom(Stdout) && Phantom(Stderr)))
      && (finalized ==> stdout == stderr == NO_LINE)
      && (openOut == [] || openOut == OpenEntry(Open(Stdout)))
      && (openErr == [] || openErr == OpenEntry(Open(Stderr)))
      && (broken ==> !active)
    }

    // The line a failed write began and wrote nothing of.
    predicate Phantom(s: Stream)
      reads this`stdout, this`stderr, this`next
    {
      LineStateOf(s).open && LineStateOf(s).start == next
    }

    // What is kept of a stream's line is the line that is open, or one that never came to be.
    ghost predicate Tracks(s: Stream)
      requires origin <= |records|
      reads this
    {
      || LineStateOf(s) == Open(s)
      || (broken && !Open(s).open && LineStateOf(s) == LineState(true, next, 0, 0))
    }

    // A reopened log that lost every record of its last segment: the next segment
    // would have that segment's name.
    predicate HeaderOnly()
      reads this
    {
      !active && segments != [] && segments[|segments| - 1].first == next
    }

    constructor (maxBytes: nat, segmentBytes: nat, maxObservers: nat)
      ensures Valid() && records == [] && earliest == 0 && observers == 0
      ensures complete && !finalized && !expired && !broken && segments == []
      ensures this.maxBytes == maxBytes && this.segmentBytes == segmentBytes && this.maxObservers == maxObservers
    {
      this.maxBytes, this.segmentBytes, this.maxObservers := maxBytes, segmentBytes, maxObservers;
      segments, active, earliest, next := [], false, 0, 0;
      finalized, complete, expired, broken, observers := false, true, false, false, 0;
      stdout, stderr := NO_LINE, NO_LINE;
      records, origin, openOut, openErr := [], 0, [], [];
    }

    // A log put back together from what its directory holds.
    constructor Restore(maxBytes: nat, segmentBytes: nat, maxObservers: nat, segments: seq<Segment>, earliest: nat,
                        next: nat, finalized: bool, complete: bool, expired: bool, stdout: LineState, stderr: LineState,
                        ghost records: seq<Stored>, ghost openOut: seq<LineEntry>, ghost openErr: seq<LineEntry>)
      ensures this.maxBytes == maxBytes && this.segmentBytes == segmentBytes && this.maxObservers == maxObservers
      ensures this.segments == segments && this.earliest == earliest && this.next == next
      ensures this.finalized == finalized && this.complete == complete && this.expired == expired
      ensures this.stdout == stdout && this.stderr == stderr
      ensures this.records == records && this.openOut == openOut && this.openErr == openErr
      ensures !active && !broken && observers == 0 && origin == earliest
    {
      this.maxBytes, this.segmentBytes, this.maxObservers := maxBytes, segmentBytes, maxObservers;
      this.segments, this.earliest, this.next := segments, earliest, next;
      this.finalized, this.complete, this.expired := finalized, complete, expired;
      this.stdout, this.stderr := stdout, stderr;
      this.records, this.openOut, this.openErr := records, openOut, openErr;
      active, broken, observers, origin := false, false, 0, earliest;
    }

    // Drops whole segments from the front while the log is over its size, but
    // never the active one, nor the only one of a live log, and none while observed.
    method Trim() returns (changed: bool)
      requires Core()
      modifies this`segments, this`earliest
      ensures Core()
      ensures segments == if observers > 0 || maxBytes == 0 then old(segments)
                          else Trimmed(old(segments), !finalized, maxBytes)
      ensures changed <==> segments != old(segments) || earliest != old(earliest)
      ensures old(earliest) <= earliest && (segments == old(segments) ==> earliest == old(earliest))
    {
      hide IsStore, WellLined, Continues, DiskBytes, OpenLine;
      EarliestIs(segments, records, earliest, openOut, openErr);
      if observers > 0 || maxBytes == 0 {
        return false;
      }
      var originalCount, originalEarliest := |segments|, earliest;
      while segments != [] && DiskBytes(segments) > maxBytes
        invariant earliest == old(earliest) && |segments| <= originalCount
        invariant |segments| == originalCount ==> segments == old(segments)
        invariant Trimmed(segments, !finalized, maxBytes) == Trimmed(old(segments), !finalized, maxBytes)
        invariant IsStore(segments, records, EarliestOf(segments, next), openOut, openErr)
        invariant origin <= earliest <= EarliestOf(segments, next) <= next
        invariant active ==> segments != []
        decreases |segments|
      {
        if (active && |segments| == 1) || (!finalized && |segments| == 1) {
          break;
        }
        DropFirst(segments, records, EarliestOf(segments, next), openOut, openErr);
        Bounds(segments[1..], records, EarliestOf(segments[1..], next), openOut, openErr);
        segments := segments[1..];
      }
      earliest := EarliestOf(segments, next);
      changed := |segments| != originalCount || earliest != originalEarliest;
    }

    // Seals the active segment when the record would not fit in it, and trims.
    method SealWhenFull(recordBytes: nat)
      requires Ready() && !finalized
      modifies this`segments, this`earliest, this`active
      ensures Core() && HeaderOnly() == old(HeaderOnly())
      ensures !old(active) ==> segments == old(segments) && earliest == old(earliest) && !active
      ensures active ==> segments == old(segments) && earliest == old(earliest)
      ensures old(earliest) <= earliest
      ensures observers > 0 ==> segments == old(segments) && earliest == old(earliest)
    {
      hide IsStore, WellLined, Continues, Trimmed, OpenLine, OpenEntry;
      if active && segments[|segments| - 1].first < segments[|segments| - 1].next
         && segmentBytes < |segments[|segments| - 1].log| + recordBytes
      {
        active := false;
        ghost var _ := TrimmedIsSuffix(segments, true, maxBytes);
        var _ := Trim();
      }
    }

    // Makes room for a record: seals a full segment and opens the next one.
    method EnsureActive(recordBytes: nat, now: int) returns (ok: bool)
      requires Ready() && !finalized && next < TWO_64 && -TWO_64 / 2 <= now < TWO_64 / 2
      modifies this`segments, this`earliest, this`active
      ensures Core() && (!ok ==> Ready())
      ensures ok <==> !old(HeaderOnly())
      ensures ok ==> active
      ensures !ok ==> segments == old(segments) && earliest == old(earliest) && active == old(active)
      ensures old(earliest) <= earliest
      ensures observers > 0 ==> earliest == old(earliest) && old(segments) <= segments
    {
      hide IsStore, WellLined, Continues, NewSegment, EarliestOf, OpenLine, OpenEntry;
      SealWhenFull(recordBytes);
      if active {
        return true;
      }
      if segments != [] && segments[|segments| - 1].first == next {
        return false;
      }
      Bounds(segments, records, earliest, [], []);
      EmptyStore(segments, records, earliest, [], []);
      AddSegment(segments, records, earliest, now);
      if segments == [] {
        earliest := next;
      }
      segments := segments + [NewSegment(next, now)];
      active := true;
      ok := true;
    }

    // Puts a record into the active segment.
    method Put(record: Stored)
      requires Core() && active && !finalized && record.offset == next
      requires record.lineOffset == if Open(record.stream).open then Open(record.stream).start else next
      requires record.LineStart() <==> record.lineOffset == next
      modifies this`segments, this`earliest, this`next, this`records
      ensures Ready() && next == old(next) + 1 && records == old(records) + [record] && earliest == old(earliest)
      ensures forall s :: Open(s) == (if s == record.stream then Advance(old(Open(s)), record) else old(Open(s)))
    {
      hide IsStore, WellLined, Continues, OpenLine, Encode, Advance;
      StoreIsConsecutive(segments, records, earliest, [], []);
      Bounds(segments, records, earliest, [], []);
      EarliestIs(segments, records, earliest, [], []);
      AppendToLast(segments, records, earliest, record);
      AppendKeepsLines(records, origin, record);
      var last := segments[|segments| - 1];
      var indexed := Indexed(last, record, |last.log|);
      segments := segments[|segments| - 1 := indexed.(log := last.log + Encode(record))];
      records := records + [record];
      next := record.offset + 1;
      if |segments| == 1 && earliest == 0 {
        earliest := segments[0].first;
      }
    }

    method AppendRecord(record: Stored, now: int) returns (ok: bool)
      requires Ready() && !finalized && -TWO_64 / 2 <= now < TWO_64 / 2
      requires record.offset == next
      requires record.lineOffset == if Open(record.stream).open then Open(record.stream).start else next
      requires record.LineStart() <==> record.lineOffset == next
      modifies this`segments, this`earliest, this`active, this`next, this`records
      ensures ok <==> !old(HeaderOnly())
      ensures ok || (segments == old(segments) && earliest == old(earliest) && active == old(active)
                     && next == old(next) && records == old(records))
      ensures Ready() && origin <= |records|
      ensures ok ==> active && next == old(next) + 1 && records == old(records) + [record]
      ensures ok ==> forall s :: Open(s)
                                 == (if s == record.stream then Advance(old(Open(s)), record) else old(Open(s)))
      ensures old(earliest) <= earliest && (old(observers) > 0 ==> earliest == old(earliest))
    {
      hide IsStore, WellLined, Continues, OpenLine, Advance;
      ok := EnsureActive(Total(record), now);
      if ok {
        Put(record);
      }
    }

    // What the write loop relies on: an open line began before the next record
    // and has a last record no earlier than its first.
    lemma OpenStatesAreSane(s: Stream)
      requires Valid() && !finalized && !broken
      ensures origin <= |records| && next == |records| && openOut == openErr == [] && LineStateOf(s) == Open(s)
      ensures Open(s).open ==> Open(s).start <= Open(s).last < next
      ensures !Open(s).open ==> Open(s) == NO_LINE
    {
      StoreIsConsecutive(segments, records, earliest, openOut, openErr);
      ClosedIsNoLine(records[origin..], s);
      if Open(s).open {
        OpenLineFacts(records, origin, s);
      }
    }

    function LineStateOf(s: Stream): LineState
      reads this`stdout, this`stderr
    {
      if s == Stderr then stderr else stdout
    }

    method SetLineState(s: Stream, state: LineState)
      modifies this`stdout, this`stderr
      ensures stdout == (if s == Stdout then state else old(stdout))
      ensures stderr == (if s == Stderr then state else old(stderr))
    {
      if s == Stderr {
        stderr := state;
      } else {
        stdout := state;
      }
    }

    // A line of the stream is open for the next record, and the other stream is as it was.
    ghost predicate Begun(stream: Stream, state: LineState)
      reads this
    {
      && Ready() && !finalized && !broken && openOut == openErr == [] && origin <= |records|
      && state.open && state == LineStateOf(stream)
      && (if Open(stream).open then state == Open(stream) && state.start <= state.last < next
          else state == LineState(true, next, 0, 0))
      && forall s | s != stream :: LineStateOf(s) == Open(s) && (Open(s).open ==> Open(s).start < next)
    }

    // Makes sure the stream has a line open.
    method BeginLine(stream: Stream) returns (state: LineState)
      requires Valid() && !finalized && !broken
      modifies this`stdout, this`stderr
      ensures Begun(stream, state)
    {
      hide Core, IsStore, WellLined, Continues, OpenLine, OpenEntry;
      OpenStatesAreSane(Stdout);
      OpenStatesAreSane(Stderr);
      state := LineStateOf(stream);
      if !state.open {
        state := state.(open := true, start := next);
        SetLineState(stream, state);
      }
    }

    // Keeps the state of the line the record just appended belongs to.
    method KeepLine(stream: Stream, state: LineState)
      requires Ready() && !finalized && !broken && openOut == openErr == [] && origin <= |records|
      requires state == Open(stream) && forall s | s != stream :: LineStateOf(s) == Open(s)
      modifies this`stdout, this`stderr
      ensures Valid()
    {
      hide Core, IsStore, WellLined, Continues, OpenLine, OpenEntry;
      SetLineState(stream, state);
      OpenStartsBefore(Stdout);
    }

    lemma OpenStartsBefore(s: Stream)
      requires Ready() && origin <= |records|
      ensures Open(s).open ==> Open(s).start < next
    {
      hide WellLined, Continues, OpenLine, IsStore;
      StoreIsConsecutive(segments, records, earliest, openOut, openErr);
      if Open(s).open {
        OpenLineFacts(records, origin, s);
      }
    }

    // Gives up: what was begun of a line stays, and nothing is written any more.
    method FailWrite(ghost stream: Stream, ghost state: LineState)
      requires Begun(stream, state) && !active
      modifies this`complete, this`broken
      ensures Valid() && broken && !complete
    {
      hide Core, IsStore, WellLined, Continues, OpenLine, OpenEntry;
      complete := false;
      broken := true;
    }

    // One turn of the write loop: appends the next record of what is left to write.
    method WritePiece(stream: Stream, rest: seq<byte>, now: int) returns (length: nat, ok: bool,
          ghost added: seq<Stored>)
      requires Valid() && !finalized && !broken
      requires rest != [] && next < TWO_64 && -TWO_64 / 2 <= now < TWO_64 / 2
      modifies this`segments, this`earliest, this`active, this`next, this`records, this`complete,
               this`broken, this`stdout, this`stderr
      ensures Valid()
      ensures ok <==> !old(HeaderOnly())
      ensures records == old(records) + added
      ensures ok ==> !HeaderOnly() && !broken && complete == old(complete) && next == old(next) + 1
      ensures ok ==> |added| == 1 && IsPiece(added[0], stream, now)
      ensures ok ==> 0 < length <= |rest| && added[0].payload == rest[..length]
      ensures ok && length < |rest| ==> added[0].LineEnd() || length == MAX_FRAME
      ensures !ok ==> added == [] && earliest == old(earliest) && segments == old(segments) && broken && !complete
      ensures !ok ==> origin <= |records| && (Phantom(stream) || Open(stream).open)
      ensures old(earliest) <= earliest && (observers > 0 ==> earliest == old(earliest))
    {
      hide Core, Ready, Valid, IsStore, WellLined, Continues, OpenLine, IsPiece, OpenEntry, Advance;
      var state := BeginLine(stream);
      var record;
      record, length := NextRecord(next, state, stream, rest, now);
      ghost var before := Open(stream);
      ok := AppendRecord(record, now);
      if !ok {
        FailWrite(stream, state);
        added := [];
        return;
      }
      AdvanceOpened(before, state, record);
      KeepLine(stream, if record.LineEnd() then NO_LINE else state.(last := record.offset, timestamp := now));
      added := [record];
    }

    // Appends a payload as records of one stream, cut at newlines and at the frame limit.
    method Write(stream: Stream, payload: seq<byte>, now: int) returns (written: nat, ok: bool,
          ghost added: seq<Stored>)
      requires Valid() && next + |payload| < TWO_64 && -TWO_64 / 2 <= now < TWO_64 / 2
      modifies this`segments, this`earliest, this`active, this`next, this`records, this`complete,
               this`broken, this`stdout, this`stderr
      ensures Valid()
      ensures ok <==> payload == [] || (!old(finalized) && !old(broken) && !old(HeaderOnly()))
      ensures records == old(records) + added
      ensures ok ==> written == |payload| && Splits(added, stream, now, payload)
      ensures ok ==> complete == old(complete) && broken == old(broken)
      ensures !ok ==> written == 0 && added == [] && earliest == old(earliest) && segments == old(segments)
      ensures old(finalized) ==> added == []
      ensures !ok && !old(finalized) && !old(broken) ==>
        broken && !complete && origin <= |records| && (Phantom(stream) || Open(stream).open)
      ensures old(earliest) <= earliest && (observers > 0 ==> earliest == old(earliest))
    {
      hide *;
      SplitsNothing(stream, now);
      written, ok, added := 0, true, [];
      if payload == [] {
        return;
      }
      if finalized || broken {
        return 0, false, [];
      }
      assert payload[..0] == [];
      while written < |payload|
        invariant Valid() && !finalized && !broken && complete == old(complete)
        invariant written <= |payload| && next + |payload| - written < TWO_64
        invariant records == old(records) + added
        invariant written > 0 ==> !HeaderOnly() && !old(HeaderOnly())
        invariant written == 0 ==> HeaderOnly() == old(HeaderOnly()) && added == []
        invariant written == 0 ==> earliest == old(earliest) && segments == old(segments)
        invariant Splits(added, stream, now, payload[..written])
        invariant written < |payload| && added != [] ==>
          added[|added| - 1].LineEnd() || |added[|added| - 1].payload| == MAX_FRAME
        invariant old(earliest) <= earliest && (observers > 0 ==> earliest == old(earliest))
      {
        var length, appended, piece := WritePiece(stream, payload[written..], now);
        if !appended {
          return written, false, added;
        }
        SplitsMore(added, piece[0], stream, now, payload[..written]);
        assert [piece[0]] == piece;
        assert payload[..written + length] == payload[..written] + payload[written..][..length];
        added := added + piece;
        written := written + length;
      }
      assert payload[..written] == payload;
    }

    // Enters the lines still open in the active segment's line indexes, and seals it.
    method CloseLines()
      requires Valid() && !finalized
      modifies this`segments, this`active, this`finalized, this`stdout, this`stderr, this`openOut, this`openErr
      ensures Valid() && finalized && !active && |segments| == |old(segments)|
      ensures old(active) ==> openOut == OpenEntry(Open(Stdout)) && openErr == OpenEntry(Open(Stderr))
      ensures !old(active) ==> openOut == openErr == []
      ensures segments == if old(active) then EnterOpen(old(segments), old(stdout), old(stderr)) else old(segments)
    {
      hide IsStore, WellLined, Continues, OpenLine, OpenEntry;
      assert active ==> stdout == Open(Stdout) && stderr == Open(Stderr);
      hide Tracks, Phantom;
      if active {
        AddOpenEntries(segments, records, earliest, OpenEntry(stdout), OpenEntry(stderr));
        openOut, openErr := OpenEntry(stdout), OpenEntry(stderr);
        var last := EnterOpenLines(segments[|segments| - 1], stdout, stderr);
        segments := segments[|segments| - 1 := last];
      }
      stdout, stderr := NO_LINE, NO_LINE;
      active := false;
      finalized := true;
    }

    // Ends the log.
    method Finalize()
      requires Valid()
      modifies this`segments, this`earliest, this`active, this`finalized, this`stdout, this`stderr,
               this`openOut, this`openErr
      ensures Valid() && finalized && !active
      ensures old(finalized) ==> segments == old(segments) && openOut == old(openOut) && openErr == old(openErr)
      ensures !old(finalized) && old(active) ==>
        openOut == OpenEntry(Open(Stdout)) && openErr == OpenEntry(Open(Stderr))
      ensures !old(finalized) && !old(active) ==> openOut == openErr == []
      ensures !old(finalized) ==>
        var closed := if old(active) then EnterOpen(old(segments), old(stdout), old(stderr)) else old(segments);
        segments == if observers > 0 || maxBytes == 0 then closed else Trimmed(closed, false, maxBytes)
      ensures old(earliest) <= earliest
      ensures observers > 0 ==> earliest == old(earliest) && |segments| == |old(segments)|
    {
      hide IsStore, WellLined, Continues, OpenLine, Trimmed, OpenEntry;
      if finalized {
        return;
      }
      CloseLines();
      var _ := Trim();
    }

    method RemoveFirst()
      requires Core() && segments != [] && !(active && |segments| == 1)
      modifies this`segments, this`earliest
      ensures Core() && segments == old(segments)[1..] && old(earliest) <= earliest
    {
      hide IsStore, WellLined, Continues;
      DropFirst(segments, records, earliest, openOut, openErr);
      Bounds(segments[1..], records, EarliestOf(segments[1..], next), openOut, openErr);
      segments := segments[1..];
      earliest := EarliestOf(segments, next);
    }

    // Retention across logs: gives up the oldest segment, unless it is in use.
    method TrimOldest() returns (removed: bool)
      requires Valid()
      modifies this`segments, this`earliest
      ensures Valid()
      ensures removed <==> observers == 0 && old(segments) != [] && !(active && |old(segments)| == 1)
      ensures segments == if removed then old(segments)[1..] else old(segments)
      ensures old(earliest) <= earliest && (!removed ==> earliest == old(earliest))
    {
      hide IsStore, WellLined, Continues, OpenLine;
      if observers > 0 || segments == [] {
        return false;
      }
      if active && |segments| == 1 {
        return false;
      }
      RemoveFirst();
      removed := true;
    }

    // Retention by age: gives up everything a finished log holds.
    method Expire() returns (expiredNow: bool)
      requires Valid()
      modifies this`segments, this`earliest, this`expired
      ensures Valid()
      ensures expiredNow <==> observers == 0 && finalized
      ensures expiredNow ==> segments == [] && earliest == next && expired
      ensures old(earliest) <= earliest
      ensures !expiredNow ==> segments == old(segments) && earliest == old(earliest) && expired == old(expired)
    {
      hide IsStore, WellLined, Continues, OpenLine;
      if observers > 0 || !finalized {
        return false;
      }
      while segments != []
        invariant Valid() && !active && old(earliest) <= earliest
        decreases |segments|
      {
        RemoveFirst();
      }
      EmptyStore(segments, records, earliest, openOut, openErr);
      earliest := next;
      expired := true;
      expiredNow := true;
    }

    method AcquireObserver() returns (ok: bool)
      requires Valid()
      modifies this`observers
      ensures Valid() && (ok <==> old(observers) < maxObservers)
      ensures observers == old(observers) + (if ok then 1 else 0)
    {
      hide IsStore, WellLined, Continues, OpenLine, OpenEntry;
      ok := observers < maxObservers;
      if ok {
        observers := observers + 1;
      }
    }

    method ReleaseObserver()
      requires Valid()
      modifies this`observers, this`segments, this`earliest
      ensures Valid() && observers == if old(observers) > 0 then old(observers) - 1 else 0
      ensures segments == if observers > 0 || maxBytes == 0 then old(segments)
        else Trimmed(old(segments), !finalized, maxBytes)
      ensures old(earliest) <= earliest && (segments == old(segments) ==> earliest == old(earliest))
    {
      hide IsStore, WellLined, Continues, OpenLine, Trimmed, OpenEntry, DiskBytes;
      if observers > 0 {
        observers := observers - 1;
      }
      ghost var _ := TrimmedIsSuffix(segments, !finalized, maxBytes);
      var _ := Trim();
    }

    // Whether the log's directory may be removed.
    method LockForDeletion() returns (ok: bool)
      requires Valid()
      ensures ok <==> observers == 0
    {
      ok := observers == 0;
    }

    // Whether a read may start at the offset.
    method PrepareOffset(offset: nat) returns (ok: bool)
      requires Valid()
      ensures ok <==> earliest <= offset <= next
    {
      ok := earliest <= offset <= next;
    }

    ghost function Boundary(i: nat): nat
      requires i <= |segments|
      reads this`segments, this`next
    {
      if i < |segments| then segments[i].first else next
    }

    lemma RecordsAreConsecutive()
      requires Valid()
      ensures Consecutive(records, 0) && next == |records| && earliest <= next
    {
      StoreIsConsecutive(segments, records, earliest, openOut, openErr);
    }

    // Reads [start, end) through the indexes: exactly the selected records, in order.
    method ReadRange(start: nat, end: nat, from: nat, sel: Selection) returns (sent: seq<Sent>)
      requires Valid()
      ensures earliest <= start ==> sent == Emitted(records, start, end, from, sel)
      ensures sent == Emitted(records[earliest..], start, end, from, sel)
    {
      hide IsStore, WellLined, Continues, OpenLine, IsSegmentOf, Emitted, OpenEntry;
      Bounds(segments, records, earliest, openOut, openErr);
      EarliestIs(segments, records, earliest, openOut, openErr);
      StoreIsConsecutive(segments, records, earliest, openOut, openErr);
      sent := [];
      assert records[earliest..earliest] == [];
      EmittedNothing(start, end, from, sel);
      if start < end {
        var i := 0;
        while i < |segments|
          invariant i <= |segments| && earliest <= Boundary(i) <= next
          invariant sent == Emitted(records[earliest..Boundary(i)], start, end, from, sel)
        {
          SegmentCovers(segments, records, earliest, openOut, openErr, i);
          var seg := segments[i];
          EmittedTiles(records, earliest, seg.first, seg.next, start, end, from, sel);
          if seg.next <= start || end <= seg.first {
            NothingOutside(records[seg.first..seg.next], start, end, from, sel);
          } else {
            var more := ReadSegment(seg, start, end, from, sel, records[seg.first..seg.next],
                                    if i == |segments| - 1 then openOut else [],
                                    if i == |segments| - 1 then openErr else []);
            sent := sent + more;
          }
          i := i + 1;
        }
        assert records[earliest..next] == records[earliest..];
      } else {
        NothingOutside(records[earliest..], start, end, from, sel);
      }
      if earliest <= start {
        EmittedSplit(records, earliest, start, end, from, sel);
        NothingOutside(records[..earliest], start, end, from, sel);
      }
    }
  }
}
