// Reading a unified diff: its hunks, their line counts, and what is refused.
module PatchParser {
  import opened Patches
  import opened Options

  const MAX_LINES := 100000
  const NO_NEWLINE := "\\ No newline at end of file"

  // The numbers of a hunk header; a count left out means one.
  datatype Fields = Fields(oldStart: nat, oldCount: Option<nat>, newStart: nat, newCount: Option<nat>)

  // How a hunk header is recognised, and written.
  datatype Headers = Headers(match_: string -> Option<Fields>, write: Hunk -> string)

  datatype Failure =
    | TooManyLines | CountMismatch | InvalidHeader | ManyFiles | UnexpectedMetadata
    | OrphanMarker | InvalidOperation | NoHunk | NoChange

  datatype Parsed<T> = Good(value: T) | Bad(failure: Failure)

  function TrimSuffix(s: string, suffix: char): string {
    if s != "" && s[|s| - 1] == suffix then s[..|s| - 1] else s
  }

  function HeaderText(line: string): string { TrimSuffix(TrimSuffix(line, '\n'), '\r') }

  function CountOr(count: Option<nat>): nat {
    if count.Some? then count.value else 1
  }

  function HunkFromHeader(fields: Fields): Parsed<Hunk> {
    var oldCount, newCount := CountOr(fields.oldCount), CountOr(fields.newCount);
    if (fields.oldStart == 0 && oldCount != 0) || (fields.newStart == 0 && newCount != 0) then Bad(InvalidHeader)
    else Good(Hunk(fields.oldStart, oldCount, fields.newStart, newCount, []))
  }

  predicate Complete(hunk: Hunk) {
    OldUsed(hunk.operations) == hunk.oldCount && NewUsed(hunk.operations) == hunk.newCount
  }

  function KindOf(c: char): Kind {
    if c == ' ' then Context else if c == '-' then Removed else Added
  }

  // What has been read so far.
  datatype Reading = Reading(hunks: seq<Hunk>, headerPairs: nat, changed: bool) {
    function Last(): Hunk
      requires hunks != []
    {
      hunks[|hunks| - 1]
    }

    function WithLast(operations: seq<Operation>): Reading
      requires hunks != []
    {
      this.(hunks := hunks[..|hunks| - 1] + [Last().(operations := operations)])
    }
  }

  function TrimLast(ops: seq<Operation>): seq<Operation>
    requires ops != []
  {
    var last := ops[|ops| - 1];
    ops[..|ops| - 1] + [Operation(last.kind, TrimSuffix(last.text, '\n'))]
  }

  // What one line does.
  function ReadLine(headers: Headers, r: Reading, line: string): Parsed<Reading> {
    var header := HeaderText(line);
    if "@@ " <= header then
      if r.hunks != [] && !Complete(r.Last()) then Bad(CountMismatch)
      else
        var fields := headers.match_(header);
        if fields.None? then Bad(InvalidHeader)
        else
          var hunk := HunkFromHeader(fields.value);
          if hunk.Bad? then Bad(hunk.failure) else Good(r.(hunks := r.hunks + [hunk.value]))
    else if r.hunks == [] then
      if "--- " <= header then if r.headerPairs > 0 then Bad(ManyFiles) else Good(r.(headerPairs := r.headerPairs + 1))
      else if "+++ " <= header || "diff " <= header || "index " <= header || header == "" then Good(r)
      else Bad(UnexpectedMetadata)
    else
      var ops := r.Last().operations;
      if header == NO_NEWLINE then
        if ops == [] then Bad(OrphanMarker) else Good(r.WithLast(TrimLast(ops)))
      else if Complete(r.Last()) && ("--- " <= header || "+++ " <= header || "diff " <= header) then Bad(ManyFiles)
      else if line == "" || line[0] !in " +-" then Bad(InvalidOperation)
      else
        var more := ops + [Operation(KindOf(line[0]), line[1..])];
        if OldUsed(more) > r.Last().oldCount || NewUsed(more) > r.Last().newCount then Bad(CountMismatch)
        else Good(r.WithLast(more).(changed := r.changed || line[0] != ' '))
  }

  function ReadLines(headers: Headers, r: Reading, lines: seq<string>): Parsed<Reading>
    decreases |lines|
  {
    if lines == [] then Good(r)
    else
      var next := ReadLine(headers, r, lines[0]);
      if next.Bad? then next else ReadLines(headers, next.value, lines[1..])
  }

  function Finished(r: Reading): Parsed<seq<Hunk>> {
    if r.hunks == [] then Bad(NoHunk)
    else if !r.changed then Bad(NoChange)
    else if exists i | 0 <= i < |r.hunks| :: !Complete(r.hunks[i]) then Bad(CountMismatch)
    else Good(r.hunks)
  }

  function Parse(headers: Headers, source: string): Parsed<seq<Hunk>> {
    var lines := Split(source);
    if |lines| > MAX_LINES then Bad(TooManyLines)
    else
      var r := ReadLines(headers, Reading([], 0, false), lines);
      if r.Bad? then Bad(r.failure) else Finished(r.value)
  }

  // ----- what a parsed patch satisfies

  ghost predicate HunkSoFar(hunk: Hunk) {
    && (hunk.oldStart == 0 ==> hunk.oldCount == 0)
    && (hunk.newStart == 0 ==> hunk.newCount == 0)
    && (forall i | 0 <= i < |hunk.operations| :: Simple(hunk.operations[i].text))
  }

  ghost predicate SoFar(r: Reading) {
    forall i | 0 <= i < |r.hunks| :: HunkSoFar(r.hunks[i])
  }

  lemma LineKeeps(headers: Headers, r: Reading, line: string)
    requires SoFar(r) && Simple(line) && ReadLine(headers, r, line).Good?
    ensures SoFar(ReadLine(headers, r, line).value)
  {
    hide Complete, OldUsed, NewUsed, HeaderText;
    if r.hunks != [] {
      assert HunkSoFar(r.Last());
    }
  }

  lemma {:induction false} LinesKeep(headers: Headers, r: Reading, lines: seq<string>)
    requires SoFar(r) && AllSimple(lines) && ReadLines(headers, r, lines).Good?
    ensures SoFar(ReadLines(headers, r, lines).value)
    decreases |lines|
  {
    hide ReadLine, SoFar, Simple;
    if lines != [] {
      LineKeeps(headers, r, lines[0]);
      LinesKeep(headers, ReadLine(headers, r, lines[0]).value, lines[1..]);
    }
  }

  // The hunks of a parsed patch have as many operations as their headers say.
  lemma ParsedIsWellFormed(headers: Headers, source: string)
    requires Parse(headers, source).Good?
    ensures Parse(headers, source).value != [] && AllWellFormed(Parse(headers, source).value)
  {
    hide Split, ReadLines, HunkSoFar, Proper;
    JoinSplit(source);
    ProperIsSimple(Split(source));
    LinesKeep(headers, Reading([], 0, false), Split(source));
    forall i | 0 <= i < |Parse(headers, source).value|
      ensures WellFormed(Parse(headers, source).value[i])
    {
      CompleteIsWellFormed(Parse(headers, source).value[i]);
    }
  }

  lemma ProperIsSimple(lines: seq<string>)
    requires Proper(lines)
    ensures AllSimple(lines)
  {
  }

  lemma CompleteIsWellFormed(hunk: Hunk)
    requires HunkSoFar(hunk) && Complete(hunk)
    ensures WellFormed(hunk)
  {
  }

  // ----- the parser

  lemma {:induction false} UsedAppend(ops: seq<Operation>, op: Operation)
    ensures OldUsed(ops + [op]) == OldUsed(ops) + (if op.kind == Added then 0 else 1)
    ensures NewUsed(ops + [op]) == NewUsed(ops) + (if op.kind == Removed then 0 else 1)
  {
    if ops == [] {
      assert [op][1..] == [];
      assert [] + [op] == [op];
    } else {
      UsedAppend(ops[1..], op);
      assert (ops + [op])[1..] == ops[1..] + [op];
    }
  }

  lemma TrimKeepsUse(ops: seq<Operation>)
    requires ops != []
    ensures OldUsed(TrimLast(ops)) == OldUsed(ops) && NewUsed(TrimLast(ops)) == NewUsed(ops)
  {
    hide OldUsed, NewUsed;
    var last := ops[|ops| - 1];
    UsedAppend(ops[..|ops| - 1], last);
    UsedAppend(ops[..|ops| - 1], Operation(last.kind, TrimSuffix(last.text, '\n')));
    assert ops == ops[..|ops| - 1] + [last];
  }

  lemma NothingUsed()
    ensures OldUsed([]) == 0 && NewUsed([]) == 0
  {
  }

  // A hunk as the parser holds it, with the counts it has used up.
  datatype Counted = Counted(hunk: Hunk, oldUsed: nat, newUsed: nat) {
    ghost predicate Counts() {
      oldUsed == OldUsed(hunk.operations) && newUsed == NewUsed(hunk.operations)
    }

    predicate Full() { oldUsed == hunk.oldCount && newUsed == hunk.newCount }
  }

  ghost predicate Holds(done: seq<Hunk>, current: Option<Counted>, r: Reading) {
    match current
    case None => done == [] && r.hunks == []
    case Some(c) => c.Counts() && r.hunks == done + [c.hunk]
  }

  // A line inside a hunk: an operation, or the mark that the last one has no newline.
  method ReadHunkLine(headers: Headers, current: Counted, line: string, ghost done: seq<Hunk>, ghost reading: Reading)
    returns (next: Parsed<Counted>, changes: bool)
    requires Holds(done, Some(current), reading) && !("@@ " <= HeaderText(line))
    ensures var r := ReadLine(headers, reading, line);
      && (r.Bad? <==> next.Bad?)
      && (r.Bad? ==> next.failure == r.failure)
      && (r.Good? ==> Holds(done, Some(next.value), r.value))
      && (r.Good? ==> r.value.headerPairs == reading.headerPairs && r.value.changed == (reading.changed || changes))
  {
    hide OldUsed, NewUsed, HeaderText, TrimLast, TrimSuffix;
    var hunk, oldUsed, newUsed, header := current.hunk, current.oldUsed, current.newUsed, HeaderText(line);
    assert reading.hunks[..|reading.hunks| - 1] == done && reading.Last() == hunk;
    changes := false;
    if header == NO_NEWLINE {
      if |hunk.operations| == 0 {
        return Bad(OrphanMarker), false;
      }
      TrimKeepsUse(hunk.operations);
      next := Good(Counted(hunk.(operations := TrimLast(hunk.operations)), oldUsed, newUsed));
    } else {
      if current.Full() && ("--- " <= header || "+++ " <= header || "diff " <= header) {
        return Bad(ManyFiles), false;
      }
      if line == "" || line[0] !in " +-" {
        return Bad(InvalidOperation), false;
      }
      var op := Operation(KindOf(line[0]), line[1..]);
      UsedAppend(hunk.operations, op);
      if line[0] != '+' {
        oldUsed := oldUsed + 1;
      }
      if line[0] != '-' {
        newUsed := newUsed + 1;
      }
      if oldUsed > hunk.oldCount || newUsed > hunk.newCount {
        return Bad(CountMismatch), false;
      }
      changes := line[0] == '+' || line[0] == '-';
      next := Good(Counted(hunk.(operations := hunk.operations + [op]), oldUsed, newUsed));
    }
  }

  method ParseUnifiedPatch(headers: Headers, source: string) returns (r: Parsed<seq<Hunk>>)
    ensures r == Parse(headers, source)
  {
    hide Split, ReadLines, OldUsed, NewUsed, HeaderText;
    var lines := Split(source);
    if |lines| > MAX_LINES {
      return Bad(TooManyLines);
    }
    var done: seq<Hunk>, current: Option<Counted> := [], None;
    var headerPairs, changed := 0, false;
    ghost var reading := Reading([], 0, false);
    assert lines[0..] == lines;
    for index := 0 to |lines|
      invariant Holds(done, current, reading) && reading.headerPairs == headerPairs && reading.changed == changed
      invariant (forall i | 0 <= i < |done| :: Complete(done[i]))
      invariant ReadLines(headers, reading, lines[index..]) == ReadLines(headers, Reading([], 0, false), lines)
    {
      var line := lines[index];
      var header := HeaderText(line);
      LinesStep(headers, reading, lines, index);
      if "@@ " <= header {
        if current.Some? && !current.value.Full() {
          return Bad(CountMismatch);
        }
        var fields := headers.match_(header);
        if fields.None? {
          return Bad(InvalidHeader);
        }
        var hunk := HunkFromHeader(fields.value);
        if hunk.Bad? {
          return Bad(InvalidHeader);
        }
        if current.Some? {
          done := done + [current.value.hunk];
        }
        NothingUsed();
        current := Some(Counted(hunk.value, 0, 0));
      } else if current.None? {
        if "--- " <= header {
          headerPairs := headerPairs + 1;
          if headerPairs > 1 {
            return Bad(ManyFiles);
          }
        } else if !("+++ " <= header || "diff " <= header || "index " <= header || header == "") {
          return Bad(UnexpectedMetadata);
        }
      } else {
        var next, changes := ReadHunkLine(headers, current.value, line, done, reading);
        if next.Bad? {
          return Bad(next.failure);
        }
        current, changed := Some(next.value), changed || changes;
      }
      reading := ReadLine(headers, reading, line).value;
    }
    assert lines[|lines|..] == [];
    EndOfLines(headers, reading);
    if current.None? {
      return Bad(NoHunk);
    }
    if !changed {
      return Bad(NoChange);
    }
    var hunks := done + [current.value.hunk];
    if !current.value.Full() {
      assert !Complete(hunks[|hunks| - 1]);
      return Bad(CountMismatch);
    }
    assert forall i | 0 <= i < |hunks| :: Complete(hunks[i]);
    r := Good(hunks);
  }

  lemma LinesStep(headers: Headers, r: Reading, lines: seq<string>, i: nat)
    requires i < |lines|
    ensures ReadLines(headers, r, lines[i..]) ==
      var next := ReadLine(headers, r, lines[i]);
      if next.Bad? then next else ReadLines(headers, next.value, lines[i + 1..])
  {
    hide ReadLine;
    assert lines[i..][1..] == lines[i + 1..];
  }

  lemma EndOfLines(headers: Headers, r: Reading)
    ensures ReadLines(headers, r, []) == Good(r)
  {
  }

  // ----- writing a patch and reading it back

  function KindChar(kind: Kind): char {
    match kind case Context => ' ' case Removed => '-' case Added => '+'
  }

  function RenderOp(op: Operation): seq<string> {
    var line := [KindChar(op.kind)] + op.text;
    if Terminated(op.text) then [line] else [line + "\n", NO_NEWLINE + "\n"]
  }

  function RenderOps(ops: seq<Operation>): seq<string> {
    if ops == [] then [] else RenderOps(ops[..|ops| - 1]) + RenderOp(ops[|ops| - 1])
  }

  function RenderHunks(headers: Headers, hunks: seq<Hunk>): seq<string> {
    if hunks == [] then []
    else
      var last := hunks[|hunks| - 1];
      RenderHunks(headers, hunks[..|hunks| - 1]) + [headers.write(last) + "\n"] + RenderOps(last.operations)
  }

  // A header that can be read back.
  ghost predicate HeaderReads(headers: Headers, hunk: Hunk) {
    var line := headers.write(hunk);
    && "@@ " <= line && line[|line| - 1] != '\r' && '\n' !in line
    && headers.match_(line) == Some(Fields(hunk.oldStart, Some(hunk.oldCount), hunk.newStart, Some(hunk.newCount)))
  }

  lemma {:induction false} ReadAppend(headers: Headers, r: Reading, a: seq<string>, b: seq<string>)
    requires ReadLines(headers, r, a).Good?
    ensures ReadLines(headers, r, a + b) == ReadLines(headers, ReadLines(headers, r, a).value, b)
    decreases |a|
  {
    hide ReadLine;
    if a == [] {
      assert a + b == b;
    } else {
      ReadAppend(headers, ReadLine(headers, r, a[0]).value, a[1..], b);
      assert (a + b)[1..] == a[1..] + b;
    }
  }

  // Reading the lines of one operation adds that operation to a hunk with room for it.
  lemma OpReadsBack(headers: Headers, r: Reading, op: Operation)
    requires r.hunks != [] && Simple(op.text)
    requires OldUsed(r.Last().operations + [op]) <= r.Last().oldCount
    requires NewUsed(r.Last().operations + [op]) <= r.Last().newCount
    ensures ReadLines(headers, r, RenderOp(op))
         == Good(r.WithLast(r.Last().operations + [op]).(changed := r.changed || op.kind != Context))
  {
    hide OldUsed, NewUsed, ReadLine, ReadLines, Complete;
    var line := [KindChar(op.kind)] + op.text;
    RoomIsOpen(r, op);
    if Terminated(op.text) {
      OpLineReads(headers, r, op, line);
      ReadOne(headers, r, line);
    } else {
      OpenLineReads(headers, r, op, line);
    }
  }

  lemma RoomIsOpen(r: Reading, op: Operation)
    requires r.hunks != []
    requires OldUsed(r.Last().operations + [op]) <= r.Last().oldCount
    requires NewUsed(r.Last().operations + [op]) <= r.Last().newCount
    ensures !Complete(r.Last())
  {
    hide OldUsed, NewUsed;
    UsedAppend(r.Last().operations, op);
  }

  lemma ReadOne(headers: Headers, r: Reading, line: string)
    ensures ReadLines(headers, r, [line]) == ReadLine(headers, r, line)
  {
    hide ReadLine;
    assert [line][1..] == [];
    var next := ReadLine(headers, r, line);
    if next.Good? {
      EndOfLines(headers, next.value);
    }
  }

  // An operation whose text has no newline takes a second line to say so.
  lemma OpenLineReads(headers: Headers, r: Reading, op: Operation, line: string)
    requires r.hunks != [] && Simple(op.text) && !Terminated(op.text) && !Complete(r.Last())
    requires OldUsed(r.Last().operations + [op]) <= r.Last().oldCount
    requires NewUsed(r.Last().operations + [op]) <= r.Last().newCount
    requires line == [KindChar(op.kind)] + op.text
    ensures ReadLines(headers, r, [line + "\n", NO_NEWLINE + "\n"])
         == Good(r.WithLast(r.Last().operations + [op]).(changed := r.changed || op.kind != Context))
  {
    hide OldUsed, NewUsed, ReadLine, ReadLines, Complete;
    var ops, text := r.Last().operations, op.text + "\n";
    var long := Operation(op.kind, text);
    assert line + "\n" == [KindChar(op.kind)] + text;
    UsedAppend(ops, op);
    UsedAppend(ops, long);
    OpLineReads(headers, r, long, line + "\n");
    var after := r.WithLast(ops + [long]).(changed := r.changed || op.kind != Context);
    MarkerReads(headers, after);
    ReadOne(headers, r, line + "\n");
    ReadOne(headers, after, NO_NEWLINE + "\n");
    ReadAppend(headers, r, [line + "\n"], [NO_NEWLINE + "\n"]);
    assert [line + "\n"] + [NO_NEWLINE + "\n"] == [line + "\n", NO_NEWLINE + "\n"];
    assert TrimSuffix(text, '\n') == op.text;
    assert TrimLast(ops + [long]) == ops + [op];
    assert after.hunks[..|after.hunks| - 1] == r.hunks[..|r.hunks| - 1];
  }

  lemma OpLineReads(headers: Headers, r: Reading, op: Operation, line: string)
    requires r.hunks != [] && line == [KindChar(op.kind)] + op.text
    requires OldUsed(r.Last().operations + [op]) <= r.Last().oldCount
    requires NewUsed(r.Last().operations + [op]) <= r.Last().newCount
    requires !Complete(r.Last())
    ensures ReadLine(headers, r, line)
         == Good(r.WithLast(r.Last().operations + [op]).(changed := r.changed || op.kind != Context))
  {
    hide OldUsed, NewUsed, Complete;
    var header := HeaderText(line);
    assert header != "" && header[0] == line[0];
    assert line[1..] == op.text;
  }

  lemma TrimNewline(line: string)
    ensures TrimSuffix(line + "\n", '\n') == line
  {
    assert (line + "\n")[..|line|] == line;
  }

  lemma MarkerHeader()
    ensures HeaderText(NO_NEWLINE + "\n") == NO_NEWLINE && !("@@ " <= NO_NEWLINE)
  {
    TrimNewline(NO_NEWLINE);
    assert NO_NEWLINE[|NO_NEWLINE| - 1] == 'e' && NO_NEWLINE[0] == '\\';
    assert "@@ "[0] == '@';
  }

  lemma MarkerReads(headers: Headers, r: Reading)
    requires r.hunks != [] && r.Last().operations != []
    ensures ReadLine(headers, r, NO_NEWLINE + "\n") == Good(r.WithLast(TrimLast(r.Last().operations)))
  {
    hide TrimLast, HeaderText, Complete, OldUsed, NewUsed, HunkFromHeader;
    MarkerHeader();
  }

  lemma {:induction false} UsedPrefix(ops: seq<Operation>, k: nat)
    requires k <= |ops|
    ensures OldUsed(ops[..k]) <= OldUsed(ops) && NewUsed(ops[..k]) <= NewUsed(ops)
    decreases |ops| - k
  {
    hide OldUsed, NewUsed;
    if k == |ops| {
      assert ops[..k] == ops;
    } else {
      UsedPrefix(ops, k + 1);
      assert ops[..k + 1] == ops[..k] + [ops[k]];
      UsedAppend(ops[..k], ops[k]);
    }
  }

  predicate Changes(ops: seq<Operation>) {
    exists i | 0 <= i < |ops| :: ops[i].kind != Context
  }

  // Reading the lines of a hunk's first k operations adds them to the hunk.
  lemma {:induction false} OpsReadBack(headers: Headers, r: Reading, hunk: Hunk, k: nat)
    requires WellFormed(hunk) && k <= |hunk.operations|
    requires r.hunks != [] && r.Last() == hunk.(operations := [])
    ensures ReadLines(headers, r, RenderOps(hunk.operations[..k]))
         == Good(r.WithLast(hunk.operations[..k]).(changed := r.changed || Changes(hunk.operations[..k])))
  {
    hide ReadLines, RenderOp, OldUsed, NewUsed, Simple;
    var ops := hunk.operations;
    if k == 0 {
      EndOfLines(headers, r);
      assert r.WithLast([]).hunks == r.hunks;
    } else {
      OpsReadBack(headers, r, hunk, k - 1);
      UsedPrefix(ops, k);
      assert ops[..k] == ops[..k - 1] + [ops[k - 1]];
      var before := r.WithLast(ops[..k - 1]).(changed := r.changed || Changes(ops[..k - 1]));
      OpReadsBack(headers, before, ops[k - 1]);
      ReadAppend(headers, r, RenderOps(ops[..k - 1]), RenderOp(ops[k - 1]));
      assert ops[..k][..k - 1] == ops[..k - 1];
      assert before.hunks[..|before.hunks| - 1] == r.hunks[..|r.hunks| - 1];
    }
  }

  lemma HeaderReadsBack(headers: Headers, r: Reading, hunk: Hunk)
    requires WellFormed(hunk) && HeaderReads(headers, hunk) && (r.hunks != [] ==> Complete(r.Last()))
    ensures ReadLine(headers, r, headers.write(hunk) + "\n") == Good(r.(hunks := r.hunks + [hunk.(operations := [])]))
  {
    hide OldUsed, NewUsed, Complete;
    var line := headers.write(hunk);
    assert (line + "\n")[..|line|] == line;
    assert HeaderText(line + "\n") == line;
  }

  predicate AnyChanges(hunks: seq<Hunk>) {
    exists i | 0 <= i < |hunks| :: Changes(hunks[i].operations)
  }

  lemma NothingChanges()
    ensures !AnyChanges([])
  {
  }

  lemma AnyChangesMore(init: seq<Hunk>, last: Hunk)
    ensures AnyChanges(init + [last]) <==> AnyChanges(init) || Changes(last.operations)
  {
    hide Changes;
    var all := init + [last];
    if AnyChanges(init) {
      var i :| 0 <= i < |init| && Changes(init[i].operations);
      assert all[i] == init[i];
    }
    if Changes(last.operations) {
      assert all[|init|] == last;
    }
  }

  // Reading the lines of well-formed hunks gives those hunks.
  lemma {:induction false} HunksReadBack(headers: Headers, hunks: seq<Hunk>)
    requires AllWellFormed(hunks) && forall i | 0 <= i < |hunks| :: HeaderReads(headers, hunks[i])
    ensures ReadLines(headers, Reading([], 0, false), RenderHunks(headers, hunks))
         == Good(Reading(hunks, 0, AnyChanges(hunks)))
  {
    hide ReadLines, WellFormed, HeaderReads, Changes, RenderOps, ReadLine, Complete, AnyChanges;
    var start := Reading([], 0, false);
    if hunks == [] {
      EndOfLines(headers, start);
      NothingChanges();
    } else {
      var init, last := hunks[..|hunks| - 1], hunks[|hunks| - 1];
      HunksReadBack(headers, init);
      var r := Reading(init, 0, AnyChanges(init));
      if init != [] {
        WellFormedIsComplete(r.Last());
      }
      HeaderReadsBack(headers, r, last);
      ReadOne(headers, r, headers.write(last) + "\n");
      var headed := r.(hunks := init + [last.(operations := [])]);
      OpsReadBack(headers, headed, last, |last.operations|);
      assert last.operations[..|last.operations|] == last.operations;
      ReadAppend(headers, start, RenderHunks(headers, init), [headers.write(last) + "\n"]);
      ReadAppend(headers, start, RenderHunks(headers, init) + [headers.write(last) + "\n"], RenderOps(last.operations));
      assert headed.hunks[..|headed.hunks| - 1] + [last] == hunks;
      assert hunks == init + [last];
      AnyChangesMore(init, last);
    }
  }

  lemma WellFormedIsComplete(hunk: Hunk)
    requires WellFormed(hunk)
    ensures Complete(hunk)
  {
  }

  // A patch written from well-formed hunks that change something parses back to them.
  lemma WrittenPatchParses(headers: Headers, hunks: seq<Hunk>)
    requires AllWellFormed(hunks) && hunks != [] && |RenderHunks(headers, hunks)| <= MAX_LINES
    requires forall i | 0 <= i < |hunks| :: HeaderReads(headers, hunks[i])
    requires AnyChanges(hunks)
    ensures Parse(headers, Join(RenderHunks(headers, hunks))) == Good(hunks)
  {
    hide ReadLines, WellFormed, HeaderReads, Changes, RenderHunks, Complete;
    RenderedIsProper(headers, hunks);
    SplitJoin(RenderHunks(headers, hunks));
    HunksReadBack(headers, hunks);
    forall i | 0 <= i < |hunks|
      ensures Complete(hunks[i])
    {
      WellFormedIsComplete(hunks[i]);
    }
  }

  ghost predicate AllTerminated(lines: seq<string>) {
    forall i | 0 <= i < |lines| :: Simple(lines[i]) && Terminated(lines[i])
  }

  lemma {:induction false} RenderedOps(ops: seq<Operation>)
    requires forall i | 0 <= i < |ops| :: Simple(ops[i].text)
    ensures AllTerminated(RenderOps(ops))
  {
    hide RenderOp, Simple;
    if ops != [] {
      var init, last := ops[..|ops| - 1], ops[|ops| - 1];
      RenderedOps(init);
      OpTerminated(last);
      TerminatedJoin(RenderOps(init), RenderOp(last));
    }
  }

  lemma OpTerminated(op: Operation)
    requires Simple(op.text)
    ensures AllTerminated(RenderOp(op))
  {
    var line := [KindChar(op.kind)] + op.text;
    assert forall i | 0 <= i < |op.text| :: line[i + 1] == op.text[i];
    assert line[0] != '\n';
    MarkerIsSimple();
  }

  lemma MarkerIsSimple()
    ensures Simple(NO_NEWLINE + "\n") && Terminated(NO_NEWLINE + "\n")
  {
  }

  lemma TerminatedJoin(a: seq<string>, b: seq<string>)
    requires AllTerminated(a) && AllTerminated(b)
    ensures AllTerminated(a + b)
  {
    hide Simple, Terminated;
  }

  lemma {:induction false} RenderedIsTerminated(headers: Headers, hunks: seq<Hunk>)
    requires AllWellFormed(hunks) && forall i | 0 <= i < |hunks| :: HeaderReads(headers, hunks[i])
    ensures AllTerminated(RenderHunks(headers, hunks))
  {
    hide RenderOps, OldUsed, NewUsed;
    if hunks != [] {
      RenderedIsTerminated(headers, hunks[..|hunks| - 1]);
      RenderedOps(hunks[|hunks| - 1].operations);
      assert HeaderReads(headers, hunks[|hunks| - 1]);
      assert Simple(headers.write(hunks[|hunks| - 1]) + "\n");
    }
  }

  lemma RenderedIsProper(headers: Headers, hunks: seq<Hunk>)
    requires AllWellFormed(hunks) && forall i | 0 <= i < |hunks| :: HeaderReads(headers, hunks[i])
    ensures Proper(RenderHunks(headers, hunks)) && AllSimple(RenderHunks(headers, hunks))
  {
    hide RenderHunks, WellFormed, HeaderReads;
    RenderedIsTerminated(headers, hunks);
  }
}
