// Applying unified diffs: line splitting, hunks, and what undoes a patch.
module Patches {

  // ----- text and lines

  function IndexOfNewline(s: string): (k: nat)
    ensures k <= |s| && (forall i | 0 <= i < k :: s[i] != '\n') && (k < |s| ==> s[k] == '\n')
  {
    if s == "" || s[0] == '\n' then 0 else 1 + IndexOfNewline(s[1..])
  }

  // The lines of a text, each with its newline; the last may have none.
  function Split(s: string): seq<string> {
    if s == "" then []
    else
      var k := IndexOfNewline(s);
      if k == |s| then [s] else [s[..k + 1]] + Split(s[k + 1..])
  }

  function Join(lines: seq<string>): string {
    if lines == [] then "" else lines[0] + Join(lines[1..])
  }

  // At most one newline, at the end.
  predicate Simple(line: string) {
    forall i | 0 <= i < |line| - 1 :: line[i] != '\n'
  }

  predicate Terminated(line: string) {
    line != "" && line[|line| - 1] == '\n'
  }

  // Lines that a text can be split into.
  predicate Proper(lines: seq<string>) {
    forall i | 0 <= i < |lines| :: lines[i] != "" && Simple(lines[i]) && (i < |lines| - 1 ==> Terminated(lines[i]))
  }

  predicate AllSimple(lines: seq<string>) {
    forall i | 0 <= i < |lines| :: Simple(lines[i])
  }

  lemma {:induction false} JoinSplit(s: string)
    ensures Join(Split(s)) == s && Proper(Split(s))
    decreases |s|
  {
    hide Proper, Join;
    EmptyText();
    if s != "" {
      var k := IndexOfNewline(s);
      var rest := if k < |s| then s[k + 1..] else "";
      JoinSplit(rest);
      JoinStep(Split(s));
      ProperStep(Split(s));
      assert Split(s)[0] + rest == s;
    }
  }

  lemma SplitTerminated(line: string, rest: string)
    requires Simple(line) && Terminated(line)
    ensures Split(line + rest) == [line] + Split(rest)
  {
    var s := line + rest;
    assert IndexOfNewline(s) == |line| - 1 by {
      assert s[|line| - 1] == '\n' && forall i | 0 <= i < |line| - 1 :: s[i] != '\n';
    }
    assert s[..|line|] == line && s[|line|..] == rest;
  }

  // A line without its newline runs into the next one.
  lemma SplitUnterminated(line: string, rest: string)
    requires Simple(line) && !Terminated(line) && line != "" && rest != ""
    ensures |Split(line + rest)| == |Split(rest)|
  {
    hide IndexOfNewline, Split;
    var s, k := line + rest, IndexOfNewline(rest);
    NewlineAfter(line, rest);
    if k < |rest| {
      assert s[|line| + k + 1..] == rest[k + 1..];
      OneLineLess(s, |line| + k);
      OneLineLess(rest, k);
    } else {
      LastLine(s);
      LastLine(rest);
    }
  }

  lemma OneLineLess(s: string, k: nat)
    requires k == IndexOfNewline(s) < |s|
    ensures |Split(s)| == 1 + |Split(s[k + 1..])|
  {
  }

  lemma LastLine(s: string)
    requires s != "" && IndexOfNewline(s) == |s|
    ensures Split(s) == [s]
  {
  }

  lemma NewlineAfter(line: string, rest: string)
    requires Simple(line) && !Terminated(line)
    ensures IndexOfNewline(line + rest) == |line| + IndexOfNewline(rest)
  {
    hide IndexOfNewline;
    var s, k := line + rest, IndexOfNewline(line + rest);
    assert forall i | 0 <= i < |line| :: s[i] == line[i] != '\n';
    assert forall i | 0 <= i < |rest| :: rest[i] == s[|line| + i];
    assert k < |s| ==> s[k] == '\n';
  }

  // Joining and splitting again never yields more lines; as many only if the lines were
  // proper, and then the same ones.
  lemma {:induction false} SplitJoin(lines: seq<string>)
    requires AllSimple(lines)
    ensures |Split(Join(lines))| <= |lines|
    ensures Proper(lines) ==> Split(Join(lines)) == lines
    ensures !Proper(lines) ==> |Split(Join(lines))| < |lines|
  {
    hide Split, Join;
    EmptyText();
    if lines != [] {
      var line, rest := lines[0], lines[1..];
      SplitJoin(rest);
      JoinStep(lines);
      ProperStep(lines);
      if line == "" {
        assert Join(lines) == Join(rest);
      } else if Terminated(line) {
        SplitTerminated(line, Join(rest));
      } else if Join(rest) == "" {
        OneLine(line);
        assert Join(lines) == line;
        if rest != [] {
          JoinedEmpty(rest);
        }
      } else {
        SplitUnterminated(line, Join(rest));
      }
    }
  }

  lemma EmptyText()
    ensures Split("") == [] && Join([]) == "" && Proper([])
  {
  }

  lemma OneLine(line: string)
    requires line != "" && Simple(line) && !Terminated(line)
    ensures Split(line) == [line]
  {
  }

  lemma JoinStep(lines: seq<string>)
    requires lines != []
    ensures Join(lines) == lines[0] + Join(lines[1..])
  {
  }

  lemma JoinedEmpty(lines: seq<string>)
    requires lines != [] && Join(lines) == ""
    ensures lines[0] == ""
  {
  }

  lemma ProperStep(lines: seq<string>)
    requires lines != [] && Simple(lines[0])
    ensures Proper(lines) <==>
      lines[0] != "" && (|lines| > 1 ==> Terminated(lines[0])) && Proper(lines[1..])
  {
    var rest := lines[1..];
    if lines[0] != "" && (|lines| > 1 ==> Terminated(lines[0])) && Proper(rest) {
      assert forall i | 1 <= i < |lines| :: lines[i] == rest[i - 1];
    }
    if Proper(lines) {
      assert forall i | 0 <= i < |rest| :: rest[i] == lines[i + 1];
    }
  }

  // ----- hunks

  datatype Kind = Context | Removed | Added {
    function Swapped(): Kind {
      match this case Context => Context case Removed => Added case Added => Removed
    }
  }

  datatype Operation = Operation(kind: Kind, text: string)

  datatype Hunk = Hunk(oldStart: nat, oldCount: nat, newStart: nat, newCount: nat, operations: seq<Operation>) {
    function OldIndex(): int { if oldCount > 0 then oldStart - 1 else oldStart }
    function NewIndex(): int { if newCount > 0 then newStart - 1 else newStart }
    function Swapped(): Hunk {
      Hunk(newStart, newCount, oldStart, oldCount, SwappedOps(operations))
    }
  }

  function SwappedOps(ops: seq<Operation>): (r: seq<Operation>)
    ensures |r| == |ops|
  {
    if ops == [] then [] else [Operation(ops[0].kind.Swapped(), ops[0].text)] + SwappedOps(ops[1..])
  }

  function Swapped(hunks: seq<Hunk>): seq<Hunk> {
    if hunks == [] then [] else [hunks[0].Swapped()] + Swapped(hunks[1..])
  }

  datatype Error = OutsideTarget | WrongNewPosition | ContextMismatch
  datatype Result<T> = Ok(value: T) | Err(error: Error)

  // Where applying a patch stands: how many lines are consumed, and what is put out.
  datatype Place = Place(cursor: nat, output: seq<string>)

  function ApplyOp(lines: seq<string>, place: Place, op: Operation): Result<Place> {
    if op.kind == Added then Ok(place.(output := place.output + [op.text]))
    else if place.cursor >= |lines| || lines[place.cursor] != op.text then Err(ContextMismatch)
    else Ok(Place(place.cursor + 1, if op.kind == Context then place.output + [op.text] else place.output))
  }

  function ApplyOps(lines: seq<string>, place: Place, ops: seq<Operation>): (r: Result<Place>)
    ensures place.cursor <= |lines| && r.Ok? ==>
      place.cursor <= r.value.cursor <= |lines| && place.output <= r.value.output
    decreases |ops|
  {
    if ops == [] then Ok(place)
    else
      var next := ApplyOp(lines, place, ops[0]);
      if next.Err? then next else ApplyOps(lines, next.value, ops[1..])
  }

  // The place a hunk starts at: the lines before it are copied.
  function Approach(lines: seq<string>, place: Place, hunk: Hunk): Result<Place> {
    if hunk.OldIndex() < place.cursor || hunk.OldIndex() > |lines| then Err(OutsideTarget)
    else
      var output := place.output + lines[place.cursor..hunk.OldIndex()];
      if hunk.NewIndex() != |output| then Err(WrongNewPosition) else Ok(Place(hunk.OldIndex(), output))
  }

  function ApplyHunks(lines: seq<string>, place: Place, hunks: seq<Hunk>): (r: Result<Place>)
    ensures place.cursor <= |lines| && r.Ok? ==>
      place.cursor <= r.value.cursor <= |lines| && place.output <= r.value.output
    decreases |hunks|
  {
    if hunks == [] then Ok(place)
    else
      var start := Approach(lines, place, hunks[0]);
      if start.Err? then start
      else
        var next := ApplyOps(lines, start.value, hunks[0].operations);
        if next.Err? then next else ApplyHunks(lines, next.value, hunks[1..])
  }

  function ApplyLines(lines: seq<string>, hunks: seq<Hunk>): Result<seq<string>> {
    var end := ApplyHunks(lines, Place(0, []), hunks);
    if end.Err? then Err(end.error) else Ok(end.value.output + lines[end.value.cursor..])
  }

  lemma OpsStep(lines: seq<string>, place: Place, ops: seq<Operation>, i: nat)
    requires i < |ops|
    ensures ApplyOps(lines, place, ops[i..]) ==
      var next := ApplyOp(lines, place, ops[i]);
      if next.Err? then next else ApplyOps(lines, next.value, ops[i + 1..])
  {
    assert ops[i..][1..] == ops[i + 1..];
  }

  lemma HunksStep(lines: seq<string>, place: Place, hunks: seq<Hunk>, i: nat)
    requires i < |hunks|
    ensures ApplyHunks(lines, place, hunks[i..]) ==
      var start := Approach(lines, place, hunks[i]);
      if start.Err? then start
      else
        var next := ApplyOps(lines, start.value, hunks[i].operations);
        if next.Err? then next else ApplyHunks(lines, next.value, hunks[i + 1..])
  {
    hide ApplyOps, Approach;
    assert hunks[i..][1..] == hunks[i + 1..];
  }

  lemma NothingLeft(lines: seq<string>, place: Place)
    ensures ApplyOps(lines, place, []) == Ok(place) && ApplyHunks(lines, place, []) == Ok(place)
  {
  }

  // Applies hunks to a text: in one pass, copying, checking and replacing lines.
  method ApplyUnifiedHunks(original: string, hunks: seq<Hunk>) returns (r: Result<string>)
    ensures r == match ApplyLines(Split(original), hunks)
                 case Ok(lines) => Ok(Join(lines))
                 case Err(error) => Err(error)
  {
    hide Split, Join, ApplyOps, ApplyHunks;
    var lines := Split(original);
    var output: seq<string>, cursor := [], 0;
    assert hunks[0..] == hunks;
    for h := 0 to |hunks|
      invariant 0 <= cursor <= |lines|
      invariant ApplyHunks(lines, Place(cursor, output), hunks[h..]) == ApplyHunks(lines, Place(0, []), hunks)
    {
      var hunk := hunks[h];
      HunksStep(lines, Place(cursor, output), hunks, h);
      var oldIndex: int := hunk.oldStart;
      if hunk.oldCount > 0 {
        oldIndex := oldIndex - 1;
      }
      if oldIndex < cursor || oldIndex > |lines| {
        return Err(OutsideTarget);
      }
      output := output + lines[cursor..oldIndex];
      var newIndex: int := hunk.newStart;
      if hunk.newCount > 0 {
        newIndex := newIndex - 1;
      }
      if newIndex != |output| {
        return Err(WrongNewPosition);
      }
      cursor := oldIndex;
      ghost var start := Place(cursor, output);
      assert hunk.operations[0..] == hunk.operations;
      for i := 0 to |hunk.operations|
        invariant 0 <= cursor <= |lines|
        invariant ApplyOps(lines, Place(cursor, output), hunk.operations[i..])
          == ApplyOps(lines, start, hunk.operations)
      {
        var op := hunk.operations[i];
        OpsStep(lines, Place(cursor, output), hunk.operations, i);
        if op.kind == Added {
          output := output + [op.text];
        } else {
          if cursor >= |lines| || lines[cursor] != op.text {
            return Err(ContextMismatch);
          }
          if op.kind == Context {
            output := output + [op.text];
          }
          cursor := cursor + 1;
        }
      }
      assert hunk.operations[|hunk.operations|..] == [];
      NothingLeft(lines, Place(cursor, output));
    }
    assert hunks[|hunks|..] == [];
    NothingLeft(lines, Place(cursor, output));
    r := Ok(Join(output + lines[cursor..]));
  }

  // ----- undoing a patch

  // The place a swapped patch is at when the patch itself is at a place: it has consumed
  // what the patch put out, and put out what the patch consumed.
  function Mirror(lines: seq<string>, place: Place): Place
    requires place.cursor <= |lines|
  {
    Place(|place.output|, lines[..place.cursor])
  }

  lemma OpInverts(lines: seq<string>, result: seq<string>, place: Place, op: Operation)
    requires place.cursor <= |lines| && ApplyOp(lines, place, op).Ok?
      && ApplyOp(lines, place, op).value.output <= result
    ensures ApplyOp(result, Mirror(lines, place), Operation(op.kind.Swapped(), op.text))
         == Ok(Mirror(lines, ApplyOp(lines, place, op).value))
  {
    var next := ApplyOp(lines, place, op).value;
    if op.kind != Added {
      assert lines[..place.cursor + 1] == lines[..place.cursor] + [op.text];
    }
    if op.kind != Removed {
      assert result[|place.output|] == next.output[|place.output|] == op.text;
    }
  }

  lemma {:induction false} OpsInvert(lines: seq<string>, result: seq<string>, place: Place, ops: seq<Operation>)
    requires place.cursor <= |lines| && ApplyOps(lines, place, ops).Ok?
      && ApplyOps(lines, place, ops).value.output <= result
    ensures ApplyOps(result, Mirror(lines, place), SwappedOps(ops))
      == Ok(Mirror(lines, ApplyOps(lines, place, ops).value))
    decreases |ops|
  {
    hide ApplyOp;
    if ops != [] {
      OpMoves(lines, place, ops[0]);
      var next := ApplyOp(lines, place, ops[0]).value;
      OpInverts(lines, result, place, ops[0]);
      OpsInvert(lines, result, next, ops[1..]);
      assert SwappedOps(ops)[1..] == SwappedOps(ops[1..]);
    }
  }

  lemma OpMoves(lines: seq<string>, place: Place, op: Operation)
    requires place.cursor <= |lines| && ApplyOp(lines, place, op).Ok?
    ensures ApplyOp(lines, place, op).value.cursor <= |lines|
  {
  }

  lemma ApproachInverts(lines: seq<string>, result: seq<string>, place: Place, hunk: Hunk)
    requires place.cursor <= |lines| && Approach(lines, place, hunk).Ok?
      && Approach(lines, place, hunk).value.output <= result
    ensures Approach(result, Mirror(lines, place), hunk.Swapped())
      == Ok(Mirror(lines, Approach(lines, place, hunk).value))
  {
    var start := Approach(lines, place, hunk).value;
    var copied := lines[place.cursor..start.cursor];
    assert result[|place.output|..|start.output|] == start.output[|place.output|..] == copied;
    assert lines[..place.cursor] + copied == lines[..start.cursor];
  }

  lemma {:induction false} HunksInvert(lines: seq<string>, result: seq<string>, place: Place, hunks: seq<Hunk>)
    requires place.cursor <= |lines| && ApplyHunks(lines, place, hunks).Ok?
    requires ApplyHunks(lines, place, hunks).value.output <= result
    ensures ApplyHunks(result, Mirror(lines, place), Swapped(hunks))
      == Ok(Mirror(lines, ApplyHunks(lines, place, hunks).value))
    decreases |hunks|
  {
    hide ApplyOps, Approach;
    if hunks != [] {
      var start := Approach(lines, place, hunks[0]).value;
      ApproachMoves(lines, place, hunks[0]);
      var next := ApplyOps(lines, start, hunks[0].operations).value;
      ApproachInverts(lines, result, place, hunks[0]);
      OpsInvert(lines, result, start, hunks[0].operations);
      HunksInvert(lines, result, next, hunks[1..]);
      assert Swapped(hunks)[1..] == Swapped(hunks[1..]);
    }
  }

  lemma ApproachMoves(lines: seq<string>, place: Place, hunk: Hunk)
    requires place.cursor <= |lines| && Approach(lines, place, hunk).Ok?
    ensures Approach(lines, place, hunk).value.cursor <= |lines|
  {
  }

  // A patch that applies to some lines is undone, line for line, by the same patch with old
  // and new exchanged.
  lemma PatchInverts(lines: seq<string>, hunks: seq<Hunk>)
    requires ApplyLines(lines, hunks).Ok?
    ensures ApplyLines(ApplyLines(lines, hunks).value, Swapped(hunks)) == Ok(lines)
  {
    hide ApplyHunks;
    var end := ApplyHunks(lines, Place(0, []), hunks).value;
    var result := end.output + lines[end.cursor..];
    HunksInvert(lines, result, Place(0, []), hunks);
    assert lines[..end.cursor] + result[|end.output|..] == lines;
  }

  // ----- how a patch changes the length

  function OldUsed(ops: seq<Operation>): nat {
    if ops == [] then 0 else (if ops[0].kind == Added then 0 else 1) + OldUsed(ops[1..])
  }

  function NewUsed(ops: seq<Operation>): nat {
    if ops == [] then 0 else (if ops[0].kind == Removed then 0 else 1) + NewUsed(ops[1..])
  }

  // What every hunk of a parsed patch satisfies.
  predicate WellFormed(hunk: Hunk) {
    && OldUsed(hunk.operations) == hunk.oldCount
    && NewUsed(hunk.operations) == hunk.newCount
    && (hunk.oldStart == 0 ==> hunk.oldCount == 0)
    && (hunk.newStart == 0 ==> hunk.newCount == 0)
    && (forall i | 0 <= i < |hunk.operations| :: Simple(hunk.operations[i].text))
  }

  predicate AllWellFormed(hunks: seq<Hunk>) {
    forall i | 0 <= i < |hunks| :: WellFormed(hunks[i])
  }

  // How many lines the hunks add, less those they remove.
  function Growth(hunks: seq<Hunk>): int {
    if hunks == [] then 0 else hunks[0].newCount - hunks[0].oldCount + Growth(hunks[1..])
  }

  lemma {:induction false} OpsGrow(lines: seq<string>, place: Place, ops: seq<Operation>)
    requires ApplyOps(lines, place, ops).Ok?
    ensures var end := ApplyOps(lines, place, ops).value;
      end.cursor == place.cursor + OldUsed(ops) && |end.output| == |place.output| + NewUsed(ops)
    decreases |ops|
  {
    if ops != [] {
      OpsGrow(lines, ApplyOp(lines, place, ops[0]).value, ops[1..]);
    }
  }

  lemma {:induction false} HunksGrow(lines: seq<string>, place: Place, hunks: seq<Hunk>)
    requires place.cursor <= |lines| && ApplyHunks(lines, place, hunks).Ok? && AllWellFormed(hunks)
    ensures var end := ApplyHunks(lines, place, hunks).value;
      |end.output| - end.cursor == |place.output| - place.cursor + Growth(hunks)
    decreases |hunks|
  {
    hide ApplyOps, Simple;
    if hunks != [] {
      var start := Approach(lines, place, hunks[0]).value;
      OpsGrow(lines, start, hunks[0].operations);
      HunksGrow(lines, ApplyOps(lines, start, hunks[0].operations).value, hunks[1..]);
    }
  }

  lemma ResultLength(lines: seq<string>, hunks: seq<Hunk>)
    requires ApplyLines(lines, hunks).Ok? && AllWellFormed(hunks)
    ensures |ApplyLines(lines, hunks).value| == |lines| + Growth(hunks)
  {
    hide ApplyHunks, WellFormed, Growth;
    HunksGrow(lines, Place(0, []), hunks);
  }

  lemma {:induction false} SwappedOpsUse(ops: seq<Operation>)
    ensures OldUsed(SwappedOps(ops)) == NewUsed(ops) && NewUsed(SwappedOps(ops)) == OldUsed(ops)
    ensures forall i | 0 <= i < |ops| :: SwappedOps(ops)[i] == Operation(ops[i].kind.Swapped(), ops[i].text)
  {
    if ops != [] {
      SwappedOpsUse(ops[1..]);
      assert SwappedOps(ops)[1..] == SwappedOps(ops[1..]);
      assert SwappedOps(ops)[0].kind == ops[0].kind.Swapped();
    }
  }

  lemma {:induction false} SwappedGrowth(hunks: seq<Hunk>)
    requires AllWellFormed(hunks)
    ensures Growth(Swapped(hunks)) == -Growth(hunks) && AllWellFormed(Swapped(hunks)) && |Swapped(hunks)| == |hunks|
  {
    hide Simple;
    if hunks != [] {
      SwappedGrowth(hunks[1..]);
      SwappedOpsUse(hunks[0].operations);
      assert Swapped(hunks)[1..] == Swapped(hunks[1..]);
      assert WellFormed(hunks[0].Swapped());
    }
  }

  // Every line of a result is an original line or the text of an operation.
  lemma {:induction false} OpsStaySimple(lines: seq<string>, place: Place, ops: seq<Operation>)
    requires ApplyOps(lines, place, ops).Ok? && AllSimple(place.output)
    requires forall i | 0 <= i < |ops| :: Simple(ops[i].text)
    ensures AllSimple(ApplyOps(lines, place, ops).value.output)
    decreases |ops|
  {
    hide Simple;
    if ops != [] {
      OpsStaySimple(lines, ApplyOp(lines, place, ops[0]).value, ops[1..]);
    }
  }

  lemma {:induction false} HunksStaySimple(lines: seq<string>, place: Place, hunks: seq<Hunk>)
    requires place.cursor <= |lines| && ApplyHunks(lines, place, hunks).Ok? && AllWellFormed(hunks)
    requires AllSimple(lines) && AllSimple(place.output)
    ensures AllSimple(ApplyHunks(lines, place, hunks).value.output)
    decreases |hunks|
  {
    hide ApplyOps, Simple, OldUsed, NewUsed;
    if hunks != [] {
      var start := Approach(lines, place, hunks[0]).value;
      OpsStaySimple(lines, start, hunks[0].operations);
      HunksStaySimple(lines, ApplyOps(lines, start, hunks[0].operations).value, hunks[1..]);
    }
  }

  // ----- undoing a patch of a text

  function ApplyText(original: string, hunks: seq<Hunk>): Result<string> {
    match ApplyLines(Split(original), hunks)
    case Ok(lines) => Ok(Join(lines))
    case Err(error) => Err(error)
  }

  // What is still to come out of a patch: of the operations left of one hunk, then of the
  // hunks after it.
  function RestOps(lines: seq<string>, cursor: nat, ops: seq<Operation>, hunks: seq<Hunk>): seq<string>
    decreases |hunks|, |ops| + 1
  {
    if ops == [] then RestHunks(lines, cursor, hunks)
    else
      match ops[0].kind
      case Added => [ops[0].text] + RestOps(lines, cursor, ops[1..], hunks)
      case Context => [ops[0].text] + RestOps(lines, cursor + 1, ops[1..], hunks)
      case Removed => RestOps(lines, cursor + 1, ops[1..], hunks)
  }

  function RestHunks(lines: seq<string>, cursor: nat, hunks: seq<Hunk>): seq<string>
    decreases |hunks|, 0
  {
    if hunks == [] then Copied(lines, cursor, |lines|)
    else
      var start := hunks[0].OldIndex();
      Copied(lines, cursor, start) + RestOps(lines, if start < 0 then 0 else start, hunks[0].operations, hunks[1..])
  }

  function Copied(lines: seq<string>, low: nat, high: int): seq<string> {
    if low <= high <= |lines| then lines[low..high] else []
  }

  // From a place the rest of a patch applies.
  ghost predicate Applies(lines: seq<string>, place: Place, ops: seq<Operation>, hunks: seq<Hunk>) {
    && place.cursor <= |lines| && ApplyOps(lines, place, ops).Ok?
    && ApplyHunks(lines, ApplyOps(lines, place, ops).value, hunks).Ok?
  }

  ghost function Ending(lines: seq<string>, place: Place, ops: seq<Operation>, hunks: seq<Hunk>): Place
    requires Applies(lines, place, ops, hunks)
    ensures Ending(lines, place, ops, hunks).cursor <= |lines|
  {
    ApplyHunks(lines, ApplyOps(lines, place, ops).value, hunks).value
  }

  lemma AppliesOp(lines: seq<string>, place: Place, ops: seq<Operation>, hunks: seq<Hunk>)
    requires Applies(lines, place, ops, hunks) && ops != []
    ensures ApplyOp(lines, place, ops[0]).Ok?
    ensures var next := ApplyOp(lines, place, ops[0]).value;
      && Applies(lines, next, ops[1..], hunks)
        && Ending(lines, next, ops[1..], hunks) == Ending(lines, place, ops, hunks)
  {
    hide ApplyHunks;
  }

  lemma AppliesHunk(lines: seq<string>, place: Place, hunks: seq<Hunk>)
    requires Applies(lines, place, [], hunks) && hunks != []
    ensures Approach(lines, place, hunks[0]).Ok?
    ensures var start := Approach(lines, place, hunks[0]).value;
      && Applies(lines, start, hunks[0].operations, hunks[1..])
      && Ending(lines, start, hunks[0].operations, hunks[1..]) == Ending(lines, place, [], hunks)
  {
    hide Approach;
    NothingLeft(lines, place);
    ApproachMoves(lines, place, hunks[0]);
  }

  lemma {:induction false} RestIsPutOut(lines: seq<string>, place: Place, ops: seq<Operation>, hunks: seq<Hunk>)
    requires Applies(lines, place, ops, hunks)
    ensures var end := Ending(lines, place, ops, hunks);
      end.output + lines[end.cursor..] == place.output + RestOps(lines, place.cursor, ops, hunks)
    decreases |hunks|, |ops|
  {
    hide Applies, Ending, ApplyOps, ApplyHunks;
    if ops != [] {
      AppliesOp(lines, place, ops, hunks);
      RestIsPutOut(lines, ApplyOp(lines, place, ops[0]).value, ops[1..], hunks);
    } else if hunks != [] {
      AppliesHunk(lines, place, hunks);
      RestIsPutOut(lines, Approach(lines, place, hunks[0]).value, hunks[0].operations, hunks[1..]);
    } else {
      EndsHere(lines, place);
    }
  }

  lemma EndsHere(lines: seq<string>, place: Place)
    requires Applies(lines, place, [], [])
    ensures place.cursor <= |lines| && Ending(lines, place, [], []) == place
  {
  }

  // ----- when a patched text can be undone

  // Every added line has text, and ends in a newline unless it is the last of n lines; the
  // operations start putting out at the given line.
  predicate AdditionsFit(ops: seq<Operation>, at: int, n: int) {
    ops == [] ||
    match ops[0].kind
    case Added => ops[0].text != "" && (Terminated(ops[0].text) || at == n - 1) && AdditionsFit(ops[1..], at + 1, n)
    case Context => AdditionsFit(ops[1..], at + 1, n)
    case Removed => AdditionsFit(ops[1..], at, n)
  }

  predicate AllAdditionsFit(hunks: seq<Hunk>, n: int) {
    hunks == [] || (AdditionsFit(hunks[0].operations, hunks[0].NewIndex(), n) && AllAdditionsFit(hunks[1..], n))
  }

  // Whether an operation of a kind stands at a line of the original; the first of them
  // stands at the cursor.
  predicate StandsAt(kind: Kind, ops: seq<Operation>, cursor: int, position: int) {
    ops != [] &&
    ((ops[0].kind == kind && cursor == position)
      || StandsAt(kind, ops[1..], if ops[0].kind == Added then cursor else cursor + 1, position))
  }

  predicate AnyStandsAt(kind: Kind, hunks: seq<Hunk>, position: int) {
    hunks != [] && (StandsAt(kind, hunks[0].operations, hunks[0].OldIndex(), position)
      || AnyStandsAt(kind, hunks[1..], position))
  }

  // A last line without a newline is removed, or nothing is added after it.
  predicate LastLineFits(lines: seq<string>, hunks: seq<Hunk>) {
    || lines == [] || Terminated(lines[|lines| - 1])
    || AnyStandsAt(Removed, hunks, |lines| - 1) || !AnyStandsAt(Added, hunks, |lines|)
  }

  // What the lines and the hunks must be for the patched text to split into the lines the
  // patch put out.
  predicate Undoable(lines: seq<string>, hunks: seq<Hunk>) {
    AllAdditionsFit(hunks, |lines| + Growth(hunks)) && LastLineFits(lines, hunks)
  }

  // The same, for what is left of a patch.
  ghost predicate LastStillFits(lines: seq<string>, cursor: nat, ops: seq<Operation>, hunks: seq<Hunk>) {
    || cursor >= |lines| || Terminated(lines[|lines| - 1])
    || StandsAt(Removed, ops, cursor, |lines| - 1) || AnyStandsAt(Removed, hunks, |lines| - 1)
    || !(StandsAt(Added, ops, cursor, |lines|) || AnyStandsAt(Added, hunks, |lines|))
  }

  // Past the last line only additions are left.
  lemma {:induction false} OnlyAdditionsLeft(lines: seq<string>, place: Place, ops: seq<Operation>, hunks: seq<Hunk>)
    requires Applies(lines, place, ops, hunks) && place.cursor == |lines|
    ensures RestOps(lines, |lines|, ops, hunks) == []
      <==> !(StandsAt(Added, ops, |lines|, |lines|) || AnyStandsAt(Added, hunks, |lines|))
    ensures !StandsAt(Removed, ops, |lines|, |lines| - 1) && !AnyStandsAt(Removed, hunks, |lines| - 1)
    decreases |hunks|, |ops|
  {
    hide Applies, Ending, ApplyOps, ApplyHunks;
    if ops != [] {
      AppliesOp(lines, place, ops, hunks);
      OnlyAdditionsLeft(lines, ApplyOp(lines, place, ops[0]).value, ops[1..], hunks);
    } else if hunks != [] {
      AppliesHunk(lines, place, hunks);
      OnlyAdditionsLeft(lines, Approach(lines, place, hunks[0]).value, hunks[0].operations, hunks[1..]);
    }
  }

  // Copied lines are proper as far as what follows lets the last line be.
  lemma {:induction false} CopiedProper(lines: seq<string>, low: nat, high: nat, rest: seq<string>)
    requires Proper(lines) && low <= high <= |lines|
    ensures Proper(lines[low..high] + rest) <==>
      Proper(rest) && (low < high == |lines| && !Terminated(lines[|lines| - 1]) ==> rest == [])
    decreases high - low
  {
    hide Proper, Terminated;
    var all := lines[low..high] + rest;
    if low == high {
      assert all == rest;
    } else {
      CopiedProper(lines, low + 1, high, rest);
      assert all[0] == lines[low] && all[1..] == lines[low + 1..high] + rest;
      OfProper(lines, low);
      ProperStep(all);
    }
  }

  lemma OfProper(lines: seq<string>, i: nat)
    requires Proper(lines) && i < |lines|
    ensures lines[i] != "" && Simple(lines[i]) && (i < |lines| - 1 ==> Terminated(lines[i]))
  {
  }

  lemma PrependProper(line: string, rest: seq<string>)
    requires Simple(line)
    ensures Proper([line] + rest) <==> line != "" && (rest != [] ==> Terminated(line)) && Proper(rest)
  {
    hide Proper, Simple, Terminated;
    ProperStep([line] + rest);
    assert ([line] + rest)[1..] == rest;
  }

  // What is left to put out is proper exactly when the additions left fit and the last line does.
  lemma {:induction false} RestProperIff(lines: seq<string>, place: Place, ops: seq<Operation>,
        hunks: seq<Hunk>, n: nat)
    requires Proper(lines) && Applies(lines, place, ops, hunks) && AllWellFormed(hunks)
    requires forall i | 0 <= i < |ops| :: Simple(ops[i].text)
    requires n == |place.output| + |RestOps(lines, place.cursor, ops, hunks)|
    ensures Proper(RestOps(lines, place.cursor, ops, hunks)) <==>
      AdditionsFit(ops, |place.output|, n) && AllAdditionsFit(hunks, n)
        && LastStillFits(lines, place.cursor, ops, hunks)
    decreases |hunks|, |ops|
  {
    hide Applies, Ending, ApplyOps, ApplyHunks, Proper, Simple, Terminated, WellFormed;
    if ops != [] {
      AppliesOp(lines, place, ops, hunks);
      var next := ApplyOp(lines, place, ops[0]).value;
      RestProperIff(lines, next, ops[1..], hunks, n);
      var rest := RestOps(lines, next.cursor, ops[1..], hunks);
      if ops[0].kind == Added {
        PrependProper(ops[0].text, rest);
      } else if ops[0].kind == Context {
        PrependProper(ops[0].text, rest);
        OfProper(lines, place.cursor);
        if next.cursor == |lines| {
          OnlyAdditionsLeft(lines, next, ops[1..], hunks);
        }
      }
    } else if hunks != [] {
      AppliesHunk(lines, place, hunks);
      var start := Approach(lines, place, hunks[0]).value;
      TextsAreSimple(hunks);
      RestProperIff(lines, start, hunks[0].operations, hunks[1..], n);
      CopiedProper(lines, place.cursor, start.cursor, RestOps(lines, start.cursor, hunks[0].operations, hunks[1..]));
      if start.cursor == |lines| {
        OnlyAdditionsLeft(lines, start, hunks[0].operations, hunks[1..]);
      }
    } else {
      EndsHere(lines, place);
      SuffixProper(lines, place.cursor);
      assert RestOps(lines, place.cursor, ops, hunks) == lines[place.cursor..];
    }
  }

  lemma TextsAreSimple(hunks: seq<Hunk>)
    requires AllWellFormed(hunks) && hunks != []
    ensures forall i | 0 <= i < |hunks[0].operations| :: Simple(hunks[0].operations[i].text)
    ensures AllWellFormed(hunks[1..])
  {
    hide Simple, OldUsed, NewUsed;
    assert WellFormed(hunks[0]);
  }

  lemma SuffixProper(lines: seq<string>, k: nat)
    requires Proper(lines) && k <= |lines|
    ensures Proper(lines[k..])
  {
    hide Simple, Terminated;
  }

  // Whether the lines a patch leaves are those its result splits into is decided by the
  // original lines and the hunks alone.
  lemma ProperIffUndoable(lines: seq<string>, hunks: seq<Hunk>)
    requires Proper(lines) && AllWellFormed(hunks) && ApplyLines(lines, hunks).Ok?
    ensures Proper(ApplyLines(lines, hunks).value) <==> Undoable(lines, hunks)
  {
    hide ApplyHunks, Proper, WellFormed, Simple, Terminated, AllAdditionsFit, AnyStandsAt, AllWellFormed, RestHunks;
    var place := Place(0, []);
    NothingLeft(lines, place);
    RestIsPutOut(lines, place, [], hunks);
    assert ApplyLines(lines, hunks).value == RestOps(lines, 0, [], hunks);
    ResultLength(lines, hunks);
    RestProperIff(lines, place, [], hunks, |lines| + Growth(hunks));
  }

  // On texts, a patch is undone by the swapped patch exactly when every added line ends in a
  // newline or is the last, none is empty, and nothing is added after a last line that has
  // no newline and stays.
  lemma TextInvertsIff(original: string, hunks: seq<Hunk>)
    requires AllWellFormed(hunks) && ApplyText(original, hunks).Ok?
    ensures ApplyText(ApplyText(original, hunks).value, Swapped(hunks)) == Ok(original)
       <==> Undoable(Split(original), hunks)
  {
    hide Split, Join, ApplyLines, AllWellFormed, Swapped, Proper, AllSimple, Undoable;
    var lines := Split(original);
    var after := ApplyLines(lines, hunks).value;
    JoinSplit(original);
    LinesStaySimple(lines, hunks);
    SplitJoin(after);
    ProperIffUndoable(lines, hunks);
    if Proper(after) {
      PatchInverts(lines, hunks);
    } else {
      var undone := ApplyLines(Split(Join(after)), Swapped(hunks));
      if undone.Ok? {
        JoinSplit(Join(after));
        SwappedGrowth(hunks);
        ResultLength(lines, hunks);
        ResultLength(Split(Join(after)), Swapped(hunks));
        LinesStaySimple(Split(Join(after)), Swapped(hunks));
        SplitJoin(undone.value);
      }
    }
  }

  lemma LinesStaySimple(lines: seq<string>, hunks: seq<Hunk>)
    requires ApplyLines(lines, hunks).Ok? && AllWellFormed(hunks) && Proper(lines)
    ensures AllSimple(ApplyLines(lines, hunks).value)
  {
    hide ApplyHunks, WellFormed, Simple;
    HunksStaySimple(lines, Place(0, []), hunks);
  }

  // Adds a line after the first line of a text.
  function LateLine(): Hunk { Hunk(1, 0, 2, 1, [Operation(Added, "b\n")]) }

  lemma LateLineApplies()
    ensures AllWellFormed([LateLine()]) && ApplyLines(["a"], [LateLine()]) == Ok(["a", "b\n"])
  {
    var hunk, place, end := LateLine(), Place(1, ["a"]), Place(1, ["a", "b\n"]);
    assert NewUsed(hunk.operations) == 1 && OldUsed(hunk.operations) == 0;
    assert ["a"][0..1] == ["a"] && [] + ["a"] == ["a"];
    assert Approach(["a"], Place(0, []), hunk) == Ok(place);
    assert place.output + ["b\n"] == end.output;
    NothingLeft(["a"], end);
    assert hunk.operations[1..] == [] && [hunk][1..] == [];
    assert ApplyOps(["a"], place, hunk.operations) == Ok(end);
    assert end.output + ["a"][1..] == end.output;
  }

  lemma LateLineCannotBeUndone()
    ensures !Undoable(["a"], [LateLine()])
  {
    var ops := LateLine().operations;
    assert ops[1..] == [] && [LateLine()][1..] == [];
    assert !StandsAt(Removed, ops, 1, 0) && !AnyStandsAt(Removed, [LateLine()], 0);
    assert StandsAt(Added, ops, 1, 1) && AnyStandsAt(Added, [LateLine()], 1);
  }

  // Where that line has no newline, the patch is not undone.
  lemma NotUndone()
    ensures ApplyText("a", [LateLine()]) == Ok("ab\n")
    ensures ApplyText("ab\n", Swapped([LateLine()])) != Ok("a")
  {
    hide ApplyLines, Swapped, AllWellFormed, LateLine, Undoable;
    LateLineApplies();
    LateLineCannotBeUndone();
    OneLine("a");
    var lines := ["a", "b\n"];
    assert lines[1..] == ["b\n"] && ["b\n"][1..] == [];
    assert Join(["b\n"]) == "b\n" + Join([]) == "b\n";
    assert Join(lines) == "a" + "b\n" == "ab\n";
    TextInvertsIff("a", [LateLine()]);
  }
}
