// How records make up lines: the open line each stream carries, and what the
// records of one stream say about the lines they belong to.
module LogLines {
  import opened LogRecord
  import opened LogSegment

  datatype LineState = LineState(open: bool, start: nat, last: nat, timestamp: int)

  const NO_LINE := LineState(false, 0, 0, 0)

  function Advance(state: LineState, r: Record): LineState {
    if r.LineEnd() then NO_LINE
    else LineState(true, if r.LineStart() || !state.open then r.lineOffset else state.start, r.offset, r.timestamp)
  }

  // The line stream s has open after the records rs, as recovery rebuilds it.
  function OpenLine(rs: seq<Stored>, s: Stream): LineState {
    if rs == [] then NO_LINE else
    var r := rs[|rs| - 1];
    if r.stream == s then Advance(OpenLine(rs[..|rs| - 1], s), r) else OpenLine(rs[..|rs| - 1], s)
  }

  function OpenEntry(state: LineState): seq<LineEntry> {
    if state.open then [LineEntry(state.start, state.last, state.timestamp)] else []
  }

  // rs is the log from offset 0. Every record knows the offset its line began at,
  // that line began with a record of the same stream, and no line goes on after its end.
  ghost predicate WellLined(rs: seq<Stored>) {
    StartsKnown(rs) && LinesOwned(rs) && EndsFinal(rs)
  }

  ghost predicate StartsKnown(rs: seq<Stored>) {
    forall i | 0 <= i < |rs| :: rs[i].lineOffset <= i && (rs[i].LineStart() <==> rs[i].lineOffset == i)
  }

  ghost predicate LinesOwned(rs: seq<Stored>) {
    forall i | 0 <= i < |rs| :: rs[i].lineOffset < |rs| && rs[rs[i].lineOffset].stream == rs[i].stream
  }

  ghost predicate EndsFinal(rs: seq<Stored>) {
    forall i, j | 0 <= i < j < |rs| && rs[i].stream == rs[j].stream && rs[i].LineEnd() :: i < rs[j].lineOffset
  }

  // A record of a stream that has a line open in rs belongs to that line.
  ghost predicate Continues(rs: seq<Stored>) {
    rs == [] ||
    var r, open := rs[|rs| - 1], OpenLine(rs[..|rs| - 1], rs[|rs| - 1].stream);
    Continues(rs[..|rs| - 1]) && (open.open ==> r.lineOffset == open.start)
  }

  // An open line is the line of its stream's latest record, which does not end it.
  lemma {:induction false} OpenLineIsLatest(rs: seq<Stored>, s: Stream) returns (k: nat)
    requires OpenLine(rs, s).open && Continues(rs)
    ensures k < |rs| && rs[k].stream == s && !rs[k].LineEnd()
    ensures OpenLine(rs, s) == LineState(true, rs[k].lineOffset, rs[k].offset, rs[k].timestamp)
    ensures forall j | k < j < |rs| :: rs[j].stream != s
  {
    if rs[|rs| - 1].stream == s {
      k := |rs| - 1;
    } else {
      k := OpenLineIsLatest(rs[..|rs| - 1], s);
    }
  }

  lemma {:induction false} ClosedIsNoLine(rs: seq<Stored>, s: Stream)
    ensures !OpenLine(rs, s).open ==> OpenLine(rs, s) == NO_LINE
  {
    if rs != [] {
      ClosedIsNoLine(rs[..|rs| - 1], s);
    }
  }

  // Forgetting a prefix either forgets the open line with it or keeps it exactly.
  lemma {:induction false} SuffixOpenLine(before: seq<Stored>, after: seq<Stored>, s: Stream)
    requires Continues(before + after)
    ensures OpenLine(after, s).open ==> OpenLine(after, s) == OpenLine(before + after, s)
  {
    if after == [] {
    } else {
      var init := after[..|after| - 1];
      assert (before + after)[..|before + after| - 1] == before + init;
      SuffixOpenLine(before, init, s);
    }
  }

  lemma {:induction false} ContinuesLater(before: seq<Stored>, after: seq<Stored>)
    requires Continues(before + after)
    ensures Continues(after)
  {
    if after == [] {
    } else {
      var init := after[..|after| - 1];
      assert (before + after)[..|before + after| - 1] == before + init;
      ContinuesLater(before, init);
      SuffixOpenLine(before, init, after[|after| - 1].stream);
    }
  }

  lemma {:induction false} ContinuesPrefix(rs: seq<Stored>, n: nat)
    requires n <= |rs| && Continues(rs)
    ensures Continues(rs[..n])
  {
    if n == |rs| {
      assert rs[..n] == rs;
    } else {
      ContinuesPrefix(rs[..|rs| - 1], n);
      assert rs[..|rs| - 1][..n] == rs[..n];
    }
  }

  lemma WellLinedPrefix(rs: seq<Stored>, n: nat)
    requires n <= |rs| && WellLined(rs)
    ensures WellLined(rs[..n])
  {
    forall i | 0 <= i < n
      ensures rs[..n][i].lineOffset < n && rs[..n][rs[..n][i].lineOffset].stream == rs[..n][i].stream
    {
      assert rs[i].lineOffset <= i;
    }
  }

  lemma LineOf(rs: seq<Stored>, i: nat)
    requires WellLined(rs) && i < |rs|
    ensures rs[i].lineOffset <= i && rs[rs[i].lineOffset].stream == rs[i].stream
  {
  }

  // The line of a stream's latest record began after every line end of the stream but its own.
  lemma LatestLineBegan(rs: seq<Stored>, k: nat)
    requires WellLined(rs) && k < |rs| && !rs[k].LineEnd()
    requires forall j | k < j < |rs| :: rs[j].stream != rs[k].stream
    ensures forall i | 0 <= i < |rs| && rs[i].stream == rs[k].stream && rs[i].LineEnd() :: i < rs[k].lineOffset
  {
    hide StartsKnown, LinesOwned;
  }

  // An open line ends no later than its stream's latest record and began, at a
  // record of its own stream, after every line the stream has ended.
  lemma OpenLineFacts(rs: seq<Stored>, from: nat, s: Stream)
    requires from <= |rs| && WellLined(rs) && Continues(rs[from..]) && Consecutive(rs, 0)
    requires OpenLine(rs[from..], s).open
    ensures var open := OpenLine(rs[from..], s);
      && from <= open.last < |rs|
      && rs[open.last].stream == s && rs[open.last].lineOffset == open.start && !rs[open.last].LineEnd()
      && open.start <= open.last && rs[open.start].stream == s
      && (forall i | open.last < i < |rs| :: rs[i].stream != s)
      && (forall i | 0 <= i < |rs| && rs[i].stream == s && rs[i].LineEnd() :: i < open.start)
  {
    hide OpenLine, Continues, WellLined;
    var k := OpenLineIsLatest(rs[from..], s);
    assert rs[from..][k] == rs[from + k];
    forall i | from + k < i < |rs| ensures rs[i].stream != s {
      assert rs[i] == rs[from..][i - from];
    }
    LineOf(rs, from + k);
    LatestLineBegan(rs, from + k);
  }

  // A record that continues its stream's open line, or starts a new one, keeps the lines well formed.
  lemma AppendKeepsLines(rs: seq<Stored>, from: nat, r: Stored)
    requires from <= |rs| && WellLined(rs) && Continues(rs[from..]) && Consecutive(rs, 0)
    requires r.offset == |rs|
    requires r.lineOffset == var open := OpenLine(rs[from..], r.stream); if open.open then open.start else |rs|
    requires r.LineStart() <==> r.lineOffset == |rs|
    ensures WellLined(rs + [r]) && Continues((rs + [r])[from..])
    ensures forall s :: OpenLine((rs + [r])[from..], s)
                     == (if s == r.stream then Advance(OpenLine(rs[from..], s), r) else OpenLine(rs[from..], s))
  {
    AppendKeepsWellLined(rs, from, r);
    assert (rs + [r])[from..][..|rs| - from] == rs[from..];
    assert (rs + [r])[from..][|rs| - from] == r;
    hide WellLined;
  }

  lemma AppendKeepsWellLined(rs: seq<Stored>, from: nat, r: Stored)
    requires from <= |rs| && WellLined(rs) && Continues(rs[from..]) && Consecutive(rs, 0)
    requires r.offset == |rs|
    requires r.lineOffset == var open := OpenLine(rs[from..], r.stream); if open.open then open.start else |rs|
    requires r.LineStart() <==> r.lineOffset == |rs|
    ensures WellLined(rs + [r])
  {
    hide OpenLine, Continues;
    if OpenLine(rs[from..], r.stream).open {
      OpenLineFacts(rs, from, r.stream);
    }
  }
}
