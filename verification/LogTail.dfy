// Resolving "the last N lines" of a log through its line indexes.
module LogTail {
  import opened LogRecord
  import opened LogSegment
  import opened LogLines
  import opened LogStore
  import opened ProcessLogs

  // ----- the newest entries of one stream

  function AllLines(segs: seq<Segment>, s: Stream): seq<LineEntry> {
    if segs == [] then [] else AllLines(segs[..|segs| - 1], s) + segs[|segs| - 1].Lines(s)
  }

  // The last n elements of a list, last first.
  function Latest(list: seq<LineEntry>, n: nat): seq<LineEntry> {
    if n == 0 || list == [] then [] else [list[|list| - 1]] + Latest(list[..|list| - 1], n - 1)
  }

  lemma {:induction false} LatestIsSuffix(list: seq<LineEntry>, n: nat)
    ensures var got := Latest(list, n);
      && |got| == (if n < |list| then n else |list|)
      && forall i | 0 <= i < |got| :: got[i] == list[|list| - 1 - i]
  {
    if n > 0 && list != [] {
      LatestIsSuffix(list[..|list| - 1], n - 1);
    }
  }

  lemma AllLinesStep(segs: seq<Segment>, s: Stream)
    requires segs != []
    ensures AllLines(segs, s) == AllLines(segs[..|segs| - 1], s) + segs[|segs| - 1].Lines(s)
  {
  }

  lemma {:induction false} AllLinesSplit(segs: seq<Segment>, k: nat, s: Stream)
    requires k <= |segs|
    ensures AllLines(segs, s) == AllLines(segs[..k], s) + AllLines(segs[k..], s)
  {
    hide AllLines;
    NoLines(s, 0);
    if k == |segs| {
      assert segs[..k] == segs && segs[k..] == [];
    } else {
      AllLinesSplit(segs[..|segs| - 1], k, s);
      assert segs[..|segs| - 1][..k] == segs[..k] && segs[..|segs| - 1][k..] == segs[k..][..|segs| - k - 1];
      AllLinesStep(segs, s);
      AllLinesStep(segs[k..], s);
    }
  }

  lemma LatestStep(list: seq<LineEntry>, e: LineEntry, n: nat)
    requires n > 0
    ensures Latest(list + [e], n) == [e] + Latest(list, n - 1)
  {
    assert (list + [e])[..|list|] == list;
  }

  lemma LatestOfNone(list: seq<LineEntry>)
    ensures Latest(list, 0) == []
  {
  }

  lemma {:induction false} LatestOfBoth(a: seq<LineEntry>, b: seq<LineEntry>, n: nat)
    ensures |Latest(b, n)| <= n
    ensures Latest(a + b, n) == Latest(b, n) + Latest(a, n - |Latest(b, n)|)
    decreases n
  {
    hide Latest;
    if n == 0 {
      LatestOfNone(a + b);
      LatestOfNone(b);
      LatestOfNone(a);
    } else if b == [] {
      assert a + b == a;
      NoLines(Stdout, n);
    } else {
      var init, e := b[..|b| - 1], b[|b| - 1];
      LatestOfBoth(a, init, n - 1);
      LatestStep(init, e, n);
      LatestStep(a + init, e, n);
      assert b == init + [e] && a + b == (a + init) + [e];
      assert [e] + (Latest(init, n - 1) + Latest(a, n - 1 - |Latest(init, n - 1)|))
          == ([e] + Latest(init, n - 1)) + Latest(a, n - 1 - |Latest(init, n - 1)|);
    }
  }

  // Reads one line index backwards.
  method ReadLatest(lines: seq<LineEntry>, need: nat) returns (got: seq<LineEntry>)
    ensures got == Latest(lines, need)
  {
    got := [];
    var count := if |lines| > need then need else |lines|;
    assert lines[..|lines|] == lines;
    for item := 0 to count
      invariant Latest(lines, need) == got + Latest(lines[..|lines| - item], need - item)
    {
      assert lines[..|lines| - item][..|lines| - item - 1] == lines[..|lines| - item - 1];
      got := got + [lines[|lines| - 1 - item]];
    }
  }

  // Reads the line indexes of the segments backwards until there are enough entries.
  method LastLineEntries(segs: seq<Segment>, s: Stream, limit: nat) returns (entries: seq<LineEntry>)
    ensures entries == Latest(AllLines(segs, s), limit)
  {
    hide Latest, AllLines;
    entries := [];
    var index := |segs|;
    assert segs[index..] == [];
    NoLines(s, limit);
    while index > 0 && |entries| < limit
      invariant 0 <= index <= |segs|
      invariant entries == Latest(AllLines(segs[index..], s), limit)
    {
      index := index - 1;
      OneSegmentMore(segs[index..], s);
      assert segs[index..][1..] == segs[index + 1..];
      LatestOfBoth(segs[index].Lines(s), AllLines(segs[index + 1..], s), limit);
      var more := ReadLatest(segs[index].Lines(s), limit - |entries|);
      entries := entries + more;
    }
    AllLinesSplit(segs, index, s);
    LatestOfBoth(AllLines(segs[..index], s), AllLines(segs[index..], s), limit);
    LatestIsSuffix(AllLines(segs[..index], s), limit - |entries|);
    assert segs[..0] == [];
  }

  lemma NoLines(s: Stream, limit: nat)
    ensures AllLines([], s) == [] && Latest([], limit) == []
  {
  }

  lemma OneSegmentMore(segs: seq<Segment>, s: Stream)
    requires segs != []
    ensures AllLines(segs, s) == segs[0].Lines(s) + AllLines(segs[1..], s)
  {
    hide AllLines;
    AllLinesSplit(segs, 1, s);
    assert segs[..1] == [] + [segs[0]];
    AllLinesMore([], segs[0], s);
    NoLines(s, 0);
  }

  // ----- what the indexes of a log list

  lemma {:induction false} LineIndexSplit(rs: seq<Stored>, k: nat, s: Stream)
    requires k <= |rs|
    ensures LineIndex(rs, s) == LineIndex(rs[..k], s) + LineIndex(rs[k..], s)
  {
    hide LineEntries;
    if k == |rs| {
      assert rs[..k] == rs && rs[k..] == [];
    } else {
      LineIndexSplit(rs[..|rs| - 1], k, s);
      assert rs[..|rs| - 1][..k] == rs[..k] && rs[..|rs| - 1][k..] == rs[k..][..|rs| - k - 1];
    }
  }

  function OpenOf(s: Stream, out: seq<LineEntry>, err: seq<LineEntry>): seq<LineEntry> {
    if s == Stderr then err else out
  }

  lemma SegmentLines(seg: Segment, records: seq<Stored>, out: seq<LineEntry>, err: seq<LineEntry>, s: Stream)
    requires Covers(seg, records, out, err)
    ensures seg.Lines(s) == LineIndex(records[seg.first..seg.next], s) + OpenOf(s, out, err)
  {
    hide EncodeAll, OffsetIndex, LineIndex, ReadHeader;
  }

  lemma {:induction false} IndexedLines(segs: seq<Segment>, records: seq<Stored>, earliest: nat,
                                        out: seq<LineEntry>, err: seq<LineEntry>, s: Stream, n: nat)
    requires IsStore(segs, records, earliest, out, err) && n < |segs|
    ensures earliest <= segs[n].first <= segs[n].next <= |records|
    ensures AllLines(segs[..n + 1], s)
         == LineIndex(records[earliest..segs[n].next], s) + if n == |segs| - 1 then OpenOf(s, out, err) else []
  {
    hide LineIndex, IsStore, Covers, AllLines, OpenOf;
    Bounds(segs, records, earliest, out, err);
    EarliestIs(segs, records, earliest, out, err);
    SegmentCovers(segs, records, earliest, out, err, n);
    var seg, last, init := segs[n], n == |segs| - 1, segs[..n];
    SegmentLines(seg, records, if last then out else [], if last then err else [], s);
    AllLinesMore(init, seg, s);
    assert segs[..n + 1] == init + [seg];
    OpenOfNone(s);
    if n > 0 {
      IndexedLines(segs, records, earliest, out, err, s, n - 1);
      SegmentCovers(segs, records, earliest, out, err, n - 1);
      assert AllLines(init, s) == LineIndex(records[earliest..seg.first], s);
    } else {
      assert init == [] && records[earliest..seg.first] == [];
      NoLines(s, 0);
      NothingYet();
    }
    LineIndexTiles(records, earliest, seg.first, seg.next, s);
  }

  lemma AllLinesMore(init: seq<Segment>, seg: Segment, s: Stream)
    ensures AllLines(init + [seg], s) == AllLines(init, s) + seg.Lines(s)
  {
    AllLinesStep(init + [seg], s);
    assert (init + [seg])[..|init|] == init;
  }

  lemma OpenOfNone(s: Stream)
    ensures OpenOf(s, [], []) == []
  {
  }

  lemma LineIndexTiles(records: seq<Stored>, low: nat, middle: nat, high: nat, s: Stream)
    requires low <= middle <= high <= |records|
    ensures LineIndex(records[low..high], s) == LineIndex(records[low..middle], s) + LineIndex(records[middle..high], s)
  {
    hide LineIndex;
    LineIndexSplit(records[low..high], middle - low, s);
    assert records[low..high][..middle - low] == records[low..middle];
    assert records[low..high][middle - low..] == records[middle..high];
  }

  lemma AllIndexedLines(segs: seq<Segment>, records: seq<Stored>, earliest: nat,
                        out: seq<LineEntry>, err: seq<LineEntry>, s: Stream)
    requires IsStore(segs, records, earliest, out, err)
    ensures earliest <= |records|
    ensures AllLines(segs, s)
         == LineIndex(records[earliest..], s) + if segs != [] then OpenOf(s, out, err) else []
  {
    hide LineIndex, AllLines, Covers;
    Bounds(segs, records, earliest, out, err);
    if segs == [] {
      NoLines(s, 0);
      NothingYet();
      assert records[earliest..] == [];
    } else {
      IndexedLines(segs, records, earliest, out, err, s, |segs| - 1);
      assert segs[..|segs|] == segs && records[earliest..|records|] == records[earliest..];
    }
  }

  // ----- lines are runs of offsets, in order

  // Entry e names a line of stream s by the record it starts at and its latest one.
  ghost predicate NamesLine(records: seq<Stored>, e: LineEntry, s: Stream) {
    && e.start <= e.last < |records|
    && records[e.last].stream == s && records[e.last].lineOffset == e.start
    && records[e.start].stream == s
  }

  ghost predicate AreLines(records: seq<Stored>, list: seq<LineEntry>, s: Stream) {
    && (forall e | e in list :: NamesLine(records, e, s))
    && (forall i, j | 0 <= i < j < |list| :: list[i].last < list[j].start)
  }

  lemma NothingListed(records: seq<Stored>, s: Stream)
    ensures LineIndex([], s) == [] && AreLines(records, [], s)
  {
  }

  lemma NamesAreLines(records: seq<Stored>, list: seq<LineEntry>, s: Stream)
    requires AreLines(records, list, s)
    ensures forall e | e in list :: NamesLine(records, e, s)
  {
  }

  lemma LinesMore(records: seq<Stored>, list: seq<LineEntry>, e: LineEntry, s: Stream)
    requires AreLines(records, list, s) && NamesLine(records, e, s)
    requires forall x | x in list :: x.last < e.start
    ensures AreLines(records, list + [e], s)
  {
    hide NamesLine;
  }

  lemma {:induction false} IndexListsLines(records: seq<Stored>, from: nat, n: nat, s: Stream)
    requires from <= n <= |records| && WellLined(records) && Consecutive(records, 0)
    ensures AreLines(records, LineIndex(records[from..n], s), s)
    ensures forall e | e in LineIndex(records[from..n], s) :: from <= e.last < n && records[e.last].LineEnd()
  {
    hide WellLined, AreLines, LineIndex;
    if from == n {
      assert records[from..n] == [];
      NothingListed(records, s);
    } else {
      IndexListsLines(records, from, n - 1, s);
      assert records[from..n][..n - 1 - from] == records[from..n - 1];
      assert records[from..n][n - 1 - from] == records[n - 1];
      GrowLines(records[from..n], s);
      LineOf(records, n - 1);
      EndedBefore(records, n - 1);
      var before := LineIndex(records[from..n - 1], s);
      if LineEntries(records[n - 1], s) == [] {
        assert before + [] == before;
      } else {
        NamesAreLines(records, before, s);
        LinesMore(records, before, LineEntry(records[n - 1].lineOffset, n - 1, records[n - 1].timestamp), s);
      }
    }
  }

  lemma EndedBefore(records: seq<Stored>, j: nat)
    requires WellLined(records) && j < |records|
    ensures forall i | 0 <= i < j && records[i].stream == records[j].stream && records[i].LineEnd() ::
      i < records[j].lineOffset
  {
  }

  lemma OpenEntryIsLine(records: seq<Stored>, origin: nat, earliest: nat, s: Stream)
    requires origin <= earliest <= |records|
    requires WellLined(records) && Consecutive(records, 0) && Continues(records[origin..])
    ensures AreLines(records, LineIndex(records[earliest..], s) + OpenEntry(OpenLine(records[origin..], s)), s)
  {
    hide WellLined, OpenLine, Continues, LineIndex, AreLines;
    assert records[earliest..|records|] == records[earliest..];
    IndexListsLines(records, earliest, |records|, s);
    var listed, open := LineIndex(records[earliest..], s), OpenLine(records[origin..], s);
    if open.open {
      OpenLineFacts(records, origin, s);
      NamesAreLines(records, listed, s);
      LinesMore(records, listed, LineEntry(open.start, open.last, open.timestamp), s);
    } else {
      assert listed + [] == listed;
    }
  }

  // ----- choosing the newest lines

  // The order candidates are sorted in: latest record first, then latest start.
  predicate Newer(a: LineEntry, b: LineEntry) {
    a.last > b.last || (a.last == b.last && a.start > b.start)
  }

  ghost predicate Descending(list: seq<LineEntry>) {
    forall i, j | 0 <= i < j < |list| :: Newer(list[i], list[j])
  }

  ghost predicate DistinctStarts(list: seq<LineEntry>) {
    forall i, j | 0 <= i < j < |list| :: list[i].start != list[j].start
  }

  // The first n entries of a pool in that order.
  ghost predicate IsTop(chosen: seq<LineEntry>, pool: seq<LineEntry>, n: nat) {
    && Descending(chosen)
    && |chosen| == (if n < |pool| then n else |pool|)
    && (forall e | e in chosen :: e in pool)
    && (forall e, c | e in pool && c in chosen && e !in chosen :: Newer(c, e))
  }

  // The n lines of a pool whose latest records are newest, newest first.
  ghost predicate IsNewest(chosen: seq<LineEntry>, pool: seq<LineEntry>, n: nat) {
    && (forall i, j | 0 <= i < j < |chosen| :: chosen[i].last > chosen[j].last)
    && |chosen| == (if n < |pool| then n else |pool|)
    && (forall e | e in chosen :: e in pool)
    && (forall e, c | e in pool && c in chosen && e !in chosen :: e.last < c.last)
  }

  method Insert(list: seq<LineEntry>, e: LineEntry) returns (more: seq<LineEntry>)
    ensures |more| == |list| + 1 && forall x :: x in more <==> x in list || x == e
    ensures Descending(list) && (forall x | x in list :: x.start != e.start) ==> Descending(more)
  {
    hide Descending;
    var i := |list|;
    while i > 0 && Newer(e, list[i - 1])
      invariant 0 <= i <= |list|
      invariant forall j | i <= j < |list| :: Newer(e, list[j])
    {
      i := i - 1;
    }
    more := list[..i] + [e] + list[i..];
    assert list == list[..i] + list[i..];
    if Descending(list) && forall x | x in list :: x.start != e.start {
      InsertKeepsDescending(list, i, e);
    }
  }

  lemma InsertKeepsDescending(list: seq<LineEntry>, i: nat, e: LineEntry)
    requires i <= |list| && Descending(list)
    requires i > 0 ==> Newer(list[i - 1], e)
    requires forall j | i <= j < |list| :: Newer(e, list[j])
    ensures Descending(list[..i] + [e] + list[i..])
  {
  }

  method SortNewest(list: seq<LineEntry>) returns (sorted: seq<LineEntry>)
    ensures |sorted| == |list| && forall x :: x in sorted <==> x in list
    ensures DistinctStarts(list) ==> Descending(sorted)
  {
    sorted := [];
    for i := 0 to |list|
      invariant |sorted| == i && forall x :: x in sorted <==> x in list[..i]
      invariant DistinctStarts(list) ==> Descending(sorted)
    {
      assert list[..i + 1] == list[..i] + [list[i]];
      sorted := Insert(sorted, list[i]);
    }
    assert list[..|list|] == list;
  }

  ghost function Elements(list: seq<LineEntry>): set<LineEntry> {
    set e | e in list
  }

  lemma {:induction false} ElementsCount(list: seq<LineEntry>)
    ensures |Elements(list)| <= |list|
    ensures Descending(list) ==> |Elements(list)| == |list|
  {
    if list == [] {
    } else {
      var init, e := list[..|list| - 1], list[|list| - 1];
      ElementsCount(init);
      assert Elements(list) == Elements(init) + {e};
      if Descending(list) {
        assert e !in Elements(init);
      }
    }
  }

  // Fewer than n entries cannot all be newer than something n others are newer than.
  lemma NewerThanMany(sorted: seq<LineEntry>, k: nat, newer: seq<LineEntry>, e: LineEntry)
    requires Descending(sorted) && k < |sorted| && k < |newer| && Descending(newer)
    requires forall t | t in newer :: t in sorted && Newer(t, e)
    ensures Newer(sorted[k], e)
  {
    if !Newer(sorted[k], e) {
      forall t | t in newer
        ensures t in sorted[..k]
      {
        var i :| 0 <= i < |sorted| && sorted[i] == t;
      }
      ElementsCount(newer);
      ElementsCount(sorted[..k]);
      SubsetCount(Elements(newer), Elements(sorted[..k]));
    }
  }

  lemma {:induction false} SubsetCount(a: set<LineEntry>, b: set<LineEntry>)
    requires a <= b
    ensures |a| <= |b|
  {
    if a != {} {
      var x :| x in a;
      SubsetCount(a - {x}, b - {x});
    }
  }

  ghost predicate Rising(list: seq<LineEntry>) {
    forall i, j | 0 <= i < j < |list| :: list[i].last < list[j].last
  }

  // The latest entries of a rising list are newer than the rest of it.
  lemma LatestIsDescending(list: seq<LineEntry>, n: nat)
    requires Rising(list)
    ensures Descending(Latest(list, n)) && forall e | e in Latest(list, n) :: e in list
  {
    hide Latest;
    LatestIsSuffix(list, n);
  }

  lemma LatestLeavesOlder(list: seq<LineEntry>, n: nat, e: LineEntry)
    requires Rising(list) && e in list && e !in Latest(list, n)
    ensures |Latest(list, n)| == n && forall t | t in Latest(list, n) :: Newer(t, e)
  {
    hide Latest;
    LatestIsSuffix(list, n);
    var got := Latest(list, n);
    forall i | |list| - |got| <= i < |list|
      ensures list[i] in got
    {
      assert got[|list| - 1 - i] == list[i];
    }
    var i :| 0 <= i < |list| && list[i] == e;
    forall t | t in got
      ensures Newer(t, e)
    {
      var j :| 0 <= j < |got| && got[j] == t;
    }
  }

  // What one chosen stream contributes: its latest entries and its open line.
  ghost predicate Contributes(cand: seq<LineEntry>, list: seq<LineEntry>, open: seq<LineEntry>, n: nat) {
    cand == Latest(list, n) + open && |open| <= 1 && Rising(list) && DistinctStarts(list + open)
  }

  lemma ContributesDistinct(cand: seq<LineEntry>, list: seq<LineEntry>, open: seq<LineEntry>, n: nat)
    requires Contributes(cand, list, open, n)
    ensures DistinctStarts(cand) && forall e | e in cand :: e in list + open
    ensures |cand| <= |list + open| && (|cand| < n ==> |cand| == |list + open|)
  {
    hide Latest;
    LatestIsSuffix(list, n);
    LatestIsDescending(list, n);
    var got, all := Latest(list, n), list + open;
    forall i, j | 0 <= i < j < |cand|
      ensures cand[i].start != cand[j].start
    {
      assert cand[i] == all[if i < |got| then |list| - 1 - i else |list|];
      assert cand[j] == all[if j < |got| then |list| - 1 - j else |list|];
    }
  }

  // Whatever a stream holds back is older than the n entries it contributes.
  lemma HeldBackIsOlder(cand: seq<LineEntry>, list: seq<LineEntry>, open: seq<LineEntry>, n: nat,
                        sorted: seq<LineEntry>, e: LineEntry, k: nat)
    requires Contributes(cand, list, open, n) && e in list + open && e !in cand
    requires Descending(sorted) && (forall x | x in cand :: x in sorted) && k < n && k < |sorted|
    ensures Newer(sorted[k], e)
  {
    hide Latest, Newer, Rising, DistinctStarts, Descending;
    LatestLeavesOlder(list, n, e);
    LatestIsDescending(list, n);
    NewerThanMany(sorted, k, Latest(list, n), e);
  }

  lemma PrefixIsTop(sorted: seq<LineEntry>, m: nat, pool: seq<LineEntry>, n: nat)
    requires Descending(sorted) && m <= |sorted| && m == if n < |pool| then n else |pool|
    requires forall e | e in sorted :: e in pool
    requires forall e, k | e in pool && e !in sorted && 0 <= k < m :: Newer(sorted[k], e)
    ensures IsTop(sorted[..m], pool, n)
  {
    hide Newer;
    var chosen := sorted[..m];
    forall j | 0 <= j < m
      ensures sorted[j] in chosen && sorted[j] in pool
    {
      assert chosen[j] == sorted[j] && sorted[j] in sorted;
    }
    forall e, c | e in pool && c in chosen && e !in chosen
      ensures Newer(c, e)
    {
      var k :| 0 <= k < m && chosen[k] == c;
      if e in sorted {
        var i :| 0 <= i < |sorted| && sorted[i] == e;
        assert i >= m;
      }
    }
  }

  // Sorting what the two streams contribute and keeping the first n is choosing
  // the first n of everything both hold.
  lemma TopOfBoth(c1: seq<LineEntry>, l1: seq<LineEntry>, o1: seq<LineEntry>,
                  c2: seq<LineEntry>, l2: seq<LineEntry>, o2: seq<LineEntry>,
                  sorted: seq<LineEntry>, n: nat)
    requires Contributes(c1, l1, o1, n) && Contributes(c2, l2, o2, n)
    requires Descending(sorted) && |sorted| == |c1 + c2| && forall x :: x in sorted <==> x in c1 + c2
    ensures IsTop(sorted[..if n < |sorted| then n else |sorted|], (l1 + o1) + (l2 + o2), n)
  {
    hide Latest, Contributes, Newer, Descending, IsTop, DistinctStarts;
    ContributesDistinct(c1, l1, o1, n);
    ContributesDistinct(c2, l2, o2, n);
    var m := if n < |sorted| then n else |sorted|;
    var pool := (l1 + o1) + (l2 + o2);
    assert |pool| == |l1 + o1| + |l2 + o2|;
    forall e | e in sorted
      ensures e in pool
    {
      assert e in c1 + c2;
    }
    forall e, k | e in pool && e !in sorted && 0 <= k < m
      ensures Newer(sorted[k], e)
    {
      assert e !in c1 + c2;
      if e in l1 + o1 {
        HeldBackIsOlder(c1, l1, o1, n, sorted, e, k);
      } else {
        HeldBackIsOlder(c2, l2, o2, n, sorted, e, k);
      }
    }
    PrefixIsTop(sorted, m, pool, n);
  }

  // ----- resolving a tail

  // Every line of a chosen stream the log can name: the indexed ones, then the open one.
  ghost function LinesOf(log: ProcessLog, s: Stream, streams: set<Stream>): seq<LineEntry>
    reads log`segments, log`next, log`stdout, log`stderr
  {
    if s !in streams then []
    else AllLines(log.segments, s) + if log.Phantom(s) then [] else OpenEntry(log.LineStateOf(s))
  }

  ghost function Pool(log: ProcessLog, streams: set<Stream>): seq<LineEntry>
    reads log`segments, log`next, log`stdout, log`stderr
  {
    LinesOf(log, Stdout, streams) + LinesOf(log, Stderr, streams)
  }

  // A line a failed write began on a chosen stream. No record of it exists.
  predicate HasPhantom(log: ProcessLog, streams: set<Stream>)
    reads log`segments, log`next, log`stdout, log`stderr
  {
    (Stdout in streams && log.Phantom(Stdout)) || (Stderr in streams && log.Phantom(Stderr))
  }

  // A line that is the log's very first record and nothing more.
  ghost predicate HasFirst(pool: seq<LineEntry>) {
    exists e :: e in pool && e.last == 0
  }

  // Such a line takes one of the places when there are fewer lines that end after the first record.
  ghost predicate PhantomTakes(log: ProcessLog, lines: nat, streams: set<Stream>)
    reads log`segments, log`next, log`stdout, log`stderr
  {
    HasPhantom(log, streams) && |Pool(log, streams)| < lines + if HasFirst(Pool(log, streams)) then 1 else 0
  }

  // The lines a tail of that many lines shows.
  ghost predicate LastLines(log: ProcessLog, lines: nat, streams: set<Stream>, chosen: seq<LineEntry>)
    reads log`segments, log`next, log`stdout, log`stderr
  {
    IsNewest(chosen, Pool(log, streams), if PhantomTakes(log, lines, streams) && lines > 0 then lines - 1 else lines)
  }

  ghost function Starts(list: seq<LineEntry>): set<nat> {
    set e | e in list :: e.start
  }

  // The lines of a stream are runs of offsets that do not overlap.
  lemma LogLinesAreLines(log: ProcessLog, s: Stream)
    requires log.Valid()
    ensures AreLines(log.records, LinesOf(log, s, {s}), s) && log.next == |log.records|
  {
    hide IsStore, WellLined, Continues, OpenLine, LineIndex, AllLines, AreLines;
    StoreIsConsecutive(log.segments, log.records, log.earliest, log.openOut, log.openErr);
    AllIndexedLines(log.segments, log.records, log.earliest, log.openOut, log.openErr, s);
    OpenEntryIsLine(log.records, log.origin, log.earliest, s);
    var listed, open := LineIndex(log.records[log.earliest..], s), OpenEntry(log.Open(s));
    LinesPrefix(log.records, listed, open, s);
    assert listed + [] == listed;
    assert LinesOf(log, s, {s}) == listed || LinesOf(log, s, {s}) == listed + open;
  }

  lemma LinesPrefix(records: seq<Stored>, a: seq<LineEntry>, b: seq<LineEntry>, s: Stream)
    requires AreLines(records, a + b, s)
    ensures AreLines(records, a, s)
  {
    hide NamesLine;
    assert forall i | 0 <= i < |a| :: (a + b)[i] == a[i];
    forall e | e in a ensures NamesLine(records, e, s) {
      assert e in a + b;
    }
  }

  // What a chosen stream contributes to the candidates.
  method Candidates(log: ProcessLog, s: Stream, streams: set<Stream>, limit: nat) returns (entries: seq<LineEntry>)
    ensures entries == if s in streams then Latest(AllLines(log.segments, s), limit) + OpenEntry(log.LineStateOf(s))
      else []
  {
    hide Latest, AllLines;
    entries := [];
    if s in streams {
      entries := LastLineEntries(log.segments, s, limit);
      var state := log.LineStateOf(s);
      if state.open {
        entries := entries + [LineEntry(state.start, state.last, state.timestamp)];
      }
    }
  }

  // Takes the first lines of the sorted candidates, skipping a line already taken.
  method Choose(sorted: seq<LineEntry>, limit: nat, earliest: nat, next: nat)
    returns (start: nat, selected: set<nat>)
    requires limit > 0 && earliest <= next
    ensures earliest <= start <= next
    ensures DistinctStarts(sorted) ==>
      var m := if limit < |sorted| then limit else |sorted|;
      && selected == Starts(sorted[..m]) && |selected| == m
      && forall e | e in sorted[..m] :: start <= e.start || start <= earliest
  {
    start, selected := next, {};
    var i := 0;
    while i < |sorted| && |selected| < limit
      invariant 0 <= i <= |sorted| && earliest <= start <= next
      invariant |selected| <= limit
      invariant DistinctStarts(sorted) ==> |selected| == i && selected == Starts(sorted[..i])
      invariant DistinctStarts(sorted) ==> forall e | e in sorted[..i] :: start <= e.start || start <= earliest
    {
      var candidate := sorted[i];
      assert sorted[..i + 1] == sorted[..i] + [candidate];
      if candidate.start !in selected {
        selected := selected + {candidate.start};
        var candidateStart := if candidate.start < earliest then earliest else candidate.start;
        if candidateStart < start {
          start := candidateStart;
        }
      }
      i := i + 1;
    }
  }

  // The last lines of the chosen streams: which they are, and where to start reading
  // them. A line that a failed write only began can take a place among them.
  method PrepareTail(log: ProcessLog, lines: nat, streams: set<Stream>)
    returns (start: nat, selected: set<nat>, truncated: bool, ghost chosen: seq<LineEntry>)
    requires log.Valid()
    ensures log.earliest <= start <= log.next
    ensures LastLines(log, lines, streams, chosen)
    ensures selected == Starts(chosen) + if PhantomTakes(log, lines, streams) then {log.next} else {}
    ensures truncated <==>
      |Pool(log, streams)| + (if HasPhantom(log, streams) then 1 else 0) < lines && log.earliest > 0
    ensures forall e | e in chosen :: start <= e.start || start <= log.earliest
  {
    hide Latest, AllLines, IsNewest, IsTop, IsStore, WellLined, Continues, OpenLine, OpenEntry, LinesOf, HasPhantom,
        HasFirst;
    if lines == 0 {
      NewestNone(Pool(log, streams));
      assert Starts([]) + {} == {};
      return log.next, {}, false, [];
    }
    var out := Candidates(log, Stdout, streams, lines);
    var err := Candidates(log, Stderr, streams, lines);
    var sorted := SortNewest(out + err);
    start, selected := Choose(sorted, lines, log.earliest, log.next);
    truncated := |selected| < lines && log.earliest > 0;
    ghost var all := CandidatesAreTop(log, streams, out, err, sorted, lines);
    ghost var first := sorted[..if lines < |sorted| then lines else |sorted|];
    TopBasics(first, all, lines);
    chosen := LinesAmong(log, streams, all, first, lines);
  }

  lemma NewestNone(pool: seq<LineEntry>)
    ensures IsNewest([], pool, 0) && Starts([]) == {}
    ensures HasFirst(pool) ==> |pool| > 0
  {
  }

  // When a broken log still resolves a tail as it should: the lines are wrong exactly when
  // the whole log is asked for and its first record is a line of its own, and the
  // truncation flag exactly when one line more than there is was asked for.
  lemma TailIsRightIff(log: ProcessLog, lines: nat, streams: set<Stream>, truncated: bool, chosen: seq<LineEntry>)
    requires log.Valid()
    requires LastLines(log, lines, streams, chosen)
    requires var pool := Pool(log, streams);
      (truncated <==> |pool| + (if HasPhantom(log, streams) then 1 else 0) < lines && log.earliest > 0)
    ensures var pool := Pool(log, streams);
      && (IsNewest(chosen, pool, lines) <==> !(HasPhantom(log, streams) && lines == |pool| && HasFirst(pool)))
      && ((truncated <==> |pool| < lines && log.earliest > 0)
          <==> !(HasPhantom(log, streams) && lines == |pool| + 1 && log.earliest > 0))
  {
    hide HasPhantom, Pool, HasFirst;
    NewestNone(Pool(log, streams));
  }

  lemma LinesRise(records: seq<Stored>, list: seq<LineEntry>, s: Stream)
    requires AreLines(records, list, s)
    ensures Rising(list)
  {
    forall i, j | 0 <= i < j < |list|
      ensures list[i].last < list[j].last
    {
      assert NamesLine(records, list[j], s);
    }
  }

  lemma StreamContributes(log: ProcessLog, s: Stream, limit: nat)
    requires log.Valid()
    ensures Contributes(Latest(AllLines(log.segments, s), limit) + OpenEntry(log.LineStateOf(s)),
                        AllLines(log.segments, s), OpenEntry(log.LineStateOf(s)), limit)
    ensures forall e | e in AllLines(log.segments, s) :: e.start < log.next
  {
    hide Latest, AllLines, IsStore, WellLined, Continues, OpenLine, AreLines;
    LogLinesAreLines(log, s);
    var list, open := AllLines(log.segments, s), OpenEntry(log.LineStateOf(s));
    LinesPrefix(log.records, list, if log.Phantom(s) then [] else open, s);
    assert list + [] == list;
    LinesRise(log.records, list, s);
    SameStreamApart(log.records, list, s);
    NamesAreLines(log.records, list, s);
    if log.Phantom(s) {
      PhantomIs(log, s);
      DistinctMore(list, LineEntry(log.next, 0, 0));
    } else {
      SameStreamApart(log.records, LinesOf(log, s, {s}), s);
    }
  }

  lemma DistinctMore(list: seq<LineEntry>, e: LineEntry)
    requires DistinctStarts(list) && forall x | x in list :: x.start < e.start
    ensures DistinctStarts(list + [e])
  {
  }

  lemma NothingContributes(limit: nat)
    ensures Contributes([], [], [], limit)
  {
    NoLines(Stdout, limit);
  }

  // Lines of a stream have a start and a latest record of their own.
  lemma SameStreamApart(records: seq<Stored>, a: seq<LineEntry>, s: Stream)
    requires AreLines(records, a, s)
    ensures DistinctStarts(a) && forall x, y | x in a && y in a && x != y :: x.start != y.start && x.last != y.last
  {
    forall i, j | 0 <= i < j < |a|
      ensures a[i].start < a[j].start && a[i].last < a[j].last
    {
      assert NamesLine(records, a[i], s) && NamesLine(records, a[j], s);
    }
    forall x, y | x in a && y in a && x != y
      ensures x.start != y.start && x.last != y.last
    {
      var i :| 0 <= i < |a| && a[i] == x;
      var j :| 0 <= j < |a| && a[j] == y;
    }
  }

  // Lines of different streams start and end at different records.
  lemma StreamsApart(records: seq<Stored>, a: seq<LineEntry>, b: seq<LineEntry>)
    requires AreLines(records, a, Stdout) && AreLines(records, b, Stderr)
    ensures Apart(a + b)
  {
    SameStreamApart(records, a, Stdout);
    SameStreamApart(records, b, Stderr);
    forall x, y | x in a && y in b
      ensures x.start != y.start && x.last != y.last
    {
      assert NamesLine(records, x, Stdout) && NamesLine(records, y, Stderr);
    }
  }

  ghost predicate Apart(pool: seq<LineEntry>) {
    DistinctStarts(pool) && forall x, y | x in pool && y in pool && x != y :: x.last != y.last
  }

  lemma PoolIsApart(log: ProcessLog, streams: set<Stream>)
    requires log.Valid()
    ensures Apart(Pool(log, streams)) && forall e | e in Pool(log, streams) :: e.start < log.next
  {
    hide AllLines, OpenEntry, AreLines, Apart, LinesOf;
    LogLinesAreLines(log, Stdout);
    LogLinesAreLines(log, Stderr);
    LinesOfChosen(log, Stdout, streams);
    LinesOfChosen(log, Stderr, streams);
    NothingListed(log.records, Stdout);
    NothingListed(log.records, Stderr);
    StreamsApart(log.records, LinesOf(log, Stdout, streams), LinesOf(log, Stderr, streams));
    NamesAreLines(log.records, LinesOf(log, Stdout, streams), Stdout);
    NamesAreLines(log.records, LinesOf(log, Stderr, streams), Stderr);
  }

  lemma LinesOfChosen(log: ProcessLog, s: Stream, streams: set<Stream>)
    ensures LinesOf(log, s, streams) == if s in streams then LinesOf(log, s, {s}) else []
  {
  }

  // All candidate entries: the lines of the pool and what a failed write left.
  lemma CandidatesAreTop(log: ProcessLog, streams: set<Stream>, out: seq<LineEntry>, err: seq<LineEntry>,
                         sorted: seq<LineEntry>, lines: nat) returns (all: seq<LineEntry>)
    requires log.Valid()
    requires out == if Stdout in streams then Latest(AllLines(log.segments, Stdout), lines)
      + OpenEntry(log.LineStateOf(Stdout)) else []
    requires err == if Stderr in streams then Latest(AllLines(log.segments, Stderr), lines)
      + OpenEntry(log.LineStateOf(Stderr)) else []
    requires |sorted| == |out + err| && forall x :: x in sorted <==> x in out + err
    requires DistinctStarts(out + err) ==> Descending(sorted)
    ensures DistinctStarts(sorted)
    ensures IsTop(sorted[..if lines < |sorted| then lines else |sorted|], all, lines)
    ensures |all| == |Pool(log, streams)| + if HasPhantom(log, streams) then 1 else 0
    ensures forall e :: e in all <==>
      e in Pool(log, streams) || (HasPhantom(log, streams) && e == LineEntry(log.next, 0, 0))
  {
    hide log.Valid, Latest, AllLines, IsTop, Contributes, Descending, DistinctStarts, HasPhantom, OpenEntry, Pool;
    StreamContributes(log, Stdout, lines);
    StreamContributes(log, Stderr, lines);
    NothingContributes(lines);
    var l1, o1 := if Stdout in streams then AllLines(log.segments, Stdout) else [],
                  if Stdout in streams then OpenEntry(log.LineStateOf(Stdout)) else [];
    var l2, o2 := if Stderr in streams then AllLines(log.segments, Stderr) else [],
                  if Stderr in streams then OpenEntry(log.LineStateOf(Stderr)) else [];
    all := (l1 + o1) + (l2 + o2);
    EntriesAre(log, streams, l1 + o1, l2 + o2);
    ContributesDistinct(out, l1, o1, lines);
    ContributesDistinct(err, l2, o2, lines);
    DistinctBoth(out, err);
    SortedStarts(sorted, out + err);
    TopOfBoth(out, l1, o1, err, l2, o2, sorted, lines);
  }

  lemma DistinctBoth(a: seq<LineEntry>, b: seq<LineEntry>)
    requires DistinctStarts(a) && DistinctStarts(b) && forall x, y | x in a && y in b :: x.start != y.start
    ensures DistinctStarts(a + b)
  {
  }

  lemma SortedStarts(sorted: seq<LineEntry>, entries: seq<LineEntry>)
    requires Descending(sorted) && DistinctStarts(entries) && forall x | x in sorted :: x in entries
    ensures DistinctStarts(sorted)
  {
    forall i, j | 0 <= i < j < |sorted|
      ensures sorted[i].start != sorted[j].start
    {
      assert sorted[i] in entries && sorted[j] in entries;
      var k :| 0 <= k < |entries| && entries[k] == sorted[i];
      var l :| 0 <= l < |entries| && entries[l] == sorted[j];
      assert Newer(sorted[i], sorted[j]);
    }
  }

  lemma PhantomIs(log: ProcessLog, s: Stream)
    requires log.Valid() && log.Phantom(s)
    ensures log.LineStateOf(s) == LineState(true, log.next, 0, 0)
    ensures forall t | log.Phantom(t) :: t == s
  {
    hide IsStore, WellLined, Continues, OpenLine;
    log.OpenStartsBefore(s);
  }

  // The entries of a stream are its lines, and what a failed write left of one.
  lemma EntriesOf(log: ProcessLog, s: Stream, streams: set<Stream>)
    requires log.Valid()
    ensures (if s in streams then AllLines(log.segments, s) + OpenEntry(log.LineStateOf(s)) else [])
         == LinesOf(log, s, streams) + if s in streams && log.Phantom(s) then [LineEntry(log.next, 0, 0)] else []
  {
    hide IsStore, WellLined, Continues, OpenLine, AllLines;
    if s in streams && log.Phantom(s) {
      PhantomIs(log, s);
    } else {
      assert LinesOf(log, s, streams) + [] == LinesOf(log, s, streams);
    }
  }

  lemma EntriesAre(log: ProcessLog, streams: set<Stream>, a: seq<LineEntry>, b: seq<LineEntry>)
    requires log.Valid()
    requires a == if Stdout in streams then AllLines(log.segments, Stdout) + OpenEntry(log.LineStateOf(Stdout)) else []
    requires b == if Stderr in streams then AllLines(log.segments, Stderr) + OpenEntry(log.LineStateOf(Stderr)) else []
    ensures |a + b| == |Pool(log, streams)| + if HasPhantom(log, streams) then 1 else 0
    ensures forall e ::
      e in a + b <==> e in Pool(log, streams) || (HasPhantom(log, streams) && e == LineEntry(log.next, 0, 0))
    ensures forall x, y | x in a && y in b :: x.start != y.start
  {
    hide log.Valid, AllLines, OpenEntry, LinesOf, log.Phantom, Apart;
    EntriesOf(log, Stdout, streams);
    EntriesOf(log, Stderr, streams);
    if log.Phantom(Stdout) {
      PhantomIs(log, Stdout);
    }
    PoolIsApart(log, streams);
    PoolStarts(LinesOf(log, Stdout, streams), LinesOf(log, Stderr, streams));
  }

  lemma PoolStarts(a: seq<LineEntry>, b: seq<LineEntry>)
    requires Apart(a + b)
    ensures forall x, y | x in a && y in b :: x.start != y.start
  {
    forall x, y | x in a && y in b
      ensures x.start != y.start
    {
      var i :| 0 <= i < |a| && a[i] == x;
      var j :| 0 <= j < |b| && b[j] == y;
      assert (a + b)[i] == x && (a + b)[|a| + j] == y;
    }
  }

  // ----- the lines among the entries chosen

  lemma {:induction false} DistinctCount(list: seq<LineEntry>)
    requires DistinctStarts(list)
    ensures |Elements(list)| == |list|
  {
    if list != [] {
      var init, e := list[..|list| - 1], list[|list| - 1];
      DistinctCount(init);
      assert Elements(list) == Elements(init) + {e};
      assert e !in Elements(init);
    }
  }

  lemma TopBasics(chosen: seq<LineEntry>, pool: seq<LineEntry>, n: nat)
    requires IsTop(chosen, pool, n)
    ensures |chosen| == (if n < |pool| then n else |pool|) && forall e | e in chosen :: e in pool
  {
  }

  lemma TopIsNewest(chosen: seq<LineEntry>, pool: seq<LineEntry>, n: nat)
    requires IsTop(chosen, pool, n) && Apart(pool)
    ensures IsNewest(chosen, pool, n)
  {
    hide DistinctStarts;
    forall i, j | 0 <= i < j < |chosen|
      ensures chosen[i].last > chosen[j].last
    {
      assert Newer(chosen[i], chosen[j]) && chosen[i] in pool && chosen[j] in pool;
    }
  }

  // Without the entry of no line, the first n entries are the first n - 1 lines.
  lemma DropPhantom(all: seq<LineEntry>, pool: seq<LineEntry>, first: seq<LineEntry>, k: nat, n: nat)
    returns (chosen: seq<LineEntry>)
    requires IsTop(first, all, n) && n > 0 && k < |first| && |all| == |pool| + 1
    requires first[k] !in pool && forall e :: e in all <==> e in pool || e == first[k]
    ensures IsTop(chosen, pool, n - 1) && |chosen| == |first| - 1
    ensures forall e :: e in first <==> e in chosen || e == first[k]
    ensures first[k] !in chosen
  {
    hide Newer;
    chosen := first[..k] + first[k + 1..];
    forall i | 0 <= i < |chosen|
      ensures chosen[i] in pool && chosen[i] in first
    {
      assert chosen[i] == first[if i < k then i else i + 1];
      assert Newer(chosen[i], first[k]) || Newer(first[k], chosen[i]);
      NeverNewer(first[k]);
    }
    assert first == first[..k] + [first[k]] + first[k + 1..];
  }

  lemma NeverNewer(e: LineEntry)
    ensures !Newer(e, e)
  {
  }

  // The phantom is among the first n entries exactly when fewer than n lines end after the
  // log's first record.
  lemma PhantomTaken(all: seq<LineEntry>, pool: seq<LineEntry>, first: seq<LineEntry>, p: LineEntry, n: nat)
    requires IsTop(first, all, n) && Apart(pool) && |all| == |pool| + 1 && p.last == 0
    requires (forall e | e in pool :: e.start < p.start) && forall e :: e in all <==> e in pool || e == p
    ensures p in first <==> |pool| < n + if HasFirst(pool) then 1 else 0
  {
    hide DistinctStarts;
    DistinctCount(pool);
    ElementsCount(first);
    if p in first {
      forall e | e in pool && e.last != 0
        ensures e in first
      {
      }
      TakenCount(pool, first, p);
    } else {
      forall e | e in first
        ensures e in pool && e.last != 0
      {
      }
      LeftCount(pool, first, n);
    }
  }

  lemma LeftCount(pool: seq<LineEntry>, first: seq<LineEntry>, n: nat)
    requires Apart(pool) && Descending(first) && |first| == if n < |pool| + 1 then n else |pool| + 1
    requires forall e | e in first :: e in pool && e.last != 0
    ensures n + (if HasFirst(pool) then 1 else 0) <= |pool|
  {
    hide Newer;
    DistinctCount(pool);
    ElementsCount(first);
    if HasFirst(pool) {
      var z :| z in pool && z.last == 0;
      SubsetCount(Elements(first) + {z}, Elements(pool));
    } else {
      SubsetCount(Elements(first), Elements(pool));
    }
  }

  lemma TakenCount(pool: seq<LineEntry>, first: seq<LineEntry>, p: LineEntry)
    requires Apart(pool) && Descending(first) && p in first && p !in pool
    requires forall e | e in pool && e.last != 0 :: e in first
    ensures |pool| < |first| + if HasFirst(pool) then 1 else 0
  {
    hide Newer;
    DistinctCount(pool);
    ElementsCount(first);
    if HasFirst(pool) {
      var z :| z in pool && z.last == 0;
      SubsetCount((Elements(pool) - {z}) + {p}, Elements(first));
    } else {
      SubsetCount(Elements(pool) + {p}, Elements(first));
    }
  }

  lemma LinesAmong(log: ProcessLog, streams: set<Stream>, all: seq<LineEntry>, first: seq<LineEntry>, lines: nat)
    returns (chosen: seq<LineEntry>)
    requires log.Valid() && lines > 0 && IsTop(first, all, lines)
    requires |all| == |Pool(log, streams)| + if HasPhantom(log, streams) then 1 else 0
    requires forall e :: e in all <==>
      e in Pool(log, streams) || (HasPhantom(log, streams) && e == LineEntry(log.next, 0, 0))
    ensures LastLines(log, lines, streams, chosen)
    ensures Starts(first) == Starts(chosen) + if PhantomTakes(log, lines, streams) then {log.next} else {}
    ensures forall e | e in chosen :: e in first
  {
    hide log.Valid, Pool, HasPhantom, IsTop, Apart, HasFirst, IsNewest;
    var pool := Pool(log, streams);
    PoolIsApart(log, streams);
    TopBasics(first, all, lines);
    if HasPhantom(log, streams) {
      var p := LineEntry(log.next, 0, 0);
      PhantomTaken(all, pool, first, p, lines);
      if p in first {
        var k :| 0 <= k < |first| && first[k] == p;
        chosen := DropPhantom(all, pool, first, k, lines);
        TopIsNewest(chosen, pool, lines - 1);
        assert Starts(first) == Starts(chosen) + {log.next};
      } else {
        chosen := first;
        TopWithin(first, all, pool, lines);
        TopIsNewest(chosen, pool, lines);
        assert Starts(first) == Starts(chosen) + {};
      }
    } else {
      chosen := first;
      TopWithin(first, all, pool, lines);
      TopIsNewest(chosen, pool, lines);
      assert Starts(first) == Starts(chosen) + {};
    }
  }

  lemma TopWithin(first: seq<LineEntry>, all: seq<LineEntry>, pool: seq<LineEntry>, n: nat)
    requires IsTop(first, all, n) && (|all| == |pool| || n <= |pool| < |all|)
    requires (forall e | e in first :: e in pool) && forall e | e in pool :: e in all
    ensures IsTop(first, pool, n)
  {
    hide Newer, Descending;
  }


  // ----- what a tail shows

  ghost predicate ListedIn(r: Record, list: seq<LineEntry>) {
    exists e :: e in list && e.start == r.lineOffset && r.offset <= e.last
  }

  // Every record's line is in its stream's index, or still open.
  lemma {:induction false} EveryRecordListed(rs: seq<Stored>, first: nat, s: Stream)
    requires Continues(rs) && Consecutive(rs, first)
    ensures forall r | r in rs && r.stream == s :: ListedIn(r, LineIndex(rs, s) + OpenEntry(OpenLine(rs, s)))
  {
    hide LineEntries;
    if rs != [] {
      var init, last := rs[..|rs| - 1], rs[|rs| - 1];
      EveryRecordListed(init, first, s);
      var before, after := LineIndex(init, s) + OpenEntry(OpenLine(init, s)), LineIndex(rs, s)
        + OpenEntry(OpenLine(rs, s));
      GrowLines(rs, s);
      forall r | r in rs && r.stream == s
        ensures ListedIn(r, after)
      {
        ListedStays(init, last, s, r);
      }
    }
  }

  lemma ListedStays(init: seq<Stored>, last: Stored, s: Stream, r: Stored)
    requires Continues(init + [last]) && r.offset <= last.offset && r.stream == s
    requires r == last || ListedIn(r, LineIndex(init, s) + OpenEntry(OpenLine(init, s)))
    ensures ListedIn(r, LineIndex(init + [last], s) + OpenEntry(OpenLine(init + [last], s)))
  {
    hide LineIndex;
    var rs := init + [last];
    assert rs[..|rs| - 1] == init;
    GrowLines(rs, s);
    var after := LineIndex(rs, s) + OpenEntry(OpenLine(rs, s));
    if last.stream != s {
      assert LineIndex(rs, s) == LineIndex(init, s);
    } else {
      var entry := LineEntry(last.lineOffset, last.offset, last.timestamp);
      ClosedIsNoLine(init, s);
      assert entry in after;
      if r != last {
        var e :| e in LineIndex(init, s) + OpenEntry(OpenLine(init, s)) && e.start == r.lineOffset
          && r.offset <= e.last;
        if e in LineIndex(init, s) {
          assert e in after;
        }
      }
    }
  }

  // A tail can name the line of every retained record of a stream.
  ghost predicate NamesAll(log: ProcessLog, s: Stream)
    requires log.next == |log.records|
    reads log
  {
    forall i | log.earliest <= i < log.next && log.records[i].stream == s ::
      ListedIn(log.records[i], LinesOf(log, s, {s}))
  }

  // It can exactly unless the log was ended with no active segment while a retained line
  // was open: that line is in no index.
  lemma TailSeesEveryLine(log: ProcessLog, s: Stream)
    requires log.Valid()
    ensures NamesAll(log, s) <==>
      || !log.finalized || OpenOf(s, log.openOut, log.openErr) != []
      || !log.Open(s).open || log.Open(s).last < log.earliest
  {
    hide IsStore, WellLined, Continues, OpenLine, LineIndex, AllLines, ListedIn, LinesOf;
    var records, earliest := log.records, log.earliest;
    var entered := OpenOf(s, log.openOut, log.openErr);
    StoreIsConsecutive(log.segments, records, earliest, log.openOut, log.openErr);
    RetainedOpenLine(log, s);
    var list := LineIndex(records[earliest..], s);
    var all := LinesOf(log, s, {s});
    if !log.finalized || entered != [] || !log.Open(s).open || log.Open(s).last < earliest {
      forall i | earliest <= i < log.next && records[i].stream == s
        ensures ListedIn(records[i], all)
      {
        EveryRecordListed(records[earliest..], earliest, s);
        assert records[i] == records[earliest..][i - earliest];
        ListedInMore(records[i], list, OpenEntry(OpenLine(records[earliest..], s)), all);
      }
    } else {
      OpenLineFacts(records, log.origin, s);
      IndexListsLines(records, earliest, |records|, s);
      assert records[earliest..|records|] == records[earliest..];
      UnlistedLine(records, list, log.Open(s).last, log.Open(s).start, s);
    }
  }

  // What the log names of a stream is what its retained records index, and of an open line
  // among them its entry unless the log was ended without listing it.
  lemma RetainedOpenLine(log: ProcessLog, s: Stream)
    requires log.Valid()
    ensures log.earliest <= |log.records| && Continues(log.records[log.earliest..])
      && Consecutive(log.records[log.earliest..], log.earliest)
    ensures var open := OpenEntry(OpenLine(log.records[log.earliest..], s));
      var listed := !log.finalized || OpenOf(s, log.openOut, log.openErr) != [] || !log.Open(s).open
        || log.Open(s).last < log.earliest;
      var list := LineIndex(log.records[log.earliest..], s);
      && (listed ==> forall e | e in list + open :: e in LinesOf(log, s, {s}))
      && (!listed ==> LinesOf(log, s, {s}) == list)
  {
    hide IsStore, WellLined, Continues, OpenLine, LineIndex, AllLines;
    var records, earliest := log.records, log.earliest;
    StoreIsConsecutive(log.segments, records, earliest, log.openOut, log.openErr);
    EmptyStore(log.segments, records, earliest, log.openOut, log.openErr);
    AllIndexedLines(log.segments, records, earliest, log.openOut, log.openErr, s);
    assert records[log.origin..] == records[log.origin..earliest] + records[earliest..];
    ContinuesLater(records[log.origin..earliest], records[earliest..]);
    SuffixOpenLine(records[log.origin..earliest], records[earliest..], s);
    SuffixOpenIsListed(records, earliest, s);
    log.OpenStartsBefore(s);
    var list := LineIndex(records[earliest..], s);
    assert list + [] == list;
    if !log.finalized {
      assert AllLines(log.segments, s) == list;
      assert log.Phantom(s) || log.LineStateOf(s) == log.Open(s);
    } else if log.segments == [] {
      assert records[earliest..] == [];
      OpenOfEmpty(s);
    }
  }

  lemma OpenOfEmpty(s: Stream)
    ensures OpenLine([], s) == NO_LINE
  {
  }

  // Ending a log loses a line from tails exactly when no segment is active while a line
  // that is still retained is open.
  method EndLog(log: ProcessLog)
    requires log.Valid() && !log.finalized
    modifies log`segments, log`earliest, log`active, log`finalized, log`stdout, log`stderr, log`openOut, log`openErr
    ensures log.Valid() && log.finalized && log.records == old(log.records) && log.origin == old(log.origin)
    ensures log.observers == old(log.observers) && (log.observers > 0 ==> log.earliest == old(log.earliest))
    ensures forall s :: NamesAll(log, s) <==> old(log.active) || !log.Open(s).open || log.Open(s).last < log.earliest
  {
    hide IsStore, WellLined, Continues, OpenLine, NamesAll;
    log.Finalize();
    forall s
      ensures NamesAll(log, s) <==> old(log.active) || !log.Open(s).open || log.Open(s).last < log.earliest
    {
      TailSeesEveryLine(log, s);
    }
  }

  lemma ListedInMore(r: Record, list: seq<LineEntry>, open: seq<LineEntry>, all: seq<LineEntry>)
    requires ListedIn(r, list + open) && forall e | e in list + open :: e in all
    ensures ListedIn(r, all)
  {
  }

  // An open line among retained records has its latest record among them.
  lemma SuffixOpenIsListed(records: seq<Stored>, earliest: nat, s: Stream)
    requires earliest <= |records| && Continues(records[earliest..]) && Consecutive(records, 0)
    ensures OpenLine(records[earliest..], s).open ==> earliest <= OpenLine(records[earliest..], s).last
  {
    hide OpenLine, Continues;
    if OpenLine(records[earliest..], s).open {
      var k := OpenLineIsLatest(records[earliest..], s);
    }
  }

  lemma UnlistedLine(records: seq<Stored>, list: seq<LineEntry>, last: nat, start: nat, s: Stream)
    requires AreLines(records, list, s) && last < |records| && records[last].lineOffset == start
    requires forall e | e in list :: e.last < |records| && records[e.last].LineEnd()
    requires forall i | 0 <= i < |records| && records[i].stream == s && records[i].LineEnd() :: i < start
    ensures !ListedIn(records[last], list)
  {
    forall e | e in list
      ensures e.start != start
    {
      assert NamesLine(records, e, s);
    }
  }

  // Reading the selected lines from the resolved start gives every retained record of the
  // chosen lines, and nothing for a line that only a failed write began.
  lemma TailReadsWholeLines(log: ProcessLog, streams: set<Stream>, chosen: seq<LineEntry>, selected: set<nat>,
        start: nat, end: nat)
    requires log.Valid() && log.earliest <= start <= log.next
    requires Starts(chosen) <= selected <= Starts(chosen) + {log.next}
    requires forall e | e in chosen :: start <= e.start || start <= log.earliest
    ensures forall r | r in log.records ::
      Selection(streams, false, selected).Takes(r) == Selection(streams, false, Starts(chosen)).Takes(r)
    ensures Emitted(log.records, start, end, log.earliest, Selection(streams, false, selected))
         == Emitted(log.records, log.earliest, end, log.earliest, Selection(streams, false, Starts(chosen)))
  {
    hide IsStore, OpenLine, Continues, Emitted;
    StoreIsConsecutive(log.segments, log.records, log.earliest, log.openOut, log.openErr);
    var sel, lines := Selection(streams, false, selected), Selection(streams, false, Starts(chosen));
    forall r: Stored | r in log.records
      ensures sel.Takes(r) == lines.Takes(r)
      ensures log.earliest <= r.offset < start ==> !lines.Takes(r)
    {
      assert r.lineOffset <= r.offset;
    }
    SameSelection(log.records, start, end, log.earliest, sel, lines);
    SkippingIsHarmless(log.records, log.earliest, start, end, log.earliest, lines);
  }

  lemma {:induction false} SameSelection(rs: seq<Stored>, low: nat, high: nat, earliest: nat, a: Selection,
        b: Selection)
    requires forall r | r in rs :: a.Takes(r) == b.Takes(r)
    ensures Emitted(rs, low, high, earliest, a) == Emitted(rs, low, high, earliest, b)
  {
    if rs != [] {
      SameSelection(rs[..|rs| - 1], low, high, earliest, a, b);
    }
  }

  lemma {:induction false} SkippingIsHarmless(rs: seq<Stored>, low: nat, start: nat, end: nat, earliest: nat,
        sel: Selection)
    requires low <= start && forall r | r in rs && low <= r.offset < start :: !sel.Takes(r)
    ensures Emitted(rs, start, end, earliest, sel) == Emitted(rs, low, end, earliest, sel)
  {
    if rs != [] {
      SkippingIsHarmless(rs[..|rs| - 1], low, start, end, earliest, sel);
    }
  }
}
