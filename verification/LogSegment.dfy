// One segment of the process log: its record file, its sparse offset index and
// its two line indexes, the rebuild of all of them from the record file, and the
// reading of a range of records.
module LogSegment {
  import opened Bytes
  import opened LogRecord

  const SEGMENT_HEADER := 32
  const FORMAT_VERSION := 2
  const INDEX_STRIDE := 256
  const SEGMENT_MAGIC: seq<byte> := [0x52, 0x43, 0x4c, 0x4f, 0x47, 0x56, 0x32, 0x0a]

  datatype OffsetEntry = OffsetEntry(offset: nat, position: nat)
  datatype LineEntry = LineEntry(start: nat, last: nat, timestamp: int)

  datatype Segment = Segment(
    first: nat, next: nat, log: seq<byte>,
    offsets: seq<OffsetEntry>, stdoutLines: seq<LineEntry>, stderrLines: seq<LineEntry>)
  {
    function Lines(s: Stream): seq<LineEntry> { if s == Stderr then stderrLines else stdoutLines }
  }

  // ----- what the files of a segment hold, as functions of its records

  function EncodeAll(rs: seq<Stored>): seq<byte> {
    if rs == [] then [] else EncodeAll(rs[..|rs| - 1]) + Encode(rs[|rs| - 1])
  }

  // Byte position, in a segment holding rs, of its k-th record.
  function Position(rs: seq<Stored>, k: nat): (p: nat)
    requires k <= |rs|
    ensures SEGMENT_HEADER <= p && (k == 0 ==> p == SEGMENT_HEADER)
  {
    SEGMENT_HEADER + |EncodeAll(rs[..k])|
  }

  function OffsetIndex(rs: seq<Stored>): seq<OffsetEntry> {
    if rs == [] then [] else
    OffsetIndex(rs[..|rs| - 1]) + OffsetEntries(rs[|rs| - 1], Position(rs, |rs| - 1))
  }

  function OffsetEntries(r: Record, position: nat): seq<OffsetEntry> {
    if r.offset % INDEX_STRIDE == 0 then [OffsetEntry(r.offset, position)] else []
  }

  function LineIndex(rs: seq<Stored>, s: Stream): seq<LineEntry> {
    if rs == [] then [] else
    LineIndex(rs[..|rs| - 1], s) + LineEntries(rs[|rs| - 1], s)
  }

  function LineEntries(r: Record, s: Stream): seq<LineEntry> {
    if r.LineEnd() && r.stream == s then [LineEntry(r.lineOffset, r.offset, r.timestamp)] else []
  }

  ghost predicate Consecutive(rs: seq<Stored>, first: nat) {
    forall i | 0 <= i < |rs| :: rs[i].offset == first + i
  }

  function SegmentHeader(first: nat, created: int): (h: seq<byte>)
    requires -TWO_64 / 2 <= created < TWO_64 / 2
    ensures |h| == SEGMENT_HEADER
  {
    SEGMENT_MAGIC + BigEndian(4, FORMAT_VERSION) + BigEndian(4, SEGMENT_HEADER)
    + (BigEndian(8, first) + BigEndian(8, ToUnsigned64(created)))
  }

  // The first offset a segment file declares, or nothing when its header is torn or foreign.
  datatype HeaderResult = Declares(first: nat) | BadHeader

  function ReadHeader(file: seq<byte>): (h: HeaderResult)
    ensures h.Declares? ==> SEGMENT_HEADER <= |file|
  {
    if |file| < SEGMENT_HEADER || file[0..8] != SEGMENT_MAGIC || Word32(file, 8) != FORMAT_VERSION
       || Word32(file, 12) != SEGMENT_HEADER
    then BadHeader
    else Declares(Word64(file, 16))
  }

  lemma ReadHeaderInverts(first: nat, created: int, rest: seq<byte>)
    requires first < TWO_64 && -TWO_64 / 2 <= created < TWO_64 / 2
    ensures ReadHeader(SegmentHeader(first, created) + rest) == Declares(first)
  {
    hide BigEndian, FromBigEndian;
    var h := SegmentHeader(first, created);
    var tail := BigEndian(8, first) + BigEndian(8, ToUnsigned64(created));
    Parts(SEGMENT_MAGIC, BigEndian(4, FORMAT_VERSION), BigEndian(4, SEGMENT_HEADER), tail);
    assert h[16..24] == h[16..32][..8] == BigEndian(8, first);
    Widths();
    BigEndianRoundTrip(4, FORMAT_VERSION);
    BigEndianRoundTrip(4, SEGMENT_HEADER);
    BigEndianRoundTrip(8, first);
    HoldsSlice(h + rest, 0, h, 0, 8);
    HoldsSlice(h + rest, 0, h, 8, 12);
    HoldsSlice(h + rest, 0, h, 12, 16);
    HoldsSlice(h + rest, 0, h, 16, 24);
  }

  // The files of a segment that holds exactly the records rs.
  ghost predicate IsSegmentOf(seg: Segment, rs: seq<Stored>, openOut: seq<LineEntry>, openErr: seq<LineEntry>) {
    && seg.next == seg.first + |rs|
    && Consecutive(rs, seg.first)
    && SEGMENT_HEADER <= |seg.log|
    && ReadHeader(seg.log[..SEGMENT_HEADER]) == Declares(seg.first)
    && seg.log[SEGMENT_HEADER..] == EncodeAll(rs)
    && seg.offsets == OffsetIndex(rs)
    && seg.stdoutLines == LineIndex(rs, Stdout) + openOut
    && seg.stderrLines == LineIndex(rs, Stderr) + openErr
  }

  // ----- encoded runs of records

  lemma {:induction false} EncodeAllSplit(rs: seq<Stored>, k: nat)
    requires k <= |rs|
    ensures EncodeAll(rs) == EncodeAll(rs[..k]) + EncodeAll(rs[k..])
  {
    hide Encode;
    if k == |rs| {
      assert rs[..k] == rs && rs[k..] == [];
    } else {
      var init := rs[..|rs| - 1];
      EncodeAllSplit(init, k);
      assert init[..k] == rs[..k] && init[k..] == rs[k..][..|rs[k..]| - 1];
    }
  }

  lemma EncodeOneMore(rs: seq<Stored>, k: nat)
    requires k < |rs|
    ensures EncodeAll(rs[..k + 1]) == EncodeAll(rs[..k]) + Encode(rs[k])
    ensures |EncodeAll(rs[..k])| < |EncodeAll(rs[..k + 1])| <= |EncodeAll(rs)|
  {
    hide Encode;
    assert rs[..k + 1][..k] == rs[..k];
    EncodeAllSplit(rs, k + 1);
  }

  // A file holding the first `cut` bytes of an encoded run holds every record that fits in them.
  lemma HoldsRecord(file: seq<byte>, rs: seq<Stored>, cut: nat, k: nat)
    requires SEGMENT_HEADER <= |file| && cut <= |EncodeAll(rs)| && file[SEGMENT_HEADER..] == EncodeAll(rs)[..cut]
    requires k < |rs| && |EncodeAll(rs[..k + 1])| <= cut
    ensures Holds(file, Position(rs, k), Encode(rs[k]))
    ensures Position(rs, k) + Total(rs[k]) == Position(rs, k + 1)
  {
    hide Encode;
    EncodeOneMore(rs, k);
    EncodeAllSplit(rs, k + 1);
    var a, b := EncodeAll(rs[..k]), Encode(rs[k]);
    InnerSlice(a, b, EncodeAll(rs[k + 1..]), cut);
    DropSlice(file, SEGMENT_HEADER, |a|, |a| + |b|);
  }

  lemma DropSlice(file: seq<byte>, h: nat, low: nat, high: nat)
    requires low <= high && h + high <= |file|
    ensures file[h..][low..high] == file[h + low..h + high]
  {
  }

  // ----- scanning a record file from a position, as recovery does

  datatype ScanResult = Scanned(records: seq<Stored>, end: nat) | ScanFailed

  function Prepend(rs: seq<Stored>, s: ScanResult): ScanResult {
    if s.ScanFailed? then ScanFailed else Scanned(rs + s.records, s.end)
  }

  function Scan(file: seq<byte>, position: nat, next: nat): (s: ScanResult)
    requires position <= |file|
    ensures s.Scanned? ==> position <= s.end <= |file| && Consecutive(s.records, next)
    decreases |file| - position
  {
    match ReadAt(file, position)
    case Eof => Scanned([], position)
    case Corrupt => ScanFailed
    case Got(r, after) =>
      if r.offset != next then ScanFailed else Prepend([r], Scan(file, after, next + 1))
  }

  // The number of whole records among the first `cut` bytes of an encoded run.
  function Whole(rs: seq<Stored>, cut: nat): (w: nat)
    ensures w <= |rs|
  {
    if rs == [] || |EncodeAll(rs)| <= cut then |rs| else Whole(rs[..|rs| - 1], cut)
  }

  // It is the longest prefix that fits.
  lemma {:induction false} WholeIsLongest(rs: seq<Stored>, cut: nat)
    ensures var w := Whole(rs, cut);
      && |EncodeAll(rs[..w])| <= cut
      && (w < |rs| ==> cut < |EncodeAll(rs[..w + 1])|)
  {
    hide Encode;
    assert rs[..|rs|] == rs;
    if rs != [] && cut < |EncodeAll(rs)| {
      var init := rs[..|rs| - 1];
      WholeIsLongest(init, cut);
      var w := Whole(init, cut);
      assert init[..w] == rs[..w];
      if w < |init| {
        assert init[..w + 1] == rs[..w + 1];
      } else {
        assert rs[..w + 1] == rs;
      }
    }
  }

  lemma InnerSlice(a: seq<byte>, b: seq<byte>, c: seq<byte>, cut: nat)
    requires |a| + |b| <= cut <= |a| + |b| + |c|
    ensures (a + b + c)[..cut][|a|..|a| + |b|] == b
  {
  }

  lemma MiddleSlice(a: seq<byte>, b: seq<byte>, c: seq<byte>, cut: nat)
    requires |a| <= cut <= |a| + |b|
    ensures (a + b + c)[..cut][|a|..] == b[..cut - |a|]
  {
  }

  lemma ScanStep(file: seq<byte>, position: nat, next: nat)
    requires position <= |file|
    ensures ReadAt(file, position) == Eof ==> Scan(file, position, next) == Scanned([], position)
    ensures ReadAt(file, position) == Corrupt ==> Scan(file, position, next) == ScanFailed
    ensures forall r, after :: ReadAt(file, position) == Got(r, after) ==>
      Scan(file, position, next)
      == if r.offset != next then ScanFailed else Prepend([r], Scan(file, after, next + 1))
  {
    hide ReadAt;
  }

  // What follows the last whole record reads as the end of the file.
  lemma TornEndIsEof(file: seq<byte>, rs: seq<Stored>, cut: nat)
    requires SEGMENT_HEADER <= |file| && cut <= |EncodeAll(rs)| && file[SEGMENT_HEADER..] == EncodeAll(rs)[..cut]
    ensures var p := Position(rs, Whole(rs, cut)); p <= |file| && ReadAt(file, p) == Eof
  {
    hide Encode, ReadAt, Whole, EncodeAll;
    var w := Whole(rs, cut);
    WholeIsLongest(rs, cut);
    var p := Position(rs, w);
    if w == |rs| {
      assert rs[..|rs|] == rs;
      AtEndIsEof(file, p);
    } else {
      EncodeOneMore(rs, w);
      EncodeAllSplit(rs, w + 1);
      var kept := |file| - p;
      assert file == file[..p] + file[p..];
      MiddleSlice(EncodeAll(rs[..w]), Encode(rs[w]), EncodeAll(rs[w + 1..]), cut);
      assert file[p..] == file[SEGMENT_HEADER..][p - SEGMENT_HEADER..] == Encode(rs[w])[..kept];
      TornPrefixIsEof(file[..p], rs[w], kept);
    }
  }

  // Scanning a file cut anywhere after its header finds exactly the whole records.
  lemma {:induction false} ScanOfCut(file: seq<byte>, rs: seq<Stored>, first: nat, cut: nat, k: nat)
    requires SEGMENT_HEADER <= |file| && cut <= |EncodeAll(rs)| && file[SEGMENT_HEADER..] == EncodeAll(rs)[..cut]
    requires Consecutive(rs, first) && k <= Whole(rs, cut)
    ensures Position(rs, k) <= |file|
    ensures Scan(file, Position(rs, k), first + k)
         == Scanned(rs[k..Whole(rs, cut)], Position(rs, Whole(rs, cut)))
    decreases |rs| - k
  {
    hide Encode, EncodeAll, ReadAt, Whole, Scan, Position;
    var w, p := Whole(rs, cut), Position(rs, k);
    TornEndIsEof(file, rs, cut);
    PositionsGrow(rs, k, w);
    ScanStep(file, p, first + k);
    if k < w {
      WholeFits(rs, cut, k + 1);
      HoldsRecord(file, rs, cut, k);
      ReadWindow(file, p, rs[k]);
      ScanOfCut(file, rs, first, cut, k + 1);
      assert [rs[k]] + rs[k + 1..w] == rs[k..w];
    } else {
      assert rs[k..w] == [];
    }
  }

  lemma WholeFits(rs: seq<Stored>, cut: nat, k: nat)
    requires k <= Whole(rs, cut)
    ensures |EncodeAll(rs[..k])| <= cut
  {
    hide Encode, EncodeAll, Whole;
    WholeIsLongest(rs, cut);
    PositionsGrow(rs, k, Whole(rs, cut));
  }

  lemma PositionsGrow(rs: seq<Stored>, i: nat, j: nat)
    requires i <= j <= |rs|
    ensures Position(rs, i) <= Position(rs, j)
  {
    EncodeAllSplit(rs[..j], i);
    assert rs[..j][..i] == rs[..i];
  }

  lemma AtEndIsEof(file: seq<byte>, p: nat)
    requires |file| < p + RECORD_HEADER
    ensures ReadAt(file, p) == Eof
  {
  }

  // ----- indexing one record that stands at a position of the record file

  method Indexed(seg: Segment, record: Stored, position: nat) returns (more: Segment)
    ensures more == Segment(seg.first, seg.next + 1, seg.log,
                            seg.offsets + OffsetEntries(record, position),
                            seg.stdoutLines + LineEntries(record, Stdout),
                            seg.stderrLines + LineEntries(record, Stderr))
  {
    more := seg.(next := seg.next + 1);
    if record.offset % INDEX_STRIDE == 0 {
      more := more.(offsets := more.offsets + [OffsetEntry(record.offset, position)]);
    }
    if record.LineEnd() {
      var entry := LineEntry(record.lineOffset, record.offset, record.timestamp);
      if record.stream == Stderr {
        more := more.(stderrLines := more.stderrLines + [entry]);
      } else {
        more := more.(stdoutLines := more.stdoutLines + [entry]);
      }
    }
  }

  // ----- rebuilding one segment

  datatype RebuildResult = Rebuilt(segment: Segment, records: seq<Stored>, truncated: bool) | RebuildError

  method Rebuild(file: seq<byte>, expected: nat) returns (result: RebuildResult)
    ensures result.RebuildError?
        <==> ReadHeader(file) != Declares(expected) || Scan(file, SEGMENT_HEADER, expected).ScanFailed?
    ensures result.Rebuilt? ==>
      var scan := Scan(file, SEGMENT_HEADER, expected);
      && result.records == scan.records
      && result.truncated == (scan.end < |file|)
      && result.segment == Segment(expected, expected + |scan.records|, file[..scan.end], OffsetIndex(scan.records),
                                   LineIndex(scan.records, Stdout), LineIndex(scan.records, Stderr))
  {
    hide ReadAt, Encode, EncodeAll, Position, OffsetIndex, LineIndex, Scan, ReadHeader, OffsetEntries, LineEntries,
        Prepend;
    if ReadHeader(file) != Declares(expected) {
      return RebuildError;
    }
    var segment := Segment(expected, expected, file, [], [], []);
    var position := SEGMENT_HEADER;
    var records: seq<Stored> := [];
    var truncated := false;
    NothingYet();
    PrependNothing(Scan(file, position, segment.next));
    while true
      invariant SEGMENT_HEADER <= position <= |file|
      invariant segment.first == expected && segment.next == expected + |records| && segment.log == file
      invariant position == Position(records, |records|)
      invariant Scan(file, SEGMENT_HEADER, expected) == Prepend(records, Scan(file, position, segment.next))
      invariant segment.offsets == OffsetIndex(records)
      invariant segment.stdoutLines == LineIndex(records, Stdout)
      invariant segment.stderrLines == LineIndex(records, Stderr)
      decreases |file| - position
    {
      ScanStep(file, position, segment.next);
      PrependBasics(records, Scan(file, position, segment.next));
      match ReadAt(file, position)
      case Eof =>
        truncated := position < |file|;
        segment := segment.(log := file[..position]);
        break;
      case Corrupt =>
        return RebuildError;
      case Got(record, after) =>
        if record.offset != segment.next {
          return RebuildError;
        }
        segment := Indexed(segment, record, position);
        ghost var before := records;
        records := records + [record];
        Grow(before, record);
        PrependTwice(before, record, Scan(file, after, segment.next));
        position := after;
    }
    result := Rebuilt(segment, records, truncated);
  }

  lemma PrependNothing(s: ScanResult)
    ensures Prepend([], s) == s
  {
  }

  lemma PrependBasics(rs: seq<Stored>, s: ScanResult)
    ensures Prepend(rs, s) == if s.ScanFailed? then ScanFailed else Scanned(rs + s.records, s.end)
    ensures s.Scanned? && s.records == [] ==> Prepend(rs, s) == Scanned(rs, s.end)
  {
    assert rs + [] == rs;
  }

  lemma PrependTwice(rs: seq<Stored>, r: Stored, s: ScanResult)
    ensures Prepend(rs + [r], s) == Prepend(rs, Prepend([r], s))
  {
    if s.Scanned? {
      assert (rs + [r]) + s.records == rs + ([r] + s.records);
    }
  }

  lemma NothingYet()
    ensures EncodeAll([]) == [] && OffsetIndex([]) == [] && LineIndex([], Stdout) == LineIndex([], Stderr) == []
  {
  }

  // What one more record adds to each file of a segment.
  lemma Grow(rs: seq<Stored>, r: Stored)
    ensures EncodeAll(rs + [r]) == EncodeAll(rs) + Encode(r)
    ensures Position(rs + [r], |rs| + 1) == Position(rs, |rs|) + Total(r)
    ensures OffsetIndex(rs + [r]) == OffsetIndex(rs) + OffsetEntries(r, Position(rs, |rs|))
    ensures forall s :: LineIndex(rs + [r], s) == LineIndex(rs, s) + LineEntries(r, s)
  {
    hide Encode, EncodeAll, OffsetIndex, LineIndex, LineEntries, OffsetEntries;
    var more := rs + [r];
    assert more[..|more| - 1] == rs && more[..|rs| + 1] == more && rs[..|rs|] == rs && more[..|rs|] == rs;
    GrowEncoding(more);
    GrowOffsets(more);
    forall s ensures LineIndex(rs + [r], s) == LineIndex(rs, s) + LineEntries(r, s) {
      GrowLines(more, s);
    }
  }

  lemma GrowEncoding(rs: seq<Stored>)
    requires rs != []
    ensures EncodeAll(rs) == EncodeAll(rs[..|rs| - 1]) + Encode(rs[|rs| - 1])
  {
    hide Encode;
  }

  lemma GrowOffsets(rs: seq<Stored>)
    requires rs != []
    ensures OffsetIndex(rs) == OffsetIndex(rs[..|rs| - 1]) + OffsetEntries(rs[|rs| - 1], Position(rs, |rs| - 1))
  {
    hide EncodeAll, Position, OffsetEntries;
  }

  lemma GrowLines(rs: seq<Stored>, s: Stream)
    requires rs != []
    ensures LineIndex(rs, s) == LineIndex(rs[..|rs| - 1], s) + LineEntries(rs[|rs| - 1], s)
  {
    hide LineEntries;
  }

  // ----- reading a range of records

  datatype Sent = Sent(record: Record, lineTruncated: bool)
  datatype Selection = Selection(streams: set<Stream>, allLines: bool, lines: set<nat>) {
    predicate Takes(r: Record) { r.stream in streams && (allLines || r.lineOffset in lines) }
  }

  // The specification of a read: the records of rs with an offset in [start, end)
  // that the selection takes, in order, marked when their line began before earliest.
  function Emitted(rs: seq<Stored>, start: nat, end: nat, earliest: nat, sel: Selection): seq<Sent> {
    if rs == [] then [] else
    var r := rs[|rs| - 1];
    Emitted(rs[..|rs| - 1], start, end, earliest, sel)
    + if start <= r.offset < end && sel.Takes(r) then [Sent(r, r.lineOffset < earliest)] else []
  }

  lemma {:induction false} EmittedSplit(rs: seq<Stored>, k: nat, start: nat, end: nat, earliest: nat, sel: Selection)
    requires k <= |rs|
    ensures Emitted(rs, start, end, earliest, sel)
         == Emitted(rs[..k], start, end, earliest, sel) + Emitted(rs[k..], start, end, earliest, sel)
  {
    if k == |rs| {
      assert rs[..k] == rs && rs[k..] == [];
    } else {
      var init := rs[..|rs| - 1];
      EmittedSplit(init, k, start, end, earliest, sel);
      assert init[..k] == rs[..k] && init[k..] == rs[k..][..|rs[k..]| - 1];
    }
  }

  lemma EmittedTiles(rs: seq<Stored>, low: nat, middle: nat, high: nat, start: nat, end: nat, earliest: nat,
        sel: Selection)
    requires low <= middle <= high <= |rs|
    ensures Emitted(rs[low..high], start, end, earliest, sel)
         == Emitted(rs[low..middle], start, end, earliest, sel) + Emitted(rs[middle..high], start, end, earliest, sel)
  {
    hide Emitted;
    EmittedSplit(rs[low..high], middle - low, start, end, earliest, sel);
    assert rs[low..high][..middle - low] == rs[low..middle] && rs[low..high][middle - low..] == rs[middle..high];
  }

  lemma EmittedNothing(start: nat, end: nat, earliest: nat, sel: Selection)
    ensures Emitted([], start, end, earliest, sel) == []
  {
  }

  lemma {:induction false} NothingOutside(rs: seq<Stored>, start: nat, end: nat, earliest: nat, sel: Selection)
    requires forall i | 0 <= i < |rs| :: rs[i].offset < start || end <= rs[i].offset
    ensures Emitted(rs, start, end, earliest, sel) == []
  {
    if rs == [] {
    } else {
      NothingOutside(rs[..|rs| - 1], start, end, earliest, sel);
    }
  }

  // The position of the last index entry at or before the offset, or the first record's.
  method Seek(offsets: seq<OffsetEntry>, offset: nat) returns (position: nat)
    requires Ascending(offsets)
    ensures
      || (position == SEGMENT_HEADER && forall i | 0 <= i < |offsets| :: offset < offsets[i].offset)
      || exists i | 0 <= i < |offsets| ::
           && position == offsets[i].position && offsets[i].offset <= offset
           && forall j | i < j < |offsets| :: offset < offsets[j].offset
  {
    position := SEGMENT_HEADER;
    var low, high := 0, |offsets|;
    while low < high
      invariant 0 <= low <= high <= |offsets|
      invariant forall i | 0 <= i < low :: offsets[i].offset <= offset
      invariant forall i | high <= i < |offsets| :: offset < offsets[i].offset
    {
      var middle := (low + high) / 2;
      if offsets[middle].offset <= offset {
        low := middle + 1;
      } else {
        high := middle;
      }
    }
    if low > 0 {
      position := offsets[low - 1].position;
    }
  }

  ghost predicate Ascending(ix: seq<OffsetEntry>) {
    forall i, j | 0 <= i < j < |ix| :: ix[i].offset < ix[j].offset
  }

  ghost predicate PointsInto(ix: seq<OffsetEntry>, rs: seq<Stored>, first: nat) {
    forall e | e in ix ::
      first <= e.offset < first + |rs| && e.position == Position(rs, e.offset - first)
  }

  // Index entries are in offset order, and each points at the record it names.
  lemma {:induction false} OffsetIndexSound(rs: seq<Stored>, first: nat)
    requires Consecutive(rs, first)
    ensures Ascending(OffsetIndex(rs)) && PointsInto(OffsetIndex(rs), rs, first)
  {
    hide EncodeAll, Encode, Position, OffsetIndex, Ascending, PointsInto;
    if rs == [] {
      NothingYet();
      NothingSound(first);
    } else {
      var init, last := rs[..|rs| - 1], rs[|rs| - 1];
      OffsetIndexSound(init, first);
      GrowOffsets(rs);
      StillPoints(OffsetIndex(init), rs, first);
      OneEntryMore(OffsetIndex(init), rs, first);
    }
  }

  lemma NothingSound(first: nat)
    ensures Ascending([]) && PointsInto([], [], first)
  {
  }

  lemma StillPoints(ix: seq<OffsetEntry>, rs: seq<Stored>, first: nat)
    requires rs != [] && PointsInto(ix, rs[..|rs| - 1], first)
    ensures PointsInto(ix, rs, first) && forall e | e in ix :: e.offset < first + |rs| - 1
  {
    hide Position;
    forall e | e in ix
      ensures first <= e.offset < first + |rs| - 1 && e.position == Position(rs, e.offset - first)
    {
      SamePosition(rs, e.offset - first);
    }
  }

  lemma OneEntryMore(ix: seq<OffsetEntry>, rs: seq<Stored>, first: nat)
    requires rs != [] && Ascending(ix) && PointsInto(ix, rs, first) && rs[|rs| - 1].offset == first + |rs| - 1
    requires forall e | e in ix :: e.offset < first + |rs| - 1
    ensures var more := ix + OffsetEntries(rs[|rs| - 1], Position(rs, |rs| - 1));
      Ascending(more) && PointsInto(more, rs, first)
  {
    hide Position;
    var entries := OffsetEntries(rs[|rs| - 1], Position(rs, |rs| - 1));
    var more := ix + entries;
    assert entries == [] ==> more == ix;
    forall i, j | 0 <= i < j < |more|
      ensures more[i].offset < more[j].offset
    {
      assert more[i] in ix;
    }
  }

  lemma SamePosition(rs: seq<Stored>, k: nat)
    requires k < |rs|
    ensures Position(rs, k) == Position(rs[..|rs| - 1], k)
  {
    hide EncodeAll, Encode;
    assert rs[..|rs| - 1][..k] == rs[..k];
  }

  lemma FitsWhole(rs: seq<Stored>, k: nat)
    requires k <= |rs|
    ensures |EncodeAll(rs[..k])| <= |EncodeAll(rs)|
  {
    EncodeAllSplit(rs, k);
  }

  lemma EndOfFile(log: seq<byte>, rs: seq<Stored>)
    requires SEGMENT_HEADER <= |log| && log[SEGMENT_HEADER..] == EncodeAll(rs)
    ensures |log| == Position(rs, |rs|)
  {
    hide EncodeAll;
    assert rs[..|rs|] == rs;
  }

  // A position where a record starts whose offset is no later than the requested one, or
  // where the first record starts.
  ghost predicate StartsBefore(rs: seq<Stored>, first: nat, start: nat, position: nat) {
    exists k: nat :: k <= |rs| && position == Position(rs, k) && (k == 0 || first + k <= start)
  }

  // Where a read starts: at a record no later than the requested offset.
  method StartOf(seg: Segment, start: nat, ghost rs: seq<Stored>) returns (position: nat, ghost k: nat)
    requires seg.offsets == OffsetIndex(rs) && Consecutive(rs, seg.first)
    ensures StartsBefore(rs, seg.first, start, position)
    ensures k <= |rs| && position == Position(rs, k) && (k == 0 || seg.first + k <= start)
  {
    hide EncodeAll, OffsetIndex, Position;
    OffsetIndexSound(rs, seg.first);
    position := Seek(seg.offsets, start);
    k := 0;
    if position != SEGMENT_HEADER {
      ghost var e :| e in seg.offsets && position == e.position && e.offset <= start;
      k := e.offset - seg.first;
    }
    assert k <= |rs| && position == Position(rs, k);
  }

  // Reads one segment from its index to the end of the range or of the file.
  method ReadSegment(seg: Segment, start: nat, end: nat, earliest: nat, sel: Selection, ghost rs: seq<Stored>,
                     ghost openOut: seq<LineEntry>, ghost openErr: seq<LineEntry>)
    returns (sent: seq<Sent>)
    requires IsSegmentOf(seg, rs, openOut, openErr)
    ensures sent == Emitted(rs, start, end, earliest, sel)
  {
    hide Encode, EncodeAll, ReadAt, OffsetIndex, LineIndex, ReadHeader, Position;
    sent := [];
    var position, k := StartOf(seg, start, rs);
    assert rs[..|rs|] == rs && EncodeAll(rs)[..|EncodeAll(rs)|] == EncodeAll(rs);
    NothingOutside(rs[..k], start, end, earliest, sel);
    while true
      invariant k <= |rs| && position == Position(rs, k)
      invariant sent == Emitted(rs[..k], start, end, earliest, sel)
      decreases |rs| - k
    {
      if k < |rs| {
        PositionsGrow(rs, k + 1, |rs|);
        FitsWhole(rs, k + 1);
        HoldsRecord(seg.log, rs, |EncodeAll(rs)|, k);
        ReadWindow(seg.log, position, rs[k]);
      } else {
        assert position == Position(rs, |rs|) == |seg.log| by { EndOfFile(seg.log, rs); }
        AtEndIsEof(seg.log, position);
      }
      match ReadAt(seg.log, position)
      case Eof =>
        break;
      case Corrupt =>
        assert false;
      case Got(record, after) =>
        assert rs[..k + 1][..k] == rs[..k];
        if end <= record.offset {
          EmittedSplit(rs, k, start, end, earliest, sel);
          NothingOutside(rs[k..], start, end, earliest, sel);
          return;
        }
        if start <= record.offset && sel.Takes(record) {
          sent := sent + [Sent(record, record.lineOffset < earliest)];
        }
        position := after;
        k := k + 1;
    }
  }
}
