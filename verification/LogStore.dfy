// The segments of a log as one store of records: they tile the retained offsets,
// and each one's files hold exactly its records.
module LogStore {
  import opened Bytes
  import opened LogRecord
  import opened LogSegment

  ghost predicate Tiled(segs: seq<Segment>, earliest: nat, next: nat) {
    && (segs == [] ==> earliest == next)
    && (segs != [] ==> segs[0].first == earliest && segs[|segs| - 1].next == next)
    && (forall i | 0 <= i < |segs| - 1 :: segs[i].first < segs[i].next && segs[i].next == segs[i + 1].first)
  }

  ghost predicate Covers(seg: Segment, records: seq<Stored>, openOut: seq<LineEntry>, openErr: seq<LineEntry>) {
    && seg.first <= seg.next <= |records|
    && IsSegmentOf(seg, records[seg.first..seg.next], openOut, openErr)
  }

  // openOut and openErr are the entries finalization added to the last segment's line indexes.
  ghost predicate IsStore(segs: seq<Segment>, records: seq<Stored>, earliest: nat,
                          openOut: seq<LineEntry>, openErr: seq<LineEntry>) {
    && Consecutive(records, 0)
    && Tiled(segs, earliest, |records|)
    && (forall i | 0 <= i < |segs| - 1 :: Covers(segs[i], records, [], []))
    && (segs != [] ==> Covers(segs[|segs| - 1], records, openOut, openErr))
  }

  // Where a store with these segments starts.
  function EarliestOf(segs: seq<Segment>, next: nat): nat {
    if segs == [] then next else segs[0].first
  }

  lemma EarliestIs(segs: seq<Segment>, records: seq<Stored>, earliest: nat, openOut: seq<LineEntry>,
        openErr: seq<LineEntry>)
    requires IsStore(segs, records, earliest, openOut, openErr)
    ensures earliest == EarliestOf(segs, |records|)
  {
  }

  lemma StoreIsConsecutive(segs: seq<Segment>, records: seq<Stored>, earliest: nat, openOut: seq<LineEntry>,
        openErr: seq<LineEntry>)
    requires IsStore(segs, records, earliest, openOut, openErr)
    ensures Consecutive(records, 0)
    ensures segs != [] ==> segs[|segs| - 1].next == |records|
  {
  }

  lemma EmptyStore(segs: seq<Segment>, records: seq<Stored>, earliest: nat, openOut: seq<LineEntry>,
        openErr: seq<LineEntry>)
    requires IsStore(segs, records, earliest, openOut, openErr)
    ensures segs == [] ==> earliest == |records|
  {
  }

  // Each segment covers its records, and the next one starts where it ends.
  lemma SegmentCovers(segs: seq<Segment>, records: seq<Stored>, earliest: nat,
                      openOut: seq<LineEntry>, openErr: seq<LineEntry>, i: nat)
    requires IsStore(segs, records, earliest, openOut, openErr) && i < |segs|
    ensures Covers(segs[i], records, if i == |segs| - 1 then openOut else [], if i == |segs| - 1 then openErr else [])
    ensures segs[i].next == if i == |segs| - 1 then |records| else segs[i + 1].first
  {
    hide Covers;
  }

  lemma DropFirst(segs: seq<Segment>, records: seq<Stored>, earliest: nat, openOut: seq<LineEntry>,
        openErr: seq<LineEntry>)
    requires IsStore(segs, records, earliest, openOut, openErr) && segs != []
    ensures IsStore(segs[1..], records, EarliestOf(segs[1..], |records|), openOut, openErr)
    ensures earliest <= EarliestOf(segs[1..], |records|)
  {
    hide Covers;
    Bounds(segs, records, earliest, openOut, openErr);
  }

  lemma {:induction false} Bounds(segs: seq<Segment>, records: seq<Stored>, earliest: nat,
                                  openOut: seq<LineEntry>, openErr: seq<LineEntry>)
    requires IsStore(segs, records, earliest, openOut, openErr)
    ensures earliest <= |records|
    ensures forall i | 0 <= i < |segs| :: earliest <= segs[i].first <= segs[i].next <= |records|
  {
    hide IsSegmentOf;
    AscendingFirsts(segs, earliest, |records|, |segs|);
  }

  lemma {:induction false} AscendingFirsts(segs: seq<Segment>, earliest: nat, next: nat, n: nat)
    requires Tiled(segs, earliest, next) && n <= |segs|
    ensures forall i | 0 <= i < n :: earliest <= segs[i].first
  {
    if n > 1 {
      AscendingFirsts(segs, earliest, next, n - 1);
      assert segs[n - 2].next == segs[n - 1].first;
    }
  }

  // Records appended later do not disturb a segment that does not hold them.
  lemma CoversLonger(seg: Segment, records: seq<Stored>, more: seq<Stored>, openOut: seq<LineEntry>,
        openErr: seq<LineEntry>)
    requires Covers(seg, records, openOut, openErr) && seg.next <= |more|
    requires records[..seg.next] == more[..seg.next]
    ensures Covers(seg, more, openOut, openErr)
  {
    hide IsSegmentOf;
    assert records[seg.first..seg.next] == records[..seg.next][seg.first..] == more[seg.first..seg.next];
  }

  // A new segment holds only its header.
  function NewSegment(first: nat, created: int): Segment
    requires -TWO_64 / 2 <= created < TWO_64 / 2
  {
    Segment(first, first, SegmentHeader(first, created), [], [], [])
  }

  lemma NewSegmentIsEmpty(first: nat, created: int)
    requires first < TWO_64 && -TWO_64 / 2 <= created < TWO_64 / 2
    ensures IsSegmentOf(NewSegment(first, created), [], [], [])
  {
    hide SegmentHeader, ReadHeader;
    NothingYet();
    var h := SegmentHeader(first, created);
    ReadHeaderInverts(first, created, []);
    assert h + [] == h && h[..SEGMENT_HEADER] == h && h[SEGMENT_HEADER..] == [];
  }

  lemma AddSegment(segs: seq<Segment>, records: seq<Stored>, earliest: nat, created: int)
    requires IsStore(segs, records, earliest, [], [])
    requires segs != [] ==> segs[|segs| - 1].first < |records|
    requires |records| < TWO_64 && -TWO_64 / 2 <= created < TWO_64 / 2
    ensures var seg := NewSegment(|records|, created);
      IsStore(segs + [seg], records, if segs == [] then |records| else earliest, [], [])
  {
    hide IsSegmentOf, NewSegment;
    var seg := NewSegment(|records|, created);
    NewSegmentIsEmpty(|records|, created);
    NewSegmentBounds(|records|, created);
    assert records[|records|..|records|] == [];
  }

  lemma NewSegmentBounds(first: nat, created: int)
    requires -TWO_64 / 2 <= created < TWO_64 / 2
    ensures NewSegment(first, created).first == NewSegment(first, created).next == first
  {
  }

  // The segment files after one more record was written to them.
  function Appended(seg: Segment, record: Stored): Segment {
    Segment(seg.first, seg.next + 1, seg.log + Encode(record),
            seg.offsets + OffsetEntries(record, |seg.log|),
            seg.stdoutLines + LineEntries(record, Stdout),
            seg.stderrLines + LineEntries(record, Stderr))
  }

  lemma AppendedHoldsOneMore(seg: Segment, rs: seq<Stored>, record: Stored)
    requires IsSegmentOf(seg, rs, [], []) && record.offset == seg.next
    ensures IsSegmentOf(Appended(seg, record), rs + [record], [], [])
  {
    hide Encode, EncodeAll, ReadHeader, OffsetIndex, LineIndex, Position, OffsetEntries, LineEntries;
    Grow(rs, record);
    EndOfFile(seg.log, rs);
    var log := seg.log + Encode(record);
    assert log[SEGMENT_HEADER..] == seg.log[SEGMENT_HEADER..] + Encode(record);
    assert log[..SEGMENT_HEADER] == seg.log[..SEGMENT_HEADER];
  }

  lemma AppendToLast(segs: seq<Segment>, records: seq<Stored>, earliest: nat, record: Stored)
    requires IsStore(segs, records, earliest, [], []) && segs != [] && record.offset == |records|
    ensures IsStore(segs[|segs| - 1 := Appended(segs[|segs| - 1], record)], records + [record], earliest, [], [])
  {
    hide IsSegmentOf;
    var last, more := segs[|segs| - 1], records + [record];
    AppendedHoldsOneMore(last, records[last.first..last.next], record);
    assert more[last.first..last.next + 1] == records[last.first..last.next] + [record];
    Bounds(segs, records, earliest, [], []);
    forall i | 0 <= i < |segs| - 1
      ensures Covers(segs[i], more, [], [])
    {
      CoversLonger(segs[i], records, more, [], []);
    }
  }

  // Finalization adds the entries of the lines still open to the last segment.
  lemma AddOpenEntries(segs: seq<Segment>, records: seq<Stored>, earliest: nat, out: seq<LineEntry>,
        err: seq<LineEntry>)
    requires IsStore(segs, records, earliest, [], []) && segs != []
    ensures var last := segs[|segs| - 1];
      IsStore(segs[|segs| - 1 := last.(stdoutLines := last.stdoutLines + out, stderrLines := last.stderrLines + err)],
              records, earliest, out, err)
  {
    hide EncodeAll, ReadHeader, OffsetIndex, LineIndex;
  }

  // The number of bytes the four files of every segment take on disk.
  function DiskBytes(segs: seq<Segment>): nat {
    if segs == [] then 0 else
    |segs[0].log| + 16 * |segs[0].offsets| + 24 * |segs[0].stdoutLines| + 24 * |segs[0].stderrLines|
    + DiskBytes(segs[1..])
  }
}
