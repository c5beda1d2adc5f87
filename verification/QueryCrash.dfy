// A crash while a query runs: whatever part of each segment file survives, recovery finds
// the longest beginning of the retained frames, and none are lost that were whole on disk.
module QueryCrash {
  import opened Bytes
  import opened QueryRecord
  import opened QueryRecovery
  import opened QueryWriters

  // A record read from part of a file is read from the whole file as well.
  lemma ReadExtends(file: seq<byte>, cut: nat, at: nat)
    requires at <= cut <= |file| && ReadAt(file[..cut], at).Payload?
    ensures ReadAt(file, at) == ReadAt(file[..cut], at)
  {
    hide FromBigEndian, Word32, Crc32c.Checksum;
    WordExtends(file, cut, at);
    WordExtends(file, cut, at + 4);
    SliceExtends(file, cut, at + HEADER, at + HEADER + Word32(file, at));
  }

  lemma SliceExtends(file: seq<byte>, cut: nat, low: nat, high: nat)
    requires low <= high <= cut <= |file|
    ensures file[..cut][low..high] == file[low..high]
  {
  }

  lemma WordExtends(file: seq<byte>, cut: nat, at: nat)
    requires at + 4 <= cut <= |file|
    ensures Word32(file[..cut], at) == Word32(file, at)
  {
    hide FromBigEndian;
    SliceExtends(file, cut, at, at + 4);
  }

  function CutDisk(disk: seq<SegmentFile>, cuts: seq<nat>): (files: seq<SegmentFile>)
    requires |cuts| == |disk| && forall i | 0 <= i < |disk| :: cuts[i] <= |disk[i].bytes|
    ensures |files| == |disk|
  {
    seq(|disk|, i requires 0 <= i < |disk| => SegmentFile(disk[i].base, disk[i].bytes[..cuts[i]]))
  }

  // One file of the record, cut anywhere, torn tail included.
  lemma FileCrashes(codec: Codec, seg: SegmentFile, info: Info, written: seq<Stored>, end: nat, cut: nat)
    returns (held: nat)
    requires codec.Faithful() && FileOk(codec, seg, info, written, end, false) && cut <= |seg.bytes|
    ensures seg.base + held <= end && Crashed(codec, SegmentFile(seg.base, seg.bytes[..cut]), written, held)
    ensures cut == |seg.bytes| ==> held == FirstUnreadable(codec, written, seg.base, end) - seg.base
  {
    hide EncodeAll, ReadAt, Encode, FirstUnreadable;
    var all := EncodeAll(codec, written[seg.base..end]);
    var inside := Min(cut, |all|);
    held := CutLeaves(codec, seg.base, end, written, inside);
    if cut <= |all| {
      assert seg.bytes[..cut] == seg.bytes[..|all|][..cut] == all[..inside];
      if cut == |seg.bytes| {
        NothingLost(codec, seg.base, end, written, held);
      }
    } else {
      assert all[..inside] == all;
      NothingLost(codec, seg.base, end, written, held);
      TailCrashes(codec, seg, written, end, cut, held);
    }
  }

  lemma NothingLost(codec: Codec, base: nat, end: nat, written: seq<Stored>, held: nat)
    requires codec.Faithful() && base + held <= end <= |written|
    requires FirstUnreadable(codec, written, base, base + held) == base + held
    requires base + held < end && codec.Readable(written[base + held]) ==>
      |EncodeAll(codec, written[base..end])| < Position(codec, written[base..end], held + 1)
    ensures base + held < end ==> !codec.Readable(written[base + held])
    ensures base + held == FirstUnreadable(codec, written, base, end)
  {
    hide EncodeAll, FirstUnreadable;
    if base + held < end {
      EncodeAllSplit(codec, written[base..end], held + 1);
    }
    FirstIsFirst(codec, written, base, end, base + held);
  }

  // Junk past the last frame stays junk when it is cut.
  lemma TailCrashes(codec: Codec, seg: SegmentFile, written: seq<Stored>, end: nat, cut: nat, held: nat)
    requires codec.Faithful() && HoldsFrames(codec, seg, written, end)
      && seg.base + held == FirstUnreadable(codec, written, seg.base, end)
    requires |EncodeAll(codec, written[seg.base..end])| <= cut <= |seg.bytes|
    ensures Crashed(codec, SegmentFile(seg.base, seg.bytes[..cut]), written, held)
  {
    hide EncodeAll, ReadAt, Encode, FirstUnreadable;
    var run, file := written[seg.base..end], seg.bytes[..cut];
    SubRun(written, seg.base, held, end);
    EncodeAllSplit(codec, run, held);
    PrefixKept(EncodeAll(codec, run), seg.bytes, cut);
    if held < |run| {
      RecordAt(codec, file, run, held);
    } else {
      assert run[..held] == run;
      if ReadAt(file, |EncodeAll(codec, run)|).Payload? {
        ReadExtends(seg.bytes, cut, |EncodeAll(codec, run)|);
      }
    }
    FirstIsFirst(codec, written, seg.base, seg.base + held, seg.base + held);
  }

  lemma PrefixKept(all: seq<byte>, file: seq<byte>, cut: nat)
    requires all <= file && |all| <= cut <= |file|
    ensures all <= file[..cut]
  {
  }

  // Whatever survives of each file, the record is one recovery can work with. A file that
  // survives whole loses no frame that readers accept.
  lemma CrashLeaves(codec: Codec, disk: seq<SegmentFile>, infos: seq<Info>, written: seq<Stored>, clean: bool,
        cuts: seq<nat>)
    returns (held: seq<nat>)
    requires Recorded(codec, disk, infos, written, clean)
    requires |cuts| == |disk| && forall i | 0 <= i < |disk| :: cuts[i] <= |disk[i].bytes|
    ensures |held| == |disk| && AllCrashed(codec, CutDisk(disk, cuts), written, held)
    ensures forall i | 0 <= i < |disk| :: WholeFileKept(codec, disk, written, cuts[i], held[i], i)
  {
    hide FileOk, Crashed, WholeFileKept, Numbered;
    var files := CutDisk(disk, cuts);
    held := [];
    for i := 0 to |disk|
      invariant |held| == i
      invariant forall j | 0 <= j < i :: Crashed(codec, files[j], written, held[j])
      invariant forall j | 0 <= j < i :: disk[j].base + held[j] <= EndOf(disk, |written|, j)
      invariant forall j | 0 <= j < i :: WholeFileKept(codec, disk, written, cuts[j], held[j], j)
    {
      assert FileOk(codec, disk[i], infos[i], written, EndOf(disk, |written|, i), i < |disk| - 1 || clean);
      NotExact(codec, disk[i], infos[i], written, EndOf(disk, |written|, i), i < |disk| - 1 || clean);
      var h := FileCrashes(codec, disk[i], infos[i], written, EndOf(disk, |written|, i), cuts[i]);
      KeptWhole(codec, disk, written, cuts[i], h, i);
      held := held + [h];
    }
    forall i, j | 0 <= i < j < |files|
      ensures files[i].base + held[i] <= files[j].base
    {
      EndsBefore(codec, disk, infos, written, clean, i, j);
    }
  }

  // If a file survives whole and readers accept all its frames, it holds all of them.
  ghost predicate WholeFileKept(codec: Codec, disk: seq<SegmentFile>, written: seq<Stored>, cut: nat, held: nat, i: nat)
    requires i < |disk|
  {
    var end := EndOf(disk, |written|, i);
    cut == |disk[i].bytes| && end <= |written| && (forall k | disk[i].base <= k < end :: codec.Readable(written[k])) ==>
      disk[i].base + held == end
  }

  lemma KeptWhole(codec: Codec, disk: seq<SegmentFile>, written: seq<Stored>, cut: nat, held: nat, i: nat)
    requires i < |disk| && disk[i].base <= EndOf(disk, |written|, i) <= |written|
    requires cut == |disk[i].bytes| ==>
      held == FirstUnreadable(codec, written, disk[i].base, EndOf(disk, |written|, i)) - disk[i].base
    ensures WholeFileKept(codec, disk, written, cut, held, i)
  {
    hide Codec.Readable;
  }

  lemma NotExact(codec: Codec, seg: SegmentFile, info: Info, written: seq<Stored>, end: nat, exact: bool)
    requires FileOk(codec, seg, info, written, end, exact)
    ensures FileOk(codec, seg, info, written, end, false) && seg.base <= end <= |written|
  {
  }

  lemma {:induction false} EndsBefore(codec: Codec, disk: seq<SegmentFile>, infos: seq<Info>,
        written: seq<Stored>, clean: bool,
      i: nat, j: nat)
    requires Recorded(codec, disk, infos, written, clean) && i < j < |disk|
    ensures EndOf(disk, |written|, i) <= disk[j].base
    decreases j
  {
    hide FileOk;
    if i < j - 1 {
      EndsBefore(codec, disk, infos, written, clean, i, j - 1);
      assert FileOk(codec, disk[j - 1], infos[j - 1], written, EndOf(disk, |written|, j - 1), j - 1 < |disk| - 1
        || clean);
      NotExact(codec, disk[j - 1], infos[j - 1], written, EndOf(disk, |written|, j - 1), true);
    }
  }

  // A running record whose files all survive whole, torn last write included, is recovered
  // and replayed as exactly the window its writer had, if readers accept all its frames.
  method CrashAndReplay(writer: QueryWriter, cuts: seq<nat>, from: nat)
    returns (earliest: nat, next: nat, sent: seq<Stored>, status: ReplayStatus)
    requires writer.Valid()
    requires |cuts| == |writer.disk| && forall i | 0 <= i < |cuts| :: cuts[i] <= |writer.disk[i].bytes|
    ensures earliest == writer.earliest <= next <= |writer.written|
    ensures earliest <= from < next ==> status == Done && sent == writer.written[from..next]
    ensures Uncut(writer.disk, cuts) && AllReadable(writer.codec, writer.written) ==> next == writer.next
  {
    hide writer.Valid, Recorded, AllCrashed, AllTrimmed, OnDisk, FirstUnreadable, WholeFileKept, CutDisk;
    writer.IsRecorded();
    writer.DiskIsIntact();
    ghost var held := CrashLeaves(writer.codec, writer.disk, writer.infos, writer.written, !writer.broken, cuts);
    var files;
    var cut := CutDisk(writer.disk, cuts);
    files, earliest, next, sent, status := RecoverAndReplay(writer.codec, cut, from, writer.written, held);
    SameBases(writer.disk, cuts);
    if Uncut(writer.disk, cuts) && AllReadable(writer.codec, writer.written) && next < |writer.written| {
      StillOnDisk(writer.codec, writer.disk, writer.infos, writer.written, !writer.broken, cuts, held, next);
    }
  }

  ghost predicate Uncut(disk: seq<SegmentFile>, cuts: seq<nat>)
    requires |cuts| == |disk|
  {
    forall i | 0 <= i < |cuts| :: cuts[i] == |disk[i].bytes|
  }

  ghost predicate AllReadable(codec: Codec, written: seq<Stored>) {
    forall k | 0 <= k < |written| :: codec.Readable(written[k])
  }

  lemma SameBases(disk: seq<SegmentFile>, cuts: seq<nat>)
    requires |cuts| == |disk| && forall i | 0 <= i < |disk| :: cuts[i] <= |disk[i].bytes|
    ensures forall i | 0 <= i < |disk| :: CutDisk(disk, cuts)[i].base == disk[i].base
  {
  }

  // The segment an offset at or after the first belongs to.
  lemma SegmentAt(disk: seq<SegmentFile>, k: nat) returns (i: nat)
    requires disk != [] && disk[0].base <= k
    ensures i < |disk| && disk[i].base <= k && (i + 1 < |disk| ==> k < disk[i + 1].base)
  {
    i := 0;
    while i + 1 < |disk| && disk[i + 1].base <= k
      invariant i < |disk| && disk[i].base <= k
    {
      i := i + 1;
    }
  }

  lemma StillOnDisk(codec: Codec, disk: seq<SegmentFile>, infos: seq<Info>, written: seq<Stored>, clean: bool,
      cuts: seq<nat>, held: seq<nat>, k: nat)
    requires Recorded(codec, disk, infos, written, clean) && |cuts| == |disk| == |held|
    requires forall i | 0 <= i < |disk| :: cuts[i] <= |disk[i].bytes|
    requires forall i | 0 <= i < |disk| :: WholeFileKept(codec, disk, written, cuts[i], held[i], i)
    requires Uncut(disk, cuts) && AllReadable(codec, written) && disk[0].base <= k < |written|
    ensures OnDisk(CutDisk(disk, cuts), held, k)
  {
    hide FileOk, Codec.Readable, CutDisk, Numbered;
    SameBases(disk, cuts);
    var i := SegmentAt(disk, k);
    assert FileOk(codec, disk[i], infos[i], written, EndOf(disk, |written|, i), i < |disk| - 1 || clean);
    NotExact(codec, disk[i], infos[i], written, EndOf(disk, |written|, i), i < |disk| - 1 || clean);
    assert WholeFileKept(codec, disk, written, cuts[i], held[i], i);
    assert CutDisk(disk, cuts)[i].base <= k < CutDisk(disk, cuts)[i].base + held[i];
  }
}
