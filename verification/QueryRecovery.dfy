// What a restart finds of a query record that was still running, and what replay then
// delivers.
module QueryRecovery {
  import opened Bytes
  import opened QueryRecord

  // A segment file after a crash: the first `held` frames from its base are whole and
  // readable, and nothing readable follows them.
  ghost predicate Crashed(codec: Codec, seg: SegmentFile, frames: seq<Stored>, held: nat) {
    && seg.base + held <= |frames|
    && HoldsFrames(codec, seg, frames, seg.base + held)
    && FirstUnreadable(codec, frames, seg.base, seg.base + held) == seg.base + held
  }

  ghost predicate AllCrashed(codec: Codec, segs: seq<SegmentFile>, frames: seq<Stored>, held: seq<nat>) {
    && codec.Faithful() && Numbered(frames) && |held| == |segs|
    && (forall i | 0 <= i < |segs| :: Crashed(codec, segs[i], frames, held[i]))
    && Ordered(segs, held)
  }

  // A sequence some segment still holds.
  ghost predicate OnDisk(segs: seq<SegmentFile>, held: seq<nat>, sequence: nat)
    requires |held| == |segs|
  {
    exists i | 0 <= i < |segs| :: segs[i].base <= sequence < segs[i].base + held[i]
  }

  // Cutting a complete segment file anywhere leaves such a file; it keeps every whole
  // frame before the cut, up to the first one no reader accepts.
  lemma CutLeaves(codec: Codec, base: nat, end: nat, frames: seq<Stored>, cut: nat) returns (held: nat)
    requires codec.Faithful() && base <= end <= |frames|
    requires cut <= |EncodeAll(codec, frames[base..end])|
    ensures base + held <= end
    ensures Crashed(codec, SegmentFile(base, EncodeAll(codec, frames[base..end])[..cut]), frames, held)
    ensures Position(codec, frames[base..end], held) <= cut
    ensures base + held < end && codec.Readable(frames[base + held]) ==>
      cut < Position(codec, frames[base..end], held + 1)
  {
    hide Encode, ReadAt, EncodeAll;
    var run := frames[base..end];
    var file := EncodeAll(codec, run)[..cut];
    held := 0;
    assert run[..0] == [];
    NoFrames(codec);
    while base + held < end && codec.Readable(frames[base + held]) && Position(codec, run, held + 1) <= cut
      invariant base + held <= end && Position(codec, run, held) <= cut
      invariant forall i | base <= i < base + held :: codec.Readable(frames[i])
    {
      held := held + 1;
    }
    EncodeAllSplit(codec, run, held);
    SubRun(frames, base, held, end);
    if held < |run| {
      CutInside(codec, run, held, cut);
      assert run[held] == frames[base + held];
    } else {
      assert run[..held] == run;
      AtTheEnd(file);
    }
  }

  lemma SubRun(frames: seq<Stored>, base: nat, held: nat, end: nat)
    requires base + held <= end <= |frames|
    ensures frames[base..end][..held] == frames[base..base + held]
  {
  }

  lemma NoFrames(codec: Codec)
    ensures EncodeAll(codec, []) == []
  {
  }

  // Nothing is read at a frame that is cut short or that no reader accepts.
  lemma CutOfJoin(a: seq<byte>, b: seq<byte>, c: seq<byte>, kept: nat)
    requires kept <= |b|
    ensures ((a + b) + c)[..|a| + kept] == a + b[..kept]
  {
  }

  lemma MiddleOfJoin(a: seq<byte>, b: seq<byte>, c: seq<byte>, cut: nat)
    requires |a| + |b| <= cut <= |a| + |b| + |c|
    ensures ((a + b) + c)[..cut][|a|..|a| + |b|] == b
  {
  }

  lemma CutInside(codec: Codec, run: seq<Stored>, k: nat, cut: nat)
    requires codec.Faithful() && k < |run| && Position(codec, run, k) <= cut <= |EncodeAll(codec, run)|
    requires codec.Readable(run[k]) ==> cut < Position(codec, run, k + 1)
    ensures !ReadAt(EncodeAll(codec, run)[..cut], Position(codec, run, k)).Payload?
  {
    hide Encode, ReadAt, EncodeAll;
    var all, payload := EncodeAll(codec, run), codec.marshal(run[k]);
    var before := EncodeAll(codec, run[..k]);
    OneMore(codec, run, k);
    EncodeAllSplit(codec, run, k);
    EncodeAllSplit(codec, run, k + 1);
    if cut < Position(codec, run, k + 1) {
      var kept := cut - |before|;
      CutOfJoin(before, Encode(payload), EncodeAll(codec, run[k + 1..]), kept);
      TornPrefix(before, payload, kept);
    } else {
      var file := all[..cut];
      MiddleOfJoin(before, Encode(payload), EncodeAll(codec, run[k + 1..]), cut);
      ReadBack(file, |before|, payload);
    }
  }

  // ----- trimming torn tails

  // A file reduced to the frames it still holds.
  ghost function Trimmed(codec: Codec, seg: SegmentFile, frames: seq<Stored>, held: nat): SegmentFile
    requires seg.base + held <= |frames|
  {
    SegmentFile(seg.base, EncodeAll(codec, frames[seg.base..seg.base + held]))
  }

  method ValidBytes(codec: Codec, seg: SegmentFile, ghost frames: seq<Stored>, ghost held: nat) returns (valid: nat)
    requires codec.Faithful() && Numbered(frames) && Crashed(codec, seg, frames, held)
    ensures valid <= |seg.bytes| && seg.bytes[..valid] == Trimmed(codec, seg, frames, held).bytes
  {
    hide ReadAt, Encode, EncodeAll, HoldsFrames, Numbered, FirstUnreadable, CleanEnd, RunPosition;
    ghost var k := 0;
    ghost var end := seg.base + held;
    valid := 0;
    RunStarts(codec, seg, frames, end);
    while true
      invariant seg.base + k <= end && valid == RunPosition(codec, seg, frames, end, k) <= |seg.bytes|
      decreases held - k
    {
      FrameAt(codec, seg, frames, end, k);
      match ReadAt(seg.bytes, valid)
      case Payload(_, next) =>
        valid, k := next, k + 1;
      case _ =>
        break;
    }
    RunEnds(codec, seg, frames, held);
  }

  lemma RunEnds(codec: Codec, seg: SegmentFile, frames: seq<Stored>, held: nat)
    requires Crashed(codec, seg, frames, held)
    ensures RunPosition(codec, seg, frames, seg.base + held, held)
      == |Trimmed(codec, seg, frames, held).bytes| <= |seg.bytes|
    ensures seg.bytes[..|Trimmed(codec, seg, frames, held).bytes|] == Trimmed(codec, seg, frames, held).bytes
  {
    var run := frames[seg.base..seg.base + held];
    assert run[..held] == run;
  }

  // Removes whatever follows the readable frames of every segment file.
  method TruncateTornTails(codec: Codec, segs: seq<SegmentFile>, ghost frames: seq<Stored>, ghost held: seq<nat>)
    returns (files: seq<SegmentFile>)
    requires AllCrashed(codec, segs, frames, held)
    ensures AllTrimmed(codec, files, frames, held) && |files| == |segs|
    ensures forall i | 0 <= i < |files| :: files[i].base == segs[i].base
    ensures forall i | 0 <= i < |files| :: files[i].bytes <= segs[i].bytes
  {
    hide Crashed, Trimmed, EncodeAll;
    files := segs;
    for i := 0 to |segs|
      invariant |files| == |segs| && (forall j | i <= j < |segs| :: files[j] == segs[j])
      invariant forall j | 0 <= j < |segs| :: files[j].base == segs[j].base && files[j].bytes <= segs[j].bytes
      invariant forall j | 0 <= j < i :: IsTrimmed(codec, files[j], frames, held[j])
    {
      var valid := ValidBytes(codec, segs[i], frames, held[i]);
      TrimmedFile(codec, segs[i], frames, held[i], valid);
      if valid < |segs[i].bytes| {
        files := files[i := segs[i].(bytes := segs[i].bytes[..valid])];
      }
    }
  }

  ghost predicate IsTrimmed(codec: Codec, seg: SegmentFile, frames: seq<Stored>, held: nat) {
    && seg.base + held <= |frames|
    && seg == Trimmed(codec, seg, frames, held)
    && FirstUnreadable(codec, frames, seg.base, seg.base + held) == seg.base + held
  }

  lemma TrimmedFile(codec: Codec, seg: SegmentFile, frames: seq<Stored>, held: nat, valid: nat)
    requires Crashed(codec, seg, frames, held) && valid <= |seg.bytes|
    requires seg.bytes[..valid] == Trimmed(codec, seg, frames, held).bytes
    ensures IsTrimmed(codec, seg.(bytes := seg.bytes[..valid]), frames, held)
    ensures valid == |seg.bytes| ==> seg.(bytes := seg.bytes[..valid]) == seg
  {
  }

  ghost predicate AllTrimmed(codec: Codec, files: seq<SegmentFile>, frames: seq<Stored>, held: seq<nat>) {
    && codec.Faithful() && Numbered(frames) && |held| == |files|
    && (forall i | 0 <= i < |files| :: IsTrimmed(codec, files[i], frames, held[i]))
    && Ordered(files, held)
  }

  // ----- the retained window

  // Walks one segment as long as its frames continue the sequence.
  method ScanSegment(codec: Codec, seg: SegmentFile, from: nat, ghost frames: seq<Stored>, ghost held: nat)
    returns (next: nat, valid: nat)
    requires codec.Faithful() && Numbered(frames) && IsTrimmed(codec, seg, frames, held) && from <= seg.base
    ensures from == seg.base ==> next == seg.base + held && valid == |seg.bytes|
    ensures from < seg.base ==> next == from && valid == 0
    ensures valid < |seg.bytes| <==> from < seg.base && held > 0
  {
    hide ReadAt, Encode, EncodeAll, HoldsFrames, Numbered, FirstUnreadable, CleanEnd, RunPosition;
    ghost var end := seg.base + held;
    ghost var k := 0;
    next, valid := from, 0;
    TrimmedHolds(codec, seg, frames, held);
    RunStarts(codec, seg, frames, end);
    while true
      invariant seg.base + k <= end && valid == RunPosition(codec, seg, frames, end, k) <= |seg.bytes|
      invariant next == from + k && (from < seg.base ==> k == 0)
      decreases held - k
    {
      FrameAt(codec, seg, frames, end, k);
      match ReadAt(seg.bytes, valid)
      case Payload(payload, after) =>
        var decoded := codec.unmarshal(payload);
        if decoded.None? || decoded.value.sequence != next {
          break;
        }
        valid, next, k := after, next + 1, k + 1;
      case _ =>
        break;
    }
  }

  lemma TrimmedHolds(codec: Codec, seg: SegmentFile, frames: seq<Stored>, held: nat)
    requires codec.Faithful() && IsTrimmed(codec, seg, frames, held)
    ensures HoldsFrames(codec, seg, frames, seg.base + held)
    ensures FirstUnreadable(codec, frames, seg.base, seg.base + held) == seg.base + held
    ensures RunPosition(codec, seg, frames, seg.base + held, held) == |seg.bytes|
    ensures |seg.bytes| > 0 <==> held > 0
  {
    hide Encode, ReadAt, FirstUnreadable;
    AtTheEnd(seg.bytes);
    var run := frames[seg.base..seg.base + held];
    assert run[..held] == run;
  }

  // The window [earliest, next) of a trimmed record: earliest is its first segment's
  // base, and the window is the longest run of frames from there that is still on disk.
  // It is held by the first m segments.
  method ScanBounds(codec: Codec, files: seq<SegmentFile>, ghost frames: seq<Stored>, ghost held: seq<nat>)
    returns (earliest: nat, next: nat, bytes: nat, ghost m: nat)
    requires AllTrimmed(codec, files, frames, held)
    ensures files == [] ==> earliest == next == bytes == 0
    ensures files != [] ==>
      earliest == files[0].base <= next <= |frames| && bytes == |EncodeAll(codec, frames[earliest..next])|
    ensures forall k | earliest <= k < next :: OnDisk(files, held, k)
    ensures files != [] ==> !OnDisk(files, held, next) && Window(files, held, m, next)
  {
    hide IsTrimmed, OnDisk, Window, Walked, Ordered, EncodeAll;
    if files == [] {
      return 0, 0, 0, 0;
    }
    earliest, next, bytes, m := files[0].base, files[0].base, 0, 0;
    FirstBase(codec, files, frames, held);
    for i := 0 to |files|
      invariant earliest <= next <= |frames| && bytes == |EncodeAll(codec, frames[earliest..next])|
      invariant forall k | earliest <= k < next :: OnDisk(files, held, k)
      invariant if i == 0 then next == earliest && m == 0 else Walked(files, held, i, m, next)
    {
      NextSegment(codec, files, frames, held, i, m, next);
      var after, valid := ScanSegment(codec, files[i], next, frames, held[i]);
      if next == files[i].base {
        MoreOnDisk(codec, files, frames, held, i, earliest, next);
      }
      bytes := bytes + valid;
      if valid < |files[i].bytes| {
        NothingAfter(files, held, i, m, next);
        return;
      }
      WalkedOn(files, held, i, m, next);
      m := if next == files[i].base then i + 1 else m;
      next := after;
    }
    NothingLeft(files, held, m, next);
  }

  ghost predicate Ordered(files: seq<SegmentFile>, held: seq<nat>) {
    |held| == |files| && (forall i, j | 0 <= i < j < |files| :: files[i].base + held[i] <= files[j].base)
  }

  // The first m segments tile [their first base, next).
  ghost predicate Window(files: seq<SegmentFile>, held: seq<nat>, m: nat, next: nat)
    requires |held| == |files|
  {
    && 0 < m <= |files| && next == files[m - 1].base + held[m - 1]
    && (forall i | 0 <= i < m - 1 :: files[i].base + held[i] == files[i + 1].base)
  }

  // After i segments: the window so far, and nothing in the segments passed over.
  ghost predicate Walked(files: seq<SegmentFile>, held: seq<nat>, i: nat, m: nat, next: nat)
    requires |held| == |files|
  {
    && m <= i <= |files| && Window(files, held, m, next)
    && (forall j | m <= j < i :: held[j] == 0 && next < files[j].base)
  }

  lemma NextSegment(codec: Codec, files: seq<SegmentFile>, frames: seq<Stored>, held: seq<nat>, i: nat, m: nat,
        next: nat)
    requires AllTrimmed(codec, files, frames, held) && i < |files|
    requires if i == 0 then next == files[0].base && m == 0 else Walked(files, held, i, m, next)
    ensures IsTrimmed(codec, files[i], frames, held[i]) && next <= files[i].base
  {
    hide IsTrimmed;
  }

  lemma MoreOnDisk(codec: Codec, files: seq<SegmentFile>, frames: seq<Stored>, held: seq<nat>, i: nat,
        earliest: nat, next: nat)
    requires |held| == |files| && i < |files| && IsTrimmed(codec, files[i], frames, held[i])
    requires earliest <= next == files[i].base <= |frames|
    ensures next + held[i] <= |frames|
    ensures |EncodeAll(codec, frames[earliest..next + held[i]])|
      == |EncodeAll(codec, frames[earliest..next])| + |files[i].bytes|
    ensures forall k | next <= k < next + held[i] :: OnDisk(files, held, k)
  {
    hide EncodeAll, FirstUnreadable;
    var run := frames[earliest..next + held[i]];
    EncodeAllSplit(codec, run, next - earliest);
    assert run[..next - earliest] == frames[earliest..next];
    assert run[next - earliest..] == frames[next..next + held[i]];
  }

  lemma WalkedOn(files: seq<SegmentFile>, held: seq<nat>, i: nat, m: nat, before: nat)
    requires Ordered(files, held) && i < |files|
    requires if i == 0 then before == files[0].base && m == 0 else before <= files[i].base
    requires i > 0 ==> Walked(files, held, i, m, before)
    requires before < files[i].base ==> held[i] == 0
    ensures if before == files[i].base then Walked(files, held, i + 1, i + 1, before + held[i])
      else Walked(files, held, i + 1, m, before)
  {
  }

  lemma NothingAfter(files: seq<SegmentFile>, held: seq<nat>, i: nat, m: nat, next: nat)
    requires Ordered(files, held) && i < |files| && next < files[i].base
    requires Walked(files, held, i, m, next)
    ensures Window(files, held, m, next) && !OnDisk(files, held, next)
  {
    forall j | 0 <= j < |files|
      ensures !(files[j].base <= next < files[j].base + held[j])
    {
      if j < m - 1 {
        assert files[j].base + held[j] <= files[m - 1].base;
      } else if i <= j {
        assert files[i].base <= files[j].base;
      }
    }
  }

  lemma NothingLeft(files: seq<SegmentFile>, held: seq<nat>, m: nat, next: nat)
    requires Ordered(files, held) && Walked(files, held, |files|, m, next)
    ensures Window(files, held, m, next) && !OnDisk(files, held, next)
  {
    forall j | 0 <= j < |files|
      ensures !(files[j].base <= next < files[j].base + held[j])
    {
      if j < m - 1 {
        assert files[j].base + held[j] <= files[m - 1].base;
      }
    }
  }

  lemma FirstBase(codec: Codec, files: seq<SegmentFile>, frames: seq<Stored>, held: seq<nat>)
    requires AllTrimmed(codec, files, frames, held) && files != []
    ensures files[0].base <= |frames| && |EncodeAll(codec, frames[files[0].base..files[0].base])| == 0
  {
  }

  // ----- a lost record

  // A record found running at startup: its torn tails are cut, its window is scanned,
  // and replaying any part of that window delivers exactly those frames.
  method RecoverAndReplay(codec: Codec, segs: seq<SegmentFile>, from: nat, ghost frames: seq<Stored>,
        ghost held: seq<nat>)
    returns (files: seq<SegmentFile>, earliest: nat, next: nat, sent: seq<Stored>, status: ReplayStatus)
    requires AllCrashed(codec, segs, frames, held)
    ensures AllTrimmed(codec, files, frames, held) && |files| == |segs|
    ensures earliest <= next <= |frames| && (segs != [] ==> earliest == segs[0].base)
    ensures forall k | earliest <= k < next :: OnDisk(segs, held, k)
    ensures segs != [] ==> !OnDisk(segs, held, next)
    ensures earliest <= from < next ==> status == Done && sent == frames[from..next]
    ensures from < earliest < next ==> status == Pruned && sent == []
  {
    hide AllCrashed, AllTrimmed, OnDisk, Window, FirstUnreadable, EncodeAll, Intact, Ordered;
    sent, status := [], Done;
    files := TruncateTornTails(codec, segs, frames, held);
    ghost var m;
    var bytes;
    earliest, next, bytes, m := ScanBounds(codec, files, frames, held);
    SameOnDisk(codec, segs, files, frames, held);
    if from < next {
      var window := frames[..next];
      WindowIntact(codec, files, frames, held, m, next);
      sent, status := Replay(codec, files, {}, from, next, m, frames[..next]);
      if earliest <= from {
        assert frames[..next][from..next] == frames[from..next];
      }
    }
  }

  lemma SameOnDisk(codec: Codec, segs: seq<SegmentFile>, files: seq<SegmentFile>, frames: seq<Stored>, held: seq<nat>)
    requires AllCrashed(codec, segs, frames, held) && |files| == |segs|
      && (forall i | 0 <= i < |files| :: files[i].base == segs[i].base)
    ensures |held| == |segs| && (forall k: nat :: OnDisk(files, held, k) <==> OnDisk(segs, held, k))
  {
    hide Crashed, Ordered;
  }

  // The segments of the window hold its frames, all of them readable.
  lemma WindowIntact(codec: Codec, files: seq<SegmentFile>, frames: seq<Stored>, held: seq<nat>, m: nat, next: nat)
    requires AllTrimmed(codec, files, frames, held) && files != [] && Window(files, held, m, next) && next <= |frames|
    ensures Intact(codec, files, m, frames[..next])
    ensures files[0].base <= next && FirstUnreadable(codec, frames[..next], files[0].base, next) == next
  {
    hide HoldsFrames, AllTrimmed, Window, Numbered, FirstUnreadable, EncodeAll;
    WindowBasics(codec, files, frames, held, m, next);
    forall i | 0 <= i < m
      ensures HoldsFrames(codec, files[i], frames[..next], BaseOr(files, m, next, i + 1))
    {
      HeldInWindow(codec, files, frames, held, m, next, i);
    }
    forall i | 0 <= i < m - 1
      ensures files[i].base <= BaseOr(files, m, next, i + 1) <= next
      ensures files[i].bytes == EncodeAll(codec, frames[..next][files[i].base..BaseOr(files, m, next, i + 1)])
    {
      HeldInWindow(codec, files, frames, held, m, next, i);
    }
    WindowReadable(codec, files, frames, held, m, next, m);
  }

  lemma WindowBasics(codec: Codec, files: seq<SegmentFile>, frames: seq<Stored>, held: seq<nat>, m: nat, next: nat)
    requires AllTrimmed(codec, files, frames, held) && Window(files, held, m, next) && next <= |frames|
    ensures 0 < m <= |files| == |held| && codec.Faithful() && Numbered(frames[..next])
    ensures next == files[m - 1].base + held[m - 1]
  {
    hide IsTrimmed;
  }

  lemma HeldInWindow(codec: Codec, files: seq<SegmentFile>, frames: seq<Stored>, held: seq<nat>, m: nat,
        next: nat, i: nat)
    requires AllTrimmed(codec, files, frames, held) && Window(files, held, m, next) && next <= |frames| && i < m
    ensures BaseOr(files, m, next, i + 1) == files[i].base + held[i] <= next
    ensures HoldsFrames(codec, files[i], frames[..next], BaseOr(files, m, next, i + 1))
    ensures files[i].bytes == EncodeAll(codec, frames[..next][files[i].base..BaseOr(files, m, next, i + 1)])
  {
    hide EncodeAll, FirstUnreadable, ReadAt;
    assert IsTrimmed(codec, files[i], frames, held[i]);
    if i < m - 1 {
      assert files[i].base + held[i] <= files[m - 1].base;
    }
    TrimmedHolds(codec, files[i], frames, held[i]);
    var end := files[i].base + held[i];
    assert frames[..next][files[i].base..end] == frames[files[i].base..end];
    AtTheEnd(files[i].bytes);
  }

  lemma {:induction false} WindowReadable(codec: Codec, files: seq<SegmentFile>, frames: seq<Stored>, held: seq<nat>,
      m: nat, next: nat, i: nat)
    requires AllTrimmed(codec, files, frames, held) && Window(files, held, m, next) && next <= |frames| && 0 < i <= m
    ensures files[0].base <= files[i - 1].base + held[i - 1] <= next
    ensures FirstUnreadable(codec, frames[..next], files[0].base, files[i - 1].base + held[i - 1])
      == files[i - 1].base + held[i - 1]
    decreases i
  {
    hide EncodeAll, ReadAt, HoldsFrames, FirstUnreadable;
    if i > 1 {
      WindowReadable(codec, files, frames, held, m, next, i - 1);
    }
    HeldInWindow(codec, files, frames, held, m, next, i - 1);
    var low, end := files[i - 1].base, files[i - 1].base + held[i - 1];
    assert IsTrimmed(codec, files[i - 1], frames, held[i - 1]);
    assert forall k | low <= k < end :: codec.Readable(frames[k]) && frames[..next][k] == frames[k];
    FirstIsFirst(codec, frames[..next], files[0].base, end, end);
  }
}
