// The record files of one agent query: framing, torn tails, the window recovery
// finds, and replay.
module QueryRecord {
  import opened Bytes
  import Crc32c
  import opened Options

  const HEADER := 8
  const MAX_RECORD := 8388608
  const MAX_BODY := 0x8000_0000


  // A frame fits its record if its sequence is a 64-bit number and its content, whatever
  // else it holds, marshals to what a 32-bit length can announce.
  datatype Frame = Frame(sequence: nat, body: seq<byte>) {
    predicate Storable() { sequence < TWO_64 && |body| < MAX_BODY }
  }

  type Stored = f: Frame | f.Storable() witness Frame(0, [])

  // How frames are marshalled; all the store relies on is that it can be undone.
  datatype Codec = Codec(marshal: Stored -> seq<byte>, unmarshal: seq<byte> -> Option<Stored>) {
    ghost predicate Faithful() {
      forall f: Stored :: unmarshal(marshal(f)) == Some(f) && 0 < |marshal(f)| < TWO_32
    }

    // A frame whose record a reader accepts.
    predicate Readable(f: Stored) { |marshal(f)| <= MAX_RECORD }
  }

  // One way to marshal: the sequence in eight bytes, then the body.
  function PlainMarshal(f: Stored): seq<byte> { BigEndian(8, f.sequence) + f.body }

  function PlainUnmarshal(bs: seq<byte>): Option<Stored> {
    if |bs| < 8 || |bs| - 8 >= MAX_BODY then None
    else
      FromBigEndianBelow(bs[..8]);
      Widths();
      var f: Stored := Frame(FromBigEndian(bs[..8]), bs[8..]);
      Some(f)
  }

  function PlainCodec(): Codec { Codec(PlainMarshal, PlainUnmarshal) }

  // It can be undone, so there are faithful codecs.
  lemma PlainCodecIsFaithful()
    ensures PlainCodec().Faithful()
  {
    forall f: Stored
      ensures PlainUnmarshal(PlainMarshal(f)) == Some(f) && 0 < |PlainMarshal(f)| < TWO_32
    {
      Widths();
      BigEndianRoundTrip(8, f.sequence);
      assert PlainMarshal(f)[..8] == BigEndian(8, f.sequence) && PlainMarshal(f)[8..] == f.body;
    }
  }

  // ----- one record

  function Encode(payload: seq<byte>): (bs: seq<byte>)
    ensures |bs| == HEADER + |payload|
  {
    BigEndian(4, |payload|) + BigEndian(4, Crc32c.Checksum(payload)) + payload
  }

  datatype ReadResult = Payload(payload: seq<byte>, next: nat) | Ended | Torn

  function ReadAt(file: seq<byte>, at: nat): (r: ReadResult)
    requires at <= |file|
    ensures r.Payload? ==> at < r.next <= |file| && r.next == at + HEADER + |r.payload|
  {
    if at == |file| then Ended
    else if |file| < at + HEADER then Torn
    else
      var length := Word32(file, at);
      if length == 0 || length > MAX_RECORD || |file| < at + HEADER + length then Torn
      else
        var payload := file[at + HEADER..at + HEADER + length];
        if Word32(file, at + 4) != Crc32c.Checksum(payload) then Torn else Payload(payload, at + HEADER + length)
  }

  lemma EncodedWords(payload: seq<byte>)
    requires |payload| < TWO_32
    ensures FromBigEndian(BigEndian(4, |payload|)) == |payload|
    ensures FromBigEndian(BigEndian(4, Crc32c.Checksum(payload))) == Crc32c.Checksum(payload)
  {
    Widths();
    BigEndianRoundTrip(4, |payload|);
    BigEndianRoundTrip(4, Crc32c.Checksum(payload));
  }

  // A record with at least its header in place announces its own length.
  lemma HeaderWords(file: seq<byte>, at: nat, payload: seq<byte>)
    requires |payload| < TWO_32 && at + HEADER <= |file|
    requires file[at..at + HEADER] == Encode(payload)[..HEADER]
    ensures Word32(file, at) == |payload| && Word32(file, at + 4) == Crc32c.Checksum(payload)
  {
    hide BigEndian, FromBigEndian;
    EncodedWords(payload);
    var h := file[at..at + HEADER];
    assert file[at..at + 4] == h[..4] == Encode(payload)[..4] == BigEndian(4, |payload|);
    assert file[at + 4..at + 8] == h[4..] == Encode(payload)[4..8] == BigEndian(4, Crc32c.Checksum(payload));
  }

  // A whole record reads back exactly when its payload is within the limit.
  lemma ReadBack(file: seq<byte>, at: nat, payload: seq<byte>)
    requires 0 < |payload| < TWO_32 && at + HEADER + |payload| <= |file|
    requires file[at..at + HEADER + |payload|] == Encode(payload)
    ensures ReadAt(file, at) == if |payload| <= MAX_RECORD then Payload(payload, at + HEADER + |payload|) else Torn
  {
    hide BigEndian, FromBigEndian, Word32;
    assert file[at..at + HEADER] == file[at..at + HEADER + |payload|][..HEADER];
    HeaderWords(file, at, payload);
    assert file[at + HEADER..at + HEADER + |payload|] == file[at..at + HEADER + |payload|][HEADER..] == payload;
  }

  // Any strict prefix of a record at the end of a file reads as torn, or as the end.
  lemma TornPrefix(before: seq<byte>, payload: seq<byte>, kept: nat)
    requires 0 < |payload| < TWO_32 && kept < HEADER + |payload|
    ensures !ReadAt(before + Encode(payload)[..kept], |before|).Payload?
  {
    hide BigEndian, FromBigEndian, Word32;
    var file := before + Encode(payload)[..kept];
    if HEADER <= kept {
      assert file[|before|..|before| + HEADER] == Encode(payload)[..HEADER];
      HeaderWords(file, |before|, payload);
    }
  }

  lemma AtTheEnd(file: seq<byte>)
    ensures ReadAt(file, |file|).Ended?
  {
  }

  // ----- runs of records

  function EncodeAll(codec: Codec, frames: seq<Stored>): seq<byte> {
    if frames == [] then []
    else EncodeAll(codec, frames[..|frames| - 1]) + Encode(codec.marshal(frames[|frames| - 1]))
  }

  lemma {:induction false} EncodeAllSplit(codec: Codec, frames: seq<Stored>, k: nat)
    requires k <= |frames|
    ensures EncodeAll(codec, frames) == EncodeAll(codec, frames[..k]) + EncodeAll(codec, frames[k..])
  {
    hide Encode;
    if k == |frames| {
      assert frames[..k] == frames && frames[k..] == [];
    } else {
      EncodeAllSplit(codec, frames[..|frames| - 1], k);
      assert frames[..|frames| - 1][..k] == frames[..k];
      assert frames[..|frames| - 1][k..] == frames[k..][..|frames| - k - 1];
    }
  }

  // Where the k-th record of a run starts.
  function Position(codec: Codec, frames: seq<Stored>, k: nat): nat
    requires k <= |frames|
  {
    |EncodeAll(codec, frames[..k])|
  }

  lemma RecordAt(codec: Codec, file: seq<byte>, frames: seq<Stored>, k: nat)
    requires codec.Faithful() && EncodeAll(codec, frames) <= file && k < |frames|
    ensures Position(codec, frames, k + 1) == Position(codec, frames, k) + HEADER + |codec.marshal(frames[k])|
    ensures Position(codec, frames, k + 1) <= |EncodeAll(codec, frames)|
    ensures ReadAt(file, Position(codec, frames, k))
         == if codec.Readable(frames[k]) then Payload(codec.marshal(frames[k]), Position(codec, frames, k + 1))
           else Torn
  {
    hide Encode, EncodeAll, ReadAt;
    var a, e := EncodeAll(codec, frames[..k]), Encode(codec.marshal(frames[k]));
    OneMore(codec, frames, k);
    EncodeAllSplit(codec, frames, k + 1);
    assert file[|a|..|a| + |e|] == file[..|EncodeAll(codec, frames)|][|a|..|a| + |e|] == e;
    ReadBack(file, |a|, codec.marshal(frames[k]));
  }

  lemma OneMore(codec: Codec, frames: seq<Stored>, k: nat)
    requires k < |frames|
    ensures EncodeAll(codec, frames[..k + 1]) == EncodeAll(codec, frames[..k]) + Encode(codec.marshal(frames[k]))
  {
    hide Encode;
    assert frames[..k + 1][..k] == frames[..k];
  }

  // ----- segments

  datatype SegmentFile = SegmentFile(base: nat, bytes: seq<byte>)

  // frames is everything a query ever wrote, numbered from zero.
  ghost predicate Numbered(frames: seq<Stored>) {
    forall i | 0 <= i < |frames| :: frames[i].sequence == i
  }

  // A segment file that holds the frames [base, end) and nothing readable after them.
  ghost predicate HoldsFrames(codec: Codec, seg: SegmentFile, frames: seq<Stored>, end: nat) {
    && seg.base <= end <= |frames|
    && EncodeAll(codec, frames[seg.base..end]) <= seg.bytes
    && !ReadAt(seg.bytes, |EncodeAll(codec, frames[seg.base..end])|).Payload?
  }

  // Where the i-th of m segments begins; next once there is no such segment.
  function BaseOr(segs: seq<SegmentFile>, m: nat, next: nat, i: nat): nat
    requires m <= |segs|
  {
    if i < m then segs[i].base else next
  }

  // Files whose first m segments hold every frame from the first segment's base on, each
  // but the last of the m ending exactly where the next one begins.
  ghost predicate Intact(codec: Codec, segs: seq<SegmentFile>, m: nat, frames: seq<Stored>) {
    && 0 < m <= |segs| && Numbered(frames) && codec.Faithful()
    && (forall i | 0 <= i < m :: HoldsFrames(codec, segs[i], frames, BaseOr(segs, m, |frames|, i + 1)))
    && (forall i | 0 <= i < m - 1 :: segs[i].bytes == EncodeAll(codec, frames[segs[i].base..segs[i + 1].base]))
  }

  // The first frame of [low, high) no reader accepts, or high.
  function FirstUnreadable(codec: Codec, frames: seq<Stored>, low: nat, high: nat): (k: nat)
    requires low <= high <= |frames|
    ensures low <= k <= high && (forall i | low <= i < k :: codec.Readable(frames[i]))
    ensures k < high ==> !codec.Readable(frames[k])
    decreases high - low
  {
    if low == high || !codec.Readable(frames[low]) then low else FirstUnreadable(codec, frames, low + 1, high)
  }

  // ----- replay

  datatype SegmentReplay = SegmentReplay(more: seq<Stored>, torn: bool, mismatch: bool)

  function Max(a: nat, b: nat): nat { if a < b then b else a }
  function Min(a: nat, b: nat): nat { if a < b then a else b }

  // Where reading one segment stops when the frames [from, to) are wanted.
  function Stop(codec: Codec, frames: seq<Stored>, base: nat, end: nat, from: nat, to: nat): nat
    requires base <= end <= |frames|
  {
    Max(from, Min(to, FirstUnreadable(codec, frames, base, end)))
  }

  // Reads one segment file: skips the frames before `from`, delivers those before `to`.
  method ReplaySegment(codec: Codec, seg: SegmentFile, from: nat, to: nat, ghost frames: seq<Stored>, ghost end: nat)
    returns (r: SegmentReplay)
    requires codec.Faithful() && Numbered(frames) && HoldsFrames(codec, seg, frames, end)
    requires seg.base <= end <= |frames| && seg.base <= from < to <= |frames|
    ensures !r.mismatch
    ensures from + |r.more| == Stop(codec, frames, seg.base, end, from, to) <= |frames|
    ensures r.more == frames[from..from + |r.more|]
    ensures r.torn ==> FirstUnreadable(codec, frames, seg.base, end) < end || !CleanEnd(codec, seg, frames, end)
    ensures !r.torn ==> from + |r.more| == to || FirstUnreadable(codec, frames, seg.base, end) == end
  {
    hide ReadAt, Encode, EncodeAll, HoldsFrames, Numbered, FirstUnreadable, CleanEnd, RunPosition;
    ghost var k := 0;
    var position, sequence, ordinal, skipped := 0, from, from - seg.base, 0;
    var more: seq<Stored> := [];
    RunStarts(codec, seg, frames, end);
    while true
      invariant seg.base + k <= FirstUnreadable(codec, frames, seg.base, end) <= end
      invariant position == RunPosition(codec, seg, frames, end, k) <= |seg.bytes|
      invariant skipped == Min(k, ordinal) && sequence == Max(from, seg.base + k)
      invariant sequence <= to && more == frames[from..sequence]
      decreases end - seg.base - k
    {
      FrameAt(codec, seg, frames, end, k);
      match ReadAt(seg.bytes, position)
      case Torn =>
        return SegmentReplay(more, true, false);
      case Ended =>
        return SegmentReplay(more, false, false);
      case Payload(payload, next) =>
        if skipped < ordinal {
          skipped := skipped + 1;
        } else if to <= sequence {
          return SegmentReplay(more, false, false);
        } else {
          var decoded := codec.unmarshal(payload);
          if decoded.None? {
            return SegmentReplay(more, true, false);
          }
          if decoded.value.sequence != sequence {
            return SegmentReplay(more, false, true);
          }
          more := more + [decoded.value];
          OneLonger(frames, from, sequence);
          sequence := sequence + 1;
        }
        position, k := next, k + 1;
    }
  }

  lemma OneLonger(frames: seq<Stored>, from: nat, k: nat)
    requires from <= k < |frames|
    ensures frames[from..k] + [frames[k]] == frames[from..k + 1]
  {
  }

  lemma Longer(frames: seq<Stored>, from: nat, k: nat, to: nat)
    requires from <= k <= to <= |frames|
    ensures frames[from..k] + frames[k..to] == frames[from..to]
  {
  }

  // Whether the file ends right after its frames.
  ghost predicate CleanEnd(codec: Codec, seg: SegmentFile, frames: seq<Stored>, end: nat) {
    && HoldsFrames(codec, seg, frames, end)
    && ReadAt(seg.bytes, |EncodeAll(codec, frames[seg.base..end])|).Ended?
  }

  ghost function RunPosition(codec: Codec, seg: SegmentFile, frames: seq<Stored>, end: nat, k: nat): nat
    requires seg.base + k <= end <= |frames|
  {
    Position(codec, frames[seg.base..end], k)
  }

  lemma RunStarts(codec: Codec, seg: SegmentFile, frames: seq<Stored>, end: nat)
    requires seg.base <= end <= |frames|
    ensures RunPosition(codec, seg, frames, end, 0) == 0
  {
  }

  // What a reader finds at the k-th record's position of a segment: the frame itself,
  // unless no reader accepts it; past the last frame, nothing.
  lemma FrameAt(codec: Codec, seg: SegmentFile, frames: seq<Stored>, end: nat, k: nat)
    requires codec.Faithful() && Numbered(frames) && HoldsFrames(codec, seg, frames, end)
    requires seg.base + k <= FirstUnreadable(codec, frames, seg.base, end)
    requires RunPosition(codec, seg, frames, end, k) <= |seg.bytes|
    ensures var next, r := seg.base + k, ReadAt(seg.bytes, RunPosition(codec, seg, frames, end, k));
      && (r.Payload? <==> next < FirstUnreadable(codec, frames, seg.base, end))
      && (r.Payload? ==> next < end && codec.unmarshal(r.payload) == Some(frames[next]))
      && (r.Payload? ==> frames[next].sequence == next && RunPosition(codec, seg, frames, end, k + 1) == r.next)
      && (r.Ended? ==> next == end)
      && (r.Torn? ==> next < end || !CleanEnd(codec, seg, frames, end))
  {
    hide Encode, EncodeAll, ReadAt;
    var run := frames[seg.base..end];
    if seg.base + k < end {
      RecordAt(codec, seg.bytes, run, k);
      assert run[k] == frames[seg.base + k];
    } else {
      assert run[..k] == run;
    }
  }

  datatype ReplayStatus = Done | Pruned | Misplaced

  // How far replay of [from, to) has come once every segment before `at` is read.
  ghost predicate Reached(codec: Codec, frames: seq<Stored>, low: nat, from: nat, to: nat, at: nat, sequence: nat) {
    && low <= at <= |frames| && low <= from <= sequence <= to <= |frames|
    && (if sequence < to then FirstUnreadable(codec, frames, low, at) == at && sequence == Max(from, Min(to, at))
        else FirstUnreadable(codec, frames, low, to) == to && to <= at)
  }

  // A segment replay gets to that is gone by then: it begins before the end of the
  // frames wanted, and every frame retained before it is readable.
  ghost predicate Missed(codec: Codec, segs: seq<SegmentFile>, m: nat, frames: seq<Stored>, gone: set<nat>,
        to: nat, i: nat)
    requires i < m <= |segs|
  {
    && segs[i].base in gone && segs[i].base < to
    && segs[0].base <= segs[i].base <= |frames|
    && FirstUnreadable(codec, frames, segs[0].base, segs[i].base) == segs[i].base
  }

  ghost predicate MissesSome(codec: Codec, segs: seq<SegmentFile>, m: nat, frames: seq<Stored>, gone: set<nat>, to: nat)
    requires m <= |segs|
  {
    exists i | 0 <= i < m :: Missed(codec, segs, m, frames, gone, to, i)
  }

  // Streams the frames [from, to): everything up to the first unreadable frame of the
  // retained segments, or the news that retention already dropped some of them. Gone
  // are the bases of the segments that retention removes after they were listed.
  method Replay(codec: Codec, segs: seq<SegmentFile>, gone: set<nat>, from: nat, to: nat,
      ghost m: nat, ghost frames: seq<Stored>)
    returns (sent: seq<Stored>, status: ReplayStatus)
    requires Intact(codec, segs, m, frames) && to <= |frames|
    ensures status != Misplaced
    ensures status == Pruned <==>
      from < to && (from < segs[0].base || MissesSome(codec, segs, m, frames, gone, to))
    ensures from < to && from < segs[0].base ==> sent == []
    ensures to <= from ==> status == Done && sent == []
    ensures from < to ==> from + |sent| <= to && sent == frames[from..from + |sent|]
    ensures status == Done && from < to ==>
      && segs[0].base <= from
      && sent == frames[from..Max(from, FirstUnreadable(codec, frames, segs[0].base, to))]
  {
    hide *;
    sent := [];
    var sequence := from;
    IntactBounds(codec, segs, m, frames);
    NotGone(segs, gone, 0);
    ghost var low := segs[0].base;
    if to <= from {
      return [], Done;
    }
    if low <= from {
      ReplayStarts(codec, frames, low, from, to);
    }
    for i := 0 to |segs|
      invariant from <= sequence <= to && sent == frames[from..sequence]
      invariant i == 0 ==> sequence == from
      invariant i > 0 ==> low <= from
      invariant low <= from ==> Reached(codec, frames, low, from, to, BaseOr(segs, m, |frames|, i), sequence)
      invariant NoneGone(segs, gone, i)
    {
      if i > 0 && (to <= sequence || m <= i) {
        IntactEnds(segs, m, |frames|, i);
        ReplayDone(codec, frames, low, from, to, BaseOr(segs, m, |frames|, i), sequence);
        NoneAhead(codec, segs, m, frames, gone, from, to, i, sequence);
      }
      if to <= sequence {
        return sent, Done;
      }
      if i < m {
        IntactSegment(codec, segs, m, frames, i);
      }
      if segs[i].base > sequence {
        GapOnlyFirst(codec, segs, m, frames, from, to, i, sequence);
        return sent, Pruned;
      }
      if segs[i].base in gone {
        MissedHere(codec, segs, m, frames, gone, from, to, i, sequence);
        return sent, Pruned;
      }
      NotGone(segs, gone, i);
      ghost var end := BaseOr(segs, m, |frames|, i + 1);
      var r := ReplaySegment(codec, segs[i], sequence, to, frames, end);
      SegmentStep(codec, segs, m, frames, from, to, i, sequence, sequence + |r.more|, r.torn);
      Longer(frames, from, sequence, sequence + |r.more|);
      sent := sent + r.more;
      if r.mismatch {
        return sent, Misplaced;
      }
      if r.torn {
        NoneAfterTorn(codec, segs, m, frames, gone, to, i);
        return sent, Done;
      }
      sequence := sequence + |r.more|;
    }
    NoneAhead(codec, segs, m, frames, gone, from, to, |segs|, sequence);
    IntactEnds(segs, m, |frames|, |segs|);
    ReplayDone(codec, frames, low, from, to, |frames|, sequence);
    status := Done;
  }

  // The first segments were all there when they were read.
  ghost predicate NoneGone(segs: seq<SegmentFile>, gone: set<nat>, n: nat) {
    forall k | 0 <= k < n && k < |segs| :: segs[k].base !in gone
  }

  lemma NotGone(segs: seq<SegmentFile>, gone: set<nat>, n: nat)
    requires n < |segs|
    ensures NoneGone(segs, gone, n) && segs[n].base !in gone ==> NoneGone(segs, gone, n + 1)
    ensures NoneGone(segs, gone, 0)
  {
  }

  lemma IntactBounds(codec: Codec, segs: seq<SegmentFile>, m: nat, frames: seq<Stored>)
    requires Intact(codec, segs, m, frames)
    ensures 0 < m <= |segs| && codec.Faithful() && Numbered(frames) && segs[0].base <= |frames|
    ensures BaseOr(segs, m, |frames|, 0) == segs[0].base && BaseOr(segs, m, |frames|, m) == |frames|
  {
  }

  lemma IntactEnds(segs: seq<SegmentFile>, m: nat, next: nat, i: nat)
    requires m <= |segs|
    ensures m <= i ==> BaseOr(segs, m, next, i) == next
  {
  }

  lemma IntactSegment(codec: Codec, segs: seq<SegmentFile>, m: nat, frames: seq<Stored>, i: nat)
    requires Intact(codec, segs, m, frames) && i < m
    ensures segs[0].base <= segs[i].base == BaseOr(segs, m, |frames|, i) <= BaseOr(segs, m, |frames|, i + 1) <= |frames|
    ensures HoldsFrames(codec, segs[i], frames, BaseOr(segs, m, |frames|, i + 1))
    ensures i < m - 1 ==> CleanEnd(codec, segs[i], frames, BaseOr(segs, m, |frames|, i + 1))
  {
    if i < m - 1 {
      WholeFileEnds(codec, segs[i], frames, segs[i + 1].base);
    }
    BasesAscend(codec, segs, m, frames, i);
  }

  lemma {:induction false} BasesAscend(codec: Codec, segs: seq<SegmentFile>, m: nat, frames: seq<Stored>, i: nat)
    requires Intact(codec, segs, m, frames) && i < m
    ensures segs[0].base <= segs[i].base
  {
    EndsBefore(codec, segs, m, frames, 0, i);
  }

  lemma {:induction false} EndsBefore(codec: Codec, segs: seq<SegmentFile>, m: nat, frames: seq<Stored>, i: nat, k: nat)
    requires Intact(codec, segs, m, frames) && i <= k < m <= |segs|
    ensures segs[i].base <= segs[k].base && (i < k ==> BaseOr(segs, m, |frames|, i + 1) <= segs[k].base)
    decreases k
  {
    hide *;
    if i < k {
      EndsBefore(codec, segs, m, frames, i, k - 1);
      SegmentEnd(codec, segs, m, frames, k - 1);
    }
  }

  lemma SegmentEnd(codec: Codec, segs: seq<SegmentFile>, m: nat, frames: seq<Stored>, i: nat)
    requires Intact(codec, segs, m, frames) && i < m
    ensures i < m <= |segs|
    ensures segs[i].base <= BaseOr(segs, m, |frames|, i + 1) <= |frames|
    ensures i + 1 < m ==> BaseOr(segs, m, |frames|, i + 1) == segs[i + 1].base
  {
    hide EncodeAll, ReadAt, Numbered;
    assert HoldsFrames(codec, segs[i], frames, BaseOr(segs, m, |frames|, i + 1));
  }

  // Once the frames wanted are delivered no segment that matters is left.
  lemma NoneAhead(codec: Codec, segs: seq<SegmentFile>, m: nat, frames: seq<Stored>, gone: set<nat>,
      from: nat, to: nat, i: nat, sequence: nat)
    requires Intact(codec, segs, m, frames) && i <= |segs| && NoneGone(segs, gone, i)
    requires Reached(codec, frames, segs[0].base, from, to, BaseOr(segs, m, |frames|, i), sequence)
    requires to <= sequence || m <= i
    ensures !MissesSome(codec, segs, m, frames, gone, to)
  {
    hide Intact, FirstUnreadable;
    IntactBounds(codec, segs, m, frames);
    forall k | 0 <= k < m
      ensures !Missed(codec, segs, m, frames, gone, to, k)
    {
      if i <= k {
        EndsBefore(codec, segs, m, frames, i, k);
      }
    }
  }

  // Nor after an unreadable frame.
  lemma NoneAfterTorn(codec: Codec, segs: seq<SegmentFile>, m: nat, frames: seq<Stored>, gone: set<nat>,
        to: nat, i: nat)
    requires Intact(codec, segs, m, frames) && i < m && NoneGone(segs, gone, i + 1)
    requires segs[i].base <= BaseOr(segs, m, |frames|, i + 1) <= |frames|
    requires i < m - 1 ==>
      FirstUnreadable(codec, frames, segs[i].base, BaseOr(segs, m, |frames|, i + 1)) < BaseOr(segs, m, |frames|, i + 1)
    ensures !MissesSome(codec, segs, m, frames, gone, to)
  {
    hide Intact, FirstUnreadable;
    IntactBounds(codec, segs, m, frames);
    forall k | 0 <= k < m
      ensures !Missed(codec, segs, m, frames, gone, to, k)
    {
      if i < k {
        EndsBefore(codec, segs, m, frames, i, k);
        BasesAscend(codec, segs, m, frames, i);
        var u := FirstUnreadable(codec, frames, segs[i].base, BaseOr(segs, m, |frames|, i + 1));
        assert !codec.Readable(frames[u]);
      }
    }
  }

  // A missed segment holds none of the frames wanted exactly when it ends at or before the
  // first of them, or is empty.
  lemma NeedlessIff(codec: Codec, segs: seq<SegmentFile>, m: nat, frames: seq<Stored>, gone: set<nat>,
        from: nat, to: nat, i: nat)
    requires Intact(codec, segs, m, frames) && from < to && i < m && Missed(codec, segs, m, frames, gone, to, i)
    ensures (forall k | from <= k < to :: !HoldsSequence(segs, m, |frames|, i, k))
       <==> BaseOr(segs, m, |frames|, i + 1) <= Max(from, segs[i].base)
  {
    hide Intact, FirstUnreadable;
    IntactBounds(codec, segs, m, frames);
    var k := Max(from, segs[i].base);
    if BaseOr(segs, m, |frames|, i + 1) > k {
      assert HoldsSequence(segs, m, |frames|, i, k);
    }
  }

  ghost predicate HoldsSequence(segs: seq<SegmentFile>, m: nat, next: nat, i: nat, k: nat)
    requires i < m <= |segs|
  {
    segs[i].base <= k < BaseOr(segs, m, next, i + 1)
  }

  // If replay misses only such segments, every frame wanted is in a segment still there:
  // the window it reports as pruned is retained.
  lemma SpuriousPrune(codec: Codec, segs: seq<SegmentFile>, m: nat, frames: seq<Stored>, gone: set<nat>,
        from: nat, to: nat, k: nat)
    returns (j: nat)
    requires Intact(codec, segs, m, frames) && segs[0].base <= from <= k < to <= |frames|
    requires FirstUnreadable(codec, frames, segs[0].base, to) == to
    requires forall i | 0 <= i < m && Missed(codec, segs, m, frames, gone, to, i) ::
      BaseOr(segs, m, |frames|, i + 1) <= from
    ensures j < m && HoldsSequence(segs, m, |frames|, j, k) && segs[j].base !in gone
  {
    hide Intact, FirstUnreadable;
    IntactBounds(codec, segs, m, frames);
    j := 0;
    while j + 1 < m && segs[j + 1].base <= k
      invariant j < m && segs[j].base <= k
    {
      j := j + 1;
    }
    BasesAscend(codec, segs, m, frames, j);
    SegmentEnd(codec, segs, m, frames, j);
    FirstIsFirst(codec, frames, segs[0].base, segs[j].base, segs[j].base);
    assert HoldsSequence(segs, m, |frames|, j, k);
    assert segs[j].base in gone ==> Missed(codec, segs, m, frames, gone, to, j);
  }

  lemma MissedHere(codec: Codec, segs: seq<SegmentFile>, m: nat, frames: seq<Stored>, gone: set<nat>,
      from: nat, to: nat, i: nat, sequence: nat)
    requires Intact(codec, segs, m, frames) && i < m && segs[i].base in gone && sequence < to
    requires Reached(codec, frames, segs[0].base, from, to, segs[i].base, sequence)
    ensures MissesSome(codec, segs, m, frames, gone, to)
  {
    hide Intact, FirstUnreadable;
    IntactBounds(codec, segs, m, frames);
    assert Missed(codec, segs, m, frames, gone, to, i);
  }

  lemma ReplayStarts(codec: Codec, frames: seq<Stored>, low: nat, from: nat, to: nat)
    requires low <= from < to <= |frames|
    ensures Reached(codec, frames, low, from, to, low, from)
  {
  }

  // Only the first segment can begin after the frames wanted.
  lemma GapOnlyFirst(codec: Codec, segs: seq<SegmentFile>, m: nat, frames: seq<Stored>, from: nat, to: nat,
        i: nat, sequence: nat)
    requires Intact(codec, segs, m, frames) && i < m && sequence < to && sequence < segs[i].base
    requires segs[0].base <= from ==> Reached(codec, frames, segs[0].base, from, to, segs[i].base, sequence)
    ensures from < segs[0].base
  {
  }

  lemma ReplayDone(codec: Codec, frames: seq<Stored>, low: nat, from: nat, to: nat, at: nat, sequence: nat)
    requires Reached(codec, frames, low, from, to, at, sequence) && from < to
    requires to <= sequence || at == |frames|
    ensures sequence == to == Max(from, FirstUnreadable(codec, frames, low, to))
  {
  }

  // What reading one more segment does to the replay's progress.
  lemma SegmentStep(codec: Codec, segs: seq<SegmentFile>, m: nat, frames: seq<Stored>, from: nat, to: nat, i: nat,
      sequence: nat, after: nat, torn: bool)
    requires Intact(codec, segs, m, frames) && i < m && from <= sequence < to <= |frames|
    requires segs[i].base <= sequence && (i == 0 ==> sequence == from) && (i > 0 ==> segs[0].base <= from)
    requires segs[0].base <= from ==> Reached(codec, frames, segs[0].base, from, to, segs[i].base, sequence)
    requires segs[i].base <= BaseOr(segs, m, |frames|, i + 1) <= |frames|
    requires after == Stop(codec, frames, segs[i].base, BaseOr(segs, m, |frames|, i + 1), sequence, to)
    requires torn && i < m - 1 ==>
      FirstUnreadable(codec, frames, segs[i].base, BaseOr(segs, m, |frames|, i + 1)) < BaseOr(segs, m, |frames|, i + 1)
    requires !torn && after != to ==>
      FirstUnreadable(codec, frames, segs[i].base, BaseOr(segs, m, |frames|, i + 1)) == BaseOr(segs, m, |frames|, i + 1)
    ensures segs[0].base <= from && sequence <= after <= to
    ensures torn ==> after == Max(from, FirstUnreadable(codec, frames, segs[0].base, to))
    ensures !torn ==> Reached(codec, frames, segs[0].base, from, to, BaseOr(segs, m, |frames|, i + 1), after)
  {
    hide Intact;
    IntactBounds(codec, segs, m, frames);
    var low, end := segs[0].base, BaseOr(segs, m, |frames|, i + 1);
    var u := FirstUnreadable(codec, frames, segs[i].base, end);
    ReadableTwice(codec, frames, low, segs[i].base, end);
    if u < end || to <= end {
      FirstOverall(codec, frames, low, end, to);
    }
  }

  lemma WholeFileEnds(codec: Codec, seg: SegmentFile, frames: seq<Stored>, end: nat)
    requires seg.base <= end <= |frames| && seg.bytes == EncodeAll(codec, frames[seg.base..end])
    ensures ReadAt(seg.bytes, |EncodeAll(codec, frames[seg.base..end])|).Ended?
  {
  }

  lemma ReadableTwice(codec: Codec, frames: seq<Stored>, low: nat, middle: nat, high: nat)
    requires low <= middle <= high <= |frames| && FirstUnreadable(codec, frames, low, middle) == middle
    ensures FirstUnreadable(codec, frames, low, high) == FirstUnreadable(codec, frames, middle, high)
  {
    FirstIsFirst(codec, frames, low, high, FirstUnreadable(codec, frames, middle, high));
  }

  lemma {:induction false} FirstIsFirst(codec: Codec, frames: seq<Stored>, low: nat, high: nat, k: nat)
    requires low <= k <= high <= |frames|
    requires forall i | low <= i < k :: codec.Readable(frames[i])
    requires k < high ==> !codec.Readable(frames[k])
    ensures FirstUnreadable(codec, frames, low, high) == k
  {
  }

  // The first unreadable frame before one bound is the first one before another,
  // as far as both bounds reach.
  lemma FirstOverall(codec: Codec, frames: seq<Stored>, low: nat, end: nat, to: nat)
    requires low <= end <= |frames| && low <= to <= |frames|
    requires FirstUnreadable(codec, frames, low, end) < end || to <= end
    ensures FirstUnreadable(codec, frames, low, to) == Min(to, FirstUnreadable(codec, frames, low, end))
  {
    var u := FirstUnreadable(codec, frames, low, end);
    FirstIsFirst(codec, frames, low, to, Min(to, u));
  }
}
