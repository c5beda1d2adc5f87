// The writer of one running agent query: it appends frames to the record's segment files,
// rotates and drops segments, and fans every frame out to the attached observers.
module QueryWriters {
  import opened Bytes
  import opened QueryRecord
  import opened Options

  const OBSERVER_BUFFER := 1024

  // What the writer remembers of one segment.
  datatype Info = Info(base: nat, bytes: nat)

  function TotalBytes(infos: seq<Info>): nat {
    if infos == [] then 0 else infos[0].bytes + TotalBytes(infos[1..])
  }

  lemma {:induction false} TotalWithLast(infos: seq<Info>)
    requires infos != []
    ensures TotalBytes(infos) == TotalBytes(infos[..|infos| - 1]) + infos[|infos| - 1].bytes
  {
    if |infos| == 1 {
      assert infos[..0] == [];
    } else {
      TotalWithLast(infos[1..]);
      assert infos[1..][..|infos| - 2] == infos[..|infos| - 1][1..];
    }
  }

  // What retention leaves: head segments go while the total is over the cap, the last
  // segment never; a segment that cannot be removed stops it.
  function Capped(infos: seq<Info>, maxBytes: nat, stuck: set<nat>): (kept: seq<Info>)
    requires infos != []
    ensures kept != []
  {
    if TotalBytes(infos) > maxBytes && |infos| > 1 && infos[0].base !in stuck then
      Capped(infos[1..], maxBytes, stuck)
    else infos
  }

  // The cap drops a prefix and no more of it than needed: what is left is within the cap,
  // or a single segment, or headed by one that cannot be removed, and with the last
  // segment dropped it was still over.
  lemma {:induction false} CapDropsJustEnough(infos: seq<Info>, maxBytes: nat, stuck: set<nat>)
    requires infos != []
    ensures var kept := Capped(infos, maxBytes, stuck);
      && |kept| <= |infos| && kept == infos[|infos| - |kept|..]
      && (TotalBytes(kept) <= maxBytes || |kept| == 1 || kept[0].base in stuck)
      && (|kept| < |infos| ==> TotalBytes(infos[|infos| - |kept| - 1..]) > maxBytes)
  {
    hide TotalBytes;
    var kept := Capped(infos, maxBytes, stuck);
    if TotalBytes(infos) > maxBytes && |infos| > 1 && infos[0].base !in stuck {
      CapDropsJustEnough(infos[1..], maxBytes, stuck);
      EndOfTail(infos, |kept|);
      if |kept| < |infos| - 1 {
        EndOfTail(infos, |kept| + 1);
      }
    }
  }

  lemma EndOfTail<T>(s: seq<T>, n: nat)
    requires n < |s|
    ensures s[1..][|s| - 1 - n..] == s[|s| - n..]
  {
  }

  lemma CapStep(infos: seq<Info>, maxBytes: nat, stuck: set<nat>)
    requires infos != []
    ensures TotalBytes(infos) == infos[0].bytes + TotalBytes(infos[1..])
    ensures Capped(infos, maxBytes, stuck)
         == if TotalBytes(infos) > maxBytes && |infos| > 1
           && infos[0].base !in stuck then Capped(infos[1..], maxBytes, stuck)
            else infos
  {
  }

  // ----- the record on disk

  // A segment file that holds the frames from its base to `end`, as its note says; an
  // exact one holds nothing else.
  ghost predicate FileOk(codec: Codec, seg: SegmentFile, info: Info, written: seq<Stored>, end: nat, exact: bool) {
    && seg.base <= end <= |written|
    && info == Info(seg.base, |EncodeAll(codec, written[seg.base..end])|)
    && HoldsFrames(codec, seg, written, end)
    && (exact ==> seg.bytes == EncodeAll(codec, written[seg.base..end]))
  }

  function EndOf(disk: seq<SegmentFile>, next: nat, i: nat): nat {
    if i + 1 < |disk| then disk[i + 1].base else next
  }

  // The segment files and the writer's notes about them agree with everything written.
  ghost predicate Recorded(codec: Codec, disk: seq<SegmentFile>, infos: seq<Info>, written: seq<Stored>, clean: bool) {
    && codec.Faithful() && Numbered(written) && disk != [] && |infos| == |disk|
    && (forall i | 0 <= i < |disk| ::
          FileOk(codec, disk[i], infos[i], written, EndOf(disk, |written|, i), i < |disk| - 1 || clean))
  }

  lemma RecordedBasics(codec: Codec, disk: seq<SegmentFile>, infos: seq<Info>, written: seq<Stored>, clean: bool)
    requires Recorded(codec, disk, infos, written, clean)
    ensures |infos| == |disk| > 0 && codec.Faithful() && Numbered(written)
  {
    hide FileOk;
  }

  lemma RecordedIntact(codec: Codec, disk: seq<SegmentFile>, infos: seq<Info>, written: seq<Stored>, clean: bool)
    requires Recorded(codec, disk, infos, written, clean)
    ensures Intact(codec, disk, |disk|, written)
    ensures forall i | 0 <= i < |disk| :: disk[i].base == infos[i].base <= |written|
  {
    hide EncodeAll, HoldsFrames, Numbered;
    var m := |disk|;
    forall i | 0 <= i < m
      ensures HoldsFrames(codec, disk[i], written, BaseOr(disk, m, |written|, i + 1))
      ensures disk[i].base == infos[i].base <= |written|
    {
      assert FileOk(codec, disk[i], infos[i], written, EndOf(disk, |written|, i), i < m - 1 || clean);
    }
    forall i | 0 <= i < m - 1
      ensures disk[i].base <= BaseOr(disk, m, |written|, i + 1) <= |written|
      ensures disk[i].bytes == EncodeAll(codec, written[disk[i].base..BaseOr(disk, m, |written|, i + 1)])
    {
      assert FileOk(codec, disk[i], infos[i], written, EndOf(disk, |written|, i), true);
    }
  }

  function Last<T>(s: seq<T>): T
    requires s != []
  {
    s[|s| - 1]
  }

  // A new, empty segment after a clean one.
  lemma Rotated(codec: Codec, disk: seq<SegmentFile>, infos: seq<Info>, written: seq<Stored>)
    requires Recorded(codec, disk, infos, written, true)
    ensures Recorded(codec, disk + [SegmentFile(|written|, [])], infos + [Info(|written|, 0)], written, true)
  {
    hide FileOk, Numbered;
    EmptyFile(codec, written);
    var d, f, n := disk + [SegmentFile(|written|, [])], infos + [Info(|written|, 0)], |disk|;
    forall i | 0 <= i < n + 1
      ensures FileOk(codec, d[i], f[i], written, EndOf(d, |written|, i), true)
    {
      if i < n {
        assert FileOk(codec, disk[i], infos[i], written, EndOf(disk, |written|, i), true);
      }
    }
  }

  lemma EmptyFile(codec: Codec, written: seq<Stored>)
    ensures FileOk(codec, SegmentFile(|written|, []), Info(|written|, 0), written, |written|, true)
  {
    assert written[|written|..|written|] == [];
  }

  // The last file with one more record, or with part of one.
  function Extended(disk: seq<SegmentFile>, bytes: seq<byte>): seq<SegmentFile>
    requires disk != []
  {
    disk[|disk| - 1 := Last(disk).(bytes := Last(disk).bytes + bytes)]
  }

  function Counted(infos: seq<Info>, bytes: nat): seq<Info>
    requires infos != []
  {
    infos[|infos| - 1 := Last(infos).(bytes := Last(infos).bytes + bytes)]
  }

  lemma Appended(codec: Codec, disk: seq<SegmentFile>, infos: seq<Info>, written: seq<Stored>, frame: Stored)
    requires Recorded(codec, disk, infos, written, true) && frame.sequence == |written|
    ensures Recorded(codec, Extended(disk, Encode(codec.marshal(frame))),
        Counted(infos, HEADER + |codec.marshal(frame)|),
              written + [frame], true)
  {
    hide FileOk, Encode;
    var n, more := |disk|, written + [frame];
    var d, f := Extended(disk, Encode(codec.marshal(frame))), Counted(infos, HEADER + |codec.marshal(frame)|);
    forall i | 0 <= i < n
      ensures FileOk(codec, d[i], f[i], more, EndOf(d, |more|, i), true)
    {
      assert FileOk(codec, disk[i], infos[i], written, EndOf(disk, |written|, i), true);
      if i < n - 1 {
        EarlierFile(codec, disk[i], infos[i], written, frame, disk[i + 1].base);
      } else {
        LongerFile(codec, disk[i], infos[i], written, frame);
      }
    }
  }

  lemma EarlierFile(codec: Codec, seg: SegmentFile, info: Info, written: seq<Stored>, frame: Stored, end: nat)
    requires FileOk(codec, seg, info, written, end, true)
    ensures FileOk(codec, seg, info, written + [frame], end, true)
  {
    hide EncodeAll, ReadAt;
    assert (written + [frame])[seg.base..end] == written[seg.base..end];
  }

  lemma LongerFile(codec: Codec, seg: SegmentFile, info: Info, written: seq<Stored>, frame: Stored)
    requires FileOk(codec, seg, info, written, |written|, true)
    ensures FileOk(codec, seg.(bytes := seg.bytes + Encode(codec.marshal(frame))),
              info.(bytes := info.bytes + HEADER + |codec.marshal(frame)|), written + [frame], |written| + 1, true)
  {
    hide EncodeAll, ReadAt, Encode;
    var run, more := written[seg.base..], (written + [frame])[seg.base..|written| + 1];
    assert written[seg.base..|written|] == run;
    assert more == run + [frame];
    OneMoreFrame(codec, run, frame);
    AtTheEnd(seg.bytes + Encode(codec.marshal(frame)));
  }

  lemma OneMoreFrame(codec: Codec, run: seq<Stored>, frame: Stored)
    ensures EncodeAll(codec, run + [frame]) == EncodeAll(codec, run) + Encode(codec.marshal(frame))
  {
    assert (run + [frame])[..|run|] == run;
  }

  // A write that fails part-way leaves bytes no reader takes for a record.
  lemma TornAppend(codec: Codec, disk: seq<SegmentFile>, infos: seq<Info>, written: seq<Stored>, frame: Stored,
        kept: nat)
    requires Recorded(codec, disk, infos, written, true) && kept < HEADER + |codec.marshal(frame)|
    ensures Recorded(codec, Extended(disk, Encode(codec.marshal(frame))[..kept]), infos, written, false)
  {
    hide FileOk, Encode;
    var d, n := Extended(disk, Encode(codec.marshal(frame))[..kept]), |disk|;
    forall i | 0 <= i < n
      ensures FileOk(codec, d[i], infos[i], written, EndOf(d, |written|, i), i < n - 1)
    {
      assert FileOk(codec, disk[i], infos[i], written, EndOf(disk, |written|, i), true);
      if i == n - 1 {
        TornFile(codec, disk[i], infos[i], written, frame, kept);
      }
    }
  }

  lemma TornFile(codec: Codec, seg: SegmentFile, info: Info, written: seq<Stored>, frame: Stored, kept: nat)
    requires codec.Faithful() && kept < HEADER + |codec.marshal(frame)|
      && FileOk(codec, seg, info, written, |written|, true)
    ensures FileOk(codec, seg.(bytes := seg.bytes + Encode(codec.marshal(frame))[..kept]), info, written, |written|,
        false)
  {
    hide EncodeAll, ReadAt, Encode;
    TornPrefix(seg.bytes, codec.marshal(frame), kept);
  }

  lemma HeadDropped(codec: Codec, disk: seq<SegmentFile>, infos: seq<Info>, written: seq<Stored>, clean: bool)
    requires Recorded(codec, disk, infos, written, clean) && |disk| > 1
    ensures Recorded(codec, disk[1..], infos[1..], written, clean)
    ensures infos[0].base <= infos[1].base == disk[1].base
  {
    var d, f, n := disk[1..], infos[1..], |disk|;
    HeadBases(codec, disk, infos, written, clean);
    hide FileOk, Codec.Faithful, Numbered;
    forall i | 0 <= i < n - 1
      ensures FileOk(codec, d[i], f[i], written, EndOf(d, |written|, i), i < n - 2 || clean)
    {
      assert EndOf(d, |written|, i) == EndOf(disk, |written|, i + 1);
      assert FileOk(codec, disk[i + 1], infos[i + 1], written, EndOf(disk, |written|, i + 1), i + 1 < n - 1 || clean);
    }
  }

  lemma HeadBases(codec: Codec, disk: seq<SegmentFile>, infos: seq<Info>, written: seq<Stored>, clean: bool)
    requires Recorded(codec, disk, infos, written, clean) && |disk| > 1
    ensures infos[0].base <= infos[1].base == disk[1].base
  {
    hide EncodeAll, HoldsFrames;
    assert FileOk(codec, disk[0], infos[0], written, EndOf(disk, |written|, 0), true);
    assert FileOk(codec, disk[1], infos[1], written, EndOf(disk, |written|, 1), 1 < |disk| - 1 || clean);
  }

  // ----- observers

  datatype Ending = Open | Lagged | Settled

  // A subscription: the frames its observer took, and those still queued for it.
  datatype Channel = Channel(start: nat, received: seq<Stored>, queue: seq<Stored>, ending: Ending) {
    function Frames(): seq<Stored> { received + queue }

    predicate Keeps() { |queue| < OBSERVER_BUFFER }

    // What publishing one more frame does: it is queued, or the observer is kicked.
    function Offered(frame: Stored): Channel {
      if Keeps() then this.(queue := queue + [frame]) else this.(ending := Lagged)
    }
  }

  // A subscription got the frames from its pinned start on, in order and without a gap;
  // all of them so far unless it was kicked.
  ghost predicate ChannelOk(ch: Channel, written: seq<Stored>, attached: bool, finished: bool) {
    && |ch.queue| <= OBSERVER_BUFFER
    && ch.start + |ch.Frames()| <= |written|
    && ch.Frames() == written[ch.start..ch.start + |ch.Frames()|]
    && (attached <==> ch.ending == Open)
    && (ch.ending == Settled ==> finished)
    && (ch.ending != Lagged ==> ch.start + |ch.Frames()| == |written|)
  }

  ghost predicate Serving(channels: map<nat, Channel>, attached: set<nat>, written: seq<Stored>, finished: bool) {
    && attached <= channels.Keys
    && (finished ==> attached == {})
    && (forall id | id in channels :: ChannelOk(channels[id], written, id in attached, finished))
  }

  function Published(channels: map<nat, Channel>, attached: set<nat>, frame: Stored): map<nat, Channel> {
    map id | id in channels :: if id in attached then channels[id].Offered(frame) else channels[id]
  }

  function Keeping(channels: map<nat, Channel>, attached: set<nat>): set<nat>
    requires attached <= channels.Keys
  {
    set id | id in attached && channels[id].Keeps()
  }

  function AllSettled(channels: map<nat, Channel>, attached: set<nat>): map<nat, Channel> {
    map id | id in channels :: if id in attached then channels[id].(ending := Settled) else channels[id]
  }

  lemma PublishServes(channels: map<nat, Channel>, attached: set<nat>, written: seq<Stored>, frame: Stored)
    requires Serving(channels, attached, written, false)
    ensures Serving(Published(channels, attached, frame), Keeping(channels, attached), written + [frame], false)
  {
    hide ChannelOk;
    var after := Published(channels, attached, frame);
    forall id | id in after
      ensures ChannelOk(after[id], written + [frame], id in Keeping(channels, attached), false)
    {
      OfferServes(channels[id], written, frame, id in attached);
    }
  }

  lemma OfferServes(ch: Channel, written: seq<Stored>, frame: Stored, attached: bool)
    requires ChannelOk(ch, written, attached, false)
    ensures ChannelOk(if attached then ch.Offered(frame) else ch, written + [frame], attached && ch.Keeps(), false)
  {
    var more, n := written + [frame], ch.start + |ch.Frames()|;
    assert more[ch.start..n] == written[ch.start..n];
    if attached && ch.Keeps() {
      assert ch.Offered(frame).Frames() == ch.Frames() + [frame];
      assert more[ch.start..n + 1] == written[ch.start..n] + [frame];
    }
  }

  lemma FinishServes(channels: map<nat, Channel>, attached: set<nat>, written: seq<Stored>)
    requires Serving(channels, attached, written, false)
    ensures Serving(AllSettled(channels, attached), {}, written, true)
  {
    hide ChannelOk;
    forall id | id in channels
      ensures ChannelOk(AllSettled(channels, attached)[id], written, false, true)
    {
      EndServes(channels[id], written, id in attached);
    }
  }

  lemma EndServes(ch: Channel, written: seq<Stored>, attached: bool)
    requires ChannelOk(ch, written, attached, false)
    ensures ChannelOk(if attached then ch.(ending := Settled) else ch, written, false, true)
  {
  }

  lemma AttachServes(channels: map<nat, Channel>, attached: set<nat>, written: seq<Stored>, id: nat)
    requires Serving(channels, attached, written, false) && id !in channels
    ensures Serving(channels[id := Channel(|written|, [], [], Open)], attached + {id}, written, false)
  {
    assert written[|written|..|written|] == [];
  }

  // ----- the writer

  datatype Fault = NoFault | RotateFails | WriteTears(kept: nat)
  datatype Outcome = Written | NotEncoded | Finished | OutOfSequence | WriteFailed
  datatype AttachResult =
    | Attached(pinned: nat, id: nat)
    | NotLive(pinned: nat)
    | PrunedStart
    | NotWritten
    | TooManyObservers

  // Whether the last segment is full.
  predicate Full(infos: seq<Info>, segmentBytes: nat)
    requires infos != []
  {
    Last(infos).bytes > 0 && Last(infos).bytes >= segmentBytes
  }

  class QueryWriter {
    const codec: Codec
    const segmentBytes: nat
    const maxBytes: nat
    const maxObservers: nat

    var earliest: nat
    var next: nat
    var finished: bool
    var infos: seq<Info>
    var totalBytes: nat
    var disk: seq<SegmentFile>
    var broken: bool
    var channels: map<nat, Channel>
    var attached: set<nat>
    var lastId: nat
    ghost var written: seq<Stored>

    ghost predicate Valid()
      reads this
    {
      && Recorded(codec, disk, infos, written, !broken)
      && next == |written| && earliest == infos[0].base && totalBytes == TotalBytes(infos)
      && Serving(channels, attached, written, finished)
      && (forall id | id in channels :: id <= lastId)
      && |attached| <= maxObservers
    }

    constructor (codec: Codec, segmentBytes: nat, maxBytes: nat, maxObservers: nat)
      requires codec.Faithful()
      ensures Valid() && next == 0 && earliest == 0 && !finished && !broken && channels == map[] && attached == {}
      ensures this.codec == codec && this.segmentBytes == segmentBytes && this.maxBytes == maxBytes
      ensures this.maxObservers == maxObservers && infos == [Info(0, 0)] && disk == [SegmentFile(0, [])]
    {
      hide FileOk;
      this.codec, this.segmentBytes, this.maxBytes, this.maxObservers := codec, segmentBytes, maxBytes, maxObservers;
      earliest, next, finished, infos, totalBytes := 0, 0, false, [Info(0, 0)], 0;
      disk, broken := [SegmentFile(0, [])], false;
      channels, attached, lastId, written := map[], {}, 0, [];
      new;
      EmptyFile(codec, []);
    }

    method Rotate(fault: Fault) returns (ok: bool)
      requires Recorded(codec, disk, infos, written, !broken) && next == |written| && totalBytes == TotalBytes(infos)
      modifies `disk, `infos
      ensures ok <==> !broken && fault != RotateFails
      ensures infos == if ok then old(infos) + [Info(next, 0)] else old(infos)
      ensures disk == if ok then old(disk) + [SegmentFile(next, [])] else old(disk)
      ensures Recorded(codec, disk, infos, written, !broken) && totalBytes == TotalBytes(infos)
    {
      hide FileOk, Numbered;
      ok := false;
      if !broken && fault != RotateFails {
        Rotated(codec, disk, infos, written);
        ok, disk, infos := true, disk + [SegmentFile(next, [])], infos + [Info(next, 0)];
        TotalWithLast(infos);
        assert infos[..|infos| - 1] == old(infos);
      }
    }

    method WriteRecord(frame: Stored, fault: Fault) returns (ok: bool)
      requires Recorded(codec, disk, infos, written, !broken) && next == |written| && totalBytes == TotalBytes(infos)
      requires frame.sequence == next
      modifies `disk, `infos, `broken, `written, `next, `totalBytes
      ensures ok <==> !old(broken) && !fault.WriteTears?
      ensures ok ==> infos == Counted(old(infos), HEADER + |codec.marshal(frame)|) && written == old(written) + [frame]
      ensures !ok ==> infos == old(infos) && written == old(written) && broken
      ensures ok ==> !broken
      ensures Recorded(codec, disk, infos, written, !broken) && next == |written| && totalBytes == TotalBytes(infos)
      ensures |disk| == old(|disk|) && disk[0].base == old(disk[0].base) && infos[0].base == old(infos[0].base)
    {
      hide FileOk, Numbered, Encode;
      ok := false;
      if broken {
        return;
      }
      var payload := codec.marshal(frame);
      if fault.WriteTears? {
        var kept := Min(fault.kept, HEADER + |payload| - 1);
        TornAppend(codec, disk, infos, written, frame, kept);
        disk, broken := Extended(disk, Encode(payload)[..kept]), true;
        return;
      }
      Appended(codec, disk, infos, written, frame);
      disk, infos := Extended(disk, Encode(payload)), Counted(infos, HEADER + |payload|);
      TotalWithLast(infos);
      TotalWithLast(old(infos));
      assert infos[..|infos| - 1] == old(infos)[..|infos| - 1];
      totalBytes, next, written, ok := totalBytes + HEADER + |payload|, next + 1, written + [frame], true;
    }

    // Drops whole head segments while the record is over its cap.
    method EnforceCap(stuck: set<nat>)
      requires Recorded(codec, disk, infos, written, !broken) && totalBytes == TotalBytes(infos)
        && earliest == infos[0].base
      modifies `disk, `infos, `totalBytes, `earliest
      ensures infos == Capped(old(infos), maxBytes, stuck)
      ensures Recorded(codec, disk, infos, written, !broken) && totalBytes == TotalBytes(infos)
        && earliest == infos[0].base
      ensures old(earliest) <= earliest
    {
      hide Recorded, Capped, TotalBytes;
      RecordedBasics(codec, disk, infos, written, !broken);
      while totalBytes > maxBytes && |infos| > 1
        invariant |infos| == |disk| > 0
        invariant Recorded(codec, disk, infos, written, !broken)
        invariant totalBytes == TotalBytes(infos) && earliest == infos[0].base && old(earliest) <= earliest
        invariant Capped(infos, maxBytes, stuck) == Capped(old(infos), maxBytes, stuck)
        decreases |infos|
      {
        CapStep(infos, maxBytes, stuck);
        if infos[0].base in stuck {
          return;
        }
        HeadDropped(codec, disk, infos, written, !broken);
        totalBytes := totalBytes - infos[0].bytes;
        disk, infos := disk[1..], infos[1..];
        earliest := infos[0].base;
      }
      CapStep(infos, maxBytes, stuck);
    }

    // Forwards one frame to every observer, kicking those that cannot keep up.
    method Publish(frame: Stored)
      requires attached <= channels.Keys
      modifies `channels, `attached
      ensures channels == Published(old(channels), old(attached), frame)
      ensures attached == Keeping(old(channels), old(attached))
    {
      var rest := attached;
      while rest != {}
        invariant rest <= attached <= old(attached) && channels.Keys == old(channels.Keys)
        invariant forall id | id in rest :: channels[id] == old(channels)[id]
        invariant forall id | id in channels ::
            channels[id] == if id in old(attached) && id !in rest then old(channels)[id].Offered(frame)
              else old(channels)[id]
        invariant forall id | id in old(attached) :: id in attached <==> id in rest || old(channels)[id].Keeps()
      {
        var id :| id in rest;
        if channels[id].Keeps() {
          channels := channels[id := channels[id].(queue := channels[id].queue + [frame])];
        } else {
          attached := attached - {id};
          channels := channels[id := channels[id].(ending := Lagged)];
        }
        rest := rest - {id};
      }
      assert attached == Keeping(old(channels), old(attached));
    }

    // Persists one frame and forwards it to every observer.
    method Append(frame: Frame, fault: Fault, stuck: set<nat>) returns (outcome: Outcome)
      requires Valid()
      modifies this
      ensures Valid()
      ensures outcome ==
        if !frame.Storable() then NotEncoded
        else if old(finished) then Finished
        else if frame.sequence != old(next) then OutOfSequence
        else if old(broken) || fault.WriteTears?
          || (fault == RotateFails && Full(old(infos), segmentBytes)) then WriteFailed
        else Written
      ensures outcome == Written ==>
        && frame.Storable() && !broken && written == old(written) + [frame] && next == old(next) + 1
        && infos == Capped(Counted(if Full(old(infos), segmentBytes) then old(infos) + [Info(old(next), 0)]
          else old(infos),
                             HEADER + |codec.marshal(frame)|), maxBytes, stuck)
        && channels == Published(old(channels), old(attached), frame)
        && attached == Keeping(old(channels), old(attached))
      ensures outcome != Written ==>
        && written == old(written) && next == old(next) && earliest == old(earliest) && totalBytes == old(totalBytes)
        && channels == old(channels) && attached == old(attached)
      ensures outcome != Written && outcome != WriteFailed ==>
        disk == old(disk) && infos == old(infos) && broken == old(broken)
      ensures old(earliest) <= earliest && finished == old(finished) && lastId == old(lastId)
      ensures old(broken) ==> broken
    {
      hide Recorded, Serving, TotalBytes, Capped, Encode;
      if !frame.Storable() {
        return NotEncoded;
      }
      if finished {
        return Finished;
      }
      if frame.sequence != next {
        return OutOfSequence;
      }
      RecordedBasics(codec, disk, infos, written, !broken);
      if Full(infos, segmentBytes) {
        var ok := Rotate(fault);
        if !ok {
          return WriteFailed;
        }
      }
      RecordedBasics(codec, disk, infos, written, !broken);
      ServingKeys(channels, attached, written, finished);
      var ok := WriteRecord(frame, fault);
      if !ok {
        return WriteFailed;
      }
      EnforceCap(stuck);
      PublishServes(channels, attached, old(written), frame);
      Publish(frame);
      FewerAttached(old(attached), attached, maxObservers);
      outcome := Written;
    }

    // Pins the record's end and subscribes to what is written after it.
    method Attach(from: nat) returns (r: AttachResult)
      requires Valid()
      modifies `channels, `attached, `lastId
      ensures Valid()
      ensures r ==
        if from < earliest then PrunedStart
        else if from > next then NotWritten
        else if finished then NotLive(next)
        else if |old(attached)| >= maxObservers then TooManyObservers
        else AttachResult.Attached(next, old(lastId) + 1)
      ensures r.Attached? ==>
        && r.id !in old(channels) && r.id == lastId && attached == old(attached) + {r.id}
        && channels == old(channels)[r.id := Channel(next, [], [], Open)]
      ensures !r.Attached? ==> channels == old(channels) && attached == old(attached) && lastId == old(lastId)
    {
      hide Recorded, Serving, TotalBytes;
      if from < earliest {
        return PrunedStart;
      }
      if from > next {
        return NotWritten;
      }
      if finished {
        return NotLive(next);
      }
      if |attached| >= maxObservers {
        return TooManyObservers;
      }
      ServingKeys(channels, attached, written, finished);
      AttachServes(channels, attached, written, lastId + 1);
      lastId := lastId + 1;
      channels, attached := channels[lastId := Channel(next, [], [], Open)], attached + {lastId};
      r := AttachResult.Attached(next, lastId);
    }

    // Ends the record; only the first call does anything.
    method Finish()
      requires Valid()
      modifies `channels, `attached, `finished
      ensures Valid() && finished
      ensures channels == if old(finished) then old(channels) else AllSettled(old(channels), old(attached))
      ensures attached == {}
    {
      hide Recorded, Serving, TotalBytes;
      ServingKeys(channels, attached, written, finished);
      if !finished {
        FinishServes(channels, attached, written);
        channels, attached, finished := AllSettled(channels, attached), {}, true;
      }
    }

    lemma IsRecorded()
      requires Valid()
      ensures Recorded(codec, disk, infos, written, !broken)
    {
    }

    // The disk is intact, and retention never passes the end of the record.
    lemma DiskIsIntact()
      requires Valid()
      ensures Intact(codec, disk, |disk|, written) && Numbered(written)
      ensures disk != [] && disk[0].base == earliest <= next == |written|
    {
      hide Intact, FileOk, Serving;
      RecordedIntact(codec, disk, infos, written, !broken);
    }

    // What an observer was given is what was written from its pinned start on.
    lemma ChannelIsWritten(id: nat)
      requires Valid() && id in channels
      ensures ChannelOk(channels[id], written, channels[id].ending == Open, finished)
    {
      hide ChannelOk, Recorded;
      assert ChannelOk(channels[id], written, id in attached, finished);
      AttachedIsOpen(channels[id], written, id in attached, finished);
    }

    // An observer takes the next frame queued for it; None once its queue is empty.
    method Receive(id: nat) returns (frame: Option<Stored>)
      requires Valid() && id in channels
      modifies `channels
      ensures Valid()
      ensures frame.None? <==> old(channels)[id].queue == []
      ensures frame.None? ==> channels == old(channels)
      ensures frame.Some? ==> var ch := old(channels)[id];
        && frame.value == ch.queue[0]
        && channels == old(channels)[id := ch.(received := ch.received + [ch.queue[0]], queue := ch.queue[1..])]
    {
      hide Recorded, TotalBytes;
      var ch := channels[id];
      if ch.queue == [] {
        return None;
      }
      frame := Some(ch.queue[0]);
      channels := channels[id := ch.(received := ch.received + [ch.queue[0]], queue := ch.queue[1..])];
      assert channels[id].Frames() == ch.Frames();
    }
  }

  lemma AttachedIsOpen(ch: Channel, written: seq<Stored>, attached: bool, finished: bool)
    requires ChannelOk(ch, written, attached, finished)
    ensures attached <==> ch.ending == Open
  {
  }

  lemma ServingKeys(channels: map<nat, Channel>, attached: set<nat>, written: seq<Stored>, finished: bool)
    requires Serving(channels, attached, written, finished)
    ensures attached <= channels.Keys && (finished ==> attached == {})
  {
  }

  lemma {:induction false} FewerAttached(all: set<nat>, some: set<nat>, limit: nat)
    requires some <= all && |all| <= limit
    ensures |some| <= limit
  {
    assert all == some + (all - some);
  }
}
