// Observing a running query: frames already on disk are replayed, later ones arrive on a
// subscription, whatever the writer and other observers do in between. And the pump that
// feeds the writer.
module QueryObserving {
  import opened Bytes
  import opened QueryRecord
  import opened QueryWriters

  // What can happen to a record while one observer looks on, and the observer's own step.
  datatype Step =
    | Append(frame: Frame, fault: Fault, stuck: set<nat>)
    | Finish
    | Attach(from: nat)
    | Take(id: nat)
    | Receive

  // One step of anyone but the observer: its channel only grows, and nobody takes from it.
  method Other(writer: QueryWriter, step: Step, mine: nat)
    requires writer.Valid() && mine in writer.channels
    modifies writer
    ensures writer.Valid() && mine in writer.channels
    ensures writer.channels[mine].start == old(writer.channels[mine]).start
    ensures writer.channels[mine].received == old(writer.channels[mine]).received
    ensures old(writer.written) <= writer.written && old(writer.earliest) <= writer.earliest
  {
    hide writer.Valid, Capped, Encode;
    match step
    case Append(frame, fault, stuck) =>
      var _ := writer.Append(frame, fault, stuck);
    case Finish => writer.Finish();
    case Attach(from) => var _ := writer.Attach(from);
    case Take(id) =>
      if id in writer.channels && id != mine {
        var _ := writer.Receive(id);
      }
    case Receive =>
  }

  // What one observer ends up with. Cursors are the sequence to ask for next.
  datatype Observation =
    | Refused(why: AttachResult)
    | PrunedMidway
    | Replayed(next: nat)
    | Following(next: nat)
    | Kicked(next: nat)
    | Completed(next: nat)

  // The frames [from, reached) replayed from disk, then the live frames [pinned, end).
  ghost predicate Joined(sent: seq<Stored>, written: seq<Stored>, from: nat, reached: nat, pinned: nat, end: nat) {
    && from <= reached <= pinned <= end <= |written|
    && sent == written[from..reached] + written[pinned..end]
  }

  // How far replay of the frames before the pinned end gets: past every frame readers
  // accept, counting from the first one still retained.
  ghost function ReplayReach(codec: Codec, written: seq<Stored>, low: nat, from: nat, pinned: nat): nat
    requires low <= from <= pinned <= |written|
  {
    Max(from, FirstUnreadable(codec, written, low, pinned))
  }

  lemma ReachIsStable(codec: Codec, written: seq<Stored>, longer: seq<Stored>, low: nat, from: nat, pinned: nat)
    requires low <= from <= pinned <= |written| && written <= longer
    ensures ReplayReach(codec, longer, low, from, pinned) == ReplayReach(codec, written, low, from, pinned) <= pinned
  {
    hide FirstUnreadable;
    assert forall i | 0 <= i < |written| :: longer[i] == written[i];
    FirstIsFirst(codec, longer, low, pinned, FirstUnreadable(codec, written, low, pinned));
  }

  lemma NothingToReplay(codec: Codec, written: seq<Stored>, from: nat)
    requires from <= |written|
    ensures ReplayReach(codec, written, from, from, from) == from && written[from..from] == []
  {
  }

  // Whether reading the listed segments comes across one that is gone.
  ghost predicate Lost(codec: Codec, listed: seq<SegmentFile>, written: seq<Stored>, gone: set<nat>, pinned: nat) {
    MissesSome(codec, listed, |listed|, written, gone, pinned)
  }

  // Reads the frames before the pinned end from disk.
  method ReadDisk(writer: QueryWriter, from: nat, pinned: nat, gone: set<nat>)
    returns (sent: seq<Stored>, pruned: bool, ghost low: nat)
    requires writer.Valid() && from <= pinned <= |writer.written|
    ensures from + |sent| <= pinned && sent == writer.written[from..from + |sent|]
    ensures !pruned ==>
      && low <= from && (low == from == pinned || low == writer.earliest)
      && from + |sent| == ReplayReach(writer.codec, writer.written, low, from, pinned)
    ensures pruned <==>
      && from < pinned
      && (from < writer.earliest || Lost(writer.codec, writer.disk, writer.written, gone, pinned))
  {
    hide writer.Valid, Intact, FirstUnreadable, Encode, MissesSome;
    writer.DiskIsIntact();
    NothingToReplay(writer.codec, writer.written, from);
    low, sent, pruned := from, [], false;
    if from < pinned {
      var status;
      sent, status := Replay(writer.codec, writer.disk, gone, from, pinned, |writer.disk|, writer.written);
      low, pruned := writer.earliest, status == Pruned;
    }
  }

  lemma ChannelFacts(ch: Channel, written: seq<Stored>, attached: bool, finished: bool)
    requires ChannelOk(ch, written, attached, finished) && Numbered(written)
    ensures ch.start + |ch.received| <= |written| && ch.received == written[ch.start..ch.start + |ch.received|]
    ensures ch.queue != [] ==>
      ch.start + |ch.received| < |written| && ch.queue[0] == written[ch.start + |ch.received|]
      && ch.queue[0].sequence == ch.start + |ch.received|
    ensures ch.queue == [] && ch.ending != Lagged ==> ch.start + |ch.received| == |written|
    ensures ch.ending == Settled ==> finished
  {
    var part := written[ch.start..ch.start + |ch.Frames()|];
    assert ch.received == part[..|ch.received|];
    if ch.queue != [] {
      assert part[|ch.received|] == ch.queue[0];
    }
  }

  // Delivers the live frames queued for one observer, until its subscription ends.
  method Follow(writer: QueryWriter, mine: nat, steps: seq<Step>) returns (live: seq<Stored>, outcome: Observation)
    requires writer.Valid() && mine in writer.channels && writer.channels[mine].received == []
    modifies writer
    ensures writer.Valid() && old(writer.written) <= writer.written
      && old(writer.channels[mine]).start + |live| <= |writer.written|
    ensures old(writer.earliest) <= writer.earliest
    ensures live == writer.written[old(writer.channels[mine]).start..old(writer.channels[mine]).start + |live|]
    ensures outcome == Following(old(writer.channels[mine]).start + |live|)
      || outcome == Kicked(old(writer.channels[mine]).start + |live|)
      || (outcome == Completed(old(writer.channels[mine]).start + |live|) && writer.finished
        && outcome.next == writer.next)
  {
    hide writer.Valid, Capped, Encode, ChannelOk, Intact;
    ghost var start := writer.channels[mine].start;
    var delivered := writer.channels[mine].start;
    live := [];
    for i := 0 to |steps|
      invariant writer.Valid() && mine in writer.channels
      invariant old(writer.written) <= writer.written && old(writer.earliest) <= writer.earliest
      invariant writer.channels[mine].start == start && writer.channels[mine].received == live
      invariant delivered == start + |live|
    {
      if steps[i] == Receive {
        writer.ChannelIsWritten(mine);
        writer.DiskIsIntact();
        ChannelFacts(writer.channels[mine], writer.written, writer.channels[mine].ending == Open, writer.finished);
        var ending := writer.channels[mine].ending;
        var frame := writer.Receive(mine);
        if frame.Some? {
          live, delivered := live + [frame.value], frame.value.sequence + 1;
        } else if ending == Lagged {
          return live, Kicked(delivered);
        } else if ending == Settled {
          return live, Completed(writer.next);
        }
      } else {
        Other(writer, steps[i], mine);
      }
    }
    writer.ChannelIsWritten(mine);
    writer.DiskIsIntact();
    ChannelFacts(writer.channels[mine], writer.written, writer.channels[mine].ending == Open, writer.finished);
    outcome := Following(delivered);
  }

  ghost predicate ConsecutiveFrom(sent: seq<Stored>, from: nat) {
    forall i | 0 <= i < |sent| :: sent[i].sequence == from + i
  }

  // The replayed and the live frames are consecutive exactly when readers accept every
  // frame retained before the pinned end, or nothing had to be replayed or came after.
  lemma GapFreeIff(codec: Codec, sent: seq<Stored>, written: seq<Stored>, low: nat, from: nat, pinned: nat, end: nat)
    requires Numbered(written) && low <= from <= pinned <= |written|
    requires Joined(sent, written, from, ReplayReach(codec, written, low, from, pinned), pinned, end)
    ensures ConsecutiveFrom(sent, from) <==>
      from == pinned || pinned == end || forall i | low <= i < pinned :: codec.Readable(written[i])
    ensures ConsecutiveFrom(sent, from) && pinned < end ==> sent == written[from..end]
  {
    hide FirstUnreadable, Codec.Readable;
    var reached := ReplayReach(codec, written, low, from, pinned);
    ReadableReachesPinned(codec, written, low, from, pinned);
    if reached < pinned < end {
      assert sent[reached - from] == written[pinned];
    } else if reached == pinned {
      assert written[from..pinned] + written[pinned..end] == written[from..end];
    }
  }

  // Replay is not cut short when every frame is within the limit readers accept.
  lemma ReadableReachesPinned(codec: Codec, written: seq<Stored>, low: nat, from: nat, pinned: nat)
    requires low <= from <= pinned <= |written|
    ensures ReplayReach(codec, written, low, from, pinned) == pinned <==>
      from == pinned || forall i | low <= i < pinned :: codec.Readable(written[i])
  {
    hide Codec.Readable;
    var k := FirstUnreadable(codec, written, low, pinned);
  }

  // What an observer got of what was written: the frames replay reaches, then the live ones
  // up to an end; and when these are consecutive.
  ghost predicate Delivered(codec: Codec, written: seq<Stored>, sent: seq<Stored>, low: nat, from: nat, pinned: nat,
      end: nat) {
    && low <= from <= pinned <= end <= |written|
    && Joined(sent, written, from, ReplayReach(codec, written, low, from, pinned), pinned, end)
    && (ConsecutiveFrom(sent, from) <==>
        from == pinned || pinned == end || forall i | low <= i < pinned :: codec.Readable(written[i]))
  }

  lemma AllDelivered(codec: Codec, seen: seq<Stored>, written: seq<Stored>, sent: seq<Stored>, live: seq<Stored>,
      low: nat, from: nat, pinned: nat)
    requires Numbered(written) && low <= from <= pinned <= |seen| && seen <= written && pinned + |live| <= |written|
    requires from + |sent| == ReplayReach(codec, seen, low, from, pinned) <= pinned && sent == seen[from..from + |sent|]
    requires live == written[pinned..pinned + |live|]
    ensures Delivered(codec, written, sent + live, low, from, pinned, pinned + |live|)
  {
    hide ReplayReach, Numbered, ConsecutiveFrom, Joined;
    JoinedUp(codec, seen, written, sent, live, low, from, pinned);
    GapFreeIff(codec, sent + live, written, low, from, pinned, pinned + |live|);
  }

  // What others do between attaching and reading the disk.
  method Others(writer: QueryWriter, steps: seq<Step>, mine: nat)
    requires writer.Valid() && mine in writer.channels
    modifies writer
    ensures writer.Valid() && mine in writer.channels
    ensures old(writer.written) <= writer.written && old(writer.earliest) <= writer.earliest
    ensures writer.channels[mine].start == old(writer.channels[mine]).start
    ensures writer.channels[mine].received == old(writer.channels[mine]).received
  {
    hide *;
    for i := 0 to |steps|
      invariant writer.Valid() && mine in writer.channels
      invariant old(writer.written) <= writer.written && old(writer.earliest) <= writer.earliest
      invariant writer.channels[mine].start == old(writer.channels[mine]).start
      invariant writer.channels[mine].received == old(writer.channels[mine]).received
    {
      Other(writer, steps[i], mine);
    }
  }

  // Observes a query from a sequence on. The steps `before` happen between attaching and
  // reading the disk, the steps `after` once the disk is read; `gone` are the segments
  // retention removes while the disk is being read. A finished record no longer changes.
  // When the disk is read it lists the segments `listed`, and `seen` is what was written.
  method Observe(writer: QueryWriter, from: nat, before: seq<Step>, gone: set<nat>, after: seq<Step>)
    returns (sent: seq<Stored>, outcome: Observation, pinned: nat,
      ghost low: nat, ghost listed: seq<SegmentFile>, ghost seen: seq<Stored>)
    requires writer.Valid()
    modifies writer
    ensures writer.Valid() && old(writer.written) <= seen <= writer.written
    ensures pinned == old(writer.next) <= |seen|
    ensures outcome.Refused? <==>
      old(from < writer.earliest || from > writer.next
        || (!writer.finished && |writer.attached| >= writer.maxObservers))
    ensures outcome == Refused(PrunedStart) <==> from < old(writer.earliest)
    ensures outcome == Refused(NotWritten) <==> old(writer.earliest) <= from && old(writer.next) < from
    ensures !outcome.Refused? ==> listed != [] && old(writer.earliest) <= listed[0].base <= writer.earliest
    ensures !outcome.Refused? ==> Intact(writer.codec, listed, |listed|, seen)
    ensures !outcome.Refused? ==>
      (outcome.PrunedMidway? <==>
        from < pinned && (from < listed[0].base || Lost(writer.codec, listed, seen, gone, pinned)))
    ensures outcome.PrunedMidway? ==> from + |sent| <= pinned && sent == writer.written[from..from + |sent|]
    ensures !outcome.Refused? && !outcome.PrunedMidway? ==>
      && (from < pinned ==> low == listed[0].base)
      && Delivered(writer.codec, writer.written, sent, low, from, pinned, outcome.next)
    ensures outcome.Replayed? ==> outcome.next == pinned
    ensures outcome.Completed? ==> writer.finished && outcome.next == writer.next
  {
    hide writer.Valid, Capped, Encode, Intact, FirstUnreadable, ReplayReach, Numbered, Codec.Readable, Lost,
        ConsecutiveFrom, Joined, Delivered;
    sent, pinned, low, listed, seen := [], writer.next, 0, [], writer.written;
    writer.DiskIsIntact();
    var attach := writer.Attach(from);
    match attach
    case Attached(_, mine) =>
      Others(writer, before, mine);
      writer.DiskIsIntact();
      listed, seen := writer.disk, writer.written;
      var pruned;
      sent, pruned, low := ReadDisk(writer, from, pinned, gone);
      if pruned {
        return sent, PrunedMidway, pinned, low, listed, seen;
      }
      var live;
      live, outcome := Follow(writer, mine, after);
      writer.DiskIsIntact();
      AllDelivered(writer.codec, seen, writer.written, sent, live, low, from, pinned);
      sent := sent + live;
    case NotLive(_) =>
      listed := writer.disk;
      var pruned;
      sent, pruned, low := ReadDisk(writer, from, pinned, gone);
      if pruned {
        return sent, PrunedMidway, pinned, low, listed, seen;
      }
      outcome := Replayed(pinned);
      assert writer.written[pinned..pinned] == [];
      AllDelivered(writer.codec, seen, writer.written, sent, [], low, from, pinned);
      assert sent + [] == sent;
    case _ =>
      outcome := Refused(attach);
  }

  // What was replayed from a shorter record and the live frames make up the longer one.
  lemma JoinedUp(codec: Codec, seen: seq<Stored>, written: seq<Stored>, sent: seq<Stored>, live: seq<Stored>,
      low: nat, from: nat, pinned: nat)
    requires low <= from <= pinned <= |seen| && seen <= written && pinned + |live| <= |written|
    requires from + |sent| == ReplayReach(codec, seen, low, from, pinned) <= pinned && sent == seen[from..from + |sent|]
    requires live == written[pinned..pinned + |live|]
    ensures Joined(sent + live, written, from, ReplayReach(codec, written, low, from, pinned), pinned, pinned + |live|)
  {
    hide FirstUnreadable;
    ReachIsStable(codec, seen, written, low, from, pinned);
    assert written[from..from + |sent|] == seen[from..from + |sent|];
  }

  // ----- the turn pump

  // A turn forwards events; in between, observers come and take what is queued for them.
  datatype TurnStep = Forward(body: seq<byte>, fault: Fault, stuck: set<nat>) | Observer(step: Step)

  function Forwarded(steps: seq<TurnStep>): seq<Frame> {
    if steps == [] then []
    else
      var before := Forwarded(steps[..|steps| - 1]);
      match steps[|steps| - 1]
      case Forward(body, _, _) => before + [Frame(|before|, body)]
      case Observer(_) => before
  }

  // An observer comes, or takes what is queued for it.
  method Come(writer: QueryWriter, step: Step)
    requires writer.Valid()
    modifies writer
    ensures writer.Valid() && writer.written == old(writer.written) && writer.next == old(writer.next)
    ensures writer.finished == old(writer.finished) && writer.broken == old(writer.broken)
  {
    hide writer.Valid;
    match step
    case Attach(from) => var _ := writer.Attach(from);
    case Take(id) =>
      if id in writer.channels {
        var _ := writer.Receive(id);
      }
    case _ =>
  }

  lemma NothingForwarded()
    ensures Forwarded([]) == []
  {
  }

  lemma OneMoreForwarded(steps: seq<TurnStep>, i: nat)
    requires i < |steps|
    ensures var before := Forwarded(steps[..i]);
      Forwarded(steps[..i + 1])
        == if steps[i].Forward? then before + [Frame(|before|, steps[i].body)] else before
    ensures steps[i].Forward? ==>
      (MayFail(steps, i) <==> steps[i].fault != NoFault || !Frame(|Forwarded(steps[..i])|, steps[i].body).Storable())
  {
    assert steps[..i + 1][..i] == steps[..i];
  }

  // The pump numbers every event, whether or not it could be written: after the first
  // failed write nothing more is recorded, and the record is a gap-free beginning.
  method RunTurn(writer: QueryWriter, steps: seq<TurnStep>) returns (emitted: seq<Frame>, recorded: nat)
    requires writer.Valid() && writer.next == 0 && !writer.finished && !writer.broken
    modifies writer
    ensures writer.Valid() && writer.finished
    ensures emitted == Forwarded(steps) && recorded <= |emitted| && writer.written == emitted[..recorded]
    ensures (forall i | 0 <= i < |steps| :: !MayFail(steps, i)) ==> recorded == |emitted|
    ensures recorded < |emitted| ==> exists i | 0 <= i < |steps| ::
      MayFail(steps, i) && |Forwarded(steps[..i])| == recorded
  {
    hide writer.Valid, Capped, Encode, Forwarded, MayFail, Numbered, Intact;
    writer.DiskIsIntact();
    NothingForwarded();
    assert steps[..0] == [];
    emitted, recorded := [], 0;
    var sequence := 0;
    ghost var failed := 0;
    for i := 0 to |steps|
      invariant writer.Valid() && !writer.finished
      invariant emitted == Forwarded(steps[..i]) && sequence == |emitted|
      invariant writer.next == recorded <= |emitted| && writer.written == emitted[..recorded]
      invariant recorded == |emitted| ==> !writer.broken
      invariant recorded < |emitted| ==>
        failed < i && MayFail(steps, failed) && |Forwarded(steps[..failed])| == recorded
    {
      OneMoreForwarded(steps, i);
      match steps[i]
      case Forward(body, fault, stuck) =>
        var frame := Frame(sequence, body);
        var outcome := writer.Append(frame, fault, stuck);
        if outcome == Written {
          recorded := recorded + 1;
        } else if recorded == |emitted| {
          failed := i;
        }
        sequence, emitted := sequence + 1, emitted + [frame];
      case Observer(step) => Come(writer, step);
    }
    assert steps[..|steps|] == steps;
    writer.Finish();
  }

  // A forwarded event whose write fails or whose frame cannot be marshalled.
  predicate MayFail(steps: seq<TurnStep>, i: nat)
    requires i < |steps|
  {
    match steps[i]
    case Forward(body, fault, _) => fault != NoFault || !Frame(|Forwarded(steps[..i])|, body).Storable()
    case Observer(_) => false
  }
}
