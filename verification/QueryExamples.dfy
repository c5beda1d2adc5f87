// Two inputs on which the query record does not do what it is for.
module QueryExamples {
  import opened Options
  import opened QueryRecord
  import opened QueryWriters
  import opened QueryObserving

  // Two frames in two segments. The first segment goes after it was listed: replay of the
  // second frame alone reports a pruned window, although that frame is still there.
  method SpuriousPruneHappens() returns (status: ReplayStatus, retained: seq<Stored>)
    ensures status == Pruned && |retained| == 1 && retained[0].sequence == 1
  {
    var writer := TwoSegments();
    RecordedIntact(writer.codec, writer.disk, writer.infos, writer.written, !writer.broken);
    writer.DiskIsIntact();
    var gone: set<nat> := {0};
    assert Missed(writer.codec, writer.disk, 2, writer.written, gone, 2, 0);
    var sent;
    sent, status := Replay(writer.codec, writer.disk, gone, 1, 2, 2, writer.written);
    retained, sent := [], [];
    var again;
    retained, again := Replay(writer.codec, writer.disk, {}, 1, 2, 2, writer.written);
    BothReadable(writer.written);
    assert again == Done;
  }

  // A record of two small frames, each in a segment of its own.
  method TwoSegments() returns (writer: QueryWriter)
    ensures fresh(writer) && writer.Valid() && writer.codec == PlainCodec() && !writer.finished
    ensures writer.written == [Frame(0, []), Frame(1, [])] && |writer.disk| == 2
    ensures writer.infos == [Info(0, 16), Info(1, 16)]
  {
    hide Recorded, Serving, Encode, EncodeAll, Codec.Faithful;
    PlainCodecIsFaithful();
    writer := new QueryWriter(PlainCodec(), 1, 1000, 1);
    var first, second := Frame(0, []), Frame(1, []);
    var outcome := writer.Append(first, NoFault, {});
    assert writer.infos == [Info(0, 16)];
    ghost var both := [Info(0, 16), Info(1, 16)];
    assert both[1..] == [Info(1, 16)] && [Info(1, 16)][1..] == [];
    assert TotalBytes(both) == 32;
    assert Counted([Info(0, 16)] + [Info(1, 0)], 16) == both;
    outcome := writer.Append(second, NoFault, {});
    assert writer.infos == [Info(0, 16), Info(1, 16)];
    RecordedBasics(writer.codec, writer.disk, writer.infos, writer.written, !writer.broken);
  }

  // The frame a reader refuses: its record is longer than eight mebibytes.
  function Oversized(): Stored { Frame(0, seq(MAX_RECORD, _ => 0)) }

  // The writer takes an oversized frame. An observer that attaches after it and follows gets
  // nothing from disk, no error, and then the next frame: a gap.
  method GapHappens() returns (replayed: seq<Stored>, pruned: bool, live: Option<Stored>)
    ensures replayed == [] && !pruned
    ensures live.Some? && live.value.sequence == 1
  {
    hide QueryWriter.Valid, Codec.Faithful, Oversized, FirstUnreadable, ReplayReach, Capped, Encode, Codec.Readable;
    var writer := OneOversized();
    OversizedIsTooLong();
    var attach := writer.Attach(0);
    ghost var low;
    replayed, pruned, low := ReadDisk(writer, 0, 1, {});
    FirstIsUnreadable(writer.codec, writer.written, low);
    SmallIsStorable();
    var outcome := writer.Append(Frame(1, []), NoFault, {});
    OfferedToEmpty(1, Frame(1, []));
    live := writer.Receive(attach.id);
  }

  // A record of one oversized frame.
  method OneOversized() returns (writer: QueryWriter)
    ensures fresh(writer) && writer.Valid() && writer.codec == PlainCodec()
    ensures !writer.finished && !writer.broken && writer.attached == {} && writer.maxObservers == 1
    ensures writer.written == [Oversized()] && writer.next == 1 && writer.earliest == 0
  {
    hide Recorded, Serving, Encode, EncodeAll, Codec.Faithful, Oversized;
    PlainCodecIsFaithful();
    writer := new QueryWriter(PlainCodec(), 1, 1000, 1);
    OversizedIsTooLong();
    var outcome := writer.Append(Oversized(), NoFault, {});
    assert writer.attached == {};
  }

  lemma SmallIsStorable()
    ensures Frame(1, []).Storable()
  {
  }

  lemma OfferedToEmpty(start: nat, frame: Stored)
    ensures Channel(start, [], [], Open).Offered(frame) == Channel(start, [], [frame], Open)
  {
  }

  lemma OversizedIsTooLong()
    ensures Oversized().sequence == 0 && !PlainCodec().Readable(Oversized())
  {
  }

  lemma FirstIsUnreadable(codec: Codec, written: seq<Stored>, low: nat)
    requires |written| == 1 && !codec.Readable(written[0]) && low == 0
    ensures ReplayReach(codec, written, low, 0, 1) == 0
  {
  }

  lemma BothReadable(written: seq<Stored>)
    requires written == [Frame(0, []), Frame(1, [])]
    ensures FirstUnreadable(PlainCodec(), written, 0, 2) == 2
  {
  }
}
