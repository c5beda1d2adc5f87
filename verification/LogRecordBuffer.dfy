// Encoding a log record the way it is done: into one buffer, filled in place.
module LogRecordBuffer {
  import opened Bytes
  import opened LogRecord

  // Puts the n low-order bytes of v at a position, the last of them first.
  method Put(buffer: array<byte>, at: nat, n: nat, v: nat)
    requires at + n <= buffer.Length
    modifies buffer
    ensures buffer[..at + n] == old(buffer[..at]) + BigEndian(n, v)
    ensures buffer[at + n..] == old(buffer[at + n..])
  {
    var k, rest := n, v;
    ghost var before := buffer[..];
    ghost var tail: seq<byte> := [];
    assert buffer[..] == before[..at + n] + tail + before[at + n..];
    while k > 0
      invariant 0 <= k <= n && |tail| == n - k && BigEndian(n, v) == BigEndian(k, rest) + tail
      invariant buffer[..] == before[..at + k] + tail + before[at + n..]
    {
      ghost var now := buffer[..];
      k := k - 1;
      buffer[at + k] := rest % 256;
      assert buffer[..] == now[at + k := rest % 256];
      LastReplaced(before[..at + k + 1], tail + before[at + n..], rest % 256);
      assert before[..at + k + 1] + (tail + before[at + n..]) == now;
      assert before[..at + k + 1][..at + k] == before[..at + k];
      tail := [rest % 256] + tail;
      rest := rest / 256;
    }
    assert buffer[..at + n] == buffer[..][..at + n] == before[..at] + tail;
    assert buffer[at + n..] == buffer[..][at + n..] == before[at + n..];
  }

  lemma LastReplaced(a: seq<byte>, b: seq<byte>, x: byte)
    requires a != []
    ensures (a + b)[|a| - 1 := x] == a[..|a| - 1] + ([x] + b)
  {
  }

  method Copy(buffer: array<byte>, at: nat, bs: seq<byte>)
    requires at + |bs| <= buffer.Length
    modifies buffer
    ensures buffer[..at + |bs|] == old(buffer[..at]) + bs
    ensures buffer[at + |bs|..] == old(buffer[at + |bs|..])
  {
    ghost var before := buffer[..];
    for k := 0 to |bs|
      invariant buffer[..at + k] == before[..at] + bs[..k]
      invariant buffer[at + k..] == before[at + k..]
    {
      ghost var now := buffer[..];
      buffer[at + k] := bs[k];
      assert buffer[..at + k + 1] == buffer[..at + k] + [bs[k]] && buffer[..at + k] == now[..at + k];
      assert bs[..k + 1] == bs[..k] + [bs[k]];
      assert buffer[at + k + 1..] == now[at + k + 1..] == now[at + k..][1..];
    }
    assert bs[..|bs|] == bs;
  }

  // Fills a new buffer with a record: its fields, its payload, the checksum over both, and
  // its length again at the end.
  method EncodeRecord(r: Record) returns (encoded: array<byte>)
    requires r.Storable()
    ensures fresh(encoded) && encoded[..] == Encode(r)
  {
    hide BigEndian, Covered;
    var total := RECORD_HEADER + |r.payload| + RECORD_FOOTER;
    encoded := new byte[total](_ => 0);
    FillFields(encoded, r);
    ghost var fields := encoded[..40];
    Copy(encoded, RECORD_HEADER, r.payload);
    assert encoded[..40] == encoded[..RECORD_HEADER + |r.payload|][..40] == fields;
    assert encoded[8..40] == encoded[..40][8..] == Covered(r);
    assert encoded[RECORD_HEADER..RECORD_HEADER + |r.payload|]
        == encoded[..RECORD_HEADER + |r.payload|][RECORD_HEADER..] == r.payload;
    ghost var body := encoded[RECORD_HEADER..];
    assert body[..|r.payload|] == encoded[RECORD_HEADER..RECORD_HEADER + |r.payload|];
    Put(encoded, 40, 4, Crc32c.Checksum(encoded[8..40] + r.payload));
    assert encoded[..RECORD_HEADER] == Header(r) && encoded[RECORD_HEADER..] == body;
    assert encoded[RECORD_HEADER..RECORD_HEADER + |r.payload|] == body[..|r.payload|] == r.payload;
    assert encoded[..RECORD_HEADER + |r.payload|] == Header(r) + r.payload;
    Put(encoded, RECORD_HEADER + |r.payload|, 4, total);
    assert encoded[..] == encoded[..total] == Header(r) + r.payload + BigEndian(4, total);
  }

  method FillFields(encoded: array<byte>, r: Record)
    requires r.Storable() && encoded.Length == Total(r) && forall i | 0 <= i < encoded.Length :: encoded[i] == 0
    modifies encoded
    ensures encoded[..40] == BigEndian(4, RECORD_MAGIC) + BigEndian(4, Total(r)) + Covered(r)
  {
    hide BigEndian;
    ghost var zeros := encoded[..];
    Put(encoded, 0, 4, RECORD_MAGIC);
    Put(encoded, 4, 4, Total(r));
    assert encoded[8..] == zeros[4..][4..] == zeros[8..];
    Put(encoded, 8, 8, r.offset);
    Put(encoded, 16, 8, r.lineOffset);
    assert encoded[24..] == zeros[8..][8..][8..] == zeros[24..];
    Put(encoded, 24, 8, ToUnsigned64(r.timestamp));
    Put(encoded, 32, 4, |r.payload|);
    assert encoded[36..] == zeros[24..][8..][4..] == zeros[36..];
    ghost var words := encoded[..36];
    assert encoded[38] == zeros[36..][2] && encoded[39] == zeros[36..][3];
    encoded[36] := StreamByte(r.stream);
    encoded[37] := r.flags;
    assert encoded[..36] == words;
    assert encoded[..40] == encoded[..36] + [encoded[36], encoded[37], encoded[38], encoded[39]];
  }
}
