// The record codec of the segmented process log.
module LogRecord {
  import opened Bytes
  import Crc32c

  const RECORD_MAGIC := 0x52434c32
  const RECORD_HEADER := 44
  const RECORD_FOOTER := 4
  const MAX_FRAME := 65536

  datatype Stream = Stdout | Stderr

  // flags bit 0 marks the first record of a line, bit 1 the last.
  datatype Record = Record(
    offset: nat, lineOffset: nat, timestamp: int, stream: Stream, flags: byte, payload: seq<byte>)
  {
    predicate LineStart() { flags % 2 == 1 }
    predicate LineEnd() { flags / 2 % 2 == 1 }

    // Fits the fixed-width fields of the format.
    ghost predicate Storable() {
      && offset < TWO_64
      && lineOffset < TWO_64
      && -TWO_64 / 2 <= timestamp < TWO_64 / 2
      && |payload| <= MAX_FRAME
    }
  }

  type Stored = r: Record | r.Storable() witness Record(0, 0, 0, Stdout, 0, [])

  function StreamByte(s: Stream): byte { match s case Stdout => 1 case Stderr => 2 }

  // Bytes 8 to 40 of an encoded record: everything the checksum covers before the payload.
  function Covered(r: Record): (bs: seq<byte>)
    requires r.Storable()
    ensures |bs| == 32
  {
    BigEndian(8, r.offset) + BigEndian(8, r.lineOffset) + BigEndian(8, ToUnsigned64(r.timestamp))
    + BigEndian(4, |r.payload|) + [StreamByte(r.stream), r.flags, 0, 0]
  }

  function Total(r: Record): nat { RECORD_HEADER + |r.payload| + RECORD_FOOTER }

  function Header(r: Record): (bs: seq<byte>)
    requires r.Storable()
    ensures |bs| == RECORD_HEADER
  {
    BigEndian(4, RECORD_MAGIC) + BigEndian(4, Total(r)) + Covered(r)
    + BigEndian(4, Crc32c.Checksum(Covered(r) + r.payload))
  }

  function Encode(r: Record): (bs: seq<byte>)
    requires r.Storable()
    ensures |bs| == Total(r)
  {
    Header(r) + r.payload + BigEndian(4, Total(r))
  }

  // Eof is a read past the end of the file, at a record boundary or inside a torn record.
  datatype ReadResult = Got(record: Record, next: nat) | Eof | Corrupt

  function ReadAt(file: seq<byte>, position: nat): (r: ReadResult)
    ensures r.Got? ==> r.next <= |file| && r.next == position + Total(r.record) && r.record.Storable()
  {
    if |file| < position + RECORD_HEADER then Eof else
    if Word32(file, position) != RECORD_MAGIC then Corrupt else
    var total := Word32(file, position + 4);
    var length := Word32(file, position + 32);
    if length > MAX_FRAME || total != RECORD_HEADER + length + RECORD_FOOTER then Corrupt else
    if |file| < position + total then Eof else
    var payload := file[position + RECORD_HEADER..position + RECORD_HEADER + length];
    if Word32(file, position + RECORD_HEADER + length) != total then Corrupt else
    if Word32(file, position + 40) != Crc32c.Checksum(file[position + 8..position + 40] + payload) then Corrupt else
    if file[position + 36] != 1 && file[position + 36] != 2 then Corrupt else
    Got(Record(Word64(file, position + 8), Word64(file, position + 16), ToSigned64(Word64(file, position + 24)),
               if file[position + 36] == 1 then Stdout else Stderr, file[position + 37], payload),
        position + total)
  }

  // What an encoded record's header says, word by word.
  ghost predicate IsHeaderOf(h: seq<byte>, r: Record)
    requires r.Storable()
  {
    && |h| == RECORD_HEADER
    && FromBigEndian(h[0..4]) == RECORD_MAGIC
    && FromBigEndian(h[4..8]) == Total(r)
    && FromBigEndian(h[8..16]) == r.offset
    && FromBigEndian(h[16..24]) == r.lineOffset
    && FromBigEndian(h[24..32]) == ToUnsigned64(r.timestamp)
    && FromBigEndian(h[32..36]) == |r.payload|
    && h[36] == StreamByte(r.stream) && h[37] == r.flags
    && h[8..40] == Covered(r)
    && FromBigEndian(h[40..44]) == Crc32c.Checksum(Covered(r) + r.payload)
  }

  // The values the fixed-width fields decode to.
  lemma EncodedValues(r: Record)
    requires r.Storable()
    ensures FromBigEndian(BigEndian(4, RECORD_MAGIC)) == RECORD_MAGIC
    ensures FromBigEndian(BigEndian(4, Total(r))) == Total(r)
    ensures FromBigEndian(BigEndian(8, r.offset)) == r.offset
    ensures FromBigEndian(BigEndian(8, r.lineOffset)) == r.lineOffset
    ensures FromBigEndian(BigEndian(8, ToUnsigned64(r.timestamp))) == ToUnsigned64(r.timestamp)
    ensures FromBigEndian(BigEndian(4, |r.payload|)) == |r.payload|
    ensures var sum := Crc32c.Checksum(Covered(r) + r.payload); FromBigEndian(BigEndian(4, sum)) == sum
  {
    hide Covered, BigEndian, FromBigEndian;
    Widths();
    BigEndianRoundTrip(4, RECORD_MAGIC);
    BigEndianRoundTrip(4, Total(r));
    BigEndianRoundTrip(8, r.offset);
    BigEndianRoundTrip(8, r.lineOffset);
    BigEndianRoundTrip(8, ToUnsigned64(r.timestamp));
    BigEndianRoundTrip(4, |r.payload|);
    BigEndianRoundTrip(4, Crc32c.Checksum(Covered(r) + r.payload));
  }

  lemma Parts(a: seq<byte>, b: seq<byte>, c: seq<byte>, d: seq<byte>)
    ensures var s := a + b + c + d;
      && s[0..|a|] == a
      && s[|a|..|a| + |b|] == b
      && s[|a| + |b|..|a| + |b| + |c|] == c
      && s[|a| + |b| + |c|..|a| + |b| + |c| + |d|] == d
  {
  }

  lemma CoveredParts(r: Record)
    requires r.Storable()
    ensures var c := Covered(r);
      && c[0..8] == BigEndian(8, r.offset)
      && c[8..16] == BigEndian(8, r.lineOffset)
      && c[16..24] == BigEndian(8, ToUnsigned64(r.timestamp))
      && c[24..28] == BigEndian(4, |r.payload|)
      && c[28] == StreamByte(r.stream) && c[29] == r.flags
  {
    hide BigEndian;
    var rest := BigEndian(4, |r.payload|) + [StreamByte(r.stream), r.flags, 0, 0];
    assert Covered(r) == BigEndian(8, r.offset) + BigEndian(8, r.lineOffset) + BigEndian(8, ToUnsigned64(r.timestamp))
      + rest;
    Parts(BigEndian(8, r.offset), BigEndian(8, r.lineOffset), BigEndian(8, ToUnsigned64(r.timestamp)), rest);
    assert Covered(r)[24..28] == rest[..4];
  }

  lemma EncodedHeader(r: Record)
    requires r.Storable()
    ensures IsHeaderOf(Header(r), r)
  {
    hide BigEndian, FromBigEndian, Covered;
    EncodedValues(r);
    CoveredParts(r);
    var h, c := Header(r), Covered(r);
    Parts(BigEndian(4, RECORD_MAGIC), BigEndian(4, Total(r)), c, BigEndian(4, Crc32c.Checksum(c + r.payload)));
    assert h[8..16] == h[8..40][0..8];
    assert h[16..24] == h[8..40][8..16];
    assert h[24..32] == h[8..40][16..24];
    assert h[32..36] == h[8..40][24..28];
    assert h[36] == h[8..40][28] && h[37] == h[8..40][29];
  }

  lemma EncodedBody(r: Record)
    requires r.Storable()
    ensures Encode(r)[RECORD_HEADER..RECORD_HEADER + |r.payload|] == r.payload
    ensures FromBigEndian(Encode(r)[RECORD_HEADER + |r.payload|..]) == Total(r)
  {
    hide BigEndian, FromBigEndian, Header;
    EncodedValues(r);
    assert Encode(r)[RECORD_HEADER + |r.payload|..] == BigEndian(4, Total(r));
  }

  // A file that holds e from position p on.
  ghost predicate Holds(file: seq<byte>, p: nat, e: seq<byte>) {
    p + |e| <= |file| && file[p..p + |e|] == e
  }

  lemma HoldsSlice(file: seq<byte>, p: nat, e: seq<byte>, i: nat, j: nat)
    requires Holds(file, p, e) && i <= j <= |e|
    ensures file[p + i..p + j] == e[i..j]
    ensures j == i + 4 ==> Word32(file, p + i) == FromBigEndian(e[i..j])
    ensures j == i + 8 ==> Word64(file, p + i) == FromBigEndian(e[i..j])
    ensures i < j ==> file[p + i] == e[i]
  {
    hide FromBigEndian;
    forall k | 0 <= k < j - i
      ensures file[p + i..p + j][k] == e[i..j][k]
    {
      assert file[p..p + |e|][i + k] == file[p + i + k];
    }
    assert i < j ==> file[p..p + |e|][i] == file[p + i];
  }

  // The header fields as the reader extracts them from the file.
  ghost predicate HeaderRead(file: seq<byte>, p: nat, r: Record)
    requires r.Storable()
  {
    && p + RECORD_HEADER <= |file|
    && Word32(file, p) == RECORD_MAGIC
    && Word32(file, p + 4) == Total(r)
    && Word64(file, p + 8) == r.offset
    && Word64(file, p + 16) == r.lineOffset
    && Word64(file, p + 24) == ToUnsigned64(r.timestamp)
    && Word32(file, p + 32) == |r.payload|
    && file[p + 36] == StreamByte(r.stream) && file[p + 37] == r.flags
    && file[p + 8..p + 40] == Covered(r)
    && Word32(file, p + 40) == Crc32c.Checksum(Covered(r) + r.payload)
  }

  lemma HeaderIsRead(file: seq<byte>, p: nat, h: seq<byte>, r: Record)
    requires r.Storable() && IsHeaderOf(h, r) && Holds(file, p, h)
    ensures HeaderRead(file, p, r)
  {
    hide FromBigEndian, Word32, Word64, Covered;
    HoldsSlice(file, p, h, 0, 4);
    HoldsSlice(file, p, h, 4, 8);
    HoldsSlice(file, p, h, 8, 16);
    HoldsSlice(file, p, h, 16, 24);
    HoldsSlice(file, p, h, 24, 32);
    HoldsSlice(file, p, h, 32, 36);
    HoldsSlice(file, p, h, 36, 37);
    HoldsSlice(file, p, h, 37, 38);
    HoldsSlice(file, p, h, 8, 40);
    HoldsSlice(file, p, h, 40, 44);
  }

  lemma ReadsAs(file: seq<byte>, p: nat, r: Record)
    requires r.Storable() && HeaderRead(file, p, r) && p + Total(r) <= |file|
    requires file[p + RECORD_HEADER..p + RECORD_HEADER + |r.payload|] == r.payload
    requires Word32(file, p + RECORD_HEADER + |r.payload|) == Total(r)
    ensures ReadAt(file, p) == Got(r, p + Total(r))
  {
    hide Covered, Word32, Word64;
  }

  // Decoding inverts encoding, wherever in a file the record stands.
  lemma ReadWindow(file: seq<byte>, p: nat, r: Record)
    requires r.Storable() && Holds(file, p, Encode(r))
    ensures ReadAt(file, p) == Got(r, p + Total(r))
  {
    hide Header, Covered, FromBigEndian, BigEndian, Word32, Word64, IsHeaderOf, HeaderRead, ReadAt;
    var e := Encode(r);
    EncodedHeader(r);
    EncodedBody(r);
    assert e[..RECORD_HEADER] == Header(r);
    HoldsSlice(file, p, e, 0, RECORD_HEADER);
    HeaderIsRead(file, p, Header(r), r);
    HoldsSlice(file, p, e, RECORD_HEADER, RECORD_HEADER + |r.payload|);
    HoldsSlice(file, p, e, RECORD_HEADER + |r.payload|, |e|);
    ReadsAs(file, p, r);
  }

  lemma ReadInvertsEncode(before: seq<byte>, r: Record, after: seq<byte>)
    requires r.Storable()
    ensures ReadAt(before + Encode(r) + after, |before|) == Got(r, |before| + Total(r))
  {
    hide Encode, ReadAt;
    ReadWindow(before + Encode(r) + after, |before|, r);
  }

  // Every strict prefix of an encoded record reads as torn, never as corrupt or as a record.
  lemma TornPrefixIsEof(before: seq<byte>, r: Record, kept: nat)
    requires r.Storable() && kept < Total(r)
    ensures ReadAt(before + Encode(r)[..kept], |before|) == Eof
  {
    hide Header, Covered, FromBigEndian, BigEndian, Word32, Word64, IsHeaderOf;
    var file, p := before + Encode(r)[..kept], |before|;
    if RECORD_HEADER <= kept {
      EncodedHeader(r);
      HeaderIsRead(file, p, Header(r), r);
    }
  }
}
