/** The record fragmenter of src/tls/fragmenter.rs. */
module Fragmenter {
  import opened Bytes
  import opened RecordLayer

  datatype TlsRecordSlice = TlsRecordSlice(header: bytes, payload: bytes) {
    /** The bytes the slice stands for on the wire. */
    function Wire(): bytes {
      header + payload
    }
  }

  function BuildTlsHeader(contentType: byte, major: byte, minor: byte, payloadLen: nat): bytes {
    var lenBytes := U16(payloadLen);
    [contentType, major, minor, lenBytes[0], lenBytes[1]]
  }

  function SliceWith(contentType: byte, major: byte, minor: byte, payload: bytes): TlsRecordSlice {
    TlsRecordSlice(BuildTlsHeader(contentType, major, minor, |payload|), payload)
  }

  function FragmentAtOffset(data: bytes, offset: nat): (TlsRecordSlice, Option<TlsRecordSlice>) {
    if |data| <= HEADER_SIZE || offset <= HEADER_SIZE || offset >= |data| then
      var contentType := if |data| > 0 then data[0] else 0x16;
      var major := if |data| > 1 then data[1] else 0x03;
      var minor := if |data| > 2 then data[2] else 0x01;
      var payload := if |data| >= HEADER_SIZE then data[HEADER_SIZE..] else [];
      (SliceWith(contentType, major, minor, payload), None)
    else
      (SliceWith(data[0], data[1], data[2], data[HEADER_SIZE..offset]),
       Some(SliceWith(data[0], data[1], data[2], data[offset..])))
  }

  /** The content type and version the pieces are given; the defaults stand in for bytes that are missing. */
  function TypeAndVersion(data: bytes): (byte, byte, byte) {
    (if |data| > 0 then data[0] else 0x16, if |data| > 1 then data[1] else 0x03, if |data| > 2 then data[2] else 0x01)
  }

  function PayloadOf(data: bytes): bytes {
    if |data| >= HEADER_SIZE then data[HEADER_SIZE..] else []
  }

  /** A TLS reader takes the piece for exactly one whole record of this type and version. */
  predicate ReadsAsRecord(piece: TlsRecordSlice, kind: (byte, byte, byte)) {
    Deframe(piece.Wire()) == Deframed([Record(kind.0, kind.1, kind.2, piece.payload)], [])
  }

  /**
    For all data and every offset: the pieces carry exactly the payload in order; a second one, non-empty
    like the first, exists just when the offset falls strictly inside; and a TLS reader takes each for
    one whole record of the data's own type and version exactly when its length fits 16 bits.
   */
  lemma FragmentsCarryPayload(data: bytes, offset: nat)
    ensures var (r1, r2) := FragmentAtOffset(data, offset);
      && (r2.Some? <==> HEADER_SIZE < offset < |data|)
      && r1.payload + (if r2.Some? then r2.value.payload else []) == PayloadOf(data)
      && (r2.Some? ==> |r1.payload| == offset - HEADER_SIZE > 0 && r2.value.payload != [])
      && (ReadsAsRecord(r1, TypeAndVersion(data)) <==> |r1.payload| < TWO_TO_THE_16)
      && (r2.Some? ==> (ReadsAsRecord(r2.value, TypeAndVersion(data)) <==> |r2.value.payload| < TWO_TO_THE_16))
  {
    hide BuildTlsHeader, ReadsAsRecord;
    var (r1, r2) := FragmentAtOffset(data, offset);
    var (contentType, major, minor) := TypeAndVersion(data);
    SliceReadBackExactly(contentType, major, minor, r1.payload);
    if r2.Some? {
      SliceReadBackExactly(contentType, major, minor, r2.value.payload);
      TakeDrop(data[HEADER_SIZE..], offset - HEADER_SIZE);
      HalvesOf(data, offset);
    }
  }

  lemma SliceReadBackExactly(contentType: byte, major: byte, minor: byte, payload: bytes)
    ensures ReadsAsRecord(SliceWith(contentType, major, minor, payload), (contentType, major, minor))
      <==> |payload| < TWO_TO_THE_16
  {
    if |payload| < TWO_TO_THE_16 {
      SliceReadBack(contentType, major, minor, payload);
    } else {
      hide Deframe;
      FragmentsBounded(SliceWith(contentType, major, minor, payload).Wire());
      var r := Record(contentType, major, minor, payload);
      assert r in [r];
    }
  }

  lemma HalvesOf(data: bytes, offset: nat)
    requires HEADER_SIZE <= offset <= |data|
    ensures data[HEADER_SIZE..][..offset - HEADER_SIZE] == data[HEADER_SIZE..offset]
    ensures data[HEADER_SIZE..][offset - HEADER_SIZE..] == data[offset..]
  {
  }

  lemma SliceReadBack(contentType: byte, major: byte, minor: byte, payload: bytes)
    requires |payload| < TWO_TO_THE_16
    ensures Deframe(SliceWith(contentType, major, minor, payload).Wire())
         == Deframed([Record(contentType, major, minor, payload)], [])
  {
    var r := Record(contentType, major, minor, payload);
    SliceIsFrame(contentType, major, minor, payload);
    hide Frame, BuildTlsHeader, Deframe;
    FrameSingle(r);
    DeframeEmpty();
    DeframeInvertsFrame([r], []);
  }

  lemma SliceIsFrame(contentType: byte, major: byte, minor: byte, payload: bytes)
    ensures SliceWith(contentType, major, minor, payload).Wire() == Frame(Record(contentType, major, minor, payload))
  {
  }

  lemma FrameSingle(r: Record)
    ensures FrameAll([r]) + [] == Frame(r)
  {
    assert FrameAll([r][1..]) == [];
  }

  /**
    Splitting one whole record and sending anything after it: the receiver reads the record's two
    halves and then exactly what it would have read.
   */
  lemma SplitRecordStream(record: bytes, offset: nat, tail: bytes)
    requires HEADER_SIZE < offset < |record| == HEADER_SIZE + Be16(record[3], record[4])
    ensures var (r1, r2) := FragmentAtOffset(record, offset);
      var sent, received := Deframe(r1.Wire() + r2.value.Wire() + tail), Deframe(record + tail);
      var whole := Record(record[0], record[1], record[2], record[HEADER_SIZE..]);
      var k := offset - HEADER_SIZE;
      && received.records == [whole] + Deframe(tail).records
      && sent.records == [whole.(fragment := whole.fragment[..k]), whole.(fragment := whole.fragment[k..])]
                         + Deframe(tail).records
      && sent.rest == received.rest == Deframe(tail).rest
  {
    hide Deframe, Frame, FragmentAtOffset;
    var whole := Record(record[0], record[1], record[2], record[HEADER_SIZE..]);
    WholeRecord(record);
    DeframeFrame(whole, tail, record + tail);
    var k := offset - HEADER_SIZE;
    var (r1, r2) := FragmentAtOffset(record, offset);
    HalvesAreFrames(record, offset);
    TwoFrames(whole.(fragment := whole.fragment[..k]), whole.(fragment := whole.fragment[k..]), tail);
  }

  lemma HalvesAreFrames(record: bytes, offset: nat)
    requires HEADER_SIZE < offset < |record|
    ensures var (r1, r2) := FragmentAtOffset(record, offset);
      var whole := Record(record[0], record[1], record[2], record[HEADER_SIZE..]);
      var k := offset - HEADER_SIZE;
      && r2.Some?
      && r1.Wire() == Frame(whole.(fragment := whole.fragment[..k]))
      && r2.value.Wire() == Frame(whole.(fragment := whole.fragment[k..]))
  {
    hide Frame, BuildTlsHeader;
    HalvesOf(record, offset);
    SliceIsFrame(record[0], record[1], record[2], record[HEADER_SIZE..offset]);
    SliceIsFrame(record[0], record[1], record[2], record[offset..]);
  }

  lemma TwoFrames(a: Record, b: Record, tail: bytes)
    requires |a.fragment| < TWO_TO_THE_16 && |b.fragment| < TWO_TO_THE_16
    ensures Deframe(Frame(a) + Frame(b) + tail) == Deframed([a, b] + Deframe(tail).records, Deframe(tail).rest)
  {
    assert [a, b][1..] == [b];
    assert FrameAll([b]) == Frame(b);
    assert FrameAll([a, b]) == Frame(a) + Frame(b);
    DeframeFrames([a, b], tail);
  }
}
