/**
  How a TLS endpoint reads a byte stream as records (section 5.1 of RFC 8446). This is the
  receiver's view, written without reference to the proxy, against which splitting is judged.
 */
module RecordLayer {
  import opened Bytes

  const HEADER_SIZE := 5

  datatype Record = Record(contentType: byte, major: byte, minor: byte, fragment: bytes)

  /** The complete records of a stream, and the bytes of the record still being received. */
  datatype Deframed = Deframed(records: seq<Record>, rest: bytes)

  predicate StartsWithRecord(s: bytes) {
    |s| >= HEADER_SIZE && |s| >= HEADER_SIZE + Be16(s[3], s[4])
  }

  function Deframe(s: bytes): Deframed
    decreases |s|
  {
    if !StartsWithRecord(s) then Deframed([], s)
    else
      var end := HEADER_SIZE + Be16(s[3], s[4]);
      var d := Deframe(s[end..]);
      Deframed([Record(s[0], s[1], s[2], s[HEADER_SIZE..end])] + d.records, d.rest)
  }

  function Header(contentType: byte, major: byte, minor: byte, length: nat): (h: bytes)
    ensures |h| == HEADER_SIZE
    ensures h[0] == contentType && h[1] == major && h[2] == minor
    ensures Be16(h[3], h[4]) == length % TWO_TO_THE_16
  {
    [contentType, major, minor] + U16(length)
  }

  function Frame(r: Record): bytes {
    Header(r.contentType, r.major, r.minor, |r.fragment|) + r.fragment
  }

  function FrameAll(rs: seq<Record>): bytes {
    if rs == [] then [] else Frame(rs[0]) + FrameAll(rs[1..])
  }

  /** One content byte as the receiver takes it: the byte with its record's type and version. */
  datatype ContentByte = ContentByte(contentType: byte, major: byte, minor: byte, value: byte)

  function RecordContent(r: Record): (c: seq<ContentByte>)
    ensures |c| == |r.fragment|
  {
    seq(|r.fragment|, i requires 0 <= i < |r.fragment| =>
      ContentByte(r.contentType, r.major, r.minor, r.fragment[i]))
  }

  /** The content of a record sequence with the record boundaries forgotten. */
  function Content(rs: seq<Record>): seq<ContentByte> {
    if rs == [] then [] else RecordContent(rs[0]) + Content(rs[1..])
  }

  /** Two streams a receiver cannot tell apart by content type, version, content or pending bytes. */
  predicate SameContent(a: bytes, b: bytes) {
    && Content(Deframe(a).records) == Content(Deframe(b).records)
    && Deframe(a).rest == Deframe(b).rest
  }

  /** Nothing but complete records without content. */
  predicate EmptyRecords(s: bytes) {
    s == [] || (|s| >= HEADER_SIZE && Be16(s[3], s[4]) == 0 && EmptyRecords(s[HEADER_SIZE..]))
  }

  // ---- Facts about deframing -------------------------------------------------------------

  /** A byte string that is exactly one record, seen as that record. */
  lemma WholeRecord(s: bytes)
    requires |s| >= HEADER_SIZE && |s| == HEADER_SIZE + Be16(s[3], s[4])
    ensures Frame(Record(s[0], s[1], s[2], s[HEADER_SIZE..])) == s
  {
    U16OfBe16(s[3], s[4]);
  }

  lemma DeframeFrame(r: Record, tail: bytes, s: bytes)
    requires |r.fragment| < TWO_TO_THE_16 && s == Frame(r) + tail
    ensures Deframe(s) == Deframed([r] + Deframe(tail).records, Deframe(tail).rest)
  {
    hide Be16, U16, Header;
    var end := HEADER_SIZE + |r.fragment|;
    var header := Header(r.contentType, r.major, r.minor, |r.fragment|);
    assert s[..HEADER_SIZE] == header && s[3] == header[3] && s[4] == header[4];
    assert s[HEADER_SIZE..end] == r.fragment;
    assert s[end..] == tail;
  }

  /** Framed records are read back exactly, whatever the bytes after them. */
  lemma {:induction false} DeframeFrames(rs: seq<Record>, tail: bytes)
    requires forall r :: r in rs ==> |r.fragment| < TWO_TO_THE_16
    ensures Deframe(FrameAll(rs) + tail) == Deframed(rs + Deframe(tail).records, Deframe(tail).rest)
  {
    if rs == [] {
      assert FrameAll(rs) + tail == tail;
      assert rs + Deframe(tail).records == Deframe(tail).records;
    } else {
      var more := FrameAll(rs[1..]) + tail;
      DeframeFrames(rs[1..], tail);
      ConcatAssociative(Frame(rs[0]), FrameAll(rs[1..]), tail);
      DeframeFrame(rs[0], more, FrameAll(rs) + tail);
      ConsConcat(rs, Deframe(tail).records);
    }
  }

  /** Deframing inverts framing: any records followed by an incomplete one are read back exactly. */
  lemma DeframeInvertsFrame(rs: seq<Record>, rest: bytes)
    requires forall r :: r in rs ==> |r.fragment| < TWO_TO_THE_16
    requires !StartsWithRecord(rest)
    ensures Deframe(FrameAll(rs) + rest) == Deframed(rs, rest)
  {
    DeframeFrames(rs, rest);
  }

  /** ... and framing inverts deframing: no byte of the stream is lost or reordered. */
  lemma {:induction false} FrameInvertsDeframe(s: bytes)
    ensures FrameAll(Deframe(s).records) + Deframe(s).rest == s
    decreases |s|
  {
    if StartsWithRecord(s) {
      hide Frame, Be16;
      var end := HEADER_SIZE + Be16(s[3], s[4]);
      var first, later := s[..end], s[end..];
      var d := Deframe(later);
      FrameInvertsDeframe(later);
      var r := Record(s[0], s[1], s[2], s[HEADER_SIZE..end]);
      assert first[HEADER_SIZE..] == s[HEADER_SIZE..end];
      WholeRecord(first);
      assert ([r] + d.records)[1..] == d.records;
      assert FrameAll([r] + d.records) == first + FrameAll(d.records);
      ConcatAssociative(first, FrameAll(d.records), d.rest);
      TakeDrop(s, end);
    }
  }

  lemma DeframeEmpty()
    ensures Deframe([]) == Deframed([], [])
  {
  }

  lemma {:induction false} FragmentsBounded(s: bytes)
    ensures forall r :: r in Deframe(s).records ==> |r.fragment| < TWO_TO_THE_16
    decreases |s|
  {
    if StartsWithRecord(s) {
      FragmentsBounded(s[HEADER_SIZE + Be16(s[3], s[4])..]);
    }
  }

  lemma {:induction false} ContentConcat(a: seq<Record>, b: seq<Record>)
    ensures Content(a + b) == Content(a) + Content(b)
  {
    if a == [] {
      assert a + b == b;
    } else {
      assert (a + b)[1..] == a[1..] + b;
      ContentConcat(a[1..], b);
    }
  }

  /** Every record costs its receiver five header bytes on top of its content. */
  lemma {:induction false} StreamLength(s: bytes)
    ensures |s| == |Content(Deframe(s).records)| + HEADER_SIZE * |Deframe(s).records| + |Deframe(s).rest|
    decreases |s|
  {
    if StartsWithRecord(s) {
      var end := HEADER_SIZE + Be16(s[3], s[4]);
      StreamLength(s[end..]);
      var d := Deframe(s[end..]);
      var r := Record(s[0], s[1], s[2], s[HEADER_SIZE..end]);
      assert ([r] + d.records)[1..] == d.records;
    }
  }

  /** Cutting one record in two of the same type and version keeps the content. */
  lemma ContentOfCut(r: Record, k: nat, rest: seq<Record>)
    requires k <= |r.fragment|
    ensures Content([r.(fragment := r.fragment[..k]), r.(fragment := r.fragment[k..])] + rest)
         == Content([r] + rest)
  {
    var a, b := r.(fragment := r.fragment[..k]), r.(fragment := r.fragment[k..]);
    assert RecordContent(r) == RecordContent(a) + RecordContent(b);
    assert ([a, b] + rest)[1..] == [b] + rest;
    assert ([b] + rest)[1..] == rest;
    assert ([r] + rest)[1..] == rest;
  }

  /** A receiver takes a byte string for nothing at all exactly when it is made of empty records. */
  lemma {:induction false} NothingReceivedExactly(s: bytes)
    ensures SameContent(s, []) <==> EmptyRecords(s)
    decreases |s|
  {
    DeframeEmpty();
    if StartsWithRecord(s) {
      var end := HEADER_SIZE + Be16(s[3], s[4]);
      NothingReceivedExactly(s[end..]);
      var r := Record(s[0], s[1], s[2], s[HEADER_SIZE..end]);
      assert ([r] + Deframe(s[end..]).records)[1..] == Deframe(s[end..]).records;
    }
  }
}
