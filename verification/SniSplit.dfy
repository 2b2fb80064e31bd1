/**
  The decisions of src/proxy.rs between reading the client's first bytes and writing them out: which
  bytes are the first record, where the host name is cut, and what the server will have received.
 */
module SniSplit {
  import opened Bytes
  import opened RecordLayer
  import opened Fragmenter
  import opened TlsParser
  import opened Text

  function ExtractFirstTlsRecord(raw: bytes): (r: (bytes, bytes))
    ensures r.0 + r.1 == raw
    ensures raw != [] ==> r.0 != []
  {
    if IsClientHello(raw) then
      var recLen := HEADER_SIZE + Be16(raw[3], raw[4]);
      if recLen > HEADER_SIZE && |raw| > recLen then (raw[..recLen], raw[recLen..]) else (raw, [])
    else (raw, [])
  }

  /**
    What is taken for the first record: all of the read, unless that is a hello with more behind its
    complete, non-empty first record.
   */
  lemma ExtractExactly(raw: bytes)
    ensures var (first, trailing) := ExtractFirstTlsRecord(raw);
      && first + trailing == raw
      && (trailing != [] <==> IsClientHello(raw) && FirstRecordComplete(raw) && |raw| > 5 + Be16(raw[3], raw[4]))
      && (trailing != [] ==> |first| == 5 + Be16(raw[3], raw[4]))
      && (!IsClientHello(raw) ==> first == raw)
  {
  }

  /** `usize::saturating_sub`. */
  function SaturatingSub(a: nat, b: nat): nat {
    if a < b then 0 else a - b
  }

  function Max(a: nat, b: nat): nat {
    if a < b then b else a
  }

  function Min(a: nat, b: nat): nat {
    if a < b then a else b
  }

  predicate StartsWithWww(host: string) {
    |host| >= 4 && (forall i :: 0 <= i < 4 ==> AsciiLower(host[i]) == "www."[i])
  }

  /** The first and the last cut the random choice may return. */
  function CutWindow(hostnameLength: nat, host: string): (nat, nat) {
    if hostnameLength > 6 then
      var startOffset := if StartsWithWww(host) then 4 else 0;
      var domainLen := SaturatingSub(hostnameLength, startOffset);
      var mid := startOffset + domainLen / 2;
      var minCut := Max(SaturatingSub(mid, 1), startOffset + 2);
      var maxCut := Min(mid + 1, hostnameLength - 2);
      if minCut <= maxCut then (minCut, maxCut) else (hostnameLength / 2, hostnameLength / 2)
    else (hostnameLength / 2, hostnameLength / 2)
  }

  method CalculateSniCutOffset(hostnameLength: nat, host: string) returns (cut: nat)
    ensures CutWindow(hostnameLength, host).0 <= cut <= CutWindow(hostnameLength, host).1
    ensures hostnameLength > 4 ==> 2 <= cut <= hostnameLength - 2
  {
    if hostnameLength > 6 {
      var startOffset := if StartsWithWww(host) then 4 else 0;
      var domainLen := SaturatingSub(hostnameLength, startOffset);
      var mid := startOffset + domainLen / 2;
      var minCut := Max(SaturatingSub(mid, 1), startOffset + 2);
      var maxCut := Min(mid + 1, hostnameLength - 2);
      if minCut <= maxCut {
        cut :| minCut <= cut <= maxCut;
      } else {
        cut := hostnameLength / 2;
      }
    } else {
      cut := hostnameLength / 2;
    }
  }

  /** The host begins with www and a dot, whatever the case of the letters. */
  predicate HasWwwLabel(host: string) {
    |host| >= 4 && host[0] in "wW" && host[1] in "wW" && host[2] in "wW" && host[3] == '.'
  }

  lemma StartsWithWwwExactly(host: string)
    ensures StartsWithWww(host) <==> HasWwwLabel(host)
  {
    if |host| >= 4 {
      assert AsciiLower(host[0]) == 'w' <==> host[0] in "wW";
      assert AsciiLower(host[1]) == 'w' <==> host[1] in "wW";
      assert AsciiLower(host[2]) == 'w' <==> host[2] in "wW";
      assert AsciiLower(host[3]) == '.' <==> host[3] == '.';
      assert "www."[0] == 'w' && "www."[1] == 'w' && "www."[2] == 'w' && "www."[3] == '.';
    }
  }

  /**
    A cut may be chosen just when it is within one byte of the middle of the name, or of its part after
    a leading www label, and two bytes from either end of that; where there is no such cut, and for
    names of up to six bytes, it is the middle of the name. Always two bytes are left on either side.
   */
  lemma CutWindowExactly(hostnameLength: nat, host: string, cut: int)
    requires hostnameLength > 4
    ensures var (lo, hi) := CutWindow(hostnameLength, host);
      var start := if HasWwwLabel(host) then 4 else 0;
      var mid := (hostnameLength + start) / 2;
      && 2 <= lo <= hi <= hostnameLength - 2
      && (if hostnameLength <= 6 || (start == 4 && hostnameLength == 7) then lo == hi == hostnameLength / 2
          else lo <= cut <= hi <==> mid - 1 <= cut <= mid + 1 && start + 2 <= cut <= hostnameLength - 2)
  {
    StartsWithWwwExactly(host);
  }

  // ---- When and where a read is split ----------------------------------------------------

  predicate Splits(raw: bytes) {
    var name := SniInfoOf(ExtractFirstTlsRecord(raw).0);
    name.Some? && name.value.hostnameLength > 4
  }

  /** `split` is a position the random choice can produce. */
  predicate IsSplitPoint(raw: bytes, host: string, split: nat) {
    && Splits(raw)
    && var name := SniInfoOf(ExtractFirstTlsRecord(raw).0).value;
    && var (lo, hi) := CutWindow(name.hostnameLength, host);
    && name.hostnameOffset + lo <= split <= name.hostnameOffset + hi
  }

  /**
    Every possible split point passes the bounds test that guards splitting, gives two records with
    non-empty payloads, and puts one part of the name at the end of the first and the other part, each
    at least two bytes, at the start of the second.
   */
  lemma SplitAlwaysLands(raw: bytes, host: string, split: nat)
    requires IsSplitPoint(raw, host, split)
    ensures var ch := ExtractFirstTlsRecord(raw).0;
      var info := SniInfoOf(ch).value;
      var name := ch[info.hostnameOffset..info.hostnameOffset + info.hostnameLength];
      var cut := split - info.hostnameOffset;
      && HEADER_SIZE < split < |ch|
      && 2 <= cut <= |name| - 2
      && var (r1, r2) := FragmentAtOffset(ch, split);
      && r2.Some? && cut <= |r1.payload| && |name| - cut <= |r2.value.payload|
      && r1.payload[|r1.payload| - cut..] == name[..cut]
      && r2.value.payload[..|name| - cut] == name[cut..]
  {
    hide SniInfoOf, CutWindow, ExtractFirstTlsRecord, BuildTlsHeader;
    var info := SniInfoOf(ExtractFirstTlsRecord(raw).0).value;
    CutWindowExactly(info.hostnameLength, host, split - info.hostnameOffset);
  }

  // ---- What the server receives ----------------------------------------------------------

  /** The two records, then the rest of the read. */
  function SplitBytes(raw: bytes, split: nat): bytes {
    var (ch, trailing) := ExtractFirstTlsRecord(raw);
    var (r1, r2) := FragmentAtOffset(ch, split);
    r1.Wire() + (if r2.Some? then r2.value.Wire() else []) + trailing
  }

  predicate SplitInRecord(raw: bytes, split: nat) {
    IsClientHello(raw) && HEADER_SIZE < split < |ExtractFirstTlsRecord(raw).0|
  }

  /** The read holds all of its first record, and that record is not empty. */
  predicate FirstRecordComplete(raw: bytes) {
    |raw| >= HEADER_SIZE && 0 < Be16(raw[3], raw[4]) && HEADER_SIZE + Be16(raw[3], raw[4]) <= |raw|
  }

  lemma ExtractComplete(raw: bytes)
    requires IsClientHello(raw) && FirstRecordComplete(raw)
    ensures var ch := ExtractFirstTlsRecord(raw).0;
      |ch| == HEADER_SIZE + Be16(raw[3], raw[4]) && ch[..HEADER_SIZE] == raw[..HEADER_SIZE]
      && ch[3] == raw[3] && ch[4] == raw[4]
  {
  }

  /**
    With a complete first record: for every split inside it and every later byte from the client, the
    server reads the first record's two halves in place of the first record and every other record
    unchanged, neither half is empty, and exactly one header's worth of bytes is added.
   */
  lemma SplitPreservesStream(raw: bytes, split: nat, later: bytes)
    requires SplitInRecord(raw, split) && FirstRecordComplete(raw)
    ensures var sent, own := Deframe(SplitBytes(raw, split) + later), Deframe(raw + later);
      && own.records != []
      && var r, k := own.records[0], split - HEADER_SIZE;
      && 0 < k < |r.fragment|
      && sent.records == [r.(fragment := r.fragment[..k]), r.(fragment := r.fragment[k..])] + own.records[1..]
      && sent.rest == own.rest
    ensures SameContent(raw + later, SplitBytes(raw, split) + later)
    ensures |SplitBytes(raw, split)| == |raw| + HEADER_SIZE
  {
    hide Deframe, RecordContent, Content, IsClientHello;
    var (ch, trailing) := ExtractFirstTlsRecord(raw);
    ExtractComplete(raw);
    var tail := trailing + later;
    var (r1, r2) := FragmentAtOffset(ch, split);
    SplitRecordStream(ch, split, tail);
    ConcatAssociative(ch, trailing, later);
    ConcatAssociative(r1.Wire() + r2.value.Wire(), trailing, later);
    var own := Deframe(raw + later);
    var r := own.records[0];
    assert own.records[1..] == Deframe(tail).records;
    assert own.records == [r] + own.records[1..];
    ContentOfCut(r, split - HEADER_SIZE, own.records[1..]);
  }

  predicate PreservedOnSplit(raw: bytes, split: nat, later: bytes) {
    SameContent(raw + later, SplitBytes(raw, split) + later)
  }

  /**
    Exactly when splitting preserves the stream for every continuation: when the read held the whole
    first record. A read that stopped inside it, or an empty declared length, corrupts the stream.
   */
  lemma SplitPreservesExactly(raw: bytes, split: nat)
    requires |raw| < TWO_TO_THE_16 && SplitInRecord(raw, split)
    ensures (forall later :: PreservedOnSplit(raw, split, later)) <==> FirstRecordComplete(raw)
  {
    if FirstRecordComplete(raw) {
      forall later
        ensures PreservedOnSplit(raw, split, later)
      {
        SplitPreservesStream(raw, split, later);
      }
    } else {
      IncompleteRecordCorrupts(raw, split);
      assert !PreservedOnSplit(raw, split, []);
    }
  }

  /** The failing half, with no later byte at all: the server takes content the client never completed. */
  lemma IncompleteRecordCorrupts(raw: bytes, split: nat)
    requires |raw| < TWO_TO_THE_16 && SplitInRecord(raw, split)
    requires !FirstRecordComplete(raw)
    ensures !PreservedOnSplit(raw, split, [])
  {
    var sent := SplitBytes(raw, split);
    assert ExtractFirstTlsRecord(raw) == (raw, []);
    assert sent + [] == sent && raw + [] == raw;
    WholeReadSplit(raw, split);
    OwnContentShorter(raw);
  }

  lemma WholeReadSplit(raw: bytes, split: nat)
    requires HEADER_SIZE < split < |raw| < TWO_TO_THE_16
    requires ExtractFirstTlsRecord(raw) == (raw, [])
    ensures |Content(Deframe(SplitBytes(raw, split)).records)| == |raw| - HEADER_SIZE
  {
    hide Deframe, RecordContent, FragmentAtOffset, ExtractFirstTlsRecord, Frame;
    var whole := Record(raw[0], raw[1], raw[2], raw[HEADER_SIZE..]);
    var k := split - HEADER_SIZE;
    var a, b := whole.(fragment := whole.fragment[..k]), whole.(fragment := whole.fragment[k..]);
    HalvesAreFrames(raw, split);
    TwoFrames(a, b, []);
    DeframeEmpty();
    assert [a, b] + [] == [a, b];
    assert [a, b][1..] == [b];
    assert Content([b]) == RecordContent(b) + Content([]);
    assert Content([a, b]) == RecordContent(a) + Content([b]);
    assert SplitBytes(raw, split) == Frame(a) + Frame(b) + [];
  }

  lemma OwnContentShorter(raw: bytes)
    requires IsClientHello(raw) && !FirstRecordComplete(raw)
    ensures |Content(Deframe(raw).records)| < |raw| - HEADER_SIZE
  {
    StreamLength(raw);
    if StartsWithRecord(raw) {
      var d := Deframe(raw[HEADER_SIZE..]);
      assert Deframe(raw).records == [Record(raw[0], raw[1], raw[2], [])] + d.records;
      assert Deframe(raw).records[1..] == d.records;
      if |Deframe(raw).records| == 1 {
        assert Content(d.records) == [];
      }
    }
  }

  // ---- The fallback ----------------------------------------------------------------------

  predicate PreservedOnFallback(raw: bytes, later: bytes) {
    SameContent(raw + later, ExtractFirstTlsRecord(raw).0 + later)
  }

  /**
    The fallback writes the first record and drops whatever the same read held after it. The stream
    survives for every continuation exactly when the dropped bytes are complete empty records, of
    which there are usually none at all.
   */
  lemma FallbackPreservesExactly(raw: bytes)
    ensures (forall later :: PreservedOnFallback(raw, later))
      <==> EmptyRecords(ExtractFirstTlsRecord(raw).1)
  {
    hide EmptyRecords;
    var (ch, trailing) := ExtractFirstTlsRecord(raw);
    NothingReceivedExactly(trailing);
    if trailing == [] {
      DeframeEmpty();
      assert ch == raw;
    } else {
      var whole := Record(ch[0], ch[1], ch[2], ch[HEADER_SIZE..]);
      WholeRecord(ch);
      forall later
        ensures PreservedOnFallback(raw, later) <==> SameContent(trailing + later, later)
      {
        FallbackStreams(raw, whole, later);
      }
      assert trailing + [] == trailing;
      if SameContent(trailing, []) {
        forall later
          ensures PreservedOnFallback(raw, later)
        {
          EmptyRecordsVanish(trailing, later);
        }
      } else {
        assert !PreservedOnFallback(raw, []);
      }
    }
  }

  lemma FallbackStreams(raw: bytes, whole: Record, later: bytes)
    requires var (ch, trailing) := ExtractFirstTlsRecord(raw);
      ch == Frame(whole) && |whole.fragment| < TWO_TO_THE_16
    ensures PreservedOnFallback(raw, later)
      <==> SameContent(ExtractFirstTlsRecord(raw).1 + later, later)
  {
    hide Deframe, RecordContent, ExtractFirstTlsRecord, Frame;
    var (ch, trailing) := ExtractFirstTlsRecord(raw);
    DeframeFrame(whole, later, ch + later);
    DeframeFrame(whole, trailing + later, ch + (trailing + later));
    ConcatAssociative(ch, trailing, later);
    assert ([whole] + Deframe(later).records)[1..] == Deframe(later).records;
    assert ([whole] + Deframe(trailing + later).records)[1..] == Deframe(trailing + later).records;
    var head, x, y := RecordContent(whole), Content(Deframe(trailing + later).records), Content(Deframe(later).records);
    assert x == (head + x)[|head|..] && y == (head + y)[|head|..];
  }

  lemma EmptyRecordsVanish(trailing: bytes, later: bytes)
    requires SameContent(trailing, [])
    ensures SameContent(trailing + later, later)
  {
    hide RecordContent, Frame, Deframe;
    var d := Deframe(trailing);
    DeframeEmpty();
    FrameInvertsDeframe(trailing);
    assert FrameAll(d.records) + [] == FrameAll(d.records);
    FragmentsBounded(trailing);
    DeframeFrames(d.records, later);
    ContentConcat(d.records, Deframe(later).records);
  }
}
