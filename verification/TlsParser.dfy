/** The ClientHello index walk of src/tls/parser.rs. */
module TlsParser {
  import opened Bytes
  import opened RecordLayer

  const CONTENT_TYPE_HANDSHAKE: byte := 0x16
  const HANDSHAKE_TYPE_CLIENT_HELLO: byte := 0x01
  const SNI_EXTENSION_TYPE := 0x0000

  datatype SniInfo = SniInfo(hostnameOffset: nat, hostnameLength: nat)

  predicate IsClientHello(data: bytes) {
    |data| >= 6 && data[0] == CONTENT_TYPE_HANDSHAKE && data[5] == HANDSHAKE_TYPE_CLIENT_HELLO
  }

  // ---- What the walk computes ------------------------------------------------------------

  /** The position of the extensions length, after three length-prefixed fields. */
  function ExtensionsLengthOffset(data: bytes): (r: Option<nat>)
    ensures r.Some? ==> r.value + 2 <= |data|
  {
    var p0 := HEADER_SIZE + 4 + 34;
    if p0 >= |data| then None else
    var p1 := p0 + 1 + data[p0];
    if p1 + 2 > |data| then None else
    var p2 := p1 + 2 + Be16(data[p1], data[p1 + 1]);
    if p2 >= |data| then None else
    var p3 := p2 + 1 + data[p2];
    if p3 + 2 > |data| then None else Some(p3)
  }

  /** The name found by scanning the extensions that start at `pos` and are declared to stop at `end`. */
  function ScanExtensions(data: bytes, pos: nat, end: nat): (r: Option<SniInfo>)
    ensures r.Some? ==> pos + 9 <= r.value.hostnameOffset
    ensures r.Some? ==> r.value.hostnameOffset + r.value.hostnameLength <= |data|
    decreases end - pos
  {
    if pos + 4 > end || pos + 4 > |data| then None
    else if Be16(data[pos], data[pos + 1]) != SNI_EXTENSION_TYPE then
      ScanExtensions(data, pos + 4 + Be16(data[pos + 2], data[pos + 3]), end)
    else if pos + 9 > |data| then None
    else
      var length := Be16(data[pos + 7], data[pos + 8]);
      if pos + 9 + length > |data| then None else Some(SniInfo(pos + 9, length))
  }

  function SniInfoOf(data: bytes): (r: Option<SniInfo>)
    ensures r.Some? ==> IsClientHello(data)
    ensures r.Some? ==> HEADER_SIZE + 4 + 34 + 6 + 9 <= r.value.hostnameOffset
    ensures r.Some? ==> r.value.hostnameOffset + r.value.hostnameLength <= |data|
  {
    if !IsClientHello(data) then None
    else match ExtensionsLengthOffset(data)
      case None => None
      case Some(p) => ScanExtensions(data, p + 2, p + 2 + Be16(data[p], data[p + 1]))
  }

  // ---- The source's walks ----------------------------------------------------------------

  method FindSniInfo(data: bytes) returns (r: Option<SniInfo>)
    ensures r == SniInfoOf(data)
  {
    hide Be16;
    if |data| < 6 {
      return None;
    }
    if data[0] != CONTENT_TYPE_HANDSHAKE || data[5] != HANDSHAKE_TYPE_CLIENT_HELLO {
      return None;
    }
    var pos := HEADER_SIZE;
    pos := pos + 4;
    pos := pos + 34;

    if pos >= |data| {
      return None;
    }
    var sessionIdLen := data[pos];
    pos := pos + 1 + sessionIdLen;

    if pos + 2 > |data| {
      return None;
    }
    var cipherSuitesLen := ReadU16(data, pos).value;
    pos := pos + 2 + cipherSuitesLen;

    if pos >= |data| {
      return None;
    }
    var compressionLen := data[pos];
    pos := pos + 1 + compressionLen;

    if pos + 2 > |data| {
      return None;
    }
    assert ExtensionsLengthOffset(data) == Some(pos);
    var extensionsLen := ReadU16(data, pos).value;
    pos := pos + 2;
    var extensionsEnd := pos + extensionsLen;
    assert SniInfoOf(data) == ScanExtensions(data, pos, extensionsEnd);
    hide SniInfoOf, ExtensionsLengthOffset, IsClientHello;

    while pos + 4 <= extensionsEnd && pos + 4 <= |data|
      invariant SniInfoOf(data) == ScanExtensions(data, pos, extensionsEnd)
      decreases extensionsEnd - pos
    {
      var extType := ReadU16(data, pos).value;
      var extLen := ReadU16(data, pos + 2).value;
      pos := pos + 4;
      if extType == SNI_EXTENSION_TYPE {
        if pos + 5 > |data| {
          return None;
        }
        var hostnameLen := ReadU16(data, pos + 3).value;
        var hostnameOffset := pos + 5;
        if hostnameOffset + hostnameLen > |data| {
          return None;
        }
        return Some(SniInfo(hostnameOffset, hostnameLen));
      }
      pos := pos + extLen;
    }
    return None;
  }

  method FindExtensionsLengthOffset(data: bytes) returns (r: Option<nat>)
    ensures r == ExtensionsLengthOffset(data)
  {
    hide Be16;
    if |data| < 44 {
      return None;
    }
    var pos := HEADER_SIZE;
    pos := pos + 4;
    pos := pos + 34;
    if pos >= |data| {
      return None;
    }
    var sessionIdLen := data[pos];
    pos := pos + 1 + sessionIdLen;
    if pos + 2 > |data| {
      return None;
    }
    var cipherSuitesLen := ReadU16(data, pos).value;
    pos := pos + 2 + cipherSuitesLen;
    if pos >= |data| {
      return None;
    }
    var compressionLen := data[pos];
    pos := pos + 1 + compressionLen;
    if pos + 2 > |data| {
      return None;
    }
    return Some(pos);
  }

  // ---- Prefix stability ------------------------------------------------------------------

  /** A name found in a prefix of the stream is the name found once more bytes have arrived. */
  lemma SniInfoStable(data: bytes, more: bytes)
    requires SniInfoOf(data).Some?
    ensures SniInfoOf(data + more) == SniInfoOf(data)
  {
    hide ScanExtensions, Be16;
    var whole := data + more;
    var p := ExtensionsLengthOffset(data).value;
    assert forall i :: 0 <= i < |data| ==> whole[i] == data[i];
    assert ExtensionsLengthOffset(whole) == Some(p);
    ScanStable(data, whole, p + 2, p + 2 + Be16(data[p], data[p + 1]));
  }

  lemma {:induction false} ScanStable(data: bytes, whole: bytes, pos: nat, end: nat)
    requires data <= whole
    requires ScanExtensions(data, pos, end).Some?
    ensures ScanExtensions(whole, pos, end) == ScanExtensions(data, pos, end)
    decreases end - pos
  {
    if Be16(data[pos], data[pos + 1]) != SNI_EXTENSION_TYPE {
      ScanStable(data, whole, pos + 4 + Be16(data[pos + 2], data[pos + 3]), end);
    }
  }

  /** What a first part of the data shows of the name in all of it: the name once it is all there. */
  lemma SniInfoOfPrefix(data: bytes, whole: bytes)
    requires data <= whole && SniInfoOf(whole).Some?
    ensures var info := SniInfoOf(whole).value;
      SniInfoOf(data) == if info.hostnameOffset + info.hostnameLength <= |data| then Some(info) else None
  {
    hide ScanExtensions, Be16;
    var info := SniInfoOf(whole).value;
    var p := ExtensionsLengthOffset(whole).value;
    assert data + whole[|data|..] == whole;
    if SniInfoOf(data).Some? {
      SniInfoStable(data, whole[|data|..]);
    }
    if info.hostnameOffset + info.hostnameLength <= |data| {
      assert forall i :: 0 <= i < |data| ==> whole[i] == data[i];
      ScanPrefix(data, whole, p + 2, p + 2 + Be16(whole[p], whole[p + 1]));
      assert ExtensionsLengthOffset(data) == Some(p);
    }
  }

  lemma {:induction false} ScanPrefix(data: bytes, whole: bytes, pos: nat, end: nat)
    requires data <= whole && ScanExtensions(whole, pos, end).Some?
    requires var info := ScanExtensions(whole, pos, end).value;
      info.hostnameOffset + info.hostnameLength <= |data|
    ensures ScanExtensions(data, pos, end) == ScanExtensions(whole, pos, end)
    ensures pos + 9 <= |data|
    decreases end - pos
  {
    if Be16(whole[pos], whole[pos + 1]) != SNI_EXTENSION_TYPE {
      ScanPrefix(data, whole, pos + 4 + Be16(whole[pos + 2], whole[pos + 3]), end);
    }
  }

  // ---- Where the extensions length is, on any bytes --------------------------------------

  /** Three fields with their lengths stand one after another behind the random, up to `pos`. */
  predicate FieldsUpTo(data: bytes, sessionId: bytes, suites: bytes, compression: bytes, pos: nat) {
    && |sessionId| < 256 && |suites| < TWO_TO_THE_16 && |compression| < 256
    && At(data, 43, Prefixed8(sessionId) + (Prefixed16(suites) + Prefixed8(compression)))
    && pos == 43 + (1 + |sessionId|) + (2 + |suites|) + (1 + |compression|)
  }

  /** The offset is where those fields end, if two more bytes follow, and None if there are no such fields. */
  lemma ExtensionsOffsetExactly(data: bytes, pos: nat)
    ensures ExtensionsLengthOffset(data) == Some(pos)
      <==> pos + 2 <= |data| && exists sessionId, suites, compression ::
             FieldsUpTo(data, sessionId, suites, compression, pos)
  {
    if ExtensionsLengthOffset(data) == Some(pos) {
      FieldsOf(data, pos);
    }
    if sessionId, suites, compression :|
        pos + 2 <= |data| && FieldsUpTo(data, sessionId, suites, compression, pos) {
      OffsetOf(data, sessionId, suites, compression, pos);
    }
  }

  lemma OffsetOf(data: bytes, sessionId: bytes, suites: bytes, compression: bytes, pos: nat)
    requires pos + 2 <= |data| && FieldsUpTo(data, sessionId, suites, compression, pos)
    ensures ExtensionsLengthOffset(data) == Some(pos)
  {
    hide At, Be16, Prefixed8, Prefixed16;
    var p1 := 44 + |sessionId|;
    AtConcat(data, 43, Prefixed8(sessionId), Prefixed16(suites) + Prefixed8(compression));
    AtConcat(data, p1, Prefixed16(suites), Prefixed8(compression));
    AtPrefixed8(data, 43, sessionId);
    AtPrefixed16(data, p1, suites);
    AtPrefixed8(data, p1 + 2 + |suites|, compression);
  }

  lemma FieldsOf(data: bytes, pos: nat)
    requires ExtensionsLengthOffset(data) == Some(pos)
    ensures exists sessionId, suites, compression :: FieldsUpTo(data, sessionId, suites, compression, pos)
  {
    var p0 := HEADER_SIZE + 4 + 34;
    var p1 := p0 + 1 + data[p0];
    var p2 := p1 + 2 + Be16(data[p1], data[p1 + 1]);
    var sessionId, suites, compression := data[44..p1], data[p1 + 2..p2], data[p2 + 1..pos];
    hide ExtensionsLengthOffset, Be16;
    PrefixedAt8(data, 43, sessionId);
    PrefixedAt16(data, p1, suites);
    PrefixedAt8(data, p2, compression);
    hide At, Prefixed8, Prefixed16;
    AtJoined(data, p1, Prefixed16(suites), Prefixed8(compression));
    AtJoined(data, 43, Prefixed8(sessionId), Prefixed16(suites) + Prefixed8(compression));
    assert FieldsUpTo(data, sessionId, suites, compression, pos);
  }

  // ---- What a reported name is, on any bytes ---------------------------------------------

  /** Stepping by declared lengths over extensions of other types leads from `at` to `pos`. */
  predicate Hops(data: bytes, at: nat, pos: nat)
    decreases pos - at
  {
    at == pos
    || (at + 4 <= pos && at + 4 <= |data|
        && Be16(data[at], data[at + 1]) != SNI_EXTENSION_TYPE
        && at + 4 + Be16(data[at + 2], data[at + 3]) <= pos
        && Hops(data, at + 4 + Be16(data[at + 2], data[at + 3]), pos))
  }

  /** At `pos` stands the header of a server_name extension, and nine bytes on a name of the length given there. */
  predicate NameEntryAt(data: bytes, pos: nat, length: nat) {
    && pos + 9 + length <= |data|
    && Be16(data[pos], data[pos + 1]) == SNI_EXTENSION_TYPE
    && Be16(data[pos + 7], data[pos + 8]) == length
  }

  lemma {:induction false} ScanExactly(data: bytes, at: nat, end: nat, info: SniInfo)
    ensures ScanExtensions(data, at, end) == Some(info)
      <==> (9 <= info.hostnameOffset
            && var pos := info.hostnameOffset - 9;
            pos + 4 <= end && Hops(data, at, pos) && NameEntryAt(data, pos, info.hostnameLength))
    decreases end - at
  {
    hide Be16;
    if at + 4 <= end && at + 4 <= |data| && Be16(data[at], data[at + 1]) != SNI_EXTENSION_TYPE {
      ScanExactly(data, at + 4 + Be16(data[at + 2], data[at + 3]), end, info);
    }
  }

  /**
    On any bytes whatever, a name is reported exactly where hops over other extensions lead to a
    server_name header that starts inside the declared extensions, with the name inside the data.
   */
  lemma ReportedNameExactly(data: bytes, info: SniInfo)
    ensures SniInfoOf(data) == Some(info)
      <==> (IsClientHello(data) && ExtensionsLengthOffset(data).Some? && 9 <= info.hostnameOffset
            && var p := ExtensionsLengthOffset(data).value;
            var pos := info.hostnameOffset - 9;
            && pos + 4 <= p + 2 + Be16(data[p], data[p + 1])
            && Hops(data, p + 2, pos)
            && NameEntryAt(data, pos, info.hostnameLength))
  {
    hide ExtensionsLengthOffset, ScanExtensions, Be16, Hops, NameEntryAt;
    if ExtensionsLengthOffset(data).Some? {
      var p := ExtensionsLengthOffset(data).value;
      ScanExactly(data, p + 2, p + 2 + Be16(data[p], data[p + 1]), info);
    }
  }

  /** The name's bytes lie in the body of its extension, and that body in the declared extensions. */
  predicate InsideDeclared(data: bytes, info: SniInfo)
    requires SniInfoOf(data) == Some(info)
  {
    var p := ExtensionsLengthOffset(data).value;
    var body := info.hostnameOffset - 5;
    var bodyEnd := body + Be16(data[body - 2], data[body - 1]);
    info.hostnameOffset + info.hostnameLength <= bodyEnd <= p + 2 + Be16(data[p], data[p + 1])
  }

  /** A record whose extensions are declared to end where the body of an empty server_name extension starts. */
  const STRAY_NAME: bytes := Zeros(63)[0 := 0x16][1 := 3][2 := 1][4 := 58][5 := 1][48 := 4][57 := 5]

  /** The walk checks neither length: in this complete record the name it reports lies outside both. */
  lemma StrayNameIsReported()
    ensures SniInfoOf(STRAY_NAME) == Some(SniInfo(58, 5)) && !InsideDeclared(STRAY_NAME, SniInfo(58, 5))
    ensures |STRAY_NAME| == HEADER_SIZE + Be16(STRAY_NAME[3], STRAY_NAME[4])
  {
    StrayWalk(STRAY_NAME);
  }

  lemma StrayWalk(data: bytes)
    requires |data| == 63 && data[0] == 0x16 && data[3] == 0 && data[4] == 58 && data[5] == 1
    requires forall i :: 43 <= i < 63 ==> data[i] == if i == 48 then 4 else if i == 57 then 5 else 0
    ensures SniInfoOf(data) == Some(SniInfo(58, 5)) && !InsideDeclared(data, SniInfo(58, 5))
  {
    assert ExtensionsLengthOffset(data) == Some(47);
    assert Be16(data[47], data[48]) == 4;
    hide ExtensionsLengthOffset;
    assert ScanExtensions(data, 49, 53) == Some(SniInfo(58, 5));
  }
}
