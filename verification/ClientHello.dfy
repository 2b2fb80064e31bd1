/**
  An abstract TLS ClientHello (section 4.1.2 of RFC 8446) with its server_name extension (section 3
  of RFC 6066), its encoding, and the proof that the index walk finds the name in every one of them.
 */
module ClientHello {
  import opened Bytes
  import opened RecordLayer
  import opened TlsParser

  const HOST_NAME: byte := 0

  datatype ServerName = ServerName(nameType: byte, name: bytes)

  datatype Extension = ServerNames(names: seq<ServerName>) | Other(extType: nat, body: bytes)

  /** `extensions` is None for a hello that ends after its compression methods. */
  datatype Hello = Hello(
    recordMajor: byte, recordMinor: byte, version: bytes, random: bytes, sessionId: bytes,
    cipherSuites: bytes, compression: bytes, extensions: Option<seq<Extension>>)

  // ---- Encoding --------------------------------------------------------------------------

  function EncodeServerName(n: ServerName): bytes {
    [n.nameType] + Prefixed16(n.name)
  }

  function EncodeServerNames(names: seq<ServerName>): bytes {
    if names == [] then [] else EncodeServerName(names[0]) + EncodeServerNames(names[1..])
  }

  lemma SingleName(n: ServerName)
    ensures EncodeServerNames([n]) == EncodeServerName(n)
  {
    hide EncodeServerName;
    assert EncodeServerNames([n][1..]) == [];
    assert EncodeServerName(n) + [] == EncodeServerName(n);
  }

  /** Number 0 is server_name. */
  function ExtensionType(e: Extension): nat {
    match e
    case ServerNames(_) => 0
    case Other(t, _) => t
  }

  function ExtensionBody(e: Extension): bytes {
    match e
    case ServerNames(names) => Prefixed16(EncodeServerNames(names))
    case Other(_, body) => body
  }

  function EncodeExtension(e: Extension): bytes {
    U16(ExtensionType(e)) + Prefixed16(ExtensionBody(e))
  }

  function EncodeExtensions(es: seq<Extension>): bytes {
    if es == [] then [] else EncodeExtension(es[0]) + EncodeExtensions(es[1..])
  }

  /** The three length-prefixed fields before the extensions. */
  function EncodeFields(h: Hello): bytes {
    Prefixed8(h.sessionId) + (Prefixed16(h.cipherSuites) + Prefixed8(h.compression))
  }

  function EncodeTail(h: Hello): bytes {
    match h.extensions
    case None => []
    case Some(es) => Prefixed16(EncodeExtensions(es))
  }

  function EncodeBody(h: Hello): bytes {
    (h.version + h.random) + (EncodeFields(h) + EncodeTail(h))
  }

  /** Message type 1, client_hello, and the 24-bit length. */
  function HandshakeHeader(length: nat): (b: bytes)
    ensures |b| == 4 && b[0] == 1
  {
    [1, length / TWO_TO_THE_16 % 256] + U16(length)
  }

  /** The hello as one handshake message in one record, of content type 22. */
  function Encode(h: Hello): bytes {
    var body := EncodeBody(h);
    Header(22, h.recordMajor, h.recordMinor, 4 + |body|) + (HandshakeHeader(|body|) + body)
  }

  predicate WellFormedExtension(e: Extension) {
    && ExtensionType(e) < TWO_TO_THE_16
    && |ExtensionBody(e)| < TWO_TO_THE_16
    && (e.ServerNames? ==> e.names != [] && forall n :: n in e.names ==> |n.name| < TWO_TO_THE_16)
    && (e.Other? ==> e.extType != 0)
  }

  predicate WellFormedExtensions(es: seq<Extension>) {
    es == [] || (WellFormedExtension(es[0]) && WellFormedExtensions(es[1..]))
  }

  predicate WellFormed(h: Hello) {
    && |h.version| == 2 && |h.random| == 32
    && |h.sessionId| < 256 && |h.cipherSuites| < TWO_TO_THE_16 && |h.compression| < 256
    && (h.extensions.Some? ==>
          && |EncodeExtensions(h.extensions.value)| < TWO_TO_THE_16
          && WellFormedExtensions(h.extensions.value))
    && 4 + |EncodeBody(h)| < TWO_TO_THE_16
  }

  // ---- Where the name is -----------------------------------------------------------------

  /** A server_name extension's list of names, and how far from the first extension the list begins. */
  datatype SniList = SniList(offset: nat, names: seq<ServerName>)

  /** The first server_name extension: all the extensions before it are of other types. */
  function FirstSni(es: seq<Extension>): (r: Option<SniList>)
    ensures r.Some? && WellFormedExtensions(es) ==> r.value.names != []
    ensures r.Some? <==> exists e :: e in es && e.ServerNames?
  {
    if es == [] then None
    else if es[0].ServerNames? then Some(SniList(6, es[0].names))
    else match FirstSni(es[1..])
      case None => None
      case Some(list) => Some(list.(offset := |EncodeExtension(es[0])| + list.offset))
  }

  predicate HasSni(h: Hello) {
    h.extensions.Some? && FirstSni(h.extensions.value).Some?
  }

  function SniNames(h: Hello): seq<ServerName>
    requires HasSni(h)
  {
    FirstSni(h.extensions.value).value.names
  }

  /** Where the first extension begins. */
  function ExtensionsStart(h: Hello): nat {
    HEADER_SIZE + 4 + 34 + |EncodeFields(h)| + 2
  }

  /** The k-th name of the list, as an offset and a length in the record. */
  function NameAt(h: Hello, k: nat): SniInfo
    requires HasSni(h) && k < |SniNames(h)|
  {
    var start := ExtensionsStart(h) + FirstSni(h.extensions.value).value.offset;
    SniInfo(start + |EncodeServerNames(SniNames(h)[..k])| + 3, |SniNames(h)[k].name|)
  }

  /** The index of the first entry of type host_name, or the number of entries when there is none. */
  function FirstHostName(names: seq<ServerName>): (k: nat)
    ensures k <= |names|
    ensures k < |names| ==> names[k].nameType == HOST_NAME
    ensures forall j :: 0 <= j < k ==> names[j].nameType != HOST_NAME
  {
    if names == [] || names[0].nameType == HOST_NAME then 0 else 1 + FirstHostName(names[1..])
  }

  /** What section 3 of RFC 6066 calls the server's host name: the first entry of that type. */
  function HostNameInfo(h: Hello): Option<SniInfo> {
    if !HasSni(h) || FirstHostName(SniNames(h)) == |SniNames(h)| then None
    else Some(NameAt(h, FirstHostName(SniNames(h))))
  }

  // ---- The walk is correct ---------------------------------------------------------------

  lemma FieldsAre(h: Hello)
    ensures EncodeFields(h) == Prefixed8(h.sessionId) + (Prefixed16(h.cipherSuites) + Prefixed8(h.compression))
    ensures |EncodeFields(h)| == 4 + |h.sessionId| + |h.cipherSuites| + |h.compression|
  {
  }

  lemma FieldsLaid(h: Hello, data: bytes)
    requires WellFormed(h)
    requires At(data, HEADER_SIZE + 4 + 34, EncodeFields(h))
    ensures var p0 := HEADER_SIZE + 4 + 34;
      var p1 := p0 + 1 + |h.sessionId|;
      var p2 := p1 + 2 + |h.cipherSuites|;
      && p2 + 1 + |h.compression| == p0 + |EncodeFields(h)| <= |data|
      && data[p0] == |h.sessionId|
      && Be16(data[p1], data[p1 + 1]) == |h.cipherSuites|
      && data[p2] == |h.compression|
  {
    hide At, Prefixed8, Prefixed16, U16, Be16, EncodeExtensions, EncodeBody, WellFormedExtensions, EncodeFields;
    var p0 := HEADER_SIZE + 4 + 34;
    var p1 := p0 + 1 + |h.sessionId|;
    FieldsAre(h);
    AtConcat(data, p0, Prefixed8(h.sessionId), Prefixed16(h.cipherSuites) + Prefixed8(h.compression));
    AtConcat(data, p1, Prefixed16(h.cipherSuites), Prefixed8(h.compression));
    AtPrefixed8(data, p0, h.sessionId);
    AtPrefixed16(data, p1, h.cipherSuites);
    AtPrefixed8(data, p1 + 2 + |h.cipherSuites|, h.compression);
    AtBounds(data, p0, EncodeFields(h));
  }

  lemma WalkLands(data: bytes, sessionId: nat, cipherSuites: nat, compression: nat)
    requires var p0 := HEADER_SIZE + 4 + 34;
      var p1 := p0 + 1 + sessionId;
      var p2 := p1 + 2 + cipherSuites;
      && p2 + 1 + compression <= |data|
      && data[p0] == sessionId && Be16(data[p1], data[p1 + 1]) == cipherSuites && data[p2] == compression
    ensures var p3 := HEADER_SIZE + 4 + 34 + 4 + sessionId + cipherSuites + compression;
      ExtensionsLengthOffset(data) == if p3 + 2 > |data| then None else Some(p3)
  {
    hide Be16;
  }

  lemma TailLaid(h: Hello, data: bytes)
    requires WellFormed(h) && h.extensions.Some?
    requires At(data, ExtensionsStart(h) - 2, EncodeTail(h))
    ensures ExtensionsStart(h) + |EncodeExtensions(h.extensions.value)| <= |data|
    ensures Be16(data[ExtensionsStart(h) - 2], data[ExtensionsStart(h) - 1]) == |EncodeExtensions(h.extensions.value)|
    ensures At(data, ExtensionsStart(h), EncodeExtensions(h.extensions.value))
  {
    hide At, Prefixed16, U16, Be16, EncodeExtensions, EncodeBody, WellFormedExtensions, EncodeFields;
    var es := EncodeExtensions(h.extensions.value);
    AtBounds(data, ExtensionsStart(h) - 2, Prefixed16(es));
    AtPrefixed16(data, ExtensionsStart(h) - 2, es);
  }

  lemma FieldsWalk(h: Hello, data: bytes)
    requires WellFormed(h)
    requires At(data, HEADER_SIZE + 4 + 34, EncodeFields(h) + EncodeTail(h))
    requires |data| == HEADER_SIZE + 4 + 34 + |EncodeFields(h)| + |EncodeTail(h)|
    ensures ExtensionsLengthOffset(data) == if h.extensions.None? then None else Some(ExtensionsStart(h) - 2)
    ensures h.extensions.Some? ==> At(data, ExtensionsStart(h) - 2, EncodeTail(h))
  {
    hide At, Be16, EncodeFields, EncodeTail, EncodeExtensions, EncodeBody, WellFormedExtensions,
      ExtensionsLengthOffset;
    AtConcat(data, HEADER_SIZE + 4 + 34, EncodeFields(h), EncodeTail(h));
    FieldsLaid(h, data);
    TailLength(h);
    WalkLands(data, |h.sessionId|, |h.cipherSuites|, |h.compression|);
  }

  lemma TailLength(h: Hello)
    ensures |EncodeTail(h)| == if h.extensions.None? then 0 else 2 + |EncodeExtensions(h.extensions.value)|
  {
  }

  /** The list of names stands at `at`, its extension declares it, and it ends by `end`. */
  predicate ListStands(data: bytes, at: nat, names: seq<ServerName>, end: nat) {
    && 4 <= at && at + |EncodeServerNames(names)| <= end <= |data|
    && At(data, at, EncodeServerNames(names))
    && Be16(data[at - 4], data[at - 3]) == 2 + |EncodeServerNames(names)|
  }

  /** Scanning encoded extensions stops at the first server_name extension and reads its first entry. */
  lemma {:induction false} ScanFindsFirst(data: bytes, pos: nat, es: seq<Extension>, end: nat)
    requires WellFormedExtensions(es)
    requires At(data, pos, EncodeExtensions(es)) && end == pos + |EncodeExtensions(es)|
    ensures match FirstSni(es)
      case None => ScanExtensions(data, pos, end) == None
      case Some(list) =>
        && ScanExtensions(data, pos, end) == Some(SniInfo(pos + list.offset + 3, |list.names[0].name|))
        && ListStands(data, pos + list.offset, list.names, end)
    decreases |es|
  {
    hide At, EncodeExtension, EncodeServerNames, ExtensionBody, ExtensionType, Be16, WellFormedExtension,
      ListStands;
    if es != [] {
      var e := es[0];
      AtConcat(data, pos, EncodeExtension(e), EncodeExtensions(es[1..]));
      ExtensionAt(data, pos, e);
      if e.ServerNames? {
        FirstEntryAt(data, pos + 4, e);
        ListInExtension(data, pos, e, end);
      } else {
        ScanFindsFirst(data, pos + |EncodeExtension(e)|, es[1..], end);
      }
    }
  }

  lemma ExtensionAt(data: bytes, pos: nat, e: Extension)
    requires WellFormedExtension(e) && At(data, pos, EncodeExtension(e))
    ensures pos + 4 <= |data| && (Be16(data[pos], data[pos + 1]) == SNI_EXTENSION_TYPE <==> e.ServerNames?)
    ensures Be16(data[pos + 2], data[pos + 3]) == |ExtensionBody(e)|
    ensures pos + |EncodeExtension(e)| == pos + 4 + |ExtensionBody(e)| <= |data|
    ensures At(data, pos + 4, ExtensionBody(e))
  {
    AtConcat(data, pos, U16(ExtensionType(e)), Prefixed16(ExtensionBody(e)));
    AtU16(data, pos, ExtensionType(e));
    AtPrefixed16(data, pos + 2, ExtensionBody(e));
  }

  lemma ListInExtension(data: bytes, pos: nat, e: Extension, end: nat)
    requires WellFormedExtension(e) && e.ServerNames? && At(data, pos, EncodeExtension(e))
    requires pos + |EncodeExtension(e)| <= end <= |data|
    ensures ListStands(data, pos + 6, e.names, end)
  {
    hide At, Be16;
    var list := EncodeServerNames(e.names);
    ExtensionAt(data, pos, e);
    AtConcat(data, pos + 4, U16(|list|), list);
  }

  lemma FirstEntryAt(data: bytes, pos: nat, e: Extension)
    requires WellFormedExtension(e) && e.ServerNames? && At(data, pos, ExtensionBody(e))
    ensures pos + 5 + |e.names[0].name| <= |data|
    ensures Be16(data[pos + 3], data[pos + 4]) == |e.names[0].name|
  {
    var list := EncodeServerNames(e.names);
    var n := e.names[0];
    AtConcat(data, pos, U16(|list|), list);
    AtConcat(data, pos + 2, EncodeServerName(n), EncodeServerNames(e.names[1..]));
    AtConcat(data, pos + 2, [n.nameType], Prefixed16(n.name));
    AtPrefixed16(data, pos + 3, n.name);
  }

  /** The k-th name stands in the encoded list where NameAt puts it. */
  lemma {:induction false} NameStandsAt(data: bytes, pos: nat, names: seq<ServerName>, k: nat)
    requires k < |names| && At(data, pos, EncodeServerNames(names))
    ensures At(data, pos + |EncodeServerNames(names[..k])| + 3, names[k].name)
    decreases k
  {
    var n := names[0];
    AtConcat(data, pos, EncodeServerName(n), EncodeServerNames(names[1..]));
    if k == 0 {
      assert names[..k] == [];
      AtConcat(data, pos, [n.nameType], Prefixed16(n.name));
      AtConcat(data, pos + 1, U16(|n.name|), n.name);
    } else {
      NameStandsAt(data, pos + |EncodeServerName(n)|, names[1..], k - 1);
      assert names[..k][1..] == names[1..][..k - 1];
    }
  }

  lemma EncodedHeader(h: Hello)
    requires WellFormed(h)
    ensures IsClientHello(Encode(h))
    ensures |Encode(h)| == HEADER_SIZE + 4 + |EncodeBody(h)|
    ensures Be16(Encode(h)[3], Encode(h)[4]) == 4 + |EncodeBody(h)|
  {
    hide EncodeBody, HandshakeHeader, Header, Be16, EncodeExtensions, WellFormedExtensions;
    var body := EncodeBody(h);
    assert Encode(h)[5] == (HandshakeHeader(|body|) + body)[0];
  }

  lemma EncodedParts(h: Hello)
    requires WellFormed(h)
    ensures At(Encode(h), HEADER_SIZE + 4 + 34, EncodeFields(h) + EncodeTail(h))
    ensures |Encode(h)| == HEADER_SIZE + 4 + 34 + |EncodeFields(h)| + |EncodeTail(h)|
    ensures h.extensions.None? ==> EncodeTail(h) == []
  {
    hide At, EncodeFields, HandshakeHeader, Header, EncodeExtensions, WellFormedExtensions, U16, Be16;
    var body := EncodeBody(h);
    var head := Header(22, h.recordMajor, h.recordMinor, 4 + |body|);
    var data := Encode(h);
    AtSelf(data);
    AtConcat(data, 0, head, HandshakeHeader(|body|) + body);
    AtConcat(data, HEADER_SIZE, HandshakeHeader(|body|), body);
    AtConcat(data, HEADER_SIZE + 4, h.version + h.random, EncodeFields(h) + EncodeTail(h));
  }

  /**
    For every well-formed hello, whatever its other fields and the order of its extensions: the walk
    returns the place of the first entry of the first server_name extension, and nothing when there
    is no such extension.
   */
  lemma WalkFindsFirstEntry(h: Hello)
    requires WellFormed(h)
    ensures SniInfoOf(Encode(h)) == if HasSni(h) then Some(NameAt(h, 0)) else None
    ensures HasSni(h) ==> forall k :: 0 <= k < |SniNames(h)| ==>
      At(Encode(h), NameAt(h, k).hostnameOffset, SniNames(h)[k].name)
  {
    hide At, Encode, EncodeFields, EncodeExtensions, EncodeTail, EncodeBody, FirstSni, WellFormedExtensions,
      ExtensionsLengthOffset, ScanExtensions, EncodeServerName;
    var data := Encode(h);
    EncodedHeader(h);
    EncodedParts(h);
    FieldsWalk(h, data);
    if h.extensions.Some? {
      TailLaid(h, data);
      var es := h.extensions.value;
      ScanFindsFirst(data, ExtensionsStart(h), es, ExtensionsStart(h) + |EncodeExtensions(es)|);
      if HasSni(h) {
        assert SniNames(h)[..0] == [];
        forall k | 0 <= k < |SniNames(h)|
          ensures At(data, NameAt(h, k).hostnameOffset, SniNames(h)[k].name)
        {
          NameStandsAt(data, ExtensionsStart(h) + FirstSni(es).value.offset, SniNames(h), k);
        }
      }
    }
  }

  /**
    The walk never reads an entry's type. It returns the host name of RFC 6066 exactly when there is
    no server_name extension or the list opens with an entry of type host_name.
   */
  lemma WalkFindsHostNameExactly(h: Hello)
    requires WellFormed(h)
    ensures SniInfoOf(Encode(h)) == HostNameInfo(h)
      <==> (HasSni(h) ==> SniNames(h)[0].nameType == HOST_NAME)
  {
    WalkFindsFirstEntry(h);
    if HasSni(h) {
      var names := SniNames(h);
      var k := FirstHostName(names);
      if 0 < k < |names| {
        assert names[..k][0] == names[0];
        assert |EncodeServerNames(names[..k])| >= |EncodeServerName(names[0])| > 0;
        assert names[..0] == [];
      }
    }
  }

  /** A hello whose only server name is of an unknown type: the walk still reports it. */
  lemma ForeignNameTypeIsReported()
    ensures exists h :: WellFormed(h) && SniInfoOf(Encode(h)).Some? && HostNameInfo(h).None?
  {
    hide WellFormed, SniInfoOf, Encode, NameAt, ForeignHello, HasSni, SniNames, HostNameInfo;
    ForeignHelloWellFormed();
    ForeignHelloName();
    WalkFindsFirstEntry(ForeignHello());
  }

  lemma ForeignHelloName()
    ensures HasSni(ForeignHello()) && HostNameInfo(ForeignHello()) == None
  {
    hide NameAt;
    var names := [ServerName(1, [])];
    assert FirstSni(ForeignHello().extensions.value) == Some(SniList(6, names));
    assert FirstHostName(names) == 1;
  }

  function ForeignHello(): Hello {
    Hello(3, 1, [3, 3], Zeros(32), [], [], [], Some([ServerNames([ServerName(1, [])])]))
  }

  lemma ForeignHelloWellFormed()
    ensures WellFormed(ForeignHello())
  {
    hide U16;
    var h := ForeignHello();
    var es := h.extensions.value;
    SingleName(ServerName(1, []));
    assert |ExtensionBody(es[0])| == 5;
    assert |EncodeExtensions(es)| == 9;
    assert WellFormedExtensions(es);
    TailLength(h);
    FieldsAre(h);
  }

  /** In a well-formed hello the reported name lies inside its extension, and that inside the extensions. */
  lemma ReportedNameIsInside(h: Hello)
    requires WellFormed(h) && HasSni(h)
    ensures SniInfoOf(Encode(h)) == Some(NameAt(h, 0)) && InsideDeclared(Encode(h), NameAt(h, 0))
  {
    hide At, Encode, EncodeFields, EncodeExtensions, EncodeTail, EncodeBody, FirstSni, WellFormedExtensions,
      ExtensionsLengthOffset, ScanExtensions, SniInfoOf, Be16, EncodeServerNames, NameAt;
    var data, es := Encode(h), h.extensions.value;
    WalkFindsFirstEntry(h);
    EncodedParts(h);
    FieldsWalk(h, data);
    TailLaid(h, data);
    ScanFindsFirst(data, ExtensionsStart(h), es, ExtensionsStart(h) + |EncodeExtensions(es)|);
    FirstNameLength(SniNames(h));
    FirstNameAt(h);
  }

  lemma FirstNameAt(h: Hello)
    requires HasSni(h) && SniNames(h) != []
    ensures NameAt(h, 0)
      == SniInfo(ExtensionsStart(h) + FirstSni(h.extensions.value).value.offset + 3, |SniNames(h)[0].name|)
  {
    hide FirstSni;
    assert SniNames(h)[..0] == [];
  }

  lemma FirstNameLength(names: seq<ServerName>)
    requires names != []
    ensures 3 + |names[0].name| <= |EncodeServerNames(names)|
  {
  }

  /** The offset walk lands on the two bytes that declare the extensions' length. */
  lemma ExtensionsLengthFound(h: Hello)
    requires WellFormed(h)
    ensures var r := ExtensionsLengthOffset(Encode(h));
      if h.extensions.None? then r == None
      else r.Some? && At(Encode(h), r.value, EncodeTail(h)) && r.value + |EncodeTail(h)| == |Encode(h)|
  {
    hide At, Encode, EncodeFields, EncodeExtensions, EncodeTail, EncodeBody, WellFormedExtensions,
      ExtensionsLengthOffset;
    EncodedParts(h);
    FieldsWalk(h, Encode(h));
  }
}
