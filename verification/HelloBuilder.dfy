/** The synthetic ClientHello of src/tls/parser.rs, and the bound its 16-bit lengths put on the name. */
module HelloBuilder {
  import opened Bytes
  import opened RecordLayer
  import opened TlsParser
  import opened ClientHello
  import opened SniSplit

  function SyntheticExtensions(hostname: Option<bytes>, includePadding: bool): seq<Extension> {
    (match hostname case None => [] case Some(name) => [ServerNames([ServerName(HOST_NAME, name)])])
    + (if includePadding then [Other(0x15, Zeros(10))] else [])
  }

  /** The hello the builder writes: no session, one cipher suite, no compression. */
  function SyntheticHello(hostname: Option<bytes>, includePadding: bool): Hello {
    Hello(0x03, 0x01, [0x03, 0x03], Zeros(32), [], [0x00, 0x2F], [0x00],
          Some(SyntheticExtensions(hostname, includePadding)))
  }

  /** The record written around it, with every length cast to 16 bits. */
  function SyntheticRecord(hostname: Option<bytes>, includePadding: bool): bytes {
    var body := EncodeBody(SyntheticHello(hostname, includePadding));
    Header(CONTENT_TYPE_HANDSHAKE, 0x03, 0x01, 4 + |body|)
    + ([HANDSHAKE_TYPE_CLIENT_HELLO, 0x00] + U16(|body|))
    + body
  }

  method BuildSyntheticClientHello(hostname: Option<bytes>, includePadding: bool) returns (record: bytes)
    ensures record == SyntheticRecord(hostname, includePadding)
  {
    hide EncodeExtension, EncodeExtensions, EncodeBody, SyntheticHello, SyntheticExtensions, U16, Header, Zeros,
      SyntheticRecord;
    var extensionsData: bytes := [];
    if hostname.Some? {
      var host := hostname.value;
      SniExtensionBytes(host);
      extensionsData := extensionsData + [0x00, 0x00];
      extensionsData := extensionsData + U16(2 + 1 + 2 + |host|);
      extensionsData := extensionsData + U16(1 + 2 + |host|);
      extensionsData := extensionsData + [0x00];
      extensionsData := extensionsData + U16(|host|);
      extensionsData := extensionsData + host;
    }
    assert extensionsData == SniBytes(hostname);
    if includePadding {
      extensionsData := extensionsData + [0x00, 0x15, 0x00, 0x0A];
      extensionsData := extensionsData + Zeros(10);
    }
    assert extensionsData == EncodeExtensions(SyntheticExtensions(hostname, includePadding)) by {
      SyntheticExtensionsEncoded(hostname, includePadding);
    }

    var hsBody: bytes := [0x03, 0x03];
    hsBody := hsBody + Zeros(32);
    hsBody := hsBody + [0x00];
    hsBody := hsBody + [0x00, 0x02, 0x00, 0x2F];
    hsBody := hsBody + [0x01, 0x00];
    hsBody := hsBody + U16(|extensionsData|);
    hsBody := hsBody + extensionsData;
    assert hsBody == EncodeBody(SyntheticHello(hostname, includePadding)) by {
      SyntheticBody(hostname, includePadding);
    }

    var hsLen := (4 + |hsBody|) % TWO_TO_THE_16;
    var bodyLen := |hsBody| % TWO_TO_THE_16;
    record := [CONTENT_TYPE_HANDSHAKE, 0x03, 0x01, hsLen / 256, hsLen % 256,
               HANDSHAKE_TYPE_CLIENT_HELLO, 0x00, bodyLen / 256, bodyLen % 256];
    record := record + hsBody;
    SyntheticRecordBytes(hostname, includePadding, hsBody, record);
  }

  // ---- The builder's bytes are the encoding ----------------------------------------------

  function SniBytes(hostname: Option<bytes>): bytes {
    match hostname
    case None => []
    case Some(name) => EncodeExtension(ServerNames([ServerName(HOST_NAME, name)]))
  }

  /** The server_name extension of one host name, field by field. */
  lemma SniExtensionBytes(host: bytes)
    ensures SniBytes(Some(host))
      == [0x00, 0x00] + U16(2 + 1 + 2 + |host|) + U16(1 + 2 + |host|) + [0x00] + U16(|host|) + host
  {
    hide SniBytes, U16;
    NestedSniBytes(host);
    Associated([0x00, 0x00], U16(2 + 1 + 2 + |host|), U16(1 + 2 + |host|), [0x00], U16(|host|), host);
  }

  lemma NestedSniBytes(host: bytes)
    ensures SniBytes(Some(host))
      == [0x00, 0x00] + (U16(2 + 1 + 2 + |host|) + (U16(1 + 2 + |host|) + ([0x00] + (U16(|host|) + host))))
  {
    U16OfZero();
    SniBodyBytes(host);
    hide U16, EncodeServerNames, ExtensionBody;
  }

  lemma SniBodyBytes(host: bytes)
    ensures ExtensionBody(ServerNames([ServerName(HOST_NAME, host)]))
      == U16(1 + 2 + |host|) + ([0x00] + (U16(|host|) + host))
  {
    hide U16, EncodeServerNames;
    SingleName(ServerName(HOST_NAME, host));
  }

  lemma Associated(a: bytes, b: bytes, c: bytes, d: bytes, e: bytes, f: bytes)
    ensures a + (b + (c + (d + (e + f)))) == a + b + c + d + e + f
  {
    ConcatAssociative(d, e, f);
    ConcatAssociative(c, d, e + f);
    ConcatAssociative(b, c, d + (e + f));
  }

  lemma SyntheticRecordBytes(hostname: Option<bytes>, includePadding: bool, body: bytes, record: bytes)
    requires body == EncodeBody(SyntheticHello(hostname, includePadding))
    requires var hsLen, bodyLen := (4 + |body|) % TWO_TO_THE_16, |body| % TWO_TO_THE_16;
      record == [CONTENT_TYPE_HANDSHAKE, 0x03, 0x01, hsLen / 256, hsLen % 256,
                 HANDSHAKE_TYPE_CLIENT_HELLO, 0x00, bodyLen / 256, bodyLen % 256] + body
    ensures record == SyntheticRecord(hostname, includePadding)
  {
    hide EncodeBody, Header, U16;
    SyntheticHead(|body|);
  }

  lemma SyntheticHead(length: nat)
    ensures var hsLen, bodyLen := (4 + length) % TWO_TO_THE_16, length % TWO_TO_THE_16;
      Header(CONTENT_TYPE_HANDSHAKE, 0x03, 0x01, 4 + length) + ([HANDSHAKE_TYPE_CLIENT_HELLO, 0x00] + U16(length))
      == [CONTENT_TYPE_HANDSHAKE, 0x03, 0x01, hsLen / 256, hsLen % 256,
          HANDSHAKE_TYPE_CLIENT_HELLO, 0x00, bodyLen / 256, bodyLen % 256]
  {
  }

  lemma U16OfZero()
    ensures U16(0) == [0x00, 0x00]
  {
  }

  lemma SyntheticExtensionsEncoded(hostname: Option<bytes>, includePadding: bool)
    ensures EncodeExtensions(SyntheticExtensions(hostname, includePadding))
         == if includePadding then SniBytes(hostname) + [0x00, 0x15, 0x00, 0x0A] + Zeros(10) else SniBytes(hostname)
  {
    hide EncodeServerNames;
    var padding := Other(0x15, Zeros(10));
    assert U16(0x15) == [0x00, 0x15] && U16(10) == [0x00, 0x0A];
    assert EncodeExtension(padding) == [0x00, 0x15, 0x00, 0x0A] + Zeros(10);
    assert EncodeExtensions([padding]) == EncodeExtension(padding);
    if hostname.Some? {
      var sni := ServerNames([ServerName(HOST_NAME, hostname.value)]);
      assert EncodeExtensions([sni]) == EncodeExtension(sni);
      assert [sni, padding][1..] == [padding];
      assert EncodeExtensions([sni, padding]) == EncodeExtension(sni) + EncodeExtension(padding);
      assert [sni] + [padding] == [sni, padding];
      assert [sni] + [] == [sni];
    }
  }

  lemma SyntheticBody(hostname: Option<bytes>, includePadding: bool)
    ensures var es := EncodeExtensions(SyntheticExtensions(hostname, includePadding));
      EncodeBody(SyntheticHello(hostname, includePadding))
         == [0x03, 0x03] + Zeros(32) + [0x00] + [0x00, 0x02, 0x00, 0x2F] + [0x01, 0x00] + U16(|es|) + es
  {
    hide EncodeExtensions, SyntheticExtensions;
    var h := SyntheticHello(hostname, includePadding);
    var es := EncodeExtensions(h.extensions.value);
    assert U16(2) == [0x00, 0x02];
    hide U16;
    assert EncodeFields(h) == [0x00] + [0x00, 0x02, 0x00, 0x2F] + [0x01, 0x00];
    assert EncodeTail(h) == U16(|es|) + es;
  }

  // ---- The bound -------------------------------------------------------------------------

  /** The longest name whose record length still fits 16 bits. */
  predicate Fits(hostname: Option<bytes>, includePadding: bool) {
    hostname.Some? ==> |hostname.value| <= if includePadding then 65465 else 65479
  }

  lemma BodyLength(hostname: Option<bytes>, includePadding: bool)
    ensures var h := SyntheticHello(hostname, includePadding);
      var es := (if hostname.Some? then 9 + |hostname.value| else 0) + (if includePadding then 14 else 0);
      && |EncodeFields(h)| == 7
      && |EncodeExtensions(h.extensions.value)| == es
      && |EncodeTail(h)| == 2 + es
      && |EncodeBody(h)| == 43 + es
  {
    SyntheticExtensionsEncoded(hostname, includePadding);
    SniLength(hostname);
    SyntheticBody(hostname, includePadding);
    hide EncodeExtensions, SniBytes, EncodeBody, U16, SyntheticExtensions, EncodeExtension;
  }

  lemma SniLength(hostname: Option<bytes>)
    ensures |SniBytes(hostname)| == if hostname.Some? then 9 + |hostname.value| else 0
  {
    hide SniBytes;
    if hostname.Some? {
      SniExtensionBytes(hostname.value);
    } else {
      assert SniBytes(None) == [] by { NoSniBytes(); }
    }
  }

  lemma NoSniBytes()
    ensures SniBytes(None) == []
  {
  }

  lemma SyntheticWellFormed(hostname: Option<bytes>, includePadding: bool)
    requires Fits(hostname, includePadding)
    ensures var h := SyntheticHello(hostname, includePadding);
      WellFormed(h) && SyntheticRecord(hostname, includePadding) == Encode(h)
  {
    hide EncodeBody, EncodeExtensions, EncodeFields, EncodeTail, Header, U16;
    var h := SyntheticHello(hostname, includePadding);
    BodyLength(hostname, includePadding);
    SyntheticExtensionsWellFormed(hostname, includePadding);
    var body := EncodeBody(h);
    ShortHandshakeHeader(|body|);
    ConcatAssociative(Header(CONTENT_TYPE_HANDSHAKE, 0x03, 0x01, 4 + |body|), HandshakeHeader(|body|), body);
  }

  lemma SyntheticExtensionsWellFormed(hostname: Option<bytes>, includePadding: bool)
    requires Fits(hostname, includePadding)
    ensures WellFormedExtensions(SyntheticExtensions(hostname, includePadding))
  {
    hide U16;
    var es := SyntheticExtensions(hostname, includePadding);
    if hostname.Some? {
      SingleName(ServerName(HOST_NAME, hostname.value));
      assert WellFormedExtension(es[0]);
      assert includePadding ==> es[1..] == [Other(0x15, Zeros(10))];
    }
    assert WellFormedExtension(Other(0x15, Zeros(10)));
    assert WellFormedExtensions([Other(0x15, Zeros(10))]);
  }

  lemma ShortHandshakeHeader(length: nat)
    requires length < TWO_TO_THE_16
    ensures HandshakeHeader(length) == [HANDSHAKE_TYPE_CLIENT_HELLO, 0x00] + U16(length)
  {
  }

  /** Within the bound, the walk returns the very name that was put in, at offset 61. */
  lemma BuiltNameIsFound(hostname: Option<bytes>, includePadding: bool)
    requires Fits(hostname, includePadding)
    ensures var r := SniInfoOf(SyntheticRecord(hostname, includePadding));
      match hostname
      case None => r == None
      case Some(name) => r == Some(SniInfo(61, |name|)) && At(SyntheticRecord(hostname, includePadding), 61, name)
  {
    var h := SyntheticHello(hostname, includePadding);
    SyntheticWellFormed(hostname, includePadding);
    WalkFindsFirstEntry(h);
    BodyLength(hostname, includePadding);
    if hostname.Some? {
      assert FirstSni(h.extensions.value) == Some(SniList(6, [ServerName(HOST_NAME, hostname.value)]));
      assert SniNames(h)[..0] == [];
      assert NameAt(h, 0) == SniInfo(61, |hostname.value|);
    }
  }

  /**
    The first-record extraction gives the built hello back, whatever follows it on the wire, exactly
    when the name is within the bound; one byte more and the record length wraps.
   */
  lemma BuiltRecordIsExtractedExactly(hostname: Option<bytes>, includePadding: bool)
    ensures var record := SyntheticRecord(hostname, includePadding);
      (forall tail :: ExtractFirstTlsRecord(record + tail) == (record, tail)) <==> Fits(hostname, includePadding)
  {
    var record := SyntheticRecord(hostname, includePadding);
    BodyLength(hostname, includePadding);
    SyntheticHeader(hostname, includePadding);
    hide SyntheticRecord, EncodeBody, EncodeExtensions, EncodeFields, EncodeTail;
    var declared := (|record| - HEADER_SIZE) % TWO_TO_THE_16;
    if Fits(hostname, includePadding) {
      forall tail
        ensures ExtractFirstTlsRecord(record + tail) == (record, tail)
      {
        ExtractDeclared(record, tail);
      }
    } else if declared == 0 {
      assert ExtractFirstTlsRecord(record + [0]) == (record + [0], []);
    } else {
      assert record + [] == record;
      assert |ExtractFirstTlsRecord(record + []).1| > 0;
    }
  }

  lemma SyntheticHeader(hostname: Option<bytes>, includePadding: bool)
    ensures var record := SyntheticRecord(hostname, includePadding);
      && IsClientHello(record)
      && |record| == HEADER_SIZE + 4 + |EncodeBody(SyntheticHello(hostname, includePadding))|
      && Be16(record[3], record[4]) == (|record| - HEADER_SIZE) % TWO_TO_THE_16
  {
    hide EncodeBody, Header, Be16;
    var body := EncodeBody(SyntheticHello(hostname, includePadding));
    assert SyntheticRecord(hostname, includePadding)[5] == ([HANDSHAKE_TYPE_CLIENT_HELLO, 0x00] + U16(|body|))[0];
  }

  lemma ExtractDeclared(record: bytes, tail: bytes)
    requires IsClientHello(record) && |record| == HEADER_SIZE + Be16(record[3], record[4])
    ensures ExtractFirstTlsRecord(record + tail) == (record, tail)
  {
    var raw := record + tail;
    assert raw[..|record|] == record && raw[|record|..] == tail;
    if tail == [] {
      assert raw == record;
    }
  }

  // ---- Any well-formed hello, end to end -------------------------------------------------

  /**
    A read made of any well-formed hello and any further bytes: the hello is carved out exactly; it is
    split just when its first server name is longer than four bytes; and at every possible split point
    the name is parted across the two records, the server's view of the stream being unchanged.
   */
  lemma WellFormedHelloEndToEnd(h: Hello, trailing: bytes, host: string, split: nat, later: bytes)
    requires WellFormed(h)
    ensures var raw := Encode(h) + trailing;
      && ExtractFirstTlsRecord(raw) == (Encode(h), trailing)
      && FirstRecordComplete(raw)
      && (Splits(raw) <==> HasSni(h) && |SniNames(h)[0].name| > 4)
      && (IsSplitPoint(raw, host, split) ==>
            && SplitInRecord(raw, split)
            && PreservedOnSplit(raw, split, later)
            && var name, cut := SniNames(h)[0].name, split - NameAt(h, 0).hostnameOffset;
            && 2 <= cut <= |name| - 2
            && At(Encode(h), split - cut, name))
  {
    var raw := Encode(h) + trailing;
    HelloIsCarved(h, trailing);
    WalkFindsFirstEntry(h);
    if IsSplitPoint(raw, host, split) {
      SplitAlwaysLands(raw, host, split);
      SplitPreservesStream(raw, split, later);
    }
  }

  lemma HelloIsCarved(h: Hello, trailing: bytes)
    requires WellFormed(h)
    ensures var raw := Encode(h) + trailing;
      ExtractFirstTlsRecord(raw) == (Encode(h), trailing) && FirstRecordComplete(raw) && IsClientHello(raw)
  {
    hide Encode, EncodeBody, Be16;
    EncodedHeader(h);
    ExtractDeclared(Encode(h), trailing);
  }
}
