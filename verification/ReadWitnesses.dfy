/** Reads the proxy can receive on which the server's stream does not survive. */
module ReadWitnesses {
  import opened Bytes
  import opened RecordLayer
  import opened TlsParser
  import opened ClientHello
  import opened HelloBuilder
  import opened SniSplit
  import opened Tunnel

  const ELEVEN: bytes := Zeros(11)

  lemma ShortHello()
    ensures var h := SyntheticHello(Some(ELEVEN), true);
      ClientHello.WellFormed(h) && |Encode(h)| == 86 && SniInfoOf(Encode(h)) == Some(SniInfo(61, 11))
      && IsClientHello(Encode(h)) && |Encode(h)| == HEADER_SIZE + Be16(Encode(h)[3], Encode(h)[4])
  {
    hide SyntheticHello, SyntheticRecord, Encode, EncodeBody, SniInfoOf, WellFormed;
    SyntheticWellFormed(Some(ELEVEN), true);
    BuiltNameIsFound(Some(ELEVEN), true);
    BodyLength(Some(ELEVEN), true);
    EncodedHeader(SyntheticHello(Some(ELEVEN), true));
  }

  /** A hello of 86 bytes, its last byte not yet there: the read is split and the record incomplete. */
  lemma IncompleteReadIsSplit()
    ensures exists raw, host, split ::
      |raw| <= 4096 && IsSplitPoint(raw, host, split) && !FirstRecordComplete(raw)
    ensures exists raw :: |raw| <= 4096 && Splits(raw) && !StreamSurvives(raw)
  {
    hide SyntheticHello, Encode, EncodeBody, SniInfoOf, FirstRecordComplete, ExtractFirstTlsRecord;
    ShortHello();
    var whole := Encode(SyntheticHello(Some(ELEVEN), true));
    var raw := whole[..85];
    SniInfoOfPrefix(raw, whole);
    PartialExtraction(raw, whole);
    var host := "";
    CutWindowExactly(11, host, 5);
    var split := 61 + CutWindow(11, host).0;
    assert IsSplitPoint(raw, host, split);
    assert Splits(raw) && !StreamSurvives(raw);
  }

  /** A hello without a name and one byte more: the fallback drops that byte. */
  lemma FallbackDropsBytes()
    ensures exists raw :: |raw| <= 4096 && !Splits(raw) && !StreamSurvives(raw)
  {
    NamelessHello();
    hide SyntheticRecord, SniInfoOf, ExtractFirstTlsRecord, EmptyRecords;
    var record := SyntheticRecord(None, false);
    var raw := record + [0];
    ExtractDeclared(record, [0]);
    LoneByteIsNoRecord();
    assert !Splits(raw) && !StreamSurvives(raw);
  }

  lemma NamelessHello()
    ensures var record := SyntheticRecord(None, false);
      && SniInfoOf(record) == None && IsClientHello(record)
      && |record| == 52 == HEADER_SIZE + Be16(record[3], record[4])
  {
    hide SyntheticRecord, SyntheticHello, SniInfoOf, EncodeBody, EncodeExtensions, EncodeFields, EncodeTail;
    BuiltNameIsFound(None, false);
    SyntheticHeader(None, false);
    BodyLength(None, false);
  }

  lemma LoneByteIsNoRecord()
    ensures !EmptyRecords([0])
  {
  }
}
