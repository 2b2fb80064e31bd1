/**
  What the proxy does to the server's socket with the first bytes read from the client: the
  ClientHello part of handle_connect_tunnel in src/proxy.rs, with transmit_tls_records, and the
  chunked fallback of src/utils.rs.
 */
module Tunnel {
  import opened Bytes
  import opened RecordLayer
  import opened Fragmenter
  import opened TlsParser
  import opened ClientHello
  import opened SniSplit
  import opened RemoteStream

  // ---- Properties of a run of events -----------------------------------------------------

  /**
    At no point of the run has a byte beyond `first` been sent unless, earlier, the stream was flushed
    with exactly `first` on the wire: the two records never share a write.
   */
  ghost predicate RecordsApart(es: seq<Event>, first: bytes) {
    forall k :: 0 <= k <= |es| && |Accepted(es[..k])| > |first| ==>
      exists j :: 0 <= j < k && es[j] == Flushed && Accepted(es[..j]) == first
  }

  /**
    Nothing is delayed for a meta domain; otherwise there is exactly one pause, of 1 to 5 ms, right after
    the flush that follows exactly `first`.
   */
  ghost predicate DelayedBetween(es: seq<Event>, first: bytes, isMeta: bool) {
    if isMeta then forall e :: e in es ==> !e.Delayed?
    else exists j :: 0 < j < |es| && PauseAt(es, j, first)
  }

  ghost predicate PauseAt(es: seq<Event>, j: nat, first: bytes)
    requires 0 < j < |es|
  {
    && es[j].Delayed? && 1 <= es[j].ms <= 5
    && es[j - 1] == Flushed && Accepted(es[..j - 1]) == first
    && forall i :: 0 <= i < |es| && es[i].Delayed? ==> i == j
  }

  /** The run in its parts: `first` and then `rest`, each offered whole as far as not yet taken, a flush after each. */
  ghost predicate TwoRuns(es: seq<Event>, run: seq<Event>, pause: seq<Event>, second: seq<Event>,
                          first: bytes, rest: bytes) {
    && es == run + ([Flushed] + pause + second + [Flushed])
    && OffersAllLeft(run, first) && Accepted(run) == first
    && OffersAllLeft(second, rest) && Accepted(second) == rest
    && forall e :: e in pause ==> e.Delayed?
  }

  lemma NothingBeyond(es: seq<Event>, first: bytes)
    requires |Accepted(es)| <= |first|
    ensures RecordsApart(es, first)
  {
    forall k | 0 <= k <= |es|
      ensures |Accepted(es[..k])| <= |first|
    {
      WireOnlyGrows(es, k);
    }
  }

  /** A flush right after the first record keeps the records apart, whatever follows. */
  lemma FlushKeepsApart(run: seq<Event>, rest: seq<Event>, first: bytes)
    requires Accepted(run) == first
    ensures RecordsApart(run + [Flushed] + rest, first)
  {
    var es := run + [Flushed] + rest;
    var j := |run|;
    assert es[..j] == run && es[j] == Flushed;
    assert es[..j + 1] == run + [Flushed];
    AcceptedAppend(run, Flushed);
    forall k | 0 <= k <= |es| && |Accepted(es[..k])| > |first|
      ensures exists i :: 0 <= i < k && es[i] == Flushed && Accepted(es[..i]) == first
    {
      if k <= j {
        assert run[..k] == es[..k];
        WireOnlyGrows(run, k);
      }
    }
  }

  // ---- Sending the two records -----------------------------------------------------------

  /** The second record, if there is one, and the rest of the read behind it. */
  function SecondWrite(rec2: Option<TlsRecordSlice>, trailing: bytes): bytes {
    (if rec2.Some? then rec2.value.Wire() else []) + trailing
  }

  method TransmitTlsRecords(
    remote: Socket, rec1: TlsRecordSlice, rec2: Option<TlsRecordSlice>, trailing: bytes, isMeta: bool)
    returns (r: IoResult<()>)
    modifies remote
    ensures old(remote.log) <= remote.log
    ensures var es := Since(old(remote.log), remote.log);
      && Accepted(es) <= rec1.Wire() + SecondWrite(rec2, trailing)
      && RecordsApart(es, rec1.Wire())
      && (r.Ok? ==>
            && Accepted(es) == rec1.Wire() + SecondWrite(rec2, trailing)
            && es != [] && es[|es| - 1] == Flushed
            && DelayedBetween(es, rec1.Wire(), isMeta)
            && exists run, pause, second :: TwoRuns(es, run, pause, second, rec1.Wire(), SecondWrite(rec2, trailing)))
  {
    hide Accepted, RecordsApart, DelayedBetween, Delivers, Since, Flatten, SecondWrite, OffersAllLeft, OffersInTurn;
    ghost var start, first, rest := remote.log, rec1.Wire(), SecondWrite(rec2, trailing);
    TwoSlices(rec1.header, rec1.payload);
    var sent := WriteAllVectored(remote, [rec1.header, rec1.payload]);
    ghost var run := Since(start, remote.log);
    SinceIs(start, remote.log);
    FewSlicesOffersAll(run, [rec1.header, rec1.payload]);
    if sent.Err? {
      FirstFailed(run, first, rest, sent);
      return sent;
    }
    FirstDelivered(run, first, sent);
    var flushed := remote.Flush();
    if flushed.Err? {
      Assemble(start, run, [FlushFailed], remote.log);
      RunUnflushed(run, first, rest);
      return flushed;
    }
    ghost var pause, afterFlush := [], remote.log;
    if !isMeta {
      remote.RandomDelay(1, 5);
      pause := [remote.log[|afterFlush|]];
    }
    ghost var afterDelay := remote.log;
    assert afterDelay == afterFlush + pause;
    sent := TransmitSecond(remote, rec2, trailing);
    ghost var second, afterSecond := Since(afterDelay, remote.log), remote.log;
    SinceIs(afterDelay, remote.log);
    if sent.Err? {
      assert remote.log == afterSecond + [];
      AssembleRun(start, run, pause, second, [], remote.log);
      WholeRun(run, pause, second, [], first, rest, sent, isMeta);
      return sent;
    }
    r := remote.Flush();
    ghost var last := [remote.log[|afterSecond|]];
    AssembleRun(start, run, pause, second, last, remote.log);
    WholeRun(run, pause, second, last, first, rest, sent, isMeta);
    if r.Ok? {
      FirstDelivered(second, rest, sent);
      assert TwoRuns(Since(start, remote.log), run, pause, second, first, rest);
    }
  }

  /** Record 2 and the trailing data, in one vectored write. */
  method TransmitSecond(remote: Socket, rec2: Option<TlsRecordSlice>, trailing: bytes) returns (r: IoResult<()>)
    modifies remote
    ensures old(remote.log) <= remote.log
    ensures Delivers(Since(old(remote.log), remote.log), SecondWrite(rec2, trailing), r)
    ensures OffersAllLeft(Since(old(remote.log), remote.log), SecondWrite(rec2, trailing))
  {
    hide Delivers, OffersAllLeft, OffersInTurn, Accepted, Flatten, Since;
    ghost var start := remote.log;
    if rec2.Some? {
      if trailing != [] {
        ThreeSlices(rec2.value.header, rec2.value.payload, trailing);
        r := WriteAllVectored(remote, [rec2.value.header, rec2.value.payload, trailing]);
        FewSlicesOffersAll(Since(start, remote.log), [rec2.value.header, rec2.value.payload, trailing]);
      } else {
        TwoSlices(rec2.value.header, rec2.value.payload);
        assert SecondWrite(rec2, trailing) == rec2.value.Wire();
        r := WriteAllVectored(remote, [rec2.value.header, rec2.value.payload]);
        FewSlicesOffersAll(Since(start, remote.log), [rec2.value.header, rec2.value.payload]);
      }
    } else {
      assert SecondWrite(rec2, trailing) == trailing;
      if trailing != [] {
        r := WriteAll(remote, trailing);
      } else {
        r := Ok(());
        NothingSent(start);
      }
    }
  }

  lemma NothingSent(start: seq<Event>)
    ensures Delivers(Since(start, start), [], Ok(())) && OffersAllLeft(Since(start, start), [])
  {
  }

  lemma TwoSlices(a: bytes, b: bytes)
    ensures Flatten([a, b]) == a + b
  {
    assert [a, b][1..] == [b];
    FlattenSingle(b);
  }

  lemma ThreeSlices(a: bytes, b: bytes, c: bytes)
    ensures Flatten([a, b, c]) == (a + b) + c
  {
    assert [a, b, c][1..] == [b, c];
    TwoSlices(b, c);
  }

  // ---- The shape of the whole run --------------------------------------------------------

  lemma Assemble(start: seq<Event>, run: seq<Event>, rest: seq<Event>, now: seq<Event>)
    requires now == start + run + rest
    ensures start <= now && Since(start, now) == run + rest
  {
  }

  lemma AssembleRun(start: seq<Event>, run: seq<Event>, pause: seq<Event>, second: seq<Event>, last: seq<Event>,
                    now: seq<Event>)
    requires now == (((start + run) + [Flushed]) + pause) + second + last
    ensures start <= now && Since(start, now) == run + ([Flushed] + pause + second + last)
  {
    assert now == start + (run + ([Flushed] + pause + second + last));
  }

  lemma SinceIs(a: seq<Event>, b: seq<Event>)
    requires a <= b
    ensures b == a + Since(a, b)
  {
  }

  lemma FirstFailed(es: seq<Event>, first: bytes, rest: bytes, r: IoResult<()>)
    requires Delivers(es, first, r)
    ensures Accepted(es) <= first + rest && RecordsApart(es, first)
  {
    NothingBeyond(es, first);
  }

  lemma FirstDelivered(es: seq<Event>, first: bytes, r: IoResult<()>)
    requires Delivers(es, first, r) && r.Ok?
    ensures Accepted(es) == first
    ensures forall e :: e in es ==> IsWrite(e)
  {
  }

  lemma RunUnflushed(run: seq<Event>, first: bytes, rest: bytes)
    requires Accepted(run) == first
    ensures Accepted(run + [FlushFailed]) <= first + rest && RecordsApart(run + [FlushFailed], first)
  {
    AcceptedAppend(run, FlushFailed);
    NothingBeyond(run + [FlushFailed], first);
  }

  lemma WholeRun(run: seq<Event>, pause: seq<Event>, second: seq<Event>, last: seq<Event>,
                 first: bytes, rest: bytes, sent: IoResult<()>, isMeta: bool)
    requires Accepted(run) == first && forall e :: e in run ==> IsWrite(e)
    requires Delivers(second, rest, sent)
    requires last == [] || last == [Flushed] || last == [FlushFailed]
    requires if isMeta then pause == [] else exists ms :: 1 <= ms <= 5 && pause == [Delayed(ms)]
    ensures var es := run + ([Flushed] + pause + second + last);
      && Accepted(es) <= first + rest
      && (sent.Ok? ==> Accepted(es) == first + rest)
      && RecordsApart(es, first)
      && DelayedBetween(es, first, isMeta)
  {
    hide RecordsApart, DelayedBetween, Accepted;
    var es := run + ([Flushed] + pause + second + last);
    var tail := pause + second + last;
    assert es == run + [Flushed] + tail;
    FlushKeepsApart(run, tail, first);
    WireOfRun(run, pause, second, last, first, isMeta);
    DeliveredPrefix(second, rest, sent, first);
    assert es == run + [Flushed] + pause + (second + last);
    PausePlaced(run, pause, second + last, first, isMeta);
  }

  lemma DeliveredPrefix(es: seq<Event>, data: bytes, r: IoResult<()>, first: bytes)
    requires Delivers(es, data, r)
    ensures first + Accepted(es) <= first + data
    ensures r.Ok? ==> Accepted(es) == data
    ensures forall e :: e in es ==> !e.Delayed?
  {
  }

  lemma WireOfRun(run: seq<Event>, pause: seq<Event>, second: seq<Event>, last: seq<Event>, first: bytes, isMeta: bool)
    requires Accepted(run) == first
    requires forall e :: e in pause + last ==> !e.Wrote?
    ensures Accepted(run + ([Flushed] + pause + second + last)) == first + Accepted(second)
  {
    hide Accepted;
    var wait := [Flushed] + pause;
    QuietRun(wait);
    QuietRun(last);
    AcceptedConcat(run, wait + second + last);
    AcceptedConcat(wait + second, last);
    AcceptedConcat(wait, second);
    assert [] + Accepted(second) + [] == Accepted(second);
  }

  lemma PausePlaced(run: seq<Event>, pause: seq<Event>, rest: seq<Event>, first: bytes, isMeta: bool)
    requires Accepted(run) == first
    requires forall e :: e in run + rest ==> !e.Delayed?
    requires if isMeta then pause == [] else exists ms :: 1 <= ms <= 5 && pause == [Delayed(ms)]
    ensures DelayedBetween(run + [Flushed] + pause + rest, first, isMeta)
  {
    hide Accepted;
    var es := run + [Flushed] + pause + rest;
    if !isMeta {
      var j := |run| + 1;
      assert es[j] == pause[0] && es[j - 1] == Flushed;
      assert es[..j - 1] == run;
      assert forall i :: 0 <= i < |run| ==> run[i] in run + rest;
      assert forall i :: 0 <= i < |rest| ==> rest[i] in run + rest;
      assert PauseAt(es, j, first);
    } else {
      forall e | e in es
        ensures !e.Delayed?
      {
        assert e in run + rest || e == Flushed;
      }
    }
  }

  // ---- The fallback ----------------------------------------------------------------------

  /** Pieces of 1 to 256 bytes, every one but the last at least 80. */
  predicate Chunked(chunks: seq<bytes>) {
    && (forall i :: 0 <= i < |chunks| ==> 1 <= |chunks[i]| <= 256)
    && (forall i :: 0 <= i < |chunks| - 1 ==> 80 <= |chunks[i]|)
  }

  /** So many bytes take between n/256 and n/80 pieces, both rounded up. */
  lemma {:induction false} ChunkCount(chunks: seq<bytes>)
    requires Chunked(chunks)
    ensures var n := |Flatten(chunks)|;
      (n + 255) / 256 <= |chunks| <= (n + 79) / 80
    decreases |chunks|
  {
    if |chunks| > 1 {
      var rest := chunks[1..];
      assert Chunked(rest) by {
        assert forall i :: 0 <= i < |rest| ==> rest[i] == chunks[i + 1];
      }
      ChunkCount(rest);
    } else if |chunks| == 1 {
      FlattenSingle(chunks[0]);
      assert chunks == [chunks[0]];
    }
  }

  /** One `write_all` of a chunk: the chunk is offered whole first, and then what is left of it. */
  ghost predicate ChunkRun(run: seq<Event>, chunk: bytes, r: IoResult<()>) {
    && run != [] && IsWrite(run[0]) && run[0].offer == chunk
    && Delivers(run, chunk, r) && OffersAllLeft(run, chunk)
  }

  /**
    The events of the fallback are one run after another, each the delivery of one chunk, and a flush.
    When it fails, either the flush did or the chunk after the delivered ones was not delivered.
   */
  ghost predicate ChunkedRun(es: seq<Event>, data: bytes, runs: seq<seq<Event>>, chunks: seq<bytes>, r: IoResult<()>) {
    && Chunked(chunks) && |runs| == |chunks|
    && (forall i :: 0 <= i < |runs| ==> ChunkRun(runs[i], chunks[i], Ok(())))
    && if r.Ok? then
         Flatten(chunks) == data && es == Flatten(runs) + (if data == [] then [] else [Flushed])
       else
         || (Flatten(chunks) == data && es == Flatten(runs) + [FlushFailed])
         || exists last, chunk :: ChunkRun(last, chunk, r) && es == Flatten(runs) + last
              && Chunked(chunks + [chunk]) && Flatten(chunks) + chunk <= data
  }

  /** A successful fallback hands the socket between n/256 and n/80 chunks, both rounded up. */
  lemma ChunkRunCount(es: seq<Event>, data: bytes, runs: seq<seq<Event>>, chunks: seq<bytes>, r: IoResult<()>)
    requires ChunkedRun(es, data, runs, chunks, r) && r.Ok?
    ensures (|data| + 255) / 256 <= |runs| <= (|data| + 79) / 80
  {
    ChunkCount(chunks);
  }

  method SplitAndWrite(data: bytes, stream: Socket)
    returns (r: IoResult<()>, ghost runs: seq<seq<Event>>, ghost chunks: seq<bytes>)
    modifies stream
    ensures old(stream.log) <= stream.log
    ensures var es := Since(old(stream.log), stream.log);
      && ChunkedRun(es, data, runs, chunks, r)
      && Accepted(es) <= data
      && (r.Ok? ==> Accepted(es) == data)
      && (r.Ok? ==> (|data| + 255) / 256 <= |runs| <= (|data| + 79) / 80)
      && (forall e :: e in es && IsWrite(e) ==> |e.offer| <= 256)
  {
    hide Accepted, Delivers, Chunked, Flatten, OffersAllLeft, ChunkRun, Since;
    ghost var start := stream.log;
    chunks, runs := [], [];
    NoChunks();
    NothingSince(start);
    if data == [] {
      r := Ok(());
      ChunkRunCount([], data, runs, chunks, r);
      return;
    }
    var offset: nat := 0;
    while offset < |data|
      invariant offset <= |data| && start <= stream.log
      invariant Flatten(chunks) == data[..offset] == Accepted(Since(start, stream.log))
      invariant Chunked(chunks) && (offset < |data| ==> LongChunks(chunks))
      invariant Since(start, stream.log) == Flatten(runs) && |runs| == |chunks|
      invariant forall i :: 0 <= i < |runs| ==> ChunkRun(runs[i], chunks[i], Ok(()))
      invariant forall e :: e in Since(start, stream.log) ==> IsWrite(e) && |e.offer| <= 256
    {
      var drawn: nat :| 80 <= drawn <= 256;
      var chunkSize := if drawn < |data| - offset then drawn else |data| - offset;
      var chunk := data[offset..offset + chunkSize];
      ghost var before := stream.log;
      r := WriteAll(stream, chunk);
      ghost var run := Since(before, stream.log);
      SinceConcat(start, before, stream.log);
      ChunkDelivered(run, data, offset, chunk, r);
      ChunkAppend(chunks, chunk);
      if r.Err? {
        assert ChunkRun(run, chunk, r) && Since(start, stream.log) == Flatten(runs) + run;
        return;
      }
      RunAppend(runs, run);
      chunks, runs := chunks + [chunk], runs + [run];
      offset := offset + chunkSize;
    }
    assert data[..offset] == data;
    ghost var before := stream.log;
    r := stream.Flush();
    FlushAppended(start, before, stream.log);
    if r.Ok? {
      ChunkRunCount(Since(start, stream.log), data, runs, chunks, r);
    }
  }

  lemma SinceConcat(a: seq<Event>, b: seq<Event>, c: seq<Event>)
    requires a <= b && b <= c
    ensures a <= c && Since(a, c) == Since(a, b) + Since(b, c)
    ensures Accepted(Since(a, c)) == Accepted(Since(a, b)) + Accepted(Since(b, c))
  {
    hide Accepted;
    assert Since(a, c) == Since(a, b) + Since(b, c);
    AcceptedConcat(Since(a, b), Since(b, c));
  }

  lemma FlushAppended(start: seq<Event>, before: seq<Event>, now: seq<Event>)
    requires start <= before && (now == before + [Flushed] || now == before + [FlushFailed])
    ensures start <= now && Since(start, now) == Since(start, before) + [now[|before|]]
    ensures Accepted(Since(start, now)) == Accepted(Since(start, before))
  {
    hide Accepted;
    assert Since(start, now) == Since(start, before) + [now[|before|]];
    AcceptedAppend(Since(start, before), now[|before|]);
  }

  lemma RunAppend(runs: seq<seq<Event>>, run: seq<Event>)
    ensures Flatten(runs + [run]) == Flatten(runs) + run
  {
    FlattenConcat(runs, [run]);
    FlattenSingle(run);
  }

  ghost predicate LongChunks(chunks: seq<bytes>) {
    forall i :: 0 <= i < |chunks| ==> 80 <= |chunks[i]|
  }

  lemma NoChunks()
    ensures Chunked([]) && Flatten<byte>([]) == [] && Flatten<Event>([]) == []
  {
  }

  lemma ChunkAppend(chunks: seq<bytes>, chunk: bytes)
    requires Chunked(chunks) && LongChunks(chunks) && 1 <= |chunk| <= 256
    ensures Chunked(chunks + [chunk]) && Flatten(chunks + [chunk]) == Flatten(chunks) + chunk
    ensures 80 <= |chunk| ==> LongChunks(chunks + [chunk])
  {
    FlattenConcat(chunks, [chunk]);
    FlattenSingle(chunk);
  }

  lemma ChunkDelivered(es: seq<Event>, data: bytes, offset: nat, chunk: bytes, r: IoResult<()>)
    requires chunk != [] && offset + |chunk| <= |data| && chunk == data[offset..offset + |chunk|]
    requires Delivers(es, chunk, r) && OffersAllLeft(es, chunk)
    ensures forall e :: e in es ==> IsWrite(e) && |e.offer| <= |chunk|
    ensures data[..offset] + Accepted(es) <= data && data[..offset] + chunk <= data
    ensures r.Ok? ==> data[..offset] + Accepted(es) == data[..offset + |chunk|]
    ensures ChunkRun(es, chunk, r)
    ensures r.Ok? ==> ChunkRun(es, chunk, Ok(()))
  {
    hide Accepted, OffersAllLeft, ChunkRun;
    FirstOffer(es, chunk, r);
    PartOf(data, offset, chunk, Accepted(es));
  }

  lemma PartOf(data: bytes, offset: nat, chunk: bytes, part: bytes)
    requires offset + |chunk| <= |data| && chunk == data[offset..offset + |chunk|]
    ensures data[..offset] + chunk == data[..offset + |chunk|]
    ensures data[..offset] + chunk <= data
    ensures part <= chunk ==> data[..offset] + part <= data
  {
    TakeMore(data, offset, |chunk|);
  }

  lemma FirstOffer(es: seq<Event>, chunk: bytes, r: IoResult<()>)
    requires chunk != [] && Delivers(es, chunk, r) && OffersAllLeft(es, chunk)
    ensures ChunkRun(es, chunk, r)
    ensures r.Ok? ==> ChunkRun(es, chunk, Ok(()))
    ensures forall e :: e in es ==> |e.offer| <= |chunk|
  {
    assert es != [];
    assert Accepted(es[..0]) == [];
  }

  // ---- The first read, end to end --------------------------------------------------------

  /** What this read makes of the server's wire when every byte gets through. */
  function Sent(raw: bytes, split: Option<nat>): bytes {
    match split
    case Some(at) => SplitBytes(raw, at)
    case None => ExtractFirstTlsRecord(raw).0
  }

  /** The condition under which the server's stream survives, checkable from the read alone. */
  predicate StreamSurvives(raw: bytes) {
    if Splits(raw) then FirstRecordComplete(raw) else EmptyRecords(ExtractFirstTlsRecord(raw).1)
  }

  /** What the fallback does to the socket, chunk by chunk, and how many chunks it takes. */
  ghost predicate FallbackRun(es: seq<Event>, data: bytes, r: IoResult<()>) {
    && (forall e :: e in es && IsWrite(e) ==> |e.offer| <= 256)
    && exists runs, chunks ::
         && ChunkedRun(es, data, runs, chunks, r)
         && (r.Ok? ==> (|data| + 255) / 256 <= |runs| <= (|data| + 79) / 80)
  }

  /** What becomes of one read, which the source's buffer keeps to 4096 bytes. */
  method ForwardClientHello(remote: Socket, raw: bytes, host: string, isMeta: bool)
    returns (r: IoResult<()>, ghost split: Option<nat>)
    requires |raw| < TWO_TO_THE_16
    modifies remote
    ensures old(remote.log) <= remote.log
    ensures split.Some? <==> Splits(raw)
    ensures split.Some? ==> IsSplitPoint(raw, host, split.value)
    ensures var es := Since(old(remote.log), remote.log);
      && Accepted(es) <= Sent(raw, split)
      && (r.Ok? ==> Accepted(es) == Sent(raw, split))
      && (r.Ok? && !IsClientHello(raw) ==> Accepted(es) == raw)
      && (r.Ok? && split.None? && !FirstRecordComplete(raw) ==> Accepted(es) == raw)
      && (split.Some? ==>
            var first := FragmentAtOffset(ExtractFirstTlsRecord(raw).0, split.value).0.Wire();
            RecordsApart(es, first) && (r.Ok? ==> DelayedBetween(es, first, isMeta)))
      && (split.None? ==> FallbackRun(es, ExtractFirstTlsRecord(raw).0, r))
    ensures r.Ok? ==> var sent := Accepted(Since(old(remote.log), remote.log));
      ((forall later :: SameContent(raw + later, sent + later)) <==> StreamSurvives(raw))
  {
    hide Accepted, RecordsApart, DelayedBetween, ChunkedRun, TwoRuns, SniInfoOf, ExtractFirstTlsRecord,
      FragmentAtOffset, SameContent, FirstRecordComplete, SplitBytes, CutWindow;
    split := None;
    WholeReadSent(raw);
    if raw == [] {
      NothingSince(remote.log);
      EmptyRead();
      SurvivesExactly(raw, host, None);
      return Ok(()), None;
    }
    var (rawCh, trailing) := ExtractFirstTlsRecord(raw);
    var sniInfo := FindSniInfo(rawCh);
    if sniInfo.Some? {
      if sniInfo.value.hostnameLength > 4 {
        var cutInSni := CalculateSniCutOffset(sniInfo.value.hostnameLength, host);
        var splitPoint := sniInfo.value.hostnameOffset + cutInSni;
        SplitAlwaysLands(raw, host, splitPoint);
        if splitPoint > HEADER_SIZE && splitPoint < |rawCh| {
          split := Some(splitPoint);
          var (rec1, rec2) := FragmentAtOffset(rawCh, splitPoint);
          SplitBytesAre(raw, splitPoint);
          SurvivesExactly(raw, host, split);
          r := TransmitTlsRecords(remote, rec1, rec2, trailing, isMeta);
          return;
        }
      }
    }
    SurvivesExactly(raw, host, None);
    ghost var runs, chunks;
    r, runs, chunks := SplitAndWrite(rawCh, remote);
    assert ChunkedRun(Since(old(remote.log), remote.log), rawCh, runs, chunks, r);
  }

  lemma EmptyRead()
    ensures ExtractFirstTlsRecord([]) == ([], []) && SniInfoOf([]) == None
    ensures FallbackRun([], [], Ok(()))
  {
    NoChunks();
    assert ChunkedRun([], [], [], [], Ok(()));
  }

  /** A read that is no hello, or whose first record is incomplete, is taken whole; only a hello is split. */
  lemma WholeReadSent(raw: bytes)
    ensures !IsClientHello(raw) || !FirstRecordComplete(raw) ==> ExtractFirstTlsRecord(raw) == (raw, [])
    ensures !IsClientHello(raw) ==> !Splits(raw)
  {
    ExtractExactly(raw);
  }

  lemma SplitBytesAre(raw: bytes, split: nat)
    ensures var (ch, trailing) := ExtractFirstTlsRecord(raw);
      var (r1, r2) := FragmentAtOffset(ch, split);
      SplitBytes(raw, split) == r1.Wire() + SecondWrite(r2, trailing)
  {
    var (ch, trailing) := ExtractFirstTlsRecord(raw);
    var (r1, r2) := FragmentAtOffset(ch, split);
    ConcatAssociative(r1.Wire(), if r2.Some? then r2.value.Wire() else [], trailing);
  }

  /** On either path, the stream survives for every continuation exactly under the stated condition. */
  lemma SurvivesExactly(raw: bytes, host: string, split: Option<nat>)
    requires |raw| < TWO_TO_THE_16
    requires split.Some? <==> Splits(raw)
    requires split.Some? ==> IsSplitPoint(raw, host, split.value)
    ensures (forall later :: SameContent(raw + later, Sent(raw, split) + later)) <==> StreamSurvives(raw)
  {
    hide SameContent, FirstRecordComplete, SplitBytes, CutWindow, ExtractFirstTlsRecord;
    if split.Some? {
      SplitAlwaysLands(raw, host, split.value);
      SplitReadIsHello(raw);
      SplitPreservesExactly(raw, split.value);
      assert forall later ::
          PreservedOnSplit(raw, split.value, later) == SameContent(raw + later, Sent(raw, split) + later);
    } else {
      FallbackPreservesExactly(raw);
      assert forall later :: PreservedOnFallback(raw, later) == SameContent(raw + later, Sent(raw, split) + later);
    }
  }

  lemma SplitReadIsHello(raw: bytes)
    requires Splits(raw)
    ensures IsClientHello(raw)
  {
  }

  // ---- Reads that stop early -------------------------------------------------------------

  /**
    A read that stopped inside a well-formed hello: the stream survives exactly when the name to be cut
    had not arrived in full, because then nothing is split.
   */
  lemma PartialHelloSurvivesExactly(h: Hello, received: bytes)
    requires ClientHello.WellFormed(h) && received < Encode(h)
    ensures StreamSurvives(received)
      <==> !(HasSni(h) && |SniNames(h)[0].name| > 4
             && NameAt(h, 0).hostnameOffset + |SniNames(h)[0].name| <= |received|)
  {
    hide SniInfoOf, Encode, EncodeBody, ClientHello.WellFormed, NameAt, EmptyRecords;
    EncodedHeader(h);
    WalkFindsFirstEntry(h);
    NameLength(h);
    PartialExtraction(received, Encode(h));
    if HasSni(h) {
      SniInfoOfPrefix(received, Encode(h));
    } else if SniInfoOf(received).Some? {
      assert received + Encode(h)[|received|..] == Encode(h);
      SniInfoStable(received, Encode(h)[|received|..]);
    }
    NothingDropped();
  }

  lemma NameLength(h: Hello)
    requires ClientHello.WellFormed(h)
    ensures HasSni(h) ==> SniNames(h) != [] && NameAt(h, 0).hostnameLength == |SniNames(h)[0].name|
  {
  }

  lemma NothingDropped()
    ensures EmptyRecords([])
  {
  }

  lemma PartialExtraction(received: bytes, record: bytes)
    requires received < record && IsClientHello(record) && |record| == HEADER_SIZE + Be16(record[3], record[4])
    ensures ExtractFirstTlsRecord(received) == (received, []) && !FirstRecordComplete(received)
  {
  }
}
