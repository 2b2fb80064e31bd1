/**
  The server's socket, and the write loops of src/proxy.rs and src/utils.rs over it. What the operating
  system does with a write is left open: every method here makes any choice the socket may make.
 */
module RemoteStream {
  import opened Bytes

  /** One thing that happened on the connection, in order. */
  datatype Event =
    | Wrote(offer: bytes, count: nat)  // the socket took the first `count` bytes of `offer`
    | Refused(offer: bytes)            // the write failed and took nothing
    | Flushed
    | FlushFailed
    | Delayed(ms: nat)

  datatype ErrorKind = WriteZero | OsError

  datatype IoResult<+T> = Ok(value: T) | Err(kind: ErrorKind)

  function Taken(e: Event): bytes {
    if e.Wrote? && e.count <= |e.offer| then e.offer[..e.count] else []
  }

  /** The bytes a run of events put on the wire. */
  function Accepted(es: seq<Event>): bytes {
    if es == [] then [] else Accepted(es[..|es| - 1]) + Taken(es[|es| - 1])
  }

  function Since(before: seq<Event>, now: seq<Event>): seq<Event>
    requires before <= now
  {
    now[|before|..]
  }

  predicate IsWrite(e: Event) {
    (e.Wrote? && e.offer != []) || (e.Refused? && e.offer != [])
  }

  /** A write of which the socket took something. */
  predicate Progressed(e: Event) {
    e.Wrote? && 0 < e.count <= |e.offer|
  }

  /** The slices one vectored write can hold. */
  const MAX_IO_SLICES := 4

  // ---- Facts about event runs ------------------------------------------------------------

  lemma AcceptedAppend(es: seq<Event>, e: Event)
    ensures Accepted(es + [e]) == Accepted(es) + Taken(e)
  {
    assert (es + [e])[..|es|] == es;
  }

  lemma {:induction false} AcceptedConcat(a: seq<Event>, b: seq<Event>)
    ensures Accepted(a + b) == Accepted(a) + Accepted(b)
    decreases |b|
  {
    if b == [] {
      assert a + b == a;
    } else {
      var c, e := b[..|b| - 1], b[|b| - 1];
      AcceptedConcat(a, c);
      ConcatAssociative(a, c, [e]);
      assert b == c + [e];
      AcceptedAppend(a + c, e);
      ConcatAssociative(Accepted(a), Accepted(c), Taken(e));
    }
  }

  /** The wire only grows: after any first part of a run it holds a prefix of what it holds at the end. */
  lemma WireOnlyGrows(es: seq<Event>, k: nat)
    requires k <= |es|
    ensures Accepted(es[..k]) <= Accepted(es)
  {
    hide Accepted;
    AcceptedConcat(es[..k], es[k..]);
    TakeDrop(es, k);
  }

  lemma {:induction false} QuietRun(es: seq<Event>)
    requires forall e :: e in es ==> !e.Wrote?
    ensures Accepted(es) == []
    decreases |es|
  {
    if es != [] {
      QuietRun(es[..|es| - 1]);
    }
  }

  // ---- The socket ------------------------------------------------------------------------

  class Socket {
    ghost var log: seq<Event>

    constructor ()
      ensures log == []
    {
      log := [];
    }

    /** All the bytes the server has been sent. */
    ghost function Wire(): bytes
      reads this
    {
      Accepted(log)
    }

    /** `write_vectored`: takes any number of the offered bytes, from none to all, or fails. */
    method WriteVectored(bufs: seq<bytes>) returns (r: IoResult<nat>)
      requires |bufs| <= MAX_IO_SLICES
      modifies this
      ensures r.Ok? ==> r.value <= |Flatten(bufs)| && log == old(log) + [Wrote(Flatten(bufs), r.value)]
      ensures r.Err? ==> r.kind == OsError && log == old(log) + [Refused(Flatten(bufs))]
    {
      var offer := Flatten(bufs);
      if * {
        log := log + [Refused(offer)];
        r := Err(OsError);
      } else {
        var n: nat :| n <= |offer|;
        log := log + [Wrote(offer, n)];
        r := Ok(n);
      }
    }

    method Flush() returns (r: IoResult<()>)
      modifies this
      ensures log == old(log) + [if r.Ok? then Flushed else FlushFailed]
      ensures r.Err? ==> r.kind == OsError
    {
      if * {
        log := log + [FlushFailed];
        r := Err(OsError);
      } else {
        log := log + [Flushed];
        r := Ok(());
      }
    }

    /** `random_delay`: an uninterrupted pause of any length in the given range. */
    method RandomDelay(minMs: nat, maxMs: nat)
      requires minMs <= maxMs
      modifies this
      ensures exists ms :: minMs <= ms <= maxMs && log == old(log) + [Delayed(ms)]
    {
      var ms :| minMs <= ms <= maxMs;
      log := log + [Delayed(ms)];
    }
  }

  // ---- Writing everything ----------------------------------------------------------------

  /**
    What a loop that must deliver `data` has done when it returns `r`: every write before the last took
    something, success means everything was taken, and failure that the last one was refused or took
    nothing, a proper prefix having been delivered.
   */
  ghost predicate Delivers(es: seq<Event>, data: bytes, r: IoResult<()>) {
    && (forall e :: e in es ==> IsWrite(e))
    && (forall i :: 0 <= i < |es| - 1 ==> Progressed(es[i]))
    && match r
       case Ok(_) => Accepted(es) == data && (forall e :: e in es ==> Progressed(e))
       case Err(WriteZero) => Accepted(es) < data && es != [] && es[|es| - 1].Wrote? && es[|es| - 1].count == 0
       case Err(OsError) => Accepted(es) < data && es != [] && es[|es| - 1].Refused?
  }

  /** Every write offered all that was left of `data`. */
  ghost predicate OffersAllLeft(es: seq<Event>, data: bytes) {
    forall i :: 0 <= i < |es| ==>
      && IsWrite(es[i]) && |Accepted(es[..i])| <= |data|
      && es[i].offer == data[|Accepted(es[..i])|..]
  }

  /** What one vectored write may offer with `left` bytes to go: the next slices not yet finished, four at most. */
  function NextOffer(slices: seq<bytes>, left: nat): bytes
    requires left <= |Flatten(slices)|
  {
    if slices == [] then []
    else
      var rest := |Flatten(slices[1..])|;
      if left <= rest then NextOffer(slices[1..], left)
      else
        var count := if |slices| < 4 then |slices| else 4;
        slices[0][|slices[0]| - (left - rest)..] + Flatten(slices[1..count])
  }

  /** Every write offered the next slices not yet finished. */
  ghost predicate OffersInTurn(es: seq<Event>, slices: seq<bytes>) {
    forall i :: 0 <= i < |es| ==>
      && IsWrite(es[i]) && |Accepted(es[..i])| <= |Flatten(slices)|
      && es[i].offer == NextOffer(slices, |Flatten(slices)| - |Accepted(es[..i])|)
  }

  /** With no more slices than one write holds, the next offer is everything left. */
  lemma {:induction false} FewSlicesOfferAll(slices: seq<bytes>, left: nat)
    requires |slices| <= MAX_IO_SLICES && left <= |Flatten(slices)|
    ensures NextOffer(slices, left) == Flatten(slices)[|Flatten(slices)| - left..]
    decreases |slices|
  {
    hide Flatten, NextOffer;
    if slices == [] {
      NothingToOffer(slices, left);
    } else {
      OfferStep(slices, left);
      var s, rest := slices[0], Flatten(slices[1..]);
      if left <= |rest| {
        FewSlicesOfferAll(slices[1..], left);
        DropPast(s, rest, |rest| - left);
      } else {
        DropConcat(s, rest, |s| + |rest| - left);
      }
    }
  }

  lemma NothingToOffer(slices: seq<bytes>, left: nat)
    requires slices == [] && left <= |Flatten(slices)|
    ensures NextOffer(slices, left) == Flatten(slices)[|Flatten(slices)| - left..]
  {
  }

  lemma OfferStep(slices: seq<bytes>, left: nat)
    requires 0 < |slices| <= MAX_IO_SLICES && left <= |Flatten(slices)|
    ensures var s, rest := slices[0], Flatten(slices[1..]);
      && Flatten(slices) == s + rest
      && NextOffer(slices, left)
         == if left <= |rest| then NextOffer(slices[1..], left) else s[|s| + |rest| - left..] + rest
  {
    assert slices[1..|slices|] == slices[1..];
  }

  lemma FewSlicesOffersAll(es: seq<Event>, slices: seq<bytes>)
    requires |slices| <= 4 && OffersInTurn(es, slices)
    ensures OffersAllLeft(es, Flatten(slices))
  {
    hide Accepted, Flatten, NextOffer;
    forall i | 0 <= i < |es|
      ensures es[i].offer == Flatten(slices)[|Accepted(es[..i])|..]
    {
      FewSlicesOfferAll(slices, |Flatten(slices)| - |Accepted(es[..i])|);
    }
  }

  lemma OfferAppended(es: seq<Event>, e: Event, data: bytes, left: bytes)
    requires Accepted(es) + left == data && IsWrite(e) && e.offer == left
    requires OffersAllLeft(es, data)
    ensures OffersAllLeft(es + [e], data)
  {
    hide Accepted;
    DropConcat(Accepted(es), left, |Accepted(es)|);
    forall i | 0 <= i < |es| + 1
      ensures var now := es + [e];
        && IsWrite(now[i]) && |Accepted(now[..i])| <= |data|
        && now[i].offer == data[|Accepted(now[..i])|..]
    {
      PrefixOf(es, e, i);
    }
  }

  lemma TurnAppended(es: seq<Event>, e: Event, slices: seq<bytes>, left: nat)
    requires |Accepted(es)| + left == |Flatten(slices)|
    requires IsWrite(e) && e.offer == NextOffer(slices, left)
    requires OffersInTurn(es, slices)
    ensures OffersInTurn(es + [e], slices)
  {
    hide Accepted, Flatten, NextOffer;
    assert left == |Flatten(slices)| - |Accepted(es)|;
    forall i | 0 <= i < |es| + 1
      ensures var now := es + [e];
        && IsWrite(now[i]) && |Accepted(now[..i])| <= |Flatten(slices)|
        && now[i].offer == NextOffer(slices, |Flatten(slices)| - |Accepted(now[..i])|)
    {
      PrefixOf(es, e, i);
    }
  }

  lemma PrefixOf(es: seq<Event>, e: Event, i: nat)
    requires i <= |es|
    ensures (es + [e])[..i] == if i == |es| then es else es[..i]
    ensures (es + [e])[i] == if i == |es| then e else es[i]
  {
  }

  /** Two ends of the same list of slices that agree on what is offered next. */
  ghost predicate SameOffers(a: seq<bytes>, b: seq<bytes>, bound: nat) {
    bound <= |Flatten(a)| && bound <= |Flatten(b)|
    && forall left :: 0 <= left <= bound ==> NextOffer(a, left) == NextOffer(b, left)
  }

  /** The bytes still to go when `offset` bytes of the first remaining slice are gone. */
  function Remaining(slices: seq<bytes>, offset: nat): bytes
    requires slices == [] || offset <= |slices[0]|
  {
    if slices == [] then [] else slices[0][offset..] + Flatten(slices[1..])
  }

  lemma RemainingFromStart(slices: seq<bytes>)
    ensures Remaining(slices, 0) == Flatten(slices)
  {
    if slices != [] {
      assert slices[0][0..] == slices[0];
    }
  }

  /** What is offered through the window is a non-empty prefix of what remains. */
  lemma WindowIsPrefix(slices: seq<bytes>, offset: nat, count: nat)
    requires slices != [] && offset < |slices[0]| && 1 <= count <= |slices|
    ensures var offer := Flatten([slices[0][offset..]] + slices[1..count]);
      offer != [] && offer <= Remaining(slices, offset)
  {
    var first := slices[0][offset..];
    var window := [first] + slices[1..count];
    assert window[1..] == slices[1..count];
    FlattenConcat(slices[1..count], slices[count..]);
    assert slices[1..] == slices[1..count] + slices[count..];
    ConcatAssociative(first, Flatten(slices[1..count]), Flatten(slices[count..]));
  }

  /** Moving past `k` bytes of the first remaining slice, or past all of it. */
  lemma RemainingStep(slices: seq<bytes>, offset: nat, k: nat)
    requires slices != [] && offset + k <= |slices[0]|
    ensures k <= |Remaining(slices, offset)|
    ensures Remaining(slices, offset + k) == Remaining(slices, offset)[k..]
    ensures offset + k == |slices[0]| ==> Remaining(slices[1..], 0) == Remaining(slices, offset)[k..]
  {
    var s, rest := slices[0], Flatten(slices[1..]);
    assert s[offset..] == s[offset..offset + k] + s[offset + k..];
    ConcatAssociative(s[offset..offset + k], s[offset + k..], rest);
    RemainingFromStart(slices[1..]);
  }

  /** The same when what remains is what `all` still has after its first `m` bytes. */
  lemma AdvanceStep(slices: seq<bytes>, offset: nat, k: nat, all: bytes, m: nat)
    requires slices != [] && offset + k <= |slices[0]|
    requires m <= |all| && Remaining(slices, offset) == all[m..]
    ensures m + k <= |all|
    ensures Remaining(slices, offset + k) == all[m + k..]
    ensures offset + k == |slices[0]| ==> Remaining(slices[1..], 0) == all[m + k..]
  {
    hide Remaining;
    RemainingStep(slices, offset, k);
    DropDrop(all, m, k);
  }

  /** The bookkeeping loop after a write of `n` bytes: whole slices first, then into the next one. */
  method Advance(slices: seq<bytes>, offset: nat, n: nat) returns (rest: seq<bytes>, restOffset: nat)
    requires slices == [] || offset <= |slices[0]|
    requires n <= |Remaining(slices, offset)|
    ensures rest == [] || restOffset <= |rest[0]|
    ensures Remaining(rest, restOffset) == Remaining(slices, offset)[n..]
    ensures SameOffers(rest, slices, |Remaining(rest, restOffset)|)
  {
    hide *;
    rest, restOffset := slices, offset;
    var remaining: nat := n;
    ghost var all, gone: nat := Remaining(slices, offset), 0;
    DropNone(all);
    OffersFromStart(slices, offset);
    while remaining > 0 && rest != []
      invariant rest == [] || restOffset <= |rest[0]|
      invariant gone + remaining == n
      invariant Remaining(rest, restOffset) == all[gone..]
      invariant SameOffers(rest, slices, |Remaining(rest, restOffset)|)
      decreases remaining, |rest|
    {
      var activeLen := |rest[0]| - restOffset;
      if remaining >= activeLen {
        AdvanceStep(rest, restOffset, activeLen, all, gone);
        OffersAfterSlice(rest, restOffset, slices);
        gone := gone + activeLen;
        remaining := remaining - activeLen;
        rest := rest[1..];
        restOffset := 0;
      } else {
        AdvanceStep(rest, restOffset, remaining, all, gone);
        OffersAfterPart(rest, restOffset, remaining, slices);
        gone := gone + remaining;
        restOffset := restOffset + remaining;
        remaining := 0;
      }
    }
    NothingRemains(restOffset);
  }

  lemma OffersFromStart(slices: seq<bytes>, offset: nat)
    requires slices == [] || offset <= |slices[0]|
    ensures SameOffers(slices, slices, |Remaining(slices, offset)|)
  {
  }

  /** Dropping a finished slice does not change what is offered next ... */
  lemma OffersAfterSlice(rest: seq<bytes>, offset: nat, slices: seq<bytes>)
    requires rest != [] && offset <= |rest[0]| && SameOffers(rest, slices, |Remaining(rest, offset)|)
    ensures SameOffers(rest[1..], slices, |Remaining(rest[1..], 0)|)
  {
    RemainingFromStart(rest[1..]);
    hide Remaining;
    assert |Remaining(rest, offset)| == |rest[0]| - offset + |Flatten(rest[1..])| by { RemainingLength(rest, offset); }
    forall left | 0 <= left <= |Flatten(rest[1..])|
      ensures NextOffer(rest[1..], left) == NextOffer(slices, left)
    {
      assert NextOffer(rest, left) == NextOffer(slices, left);
    }
  }

  /** ... and neither does moving on inside one. */
  lemma OffersAfterPart(rest: seq<bytes>, offset: nat, k: nat, slices: seq<bytes>)
    requires rest != [] && offset + k <= |rest[0]| && SameOffers(rest, slices, |Remaining(rest, offset)|)
    ensures SameOffers(rest, slices, |Remaining(rest, offset + k)|)
  {
    RemainingLength(rest, offset);
    RemainingLength(rest, offset + k);
  }

  lemma RemainingLength(slices: seq<bytes>, offset: nat)
    requires slices != [] && offset <= |slices[0]|
    ensures |Remaining(slices, offset)| == |slices[0]| - offset + |Flatten(slices[1..])|
  {
  }

  /** The window holds exactly the next offer. */
  lemma WindowIsNextOffer(slices: seq<bytes>, offset: nat, count: nat)
    requires slices != [] && offset < |slices[0]|
    requires count == if |slices| < MAX_IO_SLICES then |slices| else MAX_IO_SLICES
    ensures |Remaining(slices, offset)| <= |Flatten(slices)|
    ensures Flatten([slices[0][offset..]] + slices[1..count]) == NextOffer(slices, |Remaining(slices, offset)|)
  {
    RemainingLength(slices, offset);
    var first := slices[0][offset..];
    assert ([first] + slices[1..count])[1..] == slices[1..count];
  }

  lemma NothingRemains(offset: nat)
    ensures Remaining([], offset) == []
  {
  }

  /** One more write of a loop that has `left` still to deliver out of `data`. */
  lemma WriteStep(start: seq<Event>, before: seq<Event>, now: seq<Event>, e: Event, left: bytes, data: bytes)
    requires start <= before && now == before + [e]
    requires forall x :: x in Since(start, before) ==> IsWrite(x) && Progressed(x)
    requires Accepted(Since(start, before)) + left == data
    requires IsWrite(e) && e.offer <= left && (e.Wrote? ==> e.count <= |e.offer|)
    ensures start <= now && Since(start, now) == Since(start, before) + [e]
    ensures Progressed(e) ==> forall x :: x in Since(start, now) ==> IsWrite(x) && Progressed(x)
    ensures |Taken(e)| <= |left| && Accepted(Since(start, now)) + left[|Taken(e)|..] == data
    ensures e.Refused? ==> Delivers(Since(start, now), data, Err(OsError))
    ensures e.Wrote? && e.count == 0 ==> Delivers(Since(start, now), data, Err(WriteZero))
  {
    hide Accepted;
    var es := Since(start, before);
    assert Since(start, now) == es + [e];
    AcceptedAppend(es, e);
    TakenStep(Accepted(es), e, left);
  }

  lemma TakenStep(sent: bytes, e: Event, left: bytes)
    requires IsWrite(e) && e.offer <= left && (e.Wrote? ==> e.count <= |e.offer|)
    ensures |Taken(e)| <= |left| && (sent + Taken(e)) + left[|Taken(e)|..] == sent + left
    ensures Taken(e) == [] ==> sent + Taken(e) < sent + left
  {
    var t := Taken(e);
    assert t == left[..|t|];
    TakeDrop(left, |t|);
    ConcatAssociative(sent, t, left[|t|..]);
  }

  /**
    Delivers the concatenation of any number of slices, empty ones included, through a window of four,
    whatever the socket accepts each time, offering the next unfinished slices in every write. It stops
    early only on an error of the socket or on a non-empty offer of which nothing was taken, and then a
    proper prefix has been delivered.
   */
  method WriteAllVectored(stream: Socket, slices: seq<bytes>) returns (r: IoResult<()>)
    modifies stream
    ensures old(stream.log) <= stream.log
    ensures Delivers(Since(old(stream.log), stream.log), Flatten(slices), r)
    ensures OffersInTurn(Since(old(stream.log), stream.log), slices)
  {
    hide Accepted, Since, Delivers, Remaining, Flatten, Taken, NextOffer, OffersInTurn, SameOffers;
    ghost var start := stream.log;
    ghost var data := Flatten(slices);
    var currentSlices := slices;
    var firstSliceOffset: nat := 0;
    RemainingFromStart(slices);
    NothingSince(start);
    NothingOffered(slices);
    OffersFromStart(slices, 0);

    while currentSlices != []
      invariant start <= stream.log
      invariant forall e :: e in Since(start, stream.log) ==> IsWrite(e) && Progressed(e)
      invariant currentSlices == [] || firstSliceOffset <= |currentSlices[0]|
      invariant Accepted(Since(start, stream.log)) + Remaining(currentSlices, firstSliceOffset) == data
      invariant OffersInTurn(Since(start, stream.log), slices)
      invariant SameOffers(currentSlices, slices, |Remaining(currentSlices, firstSliceOffset)|)
      decreases |Remaining(currentSlices, firstSliceOffset)|
    {
      ghost var before := stream.log;
      ghost var left := Remaining(currentSlices, firstSliceOffset);
      while currentSlices != [] && firstSliceOffset >= |currentSlices[0]|
        invariant currentSlices == [] || firstSliceOffset <= |currentSlices[0]|
        invariant Remaining(currentSlices, firstSliceOffset) == left
        invariant SameOffers(currentSlices, slices, |left|)
        invariant stream.log == before
        decreases |currentSlices|
      {
        RemainingStep(currentSlices, firstSliceOffset, 0);
        OffersAfterSlice(currentSlices, firstSliceOffset, slices);
        currentSlices := currentSlices[1..];
        firstSliceOffset := 0;
      }
      if currentSlices == [] {
        break;
      }

      var first := currentSlices[0][firstSliceOffset..];
      var count := if |currentSlices| < MAX_IO_SLICES then |currentSlices| else MAX_IO_SLICES;
      WindowIsPrefix(currentSlices, firstSliceOffset, count);
      WindowIsNextOffer(currentSlices, firstSliceOffset, count);
      OffersAgree(currentSlices, slices, |left|);
      var written := stream.WriteVectored([first] + currentSlices[1..count]);
      ghost var e := stream.log[|before|];
      WriteStep(start, before, stream.log, e, left, data);
      TurnAppended(Since(start, before), e, slices, |left|);
      if written.Err? {
        return Err(written.kind);
      }
      if written.value == 0 {
        return Err(WriteZero);
      }
      TakenLength(e);
      ghost var previous := currentSlices;
      currentSlices, firstSliceOffset := Advance(currentSlices, firstSliceOffset, written.value);
      SameOffersTransitive(currentSlices, previous, slices, |Remaining(currentSlices, firstSliceOffset)|, |left|);
    }
    AllDelivered(Since(start, stream.log), data, Remaining(currentSlices, firstSliceOffset), firstSliceOffset);
    return Ok(());
  }

  lemma NothingOffered(slices: seq<bytes>)
    ensures OffersInTurn([], slices) && OffersAllLeft([], Flatten(slices))
  {
  }

  lemma OffersAgree(a: seq<bytes>, b: seq<bytes>, bound: nat)
    requires SameOffers(a, b, bound)
    ensures bound <= |Flatten(a)| && bound <= |Flatten(b)| && NextOffer(a, bound) == NextOffer(b, bound)
  {
  }

  lemma SameOffersTransitive(a: seq<bytes>, b: seq<bytes>, c: seq<bytes>, bound: nat, wider: nat)
    requires SameOffers(a, b, bound) && SameOffers(b, c, wider) && bound <= wider
    ensures SameOffers(a, c, bound)
  {
    hide NextOffer, Flatten;
  }

  lemma NothingSince(start: seq<Event>)
    ensures Since(start, start) == [] && Accepted([]) == []
  {
  }

  lemma TakenLength(e: Event)
    requires e.Wrote? && e.count <= |e.offer|
    ensures |Taken(e)| == e.count
  {
  }

  lemma AllDelivered(es: seq<Event>, data: bytes, left: bytes, offset: nat)
    requires forall e :: e in es ==> IsWrite(e) && Progressed(e)
    requires Accepted(es) + left == data && left == Remaining([], offset)
    ensures Delivers(es, data, Ok(()))
  {
    assert Accepted(es) + [] == Accepted(es);
  }

  /** The library's `write_all`: one slice, and what is left of it again until it is gone. */
  method WriteAll(stream: Socket, data: bytes) returns (r: IoResult<()>)
    modifies stream
    ensures old(stream.log) <= stream.log
    ensures Delivers(Since(old(stream.log), stream.log), data, r)
    ensures OffersAllLeft(Since(old(stream.log), stream.log), data)
  {
    hide Accepted, Since, Delivers, Taken, Flatten, OffersAllLeft;
    ghost var start := stream.log;
    var rest := data;
    NothingSince(start);
    FlattenSingle(data);
    NothingOffered([data]);
    while rest != []
      invariant start <= stream.log
      invariant forall e :: e in Since(start, stream.log) ==> IsWrite(e) && Progressed(e)
      invariant Accepted(Since(start, stream.log)) + rest == data
      invariant OffersAllLeft(Since(start, stream.log), data)
    {
      ghost var before := stream.log;
      FlattenSingle(rest);
      var written := stream.WriteVectored([rest]);
      ghost var e := stream.log[|before|];
      WriteStep(start, before, stream.log, e, rest, data);
      OfferAppended(Since(start, before), e, data, rest);
      if written.Err? {
        return Err(written.kind);
      }
      if written.value == 0 {
        return Err(WriteZero);
      }
      TakenLength(e);
      rest := rest[written.value..];
    }
    NothingRemains(0);
    AllDelivered(Since(start, stream.log), data, rest, 0);
    return Ok(());
  }
}
