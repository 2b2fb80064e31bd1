/** The DNS query builder and reply parser of src/dns/resolver.rs. */
module Resolver {
  import opened Bytes
  import opened DnsMessage

  const DNS_RR_HEADER_MIN_SIZE := 10
  const DNS_TYPE_A := 1
  const DNS_TYPE_SVCB := 64
  const DNS_TYPE_HTTPS := 65
  const DNS_CLASS_IN := 1
  const DOT: byte := 0x2E
  const QUERY_BUF_SIZE := 128

  /** The mask test of the source, `len & 0xC0 == 0xC0`, written as a comparison. */
  predicate IsPointer(length: byte) {
    length >= 0xC0
  }

  /** Why it may be: the test, the mask and the two high bits agree on every byte. */
  lemma PointerMask(length: bv8)
    ensures IsPointer(length as byte) <==> (length & 0xC0) == 0xC0
    ensures IsPointer(length as byte) <==> HasPointerBits(length as byte)
  {
    assert length as int >= 0xC0 <==> length >= 0xC0;
  }

  // ---- What the parser computes ----------------------------------------------------------

  /** The position after the name at `pos`; None when the labels run off the data. */
  function SkipName(data: bytes, pos: nat): (r: Option<nat>)
    ensures r.Some? ==> pos < r.value <= |data| + 1
    decreases |data| - pos
  {
    if pos >= |data| then None
    else if data[pos] == 0 then Some(pos + 1)
    else if IsPointer(data[pos]) then Some(pos + 2)
    else SkipName(data, pos + 1 + data[pos])
  }

  function SkipQuestions(data: bytes, pos: nat, count: nat): Option<nat>
    decreases count
  {
    if count == 0 then Some(pos)
    else match SkipName(data, pos)
      case None => None
      case Some(next) => SkipQuestions(data, next + 4, count - 1)
  }

  function ScanAnswers(data: bytes, pos: nat, count: nat): Option<Ipv4>
    decreases count
  {
    if count == 0 then None
    else match SkipName(data, pos)
      case None => None
      case Some(next) =>
        if next + DNS_RR_HEADER_MIN_SIZE > |data| then None
        else
          var rtype := Be16(data[next], data[next + 1]);
          var rdlen := Be16(data[next + 8], data[next + 9]);
          var body := next + DNS_RR_HEADER_MIN_SIZE;
          if body + rdlen > |data| then None
          else if rtype == DNS_TYPE_A && rdlen == 4 then
            Some(Ipv4(data[body], data[body + 1], data[body + 2], data[body + 3]))
          else ScanAnswers(data, body + rdlen, count - 1)
  }

  function ReplyAddress(data: bytes): Option<Ipv4> {
    if |data| < DNS_HEADER_SIZE || data[3] % 16 != 0 then None
    else match SkipQuestions(data, DNS_HEADER_SIZE, Be16(data[4], data[5]))
      case None => None
      case Some(pos) => ScanAnswers(data, pos, Be16(data[6], data[7]))
  }

  // ---- The source's loops ----------------------------------------------------------------

  method SkipDnsName(data: bytes, start: nat) returns (r: Option<nat>)
    ensures r == SkipName(data, start)
  {
    var pos := start;
    while pos < |data|
      invariant pos >= 0 && SkipName(data, start) == SkipName(data, pos)
    {
      var length := data[pos];
      if length == 0 {
        return Some(pos + 1);
      }
      if IsPointer(length) {
        return Some(pos + 2);
      }
      pos := pos + 1 + length;
    }
    return None;
  }

  method ParseDnsResponse(data: bytes) returns (r: Option<Ipv4>)
    ensures r == ReplyAddress(data)
  {
    hide SkipName, Be16;
    if |data| < DNS_HEADER_SIZE {
      return None;
    }
    var rcode := data[3] % 16;
    if rcode != 0 {
      return None;
    }
    var qdcount := Be16(data[4], data[5]);
    var ancount := Be16(data[6], data[7]);
    if ancount == 0 {
      return None;
    }
    var pos: nat := DNS_HEADER_SIZE;
    for i := 0 to qdcount
      invariant SkipQuestions(data, DNS_HEADER_SIZE, qdcount) == SkipQuestions(data, pos, qdcount - i)
    {
      var next := SkipDnsName(data, pos);
      if next.None? {
        return None;
      }
      pos := next.value + 4;
    }
    assert ReplyAddress(data) == ScanAnswers(data, pos, ancount);
    hide ReplyAddress, SkipQuestions;
    for i := 0 to ancount
      invariant ReplyAddress(data) == ScanAnswers(data, pos, ancount - i)
    {
      var next := SkipDnsName(data, pos);
      if next.None? {
        break;
      }
      pos := next.value;
      if pos + DNS_RR_HEADER_MIN_SIZE > |data| {
        break;
      }
      var rtype := Be16(data[pos], data[pos + 1]);
      var rdlen := Be16(data[pos + 8], data[pos + 9]);
      pos := pos + DNS_RR_HEADER_MIN_SIZE;
      if pos + rdlen > |data| {
        break;
      }
      if rtype == DNS_TYPE_HTTPS || rtype == DNS_TYPE_SVCB {
        pos := pos + rdlen;
        continue;
      }
      if rtype == DNS_TYPE_A && rdlen == 4 {
        return Some(Ipv4(data[pos], data[pos + 1], data[pos + 2], data[pos + 3]));
      }
      pos := pos + rdlen;
    }
    return None;
  }

  // ---- The parser is correct on every encoded message ------------------------------------

  /** Encoded labels are stepped over one by one. */
  lemma {:induction false} SkipsLabels(data: bytes, pos: nat, labels: seq<bytes>)
    requires WellFormedLabels(labels) && At(data, pos, EncodeLabels(labels))
    ensures SkipName(data, pos) == SkipName(data, pos + |EncodeLabels(labels)|)
    decreases |labels|
  {
    hide At, Prefixed8;
    if labels != [] {
      var word, rest := labels[0], EncodeLabels(labels[1..]);
      AtConcat(data, pos, Prefixed8(word), rest);
      LabelBytes(data, pos, word);
      SkipsLabels(data, pos + 1 + |word|, labels[1..]);
    }
  }

  lemma SkipsName(data: bytes, pos: nat, labels: seq<bytes>, end: NameEnd)
    requires WellFormedName(Name(labels, end)) && At(data, pos, EncodeLabels(labels) + EncodeEnd(end))
    ensures SkipName(data, pos) == Some(pos + |EncodeLabels(labels)| + |EncodeEnd(end)|)
  {
    hide At, EncodeLabels, EncodeEnd, SkipName;
    AtConcat(data, pos, EncodeLabels(labels), EncodeEnd(end));
    SkipsLabels(data, pos, labels);
    EndBytes(data, pos + |EncodeLabels(labels)|, end);
  }

  /** A name stands at `pos`: labels in place, then the root or the two bytes of a pointer, before `next`. */
  predicate NameRuns(data: bytes, pos: nat, labels: seq<bytes>, next: nat) {
    && WellFormedLabels(labels) && At(data, pos, EncodeLabels(labels))
    && var end := pos + |EncodeLabels(labels)|;
    && end < |data|
    && (if data[end] == 0 then next == end + 1 else HasPointerBits(data[end]) && next == end + 2)
  }

  /** On any bytes, where the skip ends: right after a name, and nowhere if no name stands there. */
  lemma SkipNameExactly(data: bytes, pos: nat, next: nat)
    ensures SkipName(data, pos) == Some(next) <==> exists labels :: NameRuns(data, pos, labels, next)
  {
    if SkipName(data, pos) == Some(next) {
      var labels := SkippedLabels(data, pos);
      assert NameRuns(data, pos, labels, next);
    }
    if labels :| NameRuns(data, pos, labels, next) {
      SkipsLabels(data, pos, labels);
    }
  }

  /** The labels the skip has passed. */
  lemma {:induction false} SkippedLabels(data: bytes, pos: nat) returns (labels: seq<bytes>)
    requires SkipName(data, pos).Some?
    ensures NameRuns(data, pos, labels, SkipName(data, pos).value)
    decreases |data| - pos
  {
    if data[pos] == 0 || IsPointer(data[pos]) {
      labels := [];
    } else {
      var word := data[pos + 1..pos + 1 + data[pos]];
      var rest := SkippedLabels(data, pos + 1 + data[pos]);
      labels := [word] + rest;
      hide SkipName;
      LabelJoined(data, pos, word, rest);
    }
  }

  lemma LabelJoined(data: bytes, pos: nat, word: bytes, rest: seq<bytes>)
    requires pos < |data| && |word| == data[pos] && 1 <= |word| < 192
    requires At(data, pos + 1, word) && At(data, pos + 1 + |word|, EncodeLabels(rest))
    ensures EncodeLabels([word] + rest) == Prefixed8(word) + EncodeLabels(rest)
    ensures At(data, pos, EncodeLabels([word] + rest))
  {
    assert ([word] + rest)[1..] == rest;
    hide EncodeLabels;
    AtJoined(data, pos + 1, word, EncodeLabels(rest));
    AtJoined(data, pos, [data[pos]], word + EncodeLabels(rest));
    ConcatAssociative([data[pos]], word, EncodeLabels(rest));
  }

  lemma EndBytes(data: bytes, pos: nat, end: NameEnd)
    requires At(data, pos, EncodeEnd(end)) && (end.Pointer? ==> HasPointerBits(end.high))
    ensures pos < |data| && SkipName(data, pos) == Some(pos + |EncodeEnd(end)|)
  {
    AtIndex(data, pos, EncodeEnd(end), 0);
  }

  lemma LabelBytes(data: bytes, pos: nat, word: bytes)
    requires At(data, pos, Prefixed8(word)) && |word| < 256
    ensures pos + 1 + |word| <= |data| && data[pos] == |word| && At(data, pos + 1, word)
  {
    AtBounds(data, pos, Prefixed8(word));
    AtPrefixed8(data, pos, word);
  }

  lemma {:induction false} SkipsQuestions(data: bytes, pos: nat, qs: seq<Question>)
    requires WellFormedQuestions(qs) && At(data, pos, EncodeQuestions(qs))
    ensures SkipQuestions(data, pos, |qs|) == Some(pos + |EncodeQuestions(qs)|)
    decreases |qs|
  {
    hide At, SkipName, WellFormedName, EncodeLabels, EncodeEnd, U16;
    if qs != [] {
      var q := qs[0];
      AtConcat(data, pos, EncodeQuestion(q), EncodeQuestions(qs[1..]));
      AtConcat(data, pos, EncodeName(q.name), U16(q.qtype) + U16(q.qclass));
      SkipsName(data, pos, q.name.labels, q.name.end);
      SkipsQuestions(data, pos + |EncodeQuestion(q)|, qs[1..]);
    }
  }

  lemma FixedBytes(data: bytes, pos: nat, r: Resource)
    requires WellFormedResource(r) && At(data, pos, EncodeFixed(r))
    ensures |EncodeFixed(r)| == DNS_RR_HEADER_MIN_SIZE && pos + DNS_RR_HEADER_MIN_SIZE <= |data|
    ensures Be16(data[pos], data[pos + 1]) == r.rtype
    ensures Be16(data[pos + 8], data[pos + 9]) == |r.rdata|
  {
    hide At, U16, Be16, WellFormedName;
    AtBounds(data, pos, EncodeFixed(r));
    AtConcat(data, pos, U16(r.rtype), U16(r.rclass) + (r.ttl + U16(|r.rdata|)));
    AtConcat(data, pos + 2, U16(r.rclass), r.ttl + U16(|r.rdata|));
    AtConcat(data, pos + 4, r.ttl, U16(|r.rdata|));
    AtU16(data, pos, r.rtype);
    AtU16(data, pos + 8, |r.rdata|);
  }

  lemma ResourceBytes(data: bytes, pos: nat, r: Resource)
    requires WellFormedResource(r) && At(data, pos, EncodeResource(r))
    ensures SkipName(data, pos) == Some(pos + |EncodeName(r.owner)|)
    ensures var next := pos + |EncodeName(r.owner)|;
      var body := next + DNS_RR_HEADER_MIN_SIZE;
      && pos + |EncodeResource(r)| == body + |r.rdata| <= |data|
      && Be16(data[next], data[next + 1]) == r.rtype
      && Be16(data[next + 8], data[next + 9]) == |r.rdata|
      && At(data, body, r.rdata)
  {
    hide At, EncodeLabels, EncodeEnd, EncodeFixed, Be16, SkipName, WellFormedName;
    var next := pos + |EncodeName(r.owner)|;
    AtBounds(data, pos, EncodeResource(r));
    AtConcat(data, pos, EncodeName(r.owner), EncodeFixed(r) + r.rdata);
    AtConcat(data, next, EncodeFixed(r), r.rdata);
    SkipsName(data, pos, r.owner.labels, r.owner.end);
    FixedBytes(data, next, r);
  }

  lemma {:induction false} ScansAnswers(data: bytes, pos: nat, rs: seq<Resource>)
    requires WellFormedResources(rs) && At(data, pos, EncodeResources(rs))
    ensures ScanAnswers(data, pos, |rs|) == FirstAddress(rs)
    decreases |rs|
  {
    hide At, EncodeResource, WellFormedResource;
    if rs != [] {
      AtConcat(data, pos, EncodeResource(rs[0]), EncodeResources(rs[1..]));
      hide ScanAnswers;
      ScansOne(data, pos, rs[0], |rs|);
      if !IsAddress(rs[0]) {
        ScansAnswers(data, pos + |EncodeResource(rs[0])|, rs[1..]);
      }
    }
  }

  lemma FourBytes(data: bytes, pos: nat, chunk: bytes)
    requires At(data, pos, chunk) && |chunk| == 4
    ensures pos + 4 <= |data|
    ensures data[pos] == chunk[0] && data[pos + 1] == chunk[1] && data[pos + 2] == chunk[2] && data[pos + 3] == chunk[3]
  {
    AtIndex(data, pos, chunk, 0);
    AtIndex(data, pos, chunk, 1);
    AtIndex(data, pos, chunk, 2);
    AtIndex(data, pos, chunk, 3);
  }

  lemma HeaderBytes(data: bytes, m: Message)
    requires WellFormed(m) && At(data, 0, EncodeHeader(m))
    ensures |EncodeHeader(m)| == DNS_HEADER_SIZE <= |data|
    ensures data[3] == m.rcodeByte
    ensures Be16(data[4], data[5]) == |m.questions| && Be16(data[6], data[7]) == |m.answers|
  {
    hide At, U16, Be16, WellFormedQuestions, WellFormedResources;
    AtBounds(data, 0, EncodeHeader(m));
    var counts := U16(|m.answers|) + m.sectionCounts;
    AtConcat(data, 0, m.id, [m.flags, m.rcodeByte] + (U16(|m.questions|) + counts));
    AtConcat(data, 2, [m.flags, m.rcodeByte], U16(|m.questions|) + counts);
    AtConcat(data, 4, U16(|m.questions|), counts);
    AtConcat(data, 6, U16(|m.answers|), m.sectionCounts);
    AtIndex(data, 2, [m.flags, m.rcodeByte], 1);
    AtU16(data, 4, |m.questions|);
    AtU16(data, 6, |m.answers|);
  }

  /**
    For every message, whatever its questions, names, classes, other records and following sections:
    a reply that reports no error yields the address of its first four-byte record of type A, and an
    error, or a reply with no such record, yields none.
   */
  lemma ReplyYieldsFirstAddress(m: Message)
    requires WellFormed(m)
    ensures ReplyAddress(Encode(m)) == if m.rcodeByte % 16 == 0 then FirstAddress(m.answers) else None
  {
    hide At, EncodeHeader, EncodeQuestions, EncodeResources, SkipQuestions, ScanAnswers, FirstAddress, Be16,
      WellFormedQuestions, WellFormedResources;
    var data := Encode(m);
    AtSelf(data);
    var afterHeader := EncodeQuestions(m.questions) + (EncodeResources(m.answers) + m.sections);
    AtConcat(data, 0, EncodeHeader(m), afterHeader);
    HeaderBytes(data, m);
    AtConcat(data, DNS_HEADER_SIZE, EncodeQuestions(m.questions), EncodeResources(m.answers) + m.sections);
    SkipsQuestions(data, DNS_HEADER_SIZE, m.questions);
    var pos := DNS_HEADER_SIZE + |EncodeQuestions(m.questions)|;
    AtConcat(data, pos, EncodeResources(m.answers), m.sections);
    ScansAnswers(data, pos, m.answers);
  }

  /**
    Two replies whose answers agree once the records of types 64 and 65 are taken out give the same
    address: inserting or deleting such records anywhere changes nothing.
   */
  lemma ServiceBindingsDoNotInterfere(m: Message, other: Message)
    requires WellFormed(m) && WellFormed(other) && Rcode(m) == Rcode(other)
    requires WithoutServiceBindings(m.answers) == WithoutServiceBindings(other.answers)
    ensures ReplyAddress(Encode(m)) == ReplyAddress(Encode(other))
  {
    hide WellFormed, Encode;
    ReplyYieldsFirstAddress(m);
    ReplyYieldsFirstAddress(other);
    ServiceBindingsHoldNoAddress(m.answers);
    ServiceBindingsHoldNoAddress(other.answers);
  }

  // ---- Prefix stability and truncation ---------------------------------------------------

  /** An address read from a first part of a reply is the address read from the whole reply. */
  lemma AddressStable(data: bytes, more: bytes)
    requires ReplyAddress(data).Some?
    ensures ReplyAddress(data + more) == ReplyAddress(data)
  {
    hide SkipQuestions, ScanAnswers, Be16;
    var whole := data + more;
    QuestionsStable(data, whole, DNS_HEADER_SIZE, Be16(data[4], data[5]));
    AnswersStable(data, whole, SkipQuestions(data, DNS_HEADER_SIZE, Be16(data[4], data[5])).value,
                  Be16(data[6], data[7]));
  }

  /** The answers up to and including the first address. */
  function UpToAddress(rs: seq<Resource>): seq<Resource> {
    if rs == [] then [] else if IsAddress(rs[0]) then [rs[0]] else [rs[0]] + UpToAddress(rs[1..])
  }

  /** How much of the message there is up to the end of the record that holds its first address. */
  function AddressEnd(m: Message): nat {
    |EncodeHeader(m)| + |EncodeQuestions(m.questions)| + |EncodeResources(UpToAddress(m.answers))|
  }

  /**
    A reply cut off anywhere, as by the 512-byte receive buffer, gives the address of the whole reply as
    soon as the record that holds it has arrived, and none before.
   */
  lemma TruncatedReplyExactly(m: Message, received: bytes)
    requires WellFormed(m) && received <= Encode(m)
    ensures ReplyAddress(received)
      == if Rcode(m) == 0 && AddressEnd(m) <= |received| then FirstAddress(m.answers) else None
  {
    hide At, EncodeHeader, EncodeQuestions, EncodeResources, SkipQuestions, ScanAnswers, FirstAddress, Be16,
      WellFormedQuestions, WellFormedResources, UpToAddress;
    var whole := Encode(m);
    AtSelf(whole);
    AtConcat(whole, 0, EncodeHeader(m), EncodeQuestions(m.questions) + (EncodeResources(m.answers) + m.sections));
    HeaderBytes(whole, m);
    AtConcat(whole, DNS_HEADER_SIZE, EncodeQuestions(m.questions), EncodeResources(m.answers) + m.sections);
    var pos := DNS_HEADER_SIZE + |EncodeQuestions(m.questions)|;
    AtConcat(whole, pos, EncodeResources(m.answers), m.sections);
    if |received| >= DNS_HEADER_SIZE {
      CutQuestions(received, whole, DNS_HEADER_SIZE, m.questions);
      CutAnswers(received, whole, pos, m.answers);
      if pos > |received| {
        BeyondData(received, pos, |m.answers|);
      }
    }
  }

  lemma BeyondData(data: bytes, pos: nat, count: nat)
    requires pos >= |data|
    ensures ScanAnswers(data, pos, count) == None
  {
  }

  /** Stepping over questions that are cut off ends where it would have, or nowhere. */
  lemma CutQuestions(data: bytes, whole: bytes, pos: nat, qs: seq<Question>)
    requires data <= whole && WellFormedQuestions(qs) && At(whole, pos, EncodeQuestions(qs))
    ensures var end := pos + |EncodeQuestions(qs)|;
      var r := SkipQuestions(data, pos, |qs|);
      r == Some(end) || (r == None && end > |data|)
  {
    hide SkipQuestions;
    SkipsQuestions(whole, pos, qs);
    if SkipQuestions(data, pos, |qs|).Some? {
      QuestionsStable(data, whole, pos, |qs|);
    } else if pos + |EncodeQuestions(qs)| <= |data| {
      AtPrefix(data, whole, pos, EncodeQuestions(qs));
      SkipsQuestions(data, pos, qs);
    }
  }

  lemma {:induction false} CutAnswers(data: bytes, whole: bytes, pos: nat, rs: seq<Resource>)
    requires data <= whole && WellFormedResources(rs) && At(whole, pos, EncodeResources(rs))
    ensures ScanAnswers(data, pos, |rs|)
      == if pos + |EncodeResources(UpToAddress(rs))| <= |data| then FirstAddress(rs) else None
    decreases |rs|
  {
    hide At, SkipName, EncodeResource, EncodeName, WellFormedResource, Be16, ScanAnswers;
    if rs == [] {
      NoneLeft(data, pos);
    } else {
      var r := rs[0];
      AtConcat(whole, pos, EncodeResource(r), EncodeResources(rs[1..]));
      UpToAddressStep(rs);
      hide UpToAddress, EncodeResources;
      if pos + |EncodeResource(r)| <= |data| {
        AtPrefix(data, whole, pos, EncodeResource(r));
        ScansOne(data, pos, r, |rs|);
        if !IsAddress(r) {
          CutAnswers(data, whole, pos + |EncodeResource(r)|, rs[1..]);
        }
      } else {
        CutRecord(data, whole, pos, r, |rs|);
      }
    }
  }

  lemma NoneLeft(data: bytes, pos: nat)
    ensures ScanAnswers(data, pos, 0) == None
  {
  }

  lemma UpToAddressStep(rs: seq<Resource>)
    requires rs != []
    ensures |EncodeResources(UpToAddress(rs))|
      == |EncodeResource(rs[0])| + if IsAddress(rs[0]) then 0 else |EncodeResources(UpToAddress(rs[1..]))|
  {
    hide EncodeResource, IsAddress;
    var rest := UpToAddress(rs[1..]);
    assert ([rs[0]] + rest)[1..] == rest;
    assert EncodeResources([rs[0]][1..]) == [];
  }

  /** One whole record: its address, or on to the next. */
  lemma ScansOne(data: bytes, pos: nat, r: Resource, count: nat)
    requires count > 0 && WellFormedResource(r) && At(data, pos, EncodeResource(r))
    ensures ScanAnswers(data, pos, count)
      == if IsAddress(r) then Some(Ipv4(r.rdata[0], r.rdata[1], r.rdata[2], r.rdata[3]))
         else ScanAnswers(data, pos + |EncodeResource(r)|, count - 1)
  {
    hide At, SkipName, EncodeResource, EncodeName, WellFormedResource, Be16;
    ResourceBytes(data, pos, r);
    if IsAddress(r) {
      FourBytes(data, pos + |EncodeName(r.owner)| + DNS_RR_HEADER_MIN_SIZE, r.rdata);
    }
  }

  /** A record that is cut off ends the search. */
  lemma CutRecord(data: bytes, whole: bytes, pos: nat, r: Resource, count: nat)
    requires data <= whole && WellFormedResource(r) && At(whole, pos, EncodeResource(r))
    requires pos + |EncodeResource(r)| > |data|
    ensures ScanAnswers(data, pos, count) == None
  {
    hide At, SkipName, EncodeResource, EncodeName, WellFormedResource, Be16;
    ResourceBytes(whole, pos, r);
    if SkipName(data, pos).Some? {
      SkipStable(data, whole, pos);
    }
  }

  lemma {:induction false} SkipStable(data: bytes, whole: bytes, pos: nat)
    requires data <= whole && SkipName(data, pos).Some?
    ensures SkipName(whole, pos) == SkipName(data, pos)
    decreases |data| - pos
  {
    if data[pos] != 0 && !IsPointer(data[pos]) {
      SkipStable(data, whole, pos + 1 + data[pos]);
    }
  }

  lemma {:induction false} QuestionsStable(data: bytes, whole: bytes, pos: nat, count: nat)
    requires data <= whole && SkipQuestions(data, pos, count).Some?
    ensures SkipQuestions(whole, pos, count) == SkipQuestions(data, pos, count)
    decreases count
  {
    if count > 0 {
      SkipStable(data, whole, pos);
      QuestionsStable(data, whole, SkipName(data, pos).value + 4, count - 1);
    }
  }

  lemma {:induction false} AnswersStable(data: bytes, whole: bytes, pos: nat, count: nat)
    requires data <= whole && ScanAnswers(data, pos, count).Some?
    ensures ScanAnswers(whole, pos, count) == ScanAnswers(data, pos, count)
    decreases count
  {
    hide SkipName, Be16;
    SkipStable(data, whole, pos);
    var next := SkipName(data, pos).value;
    var rdlen := Be16(data[next + 8], data[next + 9]);
    if Be16(data[next], data[next + 1]) != DNS_TYPE_A || rdlen != 4 {
      AnswersStable(data, whole, next + DNS_RR_HEADER_MIN_SIZE + rdlen, count - 1);
    }
  }
}
