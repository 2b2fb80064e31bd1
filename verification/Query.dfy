/** The DNS query builder of src/dns/resolver.rs, and its agreement with the reply parser. */
module Query {
  import opened Bytes
  import opened DnsMessage
  import opened Resolver

  const MAX_DOMAIN := 100

  function NonEmpty(parts: seq<bytes>): (labels: seq<bytes>)
    ensures forall l :: l in labels ==> l != []
  {
    if parts == [] then []
    else (if parts[0] == [] then [] else [parts[0]]) + NonEmpty(parts[1..])
  }

  /** The non-empty parts of a domain between its dots. */
  function Labels(domain: bytes): seq<bytes> {
    NonEmpty(Split(domain, DOT))
  }

  /** Transaction 1, recursion desired, one question, no records. */
  const QUERY_HEADER: bytes := [0, 1, 1, 0, 0, 1, 0, 0, 0, 0, 0, 0]

  /** Type A, class IN. */
  const QUESTION_TAIL: bytes := [0, 1, 0, 1]

  function QueryBytes(domain: bytes): bytes {
    QUERY_HEADER + (EncodeName(Name(Labels(domain), Root)) + QUESTION_TAIL)
  }

  // ---- The buffer ------------------------------------------------------------------------

  /** The buffer starts with `done` and is zero from there on. */
  predicate Filled(buf: bytes, done: bytes) {
    |buf| == QUERY_BUF_SIZE && |done| <= QUERY_BUF_SIZE && buf == done + Zeros(QUERY_BUF_SIZE - |done|)
  }

  lemma FilledMore(buf: bytes, done: bytes, src: bytes, after: bytes)
    requires Filled(buf, done) && |done| + |src| <= QUERY_BUF_SIZE
    requires after == buf[..|done|] + src + buf[|done| + |src|..]
    ensures Filled(after, done + src)
  {
    assert buf[..|done|] == done;
    assert buf[|done| + |src|..] == Zeros(QUERY_BUF_SIZE - |done| - |src|);
  }

  /** `copy_from_slice` at the end of what is filled. */
  method CopyAt(query: array<byte>, pos: nat, src: bytes, ghost done: bytes)
    requires pos == |done| && pos + |src| <= QUERY_BUF_SIZE && Filled(query[..], done)
    modifies query
    ensures Filled(query[..], done + src)
  {
    ghost var before := query[..];
    forall i | 0 <= i < |src| {
      query[pos + i] := src[i];
    }
    assert query[..] == before[..pos] + src + before[pos + |src|..];
    FilledMore(before, done, src, query[..]);
  }

  /** One byte stored there. */
  method StoreAt(query: array<byte>, pos: nat, value: byte, ghost done: bytes)
    requires pos == |done| < QUERY_BUF_SIZE && Filled(query[..], done)
    modifies query
    ensures Filled(query[..], done + [value])
  {
    ghost var before := query[..];
    query[pos] := value;
    assert query[..] == before[..pos] + [value] + before[pos + 1..];
    FilledMore(before, done, [value], query[..]);
  }

  /** Room that the parts still to come may need: one length byte each, and their text. */
  function Weight(parts: seq<bytes>): nat {
    if parts == [] then 0 else 1 + |parts[0]| + Weight(parts[1..])
  }

  lemma {:induction false} WeightOfJoin(parts: seq<bytes>, sep: bytes)
    requires parts != [] && |sep| == 1
    ensures Weight(parts) == |Join(parts, sep)| + 1
    decreases |parts|
  {
    if |parts| > 1 {
      WeightOfJoin(parts[1..], sep);
    } else {
      assert parts[1..] == [];
    }
  }

  lemma {:induction false} LabelsLength(parts: seq<bytes>)
    ensures |EncodeLabels(NonEmpty(parts))| <= Weight(parts)
    decreases |parts|
  {
    if parts != [] {
      LabelsLength(parts[1..]);
      LabelsStep(parts);
    }
  }

  lemma LabelsStep(parts: seq<bytes>)
    requires parts != []
    ensures EncodeLabels(NonEmpty(parts))
      == (if parts[0] == [] then [] else Prefixed8(parts[0])) + EncodeLabels(NonEmpty(parts[1..]))
  {
    if parts[0] == [] {
      assert NonEmpty(parts) == NonEmpty(parts[1..]);
    } else {
      assert NonEmpty(parts)[1..] == NonEmpty(parts[1..]);
    }
  }

  lemma QueryLength(domain: bytes)
    ensures |EncodeLabels(Labels(domain))| <= |domain| + 1
    ensures |QueryBytes(domain)| == DNS_HEADER_SIZE + |EncodeLabels(Labels(domain))| + 5
  {
    JoinOfSplit(domain, DOT);
    WeightOfJoin(Split(domain, DOT), [DOT]);
    LabelsLength(Split(domain, DOT));
  }

  /**
    For every domain of at most 100 bytes the query fills at most 118 of the 128 bytes and is exactly
    the encoding of its non-empty labels: the room test never drops one. A longer domain gives length 0.
   */
  method BuildDnsQuery(domain: bytes) returns (query: array<byte>, length: nat)
    ensures fresh(query) && query.Length == 128
    ensures |domain| > 100 ==> length == 0 && query[..] == Zeros(128)
    ensures |domain| <= 100 ==>
      length <= 118 && query[..length] == QueryBytes(domain) && Filled(query[..], QueryBytes(domain))
  {
    hide Filled, EncodeLabels, Prefixed8, NonEmpty, Weight, U16;
    query := new byte[QUERY_BUF_SIZE](_ => 0);
    EmptyBuffer(query[..]);
    if |domain| > MAX_DOMAIN {
      return query, 0;
    }
    ghost var done: bytes := BuildHeader(query);
    var pos: nat := DNS_HEADER_SIZE;
    var parts := Split(domain, DOT);
    ghost var labels := EncodeLabels(NonEmpty(parts));
    QueryLength(domain);
    JoinOfSplit(domain, DOT);
    WeightOfJoin(parts, [DOT]);
    AllParts(parts);
    for i := 0 to |parts|
      invariant Filled(query[..], done) && pos == |done|
      invariant pos + Weight(parts[i..]) <= DNS_HEADER_SIZE + |domain| + 1
      invariant done + EncodeLabels(NonEmpty(parts[i..])) == QUERY_HEADER + labels
    {
      var part := parts[i];
      ghost var rest := EncodeLabels(NonEmpty(parts[i + 1..]));
      PartStep(parts, i);
      if part != [] && pos + 1 + |part| < 120 {
        StoreAt(query, pos, |part| % 256, done);
        pos := pos + 1;
        CopyAt(query, pos, part, done + [|part| % 256]);
        pos := pos + |part|;
        LabelAdded(done, part, rest);
        done := done + [|part| % 256] + part;
      }
    }
    NoParts(parts);
    assert done == QUERY_HEADER + labels;
    StoreAt(query, pos, 0, done);
    pos := pos + 1;
    CopyAt(query, pos, U16(DNS_TYPE_A), done + [0]);
    pos := pos + 2;
    CopyAt(query, pos, U16(DNS_CLASS_IN), done + [0] + U16(DNS_TYPE_A));
    pos := pos + 2;
    QueryAssembled(domain, done, query[..]);
    length := pos;
  }

  /** The six 16-bit header fields, stored one after another. */
  method BuildHeader(query: array<byte>) returns (ghost done: bytes)
    requires Filled(query[..], [])
    modifies query
    ensures done == QUERY_HEADER && Filled(query[..], done)
  {
    hide U16, Filled;
    ghost var h := QUERY_HEADER;
    CopyAt(query, 0, U16(1), []);
    HeaderField(0, 0, 1);
    assert [] + U16(1) == h[..2];
    CopyAt(query, 2, U16(0x0100), h[..2]);
    HeaderField(2, 1, 0);
    CopyAt(query, 4, U16(1), h[..4]);
    HeaderField(4, 0, 1);
    CopyAt(query, 6, U16(0), h[..6]);
    HeaderField(6, 0, 0);
    CopyAt(query, 8, U16(0), h[..8]);
    HeaderField(8, 0, 0);
    CopyAt(query, 10, U16(0), h[..10]);
    HeaderField(10, 0, 0);
    done := h;
  }

  lemma HeaderField(k: nat, hi: byte, lo: byte)
    requires k + 2 <= DNS_HEADER_SIZE && QUERY_HEADER[k] == hi && QUERY_HEADER[k + 1] == lo
    ensures U16(256 * hi + lo) == [hi, lo]
    ensures QUERY_HEADER[..k] + U16(256 * hi + lo) == QUERY_HEADER[..k + 2]
    ensures QUERY_HEADER[..DNS_HEADER_SIZE] == QUERY_HEADER
  {
    U16OfBe16(hi, lo);
    hide U16;
  }

  lemma EmptyBuffer(buf: bytes)
    requires |buf| == QUERY_BUF_SIZE && forall i :: 0 <= i < |buf| ==> buf[i] == 0
    ensures Filled(buf, []) && buf == Zeros(QUERY_BUF_SIZE)
  {
  }

  lemma AllParts(parts: seq<bytes>)
    ensures parts[0..] == parts
  {
  }

  lemma NoParts(parts: seq<bytes>)
    ensures parts[|parts|..] == [] && forall b: bytes :: b + EncodeLabels(NonEmpty([])) == b
  {
  }

  lemma PartStep(parts: seq<bytes>, i: nat)
    requires i < |parts|
    ensures Weight(parts[i..]) == 1 + |parts[i]| + Weight(parts[i + 1..])
    ensures EncodeLabels(NonEmpty(parts[i..]))
      == (if parts[i] == [] then [] else Prefixed8(parts[i])) + EncodeLabels(NonEmpty(parts[i + 1..]))
    ensures parts[i] == [] ==> EncodeLabels(NonEmpty(parts[i..])) == EncodeLabels(NonEmpty(parts[i + 1..]))
  {
    assert parts[i..][1..] == parts[i + 1..];
    LabelsStep(parts[i..]);
  }

  lemma LabelAdded(done: bytes, part: bytes, rest: bytes)
    ensures done + [|part| % 256] + part + rest == done + (Prefixed8(part) + rest)
  {
  }

  lemma QueryAssembled(domain: bytes, done: bytes, buf: bytes)
    requires done == QUERY_HEADER + EncodeLabels(Labels(domain))
    requires Filled(buf, done + [0] + U16(DNS_TYPE_A) + U16(DNS_CLASS_IN))
    ensures Filled(buf, QueryBytes(domain)) && buf[..|done| + 5] == QueryBytes(domain)
  {
    assert U16(DNS_TYPE_A) == [0, 1];
    assert done + [0] + U16(DNS_TYPE_A) + U16(DNS_CLASS_IN) == QueryBytes(domain);
  }

  // ---- The query read back ---------------------------------------------------------------

  /** Section 3.1 of RFC 1035 with a limit on the label length; section 2.3.4 sets it to 63. */
  function DecodeLabels(data: bytes, pos: nat, limit: nat): Option<seq<bytes>>
    decreases |data| - pos
  {
    if pos >= |data| then None
    else if data[pos] == 0 then Some([])
    else if data[pos] > limit || pos + 1 + data[pos] > |data| then None
    else match DecodeLabels(data, pos + 1 + data[pos], limit)
      case None => None
      case Some(rest) => Some([data[pos + 1..pos + 1 + data[pos]]] + rest)
  }

  predicate Within(labels: seq<bytes>, limit: nat) {
    labels == [] || (|labels[0]| <= limit && Within(labels[1..], limit))
  }

  lemma {:induction false} WithinAll(labels: seq<bytes>, limit: nat)
    ensures Within(labels, limit) <==> forall l :: l in labels ==> |l| <= limit
  {
    if labels != [] {
      WithinAll(labels[1..], limit);
      assert forall l :: l in labels <==> l == labels[0] || l in labels[1..];
    }
  }

  lemma {:induction false} DecodesLabels(data: bytes, pos: nat, labels: seq<bytes>, limit: nat)
    requires WellFormedLabels(labels) && At(data, pos, EncodeLabels(labels) + [0])
    ensures DecodeLabels(data, pos, limit) == if Within(labels, limit) then Some(labels) else None
    decreases |labels|
  {
    hide At, Prefixed8;
    AtConcat(data, pos, EncodeLabels(labels), [0]);
    if labels == [] {
      ZeroByte(data, pos);
    } else {
      var word, rest := labels[0], EncodeLabels(labels[1..]);
      ConcatAssociative(Prefixed8(word), rest, [0]);
      AtConcat(data, pos, Prefixed8(word), rest + [0]);
      LabelBytes(data, pos, word);
      WordAt(data, pos + 1, word);
      DecodesLabels(data, pos + 1 + |word|, labels[1..], limit);
      assert [word] + labels[1..] == labels;
    }
  }

  lemma ZeroByte(data: bytes, pos: nat)
    requires At(data, pos, [0])
    ensures pos < |data| && data[pos] == 0
  {
    AtIndex(data, pos, [0], 0);
  }

  lemma WordAt(data: bytes, pos: nat, word: bytes)
    requires At(data, pos, word)
    ensures pos + |word| <= |data| && data[pos..pos + |word|] == word
  {
  }

  lemma {:induction false} ShortLabelsWellFormed(labels: seq<bytes>)
    requires |EncodeLabels(labels)| < 192 && forall l :: l in labels ==> l != []
    ensures WellFormedLabels(labels)
    decreases |labels|
  {
    if labels != [] {
      assert labels[0] in labels && forall l :: l in labels[1..] ==> l in labels;
      ShortLabelsWellFormed(labels[1..]);
    }
  }

  lemma QueryNameAt(domain: bytes)
    requires |domain| <= 100
    ensures At(QueryBytes(domain), DNS_HEADER_SIZE, EncodeLabels(Labels(domain)) + [0])
    ensures WellFormedLabels(Labels(domain))
  {
    hide At, EncodeLabels, Labels;
    var name := EncodeLabels(Labels(domain)) + [0];
    assert EncodeName(Name(Labels(domain), Root)) == name;
    AtSelf(QueryBytes(domain));
    AtConcat(QueryBytes(domain), 0, QUERY_HEADER, name + QUESTION_TAIL);
    AtConcat(QueryBytes(domain), DNS_HEADER_SIZE, name, QUESTION_TAIL);
    QueryLength(domain);
    LabelsNonEmpty(domain);
    ShortLabelsWellFormed(Labels(domain));
  }

  lemma LabelsNonEmpty(domain: bytes)
    ensures forall l :: l in Labels(domain) ==> l != []
  {
  }

  /** Reading the question back gives exactly the domain's non-empty labels. */
  lemma QueryDecodes(domain: bytes)
    requires |domain| <= 100
    ensures DecodeLabels(QueryBytes(domain), 12, 191) == Some(Labels(domain))
  {
    hide Labels, QueryBytes, At, DecodeLabels;
    QueryNameAt(domain);
    DecodesLabels(QueryBytes(domain), DNS_HEADER_SIZE, Labels(domain), 191);
    QueryLength(domain);
    ShortLabelsWithin(Labels(domain));
  }

  lemma {:induction false} ShortLabelsWithin(labels: seq<bytes>)
    requires WellFormedLabels(labels)
    ensures Within(labels, 191)
    decreases |labels|
  {
    if labels != [] {
      ShortLabelsWithin(labels[1..]);
    }
  }

  /** The builder does not check label lengths: its query is a legal one exactly when they are legal. */
  lemma QueryLegalExactly(domain: bytes)
    requires |domain| <= 100
    ensures DecodeLabels(QueryBytes(domain), 12, 63) == Some(Labels(domain))
      <==> forall l :: l in Labels(domain) ==> |l| <= 63
  {
    hide Labels, QueryBytes, At, DecodeLabels;
    QueryNameAt(domain);
    DecodesLabels(QueryBytes(domain), DNS_HEADER_SIZE, Labels(domain), 63);
    WithinAll(Labels(domain), 63);
  }

  /** Two domains make the same query exactly when they have the same labels. */
  lemma QueriesEqualExactly(a: bytes, b: bytes)
    requires |a| <= 100 && |b| <= 100
    ensures QueryBytes(a) == QueryBytes(b) <==> Labels(a) == Labels(b)
  {
    hide Labels, DecodeLabels;
    QueryDecodes(a);
    QueryDecodes(b);
  }

  // ---- The query as a message ------------------------------------------------------------

  /** What a resolver is asked: transaction 1, recursion desired, type A, class IN, for these labels. */
  function AskFor(labels: seq<bytes>): Message {
    Message([0, 1], 1, 0, [0, 0, 0, 0], [Question(Name(labels, Root), 1, 1)], [], [])
  }

  /** The query is that message, for the labels of the domain. */
  lemma QueryIsMessage(domain: bytes)
    ensures QueryBytes(domain) == Encode(AskFor(Labels(domain)))
  {
    var m := AskFor(Labels(domain));
    QuestionBytes(m.questions[0]);
    HeaderOfQuery(m);
    hide EncodeQuestions, EncodeHeader, U16, Labels, EncodeName;
    assert EncodeResources(m.answers) + m.sections == [];
    assert EncodeQuestions(m.questions) + [] == EncodeQuestions(m.questions);
  }

  lemma HeaderOfQuery(m: Message)
    requires |m.questions| == 1 && m.answers == [] && m.sectionCounts == [0, 0, 0, 0]
    requires m.id == [0, 1] && m.flags == 1 && m.rcodeByte == 0
    ensures EncodeHeader(m) == [0, 1, 1, 0, 0, 1, 0, 0, 0, 0, 0, 0]
  {
    U16OfBe16(0, 1);
    U16OfBe16(0, 0);
    hide U16;
  }

  lemma QuestionBytes(q: Question)
    requires q.qtype == 1 && q.qclass == 1
    ensures EncodeQuestions([q]) == EncodeName(q.name) + [0, 1, 0, 1]
  {
    hide EncodeName;
    U16OfBe16(0, 1);
    assert EncodeQuestions([q][1..]) == [];
    assert EncodeQuestion(q) == EncodeName(q.name) + [0, 1, 0, 1];
  }

  // ---- The labels of a domain ------------------------------------------------------------

  /** The labels of a domain are those before its first dot and those after it ... */
  lemma LabelsAtDot(word: bytes, rest: bytes)
    requires DOT !in word
    ensures Labels(word + [0x2E] + rest) == (if word == [] then [] else [word]) + Labels(rest)
  {
    hide Split;
    SplitCons(word, DOT, rest);
    assert ([word] + Split(rest, DOT))[1..] == Split(rest, DOT);
  }

  /** ... and without a dot it is its own one label, if it is anything. */
  lemma LabelsOfWord(word: bytes)
    requires DOT !in word
    ensures Labels(word) == if word == [] then [] else [word]
  {
    SplitWhole(word);
    assert NonEmpty([word][1..]) == [];
  }

  /** Any non-empty words, joined by dots, are the labels. */
  lemma {:induction false} LabelsOfJoin(words: seq<bytes>)
    requires forall w :: w in words ==> w != [] && DOT !in w
    ensures Labels(Join(words, [0x2E])) == words
    decreases |words|
  {
    hide Labels;
    if words == [] {
      LabelsOfWord([]);
    } else {
      assert words[0] in words && forall w :: w in words[1..] ==> w in words;
      if |words| == 1 {
        LabelsOfWord(words[0]);
      } else {
        LabelsOfJoin(words[1..]);
        LabelsAtDot(words[0], Join(words[1..], [DOT]));
      }
    }
  }

  // ---- Query and reply -------------------------------------------------------------------

  /** A server's reply to a query: its first two bytes and its question repeated, answers appended. */
  function ReplyTo(query: bytes, flags: byte, rcodeByte: byte, sectionCounts: bytes,
                   answers: seq<Resource>, sections: bytes): bytes
    requires |query| >= DNS_HEADER_SIZE
  {
    (query[..2] + ([flags, rcodeByte] + (query[4..6] + (U16(|answers|) + sectionCounts))))
    + (query[DNS_HEADER_SIZE..] + (EncodeResources(answers) + sections))
  }

  /**
    For every domain the builder accepts and every reply to its query: the parser steps over the
    question exactly and returns the first four-byte address among the answers.
   */
  lemma ReplyToQueryIsUnderstood(domain: bytes, flags: byte, rcodeByte: byte, sectionCounts: bytes,
                                 answers: seq<Resource>, sections: bytes)
    requires |domain| <= 100 && |sectionCounts| == 4
    requires WellFormedResources(answers) && |answers| < TWO_TO_THE_16
    ensures ReplyAddress(ReplyTo(QueryBytes(domain), flags, rcodeByte, sectionCounts, answers, sections))
         == if rcodeByte % 16 == 0 then FirstAddress(answers) else None
  {
    hide ReplyAddress, FirstAddress, EncodeResources, WellFormedResources, Labels, WellFormedLabels;
    var question := Question(Name(Labels(domain), Root), DNS_TYPE_A, DNS_CLASS_IN);
    var m := Message([0, 1], flags, rcodeByte, sectionCounts, [question], answers, sections);
    QueryNameAt(domain);
    QueryParts(domain, question);
    assert WellFormedQuestions([question][1..]);
    ReplyYieldsFirstAddress(m);
    hide EncodeQuestions, QueryBytes, U16;
    assert ReplyTo(QueryBytes(domain), flags, rcodeByte, sectionCounts, answers, sections) == Encode(m);
  }

  lemma QueryParts(domain: bytes, question: Question)
    requires question == Question(Name(Labels(domain), Root), DNS_TYPE_A, DNS_CLASS_IN)
    ensures var q := QueryBytes(domain);
      && |q| >= DNS_HEADER_SIZE
      && q[..2] == [0, 1] && q[4..6] == U16(1)
      && q[DNS_HEADER_SIZE..] == EncodeQuestions([question])
  {
    hide EncodeLabels, Labels;
    U16OfBe16(0, 1);
    assert EncodeQuestions([question][1..]) == [];
    assert EncodeQuestion(question) == EncodeName(question.name) + QUESTION_TAIL;
    assert EncodeQuestions([question]) == EncodeQuestion(question);
  }

  // ---- The trailing dot ------------------------------------------------------------------

  /** `trim_end_matches('.')`. */
  function TrimEndDots(host: bytes): bytes {
    if host != [] && host[|host| - 1] == DOT then TrimEndDots(host[..|host| - 1]) else host
  }

  /** Literal addresses are recognised by the standard library; any such test is allowed for here. */
  function EnsureTrailingDot(host: bytes, isIp: bytes -> bool): bytes {
    if host == [] || host[|host| - 1] == DOT || isIp(host) then host else host + [DOT]
  }

  /** Trimming takes dots off the end, all of them and nothing else. */
  lemma {:induction false} TrimEndDotsExactly(host: bytes)
    ensures var t := TrimEndDots(host);
      && t <= host && (forall i :: |t| <= i < |host| ==> host[i] == 0x2E)
      && (t != [] ==> t[|t| - 1] != 0x2E)
    decreases |host|
  {
    if host != [] && host[|host| - 1] == DOT {
      var shorter := host[..|host| - 1];
      TrimEndDotsExactly(shorter);
      assert forall i :: 0 <= i < |shorter| ==> host[i] == shorter[i];
    }
  }

  /** So the host looked up has the labels of the host asked for. */
  lemma {:induction false} LabelsOfTrimmed(host: bytes)
    ensures Labels(TrimEndDots(host)) == Labels(host)
    decreases |host|
  {
    hide Labels;
    if host != [] && host[|host| - 1] == DOT {
      var shorter := host[..|host| - 1];
      LabelsOfTrimmed(shorter);
      LabelsIgnoreLastDot(shorter);
      assert shorter + [DOT] == host;
    }
  }

  lemma DotTrimmed(host: bytes)
    ensures TrimEndDots(host + [DOT]) == TrimEndDots(host)
  {
    assert (host + [DOT])[..|host|] == host;
  }

  /**
    Whatever counts as a literal address: a domain name comes out ending in a dot, one byte longer at
    most; adding the dot twice is adding it once; and the host looked up and the query built for it are
    the same with the option on and off.
   */
  lemma TrailingDotTransparent(host: bytes, isIp: bytes -> bool)
    ensures var dotted := EnsureTrailingDot(host, isIp);
      && host <= dotted && |dotted| <= |host| + 1
      && (host == [] || isIp(host) || dotted[|dotted| - 1] == 0x2E)
      && (isIp(host) ==> dotted == host)
      && EnsureTrailingDot(dotted, isIp) == dotted
      && TrimEndDots(dotted) == TrimEndDots(host)
      && QueryBytes(TrimEndDots(dotted)) == QueryBytes(TrimEndDots(host))
      && Labels(dotted) == Labels(host)
  {
    DotTrimmed(host);
    LabelsIgnoreLastDot(host);
    hide TrimEndDots, Labels, QueryBytes;
  }

  lemma {:induction false} SplitLastDot(host: bytes)
    ensures Split(host + [DOT], DOT) == Split(host, DOT) + [[]]
    decreases |host|
  {
    hide Split, IndexOf;
    var i := IndexOf(host, DOT);
    TakeUpTo(host, i);
    if i < |host| {
      var word, rest := host[..i], host[i + 1..];
      SplitLastDot(rest);
      TakeOneDrop(host, i);
      SplitCons(word, DOT, rest);
      SplitCons(word, DOT, rest + [DOT]);
      ConcatAssociative(word + [DOT], rest, [DOT]);
      ConcatAssociative([word], Split(rest, DOT), [[]]);
    } else {
      SplitCons(host, DOT, []);
      SplitWhole(host);
      SplitWhole([]);
      assert host + [DOT] + [] == host + [DOT];
    }
  }

  lemma SplitWhole(host: bytes)
    requires DOT !in host
    ensures Split(host, DOT) == [host]
  {
  }

  lemma TakeUpTo(host: bytes, i: nat)
    requires i == IndexOf(host, DOT)
    ensures i <= |host| && DOT !in host[..i]
    ensures i < |host| ==> host[i] == DOT
    ensures i == |host| ==> host[..i] == host
  {
  }

  lemma {:induction false} NonEmptyAppendEmpty(parts: seq<bytes>)
    ensures NonEmpty(parts + [[]]) == NonEmpty(parts)
    decreases |parts|
  {
    if parts == [] {
      assert parts + [[]] == [[]];
      assert NonEmpty([[]][1..]) == [];
    } else {
      assert (parts + [[]])[1..] == parts[1..] + [[]];
      NonEmptyAppendEmpty(parts[1..]);
    }
  }

  lemma LabelsIgnoreLastDot(host: bytes)
    ensures Labels(host + [DOT]) == Labels(host)
  {
    SplitLastDot(host);
    NonEmptyAppendEmpty(Split(host, DOT));
  }
}
