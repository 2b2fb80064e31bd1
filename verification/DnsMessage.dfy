/** Abstract DNS messages and their encoding (sections 4.1.1 to 4.1.4 of RFC 1035). */
module DnsMessage {
  import opened Bytes

  const DNS_HEADER_SIZE := 12
  datatype Ipv4 = Ipv4(a: byte, b: byte, c: byte, d: byte)

  /** A name written in place ends at the root or in a pointer to an earlier name. */
  datatype NameEnd = Root | Pointer(high: byte, low: byte)

  datatype Name = Name(labels: seq<bytes>, end: NameEnd)

  datatype Question = Question(name: Name, qtype: nat, qclass: nat)

  datatype Resource = Resource(owner: Name, rtype: nat, rclass: nat, ttl: bytes, rdata: bytes)

  /** `sections` stands for the authority and additional records, and anything else after the answers. */
  datatype Message = Message(id: bytes, flags: byte, rcodeByte: byte, sectionCounts: bytes,
                             questions: seq<Question>, answers: seq<Resource>, sections: bytes)

  // ---- Encoding --------------------------------------------------------------------------

  function EncodeLabels(labels: seq<bytes>): bytes {
    if labels == [] then [] else Prefixed8(labels[0]) + EncodeLabels(labels[1..])
  }

  function EncodeEnd(end: NameEnd): (b: bytes)
    ensures 1 <= |b| <= 2
  {
    match end
    case Root => [0]
    case Pointer(high, low) => [high, low]
  }

  function EncodeName(n: Name): bytes {
    EncodeLabels(n.labels) + EncodeEnd(n.end)
  }

  function EncodeQuestion(q: Question): bytes {
    EncodeName(q.name) + (U16(q.qtype) + U16(q.qclass))
  }

  function EncodeQuestions(qs: seq<Question>): bytes {
    if qs == [] then [] else EncodeQuestion(qs[0]) + EncodeQuestions(qs[1..])
  }

  /** The ten fixed bytes between a record's name and its data. */
  function EncodeFixed(r: Resource): bytes {
    U16(r.rtype) + (U16(r.rclass) + (r.ttl + U16(|r.rdata|)))
  }

  function EncodeResource(r: Resource): bytes {
    EncodeName(r.owner) + (EncodeFixed(r) + r.rdata)
  }

  function EncodeResources(rs: seq<Resource>): bytes {
    if rs == [] then [] else EncodeResource(rs[0]) + EncodeResources(rs[1..])
  }

  function EncodeHeader(m: Message): bytes {
    m.id + ([m.flags, m.rcodeByte] + (U16(|m.questions|) + (U16(|m.answers|) + m.sectionCounts)))
  }

  function Encode(m: Message): bytes {
    EncodeHeader(m) + (EncodeQuestions(m.questions) + (EncodeResources(m.answers) + m.sections))
  }

  // ---- Well-formedness -------------------------------------------------------------------

  /** The first byte of a compression pointer: its two high bits are set. */
  predicate HasPointerBits(b: byte) {
    b / 64 == 3
  }

  /** Labels of any length that cannot be taken for a pointer; RFC 1035 itself stops at 63. */
  predicate WellFormedLabels(labels: seq<bytes>) {
    labels == [] || (1 <= |labels[0]| < 192 && WellFormedLabels(labels[1..]))
  }

  predicate WellFormedName(n: Name) {
    WellFormedLabels(n.labels) && (n.end.Pointer? ==> HasPointerBits(n.end.high))
  }

  predicate WellFormedQuestions(qs: seq<Question>) {
    qs == [] || (WellFormedName(qs[0].name) && WellFormedQuestions(qs[1..]))
  }

  predicate WellFormedResource(r: Resource) {
    && WellFormedName(r.owner)
    && r.rtype < TWO_TO_THE_16 && |r.ttl| == 4 && |r.rdata| < TWO_TO_THE_16
  }

  predicate WellFormedResources(rs: seq<Resource>) {
    rs == [] || (WellFormedResource(rs[0]) && WellFormedResources(rs[1..]))
  }

  predicate WellFormed(m: Message) {
    && |m.id| == 2 && |m.sectionCounts| == 4
    && |m.questions| < TWO_TO_THE_16 && |m.answers| < TWO_TO_THE_16
    && WellFormedQuestions(m.questions) && WellFormedResources(m.answers)
  }

  function Rcode(m: Message): nat {
    m.rcodeByte % 16
  }

  // ---- Meaning ---------------------------------------------------------------------------

  /** A host address: type A, four bytes. */
  predicate IsAddress(r: Resource) {
    r.rtype == 1 && |r.rdata| == 4
  }

  /** A record of type SVCB or HTTPS (section 14 of RFC 9460). */
  predicate IsServiceBinding(r: Resource) {
    r.rtype == 64 || r.rtype == 65
  }

  /** The address in the first record of type A that holds four bytes. */
  function FirstAddress(rs: seq<Resource>): Option<Ipv4> {
    if rs == [] then None
    else if IsAddress(rs[0]) then
      var d := rs[0].rdata;
      Some(Ipv4(d[0], d[1], d[2], d[3]))
    else FirstAddress(rs[1..])
  }

  function WithoutServiceBindings(rs: seq<Resource>): seq<Resource> {
    if rs == [] then []
    else (if IsServiceBinding(rs[0]) then [] else [rs[0]]) + WithoutServiceBindings(rs[1..])
  }

  lemma {:induction false} ServiceBindingsHoldNoAddress(rs: seq<Resource>)
    ensures FirstAddress(WithoutServiceBindings(rs)) == FirstAddress(rs)
  {
    if rs != [] {
      ServiceBindingsHoldNoAddress(rs[1..]);
      if IsServiceBinding(rs[0]) {
        assert WithoutServiceBindings(rs) == WithoutServiceBindings(rs[1..]);
      } else {
        assert WithoutServiceBindings(rs)[1..] == WithoutServiceBindings(rs[1..]);
      }
    }
  }
}
