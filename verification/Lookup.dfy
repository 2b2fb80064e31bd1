/** From a CONNECT request to the DNS query for its host, across the proxy, the rewriting and the resolver. */
module Lookup {
  import opened Bytes
  import opened DnsMessage
  import opened Resolver
  import opened Query
  import opened Text
  import opened Preprocess
  import opened ConnectTarget
  import opened Outcome

  /** How the host goes into the lookup: any way to turn text into bytes, tell literal addresses, and refuse hosts. */
  datatype Setup = Setup(encode: string -> bytes, isIp: bytes -> bool, refused: bytes -> bool)

  /** The host handed to the resolver: not one that is refused, and after the trailing-dot option. */
  function LookupHost(request: string, trailingDot: bool, setup: Setup): Option<bytes> {
    match TunnelTarget(request)
    case None => None
    case Some(target) =>
      var host := setup.encode(target.0);
      if setup.refused(TrimEndDots(host)) then None
      else Some(if trailingDot then EnsureTrailingDot(host, setup.isIp) else host)
  }

  /** The query sent for it: none without a tunnel, for a literal address, or for a name over 100 bytes. */
  function LookupQuery(request: string, trailingDot: bool, setup: Setup): (q: Option<bytes>)
    ensures q.Some? ==> |q.value| >= DNS_HEADER_SIZE
  {
    match LookupHost(request, trailingDot, setup)
    case None => None
    case Some(host) =>
      var clean := TrimEndDots(host);
      if setup.isIp(clean) || |clean| > MAX_DOMAIN then None else Some(QueryBytes(clean))
  }

  /**
    For every request, the query sent after preprocessing, under any flags and with or without the
    trailing dot, is the query for the host the client wrote.
   */
  lemma QueryIsForClientsHost(request: string, httpSpace: bool, mixHeaderCase: bool, trailingDot: bool, setup: Setup)
    ensures LookupQuery(Preprocessed(request, httpSpace, mixHeaderCase), trailingDot, setup)
         == LookupQuery(request, false, setup)
  {
    hide TunnelTarget, Preprocessed, QueryBytes, TrimEndDots;
    TunnelTargetUnchanged(request, httpSpace, mixHeaderCase);
    if TunnelTarget(request).Some? {
      TrailingDotTransparent(setup.encode(TunnelTarget(request).value.0), setup.isIp);
    }
  }

  /**
    A request for a host and port, however rewritten: unless the host is refused, a literal address or
    too long, the query asks for the labels the client wrote, and otherwise there is none.
   */
  lemma HostIsLookedUp(host: string, port: nat, rest: string, httpSpace: bool, mixHeaderCase: bool,
                       trailingDot: bool, setup: Setup)
    requires NoSpace(host) && ':' !in host && port < TWO_TO_THE_16
    ensures var written := setup.encode(host);
      var clean := TrimEndDots(written);
      LookupQuery(Preprocessed(RequestFor(host, port, rest), httpSpace, mixHeaderCase), trailingDot, setup)
      == if setup.refused(clean) || setup.isIp(clean) || |clean| > 100 then None
         else Some(Encode(AskFor(Labels(written))))
  {
    hide Preprocessed, RequestFor, TunnelTarget, TrimEndDots, QueryBytes, Encode, Labels;
    var request := RequestFor(host, port, rest);
    QueryIsForClientsHost(request, httpSpace, mixHeaderCase, trailingDot, setup);
    TunnelOfRequest(host, port, rest);
    QueryIsMessage(TrimEndDots(setup.encode(host)));
    LabelsOfTrimmed(setup.encode(host));
  }

  lemma TunnelOfRequest(host: string, port: nat, rest: string)
    requires NoSpace(host) && ':' !in host && port < TWO_TO_THE_16
    ensures TunnelTarget(RequestFor(host, port, rest)) == Some((host, port))
  {
    hide Preprocessed, RequestFor, IsHttpConnect, ParseConnectTarget;
    var request := RequestFor(host, port, rest);
    ConnectOpensTunnel(host, port, rest, false, false);
    TunnelTargetUnchanged(request, false, false);
  }

  /** ... and every reply to it is understood: the address is the first one answered. */
  lemma ReplyToLookupIsUnderstood(request: string, httpSpace: bool, mixHeaderCase: bool, trailingDot: bool,
                                  setup: Setup, flags: byte, rcodeByte: byte, sectionCounts: bytes,
                                  answers: seq<Resource>, sections: bytes)
    requires LookupQuery(Preprocessed(request, httpSpace, mixHeaderCase), trailingDot, setup).Some?
    requires |sectionCounts| == 4 && WellFormedResources(answers) && |answers| < TWO_TO_THE_16
    ensures var query := LookupQuery(Preprocessed(request, httpSpace, mixHeaderCase), trailingDot, setup).value;
      ReplyAddress(ReplyTo(query, flags, rcodeByte, sectionCounts, answers, sections))
      == if rcodeByte % 16 == 0 then FirstAddress(answers) else None
  {
    hide ReplyAddress, ReplyTo, QueryBytes, FirstAddress, Preprocessed, TrimEndDots, LookupHost, WellFormedResources;
    var host := LookupHost(Preprocessed(request, httpSpace, mixHeaderCase), trailingDot, setup).value;
    ReplyToQueryIsUnderstood(TrimEndDots(host), flags, rcodeByte, sectionCounts, answers, sections);
  }
}
