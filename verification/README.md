# Byte-level engine of greentunnelRS

greentunnelRS is a local CONNECT proxy. It rewrites the client's CONNECT request, looks the host up
over UDP, and forwards the client's TLS ClientHello as two TLS records cut inside the host name. This
project models that path, from the client's bytes to the bytes on the server's wire, and proves what
it keeps.

| file | what it models |
|---|---|
| `Bytes.dfy`, `Text.dfy` | 16-bit integers, chunks of byte strings; lines, words, trimming and ASCII case as the Rust library has them |
| `RecordLayer.dfy` | how a TLS endpoint reads a stream (section 5.1 of RFC 8446), written without reference to the proxy |
| `Fragmenter.dfy` | the record fragmenter |
| `TlsParser.dfy`, `ClientHello.dfy` | the index walk for the host name, and the abstract ClientHello it is judged against |
| `SniSplit.dfy` | first-record extraction, the random cut, and what the server receives |
| `HelloBuilder.dfy` | the synthetic ClientHello and its 16-bit bound |
| `RemoteStream.dfy` | the server's socket as an event log, and the write loops |
| `Tunnel.dfy` | sending the records, the chunked fallback, and the first read end to end |
| `ReadWitnesses.dfy` | reads on which the server's stream does not survive |
| `DnsMessage.dfy`, `Resolver.dfy`, `Query.dfy` | abstract DNS messages, the reply parser, the query builder, the trailing dot |
| `HttpRewrite.dfy`, `Preprocess.dfy`, `HeaderPasses.dfy`, `ConnectTarget.dfy` | the request rewriting and the CONNECT target |
| `Outcome.dfy` | the text that comes out of the rewriting, and the reply it leads to |
| `Lookup.dfy` | from a CONNECT request to the query for its host and the reply to it |
| `MetaFilter.dfy` | the domain test that suppresses the pause |

Conventions. Code that works by changing things in steps is a method, proved equal to a specification
function or against a stated property; the theorems are about those functions. The socket's answers,
the random cut, the chunk sizes and the length of the pause are nondeterministic choices, so what is
proved holds for each of them. The socket's log only grows, so a statement about its bytes at the end
of a run covers every earlier moment (`RemoteStream.WireOnlyGrows`). The inner loop of the vectored
writer and the sending of the second record are methods of their own. `hide` statements only keep
definitions a proof does not use away from the solver.

Tables and tests that several theorems share are each tied to a second description: the encodings of
the abstract hellos and messages use the numbers of their standards, not the constants of the code, and
the members named `...Exactly` say of every input what a test, a search or a cut does.

Where the code falls short of its purpose, the model keeps the code and states exactly when it does
not:

- Splitting needs a read that holds the whole first record. A read that stops after the host name but
  inside the hello is split all the same, and the server's stream is corrupted
  (`SniSplit.SplitPreservesExactly`, `Tunnel.PartialHelloSurvivesExactly`;
  `ReadWitnesses.IncompleteReadIsSplit` gives such a read).
- The fallback writes the first record and drops the rest of the read, which is harmless only for empty
  records (`SniSplit.FallbackPreservesExactly`, `ReadWitnesses.FallbackDropsBytes`).
- The walk checks the host name against the end of the data only, not against the length of its extension
  or of the extensions block (`TlsParser.ReportedNameExactly`, `TlsParser.StrayNameIsReported`).
- The walk for the host name never looks at the type of a server name (`ClientHello.WalkFindsHostNameExactly`).
- `README.md:24` and `FEATURES.md:54-56` of the repository promise no delay for Meta domains. The test
  runs after the trailing dot is appended, and that option is on by default, so no domain name passes
  it (`MetaFilter.TrailingDotDisablesFilter`).
- `README.md:33` presents the filtering of DNS types 64 and 65 as a feature. The branch has no effect:
  the reply parser with it equals a specification without it (`Resolver.ParseDnsResponse`).
- Preprocessing can take the CONNECT method from a request whose first line is blank, which changes the
  reply (`Preprocess.ConnectTestUnchangedExactly`, `Preprocess.DispatchUnchangedExactly`).
- The query builder does not check label lengths (`Query.QueryLegalExactly`).
- Each header pass turns the blank line into a mere line ending, which the next pass drops
  (`HeaderPasses.StripIdempotentExactly`, `HeaderPasses.MixIdempotentExactly`).
- A CONNECT host with a colon, such as an IPv6 literal, does not survive parsing
  (`ConnectTarget.TargetRoundTripExactly`).

## Model

| member | source | states |
|---|---|---|
| Fragmenter.FragmentsCarryPayload | src/tls/fragmenter.rs:50-101 | for all data and every offset the pieces carry the payload in order; a second one, non-empty like the first, exists iff the offset is strictly inside; and a TLS reader takes each for one whole record of the data's own type and version, or of the defaults, iff its length fits 16 bits |
| Fragmenter.SplitRecordStream | src/tls/fragmenter.rs:74-100 | a reader of the two records and any further bytes gets the record's two halves and then exactly what it would have read |
| TlsParser.FindSniInfo | src/tls/parser.rs:30-103 | the walk stays in range, ends on every byte string, and returns what the specification of the walk says |
| TlsParser.FindExtensionsLengthOffset | src/tls/parser.rs:107-139 | the offset walk makes the same first steps as the search for the name; its separate length test changes nothing |
| TlsParser.ExtensionsOffsetExactly | src/tls/parser.rs:44-74 | on any bytes, the offset is found iff a session id, cipher suites and compression methods with their lengths stand one after another behind the random and two more bytes follow; it is where they end |
| TlsParser.SniInfoStable | src/tls/parser.rs:30-103 | a name found in some bytes is found in the same place when any bytes follow |
| TlsParser.SniInfoOfPrefix | src/tls/parser.rs:30-103 | on a first part of the data the walk finds the name of the whole as soon as that name is all there, and nothing before |
| TlsParser.ReportedNameExactly | src/tls/parser.rs:77-102 | on any bytes, a name is reported iff hops over extensions of other types lead to a server_name header that starts inside the declared extensions, with the reported length at its place and the name inside the data |
| TlsParser.StrayNameIsReported | src/tls/parser.rs:82-97 | a complete record for which the reported name lies outside its extension and outside the declared extensions |
| ClientHello.WalkFindsFirstEntry | src/tls/parser.rs:76-97 | for every well-formed hello the walk returns the exact place of the first entry of the first server_name extension, where that name's bytes stand, and nothing if there is no such extension |
| ClientHello.WalkFindsHostNameExactly | src/tls/parser.rs:82-97 | the result is the first host_name of RFC 6066 iff there is no server_name extension or its first entry has that type |
| ClientHello.ForeignNameTypeIsReported | src/tls/parser.rs:86-96 | a well-formed hello without any host_name for which the walk reports a name |
| ClientHello.ReportedNameIsInside | src/tls/parser.rs:76-97 | in every well-formed hello the reported name lies inside its extension, and that inside the declared extensions |
| ClientHello.ExtensionsLengthFound | src/tls/parser.rs:107-139 | on every well-formed hello the offset is where the length and bytes of the extensions stand, through to the end, and None iff there are none |
| HelloBuilder.BuildSyntheticClientHello | src/tls/parser.rs:151-210 | for every name, however long, the bytes pushed are the record around the encoding of one abstract hello, every length cast to 16 bits |
| HelloBuilder.BuiltNameIsFound | src/tls/parser.rs:151-210 | within the bound, the walk on the built record returns the given name at offset 61, and None when none was given |
| HelloBuilder.BuiltRecordIsExtractedExactly | src/proxy.rs:406-418 | extraction gives the built record and whatever follows it back, for every continuation, iff the name has at most 65479 bytes, 65465 with padding |
| HelloBuilder.WellFormedHelloEndToEnd | src/proxy.rs:303-314 | any well-formed hello followed by anything is carved out exactly, split iff its first name is longer than four bytes, and at every possible split point parted inside the name with the server's stream unchanged |
| SniSplit.CalculateSniCutOffset | src/proxy.rs:420-442 | every draw lies in the cut window and, for a name longer than four bytes, leaves two bytes on either side |
| SniSplit.CutWindowExactly | src/proxy.rs:420-442 | a cut may be drawn iff it is within one byte of the middle of the name, or of its part after a leading www label in any case, and two bytes from either end of that; for names of up to six bytes, and seven with www, it is the middle; two bytes are always left on either side |
| SniSplit.ExtractExactly | src/proxy.rs:406-418 | the two parts are the read; there is a second part iff the read is a hello longer than its complete, non-empty first record, and the first part is then that record; a read that is no hello is taken whole |
| SniSplit.SplitAlwaysLands | src/proxy.rs:306-312 | for every draw the bounds test passes, both payloads are non-empty, and the name lies across the boundary, at the end of the first and the start of the second |
| SniSplit.SplitPreservesStream | src/proxy.rs:303-325 | with a complete first record, for every split and every later byte, the server reads two non-empty halves in place of the first record and every other record and pending byte as sent, at the cost of five bytes |
| SniSplit.SplitPreservesExactly | src/proxy.rs:406-418 | splitting keeps content types, versions, content and pending bytes for every continuation iff the read holds the whole, non-empty first record |
| SniSplit.IncompleteRecordCorrupts | src/proxy.rs:410-414 | otherwise the streams differ even with no later byte |
| SniSplit.FallbackPreservesExactly | src/proxy.rs:331-333 | the fallback keeps the stream for every continuation iff the bytes it drops are complete empty records, or none |
| RecordLayer.NothingReceivedExactly | src/proxy.rs:331-333 | some bytes carry no content and leave nothing pending iff they are headers of length zero one after another |
| ReadWitnesses.FallbackDropsBytes | src/proxy.rs:331-333 | a read that takes the fallback and loses a byte |
| ReadWitnesses.IncompleteReadIsSplit | src/proxy.rs:284-312 | a read that is split although its first record is incomplete, so that the stream does not survive |
| RemoteStream.WriteAllVectored | src/proxy.rs:454-507 | for any slices and any socket: every write offers the next slices not yet finished, four at most and all of what is left of them; Ok means exactly their concatenation was taken; an error means a proper prefix was, after a refused write or a non-empty offer of which nothing was taken; every earlier write made progress; it ends |
| RemoteStream.FewSlicesOffersAll | src/proxy.rs:478-530 | with at most four slices, as in both record writes, each such offer is everything not yet taken |
| RemoteStream.Advance | src/proxy.rs:492-503 | the bookkeeping after a short write leaves exactly the bytes after the first n |
| RemoteStream.WireOnlyGrows | src/proxy.rs:484-490 | after any first part of a run the wire holds a prefix of what it holds at the end |
| Tunnel.TransmitTlsRecords | src/proxy.rs:509-539 | on every exit the wire has grown by a prefix of record 1, record 2 and trailing data; no byte past record 1 is sent before a flush with exactly record 1 out; on success all of it, each part offered whole as far as not yet taken and flushed; a domain that is not exempt gets exactly one pause, of 1 to 5 ms, right after the flush between the records, an exempt one none |
| Tunnel.SplitAndWrite | src/utils.rs:32-46 | for every draw: the run consists of one write loop per chunk, each first offering its chunk whole, and on success a last flush; the chunks have at most 256 bytes, all but the last at least 80, and are the data in order, between n/256 and n/80 of them, both rounded up; on error the chunks written so far and a part of the failed one are a prefix of the data |
| Tunnel.ChunkRunCount | src/utils.rs:38-43 | in every such run that succeeds the number of chunks handed to the socket is between n/256 and n/80, both rounded up |
| Tunnel.ForwardClientHello | src/proxy.rs:285-333 | for every read, draw and socket: the split path is taken iff the name is longer than four bytes; the wire grows by a prefix of the promised bytes, by all of them on success, which is the read itself if that is no hello, or is not split and holds no complete first record; the records are kept apart, with one pause between them unless the domain is exempt, and the fallback is a run of chunks as above; and on success the server's stream survives every continuation iff a condition on the read holds |
| Tunnel.PartialHelloSurvivesExactly | src/proxy.rs:284-312 | for every proper prefix of a well-formed hello as the read: the stream survives iff there is no name longer than four bytes entirely inside the prefix |
| Resolver.SkipDnsName | src/dns/resolver.rs:206-219 | the label loop ends and computes the specification's position |
| Resolver.SkipNameExactly | src/dns/resolver.rs:206-219 | on any bytes, the skip ends at a place iff labels in place stand there, followed by the root, or by a byte with both high bits set and the byte after it, which need not be there |
| Resolver.PointerMask | src/dns/resolver.rs:213 | the pointer test is the source's mask, and the test of the two high bits that the abstract names use |
| Resolver.ParseDnsResponse | src/dns/resolver.rs:140-203 | the loops stay in range, end on every byte string, and compute the specification, which has no branch for types 64 and 65 |
| Resolver.ReplyYieldsFirstAddress | src/dns/resolver.rs:140-203 | for every encoded message, with compressed or plain names, any questions and anything after the answers: the first type-A record of four bytes if the low four bits of the fourth byte are 0, else None |
| Resolver.ServiceBindingsDoNotInterfere | src/dns/resolver.rs:183-187 | messages whose answers agree once types 64 and 65 are taken out give the same address |
| Resolver.AddressStable | src/dns/resolver.rs:140-203 | an address read from a first part of a reply is the address read from any extension of it |
| Resolver.TruncatedReplyExactly | src/dns/resolver.rs:81-90 | a message cut off anywhere gives its address as soon as the record that holds it is there whole, and none before |
| Query.BuildDnsQuery | src/dns/resolver.rs:98-136 | for at most 100 bytes the filled part, at most 118 bytes, is exactly the encoding of all non-empty labels and the rest stays zero, so the test at line 119 drops nothing; longer domains give length 0 |
| Query.QueryIsMessage | src/dns/resolver.rs:98-136 | the query is the encoding of the message with transaction 1, recursion desired, one question of type A and class IN for the domain's labels, and nothing else |
| Query.LabelsOfJoin | src/dns/resolver.rs:116-118 | the labels of non-empty words joined by dots are those words |
| Query.LabelsAtDot | src/dns/resolver.rs:116-118 | the labels of any domain are what stands before its first dot, unless empty, and the labels of what stands after it |
| Query.QueryDecodes | src/dns/resolver.rs:116-127 | decoding the question gives exactly the non-empty labels |
| Query.QueryLegalExactly | src/dns/resolver.rs:117-125 | a decoder with the 63-byte limit of RFC 1035 reads them back iff every label obeys it |
| Query.QueriesEqualExactly | src/dns/resolver.rs:98-136 | two domains give the same query iff their non-empty labels are the same |
| Query.ReplyToQueryIsUnderstood | src/dns/resolver.rs:157-202 | for every accepted domain and every reply that repeats its question, the parser returns the first four-byte address among the answers |
| Query.TrailingDotTransparent | src/utils.rs:202-208 | a domain name comes out ending in a dot, at most one byte longer, a literal address as it was; appending is idempotent and changes neither the trimmed host, nor its labels, nor the query |
| Query.TrimEndDotsExactly | src/dns/resolver.rs:44 | trimming takes dots off the end, all of them and nothing else |
| Query.LabelsOfTrimmed | src/dns/resolver.rs:44 | a host has the same labels trimmed and untrimmed |
| Lookup.QueryIsForClientsHost | src/proxy.rs:203-236 | for every request, preprocessing under any flags and the dot option change nothing about the query sent |
| Lookup.HostIsLookedUp | src/proxy.rs:203-236 | for a CONNECT request written for any host without whitespace or colon, under all flags: the message asking for the labels of that host is sent, and none iff the trimmed host is refused, a literal address or over 100 bytes |
| Lookup.ReplyToLookupIsUnderstood | src/dns/resolver.rs:43-59 | and every reply repeating that query's question yields the first four-byte address among its answers |
| MetaFilter.TrailingDotDisablesFilter | src/proxy.rs:227-233 | with the dot option on, and any lower-casing that leaves a final dot in place, the domain test holds iff the host is a literal address that passes it undotted |
| MetaFilter.FilterExactly | src/utils.rs:21-67 | a host passes the domain test iff it ends in one of the seven domains, in any case and after anything |
| Text.LinesOfJoin | src/utils.rs:87-107 | cutting a CRLF join into lines gives the list back minus one trailing empty element |
| Text.WordsOfLines | src/utils.rs:55-59 | the words of a text are those of its lines, one line after another |
| Text.LinesAtLineFeed | src/utils.rs:87 | a line ends at LF, and one CR right before it goes with it |
| Text.WhitespaceExactly | src/utils.rs:56-73 | a character separates words and is trimmed iff it is one of the 25 code points of Unicode white space |
| Text.TrimOf | src/utils.rs:99 | trimming text between two stretches of whitespace gives the text |
| Text.EqIgnoreAsciiCaseExactly | src/utils.rs:58 | texts are equal without case iff they are as long and differ only between the capital and the small form of one of the 26 letters |
| HttpRewrite.StripProxyHeaders | src/utils.rs:85-108 | the loop keeps the first line, the unlisted headers before the first blank line in order, and that blank line |
| HttpRewrite.ApplyHeaderCaseMixing | src/utils.rs:137-155 | the loop keeps the first line, re-cases the headers before the first blank line in order, and keeps that blank line |
| HttpRewrite.ProxyLineExactly | src/utils.rs:98-104 | a line is removed iff what stands before its first colon is, but for case and surrounding whitespace, one of the nine names |
| HttpRewrite.MixLineExactly | src/utils.rs:148-149 | a header line comes out as its re-cased name without the whitespace around it, a colon and the value |
| HttpRewrite.MixLineKeepsField | src/utils.rs:148-149 | re-casing a header keeps its name up to case and its exact value, keeps it on or off the removal list, and is idempotent |
| HttpRewrite.MixCaseFacts | src/utils.rs:123-134 | no capital is left at an even position and no small letter at an odd one; every character is the one before or the other form of the same letter, so colons, line ends and whitespace stay; idempotent |
| HttpRewrite.PassesOnLines | src/utils.rs:85-155 | on lists of lines each pass is idempotent and the two commute |
| Preprocess.PreprocessHttpRequest | src/utils.rs:158-184 | the three text passes, each cutting and re-joining, come to one pass over the request's list of lines, for every request and both flags |
| Preprocess.PreprocessedLines | src/utils.rs:158-184 | the lines of the result: the first one, re-spaced if asked, then the unlisted headers before the first blank line, in order, re-cased if asked |
| Preprocess.HeadersKeepMeaning | src/utils.rs:85-155 | the result's header fields are the request's, in order, less those on the removal list: values untouched, names equal but for case |
| Preprocess.SpaceInsertionKeepsWords | src/utils.rs:111-120 | re-spacing joins the words of the line, up to the third, by three blanks, and reads back as those words; a lone word is left alone |
| Preprocess.ConnectTargetUnchanged | src/utils.rs:70-82 | for every request and both flags the parsed host and port, or the failure to parse, are unchanged |
| Preprocess.ConnectTestUnchangedExactly | src/utils.rs:55-59 | for every request and both flags the CONNECT test is unchanged iff the first line has a word, or the text after it and the headers that survive agree on starting with the word CONNECT |
| Preprocess.ConnectTestUnchanged | src/utils.rs:55-59 | in particular it is unchanged when the first line has a word |
| Preprocess.BlankFirstLineLosesMethod | src/utils.rs:55-59 | a request for which it is not, its first line being blank |
| Preprocess.TunnelTargetUnchanged | src/proxy.rs:184-209 | without any condition, whether and to where a request opens a tunnel is unchanged |
| Preprocess.DispatchUnchangedExactly | src/proxy.rs:187-193 | under that same condition, and only then, the reply (tunnel, 400, redirect or 404) is the one for the request as received |
| Outcome.RewrittenText | src/utils.rs:158-184 | for a request of any lines, blank line and body, the whole text that comes out: the lines above joined by CRLF, and at most one line ending in place of blank line and body |
| Outcome.OutputLineEndings | src/utils.rs:107-180 | for every request, each line feed that comes out follows a carriage return |
| Outcome.HeaderNamesAreMixed | src/utils.rs:123-150 | for every request, with case mixing on, the name of each header that comes out is in alternating case without whitespace around it |
| Outcome.ConnectOpensTunnel | src/proxy.rs:184-209 | a CONNECT request for a host and port, under all flags, opens a tunnel to them iff the host has no colon |
| Outcome.PlaintextRedirected | src/proxy.rs:187-193 | whatever follows GET or POST and a blank, the reply is the redirect |
| Outcome.ProbesGetDecoy | src/proxy.rs:187-193 | a request whose first word is none of these and not CONNECT gets the 404 |
| HeaderPasses.PassesCommute | src/utils.rs:85-155 | stripping and re-casing give the same text in either order |
| HeaderPasses.StripIdempotentExactly | src/utils.rs:85-108 | stripping twice is stripping once iff the request has no blank line after its first |
| HeaderPasses.MixIdempotentExactly | src/utils.rs:137-155 | the same for re-casing |
| HeaderPasses.NoRemovedNameSurvives | src/utils.rs:98-103 | in either order the fields left are the request's own and none has a listed name, whatever its case |
| ConnectTarget.TargetRoundTripExactly | src/utils.rs:70-82 | a CONNECT request written for a host and port parses back to them iff the host has no colon |
| ConnectTarget.TargetExactly | src/utils.rs:77-81 | the host is what stands before the first colon and the port the text between the first two, 443 without a colon; no target if that text is no port |
| ConnectTarget.ParseU16Exactly | src/utils.rs:81 | a port parses to a number iff the number is below 65536 and the text is its decimal form after an optional plus sign and any zeros |
| ConnectTarget.MissingPortIs443 | src/utils.rs:77-81 | a target without a colon parses to that host and port 443 |

## Left out

- MetaFilter.FilterExactly: takes lower-casing in ASCII; under the Unicode tables the few other characters whose small form is one of these letters pass as well.
- Which hosts are literal addresses: the standard library decides it, so the theorems allow any such test.
- Matching a reply's names, class and transaction number with the query: the code does none of it.
- Sockets, listeners, worker threads, keepalive, port rotation, window sizes and the probe socket: operating-system calls without logic of their own.
- The copying of later bytes in both directions: the client's later bytes appear as an arbitrary continuation of the wire.
- The library's `write_all` is modelled as a loop of the same kind as the vectored writer; time is only an event in the log.
- UDP exchange and system lookup: a reply is an arbitrary byte string.
- UTF-8 decoding: requests are sequences of characters, domains sequences of bytes.
- The text of the plaintext redirect and of the fixed replies, option parsing and logging: easy members only. Which hosts are refused as loopback is left open: any test will do.
- `strip_alt_svc_headers`, which nothing calls, and documented features with no code behind them, such as DNS caching.
