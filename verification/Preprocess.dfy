/**
  preprocess_http_request of src/utils.rs: three text passes one after another, what they amount to,
  and that they change neither where a CONNECT request goes nor what its headers say.
 */
module Preprocess {
  import opened Bytes
  import opened Text
  import opened HttpRewrite

  const GAP: string := "   "

  function ApplyConnectSpaceInsertion(line: string): string {
    var parts := Words(line);
    if |parts| >= 3 then parts[0] + GAP + parts[1] + GAP + parts[2]
    else if |parts| == 2 then parts[0] + GAP + parts[1]
    else line
  }

  /** The outcome in one step, from the list of lines of the request. */
  function Preprocessed(request: string, httpSpace: bool, mixHeaderCase: bool): string {
    var ls := Lines(request);
    if ls == [] then []
    else Join(OutLines(ls, httpSpace, mixHeaderCase) + OutBlank(ls, httpSpace, mixHeaderCase), CRLF)
  }

  function OutFirst(ls: seq<string>, httpSpace: bool): string
    requires ls != []
  {
    if httpSpace then ApplyConnectSpaceInsertion(ls[0]) else ls[0]
  }

  function OutHeaders(ls: seq<string>, mixHeaderCase: bool): seq<string>
    requires ls != []
  {
    var kept := Keep(Block(ls[1..]));
    if mixHeaderCase then MixAll(kept) else kept
  }

  function OutLines(ls: seq<string>, httpSpace: bool, mixHeaderCase: bool): seq<string>
    requires ls != []
  {
    [OutFirst(ls, httpSpace)] + OutHeaders(ls, mixHeaderCase)
  }

  /** The blank line is lost to the case pass, and to the spacing pass when no header is left. */
  function OutBlank(ls: seq<string>, httpSpace: bool, mixHeaderCase: bool): seq<string>
    requires ls != []
  {
    if mixHeaderCase || (httpSpace && Keep(Block(ls[1..])) == []) then [] else Blank(ls[1..])
  }

  /** The text after the first CRLF, or after the first LF when there is no CRLF, or nothing. */
  function AfterFirstLine(text: string): string {
    match FindCrlf(text)
    case Some(i) => text[i + 2..]
    case None =>
      var i := IndexOf(text, '\n');
      if i < |text| then text[i + 1..] else []
  }

  /** The three passes run in order and come to exactly the one-step outcome. */
  method PreprocessHttpRequest(request: string, httpSpace: bool, mixHeaderCase: bool) returns (processed: string)
    ensures processed == Preprocessed(request, httpSpace, mixHeaderCase)
  {
    hide Preprocessed, StripText, MixText, Lines, Join, AfterFirstLine, ApplyConnectSpaceInsertion;
    processed := StripProxyHeaders(request);
    ghost var stripped := processed;
    if httpSpace {
      var lines := Lines(processed);
      var firstLine := if lines != [] then lines[0] else [];
      var modifiedLine := ApplyConnectSpaceInsertion(firstLine);
      var rest := AfterFirstLine(processed);
      processed := if rest == [] then modifiedLine else modifiedLine + CRLF + rest;
      SpacingPass(request, firstLine, rest);
    }
    if !httpSpace {
      NoSpacing(request);
    }
    ghost var spaced := processed;
    assert spaced == Preprocessed(request, httpSpace, false);
    if mixHeaderCase {
      processed := ApplyHeaderCaseMixing(processed);
      MixingPass(request, httpSpace);
    }
  }

  // ---- The passes fused ------------------------------------------------------------------

  lemma NoSpacing(request: string)
    ensures StripText(request) == Preprocessed(request, false, false)
  {
  }

  lemma SpaceInsertionOneLine(line: string)
    requires OneLine(line)
    ensures OneLine(ApplyConnectSpaceInsertion(line))
  {
    WordsAreWords(line);
  }

  /** The lines of a request that the passes see: one line each, headers not blank. */
  lemma RequestLines(request: string)
    requires Lines(request) != []
    ensures var ls := Lines(request);
      var kept := Keep(Block(ls[1..]));
      && OneLine(ls[0]) && AllOneLine(kept) && [] !in kept
      && AllOneLine(MixAll(kept)) && [] !in MixAll(kept)
      && (Blank(ls[1..]) == [] || Blank(ls[1..]) == [[]])
  {
    var ls := Lines(request);
    LinesAreOneLine(request);
    assert forall l :: l in ls[1..] ==> l in ls;
    BlankIs(ls[1..]);
    MixAllFacts(Keep(Block(ls[1..])));
  }

  lemma {:induction false} JoinNonEmpty(ls: seq<string>, blank: seq<string>)
    requires ls != [] && [] !in ls
    ensures Join(ls + blank, CRLF) != []
  {
    var all := ls + blank;
    assert all[0] == ls[0] && ls[0] in ls;
  }

  lemma SpacingPass(request: string, firstLine: string, rest: string)
    requires firstLine == (if Lines(StripText(request)) != [] then Lines(StripText(request))[0] else [])
    requires rest == AfterFirstLine(StripText(request))
    ensures var modified := ApplyConnectSpaceInsertion(firstLine);
      (if rest == [] then modified else modified + CRLF + rest) == Preprocessed(request, true, false)
  {
    hide Keep, Block, Blank, ApplyConnectSpaceInsertion, Lines;
    var ls := Lines(request);
    if ls == [] {
      LinesSingle([]);
      NoWords();
    } else {
      RequestLines(request);
      var headers, blank := Keep(Block(ls[1..])), Blank(ls[1..]);
      var tail := headers + blank;
      ConcatAssociative([ls[0]], headers, blank);
      FirstLineOfJoin(ls[0], tail);
      ConcatAssociative([ApplyConnectSpaceInsertion(ls[0])], headers, blank);
      JoinFirst(ApplyConnectSpaceInsertion(ls[0]), tail);
      if headers != [] {
        JoinNonEmpty(headers, blank);
      } else {
        assert tail == blank;
        assert [ApplyConnectSpaceInsertion(ls[0])] + [] + [] == [ApplyConnectSpaceInsertion(ls[0])];
      }
    }
  }

  lemma NoWords()
    ensures ApplyConnectSpaceInsertion([]) == [] && AfterFirstLine([]) == []
  {
  }

  lemma JoinFirst(first: string, tail: seq<string>)
    ensures Join([first] + tail, CRLF) == if tail == [] then first else first + CRLF + Join(tail, CRLF)
  {
    if tail == [] {
      assert [first] + tail == [first];
    } else {
      JoinCons(first, tail, CRLF);
    }
  }

  /** What the spacing pass reads off a join: its first line, and the rest after the CRLF. */
  lemma FirstLineOfJoin(first: string, tail: seq<string>)
    requires OneLine(first) && AllOneLine(tail)
    ensures var text := Join([first] + tail, CRLF);
      && (if Lines(text) != [] then Lines(text)[0] else []) == first
      && AfterFirstLine(text) == Join(tail, CRLF)
  {
    hide Lines;
    JoinFirst(first, tail);
    if tail == [] {
      LinesSingle(first);
      NoCrlf(first);
      assert first[..|first|] == first;
      IndexOfIs(first, '\n', |first|);
    } else {
      LinesCons(first, Join(tail, CRLF));
      FindCrlfAfter(first, Join(tail, CRLF));
    }
  }

  lemma MixingPass(request: string, httpSpace: bool)
    ensures MixText(Preprocessed(request, httpSpace, false)) == Preprocessed(request, httpSpace, true)
  {
    hide Keep, Block, Blank, ApplyConnectSpaceInsertion, Lines, MixAll;
    var ls := Lines(request);
    if ls == [] {
      LinesSingle([]);
    } else {
      PreprocessedLines(request, httpSpace, false);
      RequestLines(request);
      var first, headers := OutFirst(ls, httpSpace), OutHeaders(ls, false);
      var got := Lines(Preprocessed(request, httpSpace, false));
      NoHeaders();
      if got == [] {
        assert [""] + [] + [] == [""];
      } else {
        assert got[1..] == headers;
        BlockOfHeaders(headers);
        NoBlank(headers);
        assert [first] + MixAll(headers) + [] == OutLines(ls, httpSpace, true) + [];
      }
    }
  }

  lemma NoHeaders()
    ensures MixAll([]) == [] && Block([]) == [] && Blank([]) == []
  {
  }

  lemma NoBlank(ls: seq<string>)
    requires [] !in ls
    ensures Blank(ls) == []
  {
  }

  // ---- What the request has become -------------------------------------------------------

  /**
    For every request and both flags, the lines of the outcome: the first line, re-spaced if asked, and
    the headers before the first blank line that are not on the removal list, in order, case-mixed if
    asked. Only when nothing at all is left is there no line.
   */
  lemma PreprocessedLines(request: string, httpSpace: bool, mixHeaderCase: bool)
    ensures var ls, out := Lines(request), Lines(Preprocessed(request, httpSpace, mixHeaderCase));
      if ls == [] then out == []
      else if OutFirst(ls, httpSpace) == [] && OutHeaders(ls, mixHeaderCase) == []
              && OutBlank(ls, httpSpace, mixHeaderCase) == [] then out == []
      else out == OutLines(ls, httpSpace, mixHeaderCase)
  {
    hide Lines, ApplyConnectSpaceInsertion, Keep, Block, Blank, MixAll;
    var ls := Lines(request);
    if ls == [] {
      LinesSingle([]);
    } else {
      RequestLines(request);
      SpaceInsertionOneLine(ls[0]);
      var first, headers, blank :=
        OutFirst(ls, httpSpace), OutHeaders(ls, mixHeaderCase), OutBlank(ls, httpSpace, mixHeaderCase);
      LinesOfJoin([first] + headers + blank);
      LastOfOut(first, headers, blank);
    }
  }

  lemma LastOfOut(first: string, headers: seq<string>, blank: seq<string>)
    requires [] !in headers && (blank == [] || blank == [[]])
    ensures DropLastEmpty([first] + headers + blank)
      == if first == [] && headers == [] && blank == [] then [] else [first] + headers
  {
    var ls := [first] + headers + blank;
    if blank == [[]] {
      assert ls[..|ls| - 1] == [first] + headers;
    } else {
      assert ls == [first] + headers;
      if headers != [] {
        assert headers[|headers| - 1] in headers;
      }
    }
  }

  /** The words of the request line. */
  function RequestWords(request: string): seq<string> {
    if Lines(request) == [] then [] else Words(Lines(request)[0])
  }

  function FieldsOf(ls: seq<string>): (fs: seq<Field>)
    ensures |fs| == |ls|
  {
    if ls == [] then [] else [FieldOf(ls[0])] + FieldsOf(ls[1..])
  }

  /** The header fields of a request, as their recipient understands them. */
  function Fields(request: string): seq<Field> {
    if Lines(request) == [] then [] else FieldsOf(Block(Lines(request)[1..]))
  }

  predicate IsRemovedField(f: Field) {
    f.Named? && f.name in PROXY_HEADERS
  }

  /** The fields a proxy may pass on. */
  function Forwarded(fs: seq<Field>): (r: seq<Field>)
    ensures forall f :: f in r ==> !IsRemovedField(f)
  {
    if fs == [] then []
    else (if IsRemovedField(fs[0]) then [] else [fs[0]]) + Forwarded(fs[1..])
  }

  function FirstThree(ws: seq<string>): seq<string> {
    if |ws| > 3 then ws[..3] else ws
  }

  lemma RemovedNamesAreLower(name: string)
    ensures IsRemovedName(name) <==> Lower(name) in PROXY_HEADERS
  {
    RemovedNameExactly(name);
    forall h | h in PROXY_HEADERS
      ensures Lower(h) == h
    {
      RemovedNameLower(h);
    }
  }

  lemma RemovedNameLower(h: string)
    requires h in PROXY_HEADERS
    ensures Lower(h) == h
  {
    ListedLetters(h);
    hide *;
    assert forall i :: 0 <= i < |h| ==> h[i] in h && !('A' <= h[i] <= 'Z');
    LowerOfLower(h);
  }

  lemma LowerOfLower(s: string)
    requires forall i :: 0 <= i < |s| ==> !('A' <= s[i] <= 'Z')
    ensures Lower(s) == s
  {
  }

  lemma {:induction false} FieldsOfKept(ls: seq<string>)
    ensures FieldsOf(Keep(ls)) == Forwarded(FieldsOf(ls))
    decreases |ls|
  {
    hide FieldOf, IsRemovedField, IsProxyLine;
    if ls != [] {
      FieldsOfKept(ls[1..]);
      ProxyFieldIsProxyLine(ls[0]);
      assert FieldsOf(ls)[1..] == FieldsOf(ls[1..]);
      if IsProxyLine(ls[0]) {
        assert Keep(ls) == Keep(ls[1..]);
        assert Forwarded(FieldsOf(ls)) == Forwarded(FieldsOf(ls[1..]));
      } else {
        assert Keep(ls)[1..] == Keep(ls[1..]);
      }
    }
  }

  lemma ProxyFieldIsProxyLine(line: string)
    ensures IsRemovedField(FieldOf(line)) == IsProxyLine(line)
  {
    hide IsRemovedName;
    ColonSplit(line);
    var kv := SplitOnceColon(line);
    if kv.Some? {
      RemovedNamesAreLower(Trim(kv.value.0));
    }
  }

  lemma {:induction false} FieldsOfMixed(ls: seq<string>)
    ensures FieldsOf(MixAll(ls)) == FieldsOf(ls)
    decreases |ls|
  {
    hide FieldOf, MixLine;
    if ls != [] {
      FieldsOfMixed(ls[1..]);
      MixLineKeepsField(ls[0]);
      assert MixAll(ls)[1..] == MixAll(ls[1..]);
    }
  }

  /**
    For every request and both flags: the header fields of the outcome are the request's own, in order,
    values untouched and names the same but for case, less the ones on the removal list.
   */
  lemma HeadersKeepMeaning(request: string, httpSpace: bool, mixHeaderCase: bool)
    ensures Fields(Preprocessed(request, httpSpace, mixHeaderCase)) == Forwarded(Fields(request))
  {
    hide Lines, ApplyConnectSpaceInsertion, Keep, MixAll, FieldsOf, Preprocessed, Forwarded;
    PreprocessedLines(request, httpSpace, mixHeaderCase);
    var ls, out := Lines(request), Lines(Preprocessed(request, httpSpace, mixHeaderCase));
    NoFields();
    if ls != [] {
      RequestLines(request);
      var kept, headers := Keep(Block(ls[1..])), OutHeaders(ls, mixHeaderCase);
      FieldsOfKept(Block(ls[1..]));
      FieldsOfMixed(kept);
      BlockOfHeaders(headers);
      if out != [] {
        assert out[1..] == headers;
      }
    }
  }

  lemma NoFields()
    ensures FieldsOf([]) == [] && Forwarded([]) == []
  {
  }

  /** Re-spacing joins the words of a line, up to the third, by three blanks; one word alone is left as it is. */
  lemma SpaceInsertionKeepsWords(line: string)
    ensures ApplyConnectSpaceInsertion(line)
      == if |Words(line)| >= 2 then Join(FirstThree(Words(line)), "   ") else line
    ensures Words(ApplyConnectSpaceInsertion(line))
      == if |Words(line)| >= 2 then FirstThree(Words(line)) else Words(line)
  {
    hide Words;
    var parts := Words(line);
    WordsAreWords(line);
    if |parts| >= 3 {
      GapWords(parts[1], parts[2]);
      GapThen(parts[0], parts[1] + GAP + parts[2]);
      assert parts[0] + GAP + parts[1] + GAP + parts[2] == parts[0] + (GAP + (parts[1] + GAP + parts[2]));
      assert [parts[0]] + ([parts[1]] + [parts[2]]) == FirstThree(parts);
      JoinThree(parts[0], parts[1], parts[2]);
    } else if |parts| == 2 {
      GapWords(parts[0], parts[1]);
      assert [parts[0]] + [parts[1]] == parts;
      JoinCons(parts[0], [parts[1]], GAP);
    }
  }

  lemma JoinThree(a: string, b: string, c: string)
    ensures Join([a] + ([b] + [c]), GAP) == a + GAP + b + GAP + c
  {
    JoinCons(a, [b] + [c], GAP);
    JoinCons(b, [c], GAP);
    ConcatAssociative(a + GAP, b + GAP, c);
    ConcatAssociative(a + GAP, b, GAP);
  }

  /** A word, a gap, and more text: the word and the words of the rest. */
  lemma GapThen(word: string, rest: string)
    requires word != [] && NoSpace(word)
    ensures Words(word + (GAP + rest)) == [word] + Words(rest)
  {
    WordsConcat(word, GAP + rest);
    WordsOfWord(word);
    assert GAP == [' '] + ([' '] + [' ']);
    ConcatAssociative([' '], [' '] + [' '], rest);
    ConcatAssociative([' '], [' '], rest);
    LeadingSpace(' ', rest);
    LeadingSpace(' ', [' '] + rest);
    LeadingSpace(' ', [' '] + ([' '] + rest));
  }

  lemma GapWords(a: string, b: string)
    requires a != [] && NoSpace(a) && b != [] && NoSpace(b)
    ensures Words(a + GAP + b) == [a] + [b]
  {
    GapThen(a, b);
    WordsOfWord(b);
    ConcatAssociative(a, GAP, b);
  }

  lemma RequestLineKept(request: string, httpSpace: bool, mixHeaderCase: bool)
    ensures RequestWords(Preprocessed(request, httpSpace, mixHeaderCase))
      == if httpSpace then FirstThree(RequestWords(request)) else RequestWords(request)
  {
    hide Lines, Words, ApplyConnectSpaceInsertion, Preprocessed, OutHeaders, OutBlank;
    PreprocessedLines(request, httpSpace, mixHeaderCase);
    EmptyHasNoWords();
    if Lines(request) != [] {
      SpaceInsertionKeepsWords(Lines(request)[0]);
    }
  }

  lemma EmptyHasNoWords()
    ensures Words([]) == []
  {
  }

  // ---- CONNECT ---------------------------------------------------------------------------

  predicate IsHttpConnect(request: string) {
    var ws := Words(TrimStart(request));
    ws != [] && EqIgnoreAsciiCase(ws[0], "CONNECT")
  }

  predicate IsDigit(c: char) {
    '0' <= c <= '9'
  }

  /** The value of a string of decimal digits; None if any other character is in it. */
  function Digits(s: string): (r: Option<nat>)
    ensures r.Some? <==> forall i :: 0 <= i < |s| ==> IsDigit(s[i])
  {
    if s == [] then Some(0)
    else match Digits(s[..|s| - 1])
      case None => None
      case Some(n) =>
        var c := s[|s| - 1];
        if IsDigit(c) then Some(10 * n + (c as int - '0' as int)) else None
  }

  /** `str::parse::<u16>`: an optional plus sign, at least one digit, and no overflow. */
  function ParseU16(s: string): Option<nat> {
    var digits := if s != [] && s[0] == '+' then s[1..] else s;
    if digits == [] then None
    else match Digits(digits)
      case None => None
      case Some(n) => if n < TWO_TO_THE_16 then Some(n) else None
  }

  function ParseTarget(target: string): Option<(string, nat)> {
    var parts := Split(target, ':');
    match ParseU16(if |parts| > 1 then parts[1] else "443")
    case None => None
    case Some(port) => Some((parts[0], port))
  }

  function ParseConnectTarget(request: string): Option<(string, nat)> {
    if Lines(request) == [] then None
    else
      var parts := Words(Lines(request)[0]);
      if |parts| < 2 || !EqIgnoreAsciiCase(parts[0], "CONNECT") then None else ParseTarget(parts[1])
  }

  /** For every request and both flags, preprocessing leaves the CONNECT target what it was. */
  lemma ConnectTargetUnchanged(request: string, httpSpace: bool, mixHeaderCase: bool)
    ensures ParseConnectTarget(Preprocessed(request, httpSpace, mixHeaderCase)) == ParseConnectTarget(request)
  {
    hide Lines, Words, Preprocessed, ParseTarget, EqIgnoreAsciiCase;
    RequestLineKept(request, httpSpace, mixHeaderCase);
    TargetFromWords(request);
    TargetFromWords(Preprocessed(request, httpSpace, mixHeaderCase));
  }

  lemma TargetFromWords(request: string)
    ensures var parts := RequestWords(request);
      ParseConnectTarget(request)
        == if |parts| < 2 || !EqIgnoreAsciiCase(parts[0], "CONNECT") then None else ParseTarget(parts[1])
  {
  }

  predicate StartsConnect(ws: seq<string>) {
    ws != [] && EqIgnoreAsciiCase(ws[0], "CONNECT")
  }

  /** The test sees the words of the request's lines, one after another ... */
  lemma ConnectTestByLines(request: string)
    ensures IsHttpConnect(request) == StartsConnect(LineWords(Lines(request)))
  {
    WordsOfTrimStart(request);
    WordsOfLines(request);
  }

  /** ... and, after preprocessing, those of the first line and of the headers that survive. */
  lemma ConnectTestAfter(request: string, httpSpace: bool, mixHeaderCase: bool)
    requires Lines(request) != []
    ensures var ls := Lines(request);
      IsHttpConnect(Preprocessed(request, httpSpace, mixHeaderCase))
      == StartsConnect(Words(OutFirst(ls, httpSpace)) + LineWords(OutHeaders(ls, mixHeaderCase)))
  {
    hide Lines, Words, Preprocessed, OutFirst, OutHeaders, OutBlank, IsHttpConnect, StartsConnect;
    var ls := Lines(request);
    ConnectTestByLines(Preprocessed(request, httpSpace, mixHeaderCase));
    PreprocessedLines(request, httpSpace, mixHeaderCase);
    EmptyHasNoWords();
    var out := OutLines(ls, httpSpace, mixHeaderCase);
    assert out[0] == OutFirst(ls, httpSpace) && out[1..] == OutHeaders(ls, mixHeaderCase);
    if OutHeaders(ls, mixHeaderCase) == [] && OutFirst(ls, httpSpace) == [] {
      assert LineWords(out) == [] + [];
    }
  }

  /**
    Where preprocessing leaves the CONNECT test alone: when the first line has a word, and otherwise when
    the words after it, and the words of the headers that survive, agree on starting with CONNECT.
   */
  predicate ConnectTestSafe(request: string, mixHeaderCase: bool) {
    var ls := Lines(request);
    || RequestWords(request) != []
    || ls == []
    || (StartsConnect(LineWords(ls[1..])) <==> StartsConnect(LineWords(OutHeaders(ls, mixHeaderCase))))
  }

  /** For every request and both flags, exactly when the CONNECT test has the same outcome. */
  lemma ConnectTestUnchangedExactly(request: string, httpSpace: bool, mixHeaderCase: bool)
    ensures IsHttpConnect(Preprocessed(request, httpSpace, mixHeaderCase)) == IsHttpConnect(request)
      <==> ConnectTestSafe(request, mixHeaderCase)
  {
    hide Lines, Words, IsHttpConnect, OutHeaders, ApplyConnectSpaceInsertion;
    var ls := Lines(request);
    if ls == [] {
      EmptyLinesOnly(request);
      assert Preprocessed(request, httpSpace, mixHeaderCase) == request;
    } else {
      ConnectTestByLines(request);
      ConnectTestAfter(request, httpSpace, mixHeaderCase);
      hide Preprocessed;
      SpaceInsertionKeepsWords(ls[0]);
      var first := Words(OutFirst(ls, httpSpace));
      if Words(ls[0]) != [] {
        assert first != [] && first[0] == Words(ls[0])[0];
      } else {
        assert first == [];
        assert [] + LineWords(ls[1..]) == LineWords(ls[1..]);
        assert [] + LineWords(OutHeaders(ls, mixHeaderCase)) == LineWords(OutHeaders(ls, mixHeaderCase));
      }
    }
  }

  lemma EmptyLinesOnly(request: string)
    requires Lines(request) == []
    ensures request == []
  {
  }

  /** The usual case: a first line with a word. */
  lemma ConnectTestUnchanged(request: string, httpSpace: bool, mixHeaderCase: bool)
    requires RequestWords(request) != []
    ensures IsHttpConnect(Preprocessed(request, httpSpace, mixHeaderCase)) == IsHttpConnect(request)
  {
    ConnectTestUnchangedExactly(request, httpSpace, mixHeaderCase);
  }

  /** The other: after two blank lines the method is gone. */
  lemma BlankFirstLineLosesMethod()
    ensures IsHttpConnect("\n\nCONNECT") && !IsHttpConnect(Preprocessed("\n\nCONNECT", false, false))
  {
    hide Words, Lines, Preprocessed, TrimStart;
    var s := "\n\nCONNECT";
    assert s == ['\n'] + (['\n'] + "CONNECT");
    LeadingSpace('\n', "CONNECT");
    LeadingSpace('\n', ['\n'] + "CONNECT");
    WordsOfTrimStart(s);
    WordsOfWord("CONNECT");
    assert EqIgnoreAsciiCase("CONNECT", "CONNECT");
    BlankLinesOnly("CONNECT");
    WordsOfTrimStart(CRLF);
    assert CRLF == ['\r'] + (['\n'] + "");
    LeadingSpace('\n', "");
    LeadingSpace('\r', ['\n'] + "");
    EmptyHasNoWords();
  }

  lemma LeadingLineFeed(rest: string)
    ensures Lines(['\n'] + rest) == [""] + Lines(rest)
  {
    var s := ['\n'] + rest;
    assert s[..0] == "" && s[1..] == rest;
    IndexOfIs(s, '\n', 0);
  }

  lemma BlankLinesOnly(rest: string)
    ensures Preprocessed(['\n'] + (['\n'] + rest), false, false) == CRLF
  {
    hide Lines;
    var s := ['\n'] + (['\n'] + rest);
    LeadingLineFeed(rest);
    LeadingLineFeed(['\n'] + rest);
    var ls := Lines(s);
    assert ls[0] == "" && ls[1] == "" && ls[1..][0] == "";
    assert Block(ls[1..]) == [] && Blank(ls[1..]) == [""];
    assert [""] + [] + [""] == ["", ""];
    assert ["", ""][1..] == [""];
  }

  /** Where the proxy opens a tunnel for a request: the CONNECT test passed and a target parsed. */
  function TunnelTarget(request: string): Option<(string, nat)> {
    if IsHttpConnect(request) then ParseConnectTarget(request) else None
  }

  /** Preprocessing never changes whether a request opens a tunnel, or to where; no condition is needed. */
  lemma TunnelTargetUnchanged(request: string, httpSpace: bool, mixHeaderCase: bool)
    ensures TunnelTarget(Preprocessed(request, httpSpace, mixHeaderCase)) == TunnelTarget(request)
  {
    hide IsHttpConnect, ParseConnectTarget, Preprocessed, RequestWords;
    ConnectTargetUnchanged(request, httpSpace, mixHeaderCase);
    if RequestWords(request) != [] {
      ConnectTestUnchanged(request, httpSpace, mixHeaderCase);
    } else {
      BlankHasNoTarget(request);
    }
  }

  lemma BlankHasNoTarget(request: string)
    requires RequestWords(request) == []
    ensures ParseConnectTarget(request) == None
  {
  }

  /** What the proxy does with a request, given its text as received and as preprocessed. */
  datatype Reply = OpenTunnel(host: string, port: nat) | BadRequest | Redirect | Decoy

  function Dispatch(received: string, cleaned: string): Reply {
    if IsHttpConnect(cleaned) then
      match ParseConnectTarget(cleaned)
      case None => BadRequest
      case Some(target) => OpenTunnel(target.0, target.1)
    else if "GET " <= received || "POST " <= received then Redirect
    else Decoy
  }

  /** The reply is the one for the request as received exactly when the CONNECT test is left alone. */
  lemma DispatchUnchangedExactly(request: string, httpSpace: bool, mixHeaderCase: bool)
    ensures Dispatch(request, Preprocessed(request, httpSpace, mixHeaderCase)) == Dispatch(request, request)
      <==> ConnectTestSafe(request, mixHeaderCase)
  {
    hide IsHttpConnect, ParseConnectTarget, Preprocessed, Lines, Words, OutHeaders;
    ConnectTestUnchangedExactly(request, httpSpace, mixHeaderCase);
    ConnectTargetUnchanged(request, httpSpace, mixHeaderCase);
  }
}
