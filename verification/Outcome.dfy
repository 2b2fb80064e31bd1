/** What comes out of the rewriting of src/utils.rs, said of the text itself, and what the proxy then does with it. */
module Outcome {
  import opened Bytes
  import opened Text
  import opened HttpRewrite
  import opened Preprocess
  import opened ConnectTarget

  // ---- The text --------------------------------------------------------------------------

  /** A request as clients write it: lines, and after a blank line, if there is one, a body of any kind. */
  function RequestText(first: string, headers: seq<string>, body: Option<string>): string {
    Join([first] + headers, "\r\n") + (if body.Some? then "\r\n" + ("\r\n" + body.value) else "")
  }

  lemma {:induction false} LinesOfJoinAnd(ls: seq<string>, rest: string)
    requires ls != [] && AllOneLine(ls)
    ensures Lines(Join(ls, CRLF) + (CRLF + rest)) == ls + Lines(rest)
    decreases |ls|
  {
    hide Lines;
    if |ls| == 1 {
      LinesCons(ls[0], rest);
      ConcatAssociative(ls[0], CRLF, rest);
    } else {
      var more := Join(ls[1..], CRLF);
      LinesOfJoinAnd(ls[1..], rest);
      LinesCons(ls[0], more + (CRLF + rest));
      ConcatAssociative(ls[0] + CRLF, more, CRLF + rest);
      ConsConcat(ls, Lines(rest));
    }
  }

  /** The first line, the headers, and the blank line with whatever follows it. */
  lemma LinesOfRequest(first: string, headers: seq<string>, body: Option<string>)
    requires OneLine(first) && AllOneLine(headers) && [] !in headers
    ensures var ls := Lines(RequestText(first, headers, body));
      match body
      case Some(text) => ls == [first] + (headers + [[]] + Lines(text))
      case None => ls == if first == [] && headers == [] then [] else [first] + headers
  {
    hide Lines, Join;
    match body
    case Some(text) =>
      LinesOfJoinAnd([first] + headers, CRLF + text);
      LinesCons([], text);
      assert [] + CRLF + text == CRLF + text;
      assert [first] + headers + ([[]] + Lines(text)) == [first] + (headers + [[]] + Lines(text));
    case None =>
      LinesOfJoin([first] + headers);
      LastOfOut(first, headers, []);
      assert [first] + headers + [] == [first] + headers;
      assert RequestText(first, headers, None) == Join([first] + headers, CRLF);
  }

  /**
    The whole text that comes out: the request line, re-spaced if asked, the headers that are not on the
    list, re-cased if asked, CRLF between them, and nothing of the blank line and the body but at most
    one line ending.
   */
  lemma RewrittenText(first: string, headers: seq<string>, body: Option<string>, httpSpace: bool, mixHeaderCase: bool)
    requires OneLine(first) && AllOneLine(headers) && [] !in headers
    ensures var kept := Keep(headers);
      Preprocessed(RequestText(first, headers, body), httpSpace, mixHeaderCase)
      == Join([if httpSpace then ApplyConnectSpaceInsertion(first) else first]
              + (if mixHeaderCase then MixAll(kept) else kept), "\r\n")
         + (if body.Some? && !mixHeaderCase && !(httpSpace && kept == []) then "\r\n" else "")
  {
    hide Lines, Join, Keep, Block, MixAll, ApplyConnectSpaceInsertion, RequestText;
    var request := RequestText(first, headers, body);
    var ls := Lines(request);
    LinesOfRequest(first, headers, body);
    if ls == [] {
      NoHeaders();
      NothingKept();
      NoWords();
      NothingJoined();
    } else {
      RestOfRequest(first, headers, body);
      var out := OutLines(ls, httpSpace, mixHeaderCase);
      JoinAppendEmpty(out);
      assert out + [] == out;
      assert Join(out, CRLF) + "" == Join(out, CRLF);
    }
  }

  lemma NothingJoined()
    ensures Join([""] + [], CRLF) == "" && Keep([]) == []
  {
    assert [""] + [] == [""];
  }

  lemma RestOfRequest(first: string, headers: seq<string>, body: Option<string>)
    requires OneLine(first) && AllOneLine(headers) && [] !in headers
    requires Lines(RequestText(first, headers, body)) != []
    ensures var ls := Lines(RequestText(first, headers, body));
      ls[0] == first && Block(ls[1..]) == headers && Blank(ls[1..]) == if body.Some? then [[]] else []
  {
    hide Lines, Block, RequestText;
    var ls := Lines(RequestText(first, headers, body));
    LinesOfRequest(first, headers, body);
    match body
    case Some(text) =>
      BlockEndsAtBlank(headers, Lines(text));
      assert ls[1..] == headers + [[]] + Lines(text);
    case None =>
      BlockOfHeaders(headers);
      assert ls[1..] == headers;
  }

  // ---- Line endings ----------------------------------------------------------------------

  /** Every line feed follows a carriage return. */
  predicate OnlyCrLf(s: string) {
    forall i :: 0 <= i < |s| && s[i] == '\n' ==> i > 0 && s[i - 1] == '\r'
  }

  lemma {:induction false} JoinEndsLines(ls: seq<string>)
    requires AllOneLine(ls)
    ensures OnlyCrLf(Join(ls, CRLF))
    decreases |ls|
  {
    if |ls| == 1 {
      assert OneLine(ls[0]);
    } else if |ls| > 1 {
      assert OneLine(ls[0]);
      var more := Join(ls[1..], CRLF);
      JoinEndsLines(ls[1..]);
      var s := ls[0] + CRLF + more;
      var start := |ls[0]| + 2;
      assert s[start - 2] == '\r' && s[start - 1] == '\n';
      forall i | 0 <= i < |s| && s[i] == '\n'
        ensures i > 0 && s[i - 1] == '\r'
      {
        assert ls[0] == s[..start - 2];
        if i >= start {
          assert s[i] == more[i - start] && i > start && s[i - 1] == more[i - start - 1];
        }
      }
    }
  }

  /** However the client ended its lines, those that come out end in CRLF. */
  lemma OutputLineEndings(request: string, httpSpace: bool, mixHeaderCase: bool)
    ensures OnlyCrLf(Preprocessed(request, httpSpace, mixHeaderCase))
  {
    hide Lines, Keep, Block, MixAll, ApplyConnectSpaceInsertion, Join;
    var ls := Lines(request);
    if ls != [] {
      RequestLines(request);
      SpaceInsertionOneLine(ls[0]);
      JoinEndsLines(OutLines(ls, httpSpace, mixHeaderCase) + OutBlank(ls, httpSpace, mixHeaderCase));
    }
  }

  // ---- Header names ----------------------------------------------------------------------

  /** No whitespace around it, no capital at an even position, no small letter at an odd one. */
  predicate MixedName(name: string) {
    && Trimmed(name)
    && forall i :: 0 <= i < |name| ==> if i % 2 == 0 then !('A' <= name[i] <= 'Z') else !('a' <= name[i] <= 'z')
  }

  ghost predicate HasMixedName(line: string) {
    exists name, value :: line == name + ":" + value && ':' !in name && MixedName(name)
  }

  lemma MixedLine(line: string)
    requires ':' in MixLine(line)
    ensures HasMixedName(MixLine(line))
  {
    hide Trim, SplitOnceColon, MixCase;
    ColonSplit(line);
    var kv := SplitOnceColon(line);
    if kv.Some? {
      var name := Trim(kv.value.0);
      TrimFacts(kv.value.0);
      MixCaseFacts(name);
      assert MixLine(line) == MixCase(name) + ":" + kv.value.1;
    }
  }

  lemma {:induction false} MixedLines(ls: seq<string>)
    ensures forall l :: l in MixAll(ls) && ':' in l ==> HasMixedName(l)
    decreases |ls|
  {
    hide MixLine, HasMixedName;
    if ls != [] {
      MixedLines(ls[1..]);
      if ':' in MixLine(ls[0]) {
        MixedLine(ls[0]);
      }
    }
  }

  /** With case mixing on, the name of every header that comes out is in alternating case. */
  lemma HeaderNamesAreMixed(request: string, httpSpace: bool)
    ensures forall i :: 1 <= i < |Lines(Preprocessed(request, httpSpace, true))| ==>
      var line := Lines(Preprocessed(request, httpSpace, true))[i];
      ':' in line ==> HasMixedName(line)
  {
    hide Lines, Preprocessed, HasMixedName, Keep, Block, MixAll, OutFirst, OutBlank;
    PreprocessedLines(request, httpSpace, true);
    var ls := Lines(request);
    if ls != [] {
      MixedLines(Keep(Block(ls[1..])));
      assert forall i :: 1 <= i < |OutLines(ls, httpSpace, true)| ==>
        OutLines(ls, httpSpace, true)[i] == OutHeaders(ls, true)[i - 1];
    }
  }

  // ---- What the proxy does ---------------------------------------------------------------

  /** A request for a host and port, however rewritten, opens a tunnel to them exactly when the host has no colon. */
  lemma ConnectOpensTunnel(host: string, port: nat, rest: string, httpSpace: bool, mixHeaderCase: bool)
    requires NoSpace(host) && port < TWO_TO_THE_16
    ensures var request := RequestFor(host, port, rest);
      Dispatch(request, Preprocessed(request, httpSpace, mixHeaderCase)) == OpenTunnel(host, port) <==> ':' !in host
  {
    hide Preprocessed, RequestFor, Words, IsHttpConnect;
    var request := RequestFor(host, port, rest);
    RequestForWords(host, port, rest);
    TargetRoundTripExactly(host, port, rest);
    ConnectTargetUnchanged(request, httpSpace, mixHeaderCase);
    ConnectTestUnchanged(request, httpSpace, mixHeaderCase);
    TestOfFirstWord(request);
    assert EqIgnoreAsciiCase("CONNECT", "CONNECT");
  }

  /** When the request line has a word, the CONNECT test is about that word. */
  lemma TestOfFirstWord(request: string)
    requires RequestWords(request) != []
    ensures IsHttpConnect(request) == EqIgnoreAsciiCase(RequestWords(request)[0], "CONNECT")
  {
    hide Words;
    ConnectTestByLines(request);
  }

  /** A plain GET or POST, whatever follows it, is redirected. */
  lemma PlaintextRedirected(verb: string, rest: string, httpSpace: bool, mixHeaderCase: bool)
    requires verb == "GET" || verb == "POST"
    ensures var request := verb + (" " + rest);
      Dispatch(request, Preprocessed(request, httpSpace, mixHeaderCase)) == Redirect
  {
    hide Preprocessed, IsHttpConnect, ParseConnectTarget, EqIgnoreAsciiCase;
    var request := verb + (" " + rest);
    assert request[..|verb| + 1] == verb + " ";
    FirstWordIs(verb, request);
    ConnectTestUnchanged(request, httpSpace, mixHeaderCase);
    TestOfFirstWord(request);
    EqIgnoreAsciiCaseExactly(verb, "CONNECT");
  }

  /** What is neither, such as a scanner's probe, gets the decoy. */
  lemma ProbesGetDecoy(request: string, httpSpace: bool, mixHeaderCase: bool)
    requires RequestWords(request) != [] && RequestWords(request)[0] !in ["GET", "POST"]
    requires !EqIgnoreAsciiCase(RequestWords(request)[0], "CONNECT")
    ensures Dispatch(request, Preprocessed(request, httpSpace, mixHeaderCase)) == Decoy
  {
    hide Preprocessed, IsHttpConnect, EqIgnoreAsciiCase, Words, Lines, ParseConnectTarget;
    ConnectTestUnchanged(request, httpSpace, mixHeaderCase);
    TestOfFirstWord(request);
    if "GET " <= request {
      FirstWordIs("GET", request);
    } else if "POST " <= request {
      FirstWordIs("POST", request);
    }
  }

  lemma FirstWordIs(word: string, request: string)
    requires word != [] && NoSpace(word) && word + " " <= request
    ensures RequestWords(request) != [] && RequestWords(request)[0] == word
  {
    hide Lines, LineWords;
    var rest := request[|word|..];
    assert request == word + rest && rest[0] == ' ';
    assert request[0] == word[0] && word[0] in word;
    FirstLineHasWord(request);
    WordsConcat(word, rest);
    WordsOfWord(word);
    WordsOfLines(request);
    FirstOfLineWords(Lines(request));
  }

  lemma FirstOfLineWords(ls: seq<string>)
    requires ls != [] && Words(ls[0]) != []
    ensures LineWords(ls) != [] && LineWords(ls)[0] == Words(ls[0])[0]
  {
  }

  lemma FirstLineHasWord(s: string)
    requires s != [] && !IsWhitespace(s[0])
    ensures RequestWords(s) != []
  {
    var i := IndexOf(s, '\n');
    assert i > 0;
    var line := Lines(s)[0];
    assert line != [] && line[0] == s[0];
  }
}
