/** Text as the Rust standard library cuts it: lines, words, trimming and ASCII case. */
module Text {
  import opened Bytes

  const CRLF: string := "\r\n"

  /** The characters with the Unicode property White_Space. */
  predicate IsWhitespace(c: char) {
    || '\t' <= c <= '\r' || c == ' ' || c == '\U{85}' || c == '\U{A0}' || c == '\U{1680}'
    || '\U{2000}' <= c <= '\U{200A}' || c == '\U{2028}' || c == '\U{2029}' || c == '\U{202F}'
    || c == '\U{205F}' || c == '\U{3000}'
  }

  /** The twenty-five code points that the Unicode character database lists. */
  const WHITE_SPACE: set<int> := {
    9, 10, 11, 12, 13, 32, 133, 160, 5760, 8192, 8193, 8194, 8195, 8196, 8197, 8198, 8199, 8200, 8201, 8202,
    8232, 8233, 8239, 8287, 12288
  }

  lemma WhitespaceExactly(c: char)
    ensures IsWhitespace(c) <==> c as int in WHITE_SPACE
  {
  }

  // ---- ASCII case ------------------------------------------------------------------------

  function AsciiLower(c: char): char {
    if 'A' <= c <= 'Z' then (c as int + 32) as char else c
  }

  function AsciiUpper(c: char): char {
    if 'a' <= c <= 'z' then (c as int - 32) as char else c
  }

  function Lower(s: string): (r: string)
    ensures |r| == |s|
  {
    seq(|s|, i requires 0 <= i < |s| => AsciiLower(s[i]))
  }

  predicate EqIgnoreAsciiCase(a: string, b: string) {
    Lower(a) == Lower(b)
  }

  /** The same character, or the small and the capital form of one of the 26 letters. */
  predicate SameLetter(a: char, b: char) {
    || a == b
    || ('A' <= a <= 'Z' && b as int == a as int + 32)
    || ('A' <= b <= 'Z' && a as int == b as int + 32)
  }

  /** Comparing without case: letter by letter, and nothing but case is overlooked. */
  lemma EqIgnoreAsciiCaseExactly(a: string, b: string)
    ensures EqIgnoreAsciiCase(a, b) <==> |a| == |b| && forall i :: 0 <= i < |a| ==> SameLetter(a[i], b[i])
  {
    if EqIgnoreAsciiCase(a, b) {
      assert |a| == |Lower(a)| == |b|;
      forall i | 0 <= i < |a|
        ensures SameLetter(a[i], b[i])
      {
        assert Lower(a)[i] == Lower(b)[i];
      }
    }
  }

  lemma CaseFacts(c: char)
    ensures IsWhitespace(AsciiLower(c)) == IsWhitespace(AsciiUpper(c)) == IsWhitespace(c)
    ensures AsciiLower(AsciiUpper(c)) == AsciiLower(AsciiLower(c)) == AsciiLower(c)
    ensures AsciiUpper(AsciiUpper(c)) == AsciiUpper(c)
    ensures (AsciiLower(c) == ':') == (AsciiUpper(c) == ':') == (c == ':')
    ensures (AsciiLower(c) == '\n') == (AsciiUpper(c) == '\n') == (c == '\n')
  {
  }

  // ---- Lines -----------------------------------------------------------------------------

  function ChopCr(s: string): string {
    if s != [] && s[|s| - 1] == '\r' then s[..|s| - 1] else s
  }

  /** `str::lines`: ends at LF or CRLF; the last ending is optional, and a lone final CR stays. */
  function Lines(s: string): (ls: seq<string>)
    ensures s != [] ==> ls != []
    decreases |s|
  {
    if s == [] then []
    else
      var i := IndexOf(s, '\n');
      if i == |s| then [s] else [ChopCr(s[..i])] + Lines(s[i + 1..])
  }

  predicate OneLine(s: string) {
    '\n' !in s
  }

  predicate AllOneLine(ls: seq<string>) {
    forall l :: l in ls ==> OneLine(l)
  }

  function DropLastEmpty(ls: seq<string>): seq<string> {
    if ls != [] && ls[|ls| - 1] == [] then ls[..|ls| - 1] else ls
  }

  lemma {:induction false} LinesAreOneLine(s: string)
    ensures AllOneLine(Lines(s))
    decreases |s|
  {
    if s != [] {
      var i := IndexOf(s, '\n');
      if i < |s| {
        LinesAreOneLine(s[i + 1..]);
        assert OneLine(s[..i]);
      } else {
        assert s == s[..i];
      }
    }
  }

  lemma LinesCons(line: string, rest: string)
    requires OneLine(line)
    ensures Lines(line + CRLF + rest) == [line] + Lines(rest)
  {
    var s := line + CRLF + rest;
    assert s[..|line| + 1] == line + "\r";
    IndexOfIs(s, '\n', |line| + 1);
    assert ChopCr(line + "\r") == line;
    assert s[|line| + 2..] == rest;
  }

  /** A bare line feed ends a line as well; a carriage return right before it goes with it, but only one. */
  lemma LinesAtLineFeed(line: string, rest: string)
    requires OneLine(line)
    ensures Lines(line + "\r\n" + rest) == [line] + Lines(rest)
    ensures line == [] || line[|line| - 1] != '\r' ==> Lines(line + "\n" + rest) == [line] + Lines(rest)
  {
    LinesCons(line, rest);
    var s := line + "\n" + rest;
    assert s[..|line|] == line;
    IndexOfIs(s, '\n', |line|);
    assert s[|line| + 1..] == rest;
  }

  lemma LinesSingle(line: string)
    requires OneLine(line)
    ensures Lines(line) == if line == [] then [] else [line]
  {
    assert line[..|line|] == line;
    IndexOfIs(line, '\n', |line|);
  }

  /** Cutting a CRLF join gives the list back, short of one empty element at its end. */
  lemma {:induction false} LinesOfJoin(ls: seq<string>)
    requires AllOneLine(ls)
    ensures Lines(Join(ls, CRLF)) == DropLastEmpty(ls)
    decreases |ls|
  {
    hide Lines;
    if ls == [] {
      LinesSingle([]);
    } else if |ls| == 1 {
      LinesSingle(ls[0]);
    } else {
      LinesOfJoin(ls[1..]);
      LinesCons(ls[0], Join(ls[1..], CRLF));
      DropLastEmptyCons(ls);
    }
  }

  lemma DropLastEmptyCons(ls: seq<string>)
    requires |ls| > 1
    ensures DropLastEmpty(ls) == [ls[0]] + DropLastEmpty(ls[1..])
  {
  }

  lemma {:induction false} JoinAppendEmpty(ls: seq<string>)
    requires ls != []
    ensures Join(ls + [[]], CRLF) == Join(ls, CRLF) + CRLF
    decreases |ls|
  {
    var more := ls + [[]];
    assert more[1..] == ls[1..] + [[]];
    if |ls| == 1 {
      assert more[1..] == [[]];
    } else {
      JoinAppendEmpty(ls[1..]);
      ConcatAssociative(ls[0] + CRLF, Join(ls[1..], CRLF), CRLF);
    }
  }

  // ---- CRLF search -----------------------------------------------------------------------

  /** Where the first CRLF starts. */
  function FindCrlf(s: string): (r: Option<nat>)
    ensures r.Some? ==> r.value + 2 <= |s| && s[r.value] == '\r' && s[r.value + 1] == '\n'
  {
    if |s| < 2 then None
    else if s[0] == '\r' && s[1] == '\n' then Some(0)
    else match FindCrlf(s[1..])
      case None => None
      case Some(i) => Some(i + 1)
  }

  lemma {:induction false} FindCrlfAfter(line: string, rest: string)
    requires OneLine(line)
    ensures FindCrlf(line + CRLF + rest) == Some(|line|)
    decreases |line|
  {
    if line != [] {
      FindCrlfAfter(line[1..], rest);
      assert (line + CRLF + rest)[1..] == line[1..] + CRLF + rest;
      assert (line + CRLF + rest)[1] != '\n' || |line| == 1;
      if |line| == 1 {
        assert (line + CRLF + rest)[1] == '\r';
      }
    }
  }

  lemma {:induction false} NoCrlf(line: string)
    requires OneLine(line)
    ensures FindCrlf(line) == None
    decreases |line|
  {
    if |line| >= 2 {
      assert line[1] in line;
      NoCrlf(line[1..]);
    }
  }

  // ---- Trimming --------------------------------------------------------------------------

  function TrimStart(s: string): string {
    if s != [] && IsWhitespace(s[0]) then TrimStart(s[1..]) else s
  }

  function TrimEnd(s: string): string {
    if s != [] && IsWhitespace(s[|s| - 1]) then TrimEnd(s[..|s| - 1]) else s
  }

  function Trim(s: string): string {
    TrimEnd(TrimStart(s))
  }

  predicate AllSpace(s: string) {
    forall c :: c in s ==> IsWhitespace(c)
  }

  predicate Trimmed(s: string) {
    s == [] || (!IsWhitespace(s[0]) && !IsWhitespace(s[|s| - 1]))
  }

  lemma {:induction false} TrimStartFacts(s: string)
    ensures TrimStart(s) != [] ==> !IsWhitespace(TrimStart(s)[0])
    ensures forall c :: c in TrimStart(s) ==> c in s
  {
    if s != [] && IsWhitespace(s[0]) {
      TrimStartFacts(s[1..]);
    }
  }

  lemma {:induction false} TrimEndFacts(s: string)
    ensures TrimEnd(s) <= s
    ensures TrimEnd(s) != [] ==> !IsWhitespace(TrimEnd(s)[|TrimEnd(s)| - 1])
  {
    if s != [] && IsWhitespace(s[|s| - 1]) {
      TrimEndFacts(s[..|s| - 1]);
    }
  }

  lemma TrimFacts(s: string)
    ensures Trimmed(Trim(s))
    ensures forall c :: c in Trim(s) ==> c in s
  {
    TrimStartFacts(s);
    TrimEndFacts(TrimStart(s));
  }

  lemma {:induction false} TrimStartOf(space: string, rest: string)
    requires AllSpace(space) && (rest == [] || !IsWhitespace(rest[0]))
    ensures TrimStart(space + rest) == rest
    decreases |space|
  {
    if space == [] {
      assert space + rest == rest;
    } else {
      assert space[0] in space && (forall c :: c in space[1..] ==> c in space);
      assert (space + rest)[1..] == space[1..] + rest;
      TrimStartOf(space[1..], rest);
    }
  }

  lemma {:induction false} TrimEndOf(rest: string, space: string)
    requires AllSpace(space) && (rest == [] || !IsWhitespace(rest[|rest| - 1]))
    ensures TrimEnd(rest + space) == rest
    decreases |space|
  {
    if space == [] {
      assert rest + space == rest;
    } else {
      var shorter := space[..|space| - 1];
      assert space[|space| - 1] in space && (forall c :: c in shorter ==> c in space);
      assert (rest + space)[..|rest + space| - 1] == rest + shorter;
      TrimEndOf(rest, shorter);
    }
  }

  /** Trimming takes away the whitespace around the text, all of it, and nothing else. */
  lemma TrimOf(before: string, text: string, after: string)
    requires AllSpace(before) && AllSpace(after) && Trimmed(text)
    ensures Trim(before + text + after) == text
  {
    hide TrimStart, TrimEnd;
    if text == [] {
      assert before + text + after == (before + after) + [];
      TrimStartOf(before + after, []);
      assert [] + [] == TrimStart(before + text + after);
      TrimEndOf([], []);
    } else {
      ConcatAssociative(before, text, after);
      TrimStartOf(before, text + after);
      TrimEndOf(text, after);
    }
  }

  /** Every text is its trimmed part between two stretches of whitespace. */
  lemma TrimParts(s: string) returns (before: string, after: string)
    ensures s == before + Trim(s) + after && AllSpace(before) && AllSpace(after) && Trimmed(Trim(s))
  {
    before := StartParts(s);
    after := EndParts(TrimStart(s));
    hide TrimStart, TrimEnd;
    TrimFacts(s);
    ConcatAssociative(before, Trim(s), after);
  }

  lemma {:induction false} StartParts(s: string) returns (space: string)
    ensures s == space + TrimStart(s) && AllSpace(space)
    decreases |s|
  {
    space := [];
    if s != [] && IsWhitespace(s[0]) {
      var more := StartParts(s[1..]);
      space := [s[0]] + more;
    }
  }

  lemma {:induction false} EndParts(s: string) returns (space: string)
    ensures s == TrimEnd(s) + space && AllSpace(space)
    decreases |s|
  {
    space := [];
    if s != [] && IsWhitespace(s[|s| - 1]) {
      var more := EndParts(s[..|s| - 1]);
      space := more + [s[|s| - 1]];
    }
  }

  lemma TrimTrimmed(s: string)
    requires Trimmed(s)
    ensures Trim(s) == s
  {
  }

  // ---- Words -----------------------------------------------------------------------------

  predicate NoSpace(s: string) {
    forall c :: c in s ==> !IsWhitespace(c)
  }

  /** How many characters the text has before its first whitespace. */
  function WordLength(s: string): (n: nat)
    ensures n <= |s|
    ensures n < |s| ==> IsWhitespace(s[n])
    ensures forall i :: 0 <= i < n ==> !IsWhitespace(s[i])
  {
    if s == [] || IsWhitespace(s[0]) then 0 else 1 + WordLength(s[1..])
  }

  /** `str::split_whitespace`. */
  function Words(s: string): (ws: seq<string>)
    decreases |s|
  {
    if s == [] then []
    else if IsWhitespace(s[0]) then Words(s[1..])
    else [s[..WordLength(s)]] + Words(s[WordLength(s)..])
  }

  predicate AreWords(ws: seq<string>) {
    forall i :: 0 <= i < |ws| ==> ws[i] != [] && NoSpace(ws[i])
  }

  lemma {:induction false} WordsAreWords(s: string)
    ensures AreWords(Words(s))
    ensures forall i :: 0 <= i < |Words(s)| ==> forall c :: c in Words(s)[i] ==> c in s
    decreases |s|
  {
    if s != [] {
      if IsWhitespace(s[0]) {
        WordsAreWords(s[1..]);
      } else {
        var n := WordLength(s);
        WordsAreWords(s[n..]);
        assert NoSpace(s[..n]);
      }
    }
  }

  lemma WordsOfWord(w: string)
    requires w != [] && NoSpace(w)
    ensures Words(w) == [w]
  {
    assert forall i :: 0 <= i < |w| ==> w[i] in w && !IsWhitespace(w[i]);
    assert w[..|w|] == w && w[|w|..] == [];
  }

  /** Text that goes on with whitespace adds its own words to those before it. */
  lemma {:induction false} WordsConcat(a: string, t: string)
    requires t == [] || IsWhitespace(t[0])
    ensures Words(a + t) == Words(a) + Words(t)
    decreases |a|
  {
    var s := a + t;
    if a == [] {
      assert s == t;
    } else if IsWhitespace(a[0]) {
      assert s[1..] == a[1..] + t;
      WordsConcat(a[1..], t);
    } else {
      var n := WordLength(a);
      WordLengthIs(s, n);
      assert s[..n] == a[..n] && s[n..] == a[n..] + t;
      WordsConcat(a[n..], t);
      ConcatAssociative([a[..n]], Words(a[n..]), Words(t));
    }
  }

  lemma {:induction false} WordLengthIs(s: string, n: nat)
    requires n <= |s| && (n < |s| ==> IsWhitespace(s[n]))
    requires forall i :: 0 <= i < n ==> !IsWhitespace(s[i])
    ensures WordLength(s) == n
  {
    var m := WordLength(s);
    assert !(m < n) && !(n < m);
  }

  lemma {:induction false} WordsOfTrimStart(s: string)
    ensures Words(TrimStart(s)) == Words(s)
    decreases |s|
  {
    if s != [] && IsWhitespace(s[0]) {
      WordsOfTrimStart(s[1..]);
    }
  }

  lemma LeadingSpace(c: char, rest: string)
    requires IsWhitespace(c)
    ensures Words([c] + rest) == Words(rest)
  {
    assert ([c] + rest)[1..] == rest;
  }

  /** The words of a list of lines, line by line. */
  function LineWords(ls: seq<string>): seq<string> {
    if ls == [] then [] else Words(ls[0]) + LineWords(ls[1..])
  }

  /** The words of a text are the words of its lines: a word never crosses a line end. */
  lemma {:induction false} WordsOfLines(s: string)
    ensures Words(s) == LineWords(Lines(s))
    decreases |s|
  {
    hide Words;
    if s == [] {
      LeadingNothing();
    } else {
      var i := IndexOf(s, '\n');
      if i == |s| {
        assert [s][1..] == [];
        assert Words(s) + [] == Words(s);
      } else {
        var rest := s[i + 1..];
        WordsOfLines(rest);
        TakeOneDrop(s, i);
        LineEnd(s[..i], rest);
        assert ([ChopCr(s[..i])] + Lines(rest))[1..] == Lines(rest);
      }
    }
  }

  /** A line feed, with or without the carriage return before it, parts the words around it. */
  lemma LineEnd(line: string, rest: string)
    ensures Words(line + ['\n'] + rest) == Words(ChopCr(line)) + Words(rest)
  {
    hide Words;
    LeadingSpace('\n', rest);
    ConcatAssociative(line, ['\n'], rest);
    if line != [] && line[|line| - 1] == '\r' {
      var text := line[..|line| - 1];
      LeadingSpace('\r', ['\n'] + rest);
      WordsConcat(text, ['\r'] + (['\n'] + rest));
      assert line == text + ['\r'];
      ConcatAssociative(text, ['\r'], ['\n'] + rest);
    } else {
      WordsConcat(line, ['\n'] + rest);
    }
  }

  lemma LeadingNothing()
    ensures Words([]) == []
  {
  }
}
