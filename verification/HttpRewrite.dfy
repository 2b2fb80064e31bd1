/** The CONNECT request rewriting of src/utils.rs. */
module HttpRewrite {
  import opened Bytes
  import opened Text

  const PROXY_HEADERS_TO_REMOVE: seq<string> := [
    "client-ip", "x-forwarded-for", "x-forwarded-host", "x-forwarded-proto", "x-real-ip",
    "forwarded", "via", "proxy-authorization", "proxy-connection"
  ]

  // ---- One header line -------------------------------------------------------------------

  /** `split_once(':')`. */
  function SplitOnceColon(line: string): (r: Option<(string, string)>)
    ensures r.Some? <==> ':' in line
    ensures r.Some? ==> ':' !in r.value.0 && line == r.value.0 + [':'] + r.value.1
  {
    var i := IndexOf(line, ':');
    if i == |line| then
      assert forall c :: c in line ==> c != ':';
      None
    else
      TakeOneDrop(line, i);
      assert forall c :: c in line[..i] ==> c != ':';
      Some((line[..i], line[i + 1..]))
  }

  predicate IsRemovedName(name: string) {
    exists h :: h in PROXY_HEADERS_TO_REMOVE && EqIgnoreAsciiCase(h, name)
  }

  /** The headers a proxy adds on the way: who the client is, and how to talk to the proxy. */
  const PROXY_HEADERS: set<string> := {
    "client-ip", "forwarded", "proxy-authorization", "proxy-connection", "via", "x-forwarded-for",
    "x-forwarded-host", "x-forwarded-proto", "x-real-ip"
  }

  lemma RemovedNameExactly(name: string)
    ensures IsRemovedName(name) <==> exists h :: h in PROXY_HEADERS && EqIgnoreAsciiCase(h, name)
  {
    hide EqIgnoreAsciiCase;
    forall h: string
      ensures h in PROXY_HEADERS_TO_REMOVE <==> h in PROXY_HEADERS
    {
      SameNames(h);
    }
  }

  lemma SameNames(h: string)
    ensures h in PROXY_HEADERS_TO_REMOVE <==> h in PROXY_HEADERS
  {
    var names := PROXY_HEADERS_TO_REMOVE;
    assert names[0] in names && names[1] in names && names[2] in names && names[3] in names && names[4] in names
      && names[5] in names && names[6] in names && names[7] in names && names[8] in names;
  }

  predicate IsProxyLine(line: string) {
    var kv := SplitOnceColon(line);
    kv.Some? && IsRemovedName(Trim(kv.value.0))
  }

  function MixCase(s: string): (r: string)
    ensures |r| == |s|
  {
    seq(|s|, i requires 0 <= i < |s| => if i % 2 == 0 then AsciiLower(s[i]) else AsciiUpper(s[i]))
  }

  function MixLine(line: string): string {
    match SplitOnceColon(line)
    case None => line
    case Some(kv) => MixCase(Trim(kv.0)) + [':'] + kv.1
  }

  /** A header as its recipient understands it: a name whatever its case, and the exact value. */
  datatype Field = Named(name: string, value: string) | Bare(line: string)

  function FieldOf(line: string): Field {
    match SplitOnceColon(line)
    case None => Bare(line)
    case Some(kv) => Named(Lower(Trim(kv.0)), kv.1)
  }

  lemma SplitOnceColonOf(key: string, value: string)
    requires ':' !in key
    ensures SplitOnceColon(key + [':'] + value) == Some((key, value))
  {
    var line := key + [':'] + value;
    assert line[..|key|] == key;
    IndexOfIs(line, ':', |key|);
    assert line[|key| + 1..] == value;
  }

  /**
    Case mixing leaves no capital at an even position and no small letter at an odd one, and only the
    case of the 26 letters changes.
   */
  lemma MixCaseFacts(s: string)
    ensures forall i :: 0 <= i < |s| ==> SameLetter(MixCase(s)[i], s[i])
    ensures forall i :: 0 <= i < |s| ==>
      if i % 2 == 0 then !('A' <= MixCase(s)[i] <= 'Z') else !('a' <= MixCase(s)[i] <= 'z')
    ensures Lower(MixCase(s)) == Lower(s)
    ensures MixCase(MixCase(s)) == MixCase(s)
    ensures Trimmed(MixCase(s)) == Trimmed(s)
    ensures ':' in MixCase(s) ==> ':' in s
    ensures OneLine(s) ==> OneLine(MixCase(s))
  {
    forall i | 0 <= i < |s|
      ensures IsWhitespace(MixCase(s)[i]) == IsWhitespace(s[i])
      ensures AsciiLower(MixCase(s)[i]) == AsciiLower(s[i])
      ensures MixCase(MixCase(s))[i] == MixCase(s)[i]
      ensures (MixCase(s)[i] == ':') == (s[i] == ':') && (MixCase(s)[i] == '\n') == (s[i] == '\n')
    {
      CaseFacts(s[i]);
    }
  }

  /** Case mixing keeps what a header says, and mixing it again changes nothing. */
  lemma MixLineKeepsField(line: string)
    ensures FieldOf(MixLine(line)) == FieldOf(line)
    ensures MixLine(MixLine(line)) == MixLine(line)
    ensures IsProxyLine(MixLine(line)) == IsProxyLine(line)
    ensures MixLine(line) == [] ==> line == []
    ensures OneLine(line) ==> OneLine(MixLine(line))
  {
    hide IsRemovedName, MixCase, Lower, Trim, SplitOnceColon;
    ColonSplit(line);
    var kv := SplitOnceColon(line);
    if kv.Some? {
      var key := Trim(kv.value.0);
      TrimFacts(kv.value.0);
      MixCaseFacts(key);
      TrimTrimmed(MixCase(key));
      SplitOnceColonOf(MixCase(key), kv.value.1);
      RemovedByLowerCase(MixCase(key), key);
    }
  }

  /** A header line with a name, whatever whitespace is around it, comes out as the re-cased name and the value. */
  lemma MixLineExactly(before: string, name: string, after: string, value: string)
    requires AllSpace(before) && AllSpace(after) && Trimmed(name) && ':' !in name
    ensures MixLine(before + name + after + ":" + value) == MixCase(name) + ":" + value
  {
    hide Trim, SplitOnceColon, MixCase;
    NoColonInSpace(before);
    NoColonInSpace(after);
    SplitOnceColonOf(before + name + after, value);
    TrimOf(before, name, after);
  }

  lemma NoColonInSpace(s: string)
    requires AllSpace(s)
    ensures ':' !in s
  {
  }

  /** A line is removed just when what stands before its first colon is a listed name, but for case and whitespace. */
  lemma ProxyLineExactly(line: string)
    ensures IsProxyLine(line) <==> exists before, name, after, value :: ProxyParts(line, before, name, after, value)
  {
    hide Trim, SplitOnceColon;
    ColonSplit(line);
    if IsProxyLine(line) {
      var kv := SplitOnceColon(line).value;
      var name := Trim(kv.0);
      var before, after := TrimParts(kv.0);
      RemovedNameExactly(name);
      assert ProxyParts(line, before, name, after, kv.1);
    }
    if before, name, after, value :| ProxyParts(line, before, name, after, value) {
      NoColonInSpace(before);
      NoColonInSpace(after);
      ListedName(name);
      SplitOnceColonOf(before + name + after, value);
      TrimOf(before, name, after);
      RemovedNameExactly(name);
    }
  }

  predicate ProxyParts(line: string, before: string, name: string, after: string, value: string) {
    && line == before + name + after + ":" + value
    && AllSpace(before) && AllSpace(after) && ':' !in before + name + after
    && exists h :: h in PROXY_HEADERS && EqIgnoreAsciiCase(h, name)
  }

  /** A listed name, in any case, has no whitespace at its ends. */
  lemma ListedName(name: string)
    requires exists h :: h in PROXY_HEADERS && EqIgnoreAsciiCase(h, name)
    ensures Trimmed(name) && ':' !in name
  {
    var h :| h in PROXY_HEADERS && EqIgnoreAsciiCase(h, name);
    EqIgnoreAsciiCaseExactly(h, name);
    ListedLetters(h);
    hide EqIgnoreAsciiCase;
    forall i | 0 <= i < |name|
      ensures name[i] != ':' && !IsWhitespace(name[i])
    {
      assert h[i] in h && SameLetter(h[i], name[i]);
    }
  }

  lemma ListedLetters(h: string)
    requires h in PROXY_HEADERS
    ensures forall c :: c in h ==> 'a' <= c <= 'z' || c == '-'
  {
  }

  lemma ColonSplit(line: string)
    ensures SplitOnceColon(line).Some? <==> ':' in line
    ensures SplitOnceColon(line).Some? ==>
      ':' !in SplitOnceColon(line).value.0
      && line == SplitOnceColon(line).value.0 + [':'] + SplitOnceColon(line).value.1
  {
  }

  lemma RemovedByLowerCase(a: string, b: string)
    requires Lower(a) == Lower(b)
    ensures IsRemovedName(a) == IsRemovedName(b)
  {
  }

  // ---- The header block ------------------------------------------------------------------

  /** The lines before the first blank one. */
  function Block(ls: seq<string>): (b: seq<string>)
    ensures forall l :: l in b ==> l in ls && l != []
  {
    if ls == [] || ls[0] == [] then [] else [ls[0]] + Block(ls[1..])
  }

  /** The blank line that ends the header block, if there is one. */
  function Blank(ls: seq<string>): seq<string> {
    if [] in ls then [[]] else []
  }

  function Keep(ls: seq<string>): (k: seq<string>)
    ensures forall l :: l in k ==> l in ls
  {
    if ls == [] then []
    else (if IsProxyLine(ls[0]) then [] else [ls[0]]) + Keep(ls[1..])
  }

  function MixAll(ls: seq<string>): (m: seq<string>)
    ensures |m| == |ls|
  {
    if ls == [] then [] else [MixLine(ls[0])] + MixAll(ls[1..])
  }

  /** The two passes over a list of lines: neither touches the first, both stop at the blank line. */
  function StripLines(ls: seq<string>): seq<string> {
    if ls == [] then [] else [ls[0]] + Keep(Block(ls[1..])) + Blank(ls[1..])
  }

  function MixLines(ls: seq<string>): seq<string> {
    if ls == [] then [] else [ls[0]] + MixAll(Block(ls[1..])) + Blank(ls[1..])
  }

  function StripText(request: string): string {
    Join(StripLines(Lines(request)), CRLF)
  }

  function MixText(request: string): string {
    Join(MixLines(Lines(request)), CRLF)
  }

  method StripProxyHeaders(request: string) returns (out: string)
    ensures out == StripText(request)
  {
    hide Keep, Block, Blank, MixAll, StripLines, Lines, Join, Trim, IsRemovedName;
    var all := Lines(request);
    var lines: seq<string> := [];
    ghost var target := StripLines(all);
    PassStart(all);
    for i := 0 to |all|
      invariant i == 0 ==> lines == []
      invariant i > 0 ==> lines + StripRest(all[i..]) == target
    {
      var line := all[i];
      if i == 0 {
        lines := lines + [line];
        continue;
      }
      StripStep(all, i, lines);
      if line == [] {
        lines := lines + [line];
        break;
      }
      var kv := SplitOnceColon(line);
      if kv.Some? {
        var keyTrim := Trim(kv.value.0);
        if IsRemovedName(keyTrim) {
          continue;
        }
      }
      lines := lines + [line];
    }
    PassEnd(all);
    assert lines == target;
    out := Join(lines, CRLF);
  }

  method ApplyHeaderCaseMixing(request: string) returns (out: string)
    ensures out == MixText(request)
  {
    hide Keep, Block, Blank, MixAll, MixLines, Lines, Join, Trim, MixCase;
    var all := Lines(request);
    var lines: seq<string> := [];
    ghost var target := MixLines(all);
    PassStart(all);
    for i := 0 to |all|
      invariant i == 0 ==> lines == []
      invariant i > 0 ==> lines + MixRest(all[i..]) == target
    {
      var line := all[i];
      if i == 0 {
        lines := lines + [line];
        continue;
      }
      MixStep(all, i, lines);
      if line == [] {
        lines := lines + [line];
        break;
      }
      var kv := SplitOnceColon(line);
      if kv.Some? {
        lines := lines + [MixCase(Trim(kv.value.0)) + [':'] + kv.value.1];
      } else {
        lines := lines + [line];
      }
    }
    PassEnd(all);
    assert lines == target;
    out := Join(lines, CRLF);
  }

  /** What either pass still has to put out for the lines it has not looked at. */
  function StripRest(ls: seq<string>): seq<string> {
    Keep(Block(ls)) + Blank(ls)
  }

  function MixRest(ls: seq<string>): seq<string> {
    MixAll(Block(ls)) + Blank(ls)
  }

  lemma PassStart(all: seq<string>)
    ensures all == [] ==> StripLines(all) == [] && MixLines(all) == []
    ensures all != [] ==> [] + [all[0]] + StripRest(all[1..]) == StripLines(all)
    ensures all != [] ==> [] + [all[0]] + MixRest(all[1..]) == MixLines(all)
  {
    if all != [] {
      ConcatAssociative([all[0]], Keep(Block(all[1..])), Blank(all[1..]));
      ConcatAssociative([all[0]], MixAll(Block(all[1..])), Blank(all[1..]));
    }
  }

  lemma PassEnd(all: seq<string>)
    ensures all[|all|..] == [] && StripRest([]) == [] && MixRest([]) == []
  {
  }

  lemma StripStep(all: seq<string>, i: nat, lines: seq<string>)
    requires i < |all|
    ensures all[i] == [] ==> lines + [all[i]] == lines + StripRest(all[i..])
    ensures all[i] != [] && IsProxyLine(all[i]) ==> lines + StripRest(all[i + 1..]) == lines + StripRest(all[i..])
    ensures all[i] != [] && !IsProxyLine(all[i]) ==>
      lines + [all[i]] + StripRest(all[i + 1..]) == lines + StripRest(all[i..])
  {
    hide IsProxyLine;
    BlockStep(all, i);
    KeepCons(all[i], Block(all[i + 1..]));
    hide Keep, Block, Blank;
    NothingKept();
    ConcatAssociative([all[i]], Keep(Block(all[i + 1..])), Blank(all[i + 1..]));
    ConcatAssociative(lines, [all[i]], StripRest(all[i + 1..]));
  }

  lemma MixStep(all: seq<string>, i: nat, lines: seq<string>)
    requires i < |all|
    ensures all[i] == [] ==> lines + [all[i]] == lines + MixRest(all[i..])
    ensures all[i] != [] ==> lines + [MixLine(all[i])] + MixRest(all[i + 1..]) == lines + MixRest(all[i..])
  {
    hide MixLine;
    BlockStep(all, i);
    KeepCons(all[i], Block(all[i + 1..]));
    hide MixAll, Block, Blank;
    NothingKept();
    ConcatAssociative([MixLine(all[i])], MixAll(Block(all[i + 1..])), Blank(all[i + 1..]));
    ConcatAssociative(lines, [MixLine(all[i])], MixRest(all[i + 1..]));
  }

  lemma KeepCons(line: string, rest: seq<string>)
    ensures Keep([line] + rest) == if IsProxyLine(line) then Keep(rest) else [line] + Keep(rest)
    ensures MixAll([line] + rest) == [MixLine(line)] + MixAll(rest)
  {
    hide IsProxyLine, MixLine;
    assert ([line] + rest)[1..] == rest;
    assert [] + Keep(rest) == Keep(rest);
  }

  lemma NothingKept()
    ensures Keep([]) + [[]] == [[]] && MixAll([]) + [[]] == [[]]
  {
  }

  lemma BlockStep(all: seq<string>, i: nat)
    requires i < |all|
    ensures all[i] == [] ==> Block(all[i..]) == [] && Blank(all[i..]) == [[]]
    ensures all[i] != [] ==> Block(all[i..]) == [all[i]] + Block(all[i + 1..]) && Blank(all[i..]) == Blank(all[i + 1..])
  {
    assert all[i..][1..] == all[i + 1..];
    assert all[i..] == [all[i]] + all[i + 1..];
  }

  // ---- Properties of the passes on lists of lines ----------------------------------------

  lemma {:induction false} BlockOfHeaders(ls: seq<string>)
    requires [] !in ls
    ensures Block(ls) == ls
    decreases |ls|
  {
    if ls != [] {
      assert ls[0] in ls && forall l :: l in ls[1..] ==> l in ls;
      BlockOfHeaders(ls[1..]);
    }
  }

  /** What follows the first blank line is not looked at. */
  lemma {:induction false} BlockEndsAtBlank(headers: seq<string>, body: seq<string>)
    requires [] !in headers
    ensures Block(headers + [[]] + body) == headers && Blank(headers + [[]] + body) == [[]]
    decreases |headers|
  {
    var ls := headers + [[]] + body;
    assert ls[|headers|] == [];
    if headers != [] {
      assert headers[0] in headers && forall l :: l in headers[1..] ==> l in headers;
      BlockEndsAtBlank(headers[1..], body);
      assert ls[1..] == headers[1..] + [[]] + body;
    }
  }

  lemma {:induction false} BlockOfEnded(ls: seq<string>, blank: seq<string>)
    requires [] !in ls && (blank == [] || blank == [[]])
    ensures Block(ls + blank) == ls && Blank(ls + blank) == blank
    decreases |ls|
  {
    if ls == [] {
      assert ls + blank == blank;
    } else {
      assert ls[0] in ls && forall l :: l in ls[1..] ==> l in ls;
      BlockOfEnded(ls[1..], blank);
      assert (ls + blank)[1..] == ls[1..] + blank;
    }
  }

  lemma {:induction false} KeepIdempotent(ls: seq<string>)
    ensures Keep(Keep(ls)) == Keep(ls)
  {
    if ls != [] {
      KeepIdempotent(ls[1..]);
      if IsProxyLine(ls[0]) {
        assert Keep(ls) == Keep(ls[1..]);
      } else {
        assert Keep(ls)[1..] == Keep(ls[1..]);
      }
    }
  }

  lemma {:induction false} MixAllFacts(ls: seq<string>)
    ensures MixAll(MixAll(ls)) == MixAll(ls)
    ensures [] !in ls ==> [] !in MixAll(ls)
    ensures AllOneLine(ls) ==> AllOneLine(MixAll(ls))
    decreases |ls|
  {
    hide MixLine, OneLine;
    if ls != [] {
      assert ls[0] in ls && forall l :: l in ls[1..] ==> l in ls;
      MixAllFacts(ls[1..]);
      MixLineKeepsField(ls[0]);
      assert MixAll(ls)[1..] == MixAll(ls[1..]);
    }
  }

  lemma {:induction false} KeepMixCommute(ls: seq<string>)
    ensures Keep(MixAll(ls)) == MixAll(Keep(ls))
    decreases |ls|
  {
    hide MixLine, IsProxyLine;
    if ls != [] {
      KeepMixCommute(ls[1..]);
      MixLineKeepsField(ls[0]);
      assert MixAll(ls)[1..] == MixAll(ls[1..]);
      if IsProxyLine(ls[0]) {
        assert Keep(ls) == Keep(ls[1..]);
      } else {
        assert Keep(ls)[1..] == Keep(ls[1..]);
      }
    }
  }

  /** On lists of lines each pass does all its work the first time, and their order is immaterial. */
  lemma PassesOnLines(ls: seq<string>)
    ensures StripLines(StripLines(ls)) == StripLines(ls)
    ensures MixLines(MixLines(ls)) == MixLines(ls)
    ensures StripLines(MixLines(ls)) == MixLines(StripLines(ls))
  {
    if ls != [] {
      hide Block, Blank, Keep, MixAll;
      var b, blank := Block(ls[1..]), Blank(ls[1..]);
      BlankIs(ls[1..]);
      MixAllFacts(b);
      KeepIdempotent(b);
      KeepMixCommute(b);
      MixAllFacts(Keep(b));
      ListParts(ls[0], Keep(b), blank);
      ListParts(ls[0], MixAll(b), blank);
    }
  }

  lemma BlankIs(ls: seq<string>)
    ensures Blank(ls) == [] || Blank(ls) == [[]]
    ensures [] !in Block(ls) && [] !in Keep(Block(ls))
  {
  }

  /** The parts of a list put together from a first line, headers and an optional blank line. */
  lemma ListParts(first: string, headers: seq<string>, blank: seq<string>)
    requires [] !in headers && (blank == [] || blank == [[]])
    ensures var ls := [first] + headers + blank;
      ls[0] == first && Block(ls[1..]) == headers && Blank(ls[1..]) == blank
  {
    BlockOfEnded(headers, blank);
    assert ([first] + headers + blank)[1..] == headers + blank;
  }
}
