/** The two header passes of src/utils.rs as functions on text. */
module HeaderPasses {
  import opened Bytes
  import opened Text
  import opened HttpRewrite
  import opened Preprocess

  /** Either pass over a text joined from a first line, headers and perhaps a blank line. */
  lemma PassOfJoined(first: string, headers: seq<string>, blank: seq<string>)
    requires OneLine(first) && AllOneLine(headers) && [] !in headers && (blank == [] || blank == [[]])
    ensures StripText(Join([first] + headers + blank, CRLF)) == Join([first] + Keep(headers), CRLF)
    ensures MixText(Join([first] + headers + blank, CRLF)) == Join([first] + MixAll(headers), CRLF)
  {
    hide Lines, Keep, MixAll, Block, Blank;
    var ls := [first] + headers + blank;
    LinesOfJoin(ls);
    LastOfOut(first, headers, blank);
    NoHeaders();
    NothingKept();
    var got := Lines(Join(ls, CRLF));
    if got == [] {
      JoinFirst(first, []);
      assert [first] + [] == [first];
    } else {
      assert got[1..] == headers;
      BlockOfHeaders(headers);
      NoBlank(headers);
      assert [first] + Keep(headers) + [] == [first] + Keep(headers);
      assert [first] + MixAll(headers) + [] == [first] + MixAll(headers);
    }
  }

  /** Stripping and case mixing can be done in either order, on every request. */
  lemma PassesCommute(request: string)
    ensures StripText(MixText(request)) == MixText(StripText(request))
  {
    hide Lines, Keep, MixAll, Block, Blank;
    var ls := Lines(request);
    if ls == [] {
      EmptyPasses();
    } else {
      RequestLines(request);
      BlockLines(request);
      var b, blank := Block(ls[1..]), Blank(ls[1..]);
      MixAllFacts(b);
      KeepMixCommute(b);
      PassOfJoined(ls[0], MixAll(b), blank);
      PassOfJoined(ls[0], Keep(b), blank);
    }
  }

  lemma EmptyPasses()
    ensures Lines([]) == [] && Join<char>([], CRLF) == []
  {
  }

  lemma BlockLines(request: string)
    requires Lines(request) != []
    ensures AllOneLine(Block(Lines(request)[1..])) && [] !in Block(Lines(request)[1..])
  {
    LinesAreOneLine(request);
    var ls := Lines(request);
    assert forall l :: l in ls[1..] ==> l in ls;
  }

  /** The request has a blank line after its first line. */
  predicate HasBlankLine(request: string) {
    Lines(request) != [] && [] in Lines(request)[1..]
  }

  /**
    Repeating a pass on text changes nothing exactly when the request has no blank line after its
    first: the first run keeps the blank line only as a final line ending, which the second drops.
   */
  lemma StripIdempotentExactly(request: string)
    ensures StripText(StripText(request)) == StripText(request) <==> !HasBlankLine(request)
  {
    hide Lines, Keep, MixAll, Block;
    var ls := Lines(request);
    if ls == [] {
      EmptyPasses();
    } else {
      RequestLines(request);
      var kept, blank := Keep(Block(ls[1..])), Blank(ls[1..]);
      KeepIdempotent(Block(ls[1..]));
      PassOfJoined(ls[0], kept, blank);
      BlankEndsText(ls[0], kept, blank);
    }
  }

  lemma MixIdempotentExactly(request: string)
    ensures MixText(MixText(request)) == MixText(request) <==> !HasBlankLine(request)
  {
    hide Lines, Keep, MixAll, Block;
    var ls := Lines(request);
    if ls == [] {
      EmptyPasses();
    } else {
      RequestLines(request);
      BlockLines(request);
      var mixed, blank := MixAll(Block(ls[1..])), Blank(ls[1..]);
      MixAllFacts(Block(ls[1..]));
      PassOfJoined(ls[0], mixed, blank);
      BlankEndsText(ls[0], mixed, blank);
    }
  }

  lemma BlankEndsText(first: string, headers: seq<string>, blank: seq<string>)
    requires blank == [] || blank == [[]]
    ensures Join([first] + headers, CRLF) == Join([first] + headers + blank, CRLF) <==> blank == []
  {
    hide Join;
    if blank == [] {
      assert [first] + headers + blank == [first] + headers;
    } else {
      JoinAppendEmpty([first] + headers);
    }
  }

  /** In either order the passes leave the request's own fields, none of them with a removed name. */
  lemma NoRemovedNameSurvives(request: string)
    ensures Fields(StripText(MixText(request))) == Fields(MixText(StripText(request))) == Forwarded(Fields(request))
    ensures forall f :: f in Fields(StripText(MixText(request))) ==> !IsRemovedField(f)
  {
    hide StripText, MixText, Preprocessed, Fields;
    PassesCommute(request);
    HeadersKeepMeaning(request, false, true);
    NoSpacing(request);
    MixingPass(request, false);
  }
}
