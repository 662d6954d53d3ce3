/**
  `clean_support_noise`: the line-by-line filter that removes mail
  boilerplate. Each line is stripped; blank lines, lines holding a noise
  phrase and short mail-header lines are dropped; from the other lines
  every word mentioning "masked" is deleted; the surviving words of each
  line are joined with single spaces, and the non-empty lines are joined
  with single spaces again.
 */
module NoiseFilter {
  import opened Text

  /** Phrases that mark a whole line as boilerplate (matched case-insensitively). */
  const NoisePatterns: seq<String> := [
    "survey", "unsubscribe", "automated response", "ticket #", "click here",
    "get outlook", "download app", "calendar invite"
  ]

  /** Mail-header markers (substrings) that drop a short line (matched case-insensitively). */
  const HeaderPatterns: seq<String> := ["sent:", "subject:", "cc:", "to:"]

  /** Python's `any(x in s for x in patterns)`. */
  predicate ContainsAny(s: String, patterns: seq<String>) {
    exists k :: 0 <= k < |patterns| && Contains(s, patterns[k])
  }

  predicate IsNoise(line: String) {
    ContainsAny(Lower(line), NoisePatterns)
  }

  /** A line of at most three words that holds a header prefix. */
  predicate IsHeaderRemnant(line: String) {
    |Words(line)| <= 3 && ContainsAny(Lower(line), HeaderPatterns)
  }

  predicate MentionsMasked(word: String) {
    Contains(Lower(word), "masked")
  }

  /** The tests that drop a stripped line before its words are looked at. */
  predicate Dropped(line: String) {
    |line| == 0 || IsNoise(line) || IsHeaderRemnant(line)
  }

  /** What every surviving word satisfies: a non-empty run of non-whitespace without "masked". */
  predicate CleanWords(ws: seq<String>) {
    forall k :: 0 <= k < |ws| ==> |ws[k]| > 0 && NoSpace(ws[k]) && !MentionsMasked(ws[k])
  }

  /** The words that do not mention "masked", in their original order. */
  function Unmasked(ws: seq<String>): (r: seq<String>)
    ensures forall k :: 0 <= k < |r| ==> !MentionsMasked(r[k])
    ensures forall w :: w in r ==> w in ws
  {
    if |ws| == 0 then []
    else (if MentionsMasked(ws[0]) then [] else [ws[0]]) + Unmasked(ws[1..])
  }

  /** The words one raw line contributes to the output; empty when the line is dropped. */
  function LineWords(line: String): seq<String> {
    var l := Strip(line);
    if Dropped(l) then [] else Unmasked(Words(l))
  }

  /** The surviving words of each line. */
  function PerLine(lines: seq<String>): seq<seq<String>> {
    MapSeq(LineWords, lines)
  }

  /**
    The loop of `clean_support_noise` over the lines' surviving words: one
    single-spaced entry for every line that kept a word.
   */
  function CleanedLines(wss: seq<seq<String>>): seq<String> {
    if |wss| == 0 then []
    else (if |wss[0]| > 0 then [Join(wss[0])] else []) + CleanedLines(wss[1..])
  }

  /** The surviving words of all lines, in line order: the reference for the output. */
  function SurvivingWords(lines: seq<String>): seq<String> {
    Flatten(PerLine(lines))
  }

  /**
    `clean_support_noise(text)`. The output is single-spaced (no leading or
    trailing whitespace, one ' ' between words), its words are exactly the
    surviving words of the input's lines, and it is empty precisely when
    no word survives.
   */
  function CleanSupportNoise(text: String): (r: String)
    ensures SingleSpaced(r)
    ensures Words(r) == SurvivingWords(Lines(text))
    ensures |r| == 0 <==> |SurvivingWords(Lines(text))| == 0
  {
    var ls := Lines(text);
    CleanedLinesJoin(PerLine(ls));
    SurvivingWordsClean(ls);
    OutputShape(SurvivingWords(ls));
    Join(CleanedLines(PerLine(ls)))
  }

  // ---------------------------------------------------------------------------
  // Lemmas
  // ---------------------------------------------------------------------------

  lemma {:induction false} UnmaskedKeepsClean(ws: seq<String>)
    requires forall k :: 0 <= k < |ws| ==> |ws[k]| > 0 && NoSpace(ws[k])
    ensures CleanWords(Unmasked(ws))
    decreases |ws|
  {
    if |ws| > 0 {
      UnmaskedKeepsClean(ws[1..]);
      CleanWordsConcat(if MentionsMasked(ws[0]) then [] else [ws[0]], Unmasked(ws[1..]));
    }
  }

  lemma CleanWordsConcat(a: seq<String>, b: seq<String>)
    requires CleanWords(a) && CleanWords(b)
    ensures CleanWords(a + b)
  {
    forall k | 0 <= k < |a + b|
      ensures |(a + b)[k]| > 0 && NoSpace((a + b)[k]) && !MentionsMasked((a + b)[k])
    {
      if k < |a| {
        assert (a + b)[k] == a[k];
      } else {
        assert (a + b)[k] == b[k - |a|];
      }
    }
  }

  lemma LineWordsClean(line: String)
    ensures CleanWords(LineWords(line))
  {
    UnmaskedKeepsClean(Words(Strip(line)));
  }

  lemma {:induction false} FlattenClean(wss: seq<seq<String>>)
    requires forall i :: 0 <= i < |wss| ==> CleanWords(wss[i])
    ensures CleanWords(Flatten(wss))
    decreases |wss|
  {
    if |wss| > 0 {
      FlattenClean(wss[1..]);
      CleanWordsConcat(wss[0], Flatten(wss[1..]));
    }
  }

  lemma SurvivingWordsClean(lines: seq<String>)
    ensures CleanWords(SurvivingWords(lines))
  {
    var wss := PerLine(lines);
    forall i | 0 <= i < |wss|
      ensures CleanWords(wss[i])
    {
      LineWordsClean(lines[i]);
    }
    FlattenClean(wss);
  }

  lemma OutputShape(ws: seq<String>)
    requires CleanWords(ws)
    ensures SingleSpaced(Join(ws))
    ensures Words(Join(ws)) == ws
    ensures |Join(ws)| == 0 <==> |ws| == 0
  {
    JoinSingleSpaced(ws);
    WordsOfJoin(ws);
  }

  /** Joining line by line and joining all surviving words at once agree. */
  lemma {:induction false} CleanedLinesJoin(wss: seq<seq<String>>)
    ensures Join(CleanedLines(wss)) == Join(Flatten(wss))
    ensures |CleanedLines(wss)| == 0 <==> |Flatten(wss)| == 0
    decreases |wss|
  {
    if |wss| > 0 {
      var ws := wss[0];
      var c := CleanedLines(wss[1..]);
      var s := Flatten(wss[1..]);
      CleanedLinesJoin(wss[1..]);
      if |ws| == 0 {
        assert CleanedLines(wss) == [] + c == c;
        assert Flatten(wss) == ws + s == s;
      } else {
        var line := [Join(ws)] + c;
        assert CleanedLines(wss) == line;
        assert Flatten(wss) == ws + s;
        if |c| == 0 {
          assert line == [Join(ws)];
          assert ws + s == ws;
        } else {
          assert line[0] == Join(ws) && line[1..] == c;
          JoinConcat(ws, s);
        }
      }
    }
  }

  /** The filter deletes exactly the words that mention "masked", keeping the order. */
  lemma {:induction false} UnmaskedIsSubseq(ws: seq<String>)
    ensures IsSubseq(Unmasked(ws), ws)
    ensures forall k :: 0 <= k < |ws| && !MentionsMasked(ws[k]) ==> ws[k] in Unmasked(ws)
    ensures |Unmasked(ws)| == 0 <==> forall k :: 0 <= k < |ws| ==> MentionsMasked(ws[k])
    ensures |Unmasked(ws)| == |ws| - Count(ws, MentionsMasked)
    decreases |ws|
  {
    if |ws| > 0 {
      var rest := Unmasked(ws[1..]);
      UnmaskedIsSubseq(ws[1..]);
      if MentionsMasked(ws[0]) {
        assert Unmasked(ws) == rest;
        SubseqPrepend(rest, [ws[0]], ws[1..]);
        assert [ws[0]] + ws[1..] == ws;
      } else {
        assert Unmasked(ws) == [ws[0]] + rest;
      }
      forall k | 0 <= k < |ws| && !MentionsMasked(ws[k])
        ensures ws[k] in Unmasked(ws)
      {
        if k > 0 {
          assert ws[k] == ws[1..][k - 1];
        }
      }
    }
  }

  /** A line loses all its words precisely when some test drops it or every word mentions "masked". */
  lemma LineDroppedIff(line: String)
    ensures |LineWords(line)| == 0 <==>
      Dropped(Strip(line)) || forall k :: 0 <= k < |Words(line)| ==> MentionsMasked(Words(line)[k])
  {
    var l := Strip(line);
    var ws := Words(line);
    WordsOfStrip(line);
    UnmaskedIsSubseq(ws);
  }

  /**
    Header rule: a line of at most three words holding "sent:", "subject:",
    "cc:" or "to:" in any case is dropped; a line of more than three words
    that is not blank and holds no noise phrase keeps all its words that do
    not mention "masked", whatever header prefix it holds.
   */
  lemma HeaderRule(line: String)
    ensures |Words(line)| <= 3 && ContainsAny(Lower(Strip(line)), HeaderPatterns) ==> LineWords(line) == []
    ensures |Words(line)| > 3 && !IsNoise(Strip(line)) ==> LineWords(line) == Unmasked(Words(line))
  {
    WordsOfStrip(line);
  }

  /** The lines' words are a subsequence of the words of the text, in the same order. */
  lemma {:induction false} SurvivingWordsSubseq(lines: seq<String>)
    ensures IsSubseq(SurvivingWords(lines), WordsOfLines(lines))
    decreases |lines|
  {
    if |lines| > 0 {
      var line := lines[0];
      SurvivingWordsSubseq(lines[1..]);
      LineWordsSubseq(line);
      PerLineCons(lines);
      FlattenCons(LineWords(line), PerLine(lines[1..]));
      SubseqConcat(LineWords(line), Words(line), SurvivingWords(lines[1..]), WordsOfLines(lines[1..]));
    }
  }

  lemma LineWordsSubseq(line: String)
    ensures IsSubseq(LineWords(line), Words(line))
  {
    WordsOfStrip(line);
    UnmaskedIsSubseq(Words(line));
    EmptyIsSubseq(Words(line));
  }

  /**
    The output's words are an order-preserving subsequence of the input's
    words, and each is a non-empty run of non-whitespace that does not
    mention "masked".
   */
  lemma OutputWordsFromInput(text: String)
    ensures var ws := Words(CleanSupportNoise(text)); IsSubseq(ws, Words(text)) && CleanWords(ws)
  {
    var ls := Lines(text);
    var sw := SurvivingWords(ls);
    assert Words(CleanSupportNoise(text)) == sw;
    SurvivingWordsClean(ls);
    SurvivingWordsSubseq(ls);
    WordsAreWordsOfLines(text);
  }

  /** The output is all surviving words of all lines joined with single spaces. */
  lemma CleanIsJoinOfSurvivors(text: String)
    ensures CleanSupportNoise(text) == Join(SurvivingWords(Lines(text)))
  {
    CleanedLinesJoin(PerLine(Lines(text)));
  }

  lemma LinesAroundLine(before: String, line: String, after: String, nl: char)
    requires IsLineBreak(nl)
    requires forall i :: 0 <= i < |line| ==> !IsLineBreak(line[i])
    ensures Lines(before + [nl] + line + [nl] + after) == Lines(before) + [line] + Lines(after)
    ensures Lines(before + [nl] + after) == Lines(before) + Lines(after)
  {
    FieldsConcat(before + [nl] + line, nl, after, LineBreak);
    FieldsConcat(before, nl, line, LineBreak);
    FieldsConcat(before, nl, after, LineBreak);
    FieldsWithoutSeparator(line, LineBreak);
  }

  lemma PerLineConcat(a: seq<String>, b: seq<String>)
    ensures PerLine(a + b) == PerLine(a) + PerLine(b)
  {
    MapSeqConcat(LineWords, a, b);
  }

  lemma PerLineCons(lines: seq<String>)
    requires |lines| > 0
    ensures PerLine(lines) == [LineWords(lines[0])] + PerLine(lines[1..])
  {
    MapSeqCons(LineWords, lines);
  }

  lemma SurvivingWordsSkip(lb: seq<String>, line: String, la: seq<String>)
    requires LineWords(line) == []
    ensures SurvivingWords(lb + [line] + la) == SurvivingWords(lb + la)
  {
    PerLineConcat(lb + [line], la);
    PerLineConcat(lb, [line]);
    PerLineConcat(lb, la);
    assert PerLine([line]) == [[]];
    FlattenSkipEmpty(PerLine(lb), PerLine(la));
  }

  lemma FlattenSkipEmpty<T>(a: seq<seq<T>>, b: seq<seq<T>>)
    ensures Flatten(a + [[]] + b) == Flatten(a + b)
  {
    FlattenConcat(a + [[]], b);
    FlattenConcat(a, [[]]);
    FlattenConcat(a, b);
    assert Flatten<T>([[]]) == [];
  }

  /**
    A line that contributes no words (it is blank, holds a noise phrase, is
    a short header, or all its words mention "masked") can be removed from
    the text without changing the output.
   */
  lemma DroppedLineContributesNothing(before: String, line: String, after: String, nl: char)
    requires IsLineBreak(nl)
    requires forall i :: 0 <= i < |line| ==> !IsLineBreak(line[i])
    requires LineWords(line) == []
    ensures CleanSupportNoise(before + [nl] + line + [nl] + after) == CleanSupportNoise(before + [nl] + after)
  {
    LinesAroundLine(before, line, after, nl);
    SurvivingWordsSkip(Lines(before), line, Lines(after));
    CleanIsJoinOfSurvivors(before + [nl] + line + [nl] + after);
    CleanIsJoinOfSurvivors(before + [nl] + after);
  }

  // ---------------------------------------------------------------------------
  // Brackets that announce a placeholder do not survive
  // ---------------------------------------------------------------------------

  lemma LowerOfMasked()
    ensures Lower("MASKED") == "masked"
  {
    var l := Lower("MASKED");
    assert l[0] == 'm' && l[1] == 'a' && l[2] == 's' && l[3] == 'k' && l[4] == 'e' && l[5] == 'd';
  }

  /** A word whose every '[' opens "MASKED" mentions "masked" as soon as it holds a '['. */
  lemma BracketWordMentionsMasked(w: String)
    requires Announces(w, '[', "MASKED")
    ensures '[' in w ==> MentionsMasked(w)
  {
    if '[' in w {
      var i :| 0 <= i < |w| && w[i] == '[';
      assert w[i + 1..i + 7] == "MASKED";
      LowerSlice(w, i + 1, i + 7);
      LowerOfMasked();
      ContainsAt(Lower(w), "masked", i + 1);
    }
  }

  /** The words of a text whose every '[' opens "MASKED" that do not mention "masked" hold no '['. */
  lemma UnmaskedWordsNoBracket(l: String)
    requires Announces(l, '[', "MASKED")
    ensures forall k :: 0 <= k < |Unmasked(Words(l))| ==> '[' !in Unmasked(Words(l))[k]
  {
    FieldsAnnounce(l, Whitespace, '[', "MASKED");
    var fs := Fields(l, Whitespace);
    var ws := Words(l);
    assert ws == NonEmpty(fs);
    forall k | 0 <= k < |Unmasked(ws)|
      ensures '[' !in Unmasked(ws)[k]
    {
      var w := Unmasked(ws)[k];
      assert w in Unmasked(ws);
      assert w in fs;
      var j :| 0 <= j < |fs| && fs[j] == w;
      BracketWordMentionsMasked(w);
    }
  }

  /** The surviving words of a line whose every '[' opens "MASKED" hold no '['. */
  lemma LineWordsNoBracket(line: String)
    requires Announces(line, '[', "MASKED")
    ensures forall k :: 0 <= k < |LineWords(line)| ==> '[' !in LineWords(line)[k]
  {
    LineWordsCases(line);
    if LineWords(line) != [] {
      AnnouncesStrip(line, '[', "MASKED");
      UnmaskedWordsNoBracket(Strip(line));
    }
  }

  lemma LineWordsCases(line: String)
    ensures LineWords(line) == [] || LineWords(line) == Unmasked(Words(Strip(line)))
  {
  }

  /** Joining lines of words that avoid `c` gives entries that avoid `c`. */
  lemma {:induction false} CleanedLinesAvoid(wss: seq<seq<String>>, c: char)
    requires c != ' '
    requires forall i, k :: 0 <= i < |wss| && 0 <= k < |wss[i]| ==> c !in wss[i][k]
    ensures forall k :: 0 <= k < |CleanedLines(wss)| ==> c !in CleanedLines(wss)[k]
    decreases |wss|
  {
    if |wss| > 0 {
      CleanedLinesAvoid(wss[1..], c);
      JoinAvoids(wss[0], c);
      var head := if |wss[0]| > 0 then [Join(wss[0])] else [];
      assert CleanedLines(wss) == head + CleanedLines(wss[1..]);
    }
  }

  /**
    When every '[' of the text opens "MASKED" (as every placeholder does),
    no '[' survives the filter: each one sits in a word that mentions
    "masked", and those words are deleted.
   */
  lemma CleaningRemovesMaskedBrackets(text: String)
    requires Announces(text, '[', "MASKED")
    ensures '[' !in CleanSupportNoise(text)
  {
    var ls := Lines(text);
    FieldsAnnounce(text, LineBreak, '[', "MASKED");
    var wss := PerLine(ls);
    forall i, k | 0 <= i < |wss| && 0 <= k < |wss[i]|
      ensures '[' !in wss[i][k]
    {
      LineWordsNoBracket(ls[i]);
    }
    CleanedLinesAvoid(wss, '[');
    JoinAvoids(CleanedLines(wss), '[');
  }
}
