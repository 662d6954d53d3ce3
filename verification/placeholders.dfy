/**
  Placeholder tokens `[MASKED_<LABEL>]` and the final clean-up of
  `mask_pii_ner`: one left-to-right pass of `re.sub` with the pattern
  `\[MASKED_[A-Z_]+\]` and an empty replacement, followed by `strip()`.
 */
module Placeholders {
  import opened Text

  const Opener: String := "[MASKED_"

  predicate IsLabelChar(c: char) { 'A' <= c <= 'Z' || c == '_' }

  /** A category the placeholder pattern accepts: one or more of `[A-Z_]`. */
  predicate IsLabel(category: String) {
    |category| > 0 && forall i :: 0 <= i < |category| ==> IsLabelChar(category[i])
  }

  /** The token both redactors write in place of a redacted span. */
  function Placeholder(category: String): String {
    Opener + category + "]"
  }

  /** `t` as a whole matches `\[MASKED_[A-Z_]+\]`. */
  predicate IsPlaceholder(t: String) {
    && |t| >= |Opener| + 2
    && t[..|Opener|] == Opener
    && t[|t| - 1] == ']'
    && IsLabel(t[|Opener|..|t| - 1])
  }

  /**
    Length of the placeholder match at the head of `s`, or 0 when the
    pattern does not match there (the greedy `[A-Z_]+` can only stop in
    front of the closing `]`).
   */
  function MatchLength(s: String): (n: nat)
    ensures n <= |s|
  {
    if StartsWith(s, Opener) then
      var k := SpanLen(s[|Opener|..], IsLabelChar);
      if 0 < k && |Opener| + k < |s| && s[|Opener| + k] == ']' then |Opener| + k + 1 else 0
    else 0
  }

  /**
    `MatchLength` is exact: `s[..m]` is a placeholder precisely for
    `m == MatchLength(s)`, so a string has at most one placeholder prefix
    and a result of 0 means it has none.
   */
  lemma MatchLengthExact(s: String)
    ensures forall m :: 0 < m <= |s| ==> (IsPlaceholder(s[..m]) <==> m == MatchLength(s))
  {
    var n := MatchLength(s);
    forall m | 0 < m <= |s|
      ensures IsPlaceholder(s[..m]) <==> m == n
    {
      if IsPlaceholder(s[..m]) {
        var t := s[..m];
        assert s[..|Opener|] == t[..|Opener|];
        var tail := s[|Opener|..];
        var k := SpanLen(tail, IsLabelChar);
        var category := t[|Opener|..m - 1];
        assert forall j :: 0 <= j < |category| ==> tail[j] == category[j];
        assert forall j :: 0 <= j < |category| ==> IsLabelChar(tail[j]);
        assert k >= |category|;
        assert tail[|category|] == t[m - 1];
        assert k == |category|;
      }
      if m == n {
        var k := SpanLen(s[|Opener|..], IsLabelChar);
        var t := s[..m];
        assert t[..|Opener|] == s[..|Opener|];
        assert t[|Opener|..m - 1] == s[|Opener|..][..k];
      }
    }
  }

  /**
    `MASKED_TAG_PATTERN.sub("", s)`: scanning left to right, every
    placeholder match is deleted and every other character is kept.
   */
  function StripPlaceholders(s: String): (r: String)
    ensures |r| <= |s|
    decreases |s|
  {
    if |s| == 0 then []
    else
      var n := MatchLength(s);
      if n > 0 then StripPlaceholders(s[n..])
      else [s[0]] + StripPlaceholders(s[1..])
  }

  /** The pass only deletes: what is left is a subsequence of the input. */
  lemma {:induction false} StripIsSubseq(s: String)
    ensures IsSubseq(StripPlaceholders(s), s)
    decreases |s|
  {
    if |s| > 0 {
      var n := MatchLength(s);
      if n > 0 {
        var r := StripPlaceholders(s[n..]);
        StripIsSubseq(s[n..]);
        SubseqPrepend(r, s[..n], s[n..]);
        assert s[..n] + s[n..] == s;
      } else {
        var r := StripPlaceholders(s);
        StripIsSubseq(s[1..]);
        assert r[0] == s[0] && r[1..] == StripPlaceholders(s[1..]);
      }
    }
  }

  /** `text.strip()` after the placeholder pass (masking.py:69-70). */
  function Finish(text: String): (r: String)
    ensures |r| <= |text|
    ensures |r| > 0 ==> !IsSpace(r[0]) && !IsSpace(r[|r| - 1])
    ensures forall c :: c in r ==> c in text
  {
    var s := StripPlaceholders(text);
    StripIsSubseq(text);
    SubseqChars(s, text);
    Strip(s)
  }

  lemma {:induction false} SubseqChars(a: String, b: String)
    requires IsSubseq(a, b)
    ensures forall c :: c in a ==> c in b
    decreases |b|
  {
    if |a| > 0 {
      if a[0] == b[0] && IsSubseq(a[1..], b[1..]) {
        SubseqChars(a[1..], b[1..]);
        assert forall c :: c in a ==> c == a[0] || c in a[1..];
      } else {
        SubseqChars(a, b[1..]);
      }
      assert forall c :: c in b[1..] ==> c in b;
    }
  }

  // ---------------------------------------------------------------------------
  // Lemmas
  // ---------------------------------------------------------------------------

  /** A well-formed placeholder at the head of a string is matched whole. */
  lemma MatchLengthOfPlaceholder(category: String, rest: String)
    requires IsLabel(category)
    ensures MatchLength(Placeholder(category) + rest) == |Placeholder(category)|
  {
    var p := Placeholder(category);
    var s := p + rest;
    MatchLengthExact(s);
    assert s[..|p|] == p;
    assert p[..|Opener|] == Opener;
    assert p[|Opener|..|p| - 1] == category;
  }

  /** A match at the head of `a` is unaffected by what follows `a`. */
  lemma MatchLengthExtends(a: String, b: String)
    requires MatchLength(a) > 0
    ensures MatchLength(a + b) == MatchLength(a)
  {
    var n := MatchLength(a);
    MatchLengthExact(a);
    MatchLengthExact(a + b);
    assert (a + b)[..n] == a[..n];
  }

  /** A placeholder followed by anything is deleted and nothing else is touched there. */
  lemma StripDeletesPlaceholder(category: String, rest: String)
    requires IsLabel(category)
    ensures StripPlaceholders(Placeholder(category) + rest) == StripPlaceholders(rest)
  {
    var p := Placeholder(category);
    MatchLengthOfPlaceholder(category, rest);
    assert (p + rest)[|p|..] == rest;
  }

  /** Where nothing matches, the pass keeps the first character. */
  lemma StripKeepsHead(s: String)
    requires |s| > 0 && s[0] != '['
    ensures StripPlaceholders(s) == [s[0]] + StripPlaceholders(s[1..])
  {
    MatchStartsWithBracket(s);
  }

  lemma MatchStartsWithBracket(s: String)
    ensures MatchLength(s) > 0 ==> s[0] == '['
  {
    var n := MatchLength(s);
    if n > 0 {
      MatchLengthExact(s);
      assert IsPlaceholder(s[..n]);
      assert s[..n][0] == s[0];
    }
  }

  /** Text without '[' is never matched, so the pass leaves it alone. */
  lemma {:induction false} StripKeepsBracketFree(s: String)
    requires '[' !in s
    ensures StripPlaceholders(s) == s
    decreases |s|
  {
    if |s| > 0 {
      MatchStartsWithBracket(s);
      StripKeepsBracketFree(s[1..]);
      assert [s[0]] + s[1..] == s;
    }
  }

  lemma StripCons(x: char, t: String)
    requires x != '['
    ensures StripPlaceholders([x] + t) == [x] + StripPlaceholders(t)
  {
    StripKeepsHead([x] + t);
    assert ([x] + t)[1..] == t;
  }

  lemma {:induction false} StripPrefixBracketFree(a: String, rest: String)
    requires '[' !in a
    ensures StripPlaceholders(a + rest) == a + StripPlaceholders(rest)
    decreases |a|
  {
    if |a| == 0 {
      assert a + rest == rest;
    } else {
      var x, t := a[0], a[1..];
      assert a == [x] + t;
      assert a + rest == [x] + (t + rest);
      StripPrefixBracketFree(t, rest);
      StripCons(x, t + rest);
      SeqAssoc([x], t, StripPlaceholders(rest));
    }
  }

  /** An opener not followed by a label character does not match. */
  lemma NoMatchWithoutLabel(s: String)
    requires |s| > |Opener| && !IsLabelChar(s[|Opener|])
    ensures MatchLength(s) == 0
  {
    assert s[|Opener|..][0] == s[|Opener|];
  }

  /** Where nothing matches, the pass keeps the first character and moves on. */
  lemma StripSkipsUnmatched(s: String)
    requires |s| > 0 && MatchLength(s) == 0
    ensures StripPlaceholders(s) == [s[0]] + StripPlaceholders(s[1..])
  {
  }

  /** Every placeholder the redactors write matches the placeholder pattern. */
  lemma PlaceholderMatches(category: String)
    requires IsLabel(category)
    ensures IsPlaceholder(Placeholder(category))
  {
    var p := Placeholder(category);
    assert p[..|Opener|] == Opener;
    assert p[|Opener|..|p| - 1] == category;
  }

  /**
    The pass is single: in "[MASKED_[MASKED_A]B]" the outer opener does
    not match, the inner placeholder is deleted, and its neighbours join
    into the placeholder "[MASKED_B]", which survives.
   */
  lemma SinglePassCanLeavePlaceholder()
    ensures var r := StripPlaceholders(Opener + Placeholder("A") + "B]");
      r == Placeholder("B") && IsPlaceholder(r)
  {
    var u := "MASKED_" + (Placeholder("A") + "B]");
    OuterOpenerSkipped(u);
    InnerPlaceholderDeleted();
    assert Placeholder("B") == Opener + ("B" + "]");
    assert "B" + "]" == "B]";
    OpenerSplit("B]");
    assert IsLabel("B");
    PlaceholderMatches("B");
  }

  lemma OpenerSplit(rest: String)
    ensures Opener + rest == ['['] + ("MASKED_" + rest)
  {
    assert Opener == ['['] + "MASKED_";
  }

  /** The outer "[" of the example is followed by a second "[", so it opens no placeholder. */
  lemma OuterOpenerSkipped(u: String)
    requires u == "MASKED_" + (Placeholder("A") + "B]")
    ensures Opener + Placeholder("A") + "B]" == ['['] + u
    ensures StripPlaceholders(['['] + u) == ['['] + StripPlaceholders(u)
  {
    var s := ['['] + u;
    assert Opener + Placeholder("A") + "B]" == Opener + (Placeholder("A") + "B]");
    OpenerSplit(Placeholder("A") + "B]");
    assert s[|Opener|] == '[';
    NoMatchWithoutLabel(s);
    StripSkipsUnmatched(s);
    assert s[1..] == u;
  }

  /** Inside the example the placeholder "[MASKED_A]" is deleted and its neighbours are kept. */
  lemma InnerPlaceholderDeleted()
    ensures StripPlaceholders("MASKED_" + (Placeholder("A") + "B]")) == "MASKED_" + "B]"
  {
    assert IsLabel("A");
    StripPrefixBracketFree("MASKED_", Placeholder("A") + "B]");
    StripDeletesPlaceholder("A", "B]");
    StripKeepsBracketFree("B]");
  }

  /** Every '[' of `s` starts a placeholder match. */
  predicate OpenBracketsArePlaceholders(s: String) {
    forall i :: 0 <= i < |s| && s[i] == '[' ==> MatchLength(s[i..]) > 0
  }

  /**
    No-leakage holds under a precondition: when every '[' of the input
    starts a placeholder, the pass removes them all and no '[' is left,
    so nothing of the form `[MASKED_...` can remain.
   */
  lemma {:induction false} NoBracketSurvives(s: String)
    requires OpenBracketsArePlaceholders(s)
    ensures '[' !in StripPlaceholders(s)
    decreases |s|
  {
    if |s| > 0 {
      var n := MatchLength(s);
      var k := if n > 0 then n else 1;
      if n == 0 {
        assert s[0..] == s;
        assert s[0] != '[';
      }
      var t := s[k..];
      forall i | 0 <= i < |t| && t[i] == '['
        ensures MatchLength(t[i..]) > 0
      {
        assert t[i] == s[k + i] && t[i..] == s[k + i..];
      }
      NoBracketSurvives(t);
    }
  }

  lemma {:induction false} OpenBracketsConcat(a: String, b: String)
    requires OpenBracketsArePlaceholders(a) && OpenBracketsArePlaceholders(b)
    ensures OpenBracketsArePlaceholders(a + b)
  {
    var s := a + b;
    forall i | 0 <= i < |s| && s[i] == '['
      ensures MatchLength(s[i..]) > 0
    {
      if i < |a| {
        assert s[i..] == a[i..] + b;
        assert a[i] == '[';
        MatchLengthExtends(a[i..], b);
      } else {
        assert s[i..] == b[i - |a|..];
        assert b[i - |a|] == '[';
      }
    }
  }

  lemma OpenBracketsOfPlaceholder(category: String)
    requires IsLabel(category)
    ensures OpenBracketsArePlaceholders(Placeholder(category))
  {
    var p := Placeholder(category);
    MatchLengthOfPlaceholder(category, []);
    assert p + [] == p;
    assert p[0..] == p;
    forall i | 0 < i < |p|
      ensures p[i] != '['
    {
      if i < |Opener| {
        assert p[i] == Opener[i];
      } else if i < |p| - 1 {
        assert p[i] == category[i - |Opener|];
      }
    }
  }

  lemma OpenBracketsSuffix(s: String, k: nat)
    requires OpenBracketsArePlaceholders(s) && k <= |s|
    ensures OpenBracketsArePlaceholders(s[k..])
  {
    forall i | 0 <= i < |s[k..]| && s[k..][i] == '['
      ensures MatchLength(s[k..][i..]) > 0
    {
      assert s[k..][i..] == s[k + i..];
    }
  }

  /** The placeholder matched at the head of `s` has no '[' but its first. */
  lemma OpenBracketsOfMatch(s: String)
    requires MatchLength(s) > 0
    ensures OpenBracketsArePlaceholders(s[..MatchLength(s)])
  {
    var n := MatchLength(s);
    var t := s[..n];
    MatchLengthExact(s);
    var category := t[|Opener|..n - 1];
    assert t == Opener + category + "]" by {
      assert t[..|Opener|] == Opener;
      assert t == t[..|Opener|] + t[|Opener|..n - 1] + [t[n - 1]];
    }
    OpenBracketsOfPlaceholder(category);
  }

  /** Every '[' of a string whose placeholders are whole opens "MASKED". */
  lemma PlaceholdersAnnounce(s: String)
    requires OpenBracketsArePlaceholders(s)
    ensures Announces(s, '[', "MASKED")
  {
    forall i | 0 <= i < |s| && s[i] == '['
      ensures i + 1 + |"MASKED"| <= |s| && s[i + 1..i + 7] == "MASKED"
    {
      var t := s[i..];
      assert MatchLength(t) > 0;
      assert t[..|Opener|] == Opener;
      assert s[i + 1..i + 7] == t[..|Opener|][1..7];
    }
  }

  lemma OpenBracketsOfBracketFree(s: String)
    requires '[' !in s
    ensures OpenBracketsArePlaceholders(s)
  {
    assert forall i :: 0 <= i < |s| ==> s[i] in s;
  }
}
