/**
  Character classes and the string primitives the masking code borrows from
  Python: `str.isspace`, `str.lower`, `in` on strings, `str.strip`,
  `str.split()`, `str.splitlines()` and `' '.join`. Only the ASCII part of
  each is modelled.
 */
module Text {

  type String = seq<char>

  /** ASCII characters for which Python's `str.isspace` holds (also `\s` in `re`). */
  predicate IsSpace(c: char) {
    9 <= c as int <= 13 || 28 <= c as int <= 32
  }

  /** ASCII characters on which Python's `str.splitlines` breaks a line. */
  predicate IsLineBreak(c: char) {
    10 <= c as int <= 13 || 28 <= c as int <= 30
  }

  predicate IsDigit(c: char) { '0' <= c <= '9' }

  predicate IsLetter(c: char) { 'a' <= c <= 'z' || 'A' <= c <= 'Z' }

  /** `\w` of Python's `re`, restricted to ASCII. */
  predicate IsWordChar(c: char) { IsLetter(c) || IsDigit(c) || c == '_' }

  predicate NoSpace(s: String) {
    forall i :: 0 <= i < |s| ==> !IsSpace(s[i])
  }

  function LowerChar(c: char): char {
    if 'A' <= c <= 'Z' then (c as int + 32) as char else c
  }

  /** `str.lower()` on ASCII. */
  function Lower(s: String): (r: String)
    ensures |r| == |s|
    ensures forall i :: 0 <= i < |s| ==> r[i] == LowerChar(s[i])
  {
    seq(|s|, i requires 0 <= i < |s| => LowerChar(s[i]))
  }

  /**
    `lower()` folds case and nothing else: no upper-case letter is left,
    every other character is kept, a letter stays the same letter, and
    folding twice is folding once.
   */
  lemma LowerFolds(s: String)
    ensures forall i :: 0 <= i < |s| ==> !('A' <= Lower(s)[i] <= 'Z')
    ensures forall i :: 0 <= i < |s| && !('A' <= s[i] <= 'Z') ==> Lower(s)[i] == s[i]
    ensures forall i :: 0 <= i < |s| ==> (IsLetter(Lower(s)[i]) <==> IsLetter(s[i]))
    ensures forall i :: 0 <= i < |s| && 'A' <= s[i] <= 'Z' ==> Lower(s)[i] as int == s[i] as int + 32
    ensures Lower(Lower(s)) == Lower(s)
  {
  }

  lemma LowerSlice(s: String, a: nat, b: nat)
    requires a <= b <= |s|
    ensures Lower(s)[a..b] == Lower(s[a..b])
  {
  }

  predicate StartsWith(s: String, prefix: String) {
    |prefix| <= |s| && s[..|prefix|] == prefix
  }

  /** Python's `pattern in s` for strings. */
  predicate Contains(s: String, pattern: String)
    decreases |s|
  {
    StartsWith(s, pattern) || (|s| > 0 && Contains(s[1..], pattern))
  }

  /** Length of the longest prefix of `s` whose characters all satisfy `p`. */
  function SpanLen(s: String, p: char -> bool): (n: nat)
    ensures n <= |s|
    ensures forall k :: 0 <= k < n ==> p(s[k])
    ensures n < |s| ==> !p(s[n])
  {
    if |s| > 0 && p(s[0]) then 1 + SpanLen(s[1..], p) else 0
  }

  // ---------------------------------------------------------------------------
  // Splitting
  // ---------------------------------------------------------------------------

  /** The two ways the masking code splits text: on whitespace and on line breaks. */
  datatype Separator = Whitespace | LineBreak

  predicate IsSep(sep: Separator, c: char) {
    match sep
    case Whitespace => IsSpace(c)
    case LineBreak => IsLineBreak(c)
  }

  /**
    The fields of `s` between separator characters, empty fields included:
    a string with k separators has k + 1 fields.
   */
  function Fields(s: String, sep: Separator): (r: seq<String>)
    ensures |r| >= 1
    decreases |s|
  {
    if |s| == 0 then [[]]
    else
      var rest := Fields(s[1..], sep);
      if IsSep(sep, s[0]) then [[]] + rest
      else [[s[0]] + rest[0]] + rest[1..]
  }

  lemma {:induction false} FieldsAvoidSeparator(s: String, sep: Separator)
    ensures forall f :: f in Fields(s, sep) ==> forall j :: 0 <= j < |f| ==> !IsSep(sep, f[j])
    decreases |s|
  {
    if |s| > 0 {
      var rest := Fields(s[1..], sep);
      FieldsAvoidSeparator(s[1..], sep);
      if !IsSep(sep, s[0]) {
        var f0 := [s[0]] + rest[0];
        assert rest[0] in rest;
        assert forall j :: 0 < j < |f0| ==> f0[j] == rest[0][j - 1];
        assert forall f :: f in rest[1..] ==> f in rest;
      }
    }
  }

  function NonEmpty(fs: seq<String>): (r: seq<String>)
    ensures forall k :: 0 <= k < |r| ==> |r[k]| > 0
    ensures forall f :: f in r ==> f in fs
  {
    if |fs| == 0 then []
    else (if |fs[0]| > 0 then [fs[0]] else []) + NonEmpty(fs[1..])
  }

  /** The characters of `s` that are not separators, in order. */
  function DropSeparators(s: String, sep: Separator): String
    decreases |s|
  {
    if |s| == 0 then []
    else (if IsSep(sep, s[0]) then [] else [s[0]]) + DropSeparators(s[1..], sep)
  }

  /**
    `s.split()`: the maximal runs of non-whitespace characters. Each word
    is non-empty and has no whitespace, and the words put end to end are
    exactly the non-whitespace characters of `s`.
   */
  function Words(s: String): (r: seq<String>)
    ensures forall k :: 0 <= k < |r| ==> |r[k]| > 0 && NoSpace(r[k])
    ensures Flatten(r) == DropSeparators(s, Whitespace)
  {
    FieldsAvoidSeparator(s, Whitespace);
    FlattenFields(s, Whitespace);
    FlattenNonEmpty(Fields(s, Whitespace));
    NonEmpty(Fields(s, Whitespace))
  }

  /** The fields put end to end are the text without its separators. */
  lemma {:induction false} FlattenFields(s: String, sep: Separator)
    ensures Flatten(Fields(s, sep)) == DropSeparators(s, sep)
    decreases |s|
  {
    if |s| > 0 {
      var rest := Fields(s[1..], sep);
      FlattenFields(s[1..], sep);
      FlattenCons(rest[0], rest[1..]);
      assert rest == [rest[0]] + rest[1..];
      if IsSep(sep, s[0]) {
        FlattenCons([], rest);
      } else {
        FlattenCons([s[0]] + rest[0], rest[1..]);
        SeqAssoc([s[0]], rest[0], Flatten(rest[1..]));
      }
    }
  }

  /** Dropping empty fields does not change their concatenation. */
  lemma {:induction false} FlattenNonEmpty(fs: seq<String>)
    ensures Flatten(NonEmpty(fs)) == Flatten(fs)
    decreases |fs|
  {
    if |fs| > 0 {
      FlattenNonEmpty(fs[1..]);
      FlattenCons(fs[0], fs[1..]);
      assert fs == [fs[0]] + fs[1..];
      if |fs[0]| > 0 {
        FlattenCons(fs[0], NonEmpty(fs[1..]));
      } else {
        assert fs[0] == [];
        assert NonEmpty(fs) == [] + NonEmpty(fs[1..]) == NonEmpty(fs[1..]);
        assert fs[0] + Flatten(fs[1..]) == Flatten(fs[1..]);
      }
    }
  }

  /** `s.splitlines()`, up to empty lines (see README). */
  function Lines(s: String): seq<String> {
    Fields(s, LineBreak)
  }

  /** `' '.join(ws)`. */
  function Join(ws: seq<String>): String {
    if |ws| == 0 then []
    else if |ws| == 1 then ws[0]
    else ws[0] + " " + Join(ws[1..])
  }

  /** The words of every line, concatenated in line order. */
  function WordsOfLines(lines: seq<String>): seq<String> {
    if |lines| == 0 then [] else Words(lines[0]) + WordsOfLines(lines[1..])
  }

  /**
    Output shape of `' '.join` over words: no leading or trailing
    whitespace, and every whitespace character is a single ' ' between
    two non-whitespace characters.
   */
  predicate SingleSpaced(s: String) {
    && (|s| > 0 ==> !IsSpace(s[0]) && !IsSpace(s[|s| - 1]))
    && (forall i :: 0 <= i < |s| && IsSpace(s[i]) ==> s[i] == ' ' && i + 1 < |s| && !IsSpace(s[i + 1]))
  }

  /** How many elements of `s` satisfy `p`. */
  function Count<T>(s: seq<T>, p: T -> bool): (n: nat)
    ensures n <= |s|
    decreases |s|
  {
    if |s| == 0 then 0 else (if p(s[0]) then 1 else 0) + Count(s[1..], p)
  }

  /** `a` is `b` with some elements deleted, the rest kept in order. */
  predicate IsSubseq<T(==)>(a: seq<T>, b: seq<T>)
    decreases |b|
  {
    if |a| == 0 then true
    else if |b| == 0 then false
    else (a[0] == b[0] && IsSubseq(a[1..], b[1..])) || IsSubseq(a, b[1..])
  }

  // ---------------------------------------------------------------------------
  // Trimming
  // ---------------------------------------------------------------------------

  function TrimLeft(s: String): (r: String)
    ensures |r| <= |s| && r == s[|s| - |r|..]
    ensures forall i :: 0 <= i < |s| - |r| ==> IsSpace(s[i])
    ensures |r| > 0 ==> !IsSpace(r[0])
  {
    if |s| > 0 && IsSpace(s[0]) then
      var r := TrimLeft(s[1..]);
      assert s[1..][|s| - 1 - |r|..] == s[|s| - |r|..];
      assert forall i :: 1 <= i < |s| - |r| ==> s[i] == s[1..][i - 1];
      r
    else s
  }

  function TrimRight(s: String): (r: String)
    ensures |r| <= |s| && r == s[..|r|]
    ensures forall i :: |r| <= i < |s| ==> IsSpace(s[i])
    ensures |r| > 0 ==> !IsSpace(r[|r| - 1])
  {
    if |s| > 0 && IsSpace(s[|s| - 1]) then
      var r := TrimRight(s[..|s| - 1]);
      assert s[..|s| - 1][..|r|] == s[..|r|];
      assert forall i :: |r| <= i < |s| - 1 ==> s[i] == s[..|s| - 1][i];
      r
    else s
  }

  /** `s[i..j]` is `s` with nothing but whitespace cut from its two ends. */
  predicate CutsOnlySpace(s: String, i: nat, j: nat) {
    && i <= j <= |s|
    && (forall k :: 0 <= k < i ==> IsSpace(s[k]))
    && (forall k :: j <= k < |s| ==> IsSpace(s[k]))
  }

  /**
    `s.strip()`: `s` without its whitespace prefix and suffix. The result is
    empty exactly when `s` is all whitespace, otherwise it begins and ends
    with a non-whitespace character; it never adds a character.
   */
  function Strip(s: String): (r: String)
    ensures |r| <= |s|
    ensures |r| == 0 <==> forall i :: 0 <= i < |s| ==> IsSpace(s[i])
    ensures |r| > 0 ==> !IsSpace(r[0]) && !IsSpace(r[|r| - 1])
    ensures forall c :: c in r ==> c in s
    ensures exists i: nat, j: nat :: CutsOnlySpace(s, i, j) && r == s[i..j]
  {
    StripFacts(s);
    StripSlice(s);
    TrimRight(TrimLeft(s))
  }

  lemma StripFacts(s: String)
    ensures var r := TrimRight(TrimLeft(s));
      && (|r| == 0 <==> forall i :: 0 <= i < |s| ==> IsSpace(s[i]))
      && (|r| > 0 ==> !IsSpace(r[0]))
      && (forall c :: c in r ==> c in s)
  {
    var l := TrimLeft(s);
    var r := TrimRight(l);
    assert forall c :: c in r ==> c in l;
    assert forall c :: c in l ==> c in s;
    if |r| == 0 {
      assert |l| == 0;
    } else {
      assert r[0] == l[0];
    }
  }

  lemma StripSlice(s: String)
    ensures exists i: nat, j: nat :: CutsOnlySpace(s, i, j) && TrimRight(TrimLeft(s)) == s[i..j]
  {
    var l := TrimLeft(s);
    var r := TrimRight(l);
    var i := |s| - |l|;
    assert r == s[i..i + |r|];
    assert forall k :: i + |r| <= k < |s| ==> s[k] == l[k - i];
    assert CutsOnlySpace(s, i, i + |r|);
  }

  // ---------------------------------------------------------------------------
  // Lemmas about fields and words
  // ---------------------------------------------------------------------------

  lemma FieldsWithoutSeparator(s: String, sep: Separator)
    requires forall i :: 0 <= i < |s| ==> !IsSep(sep, s[i])
    ensures Fields(s, sep) == [s]
    decreases |s|
  {
    if |s| > 0 {
      FieldsWithoutSeparator(s[1..], sep);
      assert [s[0]] + s[1..] == s;
    }
  }

  /** `Fields` on a string that starts with a separator. */
  lemma FieldsConsSep(x: char, t: String, sep: Separator)
    requires IsSep(sep, x)
    ensures Fields([x] + t, sep) == [[]] + Fields(t, sep)
  {
    assert ([x] + t)[0] == x && ([x] + t)[1..] == t;
  }

  /** `Fields` on a string that starts with a non-separator: it joins the first field. */
  lemma FieldsConsChar(x: char, t: String, sep: Separator)
    requires !IsSep(sep, x)
    ensures Fields([x] + t, sep) == [[x] + Fields(t, sep)[0]] + Fields(t, sep)[1..]
  {
    assert ([x] + t)[0] == x && ([x] + t)[1..] == t;
  }

  lemma GlueHead(x: char, fa: seq<String>, fb: seq<String>)
    requires |fa| >= 1
    ensures [[x] + (fa + fb)[0]] + (fa + fb)[1..] == ([[x] + fa[0]] + fa[1..]) + fb
  {
    assert (fa + fb)[0] == fa[0] && (fa + fb)[1..] == fa[1..] + fb;
  }

  lemma FieldsConcatStep(x: char, t: String, c: char, b: String, sep: Separator)
    requires IsSep(sep, c)
    requires Fields(t + [c] + b, sep) == Fields(t, sep) + Fields(b, sep)
    ensures Fields([x] + (t + [c] + b), sep) == Fields([x] + t, sep) + Fields(b, sep)
  {
    if IsSep(sep, x) {
      FieldsConsSep(x, t + [c] + b, sep);
      FieldsConsSep(x, t, sep);
    } else {
      FieldsConsChar(x, t + [c] + b, sep);
      FieldsConsChar(x, t, sep);
      GlueHead(x, Fields(t, sep), Fields(b, sep));
    }
  }

  /** A separator between `a` and `b` splits exactly there. */
  lemma {:induction false} FieldsConcat(a: String, c: char, b: String, sep: Separator)
    requires IsSep(sep, c)
    ensures Fields(a + [c] + b, sep) == Fields(a, sep) + Fields(b, sep)
    decreases |a|
  {
    if |a| == 0 {
      assert a + [c] + b == [c] + b;
      FieldsConsSep(c, b, sep);
    } else {
      var x, t := a[0], a[1..];
      FieldsConcat(t, c, b, sep);
      FieldsConcatStep(x, t, c, b, sep);
      assert a + [c] + b == [x] + (t + [c] + b);
      assert a == [x] + t;
    }
  }

  lemma NonEmptyConcat(a: seq<String>, b: seq<String>)
    ensures NonEmpty(a + b) == NonEmpty(a) + NonEmpty(b)
  {
    if |a| > 0 {
      NonEmptyConcat(a[1..], b);
      assert (a + b)[0] == a[0];
      assert (a + b)[1..] == a[1..] + b;
    } else {
      assert a + b == b;
    }
  }

  function FieldsOfLines(lines: seq<String>): seq<String> {
    if |lines| == 0 then [] else Fields(lines[0], Whitespace) + FieldsOfLines(lines[1..])
  }

  lemma FieldsOfLinesCons(l: String, ls: seq<String>)
    ensures FieldsOfLines([l] + ls) == Fields(l, Whitespace) + FieldsOfLines(ls)
  {
    assert ([l] + ls)[0] == l && ([l] + ls)[1..] == ls;
  }

  lemma FieldsOfLinesStep(x: char, t: String)
    requires FieldsOfLines(Lines(t)) == Fields(t, Whitespace)
    ensures FieldsOfLines(Lines([x] + t)) == Fields([x] + t, Whitespace)
  {
    var lt := Lines(t);
    var ft := Fields(t, Whitespace);
    var rest := FieldsOfLines(lt[1..]);
    assert lt == [lt[0]] + lt[1..];
    FieldsOfLinesCons(lt[0], lt[1..]);
    if IsLineBreak(x) {
      FieldsConsSep(x, t, LineBreak);
      FieldsOfLinesCons([], lt);
      FieldsConsSep(x, t, Whitespace);
    } else {
      FieldsConsChar(x, t, LineBreak);
      FieldsOfLinesCons([x] + lt[0], lt[1..]);
      if IsSpace(x) {
        FieldsConsSep(x, lt[0], Whitespace);
        FieldsConsSep(x, t, Whitespace);
      } else {
        FieldsConsChar(x, lt[0], Whitespace);
        FieldsConsChar(x, t, Whitespace);
        GlueHead(x, Fields(lt[0], Whitespace), rest);
      }
    }
  }

  /** Splitting into lines first and then into fields is splitting into fields. */
  lemma {:induction false} FieldsOfLinesAreFields(s: String)
    ensures FieldsOfLines(Lines(s)) == Fields(s, Whitespace)
    decreases |s|
  {
    if |s| == 0 {
      assert FieldsOfLines([[]]) == Fields([], Whitespace) + FieldsOfLines([]);
    } else {
      FieldsOfLinesAreFields(s[1..]);
      FieldsOfLinesStep(s[0], s[1..]);
      assert [s[0]] + s[1..] == s;
    }
  }

  /** The words of a text are the words of its lines, in order. */
  lemma {:induction false} WordsAreWordsOfLines(s: String)
    ensures Words(s) == WordsOfLines(Lines(s))
  {
    FieldsOfLinesAreFields(s);
    NonEmptyOfFieldsOfLines(Lines(s));
  }

  lemma NonEmptyOfFieldsOfLines(lines: seq<String>)
    ensures NonEmpty(FieldsOfLines(lines)) == WordsOfLines(lines)
  {
    if |lines| > 0 {
      NonEmptyConcat(Fields(lines[0], Whitespace), FieldsOfLines(lines[1..]));
    }
  }

  /** Leading and trailing whitespace do not change the words. */
  lemma {:induction false} WordsOfStrip(s: String)
    ensures Words(Strip(s)) == Words(s)
  {
    WordsOfTrimLeft(s);
    WordsOfTrimRight(TrimLeft(s));
  }

  lemma {:induction false} WordsOfTrimLeft(s: String)
    ensures Words(TrimLeft(s)) == Words(s)
    decreases |s|
  {
    if |s| > 0 && IsSpace(s[0]) {
      WordsOfTrimLeft(s[1..]);
      assert [s[0]] + s[1..] == s;
      FieldsConsSep(s[0], s[1..], Whitespace);
      NonEmptyConcat([[]], Fields(s[1..], Whitespace));
    }
  }

  lemma {:induction false} WordsOfTrimRight(s: String)
    ensures Words(TrimRight(s)) == Words(s)
    decreases |s|
  {
    if |s| > 0 && IsSpace(s[|s| - 1]) {
      var init, c := s[..|s| - 1], s[|s| - 1];
      assert TrimRight(s) == TrimRight(init);
      WordsOfTrimRight(init);
      assert init + [c] == s;
      WordsDropTrailingSpace(init, c);
    }
  }

  lemma WordsDropTrailingSpace(s: String, c: char)
    requires IsSpace(c)
    ensures Words(s + [c]) == Words(s)
  {
    assert s + [c] == s + [c] + [];
    FieldsConcat(s, c, [], Whitespace);
    NonEmptyConcat(Fields(s, Whitespace), [[]]);
    assert Fields([], Whitespace) == [[]];
    assert NonEmpty([[]]) == [] + NonEmpty([]);
  }

  // ---------------------------------------------------------------------------
  // Lemmas about Join
  // ---------------------------------------------------------------------------

  lemma {:induction false} JoinConcat(a: seq<String>, b: seq<String>)
    requires |a| > 0 && |b| > 0
    ensures Join(a + b) == Join(a) + " " + Join(b)
    decreases |a|
  {
    if |a| == 1 {
      assert (a + b)[1..] == b;
    } else {
      JoinConcat(a[1..], b);
      assert (a + b)[1..] == a[1..] + b;
    }
  }

  lemma {:induction false} FieldsOfJoin(ws: seq<String>)
    requires |ws| > 0
    requires forall k :: 0 <= k < |ws| ==> NoSpace(ws[k])
    ensures Fields(Join(ws), Whitespace) == ws
    decreases |ws|
  {
    if |ws| == 1 {
      FieldsWithoutSeparator(ws[0], Whitespace);
    } else {
      FieldsOfJoin(ws[1..]);
      FieldsWithoutSeparator(ws[0], Whitespace);
      FieldsConcat(ws[0], ' ', Join(ws[1..]), Whitespace);
      assert ws[0] + " " + Join(ws[1..]) == ws[0] + [' '] + Join(ws[1..]);
      assert [ws[0]] + ws[1..] == ws;
    }
  }

  lemma NonEmptyOfNonEmpty(ws: seq<String>)
    requires forall k :: 0 <= k < |ws| ==> |ws[k]| > 0
    ensures NonEmpty(ws) == ws
  {
    if |ws| > 0 {
      NonEmptyOfNonEmpty(ws[1..]);
      assert [ws[0]] + ws[1..] == ws;
    }
  }

  /**
    Joining words with single spaces and splitting the result again gives
    the words back.
   */
  lemma {:induction false} WordsOfJoin(ws: seq<String>)
    requires forall k :: 0 <= k < |ws| ==> |ws[k]| > 0 && NoSpace(ws[k])
    ensures Words(Join(ws)) == ws
  {
    if |ws| == 0 {
      assert Fields([], Whitespace) == [[]];
      assert NonEmpty([[]]) == [] + NonEmpty([]);
    } else {
      FieldsOfJoin(ws);
      NonEmptyOfNonEmpty(ws);
    }
  }

  /** Joined words are single-spaced, and non-empty when there is a word. */
  lemma {:induction false} JoinSingleSpaced(ws: seq<String>)
    requires forall k :: 0 <= k < |ws| ==> |ws[k]| > 0 && NoSpace(ws[k])
    ensures SingleSpaced(Join(ws))
    ensures |ws| > 0 ==> |Join(ws)| > 0
    decreases |ws|
  {
    if |ws| > 1 {
      JoinSingleSpaced(ws[1..]);
      var w := ws[0];
      var t := Join(ws[1..]);
      var s := w + " " + t;
      assert s == Join(ws);
      assert forall i :: 0 <= i < |w| ==> s[i] == w[i];
      forall i | |w| <= i < |s| && IsSpace(s[i])
        ensures s[i] == ' ' && i + 1 < |s| && !IsSpace(s[i + 1])
      {
        if i == |w| {
          assert s[i + 1] == t[0];
        } else {
          assert s[i] == t[i - |w| - 1];
          assert i + 1 < |s| ==> s[i + 1] == t[i - |w|];
        }
      }
      assert s[0] == w[0];
      assert s[|s| - 1] == t[|t| - 1];
    }
  }

  /** A character that is not ' ' and occurs in no word does not occur in their join. */
  lemma {:induction false} JoinAvoids(ws: seq<String>, c: char)
    requires c != ' '
    requires forall k :: 0 <= k < |ws| ==> c !in ws[k]
    ensures c !in Join(ws)
    decreases |ws|
  {
    if |ws| > 1 {
      JoinAvoids(ws[1..], c);
    }
  }

  // ---------------------------------------------------------------------------
  // Lemmas about subsequences
  // ---------------------------------------------------------------------------

  lemma EmptyIsSubseq<T>(b: seq<T>)
    ensures IsSubseq([], b)
  {
  }

  lemma {:induction false} SubseqPrepend<T>(a: seq<T>, c: seq<T>, b: seq<T>)
    requires IsSubseq(a, b)
    ensures IsSubseq(a, c + b)
    decreases |c|
  {
    if |c| > 0 && |a| > 0 {
      SubseqPrepend(a, c[1..], b);
      assert (c + b)[1..] == c[1..] + b;
      assert IsSubseq(a, (c + b)[1..]);
    } else if |c| == 0 {
      assert c + b == b;
    }
  }

  lemma {:induction false} SubseqConcat<T>(a1: seq<T>, b1: seq<T>, a2: seq<T>, b2: seq<T>)
    requires IsSubseq(a1, b1) && IsSubseq(a2, b2)
    ensures IsSubseq(a1 + a2, b1 + b2)
    decreases |b1|
  {
    if |a1| == 0 {
      assert a1 + a2 == a2;
      SubseqPrepend(a2, b1, b2);
    } else {
      assert (b1 + b2)[1..] == b1[1..] + b2;
      assert (b1 + b2)[0] == b1[0];
      assert (a1 + a2)[0] == a1[0];
      if a1[0] == b1[0] && IsSubseq(a1[1..], b1[1..]) {
        SubseqConcat(a1[1..], b1[1..], a2, b2);
        assert (a1 + a2)[1..] == a1[1..] + a2;
      } else {
        SubseqConcat(a1, b1[1..], a2, b2);
      }
    }
  }

  // ---------------------------------------------------------------------------
  // Flattening
  // ---------------------------------------------------------------------------

  /** `f` applied to every element, in order. */
  function MapSeq<A, B>(f: A -> B, s: seq<A>): (r: seq<B>)
    ensures |r| == |s|
    ensures forall i :: 0 <= i < |s| ==> r[i] == f(s[i])
  {
    seq(|s|, i requires 0 <= i < |s| => f(s[i]))
  }

  lemma MapSeqConcat<A, B>(f: A -> B, a: seq<A>, b: seq<A>)
    ensures MapSeq(f, a + b) == MapSeq(f, a) + MapSeq(f, b)
  {
    var l, r := MapSeq(f, a + b), MapSeq(f, a) + MapSeq(f, b);
    forall i | 0 <= i < |a + b|
      ensures l[i] == r[i]
    {
      if i < |a| {
        assert (a + b)[i] == a[i];
      } else {
        assert (a + b)[i] == b[i - |a|];
      }
    }
  }

  lemma MapSeqCons<A, B>(f: A -> B, s: seq<A>)
    requires |s| > 0
    ensures MapSeq(f, s) == [f(s[0])] + MapSeq(f, s[1..])
  {
    MapSeqConcat(f, [s[0]], s[1..]);
    assert [s[0]] + s[1..] == s;
  }

  /** The concatenation of a sequence of sequences, in order. */
  function Flatten<T>(xss: seq<seq<T>>): seq<T> {
    if |xss| == 0 then [] else xss[0] + Flatten(xss[1..])
  }

  lemma FlattenCons<T>(x: seq<T>, t: seq<seq<T>>)
    ensures Flatten([x] + t) == x + Flatten(t)
  {
    assert ([x] + t)[0] == x && ([x] + t)[1..] == t;
  }

  lemma FlattenConcatStep<T>(x: seq<T>, t: seq<seq<T>>, b: seq<seq<T>>)
    requires Flatten(t + b) == Flatten(t) + Flatten(b)
    ensures Flatten([x] + (t + b)) == Flatten([x] + t) + Flatten(b)
  {
    FlattenCons(x, t + b);
    FlattenCons(x, t);
    SeqAssoc(x, Flatten(t), Flatten(b));
  }

  lemma {:induction false} FlattenConcat<T>(a: seq<seq<T>>, b: seq<seq<T>>)
    ensures Flatten(a + b) == Flatten(a) + Flatten(b)
    decreases |a|
  {
    if |a| == 0 {
      assert a + b == b;
    } else {
      var x, t := a[0], a[1..];
      FlattenConcat(t, b);
      FlattenConcatStep(x, t, b);
      assert a + b == [x] + (t + b);
      assert a == [x] + t;
    }
  }

  lemma SeqAssoc<T>(a: seq<T>, b: seq<T>, c: seq<T>)
    ensures a + (b + c) == (a + b) + c
  {
  }

  // ---------------------------------------------------------------------------
  // Markers: a character always followed by the same text
  // ---------------------------------------------------------------------------

  /** Every `c` in `s` is directly followed by `tail`. */
  predicate Announces(s: String, c: char, tail: String) {
    forall i :: 0 <= i < |s| && s[i] == c ==> i + 1 + |tail| <= |s| && s[i + 1..i + 1 + |tail|] == tail
  }

  lemma AnnouncesSuffix(s: String, c: char, tail: String, k: nat)
    requires Announces(s, c, tail) && k <= |s|
    ensures Announces(s[k..], c, tail)
  {
    var t := s[k..];
    forall i | 0 <= i < |t| && t[i] == c
      ensures i + 1 + |tail| <= |t| && t[i + 1..i + 1 + |tail|] == tail
    {
      assert s[k + i] == c;
      assert t[i + 1..i + 1 + |tail|] == s[k + i + 1..k + i + 1 + |tail|];
    }
  }

  /** Cutting off a whitespace suffix keeps every announced tail that holds no whitespace. */
  lemma AnnouncesTrimRight(s: String, c: char, tail: String)
    requires Announces(s, c, tail) && !IsSpace(c) && NoSpace(tail)
    ensures Announces(TrimRight(s), c, tail)
  {
    var r := TrimRight(s);
    forall i | 0 <= i < |r| && r[i] == c
      ensures i + 1 + |tail| <= |r| && r[i + 1..i + 1 + |tail|] == tail
    {
      assert s[i] == c;
      assert forall j :: i < j <= i + |tail| ==> s[j] == tail[j - i - 1] && !IsSpace(s[j]);
      assert |tail| > 0 ==> !IsSpace(s[i + |tail|]);
      assert i + |tail| < |r|;
      assert r[i + 1..i + 1 + |tail|] == s[i + 1..i + 1 + |tail|];
    }
  }

  lemma AnnouncesStrip(s: String, c: char, tail: String)
    requires Announces(s, c, tail) && !IsSpace(c) && NoSpace(tail)
    ensures Announces(Strip(s), c, tail)
  {
    var l := TrimLeft(s);
    AnnouncesSuffix(s, c, tail, |s| - |l|);
    AnnouncesTrimRight(l, c, tail);
  }

  /** A prefix without separators stays at the head of the first field. */
  lemma {:induction false} FirstFieldStartsWith(s: String, sep: Separator, prefix: String)
    requires StartsWith(s, prefix)
    requires forall j :: 0 <= j < |prefix| ==> !IsSep(sep, prefix[j])
    ensures StartsWith(Fields(s, sep)[0], prefix)
    decreases |prefix|
  {
    if |prefix| > 0 {
      assert s[0] == prefix[0];
      assert StartsWith(s[1..], prefix[1..]) by {
        assert s[1..][..|prefix| - 1] == s[..|prefix|][1..];
      }
      FirstFieldStartsWith(s[1..], sep, prefix[1..]);
      var f := Fields(s[1..], sep)[0];
      assert Fields(s, sep)[0] == [s[0]] + f;
      assert ([s[0]] + f)[..|prefix|] == [s[0]] + f[..|prefix| - 1];
      assert prefix == [prefix[0]] + prefix[1..];
    }
  }

  /** Putting a character in front keeps the announcements, provided a marker put there is followed by its tail. */
  lemma AnnouncesCons(x: char, r: String, c: char, tail: String)
    requires Announces(r, c, tail)
    requires x == c ==> StartsWith(r, tail)
    ensures Announces([x] + r, c, tail)
  {
    var f := [x] + r;
    forall i | 0 <= i < |f| && f[i] == c
      ensures i + 1 + |tail| <= |f| && f[i + 1..i + 1 + |tail|] == tail
    {
      if i == 0 {
        assert f[1..1 + |tail|] == r[..|tail|];
      } else {
        assert r[i - 1] == c;
        assert f[i + 1..i + 1 + |tail|] == r[i..i + |tail|];
      }
    }
  }

  /** Splitting keeps announced tails that hold no separator. */
  lemma {:induction false} FieldsAnnounce(s: String, sep: Separator, c: char, tail: String)
    requires Announces(s, c, tail) && !IsSep(sep, c)
    requires forall j :: 0 <= j < |tail| ==> !IsSep(sep, tail[j])
    ensures forall k :: 0 <= k < |Fields(s, sep)| ==> Announces(Fields(s, sep)[k], c, tail)
    decreases |s|
  {
    if |s| > 0 {
      var x, t := s[0], s[1..];
      AnnouncesSuffix(s, c, tail, 1);
      FieldsAnnounce(t, sep, c, tail);
      var rest := Fields(t, sep);
      if !IsSep(sep, x) {
        if x == c {
          assert StartsWith(t, tail) by {
            assert t[..|tail|] == s[1..1 + |tail|];
          }
          FirstFieldStartsWith(t, sep, tail);
        }
        AnnouncesCons(x, rest[0], c, tail);
        assert Fields(s, sep) == [[x] + rest[0]] + rest[1..];
      }
    }
  }

  /** A string holds `pattern` wherever `pattern` occurs at some position. */
  lemma {:induction false} ContainsAt(s: String, pattern: String, i: nat)
    requires i + |pattern| <= |s| && s[i..i + |pattern|] == pattern
    ensures Contains(s, pattern)
    decreases i
  {
    if i > 0 {
      assert s[1..][i - 1..i - 1 + |pattern|] == s[i..i + |pattern|];
      ContainsAt(s[1..], pattern, i - 1);
    }
  }
}
