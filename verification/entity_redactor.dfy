/**
  The span replacement of `mask_pii_ner`: the recogniser's entities are
  applied last-first, and every entity whose category is one of
  `ENTITIES_TO_MASK` has its character span replaced by the placeholder
  "[MASKED_<category>]". The text is then passed through the placeholder
  strip and trimmed.
 */
module EntityRedactor {
  import opened Text
  import opened Placeholders

  /** A recognised entity: the characters `start .. end` of the text and its category. */
  datatype Entity = Entity(start: nat, end: nat, category: String)

  /** The categories whose spans are replaced (`ENTITIES_TO_MASK`). */
  const EntitiesToMask: set<String> :=
    {"PERSON", "ORG", "GPE", "EMAIL", "URL", "LOC", "PHONE", "DATE", "TIME", "ID"}

  predicate Masks(e: Entity) {
    e.category in EntitiesToMask
  }

  /** Python's `s[:n]` for a non-negative `n`. */
  function Take(s: String, n: nat): (r: String)
    ensures |r| == if n <= |s| then n else |s|
  {
    if n <= |s| then s[..n] else s
  }

  /** Python's `s[n:]` for a non-negative `n`. */
  function Drop(s: String, n: nat): (r: String)
    ensures |r| == if n <= |s| then |s| - n else 0
  {
    if n <= |s| then s[n..] else []
  }

  /** One step of the loop: `text[:start] + "[MASKED_<category>]" + text[end:]`. */
  function Splice(text: String, e: Entity): String {
    Take(text, e.start) + Placeholder(e.category) + Drop(text, e.end)
  }

  /** The loop over `reversed(doc.ents)`: the last entity is applied first. */
  function ApplyReversed(text: String, ents: seq<Entity>): String
    decreases |ents|
  {
    if |ents| == 0 then text
    else
      var last := ents[|ents| - 1];
      ApplyReversed(if Masks(last) then Splice(text, last) else text, ents[..|ents| - 1])
  }

  // ---------------------------------------------------------------------------
  // The left-to-right reference
  // ---------------------------------------------------------------------------

  /**
    The entities lie within `pos .. n`, each has `start <= end`, and they are
    sorted and do not overlap: every entity ends at or before the next starts.
    This is what the recogniser guarantees of `doc.ents`.
   */
  predicate WellFormedFrom(ents: seq<Entity>, pos: nat, n: nat)
    decreases |ents|
  {
    pos <= n &&
    (|ents| > 0 ==> pos <= ents[0].start <= ents[0].end <= n && WellFormedFrom(ents[1..], ents[0].end, n))
  }

  predicate WellFormed(ents: seq<Entity>, n: nat) {
    WellFormedFrom(ents, 0, n)
  }

  /** What one entity's span becomes: its placeholder when masked, its own text otherwise. */
  function Piece(text: String, e: Entity): String
    requires e.start <= e.end <= |text|
  {
    if Masks(e) then Placeholder(e.category) else text[e.start..e.end]
  }

  /**
    The text rebuilt left to right from `pos`: each gap between entities is
    copied unchanged, each entity contributes its piece, and the text after
    the last entity is copied unchanged.
   */
  function Rebuild(text: String, ents: seq<Entity>, pos: nat): String
    requires WellFormedFrom(ents, pos, |text|)
    decreases |ents|
  {
    if |ents| == 0 then text[pos..]
    else text[pos..ents[0].start] + Piece(text, ents[0]) + Rebuild(text, ents[1..], ents[0].end)
  }

  // ---------------------------------------------------------------------------
  // Lemmas
  // ---------------------------------------------------------------------------

  /** A slice inside the first `m` characters is the same slice of the prefix. */
  lemma SliceOfPrefix(text: String, m: nat, a: nat, b: nat)
    requires a <= b <= m <= |text|
    ensures text[a..b] == text[..m][a..b]
  {
  }

  /** An entity inside the first `m` characters has the same piece in the prefix. */
  lemma PieceOfPrefix(text: String, m: nat, e: Entity)
    requires e.start <= e.end <= m <= |text|
    ensures Piece(text, e) == Piece(text[..m], e)
  {
    SliceOfPrefix(text, m, e.start, e.end);
  }

  lemma {:induction false} WellFormedWiden(ents: seq<Entity>, pos: nat, n: nat, n': nat)
    requires WellFormedFrom(ents, pos, n) && n <= n'
    ensures WellFormedFrom(ents, pos, n')
    decreases |ents|
  {
    if |ents| > 0 {
      WellFormedWiden(ents[1..], ents[0].end, n, n');
    }
  }

  /** Removing the last entity leaves a list that ends where that entity starts. */
  lemma {:induction false} WellFormedSnoc(init: seq<Entity>, e: Entity, pos: nat, n: nat)
    requires WellFormedFrom(init + [e], pos, n)
    ensures WellFormedFrom(init, pos, e.start)
    ensures pos <= e.start <= e.end <= n
    decreases |init|
  {
    if |init| > 0 {
      assert (init + [e])[1..] == init[1..] + [e];
      WellFormedSnoc(init[1..], e, init[0].end, n);
    } else {
      assert init + [e] == [e];
    }
  }

  /** Text after position `m`, where no entity reaches, is copied unchanged. */
  lemma {:induction false} RebuildPrefix(text: String, ents: seq<Entity>, pos: nat, m: nat)
    requires WellFormedFrom(ents, pos, m) && m <= |text|
    ensures WellFormedFrom(ents, pos, |text|)
    ensures Rebuild(text, ents, pos) == Rebuild(text[..m], ents, pos) + text[m..]
    decreases |ents|
  {
    WellFormedWiden(ents, pos, m, |text|);
    var p := text[..m];
    if |ents| == 0 {
      assert text[pos..] == p[pos..] + text[m..];
    } else {
      var e := ents[0];
      RebuildPrefix(text, ents[1..], e.end, m);
      SliceOfPrefix(text, m, pos, e.start);
      PieceOfPrefix(text, m, e);
      SeqAssoc(text[pos..e.start] + Piece(text, e), Rebuild(p, ents[1..], e.end), text[m..]);
    }
  }

  /** The last entity's piece sits between the rebuilt prefix before it and the text after it. */
  lemma {:induction false} RebuildSnoc(text: String, init: seq<Entity>, e: Entity, pos: nat)
    requires WellFormedFrom(init + [e], pos, |text|)
    ensures e.start <= e.end <= |text|
    ensures WellFormedFrom(init, pos, e.start)
    ensures Rebuild(text, init + [e], pos) == Rebuild(text[..e.start], init, pos) + Piece(text, e) + text[e.end..]
    decreases |init|
  {
    WellFormedSnoc(init, e, pos, |text|);
    var p := text[..e.start];
    if |init| == 0 {
      assert init + [e] == [e];
      assert p[pos..] == text[pos..e.start];
    } else {
      var f := init[0];
      assert (init + [e])[0] == f;
      assert (init + [e])[1..] == init[1..] + [e];
      RebuildSnoc(text, init[1..], e, f.end);
      assert pos <= f.start <= f.end <= e.start;
      SliceOfPrefix(text, e.start, pos, f.start);
      PieceOfPrefix(text, e.start, f);
      var head := text[pos..f.start] + Piece(text, f);
      SeqAssoc(head, Rebuild(p, init[1..], f.end), Piece(text, e));
      SeqAssoc(head, Rebuild(p, init[1..], f.end) + Piece(text, e), text[e.end..]);
    }
  }

  /** One step of the loop keeps the text before the entity and puts its piece where its span was. */
  lemma StepShape(text: String, e: Entity)
    requires e.start <= e.end <= |text|
    ensures var t := if Masks(e) then Splice(text, e) else text;
      e.start <= |t| && t[..e.start] == text[..e.start] && t[e.start..] == Piece(text, e) + text[e.end..]
  {
    if Masks(e) {
      var a, b := text[..e.start], Placeholder(e.category) + text[e.end..];
      assert Splice(text, e) == a + b;
      assert (a + b)[..|a|] == a && (a + b)[|a|..] == b;
    } else {
      assert text[e.start..] == text[e.start..e.end] + text[e.end..];
    }
  }

  /**
    Applying the entities last-first, as the loop does, gives the
    left-to-right rebuild: each masked entity has exactly its span replaced
    by its placeholder, every other entity and every gap is kept, all in
    order. Splicing from the end is what keeps the earlier offsets valid.
   */
  lemma {:induction false} ReverseEqualsRebuild(text: String, ents: seq<Entity>)
    requires WellFormed(ents, |text|)
    ensures ApplyReversed(text, ents) == Rebuild(text, ents, 0)
    decreases |ents|
  {
    if |ents| > 0 {
      var init, e := ents[..|ents| - 1], ents[|ents| - 1];
      assert ents == init + [e];
      RebuildSnoc(text, init, e, 0);
      var m := e.start;
      var t := if Masks(e) then Splice(text, e) else text;
      StepShape(text, e);
      WellFormedWiden(init, 0, m, |t|);
      ReverseEqualsRebuild(t, init);
      RebuildPrefix(t, init, 0, m);
      SeqAssoc(Rebuild(text[..m], init, 0), Piece(text, e), text[e.end..]);
    }
  }

  /** The entities whose category is masked, in order. */
  function Maskable(ents: seq<Entity>): (r: seq<Entity>)
    ensures forall i :: 0 <= i < |r| ==> Masks(r[i])
    decreases |ents|
  {
    if |ents| == 0 then []
    else
      var last := ents[|ents| - 1];
      Maskable(ents[..|ents| - 1]) + (if Masks(last) then [last] else [])
  }

  /** Entities of other categories change nothing: only the masked ones matter. */
  lemma {:induction false} OtherCategoriesIgnored(text: String, ents: seq<Entity>)
    ensures ApplyReversed(text, ents) == ApplyReversed(text, Maskable(ents))
    decreases |ents|
  {
    if |ents| > 0 {
      var init, e := ents[..|ents| - 1], ents[|ents| - 1];
      var t := if Masks(e) then Splice(text, e) else text;
      assert ApplyReversed(text, ents) == ApplyReversed(t, init);
      OtherCategoriesIgnored(t, init);
      if Masks(e) {
        var r := Maskable(init) + [e];
        assert r[..|r| - 1] == Maskable(init) && r[|r| - 1] == e;
      } else {
        assert Maskable(ents) == Maskable(init) + [];
        assert Maskable(init) + [] == Maskable(init);
      }
    }
  }

  /** With no entity of a masked category the text is returned unchanged. */
  lemma {:induction false} NothingToMask(text: String, ents: seq<Entity>)
    requires forall i :: 0 <= i < |ents| ==> !Masks(ents[i])
    ensures ApplyReversed(text, ents) == text
    decreases |ents|
  {
    if |ents| > 0 {
      var init := ents[..|ents| - 1];
      assert !Masks(ents[|ents| - 1]);
      assert forall i :: 0 <= i < |init| ==> init[i] == ents[i];
      NothingToMask(text, init);
    }
  }

  /** Every masked category is a label the placeholder pattern accepts. */
  lemma MaskedCategoriesAreLabels()
    ensures forall c :: c in EntitiesToMask ==> IsLabel(c)
  {
    assert IsLabel("PERSON") && IsLabel("ORG") && IsLabel("GPE") && IsLabel("EMAIL") && IsLabel("URL");
    assert IsLabel("LOC") && IsLabel("PHONE") && IsLabel("DATE") && IsLabel("TIME") && IsLabel("ID");
  }

  lemma SliceAvoids(text: String, i: nat, j: nat, c: char)
    requires i <= j <= |text| && c !in text
    ensures c !in text[i..j]
  {
    assert forall x :: x in text[i..j] ==> x in text;
  }

  /**
    In a rebuild of text without '[', every '[' is the start of a
    placeholder the strip pass removes.
   */
  lemma {:induction false} RebuildBracketsArePlaceholders(text: String, ents: seq<Entity>, pos: nat)
    requires '[' !in text
    requires WellFormedFrom(ents, pos, |text|)
    ensures OpenBracketsArePlaceholders(Rebuild(text, ents, pos))
    decreases |ents|
  {
    if |ents| == 0 {
      SliceAvoids(text, pos, |text|, '[');
      assert text[pos..] == text[pos..|text|];
      OpenBracketsOfBracketFree(text[pos..]);
    } else {
      var e := ents[0];
      SliceAvoids(text, pos, e.start, '[');
      OpenBracketsOfBracketFree(text[pos..e.start]);
      if Masks(e) {
        MaskedCategoriesAreLabels();
        OpenBracketsOfPlaceholder(e.category);
      } else {
        SliceAvoids(text, e.start, e.end, '[');
        OpenBracketsOfBracketFree(text[e.start..e.end]);
      }
      RebuildBracketsArePlaceholders(text, ents[1..], e.end);
      OpenBracketsConcat(text[pos..e.start], Piece(text, e));
      OpenBracketsConcat(text[pos..e.start] + Piece(text, e), Rebuild(text, ents[1..], e.end));
    }
  }

  /**
    One document of `mask_pii_ner`: the entity spans replaced last-first,
    then every placeholder deleted in one pass, then the text trimmed.
   */
  function MaskDocument(text: String, ents: seq<Entity>): (r: String)
    ensures |r| <= |ApplyReversed(text, ents)|
    ensures |r| > 0 ==> !IsSpace(r[0]) && !IsSpace(r[|r| - 1])
  {
    Finish(ApplyReversed(text, ents))
  }

  /**
    No leakage, under its precondition: when the cleaned text holds no '['
    and the recogniser's entities are well formed, the output holds no '['
    at all, so no placeholder and no part of one survives.
   */
  lemma NoPlaceholderLeaks(text: String, ents: seq<Entity>)
    requires '[' !in text
    requires WellFormed(ents, |text|)
    ensures '[' !in MaskDocument(text, ents)
  {
    ReverseEqualsRebuild(text, ents);
    RebuildBracketsArePlaceholders(text, ents, 0);
    NoBracketSurvives(ApplyReversed(text, ents));
  }
}
