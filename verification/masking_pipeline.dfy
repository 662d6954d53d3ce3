/**
  `full_masking_pipeline_batch` and `full_masking_pipeline`: for every
  message, HTML is reduced to text, the regex rules run, the boilerplate
  filter runs, and then the named-entity pass masks what the recogniser
  finds. Text extraction and the recogniser are collaborators this model
  does not open up; they are passed in as functions.
 */
module MaskingPipeline {
  import opened Text
  import opened PatternRedactor
  import opened NoiseFilter
  import opened EntityRedactor

  /**
    What the pipeline calls but does not define: `extract_text_from_html`
    (BeautifulSoup's stripped strings joined by ' ') and the spaCy model's
    entities for a text, as character offsets.
   */
  datatype Collaborators = Collaborators(extractText: String -> String, recognize: String -> seq<Entity>)

  /** The text a message becomes before the recogniser sees it. */
  function Prepared(c: Collaborators, message: String): String {
    CleanSupportNoise(MaskCustomPatterns(c.extractText(message)))
  }

  /** One message through the whole pipeline; the result has no surrounding whitespace. */
  function MaskMessage(c: Collaborators, message: String): (r: String)
    ensures |r| > 0 ==> !IsSpace(r[0]) && !IsSpace(r[|r| - 1])
  {
    var t := Prepared(c, message);
    MaskDocument(t, c.recognize(t))
  }

  /**
    The results of `mask_pii_ner`'s loop, given how one document is
    masked: one result appended per text, in order.
   */
  function MaskAll(mask: String -> String, texts: seq<String>): seq<String>
    decreases |texts|
  {
    if |texts| == 0 then []
    else MaskAll(mask, texts[..|texts| - 1]) + [mask(texts[|texts| - 1])]
  }

  /** Result `j` is text `j`, masked. */
  lemma {:induction false} MaskAllPointwise(mask: String -> String, texts: seq<String>)
    ensures |MaskAll(mask, texts)| == |texts|
    ensures forall j :: 0 <= j < |texts| ==> MaskAll(mask, texts)[j] == mask(texts[j])
    decreases |texts|
  {
    if |texts| > 0 {
      var init := texts[..|texts| - 1];
      MaskAllPointwise(mask, init);
      assert forall j :: 0 <= j < |init| ==> init[j] == texts[j];
    }
  }

  /**
    Masking `a + b` gives the results for `a` followed by those for `b`:
    no text's result depends on the texts around it, so how the texts are
    grouped into `nlp.pipe` batches changes nothing.
   */
  lemma {:induction false} MaskAllConcat(mask: String -> String, a: seq<String>, b: seq<String>)
    ensures MaskAll(mask, a + b) == MaskAll(mask, a) + MaskAll(mask, b)
    decreases |b|
  {
    if |b| == 0 {
      assert a + b == a;
    } else {
      var init := b[..|b| - 1];
      MaskAllConcat(mask, a, init);
      assert (a + b)[..|a + b| - 1] == a + init;
      assert (a + b)[|a + b| - 1] == b[|b| - 1];
      SeqAssoc(MaskAll(mask, a), MaskAll(mask, init), [mask(b[|b| - 1])]);
    }
  }

  /**
    `mask_pii_ner`: every text is masked with the entities the recogniser
    finds in that same text, and the results come back in input order.
   */
  method MaskPiiNer(recognize: String -> seq<Entity>, texts: seq<String>) returns (masked: seq<String>)
    ensures |masked| == |texts|
    ensures forall j :: 0 <= j < |texts| ==> masked[j] == MaskDocument(texts[j], recognize(texts[j]))
  {
    var maskOne := t => MaskDocument(t, recognize(t));
    masked := [];
    var i := 0;
    while i < |texts|
      invariant 0 <= i <= |texts|
      invariant masked == MaskAll(maskOne, texts[..i])
    {
      assert texts[..i + 1][..i] == texts[..i];
      masked := masked + [MaskDocument(texts[i], recognize(texts[i]))];
      i := i + 1;
    }
    assert texts[..i] == texts;
    MaskAllPointwise(maskOne, texts);
  }

  /**
    The first half of `full_masking_pipeline_batch`, its three list
    comprehensions one after another: every message's text is extracted,
    then every text goes through the regex rules, then every result
    through the boilerplate filter. Each message ends up prepared on its
    own, in message order.
   */
  method PrepareBatch(c: Collaborators, messages: seq<String>) returns (cleaned: seq<String>)
    ensures |cleaned| == |messages|
    ensures forall j :: 0 <= j < |messages| ==> cleaned[j] == Prepared(c, messages[j])
  {
    var plainTexts := MapSeq(c.extractText, messages);
    var regexMasked := MapSeq(MaskCustomPatterns, plainTexts);
    cleaned := MapSeq(CleanSupportNoise, regexMasked);
  }

  /**
    `full_masking_pipeline_batch`: one result per message, in order, each
    the message taken through the pipeline on its own.
   */
  method FullMaskingPipelineBatch(c: Collaborators, messages: seq<String>) returns (masked: seq<String>)
    ensures |masked| == |messages|
    ensures forall j :: 0 <= j < |messages| ==> masked[j] == MaskMessage(c, messages[j])
  {
    var cleaned := PrepareBatch(c, messages);
    masked := MaskPiiNer(c.recognize, cleaned);
    forall j | 0 <= j < |messages|
      ensures masked[j] == MaskMessage(c, messages[j])
    {
      assert masked[j] == MaskDocument(cleaned[j], c.recognize(cleaned[j]));
    }
  }

  /** `full_masking_pipeline`: the batch of the one message, unwrapped. */
  method FullMaskingPipeline(c: Collaborators, message: String) returns (r: String)
    ensures r == MaskMessage(c, message)
  {
    var batch := FullMaskingPipelineBatch(c, [message]);
    r := batch[0];
  }

  /**
    No '[' reaches the output of a message whose extracted text has none,
    when the recogniser reports in-bounds, ordered, non-overlapping spans:
    the regex rules only add whole placeholders, the boilerplate filter
    drops every token that holds one, and the entity pass strips the rest.
   */
  lemma MaskMessageNoBracket(c: Collaborators, message: String)
    requires '[' !in c.extractText(message)
    requires WellFormed(c.recognize(Prepared(c, message)), |Prepared(c, message)|)
    ensures '[' !in MaskMessage(c, message)
  {
    var t := Prepared(c, message);
    RegexPassKeepsPlaceholders(c.extractText(message));
    CleaningRemovesMaskedBrackets(MaskCustomPatterns(c.extractText(message)));
    NoPlaceholderLeaks(t, c.recognize(t));
  }
}
