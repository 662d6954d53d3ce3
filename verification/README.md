# Masking pipeline model

A Dafny model of the text-redaction pipeline of `masking.py`. A support
message goes through five stages in a fixed order:

- HTML is reduced to text.
- Seven regular-expression rules replace what they match with
  `[MASKED_<LABEL>]` placeholders.
- A boilerplate filter drops noise lines, short mail headers and every word
  that mentions "masked", and joins what is left with single spaces.
- A named-entity recogniser's spans are replaced, last one first, by
  placeholders.
- Every `[MASKED_<LABEL>]` left over is deleted in one left-to-right pass,
  and the result is trimmed.

The model is functional. Strings are `seq<char>`, and every stage is a pure
function. The HTML extractor and the recogniser are collaborators passed in
as function values.

| file | module | models |
|---|---|---|
| `text.dfy` | `Text` | Python's `str.isspace`, `strip`, `lower`, `split()`, `splitlines`, `' '.join` on ASCII, and sequence helpers |
| `placeholders.dfy` | `Placeholders` | `MASKED_TAG_PATTERN` and its `sub("", …)` pass, then `.strip()` |
| `noise_filter.dfy` | `NoiseFilter` | `clean_support_noise` |
| `entity_redactor.dfy` | `EntityRedactor` | the entity loop of `mask_pii_ner` and `ENTITIES_TO_MASK` |
| `pattern_redactor.dfy` | `PatternRedactor` | `COMPILED_PATTERNS` and `mask_custom_patterns` |
| `masking_pipeline.dfy` | `MaskingPipeline` | `mask_pii_ner`, `full_masking_pipeline_batch`, `full_masking_pipeline` |

How the model is built:

- **Regex rules.** Each of the seven patterns is a concrete matcher,
  `MatchAt(p, text, pos)`. It gives the length of the match Python's `re`
  finds starting at `pos`, or 0 when there is none.
- **`pattern.sub`.** A substitution is a left-to-right `Scan` over the
  table of those match lengths. At a match it emits the placeholder and
  jumps past the match; otherwise it copies one character.
- **Case folding.** `re.IGNORECASE`, `\w`, `\d`, `\s` and `\b` are taken
  over ASCII.
- **Entity splicing.** Reverse-order splicing is related to a
  left-to-right reference rebuild, `EntityRedactor.Rebuild`.
- **Noise filter.** The filter is related to a reference, the surviving
  words of each line in line order (`NoiseFilter.SurvivingWords`).

## Model

| member | source | states |
|---|---|---|
| Text.Strip | masking.py:43 | `strip()` gives a slice of the line with only whitespace cut from its two ends, and the slice neither starts nor ends with whitespace; it is empty exactly when the line is all whitespace |
| Text.LowerFolds | masking.py:47 | `lower()` leaves no upper-case letter, keeps every other character, turns each upper-case letter into the same letter in lower case, and is idempotent |
| Text.Words | masking.py:50 | `split()` yields non-empty words without whitespace which, put end to end, are exactly the non-whitespace characters of the line in order |
| Text.WordsOfStrip | masking.py:43-53 | splitting the stripped line gives the same words as splitting the raw line |
| Text.WordsAreWordsOfLines | masking.py:34-53 | splitting into lines and then each line into words gives exactly the words of the whole text |
| Text.WordsOfJoin | masking.py:55-57 | joining clean words with ' ' and splitting again gives back the same words |
| Text.JoinSingleSpaced | masking.py:55-57 | joining clean words with ' ' gives text with no outer whitespace and single spaces between words; it is non-empty when some word is given |
| NoiseFilter.CleanSupportNoise | masking.py:33-57 | the output is single-spaced; its words are exactly the surviving words of the input's lines, in line order; it is empty exactly when no word survives |
| NoiseFilter.CleanIsJoinOfSurvivors | masking.py:54-57 | joining each line's survivors and then joining the lines equals joining all surviving words at once |
| NoiseFilter.LineDroppedIff | masking.py:42-55 | a line contributes no word exactly when it is blank, holds a noise phrase, is a short header line, or every word in it mentions "masked" |
| NoiseFilter.HeaderRule | masking.py:47-53 | a line of at most three words holding "sent:", "subject:", "cc:" or "to:" in any case is dropped; a noise-free line of more than three words keeps every word that does not mention "masked" |
| NoiseFilter.DroppedLineContributesNothing | masking.py:42-51 | deleting a line between two line breaks that contributes no words (blank, noisy or a header), together with one of the breaks, leaves the whole output unchanged |
| NoiseFilter.UnmaskedIsSubseq | masking.py:53 | the word filter keeps, in order, exactly the words that do not mention "masked": its output is a subsequence of the words, holds every such word, and is as long as the words minus the number that mention "masked" |
| NoiseFilter.SurvivingWordsClean | masking.py:53-55 | every surviving word is non-empty, has no whitespace and does not mention "masked" |
| NoiseFilter.OutputWordsFromInput | masking.py:42-57 | the output's words are an order-preserving subsequence of the input's words, and none mentions "masked" |
| NoiseFilter.CleaningRemovesMaskedBrackets | masking.py:53-57 | when every '[' in the input is directly followed by "MASKED", no '[' is left in the output |
| Placeholders.MatchLengthExact | masking.py:22 | the placeholder match at the head of a string has length m exactly when the first m characters form `[MASKED_<A-Z_>+]` |
| Placeholders.StripIsSubseq | masking.py:69 | the strip pass only deletes characters and keeps the rest in order |
| Placeholders.StripDeletesPlaceholder | masking.py:69 | a placeholder at the head of the text is deleted, and the pass continues after it |
| Placeholders.StripKeepsHead | masking.py:69 | a first character that is not '[' is kept, and the pass continues after it |
| Placeholders.StripKeepsBracketFree | masking.py:69 | text without '[' passes unchanged |
| Placeholders.Finish | masking.py:69-70 | stripping and trimming never lengthen the text or add a character, and the result has no outer whitespace |
| Placeholders.SinglePassCanLeavePlaceholder | masking.py:69 | the pass is single: "[MASKED_[MASKED_A]B]" becomes "[MASKED_B]", itself a placeholder |
| Placeholders.NoBracketSurvives | masking.py:69 | when every '[' of the input starts a placeholder, no '[' is left after the pass |
| EntityRedactor.ReverseEqualsRebuild | masking.py:64-66 | for in-bounds, sorted, non-overlapping entities, splicing last-first equals the left-to-right rebuild: a masked entity's span becomes its placeholder; other spans and all gaps are kept, in order |
| EntityRedactor.OtherCategoriesIgnored | masking.py:64-66 | entities outside `ENTITIES_TO_MASK` change nothing: applying all entities equals applying only the masked ones |
| EntityRedactor.NothingToMask | masking.py:64-66 | with no entity in a masked category, the text is unchanged |
| EntityRedactor.RebuildBracketsArePlaceholders | masking.py:64-66 | when the text has no '[', every '[' after splicing starts a placeholder |
| EntityRedactor.MaskDocument | masking.py:63-70 | the masked text is no longer than the spliced text and has no outer whitespace |
| EntityRedactor.NoPlaceholderLeaks | masking.py:63-70 | for a text without '[' and well-formed entities, no '[' is left in the result, so no placeholder leaks |
| PatternRedactor.LabelsAreLabels | masking.py:9-16 | every rule label is one the placeholder pattern accepts |
| PatternRedactor.RuleOrder | masking.py:28-31 | the rules run in the order EMAIL, PHONE, URL, DOMAIN, ORG, TICKET, PARTNER_ID, each on the previous rule's output |
| PatternRedactor.ApplyRulesConcat | masking.py:29-30 | running a rule list is running its first part, then its second part on the result |
| PatternRedactor.ScanWithoutMatch | masking.py:30 | where nothing matches, the substitution copies the text |
| PatternRedactor.SubWithoutMatch | masking.py:30 | a rule that matches nowhere leaves the text unchanged |
| PatternRedactor.ScanCopies | masking.py:30 | where no match starts in a stretch of the text, the substitution copies that stretch unchanged and carries on after it |
| PatternRedactor.ScanLeftmost | masking.py:30 | the text before the leftmost match is copied, that match becomes the placeholder, and the scan resumes right after the match |
| PatternRedactor.SubLeftmost | masking.py:30 | a rule's output starts with the text before its first match, followed by that rule's placeholder |
| PatternRedactor.PlaceholderShape | masking.py:30 | each rule's placeholder is enclosed in brackets and has no '#' |
| PatternRedactor.TicketMatch | masking.py:15 | TICKET matches exactly at '#' followed by a digit, and the match takes the whole digit run |
| PatternRedactor.TicketPassNoHashDigit | masking.py:15 | after the TICKET pass, no '#' is directly followed by a digit |
| PatternRedactor.SubKeepsNoHashDigit | masking.py:30 | a substitution by any rule never creates a '#' directly followed by a digit |
| PatternRedactor.RegexPassNoHashDigit | masking.py:9-31 | after the rule pass, up to TICKET and in full, no '#' is directly followed by a digit |
| PatternRedactor.EmailMatch | masking.py:10 | EMAIL matches exactly where address characters, '@' and another address character start; the match runs to the end of the address run after the '@' |
| PatternRedactor.PhoneMatch | masking.py:11 | PHONE matches exactly where an optional '+', a digit and seven more digits, whitespace or dashes start |
| PatternRedactor.PhoneMatchRun | masking.py:11 | a PHONE match takes the whole run of digits, whitespace and dashes |
| PatternRedactor.UrlMatch | masking.py:12 | URL matches exactly at "http://" or "https://" followed by a non-space, and runs to the next whitespace |
| PatternRedactor.DomainMatch | masking.py:13 | DOMAIN matches exactly at a word boundary from which address characters reach a ".com" (any case) that ends at a word boundary |
| PatternRedactor.DomainMatchIsLast | masking.py:13 | a DOMAIN match ends at the last such ".com" within the address run |
| PatternRedactor.OrgMatchIsBrand | masking.py:14 | ORG matches exactly at a whole-word "sprinklr" in any case |
| PatternRedactor.OrgPassNoBrand | masking.py:14 | after the ORG pass, no whole-word "sprinklr" in any case is left |
| PatternRedactor.AfterOrgPassNoBrand | masking.py:9-31 | after the rules up to and including ORG, no whole-word "sprinklr" is left |
| PatternRedactor.PartnerIdMatch | masking.py:16 | a PARTNER_ID match starts with "partner" in any case and holds a ':' |
| PatternRedactor.PartnerIdMatchDigits | masking.py:16 | a PARTNER_ID match ends with a digit, and the character after it, if any, is not a digit |
| PatternRedactor.PartnerIdCompact | masking.py:16 | "partnerId:" in any case, directly followed by a digit, is matched |
| Placeholders.OpenBracketsOfMatch | masking.py:22 | a `[MASKED_<LABEL>]` match holds no '[' other than its first character |
| Placeholders.PlaceholdersAnnounce | masking.py:22 | when every '[' opens a `[MASKED_<LABEL>]` match, every '[' is followed by "MASKED" |
| PatternRedactor.EmailNotInPlaceholder | masking.py:10 | EMAIL matches nowhere inside a placeholder: the address run stops at a bracket, which is not '@' |
| PatternRedactor.PhoneNotInPlaceholder | masking.py:11 | PHONE matches nowhere inside a placeholder |
| PatternRedactor.UrlNotInPlaceholder | masking.py:12 | URL matches nowhere inside a placeholder |
| PatternRedactor.DomainNotInPlaceholder | masking.py:13 | DOMAIN matches nowhere inside a placeholder: its address run holds no '.' |
| PatternRedactor.OrgNotInPlaceholder | masking.py:14 | ORG matches nowhere inside a placeholder: an 'S' inside the label has word characters on both sides |
| PatternRedactor.TicketNotInPlaceholder | masking.py:15 | TICKET matches nowhere inside a placeholder |
| PatternRedactor.PartnerIdNotInPlaceholder | masking.py:16 | PARTNER_ID matches nowhere inside a placeholder, even one whose label spells "PARTNER_ID": no ':' follows inside it |
| PatternRedactor.NoMatchInPlaceholder | masking.py:9-16 | no rule of `COMPILED_PATTERNS` matches at any position inside a `[MASKED_<LABEL>]` placeholder |
| PatternRedactor.ScanKeepsPlaceholders | masking.py:30 | a substitution by a placeholder, none of whose matches starts inside a placeholder, leaves every '[' opening a whole placeholder |
| PatternRedactor.SubKeepsPlaceholders | masking.py:28-30 | each rule's pass keeps every '[' opening a whole placeholder, so placeholders from earlier rules survive the later ones |
| PatternRedactor.RulesKeepPlaceholders | masking.py:29-30 | the loop over any list of rules keeps every '[' opening a whole placeholder |
| PatternRedactor.RegexPassKeepsPlaceholders | masking.py:9-31 | on a text without '[', every '[' of `mask_custom_patterns`' output opens a whole placeholder and is followed by "MASKED" |
| PatternRedactor.EmailPassWithoutAt | masking.py:10 | EMAIL leaves a text without '@' unchanged |
| PatternRedactor.PhonePassWithoutDigit | masking.py:11 | PHONE leaves a text without a digit unchanged |
| PatternRedactor.UrlPassWithoutH | masking.py:12 | URL leaves a text without 'h' unchanged |
| PatternRedactor.DomainPassWithoutDot | masking.py:13 | DOMAIN leaves a text without '.' unchanged |
| PatternRedactor.TicketPassWithoutHash | masking.py:15 | TICKET leaves a text without '#' unchanged |
| PatternRedactor.PartnerIdPassWithoutColon | masking.py:16 | PARTNER_ID leaves a text without ':' unchanged |
| PatternRedactor.TicketPassOnHashBeforeBrand | masking.py:15 | on "#5sprinklr", TICKET masks "#5" and keeps "sprinklr" |
| PatternRedactor.OrgPassAfterTicket | masking.py:14 | on "[MASKED_TICKET]sprinklr", ORG masks the brand, which now follows the non-word character ']' |
| PatternRedactor.RulePassNotIdempotent | masking.py:9-31 | `mask_custom_patterns` is not idempotent: "#5sprinklr" becomes "[MASKED_TICKET]sprinklr", and a second call turns that into "[MASKED_TICKET][MASKED_ORG]" |
| MaskingPipeline.MaskMessage | masking.py:73-78 | one message through all stages has no outer whitespace |
| MaskingPipeline.MaskPiiNer | masking.py:59-71 | the loop that appends one masked document per text returns one result per text, in input order, each the text masked with its own entities |
| MaskingPipeline.MaskAllPointwise | masking.py:62-71 | the loop's appended results line up with the texts: there is one per text, and result `j` is text `j` put through the per-document masking |
| MaskingPipeline.MaskAllConcat | masking.py:60-71 | running the loop on `a + b` gives the results for `a` followed by those for `b`, so how the texts are grouped into batches changes no result |
| MaskingPipeline.PrepareBatch | masking.py:75-77 | running the three list comprehensions one after another prepares each message on its own: result `j` is message `j` extracted, passed through the rules and cleaned |
| MaskingPipeline.FullMaskingPipelineBatch | masking.py:74-78 | one result per message, in order, each equal to that message taken through the pipeline alone |
| MaskingPipeline.FullMaskingPipeline | masking.py:80-81 | the single-message form equals element 0 of the batch of that one message |
| MaskingPipeline.MaskMessageNoBracket | masking.py:73-78 | when the extracted text has no '[' and the recogniser's spans are well formed, no '[' reaches the output, so no placeholder or part of one is left |

## Left out

- spaCy (`nlp`, masking.py:6 and 60) is the `recognize` field of `MaskingPipeline.Collaborators`.
  - It is a per-text function, so `doc.text` is taken to be the input text.
  - Batching and `batch_size=16` are not modelled; per-text results are assumed not to depend on the batch.
  - The recogniser's accuracy is not modelled.
  - The splice theorems require its spans to be in bounds, sorted and non-overlapping (`EntityRedactor.WellFormed`), which spaCy's `doc.ents` guarantees.
- BeautifulSoup (`extract_text_from_html`, masking.py:24-26) is the `extractText` field of `MaskingPipeline.Collaborators`. The parser is not part of this model.
- Unicode: `\w`, `\d`, `\s`, `\b`, `re.IGNORECASE`, `str.isspace`, `str.splitlines`, `str.split` and `str.lower` are modelled on ASCII.
  - Whitespace is the characters 9-13 and 28-32.
  - Line breaks are the characters 10-13 and 28-30.
  - Python's wider Unicode classes and case folding are not modelled.
- `str.splitlines` on "\r\n", on a trailing break or on empty text yields an extra empty line in the model. The noise filter drops empty lines, so the filter's output is unaffected.
- Python's slice clamping for an out-of-range entity offset is modelled (`EntityRedactor.Take`, `EntityRedactor.Drop`). The theorems about splicing are stated only for well-formed entities.
- The web layer (app.py), the embedding model (embedding.py) and size-bounded chunking of batch responses are not part of this model. Chunking has no code in `masking.py`.
- MaskingPipeline.MaskMessageNoBracket: a '[' already present in the extracted text is outside its premise. Such a '[' need not open a placeholder, and the boilerplate filter keeps a word holding it unless the word mentions "masked".
- Text.Words: its contract fixes the words' characters and their order, not where one word ends and the next begins. Text.WordsOfJoin and Text.WordsOfStrip pin the words down for joined and for stripped text.
- PatternRedactor.AfterOrgPassNoBrand: stated up to the ORG pass only. The later TICKET and PARTNER_ID passes insert placeholders that can create new word boundaries around "sprinklr".
- PatternRedactor.PartnerIdMatch: states necessary conditions on a match, not the full pattern `(?:Partner\s*ID|partnerId)\s*:[-\s]*\d+`. PatternRedactor.PartnerIdCompact gives a sufficient condition for the compact form only. The matcher itself follows the full pattern.
- PatternRedactor.DomainMatch: the optional `(?:www\.)?` prefix is not modelled separately, because `[\w\.-]*` already covers it.
- MaskingPipeline.MaskMessage: its own contract states only the trimmed ends. What it computes is stated by the lemmas on its stages and by `MaskingPipeline.FullMaskingPipelineBatch`.
- `mask_custom_patterns` is not idempotent, so no idempotence is stated for it. A second call on its output can change the text again: a TICKET or PARTNER_ID placeholder put in front of "sprinklr" gives the brand a word boundary it lacked, and ORG then matches it. No rule matches inside a placeholder (PatternRedactor.NoMatchInPlaceholder), but a second pass can still change the text, as PatternRedactor.RulePassNotIdempotent shows.
- Idempotence of the whole pipeline on already masked text is not stated either. It depends on what the recogniser reports for that text.
