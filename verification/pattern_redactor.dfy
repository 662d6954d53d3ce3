/**
  `mask_custom_patterns`: the ordered table of seven regular expressions,
  each applied with `re.sub` to the whole text, replacing every
  non-overlapping match, scanned left to right, by "[MASKED_<LABEL>]".
  The patterns are modelled concretely over ASCII: `\w` is
  `[A-Za-z0-9_]`, `\d` is `[0-9]`, `\s` is the whitespace of
  `str.isspace`, and IGNORECASE folds ASCII letters only.
 */
module PatternRedactor {
  import opened Text
  import opened Placeholders

  datatype Pattern = Email | Phone | Url | Domain | Org | Ticket | PartnerId

  /** The key of each pattern in `COMPILED_PATTERNS`, used as the placeholder's label. */
  function Label(p: Pattern): String {
    match p
    case Email => "EMAIL"
    case Phone => "PHONE"
    case Url => "URL"
    case Domain => "DOMAIN"
    case Org => "ORG"
    case Ticket => "TICKET"
    case PartnerId => "PARTNER_ID"
  }

  /** The rules in the order the dictionary yields them. */
  const Rules: seq<Pattern> := [Email, Phone, Url, Domain, Org, Ticket, PartnerId]

  // ---------------------------------------------------------------------------
  // Character classes and anchors
  // ---------------------------------------------------------------------------

  /** `[\w\.-]` */
  predicate AddressChar(c: char) { IsWordChar(c) || c == '.' || c == '-' }

  /** `[\d\s\-]` */
  predicate PhoneChar(c: char) { IsDigit(c) || IsSpace(c) || c == '-' }

  /** `[-\s]` */
  predicate DashOrSpace(c: char) { c == '-' || IsSpace(c) }

  /** `[^\s]` */
  predicate NotSpace(c: char) { !IsSpace(c) }

  predicate WordBefore(text: String, pos: nat) { 0 < pos <= |text| && IsWordChar(text[pos - 1]) }

  predicate WordAfter(text: String, pos: nat) { pos < |text| && IsWordChar(text[pos]) }

  /** `\b`: a word character on exactly one side of `pos`. */
  predicate Boundary(text: String, pos: nat) { WordBefore(text, pos) != WordAfter(text, pos) }

  /** `w` (lower case) occurs at `pos` when case is ignored. */
  predicate FoldedAt(text: String, pos: nat, w: String) {
    pos + |w| <= |text| && Lower(text[pos..pos + |w|]) == w
  }

  /** Length of the run of `p`-characters that starts at `pos`. */
  function Run(text: String, pos: nat, p: char -> bool): (n: nat)
    requires pos <= |text|
    ensures pos + n <= |text|
    ensures forall i :: pos <= i < pos + n ==> p(text[i])
    ensures pos + n < |text| ==> !p(text[pos + n])
  {
    var k := SpanLen(text[pos..], p);
    assert forall i :: pos <= i < pos + k ==> text[i] == text[pos..][i - pos];
    k
  }

  /** A run is at least as long as any stretch of `p`-characters starting where it does. */
  lemma RunAtLeast(text: String, pos: nat, p: char -> bool, m: nat)
    requires pos + m <= |text|
    requires forall i :: pos <= i < pos + m ==> p(text[i])
    ensures Run(text, pos, p) >= m
  {
  }

  // ---------------------------------------------------------------------------
  // The seven patterns. Each returns the length of the match that `re`
  // finds at `pos`, or 0 when there is none; no pattern matches the empty
  // string, so 0 is never a match.
  // ---------------------------------------------------------------------------

  /** `[\w\.-]+@[\w\.-]+`: '@' is outside the class, so the first run must end at it. */
  function MatchEmail(text: String, pos: nat): (n: nat)
    requires pos <= |text|
    ensures pos + n <= |text|
  {
    var k := Run(text, pos, AddressChar);
    if 0 < k && pos + k < |text| && text[pos + k] == '@' then
      var j := Run(text, pos + k + 1, AddressChar);
      if j > 0 then k + 1 + j else 0
    else 0
  }

  /** `\+?\d[\d\s\-]{7,}` */
  function MatchPhone(text: String, pos: nat): (n: nat)
    requires pos <= |text|
    ensures pos + n <= |text|
  {
    var d := if pos < |text| && text[pos] == '+' then pos + 1 else pos;
    if d < |text| && IsDigit(text[d]) then
      var r := Run(text, d + 1, PhoneChar);
      if r >= 7 then d + 1 + r - pos else 0
    else 0
  }

  /** `https?://[^\s]+` (case-sensitive). */
  function MatchUrl(text: String, pos: nat): (n: nat)
    requires pos <= |text|
    ensures pos + n <= |text|
  {
    var h := if StartsWith(text[pos..], "https://") then 8
      else if StartsWith(text[pos..], "http://") then 7
      else 0;
    if h == 0 then 0
    else
      var r := Run(text, pos + h, NotSpace);
      if r > 0 then h + r else 0
  }

  /** ".com" (any case) ends at `q`, and `q` is a word boundary. */
  predicate ComEndsAt(text: String, q: nat) {
    q >= 4 && FoldedAt(text, q - 4, ".com") && Boundary(text, q)
  }

  /** The largest `q` in `lo + 4 .. hi` at which ".com" ends on a word boundary, or 0. */
  function LastComEnd(text: String, lo: nat, hi: nat): (q: nat)
    requires hi <= |text|
    ensures q == 0 || (lo + 4 <= q <= hi && ComEndsAt(text, q))
    ensures forall q' :: q < q' <= hi && lo + 4 <= q' ==> !ComEndsAt(text, q')
    decreases hi
  {
    if hi < lo + 4 then 0
    else if ComEndsAt(text, hi) then hi
    else LastComEnd(text, lo, hi - 1)
  }

  /**
    `\b(?:www\.)?[\w\.-]*\.com\b` ignoring case. "www." and ".com" lie in
    the class `[\w\.-]`, so whether or not the optional group is taken the
    greedy run backs off to the last ".com" inside the run that ends on a
    word boundary.
   */
  function MatchDomain(text: String, pos: nat): (n: nat)
    requires pos <= |text|
    ensures pos + n <= |text|
  {
    if !Boundary(text, pos) then 0
    else
      var q := LastComEnd(text, pos, pos + Run(text, pos, AddressChar));
      if q > 0 then q - pos else 0
  }

  const Brand: String := "sprinklr"

  /** `\bsprinklr\b` ignoring case. */
  function MatchOrg(text: String, pos: nat): (n: nat)
    requires pos <= |text|
    ensures pos + n <= |text|
  {
    if Boundary(text, pos) && FoldedAt(text, pos, Brand) && Boundary(text, pos + |Brand|) then |Brand| else 0
  }

  /** `#\d+` */
  function MatchTicket(text: String, pos: nat): (n: nat)
    requires pos <= |text|
    ensures pos + n <= |text|
  {
    if pos < |text| && text[pos] == '#' then
      var d := Run(text, pos + 1, IsDigit);
      if d > 0 then 1 + d else 0
    else 0
  }

  /**
    `(?:Partner\s*ID|partnerId)\s*:[-\s]*\d+` ignoring case. The second
    alternative is the first with no whitespace, and no greedy run here can
    give back a character the next step needs.
   */
  function MatchPartnerId(text: String, pos: nat): (n: nat)
    requires pos <= |text|
    ensures pos + n <= |text|
  {
    if !FoldedAt(text, pos, "partner") then 0
    else
      var a := pos + 7 + Run(text, pos + 7, IsSpace);
      if !FoldedAt(text, a, "id") then 0
      else
        var b := a + 2 + Run(text, a + 2, IsSpace);
        if !(b < |text| && text[b] == ':') then 0
        else
          var c := b + 1 + Run(text, b + 1, DashOrSpace);
          var d := Run(text, c, IsDigit);
          if d > 0 then c + d - pos else 0
  }

  function MatchAt(p: Pattern, text: String, pos: nat): (n: nat)
    requires pos <= |text|
    ensures pos + n <= |text|
  {
    match p
    case Email => MatchEmail(text, pos)
    case Phone => MatchPhone(text, pos)
    case Url => MatchUrl(text, pos)
    case Domain => MatchDomain(text, pos)
    case Org => MatchOrg(text, pos)
    case Ticket => MatchTicket(text, pos)
    case PartnerId => MatchPartnerId(text, pos)
  }


  // ---------------------------------------------------------------------------
  // re.sub and the rule table
  // ---------------------------------------------------------------------------

  /** A match length for every position of `text` (0: none), each match inside the text. */
  predicate MatchTable(text: String, m: seq<nat>) {
    |m| == |text| && forall q :: 0 <= q < |m| ==> q + m[q] <= |text|
  }

  /** What the pattern matches at each position of `text`. */
  function Matches(p: Pattern, text: String): (m: seq<nat>)
    ensures MatchTable(text, m)
  {
    seq(|text|, q requires 0 <= q < |text| => MatchAt(p, text, q))
  }

  /**
    `re.sub` from `pos` on, given the pattern's match table `m`: where a
    match starts it is replaced by `repl` and the scan resumes after it;
    elsewhere the character is copied.
   */
  function Scan(text: String, m: seq<nat>, repl: String, pos: nat): String
    requires MatchTable(text, m) && pos <= |text|
    decreases |text| - pos
  {
    if pos == |text| then []
    else if m[pos] > 0 then repl + Scan(text, m, repl, pos + m[pos])
    else [text[pos]] + Scan(text, m, repl, pos + 1)
  }

  /** `COMPILED_PATTERNS[label].sub("[MASKED_<label>]", text)` */
  function Sub(p: Pattern, text: String): String {
    Scan(text, Matches(p, text), Placeholder(Label(p)), 0)
  }

  /** The loop of `mask_custom_patterns` over a list of rules. */
  function ApplyRules(rules: seq<Pattern>, text: String): String
    decreases |rules|
  {
    if |rules| == 0 then text else ApplyRules(rules[1..], Sub(rules[0], text))
  }

  function MaskCustomPatterns(text: String): String {
    ApplyRules(Rules, text)
  }

  // ---------------------------------------------------------------------------
  // Lemmas: the scan and the rule table
  // ---------------------------------------------------------------------------

  /** Every label is one the placeholder pattern accepts. */
  lemma LabelsAreLabels(p: Pattern)
    ensures IsLabel(Label(p))
  {
  }

  /** Running a list of rules is running its first part and then the rest on the result. */
  lemma {:induction false} ApplyRulesConcat(a: seq<Pattern>, b: seq<Pattern>, text: String)
    ensures ApplyRules(a + b, text) == ApplyRules(b, ApplyRules(a, text))
    decreases |a|
  {
    if |a| == 0 {
      assert a + b == b;
    } else {
      assert (a + b)[0] == a[0];
      assert (a + b)[1..] == a[1..] + b;
      ApplyRulesConcat(a[1..], b, Sub(a[0], text));
    }
  }

  /**
    The rules run in the fixed order EMAIL, PHONE, URL, DOMAIN, ORG, TICKET,
    PARTNER_ID, each on the previous one's output.
   */
  lemma RuleOrder(text: String)
    ensures MaskCustomPatterns(text) ==
      Sub(PartnerId, Sub(Ticket, Sub(Org, Sub(Domain, Sub(Url, Sub(Phone, Sub(Email, text)))))))
  {
    var t1 := Sub(Email, text);
    var t2 := Sub(Phone, t1);
    var t3 := Sub(Url, t2);
    var t4 := Sub(Domain, t3);
    var t5 := Sub(Org, t4);
    var t6 := Sub(Ticket, t5);
    var t7 := Sub(PartnerId, t6);
    ApplyRulesCons(PartnerId, [], t6);
    ApplyRulesCons(Ticket, [PartnerId], t5);
    ApplyRulesCons(Org, [Ticket, PartnerId], t4);
    ApplyRulesCons(Domain, [Org, Ticket, PartnerId], t3);
    ApplyRulesCons(Url, [Domain, Org, Ticket, PartnerId], t2);
    ApplyRulesCons(Phone, [Url, Domain, Org, Ticket, PartnerId], t1);
    ApplyRulesCons(Email, [Phone, Url, Domain, Org, Ticket, PartnerId], text);
  }

  lemma ApplyRulesCons(p: Pattern, rest: seq<Pattern>, text: String)
    ensures ApplyRules([p] + rest, text) == ApplyRules(rest, Sub(p, text))
  {
    assert ([p] + rest)[1..] == rest;
  }

  /** Where nothing matches, the scan copies the text. */
  lemma {:induction false} ScanWithoutMatch(text: String, m: seq<nat>, repl: String, pos: nat)
    requires MatchTable(text, m) && pos <= |text|
    requires forall q :: pos <= q < |text| ==> m[q] == 0
    ensures Scan(text, m, repl, pos) == text[pos..]
    decreases |text| - pos
  {
    if pos < |text| {
      ScanWithoutMatch(text, m, repl, pos + 1);
      assert text[pos..] == [text[pos]] + text[pos + 1..];
    }
  }

  /** A pass whose pattern matches nowhere in the text returns the text unchanged. */
  lemma SubWithoutMatch(p: Pattern, text: String)
    requires forall q :: 0 <= q < |text| ==> MatchAt(p, text, q) == 0
    ensures Sub(p, text) == text
  {
    ScanWithoutMatch(text, Matches(p, text), Placeholder(Label(p)), 0);
    assert text[0..] == text;
  }

  /** Where no match starts in `pos .. q`, the scan copies `text[pos..q]` unchanged. */
  lemma {:induction false} ScanCopies(text: String, m: seq<nat>, repl: String, pos: nat, q: nat)
    requires MatchTable(text, m) && pos <= q <= |text|
    requires forall r :: pos <= r < q ==> m[r] == 0
    ensures Scan(text, m, repl, pos) == text[pos..q] + Scan(text, m, repl, q)
    decreases q - pos
  {
    if pos < q {
      ScanCopies(text, m, repl, pos + 1, q);
      assert text[pos..q] == [text[pos]] + text[pos + 1..q];
      SeqAssoc([text[pos]], text[pos + 1..q], Scan(text, m, repl, q));
    } else {
      assert text[pos..q] == [];
    }
  }

  /**
    `re.sub` one match at a time: the text up to the leftmost match is
    copied, the match is replaced, and the scan resumes right after it.
   */
  lemma ScanLeftmost(text: String, m: seq<nat>, repl: String, pos: nat, q: nat)
    requires MatchTable(text, m) && pos <= q < |text|
    requires forall r :: pos <= r < q ==> m[r] == 0
    requires m[q] > 0
    ensures Scan(text, m, repl, pos) == text[pos..q] + repl + Scan(text, m, repl, q + m[q])
  {
    ScanCopies(text, m, repl, pos, q);
    SeqAssoc(text[pos..q], repl, Scan(text, m, repl, q + m[q]));
  }

  /**
    A pass on a text whose leftmost match starts at `q`: the text before
    `q` is kept as it is and the match becomes the rule's placeholder.
   */
  lemma SubLeftmost(p: Pattern, text: String, q: nat)
    requires q < |text| && MatchAt(p, text, q) > 0
    requires forall r :: 0 <= r < q ==> MatchAt(p, text, r) == 0
    ensures StartsWith(Sub(p, text), text[..q] + Placeholder(Label(p)))
  {
    var m := Matches(p, text);
    var repl := Placeholder(Label(p));
    ScanLeftmost(text, m, repl, 0, q);
    var rest := Scan(text, m, repl, q + m[q]);
    assert text[0..q] == text[..q];
    assert (text[..q] + repl + rest)[..q + |repl|] == text[..q] + repl;
  }

  /** The output of the scan at `pos` begins with the copied character or with the replacement. */
  lemma ScanHead(text: String, m: seq<nat>, repl: String, pos: nat)
    requires MatchTable(text, m) && pos < |text| && |repl| > 0
    ensures |Scan(text, m, repl, pos)| > 0
    ensures m[pos] > 0 ==> Scan(text, m, repl, pos)[0] == repl[0]
    ensures m[pos] == 0 ==> Scan(text, m, repl, pos)[0] == text[pos]
  {
  }

  lemma PlaceholderShape(p: Pattern)
    ensures var r := Placeholder(Label(p));
      |r| > 0 && r[0] == '[' && r[|r| - 1] == ']' && '#' !in r
  {
    var r := Placeholder(Label(p));
    assert forall i :: 0 <= i < |r| ==> r[i] == '[' || r[i] == ']' || r[i] == '_' || 'A' <= r[i] <= 'Z';
  }

  // ---------------------------------------------------------------------------
  // Lemmas: TICKET
  // ---------------------------------------------------------------------------

  /** No '#' is immediately followed by a digit. */
  predicate NoHashDigit(s: String) {
    forall i :: 0 <= i < |s| - 1 ==> !(s[i] == '#' && IsDigit(s[i + 1]))
  }

  /** `#\d+` matches exactly at a '#' followed by a digit, and takes every digit that follows. */
  lemma TicketMatch(text: String, pos: nat)
    requires pos <= |text|
    ensures MatchTicket(text, pos) > 0 <==> pos + 1 < |text| && text[pos] == '#' && IsDigit(text[pos + 1])
    ensures var n := MatchTicket(text, pos);
      n > 0 ==> (forall i :: pos < i < pos + n ==> IsDigit(text[i])) && (pos + n == |text| || !IsDigit(text[pos + n]))
  {
  }

  lemma NoHashDigitConcat(a: String, b: String)
    requires NoHashDigit(a) && NoHashDigit(b)
    requires |a| > 0 && |b| > 0 ==> !(a[|a| - 1] == '#' && IsDigit(b[0]))
    ensures NoHashDigit(a + b)
  {
    var s := a + b;
    forall i | 0 <= i < |s| - 1
      ensures !(s[i] == '#' && IsDigit(s[i + 1]))
    {
      if i + 1 < |a| {
        assert s[i] == a[i] && s[i + 1] == a[i + 1];
      } else if i >= |a| {
        assert s[i] == b[i - |a|] && s[i + 1] == b[i + 1 - |a|];
      } else {
        assert s[i] == a[|a| - 1] && s[i + 1] == b[0];
      }
    }
  }

  /**
    A scan whose replacement holds no '#' and does not start with a digit
    keeps every "'#' then digit" pair out of its output, as long as each
    such pair of the input starts a match.
   */
  lemma {:induction false} ScanNoHashDigit(text: String, m: seq<nat>, repl: String, pos: nat)
    requires MatchTable(text, m) && pos <= |text|
    requires |repl| > 0 && '#' !in repl && !IsDigit(repl[0])
    requires forall q :: pos <= q < |text| - 1 && text[q] == '#' && IsDigit(text[q + 1]) ==> m[q] > 0
    ensures NoHashDigit(Scan(text, m, repl, pos))
    decreases |text| - pos
  {
    if pos < |text| {
      var next := if m[pos] > 0 then pos + m[pos] else pos + 1;
      var piece := if m[pos] > 0 then repl else [text[pos]];
      var rest := Scan(text, m, repl, next);
      assert Scan(text, m, repl, pos) == piece + rest;
      ScanNoHashDigit(text, m, repl, next);
      if next < |text| {
        ScanHead(text, m, repl, next);
      }
      assert NoHashDigit(piece);
      if m[pos] > 0 {
        assert piece[|piece| - 1] in repl;
      } else if next < |text| && text[pos] == '#' {
        assert !IsDigit(text[pos + 1]);
        assert rest[0] == text[pos + 1] || rest[0] == repl[0];
      }
      NoHashDigitConcat(piece, rest);
    }
  }

  /** After the TICKET pass no '#' is immediately followed by a digit. */
  lemma TicketPassNoHashDigit(text: String)
    ensures NoHashDigit(Sub(Ticket, text))
  {
    var m := Matches(Ticket, text);
    forall q | 0 <= q < |text| - 1 && text[q] == '#' && IsDigit(text[q + 1])
      ensures m[q] > 0
    {
      TicketMatch(text, q);
    }
    PlaceholderShape(Ticket);
    ScanNoHashDigit(text, m, Placeholder(Label(Ticket)), 0);
  }

  /** Every pass keeps a text free of '#' followed by a digit. */
  lemma SubKeepsNoHashDigit(p: Pattern, text: String)
    requires NoHashDigit(text)
    ensures NoHashDigit(Sub(p, text))
  {
    PlaceholderShape(p);
    ScanNoHashDigit(text, Matches(p, text), Placeholder(Label(p)), 0);
  }

  /**
    After the TICKET pass, and so also in the output of the whole rule
    table, no '#' is immediately followed by a digit.
   */
  lemma RegexPassNoHashDigit(text: String)
    ensures NoHashDigit(ApplyRules(Rules[..6], text))
    ensures NoHashDigit(MaskCustomPatterns(text))
  {
    var first5 := Rules[..5];
    ApplyRulesConcat(first5, [Ticket], text);
    assert Rules[..6] == first5 + [Ticket];
    TicketPassNoHashDigit(ApplyRules(first5, text));
    ApplyRulesConcat(Rules[..6], [PartnerId], text);
    assert Rules == Rules[..6] + [PartnerId];
    SubKeepsNoHashDigit(PartnerId, ApplyRules(Rules[..6], text));
  }

  // ---------------------------------------------------------------------------
  // Lemmas: what the other patterns match
  // ---------------------------------------------------------------------------

  /** An address run, '@' at `at`, and at least one address character after it. */
  predicate EmailShapeAt(text: String, pos: nat, at: nat) {
    pos < at < |text| - 1 && text[at] == '@' && AddressChar(text[at + 1])
    && forall i :: pos <= i < at ==> AddressChar(text[i])
  }

  /**
    EMAIL matches at `pos` exactly when an address run followed by '@' and
    another address character starts there; the match is one '@' between
    address characters, and takes the whole run after the '@'.
   */
  lemma EmailMatch(text: String, pos: nat)
    requires pos <= |text|
    ensures MatchEmail(text, pos) > 0 <==> exists at: nat :: EmailShapeAt(text, pos, at)
    ensures var n := MatchEmail(text, pos);
      n > 0 ==>
        (exists at: nat :: EmailShapeAt(text, pos, at) && forall i :: at < i < pos + n ==> AddressChar(text[i]))
        && (pos + n == |text| || !AddressChar(text[pos + n]))
  {
    var k := Run(text, pos, AddressChar);
    if MatchEmail(text, pos) > 0 {
      assert EmailShapeAt(text, pos, pos + k);
    }
    if exists at: nat :: EmailShapeAt(text, pos, at) {
      var at: nat :| EmailShapeAt(text, pos, at);
      assert !AddressChar(text[at]);
      assert pos + k == at;
    }
  }

  /**
    PHONE matches at `pos` exactly when an optional '+', a digit and at
    least seven digits, whitespace or dashes start there.
   */
  lemma PhoneMatch(text: String, pos: nat)
    requires pos <= |text|
    ensures var d := if pos < |text| && text[pos] == '+' then pos + 1 else pos;
      MatchPhone(text, pos) > 0 <==>
        d + 8 <= |text| && IsDigit(text[d]) && forall i :: d < i <= d + 7 ==> PhoneChar(text[i])
  {
    var d := if pos < |text| && text[pos] == '+' then pos + 1 else pos;
    if d < |text| && IsDigit(text[d]) {
      var r := Run(text, d + 1, PhoneChar);
      assert MatchPhone(text, pos) > 0 <==> r >= 7;
      if d + 8 <= |text| && forall i :: d < i <= d + 7 ==> PhoneChar(text[i]) {
        RunAtLeast(text, d + 1, PhoneChar, 7);
      }
    }
  }

  /** A PHONE match takes the whole run of digits, whitespace and dashes after its first digit. */
  lemma PhoneMatchRun(text: String, pos: nat)
    requires pos <= |text|
    ensures var n := MatchPhone(text, pos);
      n > 0 ==>
        (forall i :: pos < i < pos + n ==> PhoneChar(text[i]))
        && (pos + n == |text| || !PhoneChar(text[pos + n]))
  {
    var n := MatchPhone(text, pos);
    if n > 0 {
      var d := if pos < |text| && text[pos] == '+' then pos + 1 else pos;
      var r := Run(text, d + 1, PhoneChar);
      assert n == d + 1 + r - pos;
      assert PhoneChar(text[d]);
    }
  }

  /**
    URL matches at `pos` exactly when "http://" or "https://" and a
    non-space character start there; the match runs to the next whitespace.
   */
  lemma UrlMatch(text: String, pos: nat)
    requires pos <= |text|
    ensures MatchUrl(text, pos) > 0 <==>
      (StartsWith(text[pos..], "http://") && pos + 7 < |text| && NotSpace(text[pos + 7]))
      || (StartsWith(text[pos..], "https://") && pos + 8 < |text| && NotSpace(text[pos + 8]))
    ensures var n := MatchUrl(text, pos);
      n > 0 ==>
        StartsWith(text[pos..], "http") && (forall i :: pos + 7 <= i < pos + n ==> NotSpace(text[i]))
        && (pos + n == |text| || IsSpace(text[pos + n]))
  {
    if StartsWith(text[pos..], "https://") {
      assert text[pos..][..7] != "http://" by {
        assert text[pos..][4] == 's';
      }
      assert text[pos..][4] == text[pos + 4];
      assert text[pos..][..4] == text[pos..][..8][..4];
    } else if StartsWith(text[pos..], "http://") {
      assert text[pos..][..4] == text[pos..][..7][..4];
    }
    if StartsWith(text[pos..], "http://") || StartsWith(text[pos..], "https://") {
      assert forall j :: 0 <= j < 8 && pos + j < |text| ==> text[pos..][j] == text[pos + j];
    }
  }

  /** Every character in `pos .. q` is an address character. */
  predicate AddressRun(text: String, pos: nat, q: nat)
    requires pos <= q <= |text|
  {
    forall i :: pos <= i < q ==> AddressChar(text[i])
  }

  /** A run of address characters from `pos` lies inside the greedy run. */
  lemma AddressRunInsideRun(text: String, pos: nat, q: nat)
    requires pos <= q <= |text| && AddressRun(text, pos, q)
    ensures q <= pos + Run(text, pos, AddressChar)
  {
  }

  /**
    DOMAIN matches at `pos` exactly when `pos` is a word boundary and a
    ".com" (any case) ending on a word boundary closes a run of address
    characters from `pos`.
   */
  lemma DomainMatch(text: String, pos: nat)
    requires pos <= |text|
    ensures MatchDomain(text, pos) > 0 <==>
      Boundary(text, pos)
      && exists q: nat :: pos + 4 <= q <= |text| && ComEndsAt(text, q) && AddressRun(text, pos, q)
  {
    var r := Run(text, pos, AddressChar);
    if Boundary(text, pos) && exists q: nat :: pos + 4 <= q <= |text| && ComEndsAt(text, q) && AddressRun(text, pos, q) {
      var q: nat :| pos + 4 <= q <= |text| && ComEndsAt(text, q) && AddressRun(text, pos, q);
      AddressRunInsideRun(text, pos, q);
    }
  }

  /** The DOMAIN match is such a run and ends at the last ".com" of it that ends on a word boundary. */
  lemma DomainMatchIsLast(text: String, pos: nat)
    requires pos <= |text|
    ensures var n := MatchDomain(text, pos);
      n > 0 ==>
        ComEndsAt(text, pos + n) && AddressRun(text, pos, pos + n)
        && forall q: nat :: pos + n < q <= |text| && AddressRun(text, pos, q) ==> !ComEndsAt(text, q)
  {
    var n := MatchDomain(text, pos);
    forall q: nat | pos + n < q <= |text| && AddressRun(text, pos, q)
      ensures n > 0 ==> !ComEndsAt(text, q)
    {
      AddressRunInsideRun(text, pos, q);
    }
  }

  lemma InSlice(s: String, lo: nat, hi: nat, k: nat)
    requires lo <= k < hi <= |s|
    ensures s[k] in s[lo..hi]
  {
    assert s[lo..hi][k - lo] == s[k];
  }

  /** A part of a case-folded occurrence is a case-folded occurrence. */
  lemma FoldedAtPart(text: String, pos: nat, w: String, j: nat, k: nat)
    requires FoldedAt(text, pos, w) && j <= k <= |w|
    ensures FoldedAt(text, pos + j, w[j..k])
  {
    var u := text[pos..pos + |w|];
    assert forall i :: 0 <= i < k - j ==> text[pos + j..pos + k][i] == u[j..k][i];
    assert text[pos + j..pos + k] == u[j..k];
    assert forall i :: 0 <= i < k - j ==> Lower(u[j..k])[i] == Lower(u)[j + i];
  }

  /** PARTNER_ID matches only where "partner" (any case) starts, and its match holds a ':'. */
  lemma PartnerIdMatch(text: String, pos: nat)
    requires pos <= |text|
    ensures var n := MatchPartnerId(text, pos);
      n > 0 ==> FoldedAt(text, pos, "partner") && ':' in text[pos..pos + n]
  {
    PartnerIdColon(text, pos);
    if MatchPartnerId(text, pos) > 0 {
      var a := pos + 7 + Run(text, pos + 7, IsSpace);
      InSlice(text, pos, pos + MatchPartnerId(text, pos), a + 2 + Run(text, a + 2, IsSpace));
    }
  }

  /** A PARTNER_ID match ends with the whole run of digits that follows its ':'. */
  lemma PartnerIdMatchDigits(text: String, pos: nat)
    requires pos <= |text|
    ensures var n := MatchPartnerId(text, pos);
      n > 0 ==> IsDigit(text[pos + n - 1]) && (pos + n == |text| || !IsDigit(text[pos + n]))
  {
    var n := MatchPartnerId(text, pos);
    if n > 0 {
      var a := pos + 7 + Run(text, pos + 7, IsSpace);
      var b := a + 2 + Run(text, a + 2, IsSpace);
      var c := b + 1 + Run(text, b + 1, DashOrSpace);
      var d := Run(text, c, IsDigit);
      assert n == c + d - pos && d > 0;
    }
  }

  /** "partnerId:" (any case) directly followed by a digit is matched. */
  lemma PartnerIdCompact(text: String, pos: nat)
    requires pos <= |text|
    ensures FoldedAt(text, pos, "partnerid:") && pos + 10 < |text| && IsDigit(text[pos + 10]) ==>
      MatchPartnerId(text, pos) > 0
  {
    if FoldedAt(text, pos, "partnerid:") && pos + 10 < |text| && IsDigit(text[pos + 10]) {
      var w := "partnerid:";
      FoldedAtPart(text, pos, w, 0, 7);
      FoldedAtPart(text, pos, w, 7, 9);
      FoldedAtPart(text, pos, w, 9, 10);
      assert w[0..7] == "partner" && w[7..9] == "id" && w[9..10] == ":";
      assert Lower(text[pos + 7..pos + 9])[0] == 'i';
      assert Run(text, pos + 7, IsSpace) == 0;
      assert Lower(text[pos + 9..pos + 10])[0] == ':';
      assert text[pos + 9] == ':';
      assert Run(text, pos + 9, IsSpace) == 0;
      assert Run(text, pos + 10, DashOrSpace) == 0;
    }
  }

  // ---------------------------------------------------------------------------
  // Lemmas: ORG
  // ---------------------------------------------------------------------------

  /**
    `s` begins with a whole-word "sprinklr" in any case, given whether the
    character before `s` is a word character.
   */
  predicate BrandHere(s: String, wordBefore: bool) {
    !wordBefore && |s| >= 8 && Lower(s[..8]) == Brand && (|s| == 8 || !IsWordChar(s[8]))
  }

  /** No suffix of `s` begins with a whole-word "sprinklr". */
  predicate NoBrandFrom(s: String, wordBefore: bool)
    decreases |s|
  {
    !BrandHere(s, wordBefore) && (|s| > 0 ==> NoBrandFrom(s[1..], IsWordChar(s[0])))
  }

  /** "sprinklr" in any case starts and ends with a word character. */
  lemma BrandEnds(s: String)
    requires |s| >= 8 && Lower(s[..8]) == Brand
    ensures IsWordChar(s[0]) && IsWordChar(s[7])
  {
    assert LowerChar(s[0]) == Lower(s[..8])[0] == 's';
    assert LowerChar(s[7]) == Lower(s[..8])[7] == 'r';
  }

  /** The ORG pattern matches at `pos` exactly when a whole-word "sprinklr" starts there. */
  lemma OrgMatchIsBrand(text: String, pos: nat)
    requires pos <= |text|
    ensures MatchOrg(text, pos) > 0 <==> BrandHere(text[pos..], WordBefore(text, pos))
  {
    if pos + 8 <= |text| {
      var s := text[pos..];
      assert s[..8] == text[pos..pos + 8];
      if Lower(s[..8]) == Brand {
        BrandEnds(s);
        if pos + 8 < |text| {
          assert s[8] == text[pos + 8];
        }
      }
    }
  }

  /** A window of eight characters holding a character that is not a letter is not "sprinklr". */
  lemma NotBrandWindow(s: String, k: nat)
    requires |s| >= 8 && k < 8 && !IsLetter(s[k])
    ensures Lower(s[..8]) != Brand
  {
    assert Lower(s[..8])[k] == LowerChar(s[k]) == s[k];
  }

  /** The suffixes of a placeholder followed by `rest` start no whole-word "sprinklr". */
  lemma {:induction false} PlaceholderSuffixNoBrand(category: String, rest: String, j: nat)
    requires IsLabel(category)
    requires 0 < j <= |Placeholder(category)|
    requires NoBrandFrom(rest, false)
    ensures NoBrandFrom((Placeholder(category) + rest)[j..], IsWordChar(Placeholder(category)[j - 1]))
    decreases |Placeholder(category)| - j
  {
    var p := Placeholder(category);
    var s := p + rest;
    var t := s[j..];
    if j == |p| {
      assert t == rest;
      assert p[j - 1] == ']';
    } else {
      PlaceholderSuffixNoBrand(category, rest, j + 1);
      assert t[1..] == s[j + 1..];
      assert t[0] == p[j];
      if |t| >= 8 {
        if j <= 7 {
          assert t[7 - j] == p[7] == '_';
          NotBrandWindow(t, 7 - j);
        } else if j == |p| - 1 {
          assert t[0] == ']';
          NotBrandWindow(t, 0);
        } else {
          assert p[j - 1] == '_' || IsLabelChar(category[j - 1 - |Opener|]);
          assert IsWordChar(p[j - 1]);
        }
      }
    }
  }

  /** A placeholder shields what follows it: it neither holds nor completes a whole-word "sprinklr". */
  lemma PlaceholderNoBrand(category: String, rest: String, wordBefore: bool)
    requires IsLabel(category)
    requires NoBrandFrom(rest, false)
    ensures NoBrandFrom(Placeholder(category) + rest, wordBefore)
  {
    var s := Placeholder(category) + rest;
    PlaceholderSuffixNoBrand(category, rest, 1);
    assert s[0] == '[';
    NotBrandWindow(s, 0);
  }

  /**
    While the output of the scan shows only letters it copies the input:
    its first `k` characters are letters only if they are the next `k`
    input characters, none of which starts a match, and the output then
    goes on with the next input character or the replacement.
   */
  lemma {:induction false} LetterPrefix(text: String, m: seq<nat>, repl: String, pos: nat, k: nat)
    requires MatchTable(text, m) && pos <= |text|
    requires |repl| > 0 && !IsLetter(repl[0])
    requires k <= |Scan(text, m, repl, pos)|
    requires forall i :: 0 <= i < k ==> IsLetter(Scan(text, m, repl, pos)[i])
    ensures pos + k <= |text|
    ensures Scan(text, m, repl, pos)[..k] == text[pos..pos + k]
    ensures |Scan(text, m, repl, pos)| == k ==> pos + k == |text|
    ensures |Scan(text, m, repl, pos)| > k ==> pos + k < |text|
    ensures |Scan(text, m, repl, pos)| > k ==>
      Scan(text, m, repl, pos)[k] == text[pos + k] || (Scan(text, m, repl, pos)[k] == repl[0] && m[pos + k] > 0)
    decreases k
  {
    var o := Scan(text, m, repl, pos);
    if k == 0 {
      if pos < |text| {
        ScanHead(text, m, repl, pos);
      }
    } else {
      ScanHead(text, m, repl, pos);
      assert m[pos] == 0;
      var o' := Scan(text, m, repl, pos + 1);
      assert o == [text[pos]] + o';
      assert forall i :: 0 <= i < k - 1 ==> o'[i] == o[i + 1];
      LetterPrefix(text, m, repl, pos + 1, k - 1);
      assert o[..k] == [text[pos]] + o'[..k - 1];
      assert text[pos..pos + k] == [text[pos]] + text[pos + 1..pos + k];
      if |o| > k {
        assert o[k] == o'[k - 1];
      }
    }
  }

  /**
    The context a scan position leaves: the output so far ends in a word
    character exactly when the input does, or it ends in a placeholder and
    the input resumes with a non-word character.
   */
  predicate ScanContext(text: String, pos: nat, wordBefore: bool) {
    wordBefore == WordBefore(text, pos) || (!wordBefore && !WordAfter(text, pos))
  }

  /** The ORG pass's output from `pos` on. */
  function OrgScan(text: String, pos: nat): String
    requires pos <= |text|
  {
    Scan(text, Matches(Org, text), Placeholder(Label(Org)), pos)
  }

  /** A whole-word "sprinklr" at the head of the ORG pass's output would have been matched. */
  lemma BrandInOutputWasMatched(text: String, pos: nat, wordBefore: bool)
    requires pos <= |text|
    requires ScanContext(text, pos, wordBefore)
    ensures BrandHere(OrgScan(text, pos), wordBefore) ==> MatchOrg(text, pos) > 0
  {
    var m := Matches(Org, text);
    var repl := Placeholder(Label(Org));
    var o := OrgScan(text, pos);
    if BrandHere(o, wordBefore) {
      assert forall i :: 0 <= i < 8 ==> LowerChar(o[i]) == Lower(o[..8])[i] == Brand[i];
      assert forall i :: 0 <= i < 8 ==> IsLetter(o[i]);
      LetterPrefix(text, m, repl, pos, 8);
      assert text[pos..][..8] == o[..8];
      BrandEnds(text[pos..]);
      if |o| > 8 && o[8] == '[' && m[pos + 8] > 0 {
        assert MatchOrg(text, pos + 8) > 0;
      }
      assert Boundary(text, pos + 8);
      OrgMatchIsBrand(text, pos);
    }
  }

  /** The ORG pass leaves no whole-word "sprinklr" in what it outputs from `pos` on. */
  lemma {:induction false} OrgPassFrom(text: String, pos: nat, wordBefore: bool)
    requires pos <= |text|
    requires ScanContext(text, pos, wordBefore)
    ensures NoBrandFrom(OrgScan(text, pos), wordBefore)
    decreases |text| - pos
  {
    if pos < |text| {
      var m := Matches(Org, text);
      var repl := Placeholder(Label(Org));
      BrandInOutputWasMatched(text, pos, wordBefore);
      assert m[pos] == MatchOrg(text, pos);
      if m[pos] > 0 {
        OrgMatchIsBrand(text, pos);
        BrandEnds(text[pos..]);
        assert text[pos..][7] == text[pos + 7];
        OrgPassFrom(text, pos + 8, false);
        assert OrgScan(text, pos) == repl + OrgScan(text, pos + 8);
        PlaceholderNoBrand(Label(Org), OrgScan(text, pos + 8), wordBefore);
      } else {
        OrgPassFrom(text, pos + 1, IsWordChar(text[pos]));
        assert OrgScan(text, pos) == [text[pos]] + OrgScan(text, pos + 1);
      }
    }
  }

  /** A text none of whose suffixes starts a whole-word "sprinklr" gives the ORG pattern no match. */
  lemma {:induction false} NoBrandNoMatch(s: String, i: nat)
    requires i <= |s|
    requires NoBrandFrom(s[i..], WordBefore(s, i))
    ensures forall j :: i <= j <= |s| ==> MatchOrg(s, j) == 0
    decreases |s| - i
  {
    OrgMatchIsBrand(s, i);
    if i < |s| {
      assert s[i..][1..] == s[i + 1..];
      NoBrandNoMatch(s, i + 1);
    }
  }

  /**
    After the ORG pass no whole-word "sprinklr" in any case remains: the
    ORG pattern matches nowhere in its output.
   */
  lemma OrgPassNoBrand(text: String)
    ensures var r := Sub(Org, text); forall j :: 0 <= j <= |r| ==> MatchOrg(r, j) == 0
  {
    var r := Sub(Org, text);
    OrgPassFrom(text, 0, false);
    assert r == OrgScan(text, 0) && r[0..] == r;
    NoBrandNoMatch(r, 0);
  }

  /** The same, stated on the rule table: the output of its first five rules (up to ORG). */
  lemma AfterOrgPassNoBrand(text: String)
    ensures var r := ApplyRules(Rules[..5], text); forall j :: 0 <= j <= |r| ==> MatchOrg(r, j) == 0
  {
    ApplyRulesConcat(Rules[..4], [Org], text);
    assert Rules[..5] == Rules[..4] + [Org];
    OrgPassNoBrand(ApplyRules(Rules[..4], text));
  }

  // ---------------------------------------------------------------------------
  // Lemmas: the rules keep earlier placeholders whole
  // ---------------------------------------------------------------------------

  /** `text[i..e]` is a placeholder: '[', 'M' and further label characters, ']'. */
  predicate PlaceholderAt(text: String, i: nat, e: nat) {
    && i + 2 < e <= |text|
    && text[i] == '[' && text[i + 1] == 'M' && text[e - 1] == ']'
    && forall k :: i < k < e - 1 ==> IsLabelChar(text[k])
  }

  lemma PlaceholderAtOfMatch(text: String, i: nat)
    requires i < |text| && MatchLength(text[i..]) > 0
    ensures PlaceholderAt(text, i, i + MatchLength(text[i..]))
  {
    var s := text[i..];
    var n := MatchLength(s);
    MatchLengthExact(s);
    var t := s[..n];
    var category := t[|Opener|..n - 1];
    assert t[..|Opener|] == Opener;
    assert forall k :: 1 <= k < |Opener| ==> IsLabelChar(Opener[k]);
    forall k | i < k < i + n - 1
      ensures IsLabelChar(text[k])
    {
      assert text[k] == t[k - i];
      if k - i < |Opener| {
        assert t[k - i] == Opener[k - i];
      } else {
        assert t[k - i] == category[k - i - |Opener|];
      }
    }
  }

  /** Where a lower-case word occurs with case ignored, the text has letters. */
  lemma FoldedChars(text: String, pos: nat, w: String)
    requires FoldedAt(text, pos, w)
    requires forall k :: 0 <= k < |w| ==> 'a' <= w[k] <= 'z'
    ensures forall t :: pos <= t < pos + |w| ==> IsLetter(text[t])
  {
    var u := text[pos..pos + |w|];
    forall t | pos <= t < pos + |w|
      ensures IsLetter(text[t])
    {
      assert u[t - pos] == text[t];
      assert LowerChar(text[t]) == w[t - pos];
    }
  }

  /** `w` does not occur (any case) where the first character does not fold to `w[0]`. */
  lemma NotFoldedAt(text: String, pos: nat, w: String)
    requires pos < |text| && |w| > 0 && LowerChar(text[pos]) != w[0]
    ensures !FoldedAt(text, pos, w)
  {
    assert pos + |w| <= |text| ==> Lower(text[pos..pos + |w|])[0] == LowerChar(text[pos]);
  }

  /** A run of `p`-characters ends at the first character that is not one. */
  lemma RunStopsAt(text: String, pos: nat, p: char -> bool, q: nat)
    requires pos <= q < |text| && !p(text[q])
    requires forall k :: pos <= k < q ==> p(text[k])
    ensures Run(text, pos, p) == q - pos
  {
  }

  /** Where the address run from `j` stops inside a placeholder. */
  function AddressStop(i: nat, e: nat, j: nat): nat
    requires i < e
  {
    if j == i then i else e - 1
  }

  lemma AddressRunInPlaceholder(text: String, i: nat, e: nat, j: nat)
    requires PlaceholderAt(text, i, e) && i <= j < e
    ensures Run(text, j, AddressChar) == AddressStop(i, e, j) - j
    ensures text[AddressStop(i, e, j)] in "[]"
  {
    RunStopsAt(text, j, AddressChar, AddressStop(i, e, j));
  }

  lemma EmailNotInPlaceholder(text: String, i: nat, e: nat, j: nat)
    requires PlaceholderAt(text, i, e) && i <= j < e
    ensures MatchEmail(text, j) == 0
  {
    AddressRunInPlaceholder(text, i, e, j);
  }

  lemma PhoneNotInPlaceholder(text: String, i: nat, e: nat, j: nat)
    requires PlaceholderAt(text, i, e) && i <= j < e
    ensures MatchPhone(text, j) == 0
  {
    assert text[j] == '[' || text[j] == ']' || IsLabelChar(text[j]);
  }

  lemma UrlNotInPlaceholder(text: String, i: nat, e: nat, j: nat)
    requires PlaceholderAt(text, i, e) && i <= j < e
    ensures MatchUrl(text, j) == 0
  {
    assert text[j] != 'h';
    assert text[j..][0] == text[j];
  }

  lemma DomainNotInPlaceholder(text: String, i: nat, e: nat, j: nat)
    requires PlaceholderAt(text, i, e) && i <= j < e
    ensures MatchDomain(text, j) == 0
  {
    AddressRunInPlaceholder(text, i, e, j);
    var hi := AddressStop(i, e, j);
    forall q | j + 4 <= q <= hi
      ensures !ComEndsAt(text, q)
    {
      NotFoldedAt(text, q - 4, ".com");
    }
  }

  lemma OrgNotInPlaceholder(text: String, i: nat, e: nat, j: nat)
    requires PlaceholderAt(text, i, e) && i <= j < e
    ensures MatchOrg(text, j) == 0
  {
    if text[j] == 'S' {
      assert IsLabelChar(text[j - 1]);
      assert !Boundary(text, j);
    } else {
      NotFoldedAt(text, j, Brand);
    }
  }

  lemma TicketNotInPlaceholder(text: String, i: nat, e: nat, j: nat)
    requires PlaceholderAt(text, i, e) && i <= j < e
    ensures MatchTicket(text, j) == 0
  {
    assert text[j] == '[' || text[j] == ']' || IsLabelChar(text[j]);
  }

  /**
    A lower-case word found (any case) inside a placeholder ends before
    its ']', so the next character is a label character or the ']'.
   */
  lemma FoldedInPlaceholder(text: String, i: nat, e: nat, j: nat, w: String)
    requires PlaceholderAt(text, i, e) && i <= j < e
    requires FoldedAt(text, j, w) && |w| > 0
    requires forall k :: 0 <= k < |w| ==> 'a' <= w[k] <= 'z'
    ensures j + |w| < e
    ensures text[j + |w|] != ':' && Run(text, j + |w|, IsSpace) == 0
  {
    FoldedChars(text, j, w);
    assert j + |w| < e;
    RunStopsAt(text, j + |w|, IsSpace, j + |w|);
  }

  /** The steps of a PARTNER_ID match up to its ':'. */
  lemma PartnerIdColon(text: String, pos: nat)
    requires pos <= |text|
    ensures MatchPartnerId(text, pos) > 0 ==>
      && FoldedAt(text, pos, "partner")
      && var a := pos + 7 + Run(text, pos + 7, IsSpace);
      && FoldedAt(text, a, "id")
      && var b := a + 2 + Run(text, a + 2, IsSpace);
      && b < |text| && text[b] == ':' && b < pos + MatchPartnerId(text, pos)
  {
  }

  lemma PartnerIdNotInPlaceholder(text: String, i: nat, e: nat, j: nat)
    requires PlaceholderAt(text, i, e) && i <= j < e
    ensures MatchPartnerId(text, j) == 0
  {
    PartnerIdColon(text, j);
    if FoldedAt(text, j, "partner") {
      FoldedInPlaceholder(text, i, e, j, "partner");
      if FoldedAt(text, j + 7, "id") {
        FoldedInPlaceholder(text, i, e, j + 7, "id");
      }
    }
  }

  /** No rule matches at a position inside a placeholder of `text`. */
  lemma NoMatchInPlaceholder(p: Pattern, text: String, i: nat, j: nat)
    requires i <= j < |text| && text[i] == '[' && j < i + MatchLength(text[i..])
    ensures MatchAt(p, text, j) == 0
  {
    PlaceholderAtOfMatch(text, i);
    var e := i + MatchLength(text[i..]);
    match p
    case Email => EmailNotInPlaceholder(text, i, e, j);
    case Phone => PhoneNotInPlaceholder(text, i, e, j);
    case Url => UrlNotInPlaceholder(text, i, e, j);
    case Domain => DomainNotInPlaceholder(text, i, e, j);
    case Org => OrgNotInPlaceholder(text, i, e, j);
    case Ticket => TicketNotInPlaceholder(text, i, e, j);
    case PartnerId => PartnerIdNotInPlaceholder(text, i, e, j);
  }

  /** No match of the table `m` starts inside a placeholder that begins at or after `pos`. */
  predicate PlaceholdersUnmatched(text: String, m: seq<nat>, pos: nat)
    requires MatchTable(text, m)
  {
    forall i, j :: pos <= i <= j < |text| && text[i] == '[' && j < i + MatchLength(text[i..]) ==> m[j] == 0
  }

  /**
    A scan whose replacement is a placeholder and whose matches never
    start inside a placeholder leaves every '[' opening a placeholder.
   */
  lemma {:induction false} ScanKeepsPlaceholders(text: String, m: seq<nat>, repl: String, pos: nat)
    requires MatchTable(text, m) && pos <= |text|
    requires OpenBracketsArePlaceholders(repl)
    requires OpenBracketsArePlaceholders(text[pos..])
    requires PlaceholdersUnmatched(text, m, pos)
    ensures OpenBracketsArePlaceholders(Scan(text, m, repl, pos))
    decreases |text| - pos
  {
    if pos < |text| {
      var next := if m[pos] > 0 then pos + m[pos] else if text[pos] == '[' then pos + MatchLength(text[pos..]) else pos + 1;
      OpenBracketsSuffix(text[pos..], next - pos);
      assert text[pos..][next - pos..] == text[next..];
      ScanKeepsPlaceholders(text, m, repl, next);
      var rest := Scan(text, m, repl, next);
      if m[pos] > 0 {
        OpenBracketsConcat(repl, rest);
      } else if text[pos] == '[' {
        ScanCopies(text, m, repl, pos, next);
        CopiedPlaceholder(text, pos);
        OpenBracketsConcat(text[pos..next], rest);
      } else {
        OpenBracketsOfBracketFree([text[pos]]);
        OpenBracketsConcat([text[pos]], rest);
      }
    }
  }

  /** The placeholder that starts at `pos` has no '[' but its first. */
  lemma CopiedPlaceholder(text: String, pos: nat)
    requires pos < |text| && MatchLength(text[pos..]) > 0
    ensures OpenBracketsArePlaceholders(text[pos..pos + MatchLength(text[pos..])])
  {
    OpenBracketsOfMatch(text[pos..]);
    assert text[pos..][..MatchLength(text[pos..])] == text[pos..pos + MatchLength(text[pos..])];
  }

  /** Each pass keeps every '[' opening a whole placeholder. */
  lemma SubKeepsPlaceholders(p: Pattern, text: String)
    requires OpenBracketsArePlaceholders(text)
    ensures OpenBracketsArePlaceholders(Sub(p, text))
  {
    var m := Matches(p, text);
    forall i, j | 0 <= i <= j < |text| && text[i] == '[' && j < i + MatchLength(text[i..])
      ensures m[j] == 0
    {
      NoMatchInPlaceholder(p, text, i, j);
    }
    assert text[0..] == text;
    LabelsAreLabels(p);
    OpenBracketsOfPlaceholder(Label(p));
    ScanKeepsPlaceholders(text, m, Placeholder(Label(p)), 0);
  }

  lemma {:induction false} RulesKeepPlaceholders(rules: seq<Pattern>, text: String)
    requires OpenBracketsArePlaceholders(text)
    ensures OpenBracketsArePlaceholders(ApplyRules(rules, text))
    decreases |rules|
  {
    if |rules| > 0 {
      SubKeepsPlaceholders(rules[0], text);
      RulesKeepPlaceholders(rules[1..], Sub(rules[0], text));
    }
  }

  /**
    On a text without '[', every '[' the regex stage leaves opens one of
    its placeholders: a later rule never matches inside an earlier rule's
    placeholder.
   */
  lemma RegexPassKeepsPlaceholders(text: String)
    requires '[' !in text
    ensures OpenBracketsArePlaceholders(MaskCustomPatterns(text))
    ensures Announces(MaskCustomPatterns(text), '[', "MASKED")
  {
    OpenBracketsOfBracketFree(text);
    RulesKeepPlaceholders(Rules, text);
    PlaceholdersAnnounce(MaskCustomPatterns(text));
  }

  // ---------------------------------------------------------------------------
  // Lemmas: the rule pass is not idempotent
  // ---------------------------------------------------------------------------

  lemma EmailNeedsAt(text: String, pos: nat)
    requires pos <= |text|
    ensures MatchEmail(text, pos) > 0 ==> '@' in text
  {
    var k := Run(text, pos, AddressChar);
    if 0 < k && pos + k < |text| && text[pos + k] == '@' {
      assert text[pos + k] in text;
    }
  }

  lemma UrlNeedsH(text: String, pos: nat)
    requires pos <= |text|
    ensures MatchUrl(text, pos) > 0 ==> 'h' in text
  {
    if MatchUrl(text, pos) > 0 {
      assert text[pos..][0] == 'h';
      assert text[pos] in text;
    }
  }

  lemma DomainNeedsDot(text: String, pos: nat)
    requires pos <= |text|
    ensures MatchDomain(text, pos) > 0 ==> '.' in text
  {
    if MatchDomain(text, pos) > 0 {
      var q := LastComEnd(text, pos, pos + Run(text, pos, AddressChar));
      assert Lower(text[q - 4..q])[0] == LowerChar(text[q - 4]);
      assert text[q - 4] in text;
    }
  }

  lemma TicketNeedsHash(text: String, pos: nat)
    requires pos <= |text|
    ensures MatchTicket(text, pos) > 0 ==> '#' in text
  {
    if MatchTicket(text, pos) > 0 {
      assert text[pos] in text;
    }
  }

  lemma PartnerIdNeedsColon(text: String, pos: nat)
    requires pos <= |text|
    ensures MatchPartnerId(text, pos) > 0 ==> ':' in text
  {
    var n := MatchPartnerId(text, pos);
    PartnerIdMatch(text, pos);
    if n > 0 {
      var k :| 0 <= k < n && text[pos..pos + n][k] == ':';
      assert text[pos + k] in text;
    }
  }

  lemma EmailPassWithoutAt(text: String)
    requires '@' !in text
    ensures Sub(Email, text) == text
  {
    forall q | 0 <= q < |text|
      ensures MatchAt(Email, text, q) == 0
    {
      EmailNeedsAt(text, q);
    }
    SubWithoutMatch(Email, text);
  }

  lemma UrlPassWithoutH(text: String)
    requires 'h' !in text
    ensures Sub(Url, text) == text
  {
    forall q | 0 <= q < |text|
      ensures MatchAt(Url, text, q) == 0
    {
      UrlNeedsH(text, q);
    }
    SubWithoutMatch(Url, text);
  }

  lemma DomainPassWithoutDot(text: String)
    requires '.' !in text
    ensures Sub(Domain, text) == text
  {
    forall q | 0 <= q < |text|
      ensures MatchAt(Domain, text, q) == 0
    {
      DomainNeedsDot(text, q);
    }
    SubWithoutMatch(Domain, text);
  }

  lemma TicketPassWithoutHash(text: String)
    requires '#' !in text
    ensures Sub(Ticket, text) == text
  {
    forall q | 0 <= q < |text|
      ensures MatchAt(Ticket, text, q) == 0
    {
      TicketNeedsHash(text, q);
    }
    SubWithoutMatch(Ticket, text);
  }

  lemma PartnerIdPassWithoutColon(text: String)
    requires ':' !in text
    ensures Sub(PartnerId, text) == text
  {
    forall q | 0 <= q < |text|
      ensures MatchAt(PartnerId, text, q) == 0
    {
      PartnerIdNeedsColon(text, q);
    }
    SubWithoutMatch(PartnerId, text);
  }

  lemma PhonePassWithoutDigit(text: String)
    requires forall i :: 0 <= i < |text| ==> !IsDigit(text[i])
    ensures Sub(Phone, text) == text
  {
    forall q | 0 <= q < |text|
      ensures MatchAt(Phone, text, q) == 0
    {
      PhoneMatch(text, q);
    }
    SubWithoutMatch(Phone, text);
  }

  /** A text that ends a TICKET match right before a whole-word brand. */
  const HashBeforeBrand: String := "#5sprinklr"

  lemma TicketThenBrand()
    ensures Placeholder("TICKET") + Brand == "[MASKED_TICKET]sprinklr"
  {
  }

  lemma TicketThenOrg()
    ensures Placeholder("TICKET") + Placeholder("ORG") == "[MASKED_TICKET][MASKED_ORG]"
  {
  }

  lemma HashBeforeBrandChars()
    ensures '@' !in HashBeforeBrand && 'h' !in HashBeforeBrand && '.' !in HashBeforeBrand
  {
  }

  lemma TicketThenBrandChars()
    ensures var x := Placeholder("TICKET") + Brand;
      '@' !in x && 'h' !in x && '.' !in x && ':' !in x
  {
    var x := Placeholder("TICKET") + Brand;
    TicketThenBrand();
    forall i | 0 <= i < |x|
      ensures x[i] != '@' && x[i] != 'h' && x[i] != '.' && x[i] != ':'
    {
      assert x[i] in "[MASKED_TICKET]sprinklr";
    }
  }

  lemma TicketThenBrandNoDigit()
    ensures var x := Placeholder("TICKET") + Brand;
      forall i :: 0 <= i < |x| ==> !IsDigit(x[i])
  {
    var x := Placeholder("TICKET") + Brand;
    TicketThenBrand();
    forall i | 0 <= i < |x|
      ensures !IsDigit(x[i])
    {
      assert x[i] in "[MASKED_TICKET]sprinklr";
    }
  }

  lemma TicketThenOrgChars()
    ensures var z := Placeholder("TICKET") + Placeholder("ORG");
      '#' !in z && ':' !in z
  {
    TicketThenOrg();
  }

  /** The lone digit of `HashBeforeBrand` is followed by a letter, too short for a phone number. */
  lemma PhonePassOnHashBeforeBrand()
    ensures Sub(Phone, HashBeforeBrand) == HashBeforeBrand
  {
    var t := HashBeforeBrand;
    forall q | 0 <= q < |t|
      ensures MatchAt(Phone, t, q) == 0
    {
      PhoneMatch(t, q);
    }
    SubWithoutMatch(Phone, t);
  }

  /** The only 's' of `HashBeforeBrand` follows the word character '5'. */
  lemma OrgPassOnHashBeforeBrand()
    ensures Sub(Org, HashBeforeBrand) == HashBeforeBrand
  {
    var t := HashBeforeBrand;
    forall q | 0 <= q < |t|
      ensures MatchAt(Org, t, q) == 0
    {
      if q != 2 {
        NotFoldedAt(t, q, Brand);
      }
    }
    SubWithoutMatch(Org, t);
  }

  lemma TicketAtHash()
    ensures MatchTicket(HashBeforeBrand, 0) == 2
  {
    TicketMatch(HashBeforeBrand, 0);
  }

  /** "#5" is one ticket match, and nothing after it matches. */
  lemma TicketPassOnHashBeforeBrand()
    ensures Sub(Ticket, HashBeforeBrand) == Placeholder("TICKET") + Brand
  {
    var t := HashBeforeBrand;
    var m := Matches(Ticket, t);
    var repl := Placeholder(Label(Ticket));
    TicketAtHash();
    assert t[2..] == Brand;
    forall q | 2 <= q < |t|
      ensures m[q] == 0
    {
      assert t[q] == Brand[q - 2];
    }
    ScanLeftmost(t, m, repl, 0, 0);
    ScanWithoutMatch(t, m, repl, 2);
  }

  /** The first rule pass masks "#5" and leaves the brand, glued to the '5', unmatched. */
  lemma FirstPassOnHashBeforeBrand()
    ensures MaskCustomPatterns(HashBeforeBrand) == Placeholder("TICKET") + Brand
  {
    var t := HashBeforeBrand;
    HashBeforeBrandChars();
    TicketThenBrandChars();
    EmailPassWithoutAt(t);
    PhonePassOnHashBeforeBrand();
    UrlPassWithoutH(t);
    DomainPassWithoutDot(t);
    OrgPassOnHashBeforeBrand();
    TicketPassOnHashBeforeBrand();
    PartnerIdPassWithoutColon(Placeholder("TICKET") + Brand);
    RuleOrder(t);
  }

  /** After the ticket placeholder, the brand stands as a whole word after ']'. */
  lemma OrgNotInTicketPlaceholder(q: nat)
    requires q < 15
    ensures MatchOrg(Placeholder("TICKET") + Brand, q) == 0
  {
    var x := Placeholder("TICKET") + Brand;
    TicketThenBrand();
    assert PlaceholderAt(x, 0, 15);
    OrgNotInPlaceholder(x, 0, 15, q);
  }

  lemma OrgAfterTicketPlaceholder()
    ensures MatchOrg(Placeholder("TICKET") + Brand, 15) == |Brand|
  {
    var x := Placeholder("TICKET") + Brand;
    TicketThenBrand();
    assert x[15..23] == Brand;
    LowerFolds(Brand);
  }

  lemma OrgPassAfterTicket()
    ensures Sub(Org, Placeholder("TICKET") + Brand) == Placeholder("TICKET") + Placeholder("ORG")
  {
    var x := Placeholder("TICKET") + Brand;
    var m := Matches(Org, x);
    var repl := Placeholder(Label(Org));
    forall q | 0 <= q < 15
      ensures m[q] == 0
    {
      OrgNotInTicketPlaceholder(q);
    }
    OrgAfterTicketPlaceholder();
    ScanLeftmost(x, m, repl, 0, 15);
    assert x[0..15] == Placeholder("TICKET");
  }

  /** The second rule pass masks the brand, which the first pass left alone. */
  lemma SecondPassOnHashBeforeBrand()
    ensures MaskCustomPatterns(Placeholder("TICKET") + Brand) == Placeholder("TICKET") + Placeholder("ORG")
  {
    var x := Placeholder("TICKET") + Brand;
    var z := Placeholder("TICKET") + Placeholder("ORG");
    TicketThenBrandChars();
    TicketThenBrandNoDigit();
    TicketThenOrgChars();
    EmailPassWithoutAt(x);
    PhonePassWithoutDigit(x);
    UrlPassWithoutH(x);
    DomainPassWithoutDot(x);
    OrgPassAfterTicket();
    TicketPassWithoutHash(z);
    PartnerIdPassWithoutColon(z);
    RuleOrder(x);
  }

  /**
    `mask_custom_patterns` is not idempotent: on "#5sprinklr" the first
    pass masks the ticket, and its placeholder's ']' gives "sprinklr" the
    word boundary that the '5' denied it, so a second pass masks the brand.
   */
  lemma RulePassNotIdempotent()
    ensures MaskCustomPatterns(HashBeforeBrand) == Placeholder("TICKET") + Brand
    ensures MaskCustomPatterns(MaskCustomPatterns(HashBeforeBrand)) == Placeholder("TICKET") + Placeholder("ORG")
    ensures MaskCustomPatterns(MaskCustomPatterns(HashBeforeBrand)) != MaskCustomPatterns(HashBeforeBrand)
  {
    FirstPassOnHashBeforeBrand();
    SecondPassOnHashBeforeBrand();
    assert |Placeholder("ORG")| != |Brand|;
  }
}
