/** `clean_and_structure_pdf`: the pages' text, the substitutions that remove
    markup and boilerplate and mark meetings and section labels, and the
    whitespace cleanup. The text of each page comes from outside (the PDF
    extractor) as an optional string. */
module Normalizer {
  import opened Wrappers
  import opened Strings
  import opened Patterns
  import opened Whitespace
  import opened Layout

  // ---------------------------------------------------------------- the patterns

  /** `<[^>]+>`, IGNORECASE. */
  const MarkupItems: seq<Item> := [Lit("<", true), Repeat(NotGt, 1, None), Lit(">", true)]

  /** `--- PAGE \d+ ---`, IGNORECASE. */
  const PageMarkerItems: seq<Item> := [Lit("--- PAGE ", true), Repeat(Digit, 1, None), Lit(" ---", true)]

  const BannerText: string := "סודי רפואי"

  /** `-+\s*סודי רפואי\s*-+`, IGNORECASE. */
  const BannerItems: seq<Item> :=
    [Repeat(Dash, 1, None), Repeat(Space, 0, None), Lit(BannerText, true), Repeat(Space, 0, None), Repeat(Dash, 1, None)]

  /** The literal boilerplate lines, matched up to case. */
  const BoilerplatePhrases: seq<string> :=
    ["תדפיס מפגש רופא", "פרטי מטופל/נבדק", "The following table:", "פרטי המפגש נשלחו למרפאת האם של החייל"]

  /** `(\d{3}/\d+)\s+מפגש`. */
  const MeetingItems: seq<Item> :=
    [Repeat(Digit, 3, Some(3)), Lit("/", false), Repeat(Digit, 1, None), Repeat(Space, 1, None), Lit(MeetingWord, false)]

  const MeetingWord: string := "מפגש"

  /** The section labels, in the order the program substitutes them. */
  const SectionLabels: seq<string> := ["אנמנזה", "ממצאים", "אבחנות", "דיון ותוכנית", "הפניות", "תרופות במפגש"]

  /** `<label>\s*:?`, IGNORECASE. */
  function LabelItems(name: string): seq<Item> {
    [Lit(name, true), Repeat(Space, 0, None), Repeat(Colon, 0, Some(1))]
  }

  /** What the program puts in place of a section label: `\n**<label>:**\n`. */
  function LabelHeading(name: string): string {
    "\n**" + name + ":**\n"
  }

  function LabelRule(name: string): Rule {
    Rule(LabelItems(name), Fixed(LabelHeading(name)))
  }

  function PhraseRule(text: string): Rule {
    Rule([Lit(text, true)], Delete)
  }

  /** The repeated headers: the banner, then the four phrases. */
  const HeaderRules: seq<Rule> :=
    [ Rule(BannerItems, Delete),
      PhraseRule(BoilerplatePhrases[0]), PhraseRule(BoilerplatePhrases[1]),
      PhraseRule(BoilerplatePhrases[2]), PhraseRule(BoilerplatePhrases[3]) ]

  const LabelRules: seq<Rule> :=
    [ LabelRule(SectionLabels[0]), LabelRule(SectionLabels[1]), LabelRule(SectionLabels[2]),
      LabelRule(SectionLabels[3]), LabelRule(SectionLabels[4]), LabelRule(SectionLabels[5]) ]

  /** Every substitution of the normalisation, in program order. */
  const CleaningRules: seq<Rule> :=
    [Rule(MarkupItems, Delete), Rule(PageMarkerItems, Delete)] + HeaderRules
    + [Rule(MeetingItems, MeetingHeader)] + LabelRules

  /** A pattern the engine handles: it never matches the empty text and its
      greedy match is the longest. */
  predicate WellFormedRule(r: Rule) {
    Separable(r.items) && !Nullable(r.items)
  }

  /** Separability and possible starts, one item at a time. */
  lemma ConsItem(it: Item, rest: seq<Item>)
    ensures Separable([it] + rest) <==>
              Separable(rest) && (it.Repeat? ==> forall c :: InClass(c, it.cls) ==> !CanStart(rest, c))
    ensures it.Lit? && it.text != [] ==> forall c :: CanStart([it] + rest, c) <==> CharEq(c, it.text[0], it.fold)
    ensures it.Repeat? ==> forall c :: CanStart([it] + rest, c) <==> InClass(c, it.cls) || (it.lo == 0 && CanStart(rest, c))
    ensures Nullable([it] + rest) <==> (if it.Lit? then it.text == [] else it.lo == 0) && Nullable(rest)
  {
    assert ([it] + rest)[1..] == rest;
  }

  /** Under `IGNORECASE` a character outside `A`..`Z` and `a`..`z` matches only itself. */
  lemma LowerOfOther(c: char, d: char)
    requires !('A' <= d <= 'Z') && !('a' <= d <= 'z')
    ensures CaseMatch(c, d) <==> c == d
  {
  }

  lemma LiteralsWellFormed(x: string)
    requires x != []
    ensures WellFormedRule(PhraseRule(x)) && WellFormedRule(LabelRule(x))
  {
    var colon := [Repeat(Colon, 0, Some(1))];
    var spaces := [Repeat(Space, 0, None)] + colon;
    ConsItem(Repeat(Colon, 0, Some(1)), []);
    ConsItem(Repeat(Space, 0, None), colon);
    ConsItem(Lit(x, true), spaces);
    ConsItem(Lit(x, true), []);
    assert LabelItems(x) == [Lit(x, true)] + spaces;
    assert [Lit(x, true)] == [Lit(x, true)] + [];
  }

  lemma MarkupWellFormed()
    ensures WellFormedRule(Rule(MarkupItems, Delete))
  {
    var close := [Lit(">", true)];
    ConsItem(Lit(">", true), []);
    LowerOfOther('>', '>');
    forall c | CanStart(close, c) ensures c == '>' { LowerOfOther(c, '>'); }
    ConsItem(Repeat(NotGt, 1, None), close);
    ConsItem(Lit("<", true), [Repeat(NotGt, 1, None)] + close);
    assert MarkupItems == [Lit("<", true)] + ([Repeat(NotGt, 1, None)] + close);
  }

  lemma PageMarkerWellFormed()
    ensures WellFormedRule(Rule(PageMarkerItems, Delete))
  {
    var close := [Lit(" ---", true)];
    ConsItem(Lit(" ---", true), []);
    forall c | CanStart(close, c) ensures c == ' ' { LowerOfOther(c, ' '); }
    ConsItem(Repeat(Digit, 1, None), close);
    ConsItem(Lit("--- PAGE ", true), [Repeat(Digit, 1, None)] + close);
    assert PageMarkerItems == [Lit("--- PAGE ", true)] + ([Repeat(Digit, 1, None)] + close);
  }

  lemma BannerWellFormed()
    ensures WellFormedRule(Rule(BannerItems, Delete))
  {
    var t4 := [Repeat(Dash, 1, None)];
    var t3 := [Repeat(Space, 0, None)] + t4;
    var t2 := [Lit(BannerText, true)] + t3;
    var t1 := [Repeat(Space, 0, None)] + t2;
    ConsItem(Repeat(Dash, 1, None), []);
    ConsItem(Repeat(Space, 0, None), t4);
    ConsItem(Lit(BannerText, true), t3);
    forall c | CanStart(t2, c) ensures c == 'ס' { LowerOfOther(c, 'ס'); }
    ConsItem(Repeat(Space, 0, None), t2);
    ConsItem(Repeat(Dash, 1, None), t1);
    assert BannerItems == [Repeat(Dash, 1, None)] + t1;
  }

  lemma MeetingWellFormed()
    ensures WellFormedRule(Rule(MeetingItems, MeetingHeader))
  {
    var t4 := [Lit(MeetingWord, false)];
    var t3 := [Repeat(Space, 1, None)] + t4;
    var t2 := [Repeat(Digit, 1, None)] + t3;
    var t1 := [Lit("/", false)] + t2;
    ConsItem(Lit(MeetingWord, false), []);
    ConsItem(Repeat(Space, 1, None), t4);
    ConsItem(Repeat(Digit, 1, None), t3);
    ConsItem(Lit("/", false), t2);
    ConsItem(Repeat(Digit, 3, Some(3)), t1);
    assert MeetingItems == [Repeat(Digit, 3, Some(3))] + t1;
  }

  lemma HeaderRulesWellFormed()
    ensures forall r :: r in HeaderRules ==> WellFormedRule(r)
  {
    forall k | 0 <= k < |BoilerplatePhrases|
      ensures WellFormedRule(PhraseRule(BoilerplatePhrases[k]))
    {
      LiteralsWellFormed(BoilerplatePhrases[k]);
    }
    BannerWellFormed();
  }

  lemma LabelRulesWellFormed()
    ensures forall r :: r in LabelRules ==> WellFormedRule(r)
  {
    forall k | 0 <= k < |SectionLabels|
      ensures WellFormedRule(LabelRule(SectionLabels[k]))
    {
      LiteralsWellFormed(SectionLabels[k]);
    }
  }

  /** Every pattern of the normalisation is one the engine handles. */
  lemma CleaningRulesWellFormed()
    ensures forall k :: 0 <= k < |CleaningRules| ==> WellFormedRule(CleaningRules[k])
  {
    HeaderRulesWellFormed();
    LabelRulesWellFormed();
    MarkupWellFormed();
    PageMarkerWellFormed();
    MeetingWellFormed();
  }

  // ---------------------------------------------------------------- the pages

  /** A page that gives no text, or only whitespace. */
  predicate BlankPage(page: Option<string>) {
    page.None? || AllSpace(page.value)
  }

  /** What one page adds to the full text: its text and a newline, or nothing
      for a page without text. */
  function Contribution(page: Option<string>): string {
    if page.Some? && page.value != [] then page.value + "\n" else []
  }

  /** The full text: every page's contribution, in page order. */
  function PageText(pages: seq<Option<string>>): string {
    if pages == [] then [] else Contribution(pages[0]) + PageText(pages[1..])
  }

  lemma AllSpaceAppend(a: string, b: string)
    ensures AllSpace(a + b) <==> AllSpace(a) && AllSpace(b)
  {
    assert forall i :: 0 <= i < |a| ==> (a + b)[i] == a[i];
    assert forall i :: 0 <= i < |b| ==> (a + b)[|a| + i] == b[i];
  }

  /** The pages of a longer document add their contributions after the others. */
  lemma {:induction false} PageTextAppend(a: seq<Option<string>>, b: seq<Option<string>>)
    ensures PageText(a + b) == PageText(a) + PageText(b)
  {
    if a != [] {
      assert (a + b)[1..] == a[1..] + b;
      PageTextAppend(a[1..], b);
    } else {
      assert a + b == b;
    }
  }

  /** The full text is whitespace only exactly when every page is blank. */
  lemma {:induction false} PageTextBlank(pages: seq<Option<string>>)
    ensures AllSpace(PageText(pages)) <==> forall k :: 0 <= k < |pages| ==> BlankPage(pages[k])
  {
    if pages != [] {
      PageTextBlank(pages[1..]);
      AllSpaceAppend(Contribution(pages[0]), PageText(pages[1..]));
      var page := pages[0];
      if page.Some? && page.value != [] {
        AllSpaceAppend(page.value, "\n");
      }
      assert forall k :: 1 <= k < |pages| ==> pages[k] == pages[1..][k - 1];
    }
  }

  // ---------------------------------------------------------------- the pipeline

  /** The `re.sub` calls in order, each on the previous one's output. */
  function ApplyRules(rules: seq<Rule>, s: string): string
    requires forall k :: 0 <= k < |rules| ==> WellFormedRule(rules[k])
  {
    if rules == [] then s
    else
      assert WellFormedRule(rules[0]);
      ApplyRules(rules[1..], Sub(rules[0], s))
  }

  /** Every substitution of the normalisation applied to the full text. */
  function Substitute(full: string): string {
    CleaningRulesWellFormed();
    ApplyRules(CleaningRules, full)
  }

  /** The program raises "No text found in PDF" for a document without text. */
  datatype NormalizeError = NoTextFound

  /** The whole normalisation of a document given as its pages' text. */
  function CleanAndStructure(pages: seq<Option<string>>): (r: Result<string, NormalizeError>)
    ensures r.Failure? <==> forall k :: 0 <= k < |pages| ==> BlankPage(pages[k])
    ensures r.Failure? ==> r.error == NoTextFound
    ensures r.Success? ==> Tidy(r.value)
    ensures r.Success? ==> NonSpace(r.value) == NonSpace(Substitute(PageText(pages)))
    ensures r.Success? ==> Gaps(r.value) == Tidied(Gaps(Substitute(PageText(pages))))
  {
    PageTextBlank(pages);
    var full := PageText(pages);
    if Strip(full) == [] then Failure(NoTextFound)
    else Success(Cleanup(Substitute(full)))
  }

  // ---------------------------------------------------------------- what the patterns describe

  /** Cutting a text for a pattern is cutting off the first item's part and
      cutting the rest for the remaining items. */
  lemma CutCons(it: Item, rest: seq<Item>, s: string, p: nat, q: nat, cuts: seq<nat>)
    requires p <= q <= |s| && |cuts| == 1 + |rest|
    ensures CutAt([it] + rest, s, p, q, cuts) <==>
              p <= cuts[0] <= q && PartAt(it, s, p, cuts[0]) && CutAt(rest, s, cuts[0], q, cuts[1..])
  {
    assert ([it] + rest)[1..] == rest;
  }

  /** `\d{3}/\d+`: the meeting number that group 1 captures. */
  predicate IsMeetingNumber(id: string) {
    |id| >= 5 && AllDigits(id[..3]) && id[3] == '/' && AllDigits(id[4..])
  }

  /** `m` is the meeting number `id`, the whitespace `ws` and the word `מפגש`. */
  predicate IsMeetingText(m: string, id: string, ws: string) {
    m == id + ws + MeetingWord && IsMeetingNumber(id) && ws != [] && AllSpace(ws)
  }

  /** The cut of `s[p..q]` for the meeting pattern whose number ends at `a` and
      whose whitespace ends at `b`, stated position by position. */
  predicate MeetingCut(s: string, p: nat, q: nat, a: nat, b: nat)
    requires p <= q <= |s|
  {
    && p + 4 < a < b && b + |MeetingWord| == q
    && AllInAt(s, p, p + 3, Digit) && s[p + 3] == '/' && AllInAt(s, p + 4, a, Digit)
    && AllInAt(s, a, b, Space) && LitAt(s, b, MeetingWord, false)
  }

  lemma MeetingCutTail(s: string, a: nat, q: nat, cuts: seq<nat>)
    requires a <= q <= |s| && |cuts| == 3
    ensures CutAt(MeetingItems[2..], s, a, q, cuts) <==>
              a < cuts[0] < cuts[1] && cuts[1] + |MeetingWord| == q && cuts[2] == q
              && AllInAt(s, a, cuts[0], Digit) && AllInAt(s, cuts[0], cuts[1], Space)
              && LitAt(s, cuts[1], MeetingWord, false)
  {
    var t4 := [Lit(MeetingWord, false)];
    var t3 := [Repeat(Space, 1, None)] + t4;
    assert MeetingItems[2..] == [Repeat(Digit, 1, None)] + t3;
    assert cuts[1..][1..] == cuts[2..];
    if a < cuts[0] <= q {
      CutCons(Repeat(Space, 1, None), t4, s, cuts[0], q, cuts[1..]);
      if cuts[0] < cuts[1] <= q {
        CutCons(Lit(MeetingWord, false), [], s, cuts[1], q, cuts[2..]);
      }
    }
    CutCons(Repeat(Digit, 1, None), t3, s, a, q, cuts);
  }

  /** The meeting pattern's cuts are exactly the positions of a number, a
      whitespace run and the word. */
  lemma MeetingCutIff(s: string, p: nat, q: nat, cuts: seq<nat>)
    requires p <= q <= |s| && |cuts| == 5
    ensures CutAt(MeetingItems, s, p, q, cuts) <==>
              cuts == [p + 3, p + 4, cuts[2], cuts[3], q] && MeetingCut(s, p, q, cuts[2], cuts[3])
  {
    var t1 := [Lit("/", false)] + MeetingItems[2..];
    assert MeetingItems == [Repeat(Digit, 3, Some(3))] + t1;
    assert cuts[1..][1..] == cuts[2..];
    if p + 3 == cuts[0] <= q {
      CutCons(Lit("/", false), MeetingItems[2..], s, cuts[0], q, cuts[1..]);
      if p + 4 == cuts[1] <= q {
        MeetingCutTail(s, p + 4, q, cuts[2..]);
      }
    }
    CutCons(Repeat(Digit, 3, Some(3)), t1, s, p, q, cuts);
    assert cuts[2..][0] == cuts[2] && cuts[2..][1] == cuts[3] && cuts[2..][2] == cuts[4];
    if CutAt(MeetingItems, s, p, q, cuts) {
      assert cuts[0] == p + 3;
      assert CharEq(s[p + 3 + 0], "/"[0], false);
      assert cuts == [p + 3, p + 4, cuts[2], cuts[3], q];
    }
  }

  /** A meeting cut, read as strings. */
  lemma MeetingCutText(s: string, p: nat, q: nat, a: nat, b: nat)
    requires p <= q <= |s| && p + 4 < a < b <= q
    ensures MeetingCut(s, p, q, a, b) <==> IsMeetingText(s[p..q], s[p..a], s[a..b])
  {
    var id, ws := s[p..a], s[a..b];
    assert s[p..q] == id + ws + s[b..q];
    assert forall i :: 0 <= i < 3 ==> id[..3][i] == s[p + i];
    assert forall i :: 0 <= i < |id| - 4 ==> id[4..][i] == s[p + 4 + i];
    assert forall i :: 0 <= i < |ws| ==> ws[i] == s[a + i];
    if b + |MeetingWord| == q {
      assert forall i :: 0 <= i < |MeetingWord| ==> s[b..q][i] == s[b + i];
    }
    if IsMeetingText(s[p..q], id, ws) {
      assert |s[b..q]| == |MeetingWord|;
    }
  }

  /** The separator the program puts in place of a meeting line with number `id`. */
  function MeetingBanner(id: string): string {
    "\n\n=== מפגש " + id + " - START ===\n"
  }

  /** The meeting text determines the number: it is what precedes the first
      whitespace. */
  lemma MeetingTextUnique(m: string, id: string, ws: string)
    requires IsMeetingText(m, id, ws)
    ensures LeadingNonSpace(m) == |id| && MeetingId(m) == id
    ensures Replace(MeetingHeader, m) == MeetingBanner(id)
  {
    assert forall i :: 0 <= i < 3 ==> m[i] == id[..3][i];
    assert forall i :: 4 <= i < |id| ==> m[i] == id[4..][i - 4];
    assert m[|id|] == ws[0];
    assert m[..|id|] == id;
  }

  lemma MeetingLanguageSound(s: string, p: nat, q: nat) returns (id: string, ws: string)
    requires p <= q <= |s| && LangAt(MeetingItems, s, p, q)
    ensures IsMeetingText(s[p..q], id, ws)
  {
    var cuts :| CutAt(MeetingItems, s, p, q, cuts);
    MeetingCutIff(s, p, q, cuts);
    MeetingCutText(s, p, q, cuts[2], cuts[3]);
    id, ws := s[p..cuts[2]], s[cuts[2]..cuts[3]];
  }

  lemma MeetingLanguageComplete(s: string, p: nat, q: nat, id: string, ws: string)
    requires p <= q <= |s| && IsMeetingText(s[p..q], id, ws)
    ensures LangAt(MeetingItems, s, p, q)
  {
    var a := p + |id|;
    var b := a + |ws|;
    var m := s[p..q];
    assert m[..|id|] == id;
    assert s[p..a] == m[..|id|];
    forall i | 0 <= i < |ws|
      ensures s[a..b][i] == ws[i]
    {
      assert m[|id| + i] == ws[i];
      assert m[|id| + i] == s[a + i];
    }
    assert s[a..b] == ws;
    MeetingCutText(s, p, q, a, b);
    MeetingCutIff(s, p, q, [p + 3, p + 4, a, b, q]);
  }

  /** The meeting pattern describes exactly the texts made of a meeting number,
      whitespace and the word `מפגש`. */
  lemma MeetingLanguage(s: string, p: nat, q: nat)
    requires p <= q <= |s|
    ensures LangAt(MeetingItems, s, p, q) <==> exists id, ws :: IsMeetingText(s[p..q], id, ws)
  {
    if LangAt(MeetingItems, s, p, q) {
      var id, ws := MeetingLanguageSound(s, p, q);
    }
    if exists id, ws :: IsMeetingText(s[p..q], id, ws) {
      var id, ws :| IsMeetingText(s[p..q], id, ws);
      MeetingLanguageComplete(s, p, q, id, ws);
    }
  }

  const MeetingRule: Rule := Rule(MeetingItems, MeetingHeader)

  /** At the first place the meeting pattern matches, the longest match is a
      meeting number, whitespace and the word, and it is replaced by the
      meeting header that carries the number. */
  lemma MeetingReplaced(s: string, j: nat, e: nat) returns (id: string, ws: string)
    requires j <= e <= |s|
    requires forall k :: 0 <= k < j ==> NoMatchAt(MeetingItems, s, k)
    requires LongestAt(MeetingItems, s, j, e)
    ensures IsMeetingText(s[j..e], id, ws)
    ensures Sub(MeetingRule, s) == s[..j] + MeetingBanner(id) + SubFrom(MeetingRule, s, e)
  {
    MeetingWellFormed();
    id, ws := MeetingLanguageSound(s, j, e);
    MeetingTextUnique(s[j..e], id, ws);
    SubLeftmostLongest(MeetingRule, s, j, e);
  }

  // ---------------------------------------------------------------- labels, markup and markers

  /** A literal compared up to case occurs where the slice matches it up to case. */
  lemma LitAtFold(s: string, p: nat, x: string)
    requires p + |x| <= |s|
    ensures LitAt(s, p, x, true) <==> CaseEq(s[p..p + |x|], x)
  {
    var y := s[p..p + |x|];
    assert forall k :: 0 <= k < |x| ==> y[k] == s[p + k];
  }

  /** `m` is a section label `name` (up to case), whitespace and an optional colon. */
  predicate IsLabelText(m: string, name: string, head: string, ws: string, colon: string) {
    m == head + ws + colon && CaseEq(head, name) && AllSpace(ws) && (colon == [] || colon == ":")
  }

  lemma LabelCutIff(s: string, p: nat, q: nat, x: string, cuts: seq<nat>)
    requires p <= q <= |s| && |cuts| == 3
    ensures CutAt(LabelItems(x), s, p, q, cuts) <==>
              cuts == [p + |x|, cuts[1], q] && p + |x| <= cuts[1] <= q <= cuts[1] + 1
              && LitAt(s, p, x, true) && AllInAt(s, p + |x|, cuts[1], Space) && AllInAt(s, cuts[1], q, Colon)
  {
    var t2 := [Repeat(Colon, 0, Some(1))];
    var t1 := [Repeat(Space, 0, None)] + t2;
    assert LabelItems(x) == [Lit(x, true)] + t1;
    assert cuts[1..][1..] == cuts[2..];
    if p <= cuts[0] <= q {
      CutCons(Repeat(Space, 0, None), t2, s, cuts[0], q, cuts[1..]);
      if cuts[0] <= cuts[1] <= q {
        CutCons(Repeat(Colon, 0, Some(1)), [], s, cuts[1], q, cuts[2..]);
      }
    }
    CutCons(Lit(x, true), t1, s, p, q, cuts);
    if CutAt(LabelItems(x), s, p, q, cuts) {
      assert cuts == [p + |x|, cuts[1], q];
    }
  }

  lemma LabelCutText(s: string, p: nat, q: nat, x: string, b: nat)
    requires p + |x| <= b <= q <= |s|
    ensures LitAt(s, p, x, true) && AllInAt(s, p + |x|, b, Space) && AllInAt(s, b, q, Colon) && q <= b + 1
            <==> IsLabelText(s[p..q], x, s[p..p + |x|], s[p + |x|..b], s[b..q])
  {
    var a := p + |x|;
    LitAtFold(s, p, x);
    assert s[p..q] == s[p..a] + s[a..b] + s[b..q];
    assert forall i :: 0 <= i < b - a ==> s[a..b][i] == s[a + i];
    if b < q {
      assert s[b..q][0] == s[b];
    }
  }

  /** The label pattern describes exactly the texts made of the label (up to
      case), whitespace and at most one colon. */
  lemma LabelLanguage(s: string, p: nat, q: nat, x: string)
    requires p <= q <= |s|
    ensures LangAt(LabelItems(x), s, p, q) <==> exists head, ws, colon :: IsLabelText(s[p..q], x, head, ws, colon)
  {
    if LangAt(LabelItems(x), s, p, q) {
      var cuts :| CutAt(LabelItems(x), s, p, q, cuts);
      LabelCutIff(s, p, q, x, cuts);
      LabelCutText(s, p, q, x, cuts[1]);
    }
    if exists head, ws, colon :: IsLabelText(s[p..q], x, head, ws, colon) {
      var head, ws, colon :| IsLabelText(s[p..q], x, head, ws, colon);
      LabelTextCut(s, p, q, x, head, ws, colon);
    }
  }

  lemma LabelTextCut(s: string, p: nat, q: nat, x: string, head: string, ws: string, colon: string)
    requires p <= q <= |s| && IsLabelText(s[p..q], x, head, ws, colon)
    ensures LangAt(LabelItems(x), s, p, q)
  {
    var m := s[p..q];
    var b := p + |head| + |ws|;
    assert s[p..p + |x|] == m[..|x|] == head;
    forall i | 0 <= i < |ws|
      ensures s[p + |x|..b][i] == ws[i]
    {
      assert m[|x| + i] == ws[i];
    }
    assert s[p + |x|..b] == ws;
    assert s[b..q] == m[|x| + |ws|..] == colon;
    LabelCutText(s, p, q, x, b);
    LabelCutIff(s, p, q, x, [p + |x|, b, q]);
  }

  /** At the first place a label pattern matches, the longest match is the label,
      all the whitespace after it and a colon when one follows; it is replaced
      by the label's heading. */
  lemma LabelReplaced(s: string, x: string, j: nat, e: nat) returns (head: string, ws: string, colon: string)
    requires x != [] && j <= e <= |s|
    requires forall k :: 0 <= k < j ==> NoMatchAt(LabelItems(x), s, k)
    requires LongestAt(LabelItems(x), s, j, e)
    ensures IsLabelText(s[j..e], x, head, ws, colon)
    ensures colon == [] ==> e == |s| || (!IsSpace(s[e]) && s[e] != ':')
    ensures Sub(LabelRule(x), s) == s[..j] + LabelHeading(x) + SubFrom(LabelRule(x), s, e)
  {
    LiteralsWellFormed(x);
    LabelLanguage(s, j, e, x);
    head, ws, colon :| IsLabelText(s[j..e], x, head, ws, colon);
    if colon == [] && e < |s| && (IsSpace(s[e]) || s[e] == ':') {
      LabelLonger(s, x, j, e, head, ws);
    }
    SubLeftmostLongest(LabelRule(x), s, j, e);
  }

  /** A label text without a colon can take one more whitespace character or a
      colon. */
  lemma LabelLonger(s: string, x: string, j: nat, e: nat, head: string, ws: string)
    requires j <= e < |s| && IsLabelText(s[j..e], x, head, ws, []) && (IsSpace(s[e]) || s[e] == ':')
    ensures LangAt(LabelItems(x), s, j, e + 1)
  {
    assert s[j..e + 1] == s[j..e] + [s[e]];
    if IsSpace(s[e]) {
      assert AllSpace(ws + [s[e]]);
      assert IsLabelText(s[j..e + 1], x, head, ws + [s[e]], []);
      LabelTextCut(s, j, e + 1, x, head, ws + [s[e]], []);
    } else {
      assert IsLabelText(s[j..e + 1], x, head, ws, ":");
      LabelTextCut(s, j, e + 1, x, head, ws, ":");
    }
  }

  /** `m` is a markup tag: `<`, at least one character other than `>`, then `>`. */
  predicate IsMarkup(m: string) {
    |m| >= 3 && m[0] == '<' && m[|m| - 1] == '>' && forall i :: 1 <= i < |m| - 1 ==> m[i] != '>'
  }

  lemma MarkupCutIff(s: string, p: nat, q: nat, cuts: seq<nat>)
    requires p <= q <= |s| && |cuts| == 3
    ensures CutAt(MarkupItems, s, p, q, cuts) <==>
              cuts == [p + 1, q - 1, q] && p + 3 <= q && s[p] == '<' && s[q - 1] == '>'
              && AllInAt(s, p + 1, q - 1, NotGt)
  {
    var t2 := [Lit(">", true)];
    var t1 := [Repeat(NotGt, 1, None)] + t2;
    assert MarkupItems == [Lit("<", true)] + t1;
    assert cuts[1..][1..] == cuts[2..];
    if p < q {
      LowerOfOther(s[p], '<');
      assert LitAt(s, p, "<", true) <==> CharEq(s[p + 0], "<"[0], true);
    }
    if p <= cuts[0] <= q {
      CutCons(Repeat(NotGt, 1, None), t2, s, cuts[0], q, cuts[1..]);
      if cuts[0] <= cuts[1] <= q {
        CutCons(Lit(">", true), [], s, cuts[1], q, cuts[2..]);
        if cuts[1] < q {
          LowerOfOther(s[cuts[1]], '>');
          assert LitAt(s, cuts[1], ">", true) <==> CharEq(s[cuts[1] + 0], ">"[0], true);
        }
      }
    }
    CutCons(Lit("<", true), t1, s, p, q, cuts);
    if CutAt(MarkupItems, s, p, q, cuts) {
      assert cuts == [p + 1, q - 1, q];
    }
  }

  /** The markup pattern describes exactly the markup tags. */
  lemma MarkupLanguage(s: string, p: nat, q: nat)
    requires p <= q <= |s|
    ensures LangAt(MarkupItems, s, p, q) <==> IsMarkup(s[p..q])
  {
    var m := s[p..q];
    assert forall i :: 0 <= i < |m| ==> m[i] == s[p + i];
    if LangAt(MarkupItems, s, p, q) {
      var cuts :| CutAt(MarkupItems, s, p, q, cuts);
      MarkupCutIff(s, p, q, cuts);
    }
    if IsMarkup(m) {
      MarkupCutIff(s, p, q, [p + 1, q - 1, q]);
    }
  }

  const MarkupRule: Rule := Rule(MarkupItems, Delete)

  /** A `<` at `i` cannot open a tag: it is followed at once by `>`, or no `>`
      follows it at all. */
  predicate CannotOpen(t: string, i: nat)
    requires i < |t|
  {
    t[i] == '<' ==> (i + 1 < |t| && t[i + 1] == '>') || '>' !in t[i + 1..]
  }

  predicate NoOpenTag(t: string) {
    forall i :: 0 <= i < |t| ==> CannotOpen(t, i)
  }

  /** A tag starts with a `<` that opens it. */
  lemma TagOpens(t: string, i: nat, q: nat)
    requires i <= q <= |t| && IsMarkup(t[i..q])
    ensures i < |t| && !CannotOpen(t, i)
  {
    var m := t[i..q];
    assert t[i] == m[0] && t[i + 1] == m[1];
    assert t[i + 1..][q - 2 - i] == m[q - 1 - i];
  }

  /** Where no `<` can open a tag there is no tag. */
  lemma NoOpenTagNoMarkup(t: string, i: nat, q: nat)
    requires NoOpenTag(t) && i <= q <= |t|
    ensures !IsMarkup(t[i..q])
  {
    if IsMarkup(t[i..q]) {
      TagOpens(t, i, q);
      assert false;
    }
  }

  /** Where the markup pattern does not match, a `<` cannot open a tag. */
  lemma UnmatchedOpen(s: string, i: nat)
    requires i < |s| && Match(MarkupItems, s, i).None?
    ensures CannotOpen(s, i)
  {
    if !CannotOpen(s, i) {
      OpenMatches(s, i);
    }
  }

  /** A `<` that opens a tag starts a match of the markup pattern. */
  lemma OpenMatches(s: string, i: nat)
    requires i < |s| && !CannotOpen(s, i)
    ensures Match(MarkupItems, s, i).Some?
  {
    var q := OpenTag(s, i);
    MarkupLanguage(s, i, q);
    MarkupWellFormed();
    MatchIsLongestPrefix(MarkupItems, s, i);
  }

  /** A `<` that opens a tag: the tag it opens. */
  lemma OpenTag(s: string, i: nat) returns (q: nat)
    requires i < |s| && !CannotOpen(s, i)
    ensures i < q <= |s| && IsMarkup(s[i..q])
  {
    var k := IndexOf(s[i + 1..], '>');
    assert k >= 1;
    q := i + 2 + k;
    var m := s[i..q];
    assert forall j :: 1 <= j < |m| - 1 ==> m[j] == s[i + 1..][j - 1];
  }

  /** A match is dropped by a deleting scan. */
  lemma DeletedMatch(r: Rule, s: string, i: nat) returns (j: nat)
    requires i < |s| && !Nullable(r.items) && r.rep == Delete && Match(r.items, s, i).Some?
    ensures i < j <= |s| && SubFrom(r, s, i) == SubFrom(r, s, j)
  {
    var n := Match(r.items, s, i).value;
    SubMatchStep(r, s, i, n);
    j := i + n;
  }

  /** One step of a deleting scan: a match is dropped, or one character is
      kept because nothing matches there. */
  lemma DeleteStep(r: Rule, s: string, i: nat) returns (j: nat, kept: bool)
    requires i < |s| && !Nullable(r.items) && r.rep == Delete
    ensures i < j <= |s|
    ensures kept ==> j == i + 1 && SubFrom(r, s, i) == [s[i]] + SubFrom(r, s, j)
    ensures !kept ==> SubFrom(r, s, i) == SubFrom(r, s, j)
    ensures kept == Match(r.items, s, i).None?
  {
    kept := Match(r.items, s, i).None?;
    if kept {
      SubCopyStep(r, s, i);
      j := i + 1;
    } else {
      j := DeletedMatch(r, s, i);
    }
  }

  /** Deleting matches keeps no character that was not there. */
  lemma {:induction false} DeleteKeeps(r: Rule, s: string, i: nat, c: char)
    requires i <= |s| && !Nullable(r.items) && r.rep == Delete
    requires forall k :: i <= k < |s| ==> s[k] != c
    ensures c !in SubFrom(r, s, i)
    decreases |s| - i
  {
    if i < |s| {
      var j, kept := DeleteStep(r, s, i);
      DeleteKeeps(r, s, j, c);
    }
  }

  lemma NoOpenTagCons(c: char, t: string)
    requires NoOpenTag(t)
    requires c == '<' ==> (t != [] && t[0] == '>') || '>' !in t
    ensures NoOpenTag([c] + t)
  {
    var u := [c] + t;
    forall i | 0 <= i < |u|
      ensures CannotOpen(u, i)
    {
      if i > 0 {
        assert CannotOpen(t, i - 1);
        assert u[i + 1..] == t[i..];
      } else {
        assert u[1..] == t;
      }
    }
  }

  /** A `>` is kept by the markup substitution: no match starts with it. */
  lemma CloseKept(s: string, i: nat)
    requires i < |s| && s[i] == '>'
    ensures SubFrom(MarkupRule, s, i) == [s[i]] + SubFrom(MarkupRule, s, i + 1)
  {
    MarkupWellFormed();
    LowerOfOther('>', '<');
    assert !CharEq(s[i + 0], "<"[0], true);
    assert MarkupItems[0] == Lit("<", true);
    SubCopyStep(MarkupRule, s, i);
  }

  /** What the markup substitution keeps after a `<` it does not remove. */
  lemma KeptOpen(s: string, i: nat)
    requires i < |s| && Match(MarkupItems, s, i).None?
    ensures var rest := SubFrom(MarkupRule, s, i + 1);
            s[i] == '<' ==> (rest != [] && rest[0] == '>') || '>' !in rest
  {
    MarkupWellFormed();
    UnmatchedOpen(s, i);
    if s[i] == '<' {
      if i + 1 < |s| && s[i + 1] == '>' {
        CloseKept(s, i + 1);
      } else {
        assert forall k :: i + 1 <= k < |s| ==> s[k] == s[i + 1..][k - i - 1];
        DeleteKeeps(MarkupRule, s, i + 1, '>');
      }
    }
  }

  /** What the markup substitution leaves from position `i` on has no `<` that
      could open a tag. */
  lemma {:induction false} MarkupScanClean(s: string, i: nat)
    requires i <= |s|
    ensures NoOpenTag(SubFrom(MarkupRule, s, i))
    decreases |s| - i
  {
    MarkupWellFormed();
    if i < |s| {
      var j, kept := DeleteStep(MarkupRule, s, i);
      MarkupScanClean(s, j);
      if kept {
        KeptOpen(s, i);
        NoOpenTagCons(s[i], SubFrom(MarkupRule, s, j));
      }
    }
  }

  /** Removing markup leaves no markup: the substitution is idempotent. */
  lemma MarkupIdempotent(s: string)
    ensures Sub(MarkupRule, Sub(MarkupRule, s)) == Sub(MarkupRule, s)
  {
    MarkupWellFormed();
    var t := Sub(MarkupRule, s);
    MarkupScanClean(s, 0);
    forall k | 0 <= k < |t|
      ensures NoMatchAt(MarkupItems, t, k)
    {
      forall q | k <= q <= |t|
        ensures !LangAt(MarkupItems, t, k, q)
      {
        NoOpenTagNoMarkup(t, k, q);
        MarkupLanguage(t, k, q);
      }
    }
    SubNoMatch(MarkupRule, t);
  }

  /** `m` is a page marker: `--- PAGE ` (up to case), a page number and ` ---`. */
  predicate IsPageMarker(m: string, head: string, digits: string, tail: string) {
    m == head + digits + tail && CaseEq(head, "--- PAGE ") && digits != [] && AllDigits(digits)
    && CaseEq(tail, " ---")
  }

  lemma PageMarkerCutIff(s: string, p: nat, q: nat, cuts: seq<nat>)
    requires p <= q <= |s| && |cuts| == 3
    ensures CutAt(PageMarkerItems, s, p, q, cuts) <==>
              cuts == [p + 9, q - 4, q] && p + 9 < q - 4
              && LitAt(s, p, "--- PAGE ", true) && AllInAt(s, p + 9, q - 4, Digit) && LitAt(s, q - 4, " ---", true)
  {
    var t2 := [Lit(" ---", true)];
    var t1 := [Repeat(Digit, 1, None)] + t2;
    assert PageMarkerItems == [Lit("--- PAGE ", true)] + t1;
    assert cuts[1..][1..] == cuts[2..];
    if p <= cuts[0] <= q {
      CutCons(Repeat(Digit, 1, None), t2, s, cuts[0], q, cuts[1..]);
      if cuts[0] <= cuts[1] <= q {
        CutCons(Lit(" ---", true), [], s, cuts[1], q, cuts[2..]);
      }
    }
    CutCons(Lit("--- PAGE ", true), t1, s, p, q, cuts);
    if CutAt(PageMarkerItems, s, p, q, cuts) {
      assert cuts == [p + 9, q - 4, q];
    }
  }

  lemma PageMarkerTextCut(s: string, p: nat, q: nat, head: string, digits: string, tail: string)
    requires p <= q <= |s| && IsPageMarker(s[p..q], head, digits, tail)
    ensures LangAt(PageMarkerItems, s, p, q)
  {
    var m := s[p..q];
    assert |head| == 9 && |tail| == 4;
    assert s[p..p + 9] == m[..9] == head;
    assert s[q - 4..q] == m[|m| - 4..] == tail;
    forall i | 0 <= i < |digits|
      ensures s[p + 9 + i] == digits[i]
    {
      assert m[9 + i] == digits[i];
    }
    LitAtFold(s, p, "--- PAGE ");
    LitAtFold(s, q - 4, " ---");
    PageMarkerCutIff(s, p, q, [p + 9, q - 4, q]);
  }

  /** The page-marker pattern describes exactly the page markers. */
  lemma PageMarkerLanguage(s: string, p: nat, q: nat)
    requires p <= q <= |s|
    ensures LangAt(PageMarkerItems, s, p, q) <==> exists head, digits, tail :: IsPageMarker(s[p..q], head, digits, tail)
  {
    if LangAt(PageMarkerItems, s, p, q) {
      var cuts :| CutAt(PageMarkerItems, s, p, q, cuts);
      PageMarkerCutIff(s, p, q, cuts);
      LitAtFold(s, p, "--- PAGE ");
      LitAtFold(s, q - 4, " ---");
      var head, digits, tail := s[p..p + 9], s[p + 9..q - 4], s[q - 4..q];
      assert s[p..q] == head + digits + tail;
      assert forall i :: 0 <= i < |digits| ==> digits[i] == s[p + 9 + i];
      assert IsPageMarker(s[p..q], head, digits, tail);
    }
    if exists head, digits, tail :: IsPageMarker(s[p..q], head, digits, tail) {
      var head, digits, tail :| IsPageMarker(s[p..q], head, digits, tail);
      PageMarkerTextCut(s, p, q, head, digits, tail);
    }
  }

  /** A boilerplate phrase matches exactly the texts that match it character by character up to case. */
  lemma PhraseLanguage(s: string, p: nat, q: nat, x: string)
    requires p <= q <= |s|
    ensures LangAt([Lit(x, true)], s, p, q) <==> CaseEq(s[p..q], x)
  {
    assert [Lit(x, true)] + [] == [Lit(x, true)];
    if LangAt([Lit(x, true)], s, p, q) {
      var cuts :| CutAt([Lit(x, true)], s, p, q, cuts);
      CutCons(Lit(x, true), [], s, p, q, cuts);
      assert cuts[0] == p + |x| == q;
      LitAtFold(s, p, x);
    }
    if CaseEq(s[p..q], x) {
      LitAtFold(s, p, x);
      CutCons(Lit(x, true), [], s, p, q, [q]);
      assert [q][1..] == [] && CutAt([], s, q, q, []);
    }
  }

  /** `IGNORECASE` also takes the dotless i for `i`, so the banner phrase matches a
      spelling of it that lower-casing does not equate with it. */
  lemma PhraseDotlessI()
    ensures var s := "The follow\U{131}ng table:";
            LangAt([Lit(BoilerplatePhrases[2], true)], s, 0, |s|) && !FoldEq(s, BoilerplatePhrases[2])
  {
    var s, x := "The follow\U{131}ng table:", BoilerplatePhrases[2];
    assert s[0..|s|] == s;
    assert CaseEq(s, x);
    PhraseLanguage(s, 0, |s|, x);
    assert LowerString(s)[10] != LowerString(x)[10];
  }
}
