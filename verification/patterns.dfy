/** The regular expressions of the text normalisation, as sequences of pattern
    items, with a declarative language, the greedy matcher the regular-expression
    engine runs, and the leftmost non-overlapping substitution `re.sub` performs.

    Every pattern the normaliser uses (except the blank-line pattern, which is
    modelled by its own module) is a sequence of literals and greedy repetitions
    of a character class in which no repetition's class can start what follows
    it. For such patterns backtracking never changes the outcome: the engine's
    match is the one that takes every repetition as far as it goes, and that is
    the longest prefix in the pattern's language. */
module Patterns {
  import opened Wrappers
  import opened Strings

  /** The character classes the patterns use. */
  datatype Class =
    | Dash     // `-`
    | Blank    // ` ` (a single space character)
    | Space    // `\s`
    | Digit    // `\d`
    | NotGt    // `[^>]`
    | Colon    // `:`

  predicate InClass(c: char, k: Class) {
    match k
    case Dash => c == '-'
    case Blank => c == ' '
    case Space => IsSpace(c)
    case Digit => IsDigit(c)
    case NotGt => c != '>'
    case Colon => c == ':'
  }

  /** A pattern item: a literal, compared up to case when `fold` (the IGNORECASE
      flag), or a greedy repetition of a class at least `lo` and at most `hi`
      times (no `hi`: unbounded). */
  datatype Item =
    | Lit(text: string, fold: bool)
    | Repeat(cls: Class, lo: nat, hi: Option<nat>)

  predicate CharEq(c: char, d: char, fold: bool) {
    if fold then CaseMatch(c, d) else c == d
  }

  /** The literal `x` occurs at position `p` of `s`. */
  predicate LitAt(s: string, p: nat, x: string, fold: bool) {
    p + |x| <= |s| && forall k :: 0 <= k < |x| ==> CharEq(s[p + k], x[k], fold)
  }

  /** Every character of `s[p..q]` is in class `k`. */
  predicate AllInAt(s: string, p: nat, q: nat, k: Class)
    requires p <= q <= |s|
  {
    forall j :: p <= j < q ==> InClass(s[j], k)
  }

  function Within(n: nat, hi: Option<nat>): bool {
    hi.None? || n <= hi.value
  }

  /** `s[p..e]` is one part for item `it`: the literal, or a run of the class
      whose length the repetition allows. */
  predicate PartAt(it: Item, s: string, p: nat, e: nat)
    requires p <= e <= |s|
  {
    match it
    case Lit(x, fold) => e == p + |x| && LitAt(s, p, x, fold)
    case Repeat(k, lo, hi) => lo <= e - p && Within(e - p, hi) && AllInAt(s, p, e, k)
  }

  /** `cuts` cuts `s[p..q]` into one part per item, the i-th part ending at
      `cuts[i]`. */
  predicate CutAt(items: seq<Item>, s: string, p: nat, q: nat, cuts: seq<nat>)
    requires p <= q <= |s|
    decreases |items|
  {
    && |cuts| == |items|
    && if items == [] then p == q
       else p <= cuts[0] <= q && PartAt(items[0], s, p, cuts[0]) && CutAt(items[1..], s, cuts[0], q, cuts[1..])
  }

  /** `s[p..q]` is in the language of `items`: the language of the regular
      expression, made of the texts that can be cut into the items' parts. */
  ghost predicate LangAt(items: seq<Item>, s: string, p: nat, q: nat)
    requires p <= q <= |s|
  {
    exists cuts :: CutAt(items, s, p, q, cuts)
  }

  /** The whole of `t` is in the language of `items`. */
  ghost predicate InLanguage(items: seq<Item>, t: string) {
    LangAt(items, t, 0, |t|)
  }

  /** The empty text is in the language. */
  predicate Nullable(items: seq<Item>)
    decreases |items|
  {
    if items == [] then true
    else match items[0]
      case Lit(x, _) => x == [] && Nullable(items[1..])
      case Repeat(_, lo, _) => lo == 0 && Nullable(items[1..])
  }

  /** A text of the language can start with `c`. */
  predicate CanStart(items: seq<Item>, c: char)
    decreases |items|
  {
    if items == [] then false
    else match items[0]
      case Lit(x, fold) => if x == [] then CanStart(items[1..], c) else CharEq(c, x[0], fold)
      case Repeat(k, lo, _) => InClass(c, k) || (lo == 0 && CanStart(items[1..], c))
  }

  /** No repetition's class can start what follows it, so a greedy repetition
      never has to give back a character. */
  predicate Separable(items: seq<Item>)
    decreases |items|
  {
    if items == [] then true
    else
      && Separable(items[1..])
      && (items[0].Repeat? ==> forall c :: InClass(c, items[0].cls) ==> !CanStart(items[1..], c))
  }

  // ---------------------------------------------------------------- the greedy matcher

  /** The length of the run of class `k` at position `p`. */
  function RunLen(s: string, p: nat, k: Class): (n: nat)
    requires p <= |s|
    ensures p + n <= |s| && AllInAt(s, p, p + n, k) && (p + n == |s| || !InClass(s[p + n], k))
    decreases |s| - p
  {
    if p < |s| && InClass(s[p], k) then 1 + RunLen(s, p + 1, k) else 0
  }

  function Cap(n: nat, hi: Option<nat>): (r: nat)
    ensures r <= n && Within(r, hi) && (r < n ==> hi.Some? && r == hi.value)
  {
    if hi.Some? && hi.value < n then hi.value else n
  }

  /** A match of the rest of a pattern, moved past the `d` characters before it. */
  function Shift(d: nat, m: Option<nat>): Option<nat> {
    if m.Some? then Some(d + m.value) else None
  }

  /** The engine at position `p`: every literal must be there, every repetition
      takes as many characters as it may. The result is the match length. */
  function Match(items: seq<Item>, s: string, p: nat): (r: Option<nat>)
    requires p <= |s|
    ensures r.Some? ==> p + r.value <= |s|
    decreases |items|
  {
    if items == [] then Some(0)
    else match items[0]
      case Lit(x, fold) =>
        if LitAt(s, p, x, fold) then Shift(|x|, Match(items[1..], s, p + |x|)) else None
      case Repeat(k, lo, hi) =>
        var g := Cap(RunLen(s, p, k), hi);
        if g < lo then None else Shift(g, Match(items[1..], s, p + g))
  }

  /** A nullable pattern always matches. */
  lemma {:induction false} NullableMatches(items: seq<Item>, s: string, p: nat)
    requires p <= |s| && Nullable(items)
    ensures Match(items, s, p).Some?
    decreases |items|
  {
    if items != [] {
      NullableMatches(items[1..], s, p + if items[0].Lit? then 0 else Cap(RunLen(s, p, items[0].cls), items[0].hi));
    }
  }

  /** Only a nullable pattern has the empty text in its language. */
  lemma {:induction false} EmptyInLanguage(items: seq<Item>, s: string, p: nat, cuts: seq<nat>)
    requires p <= |s| && CutAt(items, s, p, p, cuts)
    ensures Nullable(items)
    decreases |items|
  {
    if items != [] {
      EmptyInLanguage(items[1..], s, p, cuts[1..]);
    }
  }

  /** A non-empty text of the language starts with a character the pattern can
      start with. */
  lemma {:induction false} LanguageStart(items: seq<Item>, s: string, p: nat, q: nat, cuts: seq<nat>)
    requires p < q <= |s| && CutAt(items, s, p, q, cuts)
    ensures CanStart(items, s[p])
    decreases |items|
  {
    if cuts[0] == p {
      LanguageStart(items[1..], s, p, q, cuts[1..]);
    }
  }

  /** The greedy match is in the language: the cuts after each item's greedy part. */
  lemma {:induction false} MatchSound(items: seq<Item>, s: string, p: nat) returns (cuts: seq<nat>)
    requires p <= |s| && Match(items, s, p).Some?
    ensures CutAt(items, s, p, p + Match(items, s, p).value, cuts)
    decreases |items|
  {
    if items == [] {
      cuts := [];
    } else {
      var d := MatchHead(items, s, p);
      var rest := MatchSound(items[1..], s, p + d);
      cuts := [p + d] + rest;
      assert cuts[1..] == rest;
    }
  }

  /** A successful match takes a part for the first item, of length `d`, and
      matches the rest after it. */
  lemma MatchHead(items: seq<Item>, s: string, p: nat) returns (d: nat)
    requires items != [] && p <= |s| && Match(items, s, p).Some?
    ensures p + d <= |s| && PartAt(items[0], s, p, p + d)
    ensures d == if items[0].Lit? then |items[0].text| else Cap(RunLen(s, p, items[0].cls), items[0].hi)
    ensures Match(items[1..], s, p + d).Some?
    ensures Match(items, s, p).value == d + Match(items[1..], s, p + d).value
  {
    d := if items[0].Lit? then |items[0].text| else Cap(RunLen(s, p, items[0].cls), items[0].hi);
  }

  /** The greedy match is the longest prefix in the language, and there is none
      when the matcher fails. */
  lemma {:induction false} MatchLongest(items: seq<Item>, s: string, p: nat, q: nat, cuts: seq<nat>)
    requires Separable(items) && p <= q <= |s| && CutAt(items, s, p, q, cuts)
    ensures Match(items, s, p).Some? && q <= p + Match(items, s, p).value
    decreases |items|
  {
    if items != [] {
      var e := cuts[0];
      var d := if items[0].Lit? then e - p else Cap(RunLen(s, p, items[0].cls), items[0].hi);
      if e == p + d {
        MatchLongest(items[1..], s, e, q, cuts[1..]);
        LongestStep(items, s, p, d, q);
      } else {
        ShortCut(items, s, p, q, cuts);
      }
    }
  }

  /** A repetition cut before its greedy end leaves nothing for the rest of the
      pattern, which then matches anyway. */
  lemma ShortCut(items: seq<Item>, s: string, p: nat, q: nat, cuts: seq<nat>)
    requires Separable(items) && p <= q <= |s| && CutAt(items, s, p, q, cuts)
    requires items != [] && items[0].Repeat? && cuts[0] != p + Cap(RunLen(s, p, items[0].cls), items[0].hi)
    ensures Match(items, s, p).Some? && q <= p + Match(items, s, p).value
  {
    var d := Cap(RunLen(s, p, items[0].cls), items[0].hi);
    RepeatWitness(items, s, p, q, cuts);
    NullableMatches(items[1..], s, p + d);
    LongestStep(items, s, p, d, q);
  }

  /** A bound on the rest's match bounds the whole match. */
  lemma LongestStep(items: seq<Item>, s: string, p: nat, d: nat, q: nat)
    requires items != [] && p + d <= |s|
    requires items[0].Lit? ==> d == |items[0].text| && LitAt(s, p, items[0].text, items[0].fold)
    requires items[0].Repeat? ==> d == Cap(RunLen(s, p, items[0].cls), items[0].hi) && items[0].lo <= d
    requires Match(items[1..], s, p + d).Some? && q <= p + d + Match(items[1..], s, p + d).value
    ensures Match(items, s, p).Some? && q <= p + Match(items, s, p).value
  {
    MatchStep(items, s, p, d);
  }

  /** The match of a pattern is its first item's part followed by the match of
      the rest. */
  lemma MatchStep(items: seq<Item>, s: string, p: nat, d: nat)
    requires items != [] && p + d <= |s|
    requires items[0].Lit? ==> d == |items[0].text| && LitAt(s, p, items[0].text, items[0].fold)
    requires items[0].Repeat? ==> d == Cap(RunLen(s, p, items[0].cls), items[0].hi) && items[0].lo <= d
    ensures Match(items, s, p) == Shift(d, Match(items[1..], s, p + d))
  {
  }

  /** A repetition's cut lies at most at the greedy cut, and strictly before it
      only when the rest of the text is empty and the rest of the pattern is
      nullable. */
  lemma RepeatWitness(items: seq<Item>, s: string, p: nat, q: nat, cuts: seq<nat>)
    requires items != [] && items[0].Repeat? && Separable(items)
    requires p <= q <= |s| && CutAt(items, s, p, q, cuts)
    ensures cuts[0] <= p + Cap(RunLen(s, p, items[0].cls), items[0].hi)
    ensures cuts[0] < p + Cap(RunLen(s, p, items[0].cls), items[0].hi) ==> q == cuts[0] && Nullable(items[1..])
  {
    var k := items[0].cls;
    var e := cuts[0];
    var g := Cap(RunLen(s, p, k), items[0].hi);
    if e < p + g {
      if e < q {
        assert InClass(s[e], k);
        LanguageStart(items[1..], s, e, q, cuts[1..]);
        assert false;
      }
      EmptyInLanguage(items[1..], s, q, cuts[1..]);
    }
  }

  /** The engine finds a match at `p` exactly when some prefix of `s[p..]` is in the
      language, and then its match is the longest such prefix. */
  lemma MatchIsLongestPrefix(items: seq<Item>, s: string, p: nat)
    requires Separable(items) && p <= |s|
    ensures Match(items, s, p).Some? ==> LangAt(items, s, p, p + Match(items, s, p).value)
    ensures forall q :: p <= q <= |s| && LangAt(items, s, p, q) ==>
              Match(items, s, p).Some? && q <= p + Match(items, s, p).value
  {
    if Match(items, s, p).Some? {
      var cuts := MatchSound(items, s, p);
    }
    forall q | p <= q <= |s| && LangAt(items, s, p, q)
      ensures Match(items, s, p).Some? && q <= p + Match(items, s, p).value
    {
      var cuts :| CutAt(items, s, p, q, cuts);
      MatchLongest(items, s, p, q, cuts);
    }
  }

  // ---------------------------------------------------------------- substitution

  /** What a substitution puts in place of a match. */
  datatype Replacement =
    | Delete                // ''
    | Fixed(text: string)   // a constant replacement
    | MeetingHeader         // '\n\n=== מפגש \1 - START ===\n'

  /** A pattern with its replacement: one `re.sub` call. */
  datatype Rule = Rule(items: seq<Item>, rep: Replacement)

  /** The number of leading non-whitespace characters of `m`. */
  function LeadingNonSpace(m: string): (n: nat)
    ensures n <= |m| && (forall j :: 0 <= j < n ==> !IsSpace(m[j])) && (n == |m| || IsSpace(m[n]))
  {
    if m == [] || IsSpace(m[0]) then 0 else 1 + LeadingNonSpace(m[1..])
  }

  /** Group 1 of the meeting pattern, `\d{3}/\d+`: the match up to its whitespace. */
  function MeetingId(m: string): string {
    m[..LeadingNonSpace(m)]
  }

  function Replace(rep: Replacement, m: string): string {
    match rep
    case Delete => []
    case Fixed(t) => t
    case MeetingHeader => "\n\n=== מפגש " + MeetingId(m) + " - START ===\n"
  }

  /** A pattern that cannot match the empty text never returns an empty match. */
  lemma MatchNonEmpty(items: seq<Item>, s: string, p: nat)
    requires p <= |s| && !Nullable(items) && Match(items, s, p).Some?
    ensures Match(items, s, p).value >= 1
  {
    var cuts := MatchSound(items, s, p);
    if Match(items, s, p).value == 0 {
      EmptyInLanguage(items, s, p, cuts);
    }
  }

  /** `re.sub` from position `i`: at each position, a match is replaced and the
      scan goes on after it; otherwise the character is kept and the scan moves
      one position on. */
  function SubFrom(r: Rule, s: string, i: nat): (out: string)
    requires i <= |s| && !Nullable(r.items)
    ensures r.rep == Delete ==> |out| <= |s| - i
    decreases |s| - i
  {
    if i == |s| then []
    else match Match(r.items, s, i)
      case Some(n) =>
        MatchNonEmpty(r.items, s, i);
        Replace(r.rep, s[i..i + n]) + SubFrom(r, s, i + n)
      case None => [s[i]] + SubFrom(r, s, i + 1)
  }

  /** `re.sub(pattern, replacement, s)`. */
  function Sub(r: Rule, s: string): string
    requires !Nullable(r.items)
  {
    SubFrom(r, s, 0)
  }

  /** No prefix of `s[j..]` is in the language: the pattern does not match at `j`. */
  ghost predicate NoMatchAt(items: seq<Item>, s: string, j: nat)
    requires j <= |s|
  {
    forall q :: j <= q <= |s| ==> !LangAt(items, s, j, q)
  }

  /** `s[j..e]` is the longest prefix of `s[j..]` in the language. */
  ghost predicate LongestAt(items: seq<Item>, s: string, j: nat, e: nat)
    requires j <= e <= |s|
  {
    LangAt(items, s, j, e) && forall q :: e < q <= |s| ==> !LangAt(items, s, j, q)
  }

  /** Where no prefix is in the language the engine finds no match. */
  lemma NoMatchNone(items: seq<Item>, s: string, j: nat)
    requires j <= |s| && NoMatchAt(items, s, j)
    ensures Match(items, s, j).None?
  {
    if Match(items, s, j).Some? {
      MatchInLanguage(items, s, j);
    }
  }

  /** The engine's match, as a member of the language. */
  lemma MatchInLanguage(items: seq<Item>, s: string, p: nat)
    requires p <= |s| && Match(items, s, p).Some?
    ensures LangAt(items, s, p, p + Match(items, s, p).value)
  {
    var cuts := MatchSound(items, s, p);
  }

  /** Without a match the scan keeps one character. */
  lemma SubCopyStep(r: Rule, s: string, i: nat)
    requires i < |s| && !Nullable(r.items) && Match(r.items, s, i).None?
    ensures SubFrom(r, s, i) == [s[i]] + SubFrom(r, s, i + 1)
  {
  }

  /** At a match of length `n` the scan replaces it and goes on after it. */
  lemma SubMatchStep(r: Rule, s: string, i: nat, n: nat)
    requires i < |s| && !Nullable(r.items) && Match(r.items, s, i) == Some(n)
    ensures i + n <= |s| && n >= 1
    ensures SubFrom(r, s, i) == Replace(r.rep, s[i..i + n]) + SubFrom(r, s, i + n)
    ensures r.rep == Delete ==> SubFrom(r, s, i) == SubFrom(r, s, i + n)
  {
    MatchNonEmpty(r.items, s, i);
    var tail := SubFrom(r, s, i + n);
    assert SubFrom(r, s, i) == Replace(r.rep, s[i..i + n]) + tail;
    if r.rep == Delete {
      assert [] + tail == tail;
    }
  }

  /** Characters at which the pattern does not match are copied. */
  lemma {:induction false} SubCopies(r: Rule, s: string, i: nat, j: nat)
    requires i <= j <= |s| && !Nullable(r.items)
    requires forall k :: i <= k < j ==> NoMatchAt(r.items, s, k)
    ensures SubFrom(r, s, i) == s[i..j] + SubFrom(r, s, j)
    decreases j - i
  {
    if i < j {
      NoMatchNone(r.items, s, i);
      calc {
        SubFrom(r, s, i);
        { SubCopyStep(r, s, i); }
        [s[i]] + SubFrom(r, s, i + 1);
        { SubCopies(r, s, i + 1, j); }
        [s[i]] + (s[i + 1..j] + SubFrom(r, s, j));
        { assert s[i..j] == [s[i]] + s[i + 1..j]; }
        s[i..j] + SubFrom(r, s, j);
      }
    }
  }

  /** At a match, the longest prefix in the language is replaced and the scan
      resumes right after it. */
  lemma SubReplaces(r: Rule, s: string, j: nat, e: nat)
    requires j <= e <= |s| && !Nullable(r.items) && Separable(r.items)
    requires LongestAt(r.items, s, j, e)
    ensures j < e
    ensures SubFrom(r, s, j) == Replace(r.rep, s[j..e]) + SubFrom(r, s, e)
  {
    MatchIsLongestPrefix(r.items, s, j);
    var n := Match(r.items, s, j).value;
    assert LangAt(r.items, s, j, j + n);
    MatchNonEmpty(r.items, s, j);
  }

  /** The leftmost, longest, non-overlapping substitution: the text before the
      first position where the pattern matches is kept, the longest match there
      is replaced, and the substitution goes on after it. */
  lemma SubLeftmostLongest(r: Rule, s: string, j: nat, e: nat)
    requires j <= e <= |s| && !Nullable(r.items) && Separable(r.items)
    requires forall k :: 0 <= k < j ==> NoMatchAt(r.items, s, k)
    requires LongestAt(r.items, s, j, e)
    ensures Sub(r, s) == s[..j] + Replace(r.rep, s[j..e]) + SubFrom(r, s, e)
  {
    SubCopies(r, s, 0, j);
    SubReplaces(r, s, j, e);
  }

  /** A text where the pattern matches nowhere is left unchanged. */
  lemma SubNoMatch(r: Rule, s: string)
    requires !Nullable(r.items)
    requires forall k :: 0 <= k < |s| ==> NoMatchAt(r.items, s, k)
    ensures Sub(r, s) == s
  {
    SubCopies(r, s, 0, |s|);
  }
}
