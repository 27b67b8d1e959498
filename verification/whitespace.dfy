/** The four whitespace steps that end the normalisation, and the shape of the
    text they leave: no surrounding whitespace, no two spaces in a row, no line
    that starts or ends with whitespace, and never three newlines in a row.

    Two small automata read a text from left to right and carry the facts
    between the steps: one counts the newlines of the current whitespace run,
    the other watches the ends of lines. */
module Whitespace {
  import opened Wrappers
  import opened Strings
  import opened Patterns

  // ---------------------------------------------------------------- automata

  /** Runs the automaton `step` over `t` from state `q`. */
  function Run<S>(step: (S, char) -> S, q: S, t: string): S
    decreases |t|
  {
    if t == [] then q else Run(step, step(q, t[0]), t[1..])
  }

  lemma {:induction false} RunAppend<S>(step: (S, char) -> S, q: S, a: string, b: string)
    ensures Run(step, q, a + b) == Run(step, Run(step, q, a), b)
    decreases |a|
  {
    if a != [] {
      assert (a + b)[1..] == a[1..] + b;
      RunAppend(step, step(q, a[0]), a[1..], b);
    } else {
      assert a + b == b;
    }
  }

  lemma RunOne<S>(step: (S, char) -> S, q: S, c: char)
    ensures Run(step, q, [c]) == step(q, c)
  {
    assert [c][1..] == [];
  }

  /** The newlines of the current whitespace run, up to 3; 3 stays once reached. */
  function BreakStep(n: nat, c: char): nat {
    if n >= 3 then 3
    else if c == '\n' then n + 1
    else if IsSpace(c) then n
    else 0
  }

  /** No whitespace run of `t` holds three newlines. */
  predicate FewBreaks(t: string) {
    Run(BreakStep, 0, t) < 3
  }

  /** The state of a line: at its start, after a non-whitespace character,
      after whitespace that follows text, or already failed. */
  datatype LineState = LineStart | InText | AfterSpace | Untrimmed

  function LineStep(q: LineState, c: char): LineState {
    if q == Untrimmed then Untrimmed
    else if c == '\n' then (if q == AfterSpace then Untrimmed else LineStart)
    else if IsSpace(c) then (if q == LineStart then Untrimmed else AfterSpace)
    else InText
  }

  /** Every line of `t` starts and ends with a non-whitespace character, or is empty. */
  predicate TrimmedLines(t: string) {
    var q := Run(LineStep, LineStart, t);
    q == LineStart || q == InText
  }

  // ---------------------------------------------------------------- the shape of the result

  /** Two spaces start at `i`. */
  predicate DoubleSpaceAt(t: string, i: nat) {
    i + 1 < |t| && t[i] == ' ' && t[i + 1] == ' '
  }

  /** Three newlines start at `i`. */
  predicate TripleBreakAt(t: string, i: nat) {
    i + 2 < |t| && t[i] == '\n' && t[i + 1] == '\n' && t[i + 2] == '\n'
  }

  /** No two consecutive spaces. */
  predicate NoDoubleSpace(t: string) {
    forall i :: 0 <= i < |t| ==> !DoubleSpaceAt(t, i)
  }

  /** No three consecutive newlines. */
  predicate NoTripleBreak(t: string) {
    forall i :: 0 <= i < |t| ==> !TripleBreakAt(t, i)
  }

  /** Every whitespace character other than a newline has a neighbour on each
      side that is not a newline: no line starts or ends with whitespace. */
  predicate LinesTrimmedAt(t: string) {
    forall i :: 0 <= i < |t| && IsInlineSpace(t[i]) ==> 0 < i < |t| - 1 && t[i - 1] != '\n' && t[i + 1] != '\n'
  }

  /** The text `clean_and_structure_pdf` promises. */
  predicate Tidy(t: string) {
    && (t == [] || (!IsSpace(t[0]) && !IsSpace(t[|t| - 1])))
    && NoDoubleSpace(t)
    && NoTripleBreak(t)
    && LinesTrimmedAt(t)
  }

  // ---------------------------------------------------------------- from automata to positions

  lemma {:induction false} BreakAbsorbs(t: string)
    ensures Run(BreakStep, 3, t) == 3
    decreases |t|
  {
    if t != [] {
      BreakAbsorbs(t[1..]);
    }
  }

  /** A run with few breaks never holds three newlines in a row. */
  lemma FewBreaksNoTriple(t: string)
    requires FewBreaks(t)
    ensures NoTripleBreak(t)
  {
    forall i | 0 <= i < |t| && TripleBreakAt(t, i)
      ensures false
    {
      assert t[i..i + 3] == "\n\n\n";
      {
        var n := Run(BreakStep, 0, t[..i]);
        assert t == t[..i] + ("\n\n\n" + t[i + 3..]);
        RunAppend(BreakStep, 0, t[..i], "\n\n\n" + t[i + 3..]);
        RunAppend(BreakStep, n, "\n\n\n", t[i + 3..]);
        assert Run(BreakStep, n, "\n\n\n") == 3;
        BreakAbsorbs(t[i + 3..]);
      }
    }
  }

  lemma {:induction false} UntrimmedAbsorbs(t: string)
    ensures Run(LineStep, Untrimmed, t) == Untrimmed
    decreases |t|
  {
    if t != [] {
      UntrimmedAbsorbs(t[1..]);
    }
  }

  /** The state after a prefix: at a line start exactly after a newline or at the
      very start. */
  lemma LineStateAfter(t: string, i: nat)
    requires 0 < i <= |t|
    ensures var q := Run(LineStep, LineStart, t[..i]);
            q == Untrimmed || (q == LineStart <==> t[i - 1] == '\n')
  {
    assert t[..i] == t[..i - 1] + [t[i - 1]];
    RunAppend(LineStep, LineStart, t[..i - 1], [t[i - 1]]);
    RunOne(LineStep, Run(LineStep, LineStart, t[..i - 1]), t[i - 1]);
  }

  /** The automaton's verdict, position by position. */
  lemma TrimmedLinesAt(t: string)
    requires TrimmedLines(t)
    ensures LinesTrimmedAt(t)
  {
    forall i | 0 <= i < |t| && IsInlineSpace(t[i])
      ensures 0 < i < |t| - 1 && t[i - 1] != '\n' && t[i + 1] != '\n'
    {
      InlineSpaceInside(t, i);
    }
  }

  lemma InlineSpaceInside(t: string, i: nat)
    requires TrimmedLines(t) && i < |t| && IsInlineSpace(t[i])
    ensures 0 < i < |t| - 1 && t[i - 1] != '\n' && t[i + 1] != '\n'
  {
    var q := Run(LineStep, LineStart, t[..i]);
    var q1 := LineStep(q, t[i]);
    assert t == t[..i] + ([t[i]] + t[i + 1..]);
    RunAppend(LineStep, LineStart, t[..i], [t[i]] + t[i + 1..]);
    RunAppend(LineStep, q, [t[i]], t[i + 1..]);
    RunOne(LineStep, q, t[i]);
    UntrimmedAbsorbs(t[i + 1..]);
    if i > 0 {
      LineStateAfter(t, i);
    }
    assert q1 == AfterSpace;
    if i + 1 < |t| {
      assert t[i + 1..] == [t[i + 1]] + t[i + 2..];
      RunAppend(LineStep, q1, [t[i + 1]], t[i + 2..]);
      RunOne(LineStep, q1, t[i + 1]);
      UntrimmedAbsorbs(t[i + 2..]);
    }
  }

  // ---------------------------------------------------------------- inline whitespace

  /** `t` without its whitespace other than newlines. */
  function NonInline(t: string): string {
    if t == [] then [] else (if IsInlineSpace(t[0]) then [] else [t[0]]) + NonInline(t[1..])
  }

  lemma {:induction false} NonInlineAppend(a: string, b: string)
    ensures NonInline(a + b) == NonInline(a) + NonInline(b)
  {
    if a != [] {
      var head := if IsInlineSpace(a[0]) then [] else [a[0]];
      assert (a + b)[1..] == a[1..] + b;
      calc {
        NonInline(a + b);
        head + NonInline(a[1..] + b);
        { NonInlineAppend(a[1..], b); }
        head + (NonInline(a[1..]) + NonInline(b));
        (head + NonInline(a[1..])) + NonInline(b);
      }
    } else {
      assert a + b == b;
    }
  }

  /** The break counter does not see inline whitespace. */
  lemma {:induction false} BreaksIgnoreInline(n: nat, t: string)
    requires n <= 3
    ensures Run(BreakStep, n, t) == Run(BreakStep, n, NonInline(t))
    decreases |t|
  {
    if t != [] {
      BreaksIgnoreInline(BreakStep(n, t[0]), t[1..]);
      if !IsInlineSpace(t[0]) {
        assert NonInline(t) == [t[0]] + NonInline(t[1..]);
        assert ([t[0]] + NonInline(t[1..]))[1..] == NonInline(t[1..]);
      } else {
        assert BreakStep(n, t[0]) == n;
        assert NonInline(t) == NonInline(t[1..]);
      }
    }
  }

  /** Dropping inline whitespace keeps the non-whitespace characters. */
  lemma {:induction false} NonSpaceOfNonInline(t: string)
    ensures NonSpace(NonInline(t)) == NonSpace(t)
  {
    if t != [] {
      var head := if IsInlineSpace(t[0]) then [] else [t[0]];
      NonSpaceOfNonInline(t[1..]);
      NonSpaceAppend(head, NonInline(t[1..]));
      assert NonSpace(head) == if IsSpace(t[0]) then [] else [t[0]];
    }
  }

  // ---------------------------------------------------------------- step 1: blank lines

  /** The part of `g` before its first `c`: all of `g` when there is none. */
  function BeforeFirst(g: string, c: char): (r: string)
    ensures c !in r && r <= g && (c in g ==> |r| < |g| && g[|r|] == c)
  {
    if c in g then g[..IndexOf(g, c)] else g
  }

  /** The part of `g` after its last `c`: all of `g` when there is none. */
  function AfterLast(g: string, c: char): (r: string)
    ensures c !in r && |r| <= |g| && r == g[|g| - |r|..]
    ensures c in g ==> |r| < |g| && g[|g| - |r| - 1] == c
  {
    if c in g then g[LastIndexOf(g, c) + 1..] else g
  }

  /** `\n\s*\n\s*\n+` applied to one maximal whitespace run: when the run holds
      three or more newlines, the span from its first to its last newline
      becomes a single blank line; a run with fewer newlines is left alone. */
  function CollapseRun(g: string): (r: string)
    requires AllSpace(g)
    ensures AllSpace(r)
    ensures multiset(g)['\n'] < 3 ==> r == g
    ensures multiset(g)['\n'] >= 3 ==> multiset(r)['\n'] == 2
    ensures multiset(g)['\n'] >= 3 ==> r == BeforeFirst(g, '\n') + "\n\n" + AfterLast(g, '\n')
  {
    if multiset(g)['\n'] >= 3 then
      var first, last := IndexOf(g, '\n'), LastIndexOf(g, '\n');
      var r := g[..first] + "\n\n" + g[last + 1..];
      assert multiset(g[..first])['\n'] == 0 && multiset(g[last + 1..])['\n'] == 0;
      r
    else g
  }

  /** `re.sub(r'\n\s*\n\s*\n+', '\n\n', s[i..])`, run by run. */
  function CollapseFrom(s: string, i: nat): string
    requires i <= |s|
    decreases |s| - i
  {
    if i == |s| then []
    else if !IsSpace(s[i]) then [s[i]] + CollapseFrom(s, i + 1)
    else
      var n := RunLen(s, i, Space);
      SpaceRun(s, i, n);
      CollapseRun(s[i..i + n]) + CollapseFrom(s, i + n)
  }

  lemma SpaceRun(s: string, i: nat, n: nat)
    requires i + n <= |s| && AllInAt(s, i, i + n, Space)
    ensures AllSpace(s[i..i + n])
  {
  }

  function CollapseBlankRuns(s: string): string {
    CollapseFrom(s, 0)
  }

  /** Whitespace with few newlines moves the break counter by its newlines. */
  lemma {:induction false} BreaksOfSpace(n: nat, x: string)
    requires AllSpace(x) && n + multiset(x)['\n'] < 3
    ensures Run(BreakStep, n, x) == n + multiset(x)['\n']
    decreases |x|
  {
    if x != [] {
      assert x == [x[0]] + x[1..];
      BreaksOfSpace(BreakStep(n, x[0]), x[1..]);
    }
  }

  /** After the blank-line step no whitespace run holds three newlines. */
  lemma {:induction false} CollapseFewBreaks(s: string, i: nat)
    requires i <= |s|
    ensures Run(BreakStep, 0, CollapseFrom(s, i)) < 3
    decreases |s| - i, 1
  {
    if i < |s| {
      if !IsSpace(s[i]) {
        CollapseOther(s, i, 0);
        CollapseFewBreaks(s, i + 1);
      } else {
        var j, m := CollapseSpace(s, i);
        if j < |s| {
          CollapseFewBreaksAfter(s, j, m);
        }
      }
    }
  }

  /** The same, resumed at the character that ends a whitespace run which
      left `q` breaks. */
  lemma {:induction false} CollapseFewBreaksAfter(s: string, i: nat, q: nat)
    requires i < |s| && !IsSpace(s[i]) && q < 3
    ensures Run(BreakStep, q, CollapseFrom(s, i)) < 3
    decreases |s| - i, 0
  {
    CollapseOther(s, i, q);
    CollapseFewBreaks(s, i + 1);
  }

  /** A character other than whitespace resets the break counter. */
  lemma CollapseOther(s: string, i: nat, q: nat)
    requires i < |s| && !IsSpace(s[i]) && q < 3
    ensures Run(BreakStep, q, CollapseFrom(s, i)) == Run(BreakStep, 0, CollapseFrom(s, i + 1))
  {
    RunAppend(BreakStep, q, [s[i]], CollapseFrom(s, i + 1));
    RunOne(BreakStep, q, s[i]);
  }

  /** A collapsed whitespace run of `n` characters leaves the counter at `m < 3`
      before the next character, which is not whitespace. */
  lemma CollapseSpace(s: string, i: nat) returns (j: nat, m: nat)
    requires i < |s| && IsSpace(s[i])
    ensures i < j <= |s| && m < 3
    ensures j < |s| ==> !IsSpace(s[j])
    ensures Run(BreakStep, 0, CollapseFrom(s, i)) == Run(BreakStep, m, CollapseFrom(s, j))
    ensures j == |s| ==> Run(BreakStep, 0, CollapseFrom(s, i)) == m
  {
    j := CollapseAtSpace(s, i);
    var r := CollapseRun(s[i..j]);
    m := multiset(r)['\n'];
    BreaksOfSpace(0, r);
    RunAppend(BreakStep, 0, r, CollapseFrom(s, j));
    if j == |s| {
      assert CollapseFrom(s, j) == [];
    }
  }

  /** The blank-line step at whitespace: the whole run, then the rest. */
  lemma CollapseAtSpace(s: string, i: nat) returns (j: nat)
    requires i < |s| && IsSpace(s[i])
    ensures i < j <= |s| && AllSpace(s[i..j])
    ensures j < |s| ==> !IsSpace(s[j])
    ensures CollapseFrom(s, i) == CollapseRun(s[i..j]) + CollapseFrom(s, j)
  {
    j := i + RunLen(s, i, Space);
    SpaceRun(s, i, j - i);
  }

  /** The blank-line step only changes whitespace. */
  lemma {:induction false} CollapseKeepsNonSpace(s: string, i: nat)
    requires i <= |s|
    ensures NonSpace(CollapseFrom(s, i)) == NonSpace(s[i..])
    decreases |s| - i
  {
    if i < |s| {
      var j := if IsSpace(s[i]) then i + RunLen(s, i, Space) else i + 1;
      CollapseKeepsNonSpace(s, j);
      CollapsePiece(s, i, j);
    }
  }

  /** One piece of the blank-line step keeps the non-whitespace characters of
      the text it replaces. */
  lemma CollapsePiece(s: string, i: nat, j: nat)
    requires i < |s| && j == if IsSpace(s[i]) then i + RunLen(s, i, Space) else i + 1
    requires NonSpace(CollapseFrom(s, j)) == NonSpace(s[j..])
    ensures NonSpace(CollapseFrom(s, i)) == NonSpace(s[i..])
  {
    var piece := if IsSpace(s[i]) then (SpaceRun(s, i, j - i); CollapseRun(s[i..j])) else [s[i]];
    assert CollapseFrom(s, i) == piece + CollapseFrom(s, j);
    assert s[i..] == s[i..j] + s[j..];
    NonSpaceAppend(piece, CollapseFrom(s, j));
    NonSpaceAppend(s[i..j], s[j..]);
    if IsSpace(s[i]) {
      SpaceRun(s, i, j - i);
      NonSpaceOfSpaces(piece);
      NonSpaceOfSpaces(s[i..j]);
    } else {
      assert s[i..j] == piece;
    }
  }

  // ---------------------------------------------------------------- step 2: strip each line

  function StripAll(lines: seq<string>): (r: seq<string>)
    ensures |r| == |lines| && forall k :: 0 <= k < |r| ==> r[k] == Strip(lines[k])
  {
    seq(|lines|, k requires 0 <= k < |lines| => Strip(lines[k]))
  }

  /** `'\n'.join(line.strip() for line in s.split('\n'))`. */
  function StripLines(s: string): string {
    Join("\n", StripAll(Split(s, '\n')))
  }

  lemma {:induction false} NonInlineOfInline(x: string)
    requires forall k :: 0 <= k < |x| ==> IsInlineSpace(x[k])
    ensures NonInline(x) == []
  {
    if x != [] {
      NonInlineOfInline(x[1..]);
    }
  }

  /** Stripping a line without newlines drops inline whitespace only. */
  lemma StripNonInline(l: string)
    requires '\n' !in l
    ensures NonInline(Strip(l)) == NonInline(l)
    ensures '\n' !in Strip(l)
  {
    var r := Strip(l);
    var a := LeadingSpaces(l);
    var b := a + |r|;
    var left, right := l[0..a], l[b..|l|];
    ThreeSlices(l, a, b);
    InlineSpaces(l, 0, a);
    InlineSpaces(l, b, |l|);
    NonInlineAppend(left, r + right);
    NonInlineAppend(r, right);
    assert NonInline(l) == [] + (NonInline(r) + []);
    StripNoBreak(l);
  }

  lemma ThreeSlices(l: string, a: nat, b: nat)
    requires a <= b <= |l|
    ensures l == l[0..a] + (l[a..b] + l[b..|l|])
  {
  }

  /** Stripping adds no newline. */
  lemma StripNoBreak(l: string)
    requires '\n' !in l
    ensures '\n' !in Strip(l)
  {
    var r := Strip(l);
    var a := LeadingSpaces(l);
    forall k | 0 <= k < |r|
      ensures r[k] != '\n'
    {
      assert r[k] == l[a + k];
    }
  }

  /** Whitespace taken from a line without newlines is inline whitespace. */
  lemma InlineSpaces(l: string, lo: nat, hi: nat)
    requires '\n' !in l && lo <= hi <= |l| && AllSpace(l[lo..hi])
    ensures NonInline(l[lo..hi]) == []
  {
    var x := l[lo..hi];
    forall k | 0 <= k < |x|
      ensures IsInlineSpace(x[k])
    {
      assert x[k] == l[lo + k];
    }
    NonInlineOfInline(x);
  }

  /** Joining lines with newlines keeps what their inline-free forms say. */
  lemma {:induction false} JoinNonInline(ls: seq<string>, ms: seq<string>)
    requires |ls| == |ms| && forall k :: 0 <= k < |ls| ==> NonInline(ls[k]) == NonInline(ms[k])
    ensures NonInline(Join("\n", ls)) == NonInline(Join("\n", ms))
  {
    if |ls| >= 2 {
      JoinNonInline(ls[1..], ms[1..]);
      var x, y := Join("\n", ls[1..]), Join("\n", ms[1..]);
      NonInlineAppend(ls[0] + "\n", x);
      NonInlineAppend(ls[0], "\n");
      NonInlineAppend(ms[0] + "\n", y);
      NonInlineAppend(ms[0], "\n");
    }
  }

  /** Stripping the lines changes inline whitespace only. */
  lemma StripLinesNonInline(s: string)
    ensures NonInline(StripLines(s)) == NonInline(s)
  {
    var lines := Split(s, '\n');
    forall k | 0 <= k < |lines|
      ensures NonInline(StripAll(lines)[k]) == NonInline(lines[k])
    {
      StripNonInline(lines[k]);
    }
    JoinNonInline(StripAll(lines), lines);
    JoinSplit(s, '\n');
  }

  /** A stripped line leaves the line automaton in text, or at the line start
      when empty. */
  lemma StrippedLineState(l: string)
    requires '\n' !in l && (l == [] || (!IsSpace(l[0]) && !IsSpace(l[|l| - 1])))
    ensures Run(LineStep, LineStart, l) == if l == [] then LineStart else InText
  {
    if l != [] {
      PrefixState(l, |l|);
      assert l[..|l|] == l;
    }
  }

  lemma {:induction false} PrefixState(l: string, k: nat)
    requires '\n' !in l && 0 < k <= |l| && !IsSpace(l[0])
    ensures Run(LineStep, LineStart, l[..k]) == if IsSpace(l[k - 1]) then AfterSpace else InText
  {
    if k == 1 {
      assert l[..1] == [l[0]];
      RunOne(LineStep, LineStart, l[0]);
    } else {
      PrefixState(l, k - 1);
      assert l[..k] == l[..k - 1] + [l[k - 1]];
      RunAppend(LineStep, LineStart, l[..k - 1], [l[k - 1]]);
      RunOne(LineStep, Run(LineStep, LineStart, l[..k - 1]), l[k - 1]);
    }
  }

  /** Stripped lines joined by newlines pass the line automaton. */
  lemma {:induction false} JoinTrimmed(ls: seq<string>)
    requires |ls| >= 1
    requires forall k :: 0 <= k < |ls| ==> '\n' !in ls[k] && (ls[k] == [] || (!IsSpace(ls[k][0]) && !IsSpace(ls[k][|ls[k]| - 1])))
    ensures TrimmedLines(Join("\n", ls))
  {
    StrippedLineState(ls[0]);
    if |ls| >= 2 {
      JoinTrimmed(ls[1..]);
      var q := Run(LineStep, LineStart, ls[0]);
      calc {
        Run(LineStep, LineStart, Join("\n", ls));
        { RunAppend(LineStep, LineStart, ls[0] + "\n", Join("\n", ls[1..])); }
        Run(LineStep, Run(LineStep, LineStart, ls[0] + "\n"), Join("\n", ls[1..]));
        { RunAppend(LineStep, LineStart, ls[0], "\n"); RunOne(LineStep, q, '\n'); }
        Run(LineStep, LineStart, Join("\n", ls[1..]));
      }
    }
  }

  /** After stripping, every line passes the line automaton. */
  lemma StripLinesTrimmed(s: string)
    ensures TrimmedLines(StripLines(s))
  {
    var lines := Split(s, '\n');
    forall k | 0 <= k < |lines|
      ensures '\n' !in StripAll(lines)[k]
    {
      StripNonInline(lines[k]);
    }
    JoinTrimmed(StripAll(lines));
  }

  // ---------------------------------------------------------------- step 3: runs of spaces

  const SpacesItems: seq<Item> := [Repeat(Blank, 2, None)]

  /** `re.sub(r' {2,}', ' ', s)`. */
  const SpacesRule: Rule := Rule(SpacesItems, Fixed(" "))

  function SqueezeSpaces(s: string): string {
    Sub(SpacesRule, s)
  }

  /** ` {2,}` matches the whole run of spaces at `i` when it has two or more. */
  lemma SpacesMatch(s: string, i: nat)
    requires i <= |s|
    ensures Match(SpacesItems, s, i) == if RunLen(s, i, Blank) >= 2 then Some(RunLen(s, i, Blank)) else None
  {
    var n := RunLen(s, i, Blank);
    assert SpacesItems[1..] == [];
    assert Match(SpacesItems[1..], s, i + n) == Some(0);
  }

  /** A state machine whose step on a space does the same once or many times. */
  ghost predicate SpaceIdempotent<S(!new)>(step: (S, char) -> S) {
    forall x: S :: step(step(x, ' '), ' ') == step(x, ' ')
  }

  lemma {:induction false} RunSpaces<S(!new)>(step: (S, char) -> S, q: S, x: string)
    requires SpaceIdempotent(step) && x != [] && forall k :: 0 <= k < |x| ==> x[k] == ' '
    ensures Run(step, q, x) == step(q, ' ')
    decreases |x|
  {
    if |x| > 1 {
      RunSpaces(step, step(q, ' '), x[1..]);
    }
  }

  /** Where the scan of the squeeze goes after position `i`, and what it emits
      for `s[i..SqueezeEnd(s, i)]`. */
  function SqueezeEnd(s: string, i: nat): (j: nat)
    requires i < |s|
    ensures i < j <= |s|
  {
    if RunLen(s, i, Blank) >= 2 then i + RunLen(s, i, Blank) else i + 1
  }

  function SqueezeOut(s: string, i: nat): string
    requires i < |s|
  {
    if RunLen(s, i, Blank) >= 2 then " " else [s[i]]
  }

  lemma SqueezeStep(s: string, i: nat)
    requires i < |s|
    ensures SubFrom(SpacesRule, s, i) == SqueezeOut(s, i) + SubFrom(SpacesRule, s, SqueezeEnd(s, i))
  {
    SpacesMatch(s, i);
  }

  /** Such a machine cannot tell a text from its squeezed form. */
  lemma {:induction false} SqueezeRun<S(!new)>(step: (S, char) -> S, q: S, s: string, i: nat)
    requires i <= |s| && SpaceIdempotent(step)
    ensures Run(step, q, SubFrom(SpacesRule, s, i)) == Run(step, q, s[i..])
    decreases |s| - i
  {
    if i < |s| {
      var j, piece := SqueezeEnd(s, i), SqueezeOut(s, i);
      var q' := Run(step, q, piece);
      calc {
        Run(step, q, SubFrom(SpacesRule, s, i));
        { SqueezeStep(s, i); RunAppend(step, q, piece, SubFrom(SpacesRule, s, j)); }
        Run(step, q', SubFrom(SpacesRule, s, j));
        { SqueezeRun(step, q', s, j); }
        Run(step, q', s[j..]);
        { SqueezePiece(step, q, s, i); RunAppend(step, q, s[i..j], s[j..]); }
        Run(step, q, s[i..j] + s[j..]);
        { assert s[i..] == s[i..j] + s[j..]; }
        Run(step, q, s[i..]);
      }
    }
  }

  lemma SqueezePiece<S(!new)>(step: (S, char) -> S, q: S, s: string, i: nat)
    requires i < |s| && SpaceIdempotent(step)
    ensures Run(step, q, SqueezeOut(s, i)) == Run(step, q, s[i..SqueezeEnd(s, i)])
  {
    var j := SqueezeEnd(s, i);
    if RunLen(s, i, Blank) >= 2 {
      RunSpaces(step, q, s[i..j]);
      RunSpaces(step, q, SqueezeOut(s, i));
    } else {
      assert s[i..j] == SqueezeOut(s, i);
    }
  }

  /** The squeezed text starts with a space exactly when the text does. */
  lemma SqueezeHead(s: string, i: nat)
    requires i < |s|
    ensures SubFrom(SpacesRule, s, i) != [] && (SubFrom(SpacesRule, s, i)[0] == ' ' <==> s[i] == ' ')
  {
    SpacesMatch(s, i);
  }

  /** After squeezing, no two spaces are adjacent. */
  lemma {:induction false} SqueezeNoDouble(s: string, i: nat)
    requires i <= |s|
    ensures NoDoubleSpace(SubFrom(SpacesRule, s, i))
    decreases |s| - i
  {
    if i < |s| {
      SpacesMatch(s, i);
      var n := RunLen(s, i, Blank);
      var j := if n >= 2 then i + n else i + 1;
      var c := if n >= 2 then ' ' else s[i];
      assert SubFrom(SpacesRule, s, i) == [c] + SubFrom(SpacesRule, s, j);
      SqueezeNoDouble(s, j);
      if j < |s| {
        SqueezeHead(s, j);
      }
      NoDoubleSpaceCons(c, SubFrom(SpacesRule, s, j));
    }
  }

  lemma NoDoubleSpaceCons(c: char, rest: string)
    requires NoDoubleSpace(rest) && (c == ' ' && rest != [] ==> rest[0] != ' ')
    ensures NoDoubleSpace([c] + rest)
  {
    var t := [c] + rest;
    forall i | 0 <= i < |t|
      ensures !DoubleSpaceAt(t, i)
    {
      if i > 0 {
        assert !DoubleSpaceAt(rest, i - 1);
      }
    }
  }

  /** The automaton that collects the non-whitespace characters. */
  function KeepStep(acc: string, c: char): string {
    if IsSpace(c) then acc else acc + [c]
  }

  lemma {:induction false} RunKeep(acc: string, t: string)
    ensures Run(KeepStep, acc, t) == acc + NonSpace(t)
    decreases |t|
  {
    if t != [] {
      RunKeep(KeepStep(acc, t[0]), t[1..]);
    }
  }

  /** Squeezing keeps the non-whitespace characters, the break counter and the
      line automaton. */
  lemma SqueezeFacts(s: string)
    ensures NonSpace(SqueezeSpaces(s)) == NonSpace(s)
    ensures Run(BreakStep, 0, SqueezeSpaces(s)) == Run(BreakStep, 0, s)
    ensures Run(LineStep, LineStart, SqueezeSpaces(s)) == Run(LineStep, LineStart, s)
    ensures NoDoubleSpace(SqueezeSpaces(s))
  {
    assert s[0..] == s;
    SqueezeRun(KeepStep, [], s, 0);
    RunKeep([], s);
    RunKeep([], SqueezeSpaces(s));
    assert [] + NonSpace(s) == NonSpace(s);
    assert [] + NonSpace(SqueezeSpaces(s)) == NonSpace(SqueezeSpaces(s));
    SqueezeRun(BreakStep, 0, s, 0);
    SqueezeRun(LineStep, LineStart, s, 0);
    SqueezeNoDouble(s, 0);
  }

  // ---------------------------------------------------------------- step 4 and the whole cleanup

  /** Stripping the whole text keeps the shape inside it. */
  lemma StripShape(t: string)
    requires NoDoubleSpace(t) && NoTripleBreak(t) && LinesTrimmedAt(t)
    ensures Tidy(Strip(t))
  {
    var r := Strip(t);
    var a := LeadingSpaces(t);
    assert forall k :: 0 <= k < |r| ==> r[k] == t[a + k];
    forall i | 0 <= i < |r|
      ensures !DoubleSpaceAt(r, i) && !TripleBreakAt(r, i)
    {
      assert !DoubleSpaceAt(t, a + i) && !TripleBreakAt(t, a + i);
    }
    forall i | 0 <= i < |r| && IsInlineSpace(r[i])
      ensures 0 < i < |r| - 1 && r[i - 1] != '\n' && r[i + 1] != '\n'
    {
      assert IsInlineSpace(t[a + i]);
    }
  }

  /** What the four cleanup steps (blank lines, line ends, runs of spaces, the
      ends of the text) do to the shape and the content of a text. */
  lemma CleanupFacts(s: string, collapsed: string, stripped: string, squeezed: string)
    requires collapsed == CollapseBlankRuns(s) && stripped == StripLines(collapsed)
    requires squeezed == SqueezeSpaces(stripped)
    ensures Tidy(Strip(squeezed)) && NonSpace(Strip(squeezed)) == NonSpace(s)
  {
    CollapseFewBreaks(s, 0);
    CollapseKeepsNonSpace(s, 0);
    assert s[0..] == s;
    StripLinesNonInline(collapsed);
    BreaksIgnoreInline(0, collapsed);
    BreaksIgnoreInline(0, stripped);
    NonSpaceOfNonInline(collapsed);
    NonSpaceOfNonInline(stripped);
    StripLinesTrimmed(collapsed);
    SqueezeFacts(stripped);
    FewBreaksNoTriple(squeezed);
    TrimmedLinesAt(squeezed);
    StripShape(squeezed);
    StripKeepsNonSpace(squeezed);
  }
}
