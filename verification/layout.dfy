/** The layout of a text: the whitespace runs ("gaps") around its
    non-whitespace characters. A text is its gaps woven with its characters, and
    each of the four cleanup steps rewrites the gaps one by one while the
    characters stay. Composing the four rewrites gives an independent
    description of what the cleanup does to every gap. */
module Layout {
  import opened Strings
  import opened Patterns
  import opened Whitespace

  // ---------------------------------------------------------------- gaps and weaving

  /** The number of newlines in `g`. */
  function Breaks(g: string): nat {
    multiset(g)['\n']
  }

  /** A text of `n` newlines. */
  function Newlines(n: nat): (r: string)
    ensures |r| == n && forall k :: 0 <= k < n ==> r[k] == '\n'
  {
    seq(n, k => '\n')
  }

  /** The whitespace runs of `t`: the one before its first non-whitespace
      character, the ones between consecutive non-whitespace characters, and the
      one after the last; possibly empty, one more than there are characters. */
  function Gaps(t: string): (gs: seq<string>)
    ensures |gs| >= 1
    decreases |t|
  {
    if t == [] then [[]]
    else
      var rest := Gaps(t[1..]);
      if IsSpace(t[0]) then [[t[0]] + rest[0]] + rest[1..] else [[]] + rest
  }

  /** The runs `gs` and the characters `cs` of a text, in the shape `Gaps` and
      `NonSpace` give them. */
  predicate Woven(gs: seq<string>, cs: string) {
    && |gs| == |cs| + 1
    && (forall i :: 0 <= i < |gs| ==> AllSpace(gs[i]))
    && (forall i :: 0 <= i < |cs| ==> !IsSpace(cs[i]))
  }

  /** The text with the runs `gs` around the characters `cs`. */
  function Weave(gs: seq<string>, cs: string): string
    requires |gs| == |cs| + 1
    decreases |cs|
  {
    if cs == [] then gs[0] else gs[0] + [cs[0]] + Weave(gs[1..], cs[1..])
  }

  lemma {:induction false} NonSpaceChars(t: string)
    ensures forall i :: 0 <= i < |NonSpace(t)| ==> !IsSpace(NonSpace(t)[i])
    decreases |t|
  {
    if t != [] {
      NonSpaceChars(t[1..]);
    }
  }

  /** Text put in front of a weave joins its first run. */
  lemma WeavePrepend(x: string, gs: seq<string>, cs: string)
    requires |gs| == |cs| + 1
    ensures Weave([x + gs[0]] + gs[1..], cs) == x + Weave(gs, cs)
  {
    var hs := [x + gs[0]] + gs[1..];
    assert hs[0] == x + gs[0] && hs[1..] == gs[1..];
  }

  /** Every text is the weave of its runs and its characters. */
  lemma {:induction false} WeaveGaps(t: string)
    ensures Woven(Gaps(t), NonSpace(t))
    ensures Weave(Gaps(t), NonSpace(t)) == t
    decreases |t|
  {
    NonSpaceChars(t);
    if t != [] {
      var gs, cs := Gaps(t[1..]), NonSpace(t[1..]);
      WeaveGaps(t[1..]);
      if IsSpace(t[0]) {
        assert NonSpace(t) == cs;
        assert AllSpace([t[0]] + gs[0]);
        WeavePrepend([t[0]], gs, cs);
      } else {
        assert NonSpace(t) == [t[0]] + cs;
        assert Gaps(t) == [[]] + gs;
        assert ([[]] + gs)[1..] == gs && ([t[0]] + cs)[1..] == cs;
      }
    }
  }

  /** The runs of an all-whitespace text are the text itself. */
  lemma {:induction false} GapsOfSpace(g: string)
    requires AllSpace(g)
    ensures Gaps(g) == [g] && NonSpace(g) == []
    decreases |g|
  {
    if g != [] {
      GapsOfSpace(g[1..]);
      assert [g[0]] + g[1..] == g;
    }
  }

  /** A weave is read back into its runs and characters. */
  lemma {:induction false} GapsOfWeave(gs: seq<string>, cs: string)
    requires Woven(gs, cs)
    ensures Gaps(Weave(gs, cs)) == gs && NonSpace(Weave(gs, cs)) == cs
    decreases |cs|
  {
    if cs == [] {
      GapsOfSpace(gs[0]);
    } else {
      var c, w := cs[0], Weave(gs[1..], cs[1..]);
      assert Woven(gs[1..], cs[1..]);
      GapsOfWeave(gs[1..], cs[1..]);
      var t := [c] + w;
      assert t[1..] == w;
      assert Gaps(t) == [[]] + gs[1..] && NonSpace(t) == [c] + cs[1..];
      GapsPrefix(gs[0], t);
      NonSpaceAppend(gs[0], t);
      NonSpaceOfSpaces(gs[0]);
      assert gs[0] + [c] + w == gs[0] + t;
      var g := Gaps(t);
      assert g[0] == [] && g[1..] == gs[1..];
      assert gs[0] + g[0] == gs[0];
      assert [gs[0]] + gs[1..] == gs;
    }
  }

  /** One character put in front of a text. */
  lemma GapsCons(c: char, t: string)
    ensures Gaps([c] + t) == if IsSpace(c) then [[c] + Gaps(t)[0]] + Gaps(t)[1..] else [[]] + Gaps(t)
  {
    assert ([c] + t)[1..] == t;
  }

  /** Whitespace put in front of a text joins its first run. */
  lemma {:induction false} GapsPrefix(x: string, t: string)
    requires AllSpace(x)
    ensures Gaps(x + t) == [x + Gaps(t)[0]] + Gaps(t)[1..]
    decreases |x|
  {
    var g := Gaps(t);
    if x == [] {
      assert x + t == t && x + g[0] == g[0];
      assert [g[0]] + g[1..] == g;
    } else {
      GapsPrefix(x[1..], t);
      GapsPrefixStep(x, t);
    }
  }

  lemma GapsPrefixStep(x: string, t: string)
    requires x != [] && IsSpace(x[0])
    requires Gaps(x[1..] + t) == [x[1..] + Gaps(t)[0]] + Gaps(t)[1..]
    ensures Gaps(x + t) == [x + Gaps(t)[0]] + Gaps(t)[1..]
  {
    var g, u := Gaps(t), x[1..] + t;
    ConsAppend(x, t);
    GapsConsSpace(x[0], u);
    var r := Gaps(u);
    assert r[0] == x[1..] + g[0] && r[1..] == g[1..];
    ConsAppend(x, g[0]);
  }

  lemma ConsAppend(x: string, y: string)
    requires x != []
    ensures [x[0]] + (x[1..] + y) == x + y
  {
    assert [x[0]] + x[1..] == x;
  }

  lemma GapsConsSpace(c: char, u: string)
    requires IsSpace(c)
    ensures Gaps([c] + u) == [[c] + Gaps(u)[0]] + Gaps(u)[1..]
  {
    assert ([c] + u)[1..] == u;
  }

  /** The runs of `a + b`: the last run of `a` and the first of `b` meet. */
  function Glue(xs: seq<string>, ys: seq<string>): (r: seq<string>)
    requires |xs| >= 1 && |ys| >= 1
    ensures |r| == |xs| + |ys| - 1
  {
    xs[..|xs| - 1] + [xs[|xs| - 1] + ys[0]] + ys[1..]
  }

  /** The runs of `[x] + xs` glued to `ys`. */
  lemma GlueCons(x: string, xs: seq<string>, ys: seq<string>)
    requires |xs| >= 1 && |ys| >= 1
    ensures Glue([x] + xs, ys) == [x] + Glue(xs, ys)
  {
    var zs := [x] + xs;
    assert zs[..|zs| - 1] == [x] + xs[..|xs| - 1];
  }

  /** The runs and characters of a concatenation. */
  lemma {:induction false} GapsConcat(a: string, b: string)
    ensures Gaps(a + b) == Glue(Gaps(a), Gaps(b))
    ensures NonSpace(a + b) == NonSpace(a) + NonSpace(b)
    decreases |a|
  {
    NonSpaceAppend(a, b);
    var ys := Gaps(b);
    if a == [] {
      assert a + b == b;
      GlueEmpty(ys);
    } else {
      GapsConcat(a[1..], b);
      ConsAppend(a, b);
      GapsConcatStep(a[0], a[1..], b);
    }
  }

  lemma GlueEmpty(ys: seq<string>)
    requires |ys| >= 1
    ensures Glue([[]], ys) == ys
  {
    assert [] + ys[0] == ys[0];
    assert [ys[0]] + ys[1..] == ys;
  }

  lemma GapsConcatStep(c: char, a: string, b: string)
    requires Gaps(a + b) == Glue(Gaps(a), Gaps(b))
    ensures Gaps([c] + (a + b)) == Glue(Gaps([c] + a), Gaps(b))
  {
    var xs, ys := Gaps(a), Gaps(b);
    if !IsSpace(c) {
      GapsConsChar(c, a + b);
      GapsConsChar(c, a);
      GlueCons([], xs, ys);
    } else {
      GapsConsSpace(c, a + b);
      GapsConsSpace(c, a);
      GlueSpace(c, xs, ys);
    }
  }

  /** Whitespace put in front of the first of the glued runs. */
  lemma GlueSpace(c: char, xs: seq<string>, ys: seq<string>)
    requires |xs| >= 1 && |ys| >= 1
    ensures var g := Glue(xs, ys);
            [[c] + g[0]] + g[1..] == Glue([[c] + xs[0]] + xs[1..], ys)
  {
    if |xs| == 1 {
      assert Glue(xs, ys) == [xs[0] + ys[0]] + ys[1..];
      assert [[c] + xs[0]] + xs[1..] == [[c] + xs[0]];
      assert Glue([[c] + xs[0]], ys) == [[c] + xs[0] + ys[0]] + ys[1..];
      assert [c] + (xs[0] + ys[0]) == [c] + xs[0] + ys[0];
    } else {
      GlueCons([c] + xs[0], xs[1..], ys);
      GlueCons(xs[0], xs[1..], ys);
      assert [xs[0]] + xs[1..] == xs;
    }
  }



  /** A text with no non-whitespace character is all whitespace. */
  lemma {:induction false} NoNonSpace(t: string)
    requires NonSpace(t) == []
    ensures AllSpace(t)
    decreases |t|
  {
    if t != [] {
      NoNonSpace(t[1..]);
    }
  }

  /** Text put after a weave joins its last run. */
  lemma {:induction false} WeaveAppend(gs: seq<string>, cs: string, y: string)
    requires |gs| == |cs| + 1
    ensures Weave(gs[..|gs| - 1] + [gs[|gs| - 1] + y], cs) == Weave(gs, cs) + y
    decreases |cs|
  {
    if cs != [] {
      WeaveAppend(gs[1..], cs[1..], y);
      WeaveAppendStep(gs, cs, y);
    }
  }

  lemma WeaveAppendStep(gs: seq<string>, cs: string, y: string)
    requires |gs| == |cs| + 1 && cs != []
    requires var ts := gs[1..];
             Weave(ts[..|ts| - 1] + [ts[|ts| - 1] + y], cs[1..]) == Weave(ts, cs[1..]) + y
    ensures Weave(gs[..|gs| - 1] + [gs[|gs| - 1] + y], cs) == Weave(gs, cs) + y
  {
    var hs := gs[..|gs| - 1] + [gs[|gs| - 1] + y];
    var ts := gs[1..];
    assert hs[0] == gs[0];
    assert hs[1..] == ts[..|ts| - 1] + [ts[|ts| - 1] + y];
    var w := Weave(ts, cs[1..]);
    assert gs[0] + [cs[0]] + (w + y) == gs[0] + [cs[0]] + w + y;
  }

  /** A weave whose last run is empty ends with its last character. */
  lemma {:induction false} WeaveLast(gs: seq<string>, cs: string)
    requires |gs| == |cs| + 1 && cs != [] && gs[|gs| - 1] == []
    ensures var w := Weave(gs, cs); w != [] && w[|w| - 1] == cs[|cs| - 1]
    decreases |cs|
  {
    if |cs| > 1 {
      WeaveLast(gs[1..], cs[1..]);
    }
  }

  // ---------------------------------------------------------------- step 4: strip

  /** The runs with the first and the last emptied. */
  function ClearEdges(gs: seq<string>): (r: seq<string>)
    requires |gs| >= 1
    ensures |r| == |gs|
  {
    if |gs| == 1 then [[]] else [[]] + gs[1..|gs| - 1] + [[]]
  }

  /** Whitespace around a text whose ends are not whitespace is what
      `strip` removes, and only that. */
  lemma StripUnique(x: string, w: string, y: string)
    requires AllSpace(x) && AllSpace(y)
    requires w != [] && !IsSpace(w[0]) && !IsSpace(w[|w| - 1])
    ensures Strip(x + w + y) == w
  {
    var s := x + w + y;
    var a, r := LeadingSpaces(s), Strip(s);
    assert s[|x|] == w[0];
    assert a == |x|;
    assert !AllSpace(s) by {
      assert !IsSpace(s[|x|]);
    }
    var e := |x| + |w|;
    assert s[e - 1] == w[|w| - 1];
    assert a + |r| == e;
    assert r == s[|x|..e] == w;
  }

  lemma EdgesWoven(gs: seq<string>, cs: string)
    requires Woven(gs, cs)
    ensures Woven(ClearEdges(gs), cs)
  {
    var es := ClearEdges(gs);
    forall i | 0 <= i < |gs|
      ensures AllSpace(es[i])
    {
      if 0 < i < |gs| - 1 {
        assert es[i] == gs[i];
      }
    }
  }

  /** Putting the edge runs back into the emptied runs gives the runs. */
  lemma EdgesRestored(gs: seq<string>)
    requires |gs| >= 2
    ensures var es := ClearEdges(gs);
            var ms := [gs[0] + es[0]] + es[1..];
            ms[..|gs| - 1] + [ms[|gs| - 1] + gs[|gs| - 1]] == gs
  {
    var n := |gs|;
    var es := ClearEdges(gs);
    assert es == [[]] + gs[1..n - 1] + [[]];
    assert es[0] == [] && gs[0] + es[0] == gs[0];
    assert es[1..] == gs[1..n - 1] + [[]];
    var ms := [gs[0] + es[0]] + es[1..];
    assert ms == [gs[0]] + (gs[1..n - 1] + [[]]);
    assert ms[..n - 1] == gs[..n - 1] && ms[n - 1] == [];
    assert ms[n - 1] + gs[n - 1] == gs[n - 1];
    assert gs[..n - 1] + [gs[n - 1]] == gs;
  }

  /** A weave is its first run, the weave with both edge runs emptied, and its
      last run. */
  lemma WeaveEdges(gs: seq<string>, cs: string)
    requires |gs| == |cs| + 1 && cs != []
    ensures Weave(gs, cs) == gs[0] + Weave(ClearEdges(gs), cs) + gs[|gs| - 1]
  {
    var es := ClearEdges(gs);
    var ms := [gs[0] + es[0]] + es[1..];
    EdgesRestored(gs);
    WeavePrepend(gs[0], es, cs);
    WeaveAppend(ms, cs, gs[|gs| - 1]);
  }

  /** `strip` on a weave empties its first and last runs. */
  lemma StripWeave(gs: seq<string>, cs: string)
    requires Woven(gs, cs) && cs != []
    ensures Strip(Weave(gs, cs)) == Weave(ClearEdges(gs), cs)
    ensures Woven(ClearEdges(gs), cs)
  {
    EdgesWoven(gs, cs);
    WeaveEdges(gs, cs);
    WeaveLast(ClearEdges(gs), cs);
    StripUnique(gs[0], Weave(ClearEdges(gs), cs), gs[|gs| - 1]);
  }

  /** `strip` empties the first and the last run of a text and keeps the rest. */
  lemma StripGaps(t: string)
    ensures Gaps(Strip(t)) == ClearEdges(Gaps(t))
  {
    WeaveGaps(t);
    var gs, cs := Gaps(t), NonSpace(t);
    if cs == [] {
      NoNonSpace(t);
    } else {
      StripWeave(gs, cs);
      GapsOfWeave(ClearEdges(gs), cs);
    }
  }

  // ---------------------------------------------------------------- step 3: squeeze spaces

  /** Whether the first character of `t` survives the squeeze: a space does not
      when a space follows it. */
  function SquashHead(t: string): string
    requires t != []
  {
    if |t| >= 2 && t[0] == ' ' && t[1] == ' ' then [] else [t[0]]
  }

  /** The squeeze read one character at a time: of every run of spaces only the
      last one stays. */
  function Squash(t: string): string
    decreases |t|
  {
    if t == [] then [] else SquashHead(t) + Squash(t[1..])
  }

  /** A run of spaces `s[i..j]` leaves one space. */
  lemma {:induction false} SquashSpaces(s: string, i: nat, j: nat)
    requires i < j <= |s| && AllInAt(s, i, j, Blank) && (j == |s| || s[j] != ' ')
    ensures Squash(s[i..]) == " " + Squash(s[j..])
    decreases j - i
  {
    SliceCons(s, i);
    if j > i + 1 {
      SquashSpaces(s, i + 1, j);
    }
  }

  /** The substitution `re.sub(' {2,}', ' ', ...)` is `Squash`. */
  lemma {:induction false} SqueezeIsSquash(s: string, i: nat)
    requires i <= |s|
    ensures SubFrom(SpacesRule, s, i) == Squash(s[i..])
    decreases |s| - i
  {
    if i < |s| {
      SqueezeStep(s, i);
      var j := SqueezeEnd(s, i);
      SqueezeIsSquash(s, j);
      if RunLen(s, i, Blank) >= 2 {
        SquashSpaces(s, i, j);
      } else {
        SliceCons(s, i);
      }
    }
  }

  lemma {:induction false} SquashConcat(x: string, y: string)
    requires x == [] || x[|x| - 1] != ' ' || y == [] || y[0] != ' '
    ensures Squash(x + y) == Squash(x) + Squash(y)
    decreases |x|
  {
    if x == [] {
      assert x + y == y;
    } else {
      SquashConcat(x[1..], y);
      SliceAppend(x, y, 1);
      assert SquashHead(x + y) == SquashHead(x) by {
        ConcatHead(x, y);
        if |x| == 1 && y != [] {
          assert (x + y)[1] == y[0];
        } else if |x| >= 2 {
          assert (x + y)[1] == x[1];
        }
      }
      assert SquashHead(x) + (Squash(x[1..]) + Squash(y)) == SquashHead(x) + Squash(x[1..]) + Squash(y);
    }
  }

  lemma SliceAppend(x: string, y: string, n: nat)
    requires n <= |x|
    ensures (x + y)[n..] == x[n..] + y
  {
  }

  lemma ConcatHead(x: string, y: string)
    requires x != []
    ensures (x + y)[0] == x[0]
  {
  }

  lemma SqueezeConcat(x: string, y: string)
    requires x == [] || x[|x| - 1] != ' ' || y == [] || y[0] != ' '
    ensures SqueezeSpaces(x + y) == SqueezeSpaces(x) + SqueezeSpaces(y)
  {
    SqueezeIsSquash(x + y, 0);
    SqueezeIsSquash(x, 0);
    SqueezeIsSquash(y, 0);
    SquashConcat(x, y);
    assert (x + y)[0..] == x + y && x[0..] == x && y[0..] == y;
  }

  /** A text without spaces is left alone by the squeeze. */
  lemma {:induction false} SqueezeNoBlank(t: string, i: nat)
    requires i <= |t| && ' ' !in t
    ensures SubFrom(SpacesRule, t, i) == t[i..]
    decreases |t| - i
  {
    if i < |t| {
      SqueezeStep(t, i);
      SqueezeNoBlank(t, i + 1);
      assert t[i..] == [t[i]] + t[i + 1..];
    }
  }

  /** The runs squeezed one by one. */
  function SqueezeGaps(gs: seq<string>): (r: seq<string>)
    ensures |r| == |gs| && forall i :: 0 <= i < |gs| ==> r[i] == SqueezeSpaces(gs[i])
  {
    seq(|gs|, i requires 0 <= i < |gs| => SqueezeSpaces(gs[i]))
  }

  lemma {:induction false} SqueezeWeave(gs: seq<string>, cs: string)
    requires |gs| == |cs| + 1 && forall i :: 0 <= i < |cs| ==> !IsSpace(cs[i])
    ensures SqueezeSpaces(Weave(gs, cs)) == Weave(SqueezeGaps(gs), cs)
    decreases |cs|
  {
    if cs != [] {
      var c, w := cs[0], Weave(gs[1..], cs[1..]);
      SqueezeWeave(gs[1..], cs[1..]);
      SqueezeConcat(gs[0], [c] + w);
      SqueezeConcat([c], w);
      SqueezeNoBlank([c], 0);
      assert gs[0] + [c] + w == gs[0] + ([c] + w);
      assert SqueezeGaps(gs)[1..] == SqueezeGaps(gs[1..]);
    }
  }

  /** `re.sub(' {2,}', ' ', ...)` squeezes each run of a text on its own. */
  lemma SqueezeGapsOf(t: string)
    ensures Gaps(SqueezeSpaces(t)) == SqueezeGaps(Gaps(t))
  {
    WeaveGaps(t);
    var gs, cs := Gaps(t), NonSpace(t);
    SqueezeWeave(gs, cs);
    var qs := SqueezeGaps(gs);
    forall i | 0 <= i < |qs|
      ensures AllSpace(qs[i])
    {
      SqueezeFacts(gs[i]);
      NonSpaceOfSpaces(gs[i]);
      NoNonSpace(qs[i]);
    }
    GapsOfWeave(qs, cs);
  }

  // ---------------------------------------------------------------- step 1: collapse blank lines

  /** The runs collapsed one by one. */
  function CollapseGaps(gs: seq<string>): (r: seq<string>)
    requires forall i :: 0 <= i < |gs| ==> AllSpace(gs[i])
    ensures |r| == |gs|
  {
    seq(|gs|, i requires 0 <= i < |gs| => CollapseRun(gs[i]))
  }

  lemma CollapseGapsCons(g: string, gs: seq<string>)
    requires AllSpace(g) && forall i :: 0 <= i < |gs| ==> AllSpace(gs[i])
    ensures CollapseGaps([g] + gs) == [CollapseRun(g)] + CollapseGaps(gs)
  {
  }

  lemma GapsConsChar(c: char, u: string)
    requires !IsSpace(c)
    ensures Gaps([c] + u) == [[]] + Gaps(u)
  {
    assert ([c] + u)[1..] == u;
  }

  /** A text that is empty or starts with a non-whitespace character has an empty
      first run. */
  lemma GapsHead(t: string)
    requires t == [] || !IsSpace(t[0])
    ensures Gaps(t)[0] == []
  {
  }

  lemma SliceSplit(s: string, i: nat, j: nat)
    requires i <= j <= |s|
    ensures s[i..] == s[i..j] + s[j..]
  {
  }

  lemma SliceCons(s: string, i: nat)
    requires i < |s|
    ensures s[i..] == [s[i]] + s[i + 1..]
  {
  }

  /** The blank-line step at a non-whitespace character `ch` followed by `t`,
      whose step gives `u`. */
  lemma CollapseCharStep(ch: char, t: string, u: string)
    requires !IsSpace(ch)
    requires Woven(Gaps(t), NonSpace(t))
    requires Gaps(u) == CollapseGaps(Gaps(t))
    ensures Woven(Gaps([ch] + t), NonSpace([ch] + t))
    ensures Gaps([ch] + u) == CollapseGaps(Gaps([ch] + t))
  {
    WeaveGaps([ch] + t);
    GapsConsChar(ch, u);
    GapsConsChar(ch, t);
    CollapseGapsCons([], Gaps(t));
  }

  /** The blank-line step at a whitespace run `g` followed by `t`, whose step
      gives `u`. */
  lemma CollapseRunStep(g: string, t: string, u: string)
    requires AllSpace(g) && (t == [] || !IsSpace(t[0]))
    requires Woven(Gaps(t), NonSpace(t))
    requires Gaps(u) == CollapseGaps(Gaps(t))
    ensures Woven(Gaps(g + t), NonSpace(g + t))
    ensures Gaps(CollapseRun(g) + u) == CollapseGaps(Gaps(g + t))
  {
    var rest := Gaps(t);
    var c := CollapseRun(g);
    WeaveGaps(g + t);
    GapsHead(t);
    CollapseGapsEmptyHead(rest);
    GapsPrefix(c, u);
    GapsPrefix(g, t);
    CollapseGapsCons(g, rest[1..]);
    assert c + [] == c && g + [] == g;
  }

  lemma CollapseGapsEmptyHead(gs: seq<string>)
    requires |gs| >= 1 && gs[0] == [] && forall i :: 0 <= i < |gs| ==> AllSpace(gs[i])
    ensures CollapseGaps(gs)[0] == [] && CollapseGaps(gs)[1..] == CollapseGaps(gs[1..])
  {
  }

  /** `re.sub(r'\n\s*\n\s*\n+', '\n\n', ...)` collapses each run of a text on
      its own. */
  lemma {:induction false} CollapseGapsFrom(s: string, i: nat)
    requires i <= |s|
    ensures Woven(Gaps(s[i..]), NonSpace(s[i..]))
    ensures Gaps(CollapseFrom(s, i)) == CollapseGaps(Gaps(s[i..]))
    decreases |s| - i
  {
    WeaveGaps(s[i..]);
    if i < |s| {
      if !IsSpace(s[i]) {
        CollapseGapsFrom(s, i + 1);
        SliceCons(s, i);
        assert CollapseFrom(s, i) == [s[i]] + CollapseFrom(s, i + 1);
        CollapseCharStep(s[i], s[i + 1..], CollapseFrom(s, i + 1));
      } else {
        var j := CollapseAtSpace(s, i);
        CollapseGapsFrom(s, j);
        SliceSplit(s, i, j);
        CollapseRunStep(s[i..j], s[j..], CollapseFrom(s, j));
      }
    }
  }

  // ---------------------------------------------------------------- step 2: strip each line

  /** The runs as stripping every line leaves them: a run holding a newline, or
      at either end of the text, keeps its newlines only; every other run stays. */
  function TrimGaps(gs: seq<string>): (r: seq<string>)
    ensures |r| == |gs|
  {
    seq(|gs|, i requires 0 <= i < |gs| =>
      if i == 0 || i == |gs| - 1 || '\n' in gs[i] then Newlines(Breaks(gs[i])) else gs[i])
  }

  /** The runs of `l + "\n" + r`. */
  function Link(xs: seq<string>, ys: seq<string>): (r: seq<string>)
    requires |xs| >= 1 && |ys| >= 1
    ensures |r| == |xs| + |ys| - 1
  {
    xs[..|xs| - 1] + [xs[|xs| - 1] + "\n" + ys[0]] + ys[1..]
  }

  lemma GapsLink(l: string, r: string)
    ensures Gaps(l + "\n" + r) == Link(Gaps(l), Gaps(r))
  {
    var xs, ys := Gaps(l), Gaps(r);
    assert l + "\n" + r == l + ("\n" + r);
    GapsConcat(l, "\n" + r);
    GapsConsSpace('\n', r);
    var x := xs[|xs| - 1];
    assert x + ("\n" + ys[0]) == x + "\n" + ys[0];
  }

  lemma NewlinesCons(k: nat)
    ensures "\n" + Newlines(k) == Newlines(k + 1)
  {
  }

  /** Stripping every line of `l + "\n" + r`, where `l` has no newline, strips
      `l` and the lines of `r`. */
  lemma TrimLink(xs: seq<string>, ys: seq<string>)
    requires |xs| >= 1 && |ys| >= 1
    requires forall i :: 0 <= i < |xs| ==> '\n' !in xs[i]
    ensures TrimGaps(Link(xs, ys)) == Link(ClearEdges(xs), TrimGaps(ys))
  {
    forall k | 0 <= k < |xs| + |ys| - 1
      ensures TrimGaps(Link(xs, ys))[k] == Link(ClearEdges(xs), TrimGaps(ys))[k]
    {
      TrimLinkAt(xs, ys, k);
    }
  }

  lemma TrimLinkAt(xs: seq<string>, ys: seq<string>, k: nat)
    requires |xs| >= 1 && |ys| >= 1 && k < |xs| + |ys| - 1
    requires forall i :: 0 <= i < |xs| ==> '\n' !in xs[i]
    ensures TrimGaps(Link(xs, ys))[k] == Link(ClearEdges(xs), TrimGaps(ys))[k]
  {
    if k < |xs| - 1 {
      TrimLinkLeft(xs, ys, k);
    } else if k == |xs| - 1 {
      TrimLinkJoint(xs, ys);
    } else {
      TrimLinkRight(xs, ys, k);
    }
  }

  /** A run of `r` other than its first. */
  lemma TrimLinkRight(xs: seq<string>, ys: seq<string>, k: nat)
    requires |xs| >= 1 && |ys| >= 1 && |xs| - 1 < k < |xs| + |ys| - 1
    ensures TrimGaps(Link(xs, ys))[k] == Link(ClearEdges(xs), TrimGaps(ys))[k]
  {
    var j := k - |xs| + 1;
    assert Link(xs, ys)[k] == ys[j];
    assert Link(ClearEdges(xs), TrimGaps(ys))[k] == TrimGaps(ys)[j];
  }

  /** A run of `l` other than its last. */
  lemma TrimLinkLeft(xs: seq<string>, ys: seq<string>, k: nat)
    requires |xs| >= 1 && |ys| >= 1 && k < |xs| - 1 && '\n' !in xs[k]
    ensures TrimGaps(Link(xs, ys))[k] == Link(ClearEdges(xs), TrimGaps(ys))[k]
  {
    assert Link(xs, ys)[k] == xs[k];
    assert multiset(xs[k])['\n'] == 0;
  }

  /** The run around the newline that ends `l`. */
  lemma TrimLinkJoint(xs: seq<string>, ys: seq<string>)
    requires |xs| >= 1 && |ys| >= 1 && '\n' !in xs[|xs| - 1]
    ensures TrimGaps(Link(xs, ys))[|xs| - 1] == Link(ClearEdges(xs), TrimGaps(ys))[|xs| - 1]
  {
    var n := |xs|;
    var g := xs[n - 1] + "\n" + ys[0];
    assert Link(xs, ys)[n - 1] == g && '\n' in g;
    assert multiset(xs[n - 1])['\n'] == 0;
    assert Breaks(g) == Breaks(ys[0]) + 1;
    NewlinesCons(Breaks(ys[0]));
    assert ClearEdges(xs)[n - 1] == [] && TrimGaps(ys)[0] == Newlines(Breaks(ys[0]));
    assert [] + "\n" + Newlines(Breaks(ys[0])) == "\n" + Newlines(Breaks(ys[0]));
  }

  /** The runs of a text without newlines hold no newline. */
  lemma {:induction false} GapsNoBreak(t: string)
    requires '\n' !in t
    ensures forall i :: 0 <= i < |Gaps(t)| ==> '\n' !in Gaps(t)[i]
    decreases |t|
  {
    if t != [] {
      assert '\n' !in t[1..];
      GapsNoBreak(t[1..]);
      if IsSpace(t[0]) {
        GapsConsSpace(t[0], t[1..]);
      } else {
        GapsConsChar(t[0], t[1..]);
      }
      assert [t[0]] + t[1..] == t;
    }
  }

  /** On runs without newlines, stripping the lines is stripping the text. */
  lemma TrimOneLine(gs: seq<string>)
    requires |gs| >= 1 && forall i :: 0 <= i < |gs| ==> '\n' !in gs[i]
    ensures TrimGaps(gs) == ClearEdges(gs)
  {
    var a, b := TrimGaps(gs), ClearEdges(gs);
    forall k | 0 <= k < |gs|
      ensures a[k] == b[k]
    {
      assert multiset(gs[k])['\n'] == 0;
    }
  }

  lemma StripAllCons(l: string, ls: seq<string>)
    ensures StripAll([l] + ls) == [Strip(l)] + StripAll(ls)
  {
  }

  /** The first line of a text with a newline, and the rest. */
  lemma StripLinesAt(s: string) returns (l: string, r: string)
    requires '\n' in s
    ensures '\n' !in l && s == l + "\n" + r && |r| < |s|
    ensures StripLines(s) == Strip(l) + "\n" + StripLines(r)
  {
    var i := IndexOf(s, '\n');
    l, r := s[..i], s[i + 1..];
    assert s == l + "\n" + r;
    SplitAt(s, '\n');
    var parts := Split(r, '\n');
    assert Split(s, '\n') == [l] + parts;
    StripAllCons(l, parts);
    JoinCons("\n", Strip(l), StripAll(parts));
  }

  /** `'\n'.join(line.strip() for line in ...)` rewrites each run of a text on its
      own. */
  lemma {:induction false} StripLinesGaps(s: string)
    ensures Gaps(StripLines(s)) == TrimGaps(Gaps(s))
    decreases |s|
  {
    if '\n' !in s {
      assert Split(s, '\n') == [s];
      assert StripAll([s]) == [Strip(s)];
      StripGaps(s);
      GapsNoBreak(s);
      TrimOneLine(Gaps(s));
    } else {
      var l, r := StripLinesAt(s);
      StripLinesGaps(r);
      StripGaps(l);
      GapsNoBreak(l);
      GapsLink(l, r);
      GapsLink(Strip(l), StripLines(r));
      TrimLink(Gaps(l), Gaps(r));
    }
  }

  // ---------------------------------------------------------------- the whole cleanup

  /** What the cleanup makes of a run between two non-whitespace characters:
      a run holding newlines becomes one or two newlines and nothing else, and
      a run without newlines has its runs of spaces squeezed. */
  function TidyGap(g: string): string {
    if '\n' in g then Newlines(if Breaks(g) < 2 then Breaks(g) else 2) else SqueezeSpaces(g)
  }

  /** The runs of the cleaned text: nothing at either end, `TidyGap` inside. */
  function Tidied(gs: seq<string>): (r: seq<string>)
    ensures |r| == |gs|
  {
    seq(|gs|, i requires 0 <= i < |gs| => if i == 0 || i == |gs| - 1 then [] else TidyGap(gs[i]))
  }

  /** The text rebuilt from the runs of `s`, each tidied, around the
      non-whitespace characters of `s`. */
  function Reflow(s: string): string {
    WeaveGaps(s);
    Weave(Tidied(Gaps(s)), NonSpace(s))
  }

  /** The four steps on one inner run. */
  lemma TidyGapSteps(g: string)
    requires AllSpace(g)
    ensures var c := CollapseRun(g);
            SqueezeSpaces(if '\n' in c then Newlines(Breaks(c)) else c) == TidyGap(g)
  {
    var c := CollapseRun(g);
    if '\n' in c {
      var m := Breaks(c);
      assert m == if Breaks(g) < 2 then Breaks(g) else 2;
      assert ' ' !in Newlines(m);
      SqueezeNoBlank(Newlines(m), 0);
      assert Newlines(m)[0..] == Newlines(m);
    } else {
      assert c == g;
    }
  }

  lemma TidiedSteps(gs: seq<string>)
    requires |gs| >= 1 && forall i :: 0 <= i < |gs| ==> AllSpace(gs[i])
    ensures ClearEdges(SqueezeGaps(TrimGaps(CollapseGaps(gs)))) == Tidied(gs)
  {
    var a, b := ClearEdges(SqueezeGaps(TrimGaps(CollapseGaps(gs)))), Tidied(gs);
    forall i | 0 < i < |gs| - 1
      ensures a[i] == b[i]
    {
      TidyGapSteps(gs[i]);
    }
  }

  /** `re.sub(r'\n\s*\n\s*\n+', '\n\n', ...)`, then every line stripped, then
      `re.sub(' {2,}', ' ', ...)`, then `strip()`. The result keeps the
      non-whitespace characters in order, has no whitespace at either end, turns
      every run holding newlines between two of them into one or two newlines
      and nothing else, and squeezes the spaces of every other run. */
  function Cleanup(s: string): (r: string)
    ensures Tidy(r)
    ensures NonSpace(r) == NonSpace(s)
    ensures Gaps(r) == Tidied(Gaps(s))
  {
    var collapsed := CollapseBlankRuns(s);
    var stripped := StripLines(collapsed);
    var squeezed := SqueezeSpaces(stripped);
    CleanupFacts(s, collapsed, stripped, squeezed);
    CleanupGaps(s, collapsed, stripped, squeezed);
    Strip(squeezed)
  }

  lemma CleanupGaps(s: string, collapsed: string, stripped: string, squeezed: string)
    requires collapsed == CollapseBlankRuns(s) && stripped == StripLines(collapsed)
    requires squeezed == SqueezeSpaces(stripped)
    ensures Gaps(Strip(squeezed)) == Tidied(Gaps(s))
  {
    CollapseGapsFrom(s, 0);
    assert s[0..] == s;
    StripLinesGaps(collapsed);
    SqueezeGapsOf(stripped);
    StripGaps(squeezed);
    TidiedSteps(Gaps(s));
  }

  /** The cleaned text is the text with every run tidied. */
  lemma CleanupIsReflow(s: string)
    ensures Cleanup(s) == Reflow(s)
  {
    WeaveGaps(Cleanup(s));
  }

  /** The squeeze adds no character the text lacks, and leaves something of a
      text that is not empty. */
  lemma {:induction false} SquashChars(t: string, c: char)
    requires c !in t
    ensures c !in Squash(t) && (Squash(t) == [] <==> t == [])
    decreases |t|
  {
    if t != [] {
      assert c !in t[1..];
      SquashChars(t[1..], c);
    }
  }

  /** The run between the `i`-th and the next non-whitespace character of `s`,
      after the cleanup: with `k >= 1` newlines, exactly `min(k, 2)` newlines;
      without newlines, whitespace without newlines or two adjacent spaces,
      empty exactly when the run was. */
  lemma CleanupRun(s: string, i: nat)
    requires 0 < i < |Gaps(s)| - 1
    ensures |Gaps(Cleanup(s))| == |Gaps(s)|
    ensures var g, h := Gaps(s)[i], Gaps(Cleanup(s))[i];
            && ('\n' in g ==> h == Newlines(if Breaks(g) < 2 then Breaks(g) else 2))
            && ('\n' !in g ==> AllSpace(h) && '\n' !in h && NoDoubleSpace(h) && (h == [] <==> g == []))
  {
    var g, h := Gaps(s)[i], Gaps(Cleanup(s))[i];
    if '\n' !in g {
      assert h == SqueezeSpaces(g);
      WeaveGaps(s);
      SqueezeFacts(g);
      NonSpaceOfSpaces(g);
      NoNonSpace(h);
      SqueezeIsSquash(g, 0);
      assert g[0..] == g;
      SquashChars(g, '\n');
    }
  }
}
