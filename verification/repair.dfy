/** Directional repair of extracted Hebrew text (`reverse_hebrew_in_text`).

    A line holding a Hebrew-block character is cut into tokens, each space or tab
    its own token and every maximal run of other characters one token; the token
    list is reversed and tokens holding a Hebrew-block character are reversed
    character by character. The result is the exact position mirror of the line
    in which Latin words and numbers keep their reading order. */
module Repair {
  import opened Strings

  /** The two characters the tokenizer splits on. */
  predicate IsSep(c: char) {
    c == ' ' || c == '\t'
  }

  /** A non-empty run of characters none of which is a separator. */
  predicate IsWord(t: string) {
    |t| >= 1 && forall i :: 0 <= i < |t| ==> !IsSep(t[i])
  }

  /** A token: one separator character, or a word. */
  predicate IsToken(t: string) {
    (|t| == 1 && IsSep(t[0])) || IsWord(t)
  }

  /** A token list in which no two words are adjacent, so every word is maximal. */
  predicate WellFormed(ts: seq<string>) {
    && (forall i :: 0 <= i < |ts| ==> IsToken(ts[i]))
    && (forall i :: 0 <= i < |ts| - 1 ==> !(IsWord(ts[i]) && IsWord(ts[i + 1])))
  }

  /** `''.join(ts)`. */
  function Concat(ts: seq<string>): string {
    if ts == [] then [] else ts[0] + Concat(ts[1..])
  }

  lemma {:induction false} ConcatAppend(a: seq<string>, b: seq<string>)
    ensures Concat(a + b) == Concat(a) + Concat(b)
  {
    if a != [] {
      assert (a + b)[1..] == a[1..] + b;
      ConcatAppend(a[1..], b);
    } else {
      assert a + b == b;
    }
  }

  /** `[i, j)` is a maximal run of non-separator characters of `line`. */
  predicate IsRun(line: string, a: int, b: int) {
    && 0 <= a < b <= |line|
    && (a == 0 || IsSep(line[a - 1]))
    && (b == |line| || IsSep(line[b]))
    && forall k :: a <= k < b ==> !IsSep(line[k])
  }

  /** No separator in `line[i..j]`. */
  predicate NoSepIn(line: string, i: int, j: int)
    requires 0 <= i <= j <= |line|
  {
    forall k :: i <= k < j ==> !IsSep(line[k])
  }

  lemma WordSlice(line: string, i: nat, j: nat)
    requires i < j <= |line| && NoSepIn(line, i, j)
    ensures IsWord(line[i..j])
  {
    forall k | 0 <= k < j - i
      ensures !IsSep(line[i..j][k])
    {
      assert line[i..j][k] == line[i + k];
    }
  }

  /** The end of the word that starts at `i`. */
  function WordEnd(line: string, i: nat): (j: nat)
    requires i < |line| && !IsSep(line[i])
    ensures i < j <= |line| && NoSepIn(line, i, j) && (j == |line| || IsSep(line[j]))
    decreases |line| - i
  {
    if i + 1 == |line| || IsSep(line[i + 1]) then i + 1 else WordEnd(line, i + 1)
  }

  /** A word has only one end. */
  lemma WordEndUnique(line: string, i: nat, j: nat)
    requires i < j <= |line| && NoSepIn(line, i, j) && (j == |line| || IsSep(line[j]))
    ensures WordEnd(line, i) == j
  {
  }

  /** The end of the token that starts at `i`: right after a separator, or at the
      end of a word. */
  function TokenEnd(line: string, i: nat): (j: nat)
    requires i < |line|
    ensures i < j <= |line|
    ensures IsSep(line[i]) ==> j == i + 1
    ensures !IsSep(line[i]) ==> NoSepIn(line, i, j) && (j == |line| || IsSep(line[j]))
  {
    if IsSep(line[i]) then i + 1 else WordEnd(line, i)
  }

  lemma FirstTokenShape(line: string)
    requires line != []
    ensures IsToken(line[..TokenEnd(line, 0)])
    ensures IsWord(line[..TokenEnd(line, 0)]) <==> !IsSep(line[0])
  {
    var n := TokenEnd(line, 0);
    if !IsSep(line[0]) {
      WordSlice(line, 0, n);
    }
  }

  /** The tokens of `line`, in order: each space or tab alone, every maximal run of
      other characters as one token. */
  function Tokens(line: string): (ts: seq<string>)
    ensures WellFormed(ts) && Concat(ts) == line
    ensures line != [] ==> |ts| > 0 && ts[0][0] == line[0]
    decreases |line|
  {
    if line == [] then []
    else
      var n := TokenEnd(line, 0);
      var rest := Tokens(line[n..]);
      FirstTokenShape(line);
      assert line == line[..n] + line[n..];
      assert IsWord(line[..n]) && rest != [] ==> !IsWord(rest[0]);
      [line[..n]] + rest
  }

  /** The tokenization is the only well-formed one: tokenizing the concatenation of
      a well-formed token list gives the list back. */
  lemma {:induction false} TokensOfConcat(ts: seq<string>)
    requires WellFormed(ts)
    ensures Tokens(Concat(ts)) == ts
  {
    if ts != [] {
      var s := Concat(ts);
      var rest := Concat(ts[1..]);
      var n := |ts[0]|;
      assert s == ts[0] + rest;
      assert s[..n] == ts[0] && s[n..] == rest;
      assert WellFormed(ts[1..]);
      TokensOfConcat(ts[1..]);
      if IsWord(ts[0]) {
        if n < |s| {
          assert |ts| > 1;
          assert !IsWord(ts[1]);
          assert Concat(ts[1..]) == ts[1] + Concat(ts[2..]);
          assert s[n] == ts[1][0];
        }
        assert forall k :: 0 <= k < n ==> s[k] == ts[0][k];
        WordEndUnique(s, 0, n);
      }
      assert TokenEnd(s, 0) == n;
      assert ts == [ts[0]] + ts[1..];
    }
  }

  /** `token in ' \t'`: a substring of `" \t"`, that is `""`, `" "`, `"\t"` or
      `" \t"`. */
  predicate IsSepToken(t: string) {
    || |t| == 0
    || (|t| == 1 && IsSep(t[0]))
    || (|t| == 2 && t[0] == ' ' && t[1] == '\t')
  }

  /** The per-token step: separators stay, tokens with a Hebrew-block character are
      reversed, all other tokens stay. */
  function FixToken(t: string): (r: string)
    ensures |r| == |t|
  {
    if IsSepToken(t) then t else if HasHebrew(t) then Reverse(t) else t
  }

  function FixTokens(ts: seq<string>): (us: seq<string>)
    ensures |us| == |ts| && forall i :: 0 <= i < |ts| ==> us[i] == FixToken(ts[i])
  {
    seq(|ts|, i requires 0 <= i < |ts| => FixToken(ts[i]))
  }

  /** `fix_hebrew_line`: reverse the token list, fix each token, concatenate. */
  function FixLine(line: string): string {
    Concat(FixTokens(Reverse(Tokens(line))))
  }

  lemma FixTokenShape(t: string)
    requires IsToken(t)
    ensures IsWord(t) ==> FixToken(t) == (if HasHebrew(t) then Reverse(t) else t)
    ensures !IsWord(t) ==> FixToken(t) == t
  {
    if IsWord(t) {
      assert t[0] != ' ' && t[0] != '\t';
      assert !IsSepToken(t);
    }
  }

  lemma FixTokenMultiset(t: string)
    ensures multiset(FixToken(t)) == multiset(t)
  {
    ReverseMultiset(t);
  }

  // ---------------------------------------------------------------- the mirror

  /** The repair of `line[i..]` for a token start `i`, built from the front: the
      token at `i`, fixed, goes after the repair of what follows it. */
  function MirrorFrom(line: string, i: nat): (r: string)
    requires i <= |line|
    ensures |r| == |line| - i
    decreases |line| - i
  {
    if i == |line| then []
    else
      var j := TokenEnd(line, i);
      MirrorFrom(line, j) + FixToken(line[i..j])
  }

  /** The first token of a list lands at the end of the repaired concatenation. */
  lemma FixCons(tok: string, ts: seq<string>)
    ensures Concat(FixTokens(Reverse([tok] + ts))) == Concat(FixTokens(Reverse(ts))) + FixToken(tok)
  {
    var rs := Reverse(ts);
    assert Reverse([tok] + ts) == rs + [tok];
    assert FixTokens(rs + [tok]) == FixTokens(rs) + [FixToken(tok)];
    ConcatAppend(FixTokens(rs), [FixToken(tok)]);
    assert Concat([FixToken(tok)]) == FixToken(tok);
  }

  /** The token that starts at `i` is the first token of `line[i..]`. */
  lemma TokenEndShift(line: string, i: nat)
    requires i < |line|
    ensures TokenEnd(line[i..], 0) == TokenEnd(line, i) - i
  {
    if !IsSep(line[i]) {
      var j := TokenEnd(line, i);
      var s := line[i..];
      assert forall k :: 0 <= k < j - i ==> s[k] == line[i + k];
      WordEndUnique(s, 0, j - i);
    }
  }

  /** Reversing the token list and concatenating is building the line from the
      front with each token moved behind the rest. */
  lemma {:induction false} FixLineIsMirror(line: string, i: nat)
    requires i <= |line|
    ensures FixLine(line[i..]) == MirrorFrom(line, i)
    decreases |line| - i
  {
    if i < |line| {
      var j := TokenEnd(line, i);
      var s := line[i..];
      TokenEndShift(line, i);
      assert s[..j - i] == line[i..j];
      assert s[j - i..] == line[j..];
      assert Tokens(s) == [line[i..j]] + Tokens(line[j..]);
      FixCons(line[i..j], Tokens(line[j..]));
      FixLineIsMirror(line, j);
    }
  }

  /** A space or tab at index `p` lands at index `len - 1 - p`. */
  lemma {:induction false} MirrorMovesSeps(line: string, i: nat, p: nat)
    requires i <= p < |line| && IsSep(line[p])
    ensures MirrorFrom(line, i)[|line| - 1 - p] == line[p]
    decreases |line| - i
  {
    var j := TokenEnd(line, i);
    if p >= j {
      calc {
        MirrorFrom(line, i)[|line| - 1 - p];
        (MirrorFrom(line, j) + FixToken(line[i..j]))[|line| - 1 - p];
        MirrorFrom(line, j)[|line| - 1 - p];
        { MirrorMovesSeps(line, j, p); }
        line[p];
      }
    } else {
      assert IsSep(line[i]) && p == i && j == i + 1;
      assert line[i..j] == [line[i]];
      calc {
        MirrorFrom(line, i)[|line| - 1 - p];
        (MirrorFrom(line, j) + FixToken(line[i..j]))[|line| - 1 - p];
        FixToken(line[i..j])[0];
        line[p];
      }
    }
  }

  /** A run that starts inside the token at `i` is that token. */
  lemma RunStartsToken(line: string, i: nat, a: nat, b: nat)
    requires i <= a < |line| && a < TokenEnd(line, i) && IsRun(line, a, b)
    ensures a == i && b == TokenEnd(line, i)
  {
  }

  /** A maximal run at `[a, b)` lands at `[len - b, len - a)`, fixed as a token. */
  lemma {:induction false} MirrorMovesRuns(line: string, i: nat, a: nat, b: nat)
    requires i <= a && IsRun(line, a, b)
    ensures MirrorFrom(line, i)[|line| - b..|line| - a] == FixToken(line[a..b])
    decreases |line| - i
  {
    var j := TokenEnd(line, i);
    if a >= j {
      calc {
        MirrorFrom(line, i)[|line| - b..|line| - a];
        (MirrorFrom(line, j) + FixToken(line[i..j]))[|line| - b..|line| - a];
        { AppendSliceLeft(MirrorFrom(line, j), FixToken(line[i..j]), |line| - b, |line| - a); }
        MirrorFrom(line, j)[|line| - b..|line| - a];
        { MirrorMovesRuns(line, j, a, b); }
        FixToken(line[a..b]);
      }
    } else {
      RunStartsToken(line, i, a, b);
      calc {
        MirrorFrom(line, i)[|line| - b..|line| - a];
        (MirrorFrom(line, j) + FixToken(line[i..j]))[|line| - b..|line| - a];
        { AppendSliceRight(MirrorFrom(line, j), FixToken(line[i..j])); }
        FixToken(line[a..b]);
      }
    }
  }

  /** The repaired line is the position mirror of the line: same length, every space
      or tab at index `i` moves to index `len - 1 - i`, and every maximal run of
      other characters at `[a, b)` moves to `[len - b, len - a)`, reversed when it
      holds a Hebrew-block character and verbatim otherwise. */
  lemma FixLineMirrors(line: string)
    ensures |FixLine(line)| == |line|
    ensures forall i :: 0 <= i < |line| && IsSep(line[i]) ==> FixLine(line)[|line| - 1 - i] == line[i]
    ensures forall a, b :: IsRun(line, a, b) ==>
              FixLine(line)[|line| - b..|line| - a]
              == (if HasHebrew(line[a..b]) then Reverse(line[a..b]) else line[a..b])
  {
    FixLineIsMirror(line, 0);
    assert line[0..] == line;
    forall i | 0 <= i < |line| && IsSep(line[i])
      ensures MirrorFrom(line, 0)[|line| - 1 - i] == line[i]
    {
      MirrorMovesSeps(line, 0, i);
    }
    forall a, b | IsRun(line, a, b)
      ensures MirrorFrom(line, 0)[|line| - b..|line| - a]
              == (if HasHebrew(line[a..b]) then Reverse(line[a..b]) else line[a..b])
    {
      MirrorMovesRuns(line, 0, a, b);
      WordSlice(line, a, b);
      FixTokenShape(line[a..b]);
    }
  }

  /** `i` starts a token: the line's start or end, or next to a separator. */
  predicate AtBoundary(line: string, i: nat)
    requires i <= |line|
  {
    i == 0 || i == |line| || IsSep(line[i - 1]) || IsSep(line[i])
  }

  /** When every word holds a Hebrew-block character the repair reverses the text
      character by character. */
  lemma {:induction false} MirrorReversesHebrew(line: string, i: nat)
    requires i <= |line| && AtBoundary(line, i)
    requires forall a, b :: IsRun(line, a, b) ==> HasHebrew(line[a..b])
    ensures MirrorFrom(line, i) == Reverse(line[i..])
    decreases |line| - i
  {
    if i < |line| {
      var j := TokenEnd(line, i);
      var tok := line[i..j];
      assert FixToken(tok) == Reverse(tok) by {
        if IsSep(line[i]) {
          assert tok == [line[i]];
        } else {
          assert IsRun(line, i, j);
          WordSlice(line, i, j);
          FixTokenShape(tok);
        }
      }
      calc {
        MirrorFrom(line, i);
        MirrorFrom(line, j) + FixToken(tok);
        { MirrorReversesHebrew(line, j); }
        Reverse(line[j..]) + Reverse(tok);
        { ReverseAppend(tok, line[j..]); }
        Reverse(tok + line[j..]);
        { assert tok + line[j..] == line[i..]; }
        Reverse(line[i..]);
      }
    }
  }

  /** A line whose every word holds a Hebrew-block character comes out as the exact
      character reversal of the line. */
  lemma FixLineReversesHebrewLine(line: string)
    requires forall a, b :: IsRun(line, a, b) ==> HasHebrew(line[a..b])
    ensures FixLine(line) == Reverse(line)
  {
    FixLineIsMirror(line, 0);
    MirrorReversesHebrew(line, 0);
    assert line[0..] == line;
  }

  lemma {:induction false} MirrorMultiset(line: string, i: nat)
    requires i <= |line|
    ensures multiset(MirrorFrom(line, i)) == multiset(line[i..])
    decreases |line| - i
  {
    if i < |line| {
      var j := TokenEnd(line, i);
      calc {
        multiset(MirrorFrom(line, i));
        multiset(MirrorFrom(line, j) + FixToken(line[i..j]));
        multiset(MirrorFrom(line, j)) + multiset(FixToken(line[i..j]));
        { MirrorMultiset(line, j); FixTokenMultiset(line[i..j]); }
        multiset(line[j..]) + multiset(line[i..j]);
        { assert line[i..] == line[i..j] + line[j..]; }
        multiset(line[i..]);
      }
    }
  }

  /** The repair only moves characters. */
  lemma FixLineMultiset(line: string)
    ensures multiset(FixLine(line)) == multiset(line)
  {
    FixLineIsMirror(line, 0);
    MirrorMultiset(line, 0);
    assert line[0..] == line;
  }

  /** Fixing a token twice gives it back. */
  lemma FixTokenInvolution(t: string)
    requires IsToken(t)
    ensures IsToken(FixToken(t)) && (IsWord(FixToken(t)) <==> IsWord(t))
    ensures FixToken(FixToken(t)) == t
  {
    FixTokenShape(t);
    if IsWord(t) && HasHebrew(t) {
      var r := Reverse(t);
      ReverseMultiset(t);
      HasHebrewMultiset(r, t);
      assert IsWord(r);
      FixTokenShape(r);
      ReverseReverse(t);
    }
  }

  /** Fixing the reversed token list keeps it well formed. */
  lemma FixReversedWellFormed(ts: seq<string>)
    requires WellFormed(ts)
    ensures WellFormed(FixTokens(Reverse(ts)))
  {
    var us := FixTokens(Reverse(ts));
    forall i | 0 <= i < |us|
      ensures IsToken(us[i]) && (IsWord(us[i]) <==> IsWord(ts[|ts| - 1 - i]))
    {
      FixTokenInvolution(ts[|ts| - 1 - i]);
    }
  }

  /** Reversing and fixing a token list twice gives it back. */
  lemma FixReversedTwice(ts: seq<string>)
    requires WellFormed(ts)
    ensures FixTokens(Reverse(FixTokens(Reverse(ts)))) == ts
  {
    var vs := FixTokens(Reverse(FixTokens(Reverse(ts))));
    forall i | 0 <= i < |ts|
      ensures vs[i] == ts[i]
    {
      FixTokenInvolution(ts[i]);
    }
  }

  /** Repairing a line twice gives the line back. */
  lemma FixLineInvolution(line: string)
    ensures FixLine(FixLine(line)) == line
  {
    var ts := Tokens(line);
    var us := FixTokens(Reverse(ts));
    FixReversedWellFormed(ts);
    calc {
      FixLine(FixLine(line));
      FixLine(Concat(us));
      Concat(FixTokens(Reverse(Tokens(Concat(us)))));
      { TokensOfConcat(us); }
      Concat(FixTokens(Reverse(us)));
      { FixReversedTwice(ts); }
      Concat(ts);
      line;
    }
  }

  // ---------------------------------------------------------------- whole text

  /** A line with a Hebrew-block character is repaired; any other line is kept. */
  function RepairLine(line: string): string {
    if HasHebrew(line) then FixLine(line) else line
  }

  lemma RepairLineFacts(line: string)
    ensures multiset(RepairLine(line)) == multiset(line)
    ensures HasHebrew(RepairLine(line)) <==> HasHebrew(line)
    ensures RepairLine(RepairLine(line)) == line
  {
    if HasHebrew(line) {
      FixLineMultiset(line);
      HasHebrewMultiset(FixLine(line), line);
      FixLineInvolution(line);
    }
  }

  function RepairLines(lines: seq<string>): (r: seq<string>)
    ensures |r| == |lines| && forall i :: 0 <= i < |lines| ==> r[i] == RepairLine(lines[i])
  {
    seq(|lines|, i requires 0 <= i < |lines| => RepairLine(lines[i]))
  }

  /** `reverse_hebrew_in_text`: the text's `'\n'`-separated lines, each repaired.
      The output has as many lines as the input, and its line `i` is the repair of
      the input's line `i`; lines without a Hebrew-block character come out
      unchanged. */
  function ReverseHebrewInText(text: string): (r: string)
    ensures |Split(r, '\n')| == |Split(text, '\n')|
    ensures forall i :: 0 <= i < |Split(text, '\n')| ==>
              Split(r, '\n')[i] == RepairLine(Split(text, '\n')[i])
    ensures forall i :: 0 <= i < |Split(text, '\n')| && !HasHebrew(Split(text, '\n')[i]) ==>
              Split(r, '\n')[i] == Split(text, '\n')[i]
  {
    var lines := Split(text, '\n');
    var fixed := RepairLines(lines);
    forall i | 0 <= i < |lines|
      ensures '\n' !in fixed[i]
    {
      RepairLineFacts(lines[i]);
      assert '\n' !in multiset(lines[i]);
    }
    SplitJoin(fixed, '\n');
    Join("\n", fixed)
  }

  /** Repairing twice gives the original text back. */
  lemma ReverseHebrewInvolution(text: string)
    ensures ReverseHebrewInText(ReverseHebrewInText(text)) == text
  {
    var lines := Split(text, '\n');
    var once := ReverseHebrewInText(text);
    var twice := ReverseHebrewInText(once);
    forall i | 0 <= i < |lines|
      ensures Split(twice, '\n')[i] == lines[i]
    {
      RepairLineFacts(lines[i]);
    }
    assert Split(twice, '\n') == lines;
    JoinSplit(twice, '\n');
    JoinSplit(text, '\n');
  }

  /** Text without any Hebrew-block character is left as it is. */
  lemma ReverseHebrewKeepsPlainText(text: string)
    requires !HasHebrew(text)
    ensures ReverseHebrewInText(text) == text
  {
    var lines := Split(text, '\n');
    var out := ReverseHebrewInText(text);
    forall i | 0 <= i < |lines|
      ensures !HasHebrew(lines[i])
    {
      SplitPieceWithin(text, i);
      HasHebrewWithin(lines[i], text);
    }
    assert Split(out, '\n') == lines;
    JoinSplit(out, '\n');
    JoinSplit(text, '\n');
  }

  lemma HasHebrewWithin(a: string, b: string)
    requires multiset(a) <= multiset(b)
    ensures HasHebrew(a) ==> HasHebrew(b)
  {
    if HasHebrew(a) {
      var k :| 0 <= k < |a| && IsHebrew(a[k]);
      assert a[k] in multiset(b);
    }
  }

  /** A line of a text has only characters of that text. */
  lemma {:induction false} SplitPieceWithin(text: string, i: nat)
    requires i < |Split(text, '\n')|
    ensures multiset(Split(text, '\n')[i]) <= multiset(text)
    decreases |text|
  {
    if '\n' in text {
      var j := IndexOf(text, '\n');
      assert text == text[..j] + [text[j]] + text[j + 1..];
      if i > 0 {
        SplitPieceWithin(text[j + 1..], i - 1);
      }
    }
  }
}
