/** Case folder names (`ננ449`, `ננ449א`), the order of split suffixes, and the
    lookup of a case folder's PDF. */
module Folders {
  import opened Wrappers
  import opened Strings

  /** One position of a folder-name pattern: `[\u0590-\u05FF]` or `\d`. */
  datatype CharClass = HebrewLetter | Digit

  predicate InClass(c: char, k: CharClass) {
    match k
    case HebrewLetter => IsHebrew(c)
    case Digit => IsDigit(c)
  }

  /** `^[\u0590-\u05FF]{2}\d{3}$`: the name of a whole case. */
  const BasePattern: seq<CharClass> := [HebrewLetter, HebrewLetter, Digit, Digit, Digit]

  /** `^([\u0590-\u05FF]{2}\d{3})([\u0590-\u05FF])$`: one part of a split case. */
  const SplitPattern: seq<CharClass> := BasePattern + [HebrewLetter]

  /** `re.match` of an anchored pattern made of single-character classes. */
  predicate FullMatch(s: string, p: seq<CharClass>) {
    |s| == |p| && forall i :: 0 <= i < |s| ==> InClass(s[i], p[i])
  }

  /** Two Hebrew-block characters followed by three digits, and nothing else. */
  function IsValidFolderName(name: string): (ok: bool)
    ensures ok <==> |name| == 5 && IsHebrew(name[0]) && IsHebrew(name[1]) && AllDigits(name[2..])
  {
    BaseShapeMatches(name);
    FullMatch(name, BasePattern)
  }

  lemma BaseShapeMatches(name: string)
    ensures FullMatch(name, BasePattern)
            <==> |name| == 5 && IsHebrew(name[0]) && IsHebrew(name[1]) && AllDigits(name[2..])
  {
    if |name| == 5 {
      assert forall i :: 2 <= i < 5 ==> name[i] == name[2..][i - 2];
    }
  }

  lemma SplitShapeMatches(name: string)
    ensures FullMatch(name, SplitPattern) <==> IsSplitShape(name)
  {
    if |name| == 6 {
      BaseShapeMatches(name[..5]);
      assert forall i :: 0 <= i < 5 ==> name[..5][i] == name[i];
    }
  }

  /** The `(base, suffix)` pair; `(None, None)` for a name that is not a case. */
  datatype ParsedName = ParsedName(base: Option<string>, suffix: Option<string>)

  /** A valid base followed by one more Hebrew-block character. */
  predicate IsSplitShape(name: string) {
    |name| == 6 && IsValidFolderName(name[..5]) && IsHebrew(name[5])
  }

  /** The split pattern is tried first, then the base pattern. */
  function ParseFolderName(name: string): (r: ParsedName)
    ensures r.base.None? <==> !IsValidFolderName(name) && !IsSplitShape(name)
    ensures r.base.None? ==> r.suffix.None?
    ensures r.base.Some? ==> IsValidFolderName(r.base.value)
    ensures r.base.Some? && r.suffix.None? ==> name == r.base.value
    ensures r.suffix.Some? ==> r.base.Some? && |r.suffix.value| == 1 && IsHebrew(r.suffix.value[0])
                               && name == r.base.value + r.suffix.value
  {
    SplitShapeMatches(name);
    if FullMatch(name, SplitPattern) then
      assert name == name[..5] + name[5..];
      ParsedName(Some(name[..5]), Some(name[5..]))
    else if FullMatch(name, BasePattern) then
      ParsedName(Some(name), None)
    else
      ParsedName(None, None)
  }

  /** A name is a valid whole-case name exactly when it parses to itself without
      a suffix: both use the same pattern. */
  lemma ValidIffParsesWhole(name: string)
    ensures IsValidFolderName(name) <==> ParseFolderName(name) == ParsedName(Some(name), None)
  {
  }

  /** The two examples of the parser's documentation. */
  lemma ParseExamples()
    ensures ParseFolderName("ננ449") == ParsedName(Some("ננ449"), None)
    ensures ParseFolderName("ננ449א") == ParsedName(Some("ננ449"), Some("א"))
  {
    assert "ננ449א"[..5] == "ננ449";
    assert "ננ449א"[5..] == "א";
  }

  // ---------------------------------------------------------------- suffix order

  /** The hand-written order of split suffixes: the 22 letters without final forms. */
  const HebrewOrder: string := "אבגדהוזחטיכלמנסעפצקרשת"

  /** The key of a missing or unknown suffix, `len(HEBREW_ORDER) + 1`. */
  const UnknownSuffixKey: nat := |HebrewOrder| + 1

  predicate OccursAt(h: string, t: string, j: nat) {
    j + |t| <= |h| && h[j..j + |t|] == t
  }

  /** `h.find(t)` from position `i`: the first index at or after `i` where `t` occurs. */
  function FindFrom(h: string, t: string, i: nat): (r: Option<nat>)
    requires i <= |h|
    ensures r.Some? ==> i <= r.value && OccursAt(h, t, r.value)
    ensures r.Some? ==> forall j :: i <= j < r.value ==> !OccursAt(h, t, j)
    ensures r.None? ==> forall j :: i <= j ==> !OccursAt(h, t, j)
    decreases |h| - i
  {
    if i + |t| > |h| then None
    else if h[i..i + |t|] == t then Some(i)
    else FindFrom(h, t, i + 1)
  }

  /** Searching for one character finds its first occurrence. */
  lemma FindChar(h: string, c: char)
    ensures c in h ==> FindFrom(h, [c], 0).Some? && h[FindFrom(h, [c], 0).value] == c
    ensures c !in h ==> FindFrom(h, [c], 0).None?
  {
    var r := FindFrom(h, [c], 0);
    if r.Some? {
      assert h[r.value..r.value + 1][0] == c;
    }
    if c in h {
      var j :| 0 <= j < |h| && h[j] == c;
      assert h[j..j + 1] == [c];
      assert OccursAt(h, [c], j);
    }
  }

  /** `HEBREW_ORDER.index(suffix)`, or the unknown key when the suffix is missing,
      empty, or not found. */
  function SuffixKey(suffix: Option<string>): (k: nat)
    ensures k <= UnknownSuffixKey
  {
    if suffix.None? || suffix.value == [] then UnknownSuffixKey
    else
      match FindFrom(HebrewOrder, suffix.value, 0)
      case Some(i) => i
      case None => UnknownSuffixKey
  }

  /** Each character of `s` is below the next one. */
  predicate Ascending(s: string) {
    forall k :: 0 <= k < |s| - 1 ==> s[k] < s[k + 1]
  }

  lemma {:induction false} AscendingAt(s: string, i: nat, j: nat)
    requires Ascending(s) && i < j < |s|
    ensures s[i] < s[j]
    decreases j - i
  {
    if i + 1 < j {
      AscendingAt(s, i + 1, j);
    }
  }

  /** The order lists its letters in increasing code point order. */
  lemma HebrewOrderAscending(i: nat, j: nat)
    requires i < j < |HebrewOrder|
    ensures HebrewOrder[i] < HebrewOrder[j]
  {
    assert Ascending(HebrewOrder);
    AscendingAt(HebrewOrder, i, j);
  }

  /** The letters of the order get the keys 0..21 in string order; every other
      character, the empty suffix and a missing suffix get the unknown key, which
      is above every letter's key. */
  lemma SuffixKeyRanks(c: char)
    ensures c in HebrewOrder ==> SuffixKey(Some([c])) < |HebrewOrder| && HebrewOrder[SuffixKey(Some([c]))] == c
    ensures c !in HebrewOrder ==> SuffixKey(Some([c])) == UnknownSuffixKey
    ensures SuffixKey(None) == SuffixKey(Some("")) == UnknownSuffixKey > |HebrewOrder|
  {
    FindChar(HebrewOrder, c);
  }

  /** Each letter of the order gets its own position as key. */
  lemma SuffixKeyOfLetter(i: nat)
    requires i < |HebrewOrder|
    ensures SuffixKey(Some([HebrewOrder[i]])) == i
  {
    var c := HebrewOrder[i];
    SuffixKeyRanks(c);
    var k := SuffixKey(Some([c]));
    if k < i {
      HebrewOrderAscending(k, i);
    } else if k > i {
      HebrewOrderAscending(i, k);
    }
  }

  /** Sorting by key sorts known suffixes alphabetically. */
  lemma SuffixKeyOrder(c: char, d: char)
    requires c in HebrewOrder && d in HebrewOrder
    ensures SuffixKey(Some([c])) < SuffixKey(Some([d])) <==> c < d
  {
    SuffixKeyRanks(c);
    SuffixKeyRanks(d);
    var kc, kd := SuffixKey(Some([c])), SuffixKey(Some([d]));
    if kc < kd {
      HebrewOrderAscending(kc, kd);
    } else if kd < kc {
      HebrewOrderAscending(kd, kc);
    }
  }

  /** In an ascending string, a character strictly between two neighbours does
      not occur. */
  lemma BetweenNeighbours(s: string, c: char, k: nat)
    requires Ascending(s) && k + 1 < |s| && s[k] < c < s[k + 1]
    ensures c !in s
  {
    forall j | 0 <= j < |s|
      ensures s[j] != c
    {
      if j < k {
        AscendingAt(s, j, k);
      } else if j > k + 1 {
        AscendingAt(s, k + 1, j);
      }
    }
  }

  /** The five final letter forms sit between neighbours of the order. */
  lemma FinalFormsNotInOrder()
    ensures 'ך' !in HebrewOrder && 'ם' !in HebrewOrder && 'ן' !in HebrewOrder
    ensures 'ף' !in HebrewOrder && 'ץ' !in HebrewOrder
  {
    assert Ascending(HebrewOrder);
    BetweenNeighbours(HebrewOrder, 'ך', 9);
    BetweenNeighbours(HebrewOrder, 'ם', 11);
    BetweenNeighbours(HebrewOrder, 'ן', 12);
    BetweenNeighbours(HebrewOrder, 'ף', 15);
    BetweenNeighbours(HebrewOrder, 'ץ', 16);
  }

  /** The five final letter forms are not in the order and sort last. */
  lemma FinalFormsSortLast()
    ensures SuffixKey(Some("ך")) == SuffixKey(Some("ם")) == SuffixKey(Some("ן")) == UnknownSuffixKey
    ensures SuffixKey(Some("ף")) == SuffixKey(Some("ץ")) == UnknownSuffixKey
  {
    FinalFormsNotInOrder();
    SuffixKeyRanks('ך');
    SuffixKeyRanks('ם');
    SuffixKeyRanks('ן');
    SuffixKeyRanks('ף');
    SuffixKeyRanks('ץ');
  }

  // ---------------------------------------------------------------- PDF lookup

  /** The index of the first entry equal to `name` up to case. */
  function FirstFoldMatch(files: seq<string>, name: string): (r: Option<nat>)
    ensures r.Some? ==> r.value < |files| && FoldEq(files[r.value], name)
    ensures r.Some? ==> forall j :: 0 <= j < r.value ==> !FoldEq(files[j], name)
    ensures r.None? ==> forall j :: 0 <= j < |files| ==> !FoldEq(files[j], name)
  {
    if files == [] then None
    else if FoldEq(files[0], name) then Some(0)
    else match FirstFoldMatch(files[1..], name)
      case Some(i) => Some(i + 1)
      case None => None
  }

  /** The PDF of the case folder `folderName`, given the folder's entries:
      `<folderName>.pdf` when it exists, otherwise the first entry with that name
      up to case, otherwise none. */
  function FindMatchingPdf(files: seq<string>, folderName: string): (r: Option<string>)
    ensures r.Some? ==> r.value in files && FoldEq(r.value, folderName + ".pdf")
    ensures r.None? <==> forall j :: 0 <= j < |files| ==> !FoldEq(files[j], folderName + ".pdf")
    ensures folderName + ".pdf" in files ==> r == Some(folderName + ".pdf")
    ensures r.Some? && folderName + ".pdf" !in files ==>
              exists i :: 0 <= i < |files| && files[i] == r.value
                          && forall j :: 0 <= j < i ==> !FoldEq(files[j], folderName + ".pdf")
  {
    var pdf := folderName + ".pdf";
    if pdf in files then
      Some(pdf)
    else
      match FirstFoldMatch(files, pdf)
      case Some(i) => Some(files[i])
      case None => None
  }
}
