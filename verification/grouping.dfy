/** Discovery of the case folders in the mother folder, their grouping by base
    name, and the two orders the batch relies on: groups by base, the parts of a
    split case by suffix. */
module Grouping {
  import opened Wrappers
  import opened Folders

  /** One entry of the mother folder's listing: its name and whether it is a
      directory. */
  datatype Entry = Entry(name: string, isDir: bool)

  /** A case folder that takes part in a group: its name and parsed suffix. */
  datatype Part = Part(name: string, suffix: Option<string>)

  /** The case folders sharing one base. */
  datatype Group = Group(base: string, parts: seq<Part>)

  /** Directories whose names parse take part; every other entry is skipped. */
  predicate Admitted(e: Entry) {
    e.isDir && ParseFolderName(e.name).base.Some?
  }

  function BaseOf(e: Entry): string
    requires Admitted(e)
  {
    ParseFolderName(e.name).base.value
  }

  function PartOf(e: Entry): Part {
    Part(e.name, ParseFolderName(e.name).suffix)
  }

  /** What the grouping loop keeps of an admitted entry: its base and the part. */
  datatype Candidate = Candidate(base: string, part: Part)

  /** The admitted entries, parsed, in listing order. */
  function Candidates(listing: seq<Entry>): seq<Candidate> {
    if listing == [] then []
    else
      var e := listing[|listing| - 1];
      Candidates(listing[..|listing| - 1]) + (if Admitted(e) then [Candidate(BaseOf(e), PartOf(e))] else [])
  }

  /** Every candidate comes from an admitted entry. */
  lemma {:induction false} CandidateFrom(listing: seq<Entry>, i: nat) returns (j: nat)
    requires i < |Candidates(listing)|
    ensures j < |listing| && Admitted(listing[j])
    ensures Candidates(listing)[i] == Candidate(BaseOf(listing[j]), PartOf(listing[j]))
  {
    var init := listing[..|listing| - 1];
    if i < |Candidates(init)| {
      j := CandidateFrom(init, i);
      assert listing[j] == init[j];
    } else {
      j := |listing| - 1;
    }
  }

  /** Every admitted entry gives a candidate. */
  lemma {:induction false} CandidateFor(listing: seq<Entry>, j: nat) returns (i: nat)
    requires j < |listing| && Admitted(listing[j])
    ensures i < |Candidates(listing)| && Candidates(listing)[i] == Candidate(BaseOf(listing[j]), PartOf(listing[j]))
  {
    var init := listing[..|listing| - 1];
    if j < |init| {
      assert listing[j] == init[j];
      i := CandidateFor(init, j);
    } else {
      i := |Candidates(init)|;
    }
  }

  /** The reference for a group's contents: the parts of the candidates with base
      `b`, in order. */
  function PartsFor(cs: seq<Candidate>, b: string): seq<Part> {
    if cs == [] then []
    else PartsFor(cs[..|cs| - 1], b) + (if cs[|cs| - 1].base == b then [cs[|cs| - 1].part] else [])
  }

  /** Every part recorded for `b` comes from a candidate with base `b`. */
  lemma {:induction false} PartsForFrom(cs: seq<Candidate>, b: string, i: nat) returns (j: nat)
    requires i < |PartsFor(cs, b)|
    ensures j < |cs| && cs[j] == Candidate(b, PartsFor(cs, b)[i])
  {
    var init := cs[..|cs| - 1];
    if i < |PartsFor(init, b)| {
      j := PartsForFrom(init, b, i);
      assert cs[j] == init[j];
    } else {
      j := |cs| - 1;
    }
  }

  /** Every candidate's part is recorded for its base. */
  lemma {:induction false} PartsForHas(cs: seq<Candidate>, j: nat)
    requires j < |cs|
    ensures cs[j].part in PartsFor(cs, cs[j].base)
  {
    var init := cs[..|cs| - 1];
    if j < |init| {
      assert cs[j] == init[j];
      PartsForHas(init, j);
    }
  }

  predicate HasBase(gs: seq<Group>, b: string) {
    exists k :: 0 <= k < |gs| && gs[k].base == b
  }

  predicate DistinctBases(gs: seq<Group>) {
    forall i, j :: 0 <= i < j < |gs| ==> gs[i].base != gs[j].base
  }

  lemma HasBaseTail(gs: seq<Group>, b: string)
    requires gs != [] && gs[0].base != b
    ensures HasBase(gs, b) <==> HasBase(gs[1..], b)
  {
    if HasBase(gs, b) {
      var k :| 0 <= k < |gs| && gs[k].base == b;
      assert gs[1..][k - 1].base == b;
    }
    if HasBase(gs[1..], b) {
      var k :| 0 <= k < |gs[1..]| && gs[1..][k].base == b;
      assert gs[k + 1].base == b;
    }
  }

  /** `groups.setdefault(base, []).append(part)` on a dictionary that keeps
      insertion order: the part joins the group of its base, or starts a new group
      at the end. */
  function AddPart(gs: seq<Group>, b: string, p: Part): (r: seq<Group>)
    requires DistinctBases(gs)
    ensures DistinctBases(r)
    ensures HasBase(gs, b) ==> |r| == |gs|
    ensures !HasBase(gs, b) ==> |r| == |gs| + 1 && r[|gs|] == Group(b, [p])
    ensures forall k :: 0 <= k < |gs| && gs[k].base == b ==> r[k] == Group(b, gs[k].parts + [p])
    ensures forall k :: 0 <= k < |gs| && gs[k].base != b ==> r[k] == gs[k]
  {
    if gs == [] then [Group(b, [p])]
    else if gs[0].base == b then [Group(b, gs[0].parts + [p])] + gs[1..]
    else
      HasBaseTail(gs, b);
      [gs[0]] + AddPart(gs[1..], b, p)
  }

  /** The loop invariant of the grouping: no base twice, each group holds exactly
      the parts recorded for its base, and every candidate's base has a group. */
  predicate GroupsOf(cs: seq<Candidate>, gs: seq<Group>) {
    && DistinctBases(gs)
    && (forall k :: 0 <= k < |gs| ==> gs[k].parts != [] && gs[k].parts == PartsFor(cs, gs[k].base))
    && (forall j :: 0 <= j < |cs| ==> HasBase(gs, cs[j].base))
  }

  /** Grouping the candidates in order, one dictionary update each. */
  function Grouped(cs: seq<Candidate>): (r: seq<Group>)
    ensures GroupsOf(cs, r)
  {
    if cs == [] then []
    else
      var gs := Grouped(cs[..|cs| - 1]);
      var c := cs[|cs| - 1];
      var r := AddPart(gs, c.base, c.part);
      GroupStepParts(cs, gs, r);
      AddPartKeepsAll(gs, c.base, c.part);
      AddPartAdds(gs, c.base, c.part);
      GroupStepCovers(cs, gs, r);
      r
  }

  /** A base with recorded parts has a group. */
  lemma PartsForCovered(cs: seq<Candidate>, gs: seq<Group>, b: string)
    requires GroupsOf(cs, gs) && PartsFor(cs, b) != []
    ensures HasBase(gs, b)
  {
    var j := PartsForFrom(cs, b, 0);
    assert HasBase(gs, cs[j].base);
  }

  /** One dictionary update keeps each group equal to its recorded parts. */
  lemma GroupStepParts(cs: seq<Candidate>, gs: seq<Group>, r: seq<Group>)
    requires cs != [] && GroupsOf(cs[..|cs| - 1], gs)
    requires r == AddPart(gs, cs[|cs| - 1].base, cs[|cs| - 1].part)
    ensures forall k :: 0 <= k < |r| ==> r[k].parts != [] && r[k].parts == PartsFor(cs, r[k].base)
  {
    var init := cs[..|cs| - 1];
    var b := cs[|cs| - 1].base;
    if !HasBase(gs, b) && PartsFor(init, b) != [] {
      PartsForCovered(init, gs, b);
      assert false;
    }
  }

  /** A dictionary update keeps every base. */
  lemma AddPartKeeps(gs: seq<Group>, b: string, p: Part, c: string)
    requires DistinctBases(gs) && HasBase(gs, c)
    ensures HasBase(AddPart(gs, b, p), c)
  {
    var k :| 0 <= k < |gs| && gs[k].base == c;
    assert AddPart(gs, b, p)[k].base == c;
  }

  /** A dictionary update gives its own base a group. */
  lemma AddPartAdds(gs: seq<Group>, b: string, p: Part)
    requires DistinctBases(gs)
    ensures HasBase(AddPart(gs, b, p), b)
  {
    var r := AddPart(gs, b, p);
    if HasBase(gs, b) {
      AddPartKeeps(gs, b, p, b);
    } else {
      assert r[|gs|].base == b;
    }
  }

  lemma AddPartKeepsAll(gs: seq<Group>, b: string, p: Part)
    requires DistinctBases(gs)
    ensures forall c :: HasBase(gs, c) ==> HasBase(AddPart(gs, b, p), c)
  {
    forall c | HasBase(gs, c)
      ensures HasBase(AddPart(gs, b, p), c)
    {
      AddPartKeeps(gs, b, p, c);
    }
  }

  /** A step that keeps every base and adds the new candidate's base covers
      every candidate. */
  lemma GroupStepCovers(cs: seq<Candidate>, gs: seq<Group>, r: seq<Group>)
    requires cs != []
    requires var init := cs[..|cs| - 1]; forall j :: 0 <= j < |init| ==> HasBase(gs, init[j].base)
    requires forall c :: HasBase(gs, c) ==> HasBase(r, c)
    requires HasBase(r, cs[|cs| - 1].base)
    ensures forall j :: 0 <= j < |cs| ==> HasBase(r, cs[j].base)
  {
    var init := cs[..|cs| - 1];
    forall j | 0 <= j < |cs|
      ensures HasBase(r, cs[j].base)
    {
      if j < |init| {
        assert init[j] == cs[j];
        assert HasBase(gs, init[j].base);
      }
    }
  }

  /** The grouping part of the batch: directories whose names parse, grouped by
      base in order of first appearance. */
  function GroupByBase(listing: seq<Entry>): (r: seq<Group>)
    ensures DistinctBases(r)
    ensures forall k :: 0 <= k < |r| ==> r[k].parts != [] && r[k].parts == PartsFor(Candidates(listing), r[k].base)
  {
    Grouped(Candidates(listing))
  }

  /** Every admitted entry's base has a group, and every group's base is the base
      of an admitted entry. */
  lemma GroupsCoverListing(listing: seq<Entry>, b: string)
    ensures HasBase(GroupByBase(listing), b)
            <==> exists j :: 0 <= j < |listing| && Admitted(listing[j]) && BaseOf(listing[j]) == b
  {
    var cs := Candidates(listing);
    var r := GroupByBase(listing);
    if HasBase(r, b) {
      var k :| 0 <= k < |r| && r[k].base == b;
      var i := PartsForFrom(cs, b, 0);
      var j := CandidateFrom(listing, i);
    }
    if exists j :: 0 <= j < |listing| && Admitted(listing[j]) && BaseOf(listing[j]) == b {
      var j :| 0 <= j < |listing| && Admitted(listing[j]) && BaseOf(listing[j]) == b;
      var i := CandidateFor(listing, j);
      assert HasBase(r, cs[i].base);
    }
  }

  /** The batch has something to do exactly when some directory name parses. */
  lemma NoGroupsIffNoneAdmitted(listing: seq<Entry>)
    ensures GroupByBase(listing) == [] <==> forall j :: 0 <= j < |listing| ==> !Admitted(listing[j])
  {
    var r := GroupByBase(listing);
    if r != [] {
      GroupsCoverListing(listing, r[0].base);
    } else if exists j :: 0 <= j < |listing| && Admitted(listing[j]) {
      var j :| 0 <= j < |listing| && Admitted(listing[j]);
      GroupsCoverListing(listing, BaseOf(listing[j]));
    }
  }

  /** Every part of a group is a directory of the listing whose name parses to the
      group's base and the part's own suffix: the base itself when the suffix is
      missing, the base followed by the suffix otherwise. */
  lemma PartsShareBase(listing: seq<Entry>, k: nat, i: nat)
    requires k < |GroupByBase(listing)| && i < |GroupByBase(listing)[k].parts|
    ensures var g := GroupByBase(listing)[k];
            var p := g.parts[i];
            && Entry(p.name, true) in listing
            && ParseFolderName(p.name) == ParsedName(Some(g.base), p.suffix)
            && (p.suffix.None? ==> p.name == g.base)
            && (p.suffix.Some? ==> p.name == g.base + p.suffix.value)
  {
    var g := GroupByBase(listing)[k];
    var c := PartsForFrom(Candidates(listing), g.base, i);
    var j := CandidateFrom(listing, c);
    assert listing[j] == Entry(g.parts[i].name, true);
  }

  /** Each admitted entry lands in exactly one group: the one of its base. */
  lemma ExactlyOneGroup(listing: seq<Entry>, j: nat) returns (k: nat)
    requires j < |listing| && Admitted(listing[j])
    ensures var r := GroupByBase(listing);
            && k < |r| && r[k].base == BaseOf(listing[j]) && PartOf(listing[j]) in r[k].parts
            && forall m :: 0 <= m < |r| && m != k ==> PartOf(listing[j]) !in r[m].parts
  {
    var cs := Candidates(listing);
    var r := GroupByBase(listing);
    var i := CandidateFor(listing, j);
    assert HasBase(r, cs[i].base);
    k :| 0 <= k < |r| && r[k].base == cs[i].base;
    PartsForHas(cs, i);
    forall m | 0 <= m < |r| && PartOf(listing[j]) in r[m].parts
      ensures m == k
    {
      var n :| 0 <= n < |r[m].parts| && r[m].parts[n] == PartOf(listing[j]);
      PartsShareBase(listing, m, n);
    }
  }

  // ---------------------------------------------------------------- the order of parts

  /** Insertion in front of the first element with a larger or equal key. */
  function InsertByKey<T>(key: T -> nat, x: T, xs: seq<T>): (r: seq<T>)
    ensures |r| == |xs| + 1
    ensures r[0] == x || (xs != [] && r[0] == xs[0])
  {
    if xs == [] || key(x) <= key(xs[0]) then [x] + xs
    else [xs[0]] + InsertByKey(key, x, xs[1..])
  }

  /** Insertion adds the element and nothing else. */
  lemma {:induction false} InsertPermutes<T>(key: T -> nat, x: T, xs: seq<T>)
    ensures multiset(InsertByKey(key, x, xs)) == multiset(xs) + multiset{x}
  {
    if xs != [] && key(x) > key(xs[0]) {
      InsertPermutes(key, x, xs[1..]);
      assert xs == [xs[0]] + xs[1..];
    }
  }

  predicate SortedByKey<T>(key: T -> nat, xs: seq<T>) {
    forall i :: 0 <= i < |xs| - 1 ==> key(xs[i]) <= key(xs[i + 1])
  }

  /** Python's `sorted(xs, key=key)`, as an insertion sort. */
  function SortByKey<T>(key: T -> nat, xs: seq<T>): (r: seq<T>)
    ensures multiset(r) == multiset(xs)
    ensures SortedByKey(key, r)
  {
    if xs == [] then []
    else
      var rest := SortByKey(key, xs[1..]);
      InsertSorted(key, xs[0], rest);
      InsertPermutes(key, xs[0], rest);
      assert xs == [xs[0]] + xs[1..];
      InsertByKey(key, xs[0], rest)
  }

  lemma {:induction false} InsertSorted<T>(key: T -> nat, x: T, xs: seq<T>)
    requires SortedByKey(key, xs)
    ensures SortedByKey(key, InsertByKey(key, x, xs))
  {
    if xs != [] && key(x) > key(xs[0]) {
      InsertSorted(key, x, xs[1..]);
    }
  }

  /** The elements with key `k`, in order. */
  function WithKey<T>(key: T -> nat, xs: seq<T>, k: nat): seq<T> {
    if xs == [] then []
    else (if key(xs[0]) == k then [xs[0]] else []) + WithKey(key, xs[1..], k)
  }

  lemma WithKeyCons<T>(key: T -> nat, x: T, xs: seq<T>, k: nat)
    ensures WithKey(key, [x] + xs, k) == (if key(x) == k then [x] else []) + WithKey(key, xs, k)
  {
    assert ([x] + xs)[1..] == xs;
  }

  lemma {:induction false} InsertStable<T>(key: T -> nat, x: T, xs: seq<T>, k: nat)
    ensures WithKey(key, InsertByKey(key, x, xs), k) == (if key(x) == k then [x] else []) + WithKey(key, xs, k)
  {
    if xs == [] || key(x) <= key(xs[0]) {
      InsertFront(key, x, xs);
      WithKeyCons(key, x, xs, k);
    } else {
      var tail := InsertPast(key, x, xs);
      InsertStable(key, x, xs[1..], k);
      WithKeyCons(key, xs[0], tail, k);
      WithKeyCons(key, xs[0], xs[1..], k);
      assert [xs[0]] + xs[1..] == xs;
    }
  }

  lemma InsertFront<T>(key: T -> nat, x: T, xs: seq<T>)
    requires xs == [] || key(x) <= key(xs[0])
    ensures InsertByKey(key, x, xs) == [x] + xs
  {
  }

  lemma InsertPast<T>(key: T -> nat, x: T, xs: seq<T>) returns (tail: seq<T>)
    requires xs != [] && key(x) > key(xs[0])
    ensures tail == InsertByKey(key, x, xs[1..])
    ensures InsertByKey(key, x, xs) == [xs[0]] + tail
  {
    tail := InsertByKey(key, x, xs[1..]);
  }

  /** The sort is stable: elements with equal keys keep their order. */
  lemma {:induction false} SortByKeyStable<T>(key: T -> nat, xs: seq<T>, k: nat)
    ensures WithKey(key, SortByKey(key, xs), k) == WithKey(key, xs, k)
  {
    if xs != [] {
      SortByKeyStable(key, xs[1..], k);
      InsertStable(key, xs[0], SortByKey(key, xs[1..]), k);
    }
  }

  function Key(p: Part): nat {
    SuffixKey(p.suffix)
  }

  /** `sorted(parts, key=hebrew_suffix_key)`: a permutation of the parts in
      non-decreasing key order. */
  function SortBySuffix(ps: seq<Part>): (r: seq<Part>)
    ensures multiset(r) == multiset(ps)
    ensures forall i :: 0 <= i < |r| - 1 ==> Key(r[i]) <= Key(r[i + 1])
  {
    SortByKey(Key, ps)
  }

  /** Parts whose suffixes share a key keep their listing order. */
  lemma SortBySuffixStable(ps: seq<Part>, k: nat)
    ensures WithKey(Key, SortBySuffix(ps), k) == WithKey(Key, ps, k)
  {
    SortByKeyStable(Key, ps, k);
  }

  // ---------------------------------------------------------------- the order of groups

  /** Python's `<` on `str`: code point by code point, a proper prefix first. */
  predicate LexLess(a: string, b: string) {
    if a == [] then b != []
    else if b == [] then false
    else if a[0] != b[0] then a[0] < b[0]
    else LexLess(a[1..], b[1..])
  }

  /** Two different strings are ordered one way or the other, never both. */
  lemma {:induction false} LexTotal(a: string, b: string)
    ensures a != b <==> LexLess(a, b) || LexLess(b, a)
    ensures !(LexLess(a, b) && LexLess(b, a))
  {
    if a != [] && b != [] && a[0] == b[0] {
      LexTotal(a[1..], b[1..]);
      assert a == [a[0]] + a[1..] && b == [b[0]] + b[1..];
    }
  }

  lemma {:induction false} LexTransitive(a: string, b: string, c: string)
    requires LexLess(a, b) && LexLess(b, c)
    ensures LexLess(a, c)
  {
    if a != [] && a[0] == b[0] && b[0] == c[0] {
      LexTransitive(a[1..], b[1..], c[1..]);
    }
  }

  function InsertByBase(g: Group, gs: seq<Group>): (r: seq<Group>)
    ensures multiset(r) == multiset(gs) + multiset{g}
    ensures r[0] == g || (gs != [] && r[0] == gs[0])
  {
    if gs == [] || LexLess(g.base, gs[0].base) then [g] + gs
    else
      assert gs == [gs[0]] + gs[1..];
      [gs[0]] + InsertByBase(g, gs[1..])
  }

  predicate Ascending(gs: seq<Group>) {
    forall i :: 0 <= i < |gs| - 1 ==> LexLess(gs[i].base, gs[i + 1].base)
  }

  /** `sorted(groups.items())`: the groups in ascending base order. The bases are
      dictionary keys, so no two are equal. */
  function SortGroups(gs: seq<Group>): (r: seq<Group>)
    requires DistinctBases(gs)
    ensures multiset(r) == multiset(gs)
    ensures Ascending(r)
  {
    if gs == [] then []
    else
      var rest := SortGroups(gs[1..]);
      assert gs == [gs[0]] + gs[1..];
      OthersDiffer(gs, rest);
      InsertAscending(gs[0], rest);
      InsertByBase(gs[0], rest)
  }

  /** A permutation of the other groups holds no group with the first one's base. */
  lemma OthersDiffer(gs: seq<Group>, rest: seq<Group>)
    requires gs != [] && DistinctBases(gs) && multiset(rest) == multiset(gs[1..])
    ensures forall k :: 0 <= k < |rest| ==> rest[k].base != gs[0].base
  {
    forall k | 0 <= k < |rest|
      ensures rest[k].base != gs[0].base
    {
      assert rest[k] in multiset(gs[1..]);
      var i :| 0 <= i < |gs[1..]| && gs[1..][i] == rest[k];
      assert gs[i + 1] == rest[k];
    }
  }

  lemma {:induction false} InsertAscending(g: Group, gs: seq<Group>)
    requires Ascending(gs) && forall k :: 0 <= k < |gs| ==> gs[k].base != g.base
    ensures Ascending(InsertByBase(g, gs))
  {
    if gs != [] && !LexLess(g.base, gs[0].base) {
      LexTotal(g.base, gs[0].base);
      InsertAscending(g, gs[1..]);
    }
  }

  /** In ascending order every earlier base is below every later one. */
  lemma {:induction false} AscendingPairwise(gs: seq<Group>, i: nat, j: nat)
    requires Ascending(gs) && i < j < |gs|
    ensures LexLess(gs[i].base, gs[j].base)
    decreases j - i
  {
    if i + 1 < j {
      AscendingPairwise(gs, i + 1, j);
      LexTransitive(gs[i].base, gs[i + 1].base, gs[j].base);
    }
  }
}
