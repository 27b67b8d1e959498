/** The batch over the mother folder: each group of case folders is processed as
    a single case or as a split case, and a split case writes each part's text and,
    when two or more parts produced text, a merged file in the mother folder.

    Processing one part (finding its PDF, reading, cleaning, repairing and writing
    it) is the abstract `outcome`: the text written for the part, or `None` when
    the part was skipped because its PDF is missing or a step raised. `CaseText`
    composes the steps that can be modelled. */
module Orchestrator {
  import opened Wrappers
  import opened Strings
  import opened Folders
  import opened Grouping
  import opened Whitespace
  import opened Normalizer
  import opened Repair

  /** Where a file is written: in a case folder, or in the mother folder. */
  datatype Location = CaseFolder(folder: string) | MotherFolder

  /** One file the batch writes. */
  datatype Output = Output(location: Location, file: string, text: string)

  function CleanedName(name: string): string {
    name + "_CLEANED.txt"
  }

  function MergedName(base: string): string {
    base + "_cleaned_merged.txt"
  }

  // ---------------------------------------------------------------- one case folder

  /** The text written for one case folder, given the folder's entries and a
      reader from a PDF's name to its pages (`None` when reading raises): no text
      when no PDF matches, the reader fails, or every page is blank; otherwise the
      cleaned text with its Hebrew repaired, which repairs back to the cleaned
      text. */
  function CaseText(files: seq<string>, name: string, read: string -> Option<seq<Option<string>>>): (r: Option<string>)
    ensures FindMatchingPdf(files, name).None? ==> r.None?
    ensures FindMatchingPdf(files, name).Some? ==>
              var pages := read(FindMatchingPdf(files, name).value);
              && (r.Some? <==> pages.Some? && exists k :: 0 <= k < |pages.value| && !BlankPage(pages.value[k]))
              && (r.Some? ==> CleanAndStructure(pages.value) == Success(ReverseHebrewInText(r.value)))
              && (r.Some? ==> Tidy(ReverseHebrewInText(r.value)))
  {
    match FindMatchingPdf(files, name)
    case None => None
    case Some(pdf) =>
      match read(pdf)
      case None => None
      case Some(pages) =>
        match CleanAndStructure(pages)
        case Failure(_) => None
        case Success(cleaned) =>
          ReverseHebrewInvolution(cleaned);
          Some(ReverseHebrewInText(cleaned))
  }

  // ---------------------------------------------------------------- a split case

  /** The texts of the parts that produced one, in the given order. */
  function Texts(parts: seq<Part>, outcome: Part -> Option<string>): seq<string> {
    if parts == [] then []
    else
      var p := parts[|parts| - 1];
      Texts(parts[..|parts| - 1], outcome) + (if outcome(p).Some? then [outcome(p).value] else [])
  }

  /** The `<name>_CLEANED.txt` files of the parts that produced text, in the given
      order. */
  function PartWrites(parts: seq<Part>, outcome: Part -> Option<string>): seq<Output> {
    if parts == [] then []
    else
      var p := parts[|parts| - 1];
      PartWrites(parts[..|parts| - 1], outcome)
        + (if outcome(p).Some? then [Output(CaseFolder(p.name), CleanedName(p.name), outcome(p).value)] else [])
  }

  /** The reference for what a split case writes: the parts' files in suffix order,
      then the merged file when at least two parts produced text. */
  function SplitWrites(base: string, parts: seq<Part>, outcome: Part -> Option<string>): seq<Output> {
    var order := SortBySuffix(parts);
    var texts := Texts(order, outcome);
    PartWrites(order, outcome) + (if |texts| >= 2 then [Output(MotherFolder, MergedName(base), Join("\n\n", texts))] else [])
  }

  /** `process_split_group`: the parts are processed in suffix order, a part
      without text is skipped and the later parts still run; the group succeeds
      exactly when some part produced text. */
  method ProcessSplitGroup(base: string, parts: seq<Part>, outcome: Part -> Option<string>)
    returns (ok: bool, written: seq<Output>)
    ensures ok <==> exists k :: 0 <= k < |parts| && outcome(parts[k]).Some?
    ensures written == SplitWrites(base, parts, outcome)
  {
    var order := SortBySuffix(parts);
    var texts: seq<string> := [];
    var anySuccess := false;
    written := [];
    var i := 0;
    while i < |order|
      invariant i <= |order|
      invariant texts == Texts(order[..i], outcome)
      invariant written == PartWrites(order[..i], outcome)
      invariant anySuccess <==> texts != []
    {
      var part := order[i];
      var fixed := outcome(part);
      SplitStep(order, i, outcome);
      if fixed.Some? {
        written := written + [Output(CaseFolder(part.name), CleanedName(part.name), fixed.value)];
        texts := texts + [fixed.value];
        anySuccess := true;
      }
      i := i + 1;
    }
    assert order[..i] == order;
    if |texts| >= 2 {
      written := written + [Output(MotherFolder, MergedName(base), Join("\n\n", texts))];
      ok := true;
    } else if anySuccess {
      ok := true;
    } else {
      ok := false;
    }
    SortedSucceeds(parts, outcome);
  }

  /** Processing the next part extends the texts and the files by that part's. */
  lemma SplitStep(order: seq<Part>, i: nat, outcome: Part -> Option<string>)
    requires i < |order|
    ensures var p := order[i];
            && Texts(order[..i + 1], outcome) == Texts(order[..i], outcome) + (if outcome(p).Some? then [outcome(p).value] else [])
            && PartWrites(order[..i + 1], outcome)
               == PartWrites(order[..i], outcome) + (if outcome(p).Some? then [Output(CaseFolder(p.name), CleanedName(p.name), outcome(p).value)] else [])
  {
    assert order[..i + 1][..i] == order[..i];
  }

  /** Some part of the suffix order produced text exactly when some part of the
      listing did. */
  lemma SortedSucceeds(parts: seq<Part>, outcome: Part -> Option<string>)
    ensures Texts(SortBySuffix(parts), outcome) != [] <==> exists k :: 0 <= k < |parts| && outcome(parts[k]).Some?
  {
    TextsPermutation(SortBySuffix(parts), parts, outcome);
    TextsNonEmpty(parts, outcome);
  }

  lemma {:induction false} TextsNonEmpty(parts: seq<Part>, outcome: Part -> Option<string>)
    ensures Texts(parts, outcome) != [] <==> exists k :: 0 <= k < |parts| && outcome(parts[k]).Some?
  {
    if parts != [] {
      var init := parts[..|parts| - 1];
      TextsNonEmpty(init, outcome);
      if exists k :: 0 <= k < |init| && outcome(init[k]).Some? {
        var k :| 0 <= k < |init| && outcome(init[k]).Some?;
        assert parts[k] == init[k];
      }
      if exists k :: 0 <= k < |parts| && outcome(parts[k]).Some? {
        var k :| 0 <= k < |parts| && outcome(parts[k]).Some?;
        if k < |init| {
          assert init[k] == parts[k];
        }
      }
    }
  }

  lemma {:induction false} TextsAppend(u: seq<Part>, v: seq<Part>, outcome: Part -> Option<string>)
    ensures Texts(u + v, outcome) == Texts(u, outcome) + Texts(v, outcome)
  {
    if v == [] {
      assert u + v == u;
    } else {
      assert (u + v)[..|u + v| - 1] == u + v[..|v| - 1];
      TextsAppend(u, v[..|v| - 1], outcome);
    }
  }

  /** Taking one part out removes its text, if any. */
  lemma TextsRemove(b: seq<Part>, i: nat, outcome: Part -> Option<string>)
    requires i < |b|
    ensures |Texts(b, outcome)| == |Texts(b[..i] + b[i + 1..], outcome)| + (if outcome(b[i]).Some? then 1 else 0)
  {
    var x := b[i];
    assert b == (b[..i] + [x]) + b[i + 1..];
    TextsAppend(b[..i] + [x], b[i + 1..], outcome);
    TextsAppend(b[..i], [x], outcome);
    TextsAppend(b[..i], b[i + 1..], outcome);
    assert [x][..0] == [];
  }

  /** Taking the last element of `a` out of a permutation `b` of it leaves
      permutations. */
  lemma RemoveLast(a: seq<Part>, b: seq<Part>, i: nat)
    requires multiset(a) == multiset(b) && a != [] && i < |b| && b[i] == a[|a| - 1]
    ensures multiset(a[..|a| - 1]) == multiset(b[..i] + b[i + 1..])
  {
    var x := b[i];
    assert a == a[..|a| - 1] + [x];
    assert b == b[..i] + [x] + b[i + 1..];
    assert multiset(a[..|a| - 1]) == multiset(a) - multiset{x};
    assert multiset(b[..i] + b[i + 1..]) == multiset(b) - multiset{x};
  }

  /** Reordering the parts does not change how many of them produce text. */
  lemma {:induction false} TextsPermutation(a: seq<Part>, b: seq<Part>, outcome: Part -> Option<string>)
    requires multiset(a) == multiset(b)
    ensures |Texts(a, outcome)| == |Texts(b, outcome)|
    decreases |a|
  {
    if a == [] {
      assert |b| == |multiset(b)| == 0;
    } else {
      var x := a[|a| - 1];
      assert x in multiset(a);
      var i :| 0 <= i < |b| && b[i] == x;
      RemoveLast(a, b, i);
      TextsPermutation(a[..|a| - 1], b[..i] + b[i + 1..], outcome);
      TextsRemove(b, i, outcome);
    }
  }

  /** The merged file is written exactly when at least two parts of the group
      produced text, whatever their listing order. */
  lemma MergedIffTwoSucceed(base: string, parts: seq<Part>, outcome: Part -> Option<string>)
    ensures var w := SplitWrites(base, parts, outcome);
            (|w| > 0 && w[|w| - 1].location == MotherFolder) <==> |Texts(parts, outcome)| >= 2
  {
    var order := SortBySuffix(parts);
    TextsPermutation(order, parts, outcome);
    PartWritesCarryTexts(order, outcome);
    var pw := PartWrites(order, outcome);
    if pw != [] {
      assert pw[|pw| - 1].location.CaseFolder?;
    }
  }

  /** The parts that produced text, in the given order. */
  function Producing(parts: seq<Part>, outcome: Part -> Option<string>): (r: seq<Part>)
    ensures forall q :: q in r ==> q in parts && outcome(q).Some?
  {
    if parts == [] then []
    else
      var p := parts[|parts| - 1];
      Producing(parts[..|parts| - 1], outcome) + (if outcome(p).Some? then [p] else [])
  }

  /** Each part that produced text, in order, has its file in its own folder,
      named after it and holding its text, and that text is the one the merged
      file joins at the same position. */
  lemma {:induction false} PartWritesCarryTexts(parts: seq<Part>, outcome: Part -> Option<string>)
    ensures |PartWrites(parts, outcome)| == |Texts(parts, outcome)| == |Producing(parts, outcome)|
    ensures forall i :: 0 <= i < |PartWrites(parts, outcome)| ==>
              var p := Producing(parts, outcome)[i];
              && PartWrites(parts, outcome)[i] == Output(CaseFolder(p.name), CleanedName(p.name), outcome(p).value)
              && Texts(parts, outcome)[i] == outcome(p).value
  {
    if parts != [] {
      PartWritesCarryTexts(parts[..|parts| - 1], outcome);
    }
  }

  function TextsOf(ws: seq<Output>): (r: seq<string>)
    ensures |r| == |ws| && forall i :: 0 <= i < |ws| ==> r[i] == ws[i].text
  {
    if ws == [] then [] else TextsOf(ws[..|ws| - 1]) + [ws[|ws| - 1].text]
  }

  /** When two or more parts produced text, the last file is the merged one, and
      its text is the individual files' texts joined by blank lines. */
  lemma MergedJoinsParts(base: string, parts: seq<Part>, outcome: Part -> Option<string>)
    requires |Texts(parts, outcome)| >= 2
    ensures var individual := PartWrites(SortBySuffix(parts), outcome);
            SplitWrites(base, parts, outcome) == individual + [Output(MotherFolder, MergedName(base), Join("\n\n", TextsOf(individual)))]
  {
    var order := SortBySuffix(parts);
    TextsPermutation(order, parts, outcome);
    PartWritesCarryTexts(order, outcome);
    assert TextsOf(PartWrites(order, outcome)) == Texts(order, outcome);
  }

  // ---------------------------------------------------------------- dispatch

  /** A group goes to `process_folder` when it is one folder without a suffix;
      everything else, a lone suffixed folder included, is a split case. */
  predicate IsSimple(g: Group) {
    |g.parts| == 1 && g.parts[0].suffix.None?
  }

  /** A group of the listing is a single case exactly when its only part is the
      folder named by the base itself. */
  lemma SimpleIffLoneBaseFolder(listing: seq<Entry>, k: nat)
    requires k < |GroupByBase(listing)|
    ensures var g := GroupByBase(listing)[k];
            IsSimple(g) <==> g.parts == [Part(g.base, None)]
  {
    var g := GroupByBase(listing)[k];
    if IsSimple(g) {
      PartsShareBase(listing, k, 0);
    }
  }

  /** What `process_folder` writes: the folder's own cleaned file when it produced
      text. */
  method ProcessFolder(part: Part, outcome: Part -> Option<string>) returns (ok: bool, written: seq<Output>)
    ensures ok <==> outcome(part).Some?
    ensures written == PartWrites([part], outcome)
  {
    assert [part][..0] == [];
    match outcome(part) {
      case None =>
        ok, written := false, [];
      case Some(fixed) =>
        ok, written := true, [Output(CaseFolder(part.name), CleanedName(part.name), fixed)];
    }
  }

  /** The reference for what one group writes. */
  function GroupWrites(g: Group, outcome: Part -> Option<string>): seq<Output> {
    if IsSimple(g) then PartWrites(g.parts, outcome) else SplitWrites(g.base, g.parts, outcome)
  }

  /** A group succeeds exactly when one of its parts produced text, whichever way it
      is dispatched. */
  predicate Succeeds(g: Group, outcome: Part -> Option<string>) {
    exists k :: 0 <= k < |g.parts| && outcome(g.parts[k]).Some?
  }

  method ProcessGroup(g: Group, outcome: Part -> Option<string>) returns (ok: bool, written: seq<Output>)
    ensures ok <==> Succeeds(g, outcome)
    ensures written == GroupWrites(g, outcome)
  {
    if IsSimple(g) {
      assert g.parts == [g.parts[0]];
      ok, written := ProcessFolder(g.parts[0], outcome);
    } else {
      ok, written := ProcessSplitGroup(g.base, g.parts, outcome);
    }
  }

  /** Dispatch only changes the console messages: a one-folder group writes the
      same files whichever way it is processed. */
  lemma LoneFolderEitherWay(base: string, part: Part, outcome: Part -> Option<string>)
    ensures SplitWrites(base, [part], outcome) == PartWrites([part], outcome)
  {
    assert [part][1..] == [];
    assert SortBySuffix([part]) == InsertByKey(Key, part, []) == [part];
    assert [part][..0] == [];
    assert |Texts([part], outcome)| <= 1;
  }

  // ---------------------------------------------------------------- the batch

  datatype BatchError = NoValidFolders

  /** The bases visited, the group counts, and every file written, in order. */
  datatype Report = Report(visited: seq<string>, succeeded: nat, failed: nat, written: seq<Output>)

  function Bases(gs: seq<Group>): (r: seq<string>)
    ensures |r| == |gs| && forall i :: 0 <= i < |gs| ==> r[i] == gs[i].base
  {
    if gs == [] then [] else Bases(gs[..|gs| - 1]) + [gs[|gs| - 1].base]
  }

  /** The number of groups that succeed. */
  function SucceededCount(gs: seq<Group>, outcome: Part -> Option<string>): (n: nat)
    ensures n <= |gs|
  {
    if gs == [] then 0
    else SucceededCount(gs[..|gs| - 1], outcome) + (if Succeeds(gs[|gs| - 1], outcome) then 1 else 0)
  }

  function AllWrites(gs: seq<Group>, outcome: Part -> Option<string>): seq<Output> {
    if gs == [] then [] else AllWrites(gs[..|gs| - 1], outcome) + GroupWrites(gs[|gs| - 1], outcome)
  }

  /** The processing part of `batch_process`: the groups are visited in ascending
      base order, each counted once as a success or a failure; without any group
      the batch stops with an error. */
  method RunBatch(listing: seq<Entry>, outcome: Part -> Option<string>) returns (r: Result<Report, BatchError>)
    ensures r.Failure? <==> forall j :: 0 <= j < |listing| ==> !Admitted(listing[j])
    ensures r.Success? ==>
              var order := SortGroups(GroupByBase(listing));
              && r.value.visited == Bases(order)
              && r.value.succeeded == SucceededCount(order, outcome)
              && r.value.succeeded + r.value.failed == |order|
              && r.value.written == AllWrites(order, outcome)
  {
    var groups := GroupByBase(listing);
    NoGroupsIffNoneAdmitted(listing);
    if groups == [] {
      return Failure(NoValidFolders);
    }
    var order := SortGroups(groups);
    var visited: seq<string> := [];
    var succeeded, failed := 0, 0;
    var written: seq<Output> := [];
    var i := 0;
    while i < |order|
      invariant i <= |order|
      invariant visited == Bases(order[..i])
      invariant succeeded == SucceededCount(order[..i], outcome)
      invariant succeeded + failed == i
      invariant written == AllWrites(order[..i], outcome)
    {
      assert order[..i + 1][..i] == order[..i];
      var ok, w := ProcessGroup(order[i], outcome);
      visited := visited + [order[i].base];
      written := written + w;
      if ok {
        succeeded := succeeded + 1;
      } else {
        failed := failed + 1;
      }
      i := i + 1;
    }
    assert order[..i] == order;
    return Success(Report(visited, succeeded, failed, written));
  }

  // ---------------------------------------------------------------- the batch without split folders

  /** A case folder of the root program's batch: a directory with a valid name. */
  predicate IsCaseFolder(e: Entry) {
    e.isDir && IsValidFolderName(e.name)
  }

  /** The case folders of the listing, as parts without a suffix, in listing order. */
  function CaseFolders(listing: seq<Entry>): (r: seq<Part>)
    ensures forall p :: p in r ==> p.suffix.None? && IsValidFolderName(p.name)
  {
    if listing == [] then []
    else
      var e := listing[|listing| - 1];
      CaseFolders(listing[..|listing| - 1]) + (if IsCaseFolder(e) then [Part(e.name, None)] else [])
  }

  /** `cases` are the case-folder entries of `listing` in listing order: the i-th
      is the entry at position `at[i]`, the positions ascend, and every
      case-folder entry is among them. */
  predicate PlacedAt(listing: seq<Entry>, cases: seq<Part>, at: seq<nat>) {
    && |at| == |cases|
    && (forall i :: 0 <= i < |at| ==>
          at[i] < |listing| && IsCaseFolder(listing[at[i]]) && cases[i] == Part(listing[at[i]].name, None))
    && (forall i, j :: 0 <= i < j < |at| ==> at[i] < at[j])
    && (forall j :: 0 <= j < |listing| && IsCaseFolder(listing[j]) ==> j in at)
  }

  /** The case folders are the listing's case-folder entries, in listing order. */
  lemma {:induction false} CaseFoldersInListingOrder(listing: seq<Entry>) returns (at: seq<nat>)
    ensures PlacedAt(listing, CaseFolders(listing), at)
  {
    if listing == [] {
      at := [];
    } else {
      var n := |listing| - 1;
      var prev := CaseFoldersInListingOrder(listing[..n]);
      assert listing == listing[..n] + [listing[n]];
      at := PlacedStep(listing[..n], listing[n], CaseFolders(listing[..n]), prev);
    }
  }

  /** One more entry at the end of the listing. */
  lemma PlacedStep(front: seq<Entry>, e: Entry, cases: seq<Part>, prev: seq<nat>) returns (at: seq<nat>)
    requires PlacedAt(front, cases, prev)
    ensures PlacedAt(front + [e], cases + (if IsCaseFolder(e) then [Part(e.name, None)] else []), at)
  {
    var more := if IsCaseFolder(e) then [Part(e.name, None)] else [];
    at := if IsCaseFolder(e) then prev + [|front|] else prev;
    PlacedEntries(front, e, cases, prev, more, at);
    PlacedAscending(front, e, prev, at);
    PlacedComplete(front, e, prev, at);
  }

  lemma PlacedEntries(front: seq<Entry>, e: Entry, cases: seq<Part>, prev: seq<nat>, more: seq<Part>, at: seq<nat>)
    requires PlacedAt(front, cases, prev)
    requires more == (if IsCaseFolder(e) then [Part(e.name, None)] else [])
    requires at == (if IsCaseFolder(e) then prev + [|front|] else prev)
    ensures |at| == |cases + more|
    ensures forall i :: 0 <= i < |at| ==>
              at[i] < |front + [e]| && IsCaseFolder((front + [e])[at[i]]) && (cases + more)[i] == Part((front + [e])[at[i]].name, None)
  {
    var listing := front + [e];
    forall i | 0 <= i < |at|
      ensures at[i] < |listing| && IsCaseFolder(listing[at[i]]) && (cases + more)[i] == Part(listing[at[i]].name, None)
    {
      if i < |prev| {
        assert at[i] == prev[i] && listing[prev[i]] == front[prev[i]] && (cases + more)[i] == cases[i];
      }
    }
  }

  lemma PlacedAscending(front: seq<Entry>, e: Entry, prev: seq<nat>, at: seq<nat>)
    requires forall i :: 0 <= i < |prev| ==> prev[i] < |front|
    requires forall i, j :: 0 <= i < j < |prev| ==> prev[i] < prev[j]
    requires at == (if IsCaseFolder(e) then prev + [|front|] else prev)
    ensures forall i, j :: 0 <= i < j < |at| ==> at[i] < at[j]
  {
    forall i, j | 0 <= i < j < |at|
      ensures at[i] < at[j]
    {
      assert at[i] == prev[i];
    }
  }

  lemma PlacedComplete(front: seq<Entry>, e: Entry, prev: seq<nat>, at: seq<nat>)
    requires forall j :: 0 <= j < |front| && IsCaseFolder(front[j]) ==> j in prev
    requires at == (if IsCaseFolder(e) then prev + [|front|] else prev)
    ensures forall j :: 0 <= j < |front + [e]| && IsCaseFolder((front + [e])[j]) ==> j in at
  {
    var listing := front + [e];
    forall j | 0 <= j < |listing| && IsCaseFolder(listing[j])
      ensures j in at
    {
      if j < |front| {
        assert listing[j] == front[j];
      }
    }
  }

  /** There is no case folder to process exactly when no entry is a directory
      with a valid name. */
  lemma NoCaseFolders(listing: seq<Entry>)
    ensures CaseFolders(listing) == [] <==> forall j :: 0 <= j < |listing| ==> !IsCaseFolder(listing[j])
  {
    var at := CaseFoldersInListingOrder(listing);
    if CaseFolders(listing) != [] {
      assert at[0] < |listing|;
      assert IsCaseFolder(listing[at[0]]);
    }
  }

  function Names(parts: seq<Part>): (r: seq<string>)
    ensures |r| == |parts| && forall i :: 0 <= i < |parts| ==> r[i] == parts[i].name
  {
    if parts == [] then [] else Names(parts[..|parts| - 1]) + [parts[|parts| - 1].name]
  }

  /** Processing one more case folder adds its file, if it produced text, and
      counts it. */
  lemma OneMoreFolder(cases: seq<Part>, i: nat, outcome: Part -> Option<string>)
    requires i < |cases|
    ensures PartWrites(cases[..i + 1], outcome) == PartWrites(cases[..i], outcome) + PartWrites([cases[i]], outcome)
    ensures |Producing(cases[..i + 1], outcome)| == |Producing(cases[..i], outcome)| + (if outcome(cases[i]).Some? then 1 else 0)
    ensures Names(cases[..i + 1]) == Names(cases[..i]) + [cases[i].name]
  {
    assert cases[..i + 1][..i] == cases[..i];
    assert [cases[i]][..0] == [];
  }

  /** `batch_process` of the root program: every directory with a valid name is
      processed as a single case, in listing order; the batch stops with an error
      when there is none. */
  method RunRootBatch(listing: seq<Entry>, outcome: Part -> Option<string>) returns (r: Result<Report, BatchError>)
    ensures r.Failure? <==> forall j :: 0 <= j < |listing| ==> !IsCaseFolder(listing[j])
    ensures r.Success? ==>
              var cases := CaseFolders(listing);
              && r.value.visited == Names(cases)
              && r.value.succeeded == |Producing(cases, outcome)|
              && r.value.succeeded + r.value.failed == |cases|
              && r.value.written == PartWrites(cases, outcome)
  {
    var cases := CaseFolders(listing);
    NoCaseFolders(listing);
    if cases == [] {
      return Failure(NoValidFolders);
    }
    var visited: seq<string> := [];
    var succeeded, failed := 0, 0;
    var written: seq<Output> := [];
    var i := 0;
    while i < |cases|
      invariant i <= |cases|
      invariant visited == Names(cases[..i])
      invariant succeeded == |Producing(cases[..i], outcome)|
      invariant succeeded + failed == i
      invariant written == PartWrites(cases[..i], outcome)
    {
      var ok, w := ProcessFolder(cases[i], outcome);
      OneMoreFolder(cases, i, outcome);
      visited := visited + [cases[i].name];
      written := written + w;
      if ok {
        succeeded := succeeded + 1;
      } else {
        failed := failed + 1;
      }
      i := i + 1;
    }
    assert cases[..i] == cases;
    return Success(Report(visited, succeeded, failed, written));
  }

  /** The visited bases are strictly ascending. */
  lemma VisitedAscending(listing: seq<Entry>)
    ensures var visited := Bases(SortGroups(GroupByBase(listing)));
            forall i, j :: 0 <= i < j < |visited| ==> LexLess(visited[i], visited[j])
  {
    var order := SortGroups(GroupByBase(listing));
    forall i, j | 0 <= i < j < |order|
      ensures LexLess(order[i].base, order[j].base)
    {
      AscendingPairwise(order, i, j);
    }
  }

  /** Reordering groups keeps their bases. */
  lemma PermutedBases(groups: seq<Group>, order: seq<Group>, b: string)
    requires multiset(order) == multiset(groups)
    ensures b in Bases(order) <==> HasBase(groups, b)
  {
    var visited := Bases(order);
    if b in visited {
      var i :| 0 <= i < |visited| && visited[i] == b;
      assert order[i] in multiset(groups);
      var k :| 0 <= k < |groups| && groups[k] == order[i];
    }
    if HasBase(groups, b) {
      var k :| 0 <= k < |groups| && groups[k].base == b;
      assert groups[k] in multiset(order);
      var i :| 0 <= i < |order| && order[i] == groups[k];
      assert visited[i] == b;
    }
  }

  /** The visited bases are exactly the bases of the directories whose names
      parse. */
  lemma VisitedBases(listing: seq<Entry>, b: string)
    ensures b in Bases(SortGroups(GroupByBase(listing)))
            <==> exists j :: 0 <= j < |listing| && Admitted(listing[j]) && BaseOf(listing[j]) == b
  {
    GroupsCoverListing(listing, b);
    PermutedBases(GroupByBase(listing), SortGroups(GroupByBase(listing)), b);
  }
}
