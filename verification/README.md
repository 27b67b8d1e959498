# pdfToText — a Dafny model of the batch core

pdfToText turns medical-report PDFs, one per case folder, into cleaned text
files. The mother folder holds case folders named with two Hebrew letters and
three digits (`אה456`). A case can be split over several folders that carry a
one-letter Hebrew suffix (`ננ449א`, `ננ449ב`). For every case the batch:

1. finds the folder's PDF;
2. joins the text of its pages;
3. strips markup, page markers and banners;
4. turns meeting lines and section labels into headings;
5. tidies the whitespace;
6. repairs the Hebrew that the extractor emits in visual (reversed) order;
7. writes `<folder>_CLEANED.txt`.

A split case also gets `<base>_cleaned_merged.txt` in the mother folder once two
or more of its parts produced text.

The model has these modules:

| module | file | content |
|---|---|---|
| `Wrappers` | `wrappers.dfy` | `Option` and `Result` |
| `Strings` | `strings.dfy` | Python's `isspace`, the Hebrew block U+0590–U+05FF, ASCII digits, `split`/`join`/`strip`, `lower()` on ASCII, and the character match of `re.IGNORECASE` |
| `Patterns` | `patterns.dfy` | The regular expressions of the cleaner, as sequences of literal and repeated character-class items, and greedy matching. `Sub` is `re.sub`, leftmost and non-overlapping. Both are proved against a declarative language of the items. |
| `Whitespace` | `whitespace.dfy` | The four final whitespace steps of the cleaner and the shape they leave (`Tidy`) |
| `Layout` | `layout.dfy` | A text as its whitespace runs woven around its non-whitespace characters, what each whitespace step does to every run, and the whole clean-up as one rule per run |
| `Normalizer` | `normalizer.dfy` | `clean_and_structure_pdf`: page joining, the no-text error, and every substitution with its exact language |
| `Repair` | `repair.dfy` | `reverse_hebrew_in_text` and its per-line `fix_hebrew_line` |
| `Folders` | `folders.dfy` | Folder-name validation and parsing, the suffix order, and the PDF lookup |
| `Grouping` | `grouping.dfy` | Discovery and grouping of case folders, the order of groups by base, and the order of parts by suffix |
| `Orchestrator` | `orchestrator.dfy` | `process_folder`, `process_split_group`, the batch loop of the Mac program and the batch loop of the root program, with every file they write |

Everything the program does to the outside world becomes a value:

- The listing of the mother folder is a sequence of `Entry(name, isDir)`.
- A folder's files are a sequence of names.
- The PDF extractor is a reader from a file name to its pages. Each page is `Some(text)`, or `None` when the extractor returns nothing. The reader returns `None` when opening the PDF raises.
- Each file written is an `Output(location, file, text)`.
- In the batch, processing one part of a case is an abstract `outcome`: the text written, or `None` when the part is skipped. `Orchestrator.CaseText` shows how that text arises from the modelled steps.

The source cells below are relative to the repository root. The root
`pdf_batch_processor.py` and `Mac/pdf_batch_processor.py` share `is_valid_folder_name`,
`find_matching_pdf`, `clean_and_structure_pdf` and `reverse_hebrew_in_text`
line for line. In the Mac copy, all but the first sit 41 lines further down.
Only the Mac copy has the split-folder support.
The two batch loops differ. The root loop processes every directory with a valid
name, in listing order, as a single case. The Mac loop groups folders by base and
visits the groups in ascending base order.

## Model

| member | source | states |
|---|---|---|
| Folders.IsValidFolderName | Mac/pdf_batch_processor.py:25-31 | A name is valid exactly when it has five characters: two from the Hebrew block, then three ASCII digits. |
| Folders.ParseFolderName | Mac/pdf_batch_processor.py:40-56 | A name parses to no base exactly when it fits neither pattern. A missing base means a missing suffix. A base is always a valid base name, and a name without a suffix is its own base. A suffix is a single Hebrew-block character. |
| Folders.ValidIffParsesWhole | Mac/pdf_batch_processor.py:44-56 | A name is a valid base name exactly when it parses to itself with no suffix. |
| Folders.ParseExamples | Mac/pdf_batch_processor.py:44-50 | `ננ449` parses to itself with no suffix, and `ננ449א` parses to base `ננ449` with suffix `א`, as the docstring promises. |
| Folders.FindFrom | Mac/pdf_batch_processor.py:70 | `str.index`: the result is the first position at or after the start where the needle occurs; none means it occurs nowhere there. |
| Folders.SuffixKey | Mac/pdf_batch_processor.py:62-72 | Every key is at most the key for unknown suffixes. |
| Folders.SuffixKeyRanks | Mac/pdf_batch_processor.py:59-72 | A letter of the order gets its position in the order. Any other letter, a missing suffix and the empty suffix all get the unknown key, which is past every position. |
| Folders.SuffixKeyOfLetter | Mac/pdf_batch_processor.py:59-72 | The i-th letter of the order has key i. |
| Folders.SuffixKeyOrder | Mac/pdf_batch_processor.py:59-72 | For letters of the order, a smaller key means exactly a smaller code point, so the suffix order is the alphabet. |
| Folders.FinalFormsNotInOrder | Mac/pdf_batch_processor.py:59 | None of the five final letter forms is in the order. |
| Folders.FinalFormsSortLast | Mac/pdf_batch_processor.py:59-72 | Parts suffixed with a final letter form all get the unknown key, so they sort after every regular letter. |
| Folders.FirstFoldMatch | Mac/pdf_batch_processor.py:86-89 | The result is the first entry equal to the name up to case; none means no entry matches. |
| Folders.FindMatchingPdf | Mac/pdf_batch_processor.py:75-91 | `<folder>.pdf` wins when present. Otherwise the result is the first entry equal to it up to case. There is no result exactly when no entry matches up to case. |
| Patterns.MatchSound | pdf_batch_processor.py:69-114 | A match found at a position is a cut of the text into the pattern's items. |
| Patterns.MatchLongest | pdf_batch_processor.py:69-114 | For patterns whose items cannot bleed into each other, every cut at the position is no longer than the match found. |
| Patterns.MatchIsLongestPrefix | pdf_batch_processor.py:69-114 | The greedy match is exactly the longest prefix in the pattern's language. |
| Patterns.SubReplaces | pdf_batch_processor.py:69-114 | At a position where the longest match ends at e, the substitution emits the replacement of that text and continues at e. |
| Patterns.SubLeftmostLongest | pdf_batch_processor.py:69-114 | When nothing matches before j and the longest match at j ends at e, `re.sub` keeps the text before j, replaces `[j, e)` and continues at e. |
| Patterns.SubNoMatch | pdf_batch_processor.py:69-114 | Text with no match anywhere comes out unchanged. |
| Normalizer.PageTextBlank | pdf_batch_processor.py:57-65 | The joined page text is all whitespace exactly when every page is blank or missing. |
| Normalizer.CleanAndStructure | pdf_batch_processor.py:53-117 | The cleaner fails exactly when every page is blank, and then with the no-text error. On success its text is tidy and keeps every non-whitespace character of the substituted text, in order. Its whitespace runs are those of the substituted text, each tidied as `Layout.Cleanup` states. |
| Normalizer.MarkupLanguage | pdf_batch_processor.py:69 | The markup pattern matches exactly `<`, then one or more characters other than `>`, then `>`. |
| Normalizer.UnmatchedOpen | pdf_batch_processor.py:69 | Where the markup pattern does not match, a `<` cannot open a tag. Either `>` follows it at once, or no `>` follows it anywhere. |
| Normalizer.OpenMatches | pdf_batch_processor.py:69 | A `<` that some `>` follows later, but not immediately, starts a match of the markup pattern. |
| Normalizer.MarkupScanClean | pdf_batch_processor.py:69 | What the markup deletion leaves contains no tag. |
| Normalizer.MarkupIdempotent | pdf_batch_processor.py:69 | Deleting markup twice is the same as deleting it once. |
| Normalizer.PageMarkerLanguage | pdf_batch_processor.py:70 | The page-marker pattern matches exactly `--- PAGE ` as `IGNORECASE` compares, then one or more digits, then ` ---`. |
| Normalizer.PhraseLanguage | pdf_batch_processor.py:73-82 | A banner phrase matches exactly the texts that match it character by character under `IGNORECASE`: the same letter up to ASCII case, or `İ` or `ı` for `i`, the Kelvin sign for `k`, `ſ` for `s`. |
| Normalizer.PhraseDotlessI | pdf_batch_processor.py:77-82 | `The following table:` also matches when spelled with a dotless `ı`, a spelling that lower-casing does not equate with it. |
| Normalizer.MeetingLanguage | pdf_batch_processor.py:85-90 | The meeting pattern matches exactly three digits, `/`, one or more digits, whitespace, then the word for meeting. |
| Normalizer.MeetingReplaced | pdf_batch_processor.py:85-90 | At the leftmost longest match, the meeting text is replaced by a banner that opens a new paragraph and carries the meeting's own number. |
| Normalizer.LabelLanguage | pdf_batch_processor.py:92-108 | A label pattern matches exactly the label up to case, optional whitespace, and an optional colon. |
| Normalizer.LabelReplaced | pdf_batch_processor.py:92-108 | At the leftmost longest match the label becomes its bold heading on a line of its own. When the match takes no colon, the next character is neither whitespace nor a colon. |
| Normalizer.LabelLonger | pdf_batch_processor.py:92-108 | A label followed by whitespace or a colon has a longer match, so the greedy match swallows them. |
| Whitespace.CollapseRun | pdf_batch_processor.py:111 | A whitespace run with fewer than three line breaks is kept. One with three or more keeps its whitespace before the first line break and after the last one, and everything from the first line break to the last becomes exactly two line breaks. |
| Whitespace.CollapseFewBreaks | pdf_batch_processor.py:111 | After collapsing, no run of whitespace holds three line breaks. |
| Whitespace.CollapseKeepsNonSpace | pdf_batch_processor.py:111 | Collapsing keeps every non-whitespace character in order. |
| Whitespace.StripLinesNonInline | pdf_batch_processor.py:112-113 | Stripping each line keeps the line breaks and every non-whitespace character, in order. |
| Whitespace.StripLinesTrimmed | pdf_batch_processor.py:112-113 | After stripping, no line starts or ends with whitespace. |
| Whitespace.SqueezeFacts | pdf_batch_processor.py:114 | Squeezing runs of spaces keeps the non-whitespace characters, the line-break count and the line trimming, and leaves no two spaces in a row. |
| Whitespace.SqueezeNoDouble | pdf_batch_processor.py:114 | After squeezing, no two spaces are adjacent. |
| Whitespace.StripShape | pdf_batch_processor.py:115 | Stripping a text whose runs are already collapsed, trimmed and squeezed gives a tidy text with no surrounding whitespace. |
| Layout.WeaveGaps | pdf_batch_processor.py:110-115 | Every text is its whitespace runs woven around its non-whitespace characters, with one run more than characters. |
| Layout.GapsOfWeave | pdf_batch_processor.py:110-115 | Weaving whitespace runs around non-whitespace characters and reading the text back gives those runs and characters again. |
| Layout.GapsConcat | pdf_batch_processor.py:110-115 | The runs of a concatenation are the runs of both texts, the last run of the first joined to the first run of the second. |
| Layout.CollapseGapsFrom | pdf_batch_processor.py:111 | The blank-line substitution rewrites each whitespace run on its own. |
| Layout.StripLinesGaps | pdf_batch_processor.py:112-113 | Stripping every line turns each run that holds a line break, and both end runs, into its line breaks alone. Every other run is kept. |
| Layout.SqueezeIsSquash | pdf_batch_processor.py:114 | `re.sub(' {2,}', ' ', ...)` drops exactly the spaces that another space follows. |
| Layout.SqueezeGapsOf | pdf_batch_processor.py:114 | Squeezing spaces rewrites each whitespace run on its own. |
| Layout.StripUnique | pdf_batch_processor.py:115 | `strip()` of whitespace, a text with non-whitespace ends, and whitespace is that text. |
| Layout.StripGaps | pdf_batch_processor.py:115 | `strip()` empties the first and the last run and keeps the others. |
| Layout.Cleanup | pdf_batch_processor.py:110-115 | The whitespace clean-up gives a tidy text: no double space, no three line breaks in a whitespace run, lines trimmed, no surrounding whitespace. It keeps every non-whitespace character in order. Its runs are the input's runs, tidied: the end runs are empty, an inner run with line breaks becomes one or two line breaks and nothing else, and any other inner run has its spaces squeezed. |
| Layout.CleanupRun | pdf_batch_processor.py:110-115 | An inner run holding k ≥ 1 line breaks comes out as exactly min(k, 2) line breaks and nothing else. An inner run without line breaks stays whitespace without line breaks and without two adjacent spaces, and is empty only if it was. |
| Layout.CleanupIsReflow | pdf_batch_processor.py:110-115 | The clean-up equals rebuilding the text from its non-whitespace characters with every run between them tidied. |
| Repair.Tokens | pdf_batch_processor.py:124-137 | The tokenizer cuts a line into single spaces or tabs and maximal runs of other characters, and the tokens concatenate back to the line. |
| Repair.TokensOfConcat | pdf_batch_processor.py:124-137 | Tokenizing the concatenation of a well-formed token list gives that list back. |
| Repair.FixLineMirrors | pdf_batch_processor.py:123-150 | A repaired line has the line's length. Every space or tab moves to its mirror position. Every maximal run of other characters moves to its mirror place, reversed when it holds a Hebrew-block character and intact otherwise. |
| Repair.FixLineReversesHebrewLine | pdf_batch_processor.py:123-150 | A line whose every word holds Hebrew is reversed character by character. |
| Repair.FixLineMultiset | pdf_batch_processor.py:123-150 | Repair only moves characters: none is added or lost. |
| Repair.FixLineInvolution | pdf_batch_processor.py:123-150 | Repairing a line twice gives it back. |
| Repair.RepairLineFacts | pdf_batch_processor.py:152-163 | The per-line step keeps the characters and whether the line holds Hebrew, and undoes itself. |
| Repair.ReverseHebrewInText | pdf_batch_processor.py:120-165 | The output has as many lines as the input. Its i-th line is the repair of the input's i-th line, and a line without a Hebrew-block character is unchanged. |
| Repair.ReverseHebrewInvolution | pdf_batch_processor.py:120-165 | Repairing the text twice gives it back. |
| Repair.ReverseHebrewKeepsPlainText | pdf_batch_processor.py:152-165 | A text without Hebrew comes out unchanged. |
| Grouping.GroupByBase | Mac/pdf_batch_processor.py:320-329 | Groups have distinct bases. Every group is non-empty and holds exactly the parts of its base, in listing order. |
| Grouping.GroupsCoverListing | Mac/pdf_batch_processor.py:320-329 | A base has a group exactly when some directory of the listing parses to it. |
| Grouping.NoGroupsIffNoneAdmitted | Mac/pdf_batch_processor.py:320-335 | There are no groups exactly when no directory name parses. |
| Grouping.PartsShareBase | Mac/pdf_batch_processor.py:323-329 | Every part is a directory of the listing. Its name parses to the group's base and the part's suffix: the base itself without a suffix, the base plus the suffix with one. |
| Grouping.ExactlyOneGroup | Mac/pdf_batch_processor.py:323-329 | Each admitted directory lies in its base's group and in no other. |
| Grouping.SortBySuffix | Mac/pdf_batch_processor.py:265 | Sorting the parts by suffix key permutes them into non-decreasing key order. |
| Grouping.SortBySuffixStable | Mac/pdf_batch_processor.py:265 | Parts with equal keys keep their relative order, as in Python's stable `sorted`. |
| Grouping.LexTotal | Mac/pdf_batch_processor.py:339 | Python's string `<` orders any two different strings one way, never both ways. |
| Grouping.LexTransitive | Mac/pdf_batch_processor.py:339 | Python's string `<` is transitive. |
| Grouping.SortGroups | Mac/pdf_batch_processor.py:353 | `sorted(groups.items())` permutes the groups into strictly ascending base order. |
| Grouping.AscendingPairwise | Mac/pdf_batch_processor.py:353 | In that order, every earlier base is below every later one. |
| Orchestrator.CaseText | Mac/pdf_batch_processor.py:209-250 | A case folder produces no text when no PDF matches. Otherwise it produces text exactly when the reader succeeds and some page is not blank. That text repairs back to the cleaner's output, and that output is tidy. |
| Orchestrator.ProcessFolder | Mac/pdf_batch_processor.py:209-250 | A single case succeeds exactly when it produced text, and it writes only `<folder>_CLEANED.txt` with that text. |
| Orchestrator.ProcessSplitGroup | Mac/pdf_batch_processor.py:253-304 | The parts are processed in suffix order, and a skipped part does not stop the later ones. The group succeeds exactly when some part produced text. It writes each such part's file in suffix order, then the merged file when two or more parts produced text. |
| Orchestrator.SortedSucceeds | Mac/pdf_batch_processor.py:263-291 | Some part in suffix order produced text exactly when some part of the group did. |
| Orchestrator.TextsPermutation | Mac/pdf_batch_processor.py:265-291 | Reordering the parts does not change how many of them produce text. |
| Orchestrator.MergedIffTwoSucceed | Mac/pdf_batch_processor.py:292-299 | The last file a split case writes goes to the mother folder exactly when at least two parts produced text. That last file is the merged file, and every other file goes to a part's folder. |
| Orchestrator.PartWritesCarryTexts | Mac/pdf_batch_processor.py:282-287 | There is one file per part that produced text. The i-th file belongs to the i-th such part: it lies in that part's folder, is named `<part>_CLEANED.txt`, and holds that part's text, which is also the i-th text that goes into the merge. |
| Orchestrator.MergedJoinsParts | Mac/pdf_batch_processor.py:287-297 | The merged text is the part files' texts, in suffix order, joined by a blank line. |
| Orchestrator.SimpleIffLoneBaseFolder | Mac/pdf_batch_processor.py:354 | A group is processed as a single case exactly when its only part is the folder named after the base itself. |
| Orchestrator.ProcessGroup | Mac/pdf_batch_processor.py:353-367 | The dispatch succeeds exactly when a part of the group produced text, and writes what the chosen path writes. |
| Orchestrator.LoneFolderEitherWay | Mac/pdf_batch_processor.py:253-304 | A one-part group writes the same files whether it goes to the single-case or the split-case path. |
| Orchestrator.RunBatch | Mac/pdf_batch_processor.py:319-367 | The batch stops with an error exactly when no directory name parses. Otherwise it visits the groups in base order, once each. It counts each group as a success or a failure, the successes being the groups where a part produced text, and writes every group's files in visiting order. |
| Orchestrator.VisitedAscending | Mac/pdf_batch_processor.py:339-353 | The visited bases are strictly ascending. |
| Orchestrator.VisitedBases | Mac/pdf_batch_processor.py:320-353 | The visited bases are exactly the bases of the directories whose names parse. |
| Orchestrator.CaseFoldersInListingOrder | pdf_batch_processor.py:225-231 | The root program's case folders are exactly the directories with a valid name, in listing order. |
| Orchestrator.NoCaseFolders | pdf_batch_processor.py:225-237 | The root program finds no case folder exactly when no directory has a valid name. |
| Orchestrator.RunRootBatch | pdf_batch_processor.py:212-257 | The root program's batch stops with an error exactly when no directory has a valid name. Otherwise it visits the case folders in listing order, each once, as single cases. A folder counts as a success exactly when it produced text, and each such folder's `<folder>_CLEANED.txt` is written in visiting order. |

## Left out

- Console output, the progress messages and the interactive prompt for the mother folder are left out: they change no file.
- `Windows/pdf_batch_gui.py` is left out. It is a GUI front end that runs the same steps.
- PDF text extraction (pdfplumber) is a parameter. The reader returns a PDF's pages, or `None` when opening raises.
- `os.path.exists`, `os.listdir`, `os.path.isdir`, `os.path.join` and file writing are left out. They become the listing of entries, the folder's file names and the `Output` values. An exception while writing a part's file counts as that part producing no text.
- The existence check on the mother folder is left out. It only prints a message and returns.
- An exception while writing the merged file is left out. The source does not catch it, so it would end the batch.
- The `try`/bare `except` around `fix_hebrew_line` is left out: the function cannot raise on a string.
- The optional `bidi` import is left out because the code never uses it.
- `\d` is modelled as the ASCII digits. Python's `\d` on `str` also accepts other Unicode decimal digits.
- `re.IGNORECASE` is modelled by `Strings.CaseMatch`: ASCII case, plus the letters Python's engine also takes for an ASCII letter (`İ` and `ı` for `i`, the Kelvin sign for `k`, `ſ` for `s`). Python's full Unicode case tables are not modelled. They matter only for a cased non-ASCII letter in a pattern, and every pattern letter is ASCII or Hebrew.
- `str.lower()` in `find_matching_pdf` is modelled as ASCII folding (`Strings.FoldEq`). Under Python's full lowering, only `P`, `D` and `F` lower to a letter of `.pdf`, and nothing lowers to a Hebrew letter or a digit. So ASCII folding is exact for the Hebrew-and-digit folder names the batch passes. It is not exact for arbitrary names.
- `$` in the folder patterns is modelled as the end of the name. Python's `$` also matches just before a final line break, which a folder name does not carry.
- The banner pattern `-+\s*<confidential>\s*-+` is modelled, but its language is not characterised by a lemma of its own. It is covered by the general `Patterns` results.
- The section-label substitutions replace every match, as `re.sub` does. Python's `re.MULTILINE` has no effect on these patterns.
- Orchestrator.CaseText: shows how one part's text arises from the modelled steps. In the batch, that text is the abstract `outcome`, not a composition with the real file system.
- Orchestrator.RunBatch: the listing of the groups at lines 337-344 only prints, so the model does not produce it.
