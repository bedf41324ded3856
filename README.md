# PDF chapter splitter: a verified model of its core

The PDF chapter splitter cuts a PDF into one document per chapter, using the
bookmarks (the outline) of the document. This project models the three steps
of its core logic in Dafny and proves what they promise:

- **Sanitizer** (`sanitizer.dfy`). `sanitize_filename` replaces each
  character reserved in file names (`\ / * ? : " < > |`) by `_`. It then strips
  leading and trailing whitespace, with the character set that Python's
  `str.strip()` uses.
- **Range resolution** (`range_resolver.dfy`). `get_chapter_ranges` runs once
  the outline has been read:
  - It keeps the outline items that have a non-empty title and a resolvable
    page, in outline order.
  - It sorts them stably by page.
  - It turns each one into a `(title, start, end)` range. A range ends on the
    page before the next range starts. The last one ends on the document's last
    page.
  - The collecting loop and the range loop are methods. Each is proved against
    a specification function.
  - The library sort is a functional stable insertion sort.
- **Chapter writer** (`chapter_writer.dfy`). `write_chapters` is a method of the
  class `OutputDir`, whose field `files` maps file names to the pages stored
  under them.
  - It works through the selected ranges. With no selection, that is every
    range in order.
  - The `num`-th selected range has its pages `start..end` copied in order.
    They are stored under `f"{num:02d}_{sanitize_filename(title)}.pdf"`,
    replacing any file of that name.
  - It returns how many documents it wrote.
  - The page-copy loop is a method of its own.
  - The reversal that the callers apply for descending output order is a
    function, `Reverse`.

Pages are an opaque type parameter `Page`: no page content is looked at.
Outline items are modelled as the pair the extraction loop actually sees,
a title and a page, each optional (`RangeResolver.OutlineItem`).

Error behaviour, as the code has it:
- The code raises no error for an outline with no usable item. It returns no
  range, and then no file is written (`ChapterRangesEmpty`).
- A range that reaches past the last page makes the page lookup fail, and that
  ends the batch. The model states this as a precondition of the writer: every
  selected range must lie inside the document (`ChapterWriter.ValidSelection`).
- An unclamped `end` below `start` is not an error: the code writes an empty
  document (`ChapterWriter.Chapter`).

## Model

| member | source | states |
|---|---|---|
| Sanitizer.ReplaceReserved | pdf_chapter_splitter.py:20 | the substitution keeps the length, maps each reserved character to `_` and every other character to itself, and leaves no reserved character |
| Sanitizer.LeadingSpaces | pdf_chapter_splitter.py:20 | the count of leading whitespace characters: all characters before it are whitespace and the next one is not |
| Sanitizer.TrailingSpaces | pdf_chapter_splitter.py:20 | the count of trailing whitespace characters: all characters after the cut are whitespace and the one before is not |
| Sanitizer.Strip | pdf_chapter_splitter.py:20 | `str.strip()` returns the contiguous part of the input after its leading whitespace, only whitespace follows it in the input, and it has no whitespace at either end |
| Sanitizer.SanitizeFilename | pdf_chapter_splitter.py:18-20 | a sanitized name contains no reserved character, has no whitespace at either end and is never longer than the title |
| Sanitizer.ReservedNotSpace | pdf_chapter_splitter.py:20 | neither a reserved character nor `_` is whitespace, so the substitution cannot create text that the strip would remove |
| Sanitizer.ReplaceKeepsSpace | pdf_chapter_splitter.py:20 | substituting reserved characters changes which positions hold whitespace nowhere |
| Sanitizer.LeadingSpacesUnique | pdf_chapter_splitter.py:20 | the leading-whitespace count is the only count whose characters are all whitespace and whose next character is not |
| Sanitizer.TrailingSpacesUnique | pdf_chapter_splitter.py:20 | the same uniqueness holds for the trailing-whitespace count |
| Sanitizer.StripTrimmed | pdf_chapter_splitter.py:20 | stripping a string with no whitespace at either end returns it unchanged |
| Sanitizer.ReplaceNoReserved | pdf_chapter_splitter.py:20 | substituting in a string without reserved characters returns it unchanged |
| Sanitizer.SanitizeIdempotent | pdf_chapter_splitter.py:18-20 | sanitizing an already sanitized name returns it unchanged |
| Sanitizer.SanitizeStripFirst | pdf_chapter_splitter.py:18-20 | sanitizing equals stripping first and substituting afterwards, so the sanitizer changes only the reserved characters and the whitespace at the two ends |
| Sanitizer.ReplaceSlice | pdf_chapter_splitter.py:20 | the substitution commutes with taking a slice |
| Sanitizer.ReplaceExample | pdf_chapter_splitter.py:20 | the substitution turns "Ch:1/Intro?" into "Ch_1_Intro_" |
| Sanitizer.SanitizeExample | pdf_chapter_splitter.py:18-20 | "Ch:1/Intro?" is sanitized to "Ch_1_Intro_" |
| RangeResolver.Usable | pdf_chapter_splitter.py:35-41 | the keep condition of the collecting loop: a title that is present and non-empty, and a page that resolves |
| RangeResolver.Kept | pdf_chapter_splitter.py:33-42 | the collected entries are never more than the outline items, and every collected title is non-empty |
| RangeResolver.CollectEntries | pdf_chapter_splitter.py:33-42 | the collecting loop returns exactly the usable items, converted to entries in outline order |
| RangeResolver.KeptAppend | pdf_chapter_splitter.py:34-42 | collecting two parts of an outline gives the concatenation of their entries, in order |
| RangeResolver.KeptSingle | pdf_chapter_splitter.py:35-42 | a single item is kept exactly when its title is present and non-empty and its page resolves, and then with that title and page |
| RangeResolver.KeptMember | pdf_chapter_splitter.py:34-42 | an entry is collected if and only if some usable outline item has that title and page |
| RangeResolver.InsertByPage | pdf_chapter_splitter.py:45 | one insertion step of the sort adds exactly the inserted entry: one more element, and the same multiset plus that entry |
| RangeResolver.SortByPage | pdf_chapter_splitter.py:45 | the sort keeps the length and is a permutation (equal multisets) |
| RangeResolver.InsertSorted | pdf_chapter_splitter.py:45 | inserting into a page-sorted sequence keeps it sorted by page |
| RangeResolver.InsertLowerBound | pdf_chapter_splitter.py:45 | inserting an entry on page `b` or later into entries on page `b` or later gives entries on page `b` or later |
| RangeResolver.ConsSorted | pdf_chapter_splitter.py:45 | an entry whose page is no later than any page of a sorted sequence can be put in front without breaking the order |
| RangeResolver.SortSorted | pdf_chapter_splitter.py:45 | the sort output is in non-decreasing page order |
| RangeResolver.SortOfSorted | pdf_chapter_splitter.py:45 | entries already in page order come out of the sort unchanged |
| RangeResolver.InsertOnPage | pdf_chapter_splitter.py:45 | an insertion puts the new entry ahead of every entry of the same page and changes the other pages nothing |
| RangeResolver.SortStable | pdf_chapter_splitter.py:45 | the sort is stable: for every page, the entries on that page keep their original relative order |
| RangeResolver.InsertDistinct | pdf_chapter_splitter.py:45 | inserting an entry whose page no other entry has keeps the pages pairwise distinct |
| RangeResolver.SortDistinct | pdf_chapter_splitter.py:45 | the sort keeps pages pairwise distinct |
| RangeResolver.EndAt | pdf_chapter_splitter.py:49 | a range's end lies on or after its start and before the next start, when the next start is later; the last range's end lies on or after its start and below `total`, when its start is below `total` |
| RangeResolver.Resolve | pdf_chapter_splitter.py:48-50 | the ranges of the sorted entries: exactly one range per entry |
| RangeResolver.ResolveAt | pdf_chapter_splitter.py:48-50 | range `i` has the `i`-th entry's title and page, and ends one page before entry `i+1` or, for the last, at `total - 1` |
| RangeResolver.BuildRanges | pdf_chapter_splitter.py:47-50 | the range loop computes the range specification of the sorted entries |
| RangeResolver.ChapterRanges | pdf_chapter_splitter.py:33-51 | the ranges of an outline: exactly one range per kept item |
| RangeResolver.GetChapterRanges | pdf_chapter_splitter.py:33-51 | collect, sort and resolve, run as the source runs them, compute the chapter ranges of the outline |
| RangeResolver.HeadsResolve | pdf_chapter_splitter.py:48-50 | the `(title, start)` pairs of the ranges are the sorted entries themselves |
| RangeResolver.ChapterRangesEntries | pdf_chapter_splitter.py:33-51 | there is one range per kept item, and the ranges' `(title, start)` pairs are the sorted kept entries, a permutation of them |
| RangeResolver.ChapterRangesEmpty | pdf_chapter_splitter.py:33-51 | no range if and only if no outline item is usable; an empty outline gives no range |
| RangeResolver.ChapterRangesSorted | pdf_chapter_splitter.py:45-51 | the ranges come in non-decreasing order of start page |
| RangeResolver.ChapterRangesStable | pdf_chapter_splitter.py:45-51 | ranges that start on the same page keep the relative order of their outline items |
| RangeResolver.ChapterRangesAdjacent | pdf_chapter_splitter.py:48-50 | each range ends one page before the next one starts, and the last one ends at `total - 1` |
| RangeResolver.ResolveCovers | pdf_chapter_splitter.py:48-50 | over strictly increasing pages below `total`, each page from the first start up to `total - 1` is in exactly one range, and no other page is in any |
| RangeResolver.SortedDistinctIncreasing | pdf_chapter_splitter.py:45 | sorted entries whose pages are pairwise distinct have strictly increasing pages |
| RangeResolver.ResolveBounds | pdf_chapter_splitter.py:48-50 | over strictly increasing pages below `total`, each range is a non-empty span inside the document |
| RangeResolver.SortedEnds | pdf_chapter_splitter.py:45 | after sorting, an entry on page 0 puts page 0 first, and when every kept page is below `total` the last page is too |
| RangeResolver.SameMembers | pdf_chapter_splitter.py:45 | an element of one sequence is an element of every sequence with the same multiset |
| RangeResolver.SortedFirst | pdf_chapter_splitter.py:45 | in a page-sorted sequence the first page is no larger than the page of any element |
| RangeResolver.ChapterRangesPartition | pdf_chapter_splitter.py:33-51 | with distinct kept pages inside the document, one of them 0: the ranges are non-empty spans inside the document, the first starts at 0, the last ends at `total - 1`, and every page is in exactly one range |
| RangeResolver.KeptExample | pdf_chapter_splitter.py:33-42 | three usable bookmarks at pages 0, 10 and 25 are all collected, in order |
| RangeResolver.ResolveExample | pdf_chapter_splitter.py:48-50 | entries at pages 0, 10 and 25 of a 40-page document resolve to 0-9, 10-24 and 25-39 |
| RangeResolver.ChapterRangesExample | pdf_chapter_splitter.py:33-51 | the outline Ch1@0, Ch2@10, Ch3@25 of a 40-page document gives ranges 0-9, 10-24 and 25-39 |
| ChapterWriter.DigitChar | pdf_chapter_splitter.py:67 | a digit value is printed as a decimal digit character |
| ChapterWriter.DigitValue | pdf_chapter_splitter.py:67 | a digit character reads as a value below 10 |
| ChapterWriter.Decimal | pdf_chapter_splitter.py:67 | a number prints as decimal digits with no leading zero; it has one digit exactly when it is below 10 |
| ChapterWriter.Pad2 | pdf_chapter_splitter.py:67 | `{num:02d}` prints decimal digits: exactly two below 100, and no leading zero unless there are exactly two |
| ChapterWriter.DecimalRoundTrip | pdf_chapter_splitter.py:67 | the decimal digits of a number read back as that number |
| ChapterWriter.Pad2RoundTrip | pdf_chapter_splitter.py:67 | the zero-padded number reads back as the number, so padding loses nothing |
| ChapterWriter.FileName | pdf_chapter_splitter.py:67 | the name of the `num`-th write; its shape is stated by `FileNameParts`, `FileNameExample`, `FileNameInjective` and `FileNameNoReserved` |
| ChapterWriter.FileNameParts | pdf_chapter_splitter.py:67 | a name is the padded number, then `_`, then the sanitized title, then `.pdf` |
| ChapterWriter.FileNameExample | pdf_chapter_splitter.py:67 | the first chapter titled "Intro" is written as "01_Intro.pdf" |
| ChapterWriter.NameTail | pdf_chapter_splitter.py:67 | what follows the number always starts with `_` |
| ChapterWriter.DigitsBeforeUnderscore | pdf_chapter_splitter.py:67 | a digit prefix followed by text that starts with `_` is determined by the whole string |
| ChapterWriter.FileNameInjective | pdf_chapter_splitter.py:63-67 | equal output names have equal numbers, whatever their titles |
| ChapterWriter.FileNamesDiffer | pdf_chapter_splitter.py:63-67 | names with different numbers differ, whatever the titles |
| ChapterWriter.NumberedNamesDistinct | pdf_chapter_splitter.py:63-67 | numbering titles from 1 gives pairwise distinct names |
| ChapterWriter.FileNameNoReserved | pdf_chapter_splitter.py:67 | no output name contains a reserved character |
| ChapterWriter.Selected | pdf_chapter_splitter.py:58-61 | with no selection, the effective selection is `0 .. n-1` in order; otherwise it is the given selection |
| ChapterWriter.Chapter | pdf_chapter_splitter.py:64-66 | a chapter holds pages `start..end` of the document, in order: `end - start + 1` of them, none when `end < start` |
| ChapterWriter.CopyPages | pdf_chapter_splitter.py:65-66 | the page-copy loop yields exactly the chapter's pages |
| ChapterWriter.Plan | pdf_chapter_splitter.py:63-69 | one write per selected index |
| ChapterWriter.PlanPrefix | pdf_chapter_splitter.py:63-69 | the writes for a prefix of the selection are the prefix of the writes |
| ChapterWriter.PlanAt | pdf_chapter_splitter.py:63-69 | the `k`-th write (from 0) has the name numbered `k+1` with the `k`-th selected range's title, and holds that range's pages |
| ChapterWriter.PlanStep | pdf_chapter_splitter.py:63-69 | one more selected range adds exactly its own write at the end |
| ChapterWriter.OutputsAppend | pdf_chapter_splitter.py:68-69 | one more write changes the directory only at that write's name |
| ChapterWriter.PlanShape | pdf_chapter_splitter.py:63-69 | each write has its numbered name and its range's pages, and the names of one call are pairwise distinct |
| ChapterWriter.Outputs | pdf_chapter_splitter.py:68-69 | the files that a sequence of writes leaves behind, a later write replacing an earlier one of the same name: their names are exactly the names written |
| ChapterWriter.OutputsDistinct | pdf_chapter_splitter.py:68-69 | with pairwise distinct names, each name holds exactly the pages written under it |
| ChapterWriter.WrittenFiles | pdf_chapter_splitter.py:56-71 | after a call, each selected chapter's name holds its pages; the directory holds the old names plus the written ones; every other file is unchanged |
| ChapterWriter.WriteTwice | pdf_chapter_splitter.py:68-69 | writing the same chapters twice leaves the directory as writing them once |
| ChapterWriter.Reverse | pdf_chapter_splitter.py:158 | `ranges.reverse()` keeps the length and moves the element at position `i` to position `n-1-i` |
| ChapterWriter.DefaultSelectionValid | pdf_chapter_splitter.py:58-59 | when all ranges lie inside the document, the default selection is valid for them and for their reversal |
| ChapterWriter.ReversedOrder | pdf_chapter_splitter.py:158 | writing the reversed ranges puts the `(n-1-k)`-th chapter's pages under number `k+1` with that chapter's title |
| ChapterWriter.SameRangeWrite | pdf_chapter_splitter.py:63-67 | two writes of the same range hold the same pages and differ only in their number |
| ChapterWriter.OutputDir.constructor | pdf_chapter_splitter.py:56 | the output directory starts with the files given |
| ChapterWriter.OutputDir.WriteChapters | pdf_chapter_splitter.py:56-71 | returns the number of selected ranges, and the directory becomes its old contents updated by exactly the writes of the plan |

## Left out

- Reading the PDF is not modelled: pypdf's reader, its outline attribute
  probing and its destination lookup are left out. An outline item is the
  title and page that the lookup would produce.
- A destination lookup that returns no page, instead of failing, is treated
  like a failed lookup: the item is dropped. In the code such an item is kept
  with no page. With two or more collected items, the sort then fails when it
  compares that missing page. A lone such item is returned as a range with no
  start, and the page loop of the writer then fails on it.
- Only the items the outline iteration yields are seen. Nested bookmark lists
  and non-string titles are not modelled.
- Real file I/O is not modelled. This covers opening, writing and closing
  files, pypdf's writer, and the output directory's existence and
  permissions. The directory is a map from names to page sequences, in which
  a write replaces any earlier file of the same name.
- A failure (an exception) is not modelled as a result. Where the code would
  fail, the model has a precondition instead:
  - a selected index outside the ranges;
  - a range reaching past the last page.
  A write failure part-way through a batch is not modelled either.
- No typed errors (no outline, no chapters, range out of bounds, write
  failure) and no per-range skip-and-continue are modelled: the code has none.
- RangeResolver.SortByPage: the in-place mechanics of Python's Timsort are not
  modelled. The sort is a functional stable insertion sort with the same
  contract: sorted, stable, and a permutation.
- ChapterWriter.Selected: selection indices are natural numbers. Python's
  negative indices, which count from the end, are not modelled.
- The GUI (file pickers, chapter checkboxes, order switches, messages) and the
  command-line entry point are not modelled, apart from the reversal they
  apply to the ranges.
