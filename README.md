# Verified model of the WB_L2 text utilities

This Dafny project models the sequential text-processing core of a set of
small Go exercises that re-implement Unix utilities. Each Go file becomes one
module:

- **Unpack** (`L2_9/main.go`, `resolveString`) is the run-length unpacker.
  `a4bc2d5e` becomes `aaaabccddddde`. It supports backslash escapes and
  multi-digit counts. It has three errors: a leading digit, a bad number, and
  a trailing backslash.
- **Cut** (`L2_13/main.go`) is the `cut` field selector. `parseCols` turns a
  field list such as `1,3-5,7` into column numbers, or reports why it cannot.
  `processStr` selects the fields of one line and joins them again.
- **SortLines** (`L2_10/main.go`) is the `sort` engine: the flag-driven
  comparator (`-k`, `-M`, plain order), the stable sort, `-u`, `-r` and the
  `-c` sortedness check. The global flags become a `SortConfig` record.
- **Sorting** holds the comparator-generic parts of that engine:
  - insertion-order stable sort;
  - the in-place removal of equal neighbours;
  - the in-place reversal;
  - the adjacent-pairs check;
  - what a weak order guarantees about them.
- **Anagrams** (`L2_11/main.go`, `findAnagrams`) groups words by sorted-rune
  signature. Each group is keyed by the first word seen with that signature.
  Singletons are dropped, and each set is returned sorted and without
  repeats.
- **Grep** (`L2_12/main.go`, `grep`) covers:
  - line selection with `-v`;
  - count mode;
  - the context windows of `-A`/`-B`/`-C`, which merge so that no line is
    printed twice;
  - `-n` numbering;
  - the highlighting of the matching line.

  The regular expression is a `Matcher` value: a match predicate and a
  highlight function. Compilation is a function that returns a matcher or an
  error.
- **MirrorPaths** (`L2_16/pkg/utils.go`) holds the site mirror's helpers over
  a parsed URL record:
  - asset classification by suffix;
  - the URL to mirror-file mapping, with Go's `filepath.Join`/`Clean`
    written out;
  - the same-host check.
- **Shell** (`L2_15/main.go`) holds the command-line side of the shell:
  - `$NAME` substitution against an environment map;
  - the `<`/`>` argument scan of `handleRedirections`;
  - the split of an input line into pipeline commands.

Shared modules model the Go library calls the core relies on:
- **Wrappers**: `Option` and `Result`.
- **Text**:
  - `strings.Split`, `Join`, `Contains`, `HasPrefix`, `HasSuffix`, `Fields` and `TrimSpace`;
  - byte-order string comparison.
- **Numbers**: `strconv.Atoi` with its 64-bit range, and decimal rendering.

Strings are sequences of runes. Go compares strings byte by byte in UTF-8,
and that order agrees with code-point order. The unpacker's output is a byte
sequence, because the Go code edits it byte by byte.

## Model

| member | source | states |
|---|---|---|
| Unpack.Utf8 | L2_9/main.go:21 | a rune is written as one to four bytes; one byte exactly for ASCII, and a multi-byte rune starts with a lead byte >= 0xC0 |
| Unpack.ApplyCount | L2_9/main.go:49-58 | definition: a count of 0 removes the builder's last unit when there is one; a count n >= 1 appends n-1 more copies of the previous literal, and nothing when no literal was read yet |
| Unpack.Run | L2_9/main.go:17-76 | definition: the loop from a given state reads tokens left to right and stops at the first error; at the end of input an open escape is the "ends with escape" error, otherwise the builder is the result |
| Unpack.Unpack | L2_9/main.go:10-77 | definition: resolveString runs the loop over the whole input from the empty state and returns the UTF-8 bytes of the builder, or the first error |
| Unpack.DigitRun | L2_9/main.go:36-41 | the digit scan stops at the first non-digit: every rune before it is a digit and the one after is not |
| Unpack.Step | L2_9/main.go:17-68 | one token of the loop consumes at least one rune and never more than remain |
| Unpack.StepDigits | L2_9/main.go:35-62 | a run of digits not at the start is read whole; if Atoi rejects it the result is "invalid number format", else the count is applied and the whole run is skipped |
| Unpack.ReadNumber | L2_9/main.go:36-41 | the inner loop returns the maximal digit run starting at i as numStr and the index just past it |
| Unpack.ReadToken | L2_9/main.go:17-68 | one pass of the loop body, with its escape flag, previous rune and builder, agrees with the token step of the specification, including its error |
| Unpack.ResolveString | L2_9/main.go:10-77 | the loop returns exactly the unpacked bytes or the error of the specification, and every error path returns the empty string |
| Unpack.RunPlain | L2_9/main.go:64-67 | runes that are neither digits nor backslashes are copied one by one |
| Unpack.PlainUnchanged | L2_9/main.go:64-67 | input without digits and backslashes, the empty input included, comes back unchanged without error |
| Unpack.LeadingDigit | L2_9/main.go:29-33 | a digit as the first rune is the "starts with digit" error |
| Unpack.CountStep | L2_9/main.go:44-62 | a decimal count n, of any number of digits, applies the count n to the output and resumes after its last digit |
| Unpack.RepeatPlain | L2_9/main.go:35-58 | a plain rune followed by a count n >= 1 appears exactly n times |
| Unpack.RepeatEscaped | L2_9/main.go:19-58 | an escaped rune, even a digit or a backslash, followed by a count n >= 1 appears exactly n times |
| Unpack.EscapedOnce | L2_9/main.go:19-27 | a backslash makes the next rune literal, and that rune is the one a following count repeats |
| Unpack.ZeroCount | L2_9/main.go:49-55 | a count of 0 removes the last element of the output, and does nothing on an empty output |
| Unpack.EscapeParity | L2_9/main.go:71-74 | from any point of the scan, the rest fails when the whole input ends with an odd run of backslashes, and the "ends with escape" error arises only then |
| Unpack.ParityStep | L2_9/main.go:19-27 | after one token the escape flag is set exactly when the runes read so far end in an odd run of backslashes |
| Unpack.TrailingEscape | L2_9/main.go:71-74 | an odd run of trailing backslashes is an error, and the "ends with escape" error arises only then |
| Unpack.ZeroCountDropsLastUnit | L2_9/main.go:49-55 | after plain runes, a count of 0 removes the last unit of the last rune's encoding, not the whole rune |
| Unpack.ZeroCountDropsByte | L2_9/main.go:49-55 | on the bytes the builder holds, a count of 0 removes only the last byte of the last rune |
| Unpack.ZeroCountSplitsRune | L2_9/main.go:49-55 | "л0" unpacks to the lone byte 0xD0, which is the encoding of no string |
| Unpack.ZeroCountRemovesRune | L2_9/main.go:49-55 | with the output kept as runes, a count of 0 removes the whole last rune |
| Numbers.AtoiDigits | L2_9/main.go:44 | Atoi accepts a string of ASCII digits exactly when its value fits in 63 bits, and returns that value |
| Numbers.AtoiNatToString | L2_13/main.go:52 | Atoi reads back the decimal rendering of every number up to 2^63-1 |
| Numbers.Atoi | L2_13/main.go:30-55 | a value is returned only when it fits in int64, and it is non-negative unless the text starts with '-' |
| Text.Split | L2_13/main.go:18 | definition: strings.Split cuts at every leftmost non-overlapping separator, and an empty separator gives one piece per rune |
| Cut.Interval | L2_13/main.go:47-49 | the range a..b is a, a+1, ..., b, and empty when a > b |
| Cut.AppendRange | L2_13/main.go:47-49 | the counting loop appends exactly the range start..end |
| Cut.PieceCols | L2_13/main.go:22-56 | definition: a piece containing '-' must split into exactly two numbers a <= b and gives a..b; any other piece must be one number and gives that column; each failing test gives its own error |
| Cut.FieldList | L2_13/main.go:15-61 | definition: the -f argument is split at commas and the pieces' columns concatenated in order; the first piece in error decides the error |
| Cut.AppendPiece | L2_13/main.go:21-57 | one pass over a piece appends its columns or reports its error, as the piece parser specifies |
| Cut.ParseCols | L2_13/main.go:15-61 | the loop returns exactly the field list of the specification, or its error with an empty list |
| Cut.FieldListCons | L2_13/main.go:18-58 | pieces are expanded in input order and their columns concatenated; the first bad piece decides the error |
| Cut.FieldListSingle | L2_13/main.go:18-22 | a list without commas is a single piece |
| Cut.FieldPiece | L2_13/main.go:50-56 | a decimal number is the field of that number |
| Cut.RangePiece | L2_13/main.go:41-49 | "a-b" gives a..b when a <= b, and the "start > end" error otherwise |
| Cut.ManyDashes | L2_13/main.go:24-27 | a piece with two or more '-' is an "invalid range" error |
| Cut.EmptyPiece | L2_13/main.go:52-55 | an empty piece is an "invalid field number" error |
| Cut.ColsNonNegative | L2_13/main.go:20-58 | every column of a successfully parsed list is >= 0 |
| Cut.PieceNonNegative | L2_13/main.go:21-57 | every column a piece yields is >= 0 |
| Cut.ExampleRange | L2_13/main.go:12-13 | "3-5" expands to 3, 4, 5 |
| Cut.ProcessStr | L2_13/main.go:69-91 | the loop output is the line's selected fields joined with the delimiter, or "" for a skipped line |
| Cut.Select | L2_13/main.go:80-87 | definition: for each column number in order, field number c is taken when 1 <= c <= the number of fields |
| Cut.CutLine | L2_13/main.go:69-91 | definition: "" for a line -s suppresses, otherwise the selected fields of the line split at the delimiter, joined with the delimiter |
| Cut.SelectAppend | L2_13/main.go:80-87 | the selection follows the order of the column list, duplicates included |
| Cut.SelectOutOfRange | L2_13/main.go:82-86 | column numbers below 1 or beyond the field count are skipped |
| Cut.SelectAll | L2_13/main.go:80-90 | selecting 1..n gives the first n fields |
| Cut.SeparatedWithoutDelimiter | L2_13/main.go:71-73 | with -s, a line without the delimiter gives "" |
| Cut.WholeLineIsField1 | L2_13/main.go:76-90 | without -s, a line without the delimiter is field 1 in full and has no other field |
| Cut.AllFieldsGiveLine | L2_13/main.go:76-90 | selecting every field in order rebuilds the line |
| SortLines.GetColumn | L2_10/main.go:146-152 | the column returned never contains a tab |
| SortLines.GetColumnOfJoin | L2_10/main.go:146-152 | the col-th (1-based) tab-separated field is returned, or "" past the last field |
| SortLines.GetColumnNoTab | L2_10/main.go:146-152 | a line without tabs is its own column 1 and has no other column |
| SortLines.Key | L2_10/main.go:130-132 | definition: the -k column of the line when -k is positive, else the whole line |
| SortLines.MonthNumber | L2_10/main.go:207-216 | a key is found exactly when it is one of the twelve names, and then gives its month number |
| SortLines.CompareMonth | L2_10/main.go:206-228 | the month comparison returns -1, 0 or 1 |
| SortLines.MonthPrefixOfMonth | L2_10/main.go:213-216 | any capitalisation of a month's three letters is recognised as that month |
| SortLines.MonthRecognised | L2_10/main.go:213-217 | a key is a month exactly when its first three runes, lower-cased, are a month name |
| SortLines.MonthOrder | L2_10/main.go:217-224 | two recognised prefixes compare by calendar order, case-insensitively |
| SortLines.MonthNamesDistinct | L2_10/main.go:207-211 | the twelve names are distinct, so the month map is well defined |
| SortLines.NotAMonth | L2_10/main.go:207-216 | "Foo" normalises to itself and is not in the month map |
| SortLines.MonthFallback | L2_10/main.go:213-227 | when either normalised prefix is not a month, compareMonth is strings.Compare on the two normalised prefixes |
| SortLines.MonthPrefixOnly | L2_10/main.go:213-214 | nothing after the third rune of either key affects compareMonth |
| SortLines.MonthCycle | L2_10/main.go:217-227 | "Mar" < "Dec" by month, "Dec" < "Foo" and "Foo" < "Mar" as strings, yet "Mar" > "Foo": the month comparison is cyclic |
| SortLines.MonthRank | L2_10/main.go:207-216 | the corrected rank is positive exactly for recognised months |
| SortLines.CompareMonthRanked | L2_10/main.go:206-228 | the corrected comparison returns -1, 0 or 1 |
| SortLines.RankedAgrees | L2_10/main.go:217-227 | the corrected comparison equals compareMonth when both keys are months or both are not |
| SortLines.RankedAntisymmetric | L2_10/main.go:206-228 | swapping the corrected comparison's arguments negates it |
| SortLines.RankedTransitive | L2_10/main.go:206-228 | the corrected comparison is transitive |
| SortLines.RankedIsWeakOrder | L2_10/main.go:206-228 | the corrected comparison is a strict weak order, as a stable sort requires |
| SortLines.CompareStrings | L2_10/main.go:129-143 | definition: the key is compared by -M first, then -h, then -n, and by strings.Compare when none is set; defined on keys compareMonth does not panic on |
| Text.Compare | L2_10/main.go:142 | strings.Compare returns -1, 0 or 1, and 0 exactly for equal strings |
| SortLines.Comparator | L2_10/main.go:110-112 | definition: compareStrings as the comparison handed to the sort and to the -c scan |
| SortLines.PlainIsWeakOrder | L2_10/main.go:129-143 | with no mode flag, lines compare by plain string order on the key, a weak order |
| SortLines.SortIsStableSort | L2_10/main.go:110-112 | without -u and -r the result is a permutation of the input, sorted, with compare-equal lines in input order |
| SortLines.SortResult | L2_10/main.go:108-126 | definition: stable sort by the comparator, then -u keeps a line only when it differs from the last kept one, then -r reverses |
| SortLines.UniqueKeepsFirstOfRuns | L2_10/main.go:115-117 | -u keeps the first line of each run of compare-equal lines, equal by key and not by whole line |
| SortLines.ReverseIsDescending | L2_10/main.go:115-124 | -r reverses exactly the list left after -u; under a weak order the result is sorted in descending order, and without -u it holds every input line |
| SortLines.SortedOutputPassesCheck | L2_10/main.go:98-112 | sorted output passes the -c check |
| SortLines.MonthLinesCycle | L2_10/main.go:129-135 | under -M the comparator orders "Mar" < "Dec" < "Foo" < "Mar" |
| SortLines.MonthModeCycles | L2_10/main.go:98-135 | under -M the lines "Mar", "Dec", "Foo" pass the -c check although "Mar" > "Foo", and the comparator is not a weak order |
| SortLines.SortStrings | L2_10/main.go:108-126 | the slice after sorting, -u compaction and -r reversal is the sort result of the specification |
| SortLines.IsSorted | L2_10/main.go:98-105 | on input where the scan does not panic, -c answers "sorted" exactly when every neighbouring pair is compared without panic and compares <= 0 |
| SortLines.CanSortScanSafe | L2_10/main.go:98-112 | input the sort accepts is also input the -c scan accepts |
| SortLines.ShortFirstLinePanics | L2_10/main.go:98-105 | under -M on whole lines, two or more lines with a first line shorter than three runes make the -c scan panic |
| Sorting.Insert | L2_10/main.go:110-112 | inserting adds the element and nothing else |
| Sorting.StableSort | L2_10/main.go:110-112 | the stable sort returns a permutation of its input |
| Sorting.InsertSorted | L2_10/main.go:110-112 | insertion keeps a list sorted under a weak order |
| Sorting.SortSorted | L2_10/main.go:110-112 | under a weak order the sort result is sorted |
| Sorting.InsertStable | L2_10/main.go:110-112 | insertion keeps each class of equal elements in arrival order |
| Sorting.SortStable | L2_10/main.go:110-112 | each class of equal elements keeps its input order |
| Sorting.StableSortUnique | L2_10/main.go:110-112 | a sorted, stable permutation is unique, so it is what any stable sort returns |
| Sorting.SortedUnique | L2_10/main.go:110-112 | when equal means identical, a sorted permutation is unique |
| Sorting.Dedup | L2_10/main.go:231-243 | the compaction keeps the first line, only input lines, and no two compare-equal neighbours |
| Sorting.DedupSnoc | L2_10/main.go:236-241 | one more line is kept exactly when it differs from the last kept line |
| Sorting.DedupLast | L2_10/main.go:231-243 | the last kept line compares equal to the input's last line |
| Sorting.DedupFirstOfRuns | L2_10/main.go:231-243 | under a weak order the compaction keeps exactly the first line of each run of equal lines |
| Sorting.Reverse | L2_10/main.go:120-124 | element i of the reversal is element n-1-i of the input |
| Sorting.ReverseSorted | L2_10/main.go:120-124 | the reversal of a sorted list is sorted in descending order |
| Sorting.ReverseMultiset | L2_10/main.go:120-124 | the swaps only move lines: the reversal holds every line as often as the input |
| Sorting.DedupSorted | L2_10/main.go:115-117 | removing compare-equal neighbours from a sorted list leaves it sorted |
| Sorting.AdjacentSortedIsSorted | L2_10/main.go:98-105 | under a weak order, no adjacent pair out of order means sorted |
| Sorting.CycleBreaksWeakOrder | L2_10/main.go:98-105 | a three-line cycle passes the adjacent check but is no weak order |
| Sorting.RemoveDuplicates | L2_10/main.go:231-243 | the in-place compaction leaves the de-duplicated lines in the prefix it returns |
| Sorting.ReversePrefix | L2_10/main.go:120-124 | the swapping loop reverses the prefix and leaves the rest alone |
| Sorting.SwapEnds | L2_10/main.go:120-124 | the swap loop puts element n-1-k at position k of the prefix and leaves the rest of the slice alone |
| Anagrams.RuneOrderTotal | L2_11/main.go:17 | rune order is a total order |
| Anagrams.WordOrderTotal | L2_11/main.go:35 | string order is a total order |
| Anagrams.Signature | L2_11/main.go:15-19 | the signature holds the word's runes, each as often |
| Anagrams.SignatureSorted | L2_11/main.go:15-19 | the signature's runes are in ascending order |
| Anagrams.SameSignature | L2_11/main.go:15-23 | two words share a signature exactly when they hold the same runes equally often |
| Anagrams.SortWords | L2_11/main.go:35 | sorting a set permutes it |
| Anagrams.SortWordsSorted | L2_11/main.go:35 | a sorted set is ascending |
| Anagrams.DropRepeats | L2_11/main.go:48-61 | removeDuplicates never lengthens its input |
| Anagrams.DropRepeatsElements | L2_11/main.go:48-61 | removeDuplicates keeps every value and adds none |
| Anagrams.DropRepeatsAscending | L2_11/main.go:48-61 | on sorted input, removeDuplicates returns strictly ascending, repeat-free values |
| Anagrams.RemoveDuplicates | L2_11/main.go:48-61 | the loop returns exactly the list without adjacent repeats, empty for empty input |
| Anagrams.Class | L2_11/main.go:21-28 | a word is in a class exactly when it is in the input with that signature |
| Anagrams.JoinClass | L2_11/main.go:23-24 | a word whose signature was seen joins the group of the first word seen |
| Anagrams.StartClass | L2_11/main.go:25-28 | a word with a new signature starts a group keyed by itself |
| Anagrams.GroupShaped | L2_11/main.go:13-29 | after the first loop each signature maps to its first word, and that word's group holds the whole class |
| Anagrams.Group | L2_11/main.go:13-29 | definition: for each lower-cased word in order, a seen signature appends the word to its first word's list, and a new signature records the word as its key with the list [word] |
| Anagrams.Kept | L2_11/main.go:32-40 | definition: after the keys in done are handled, the result holds every such key whose list has more than one word, mapped to that list sorted and without repeats |
| Anagrams.AnagramSets | L2_11/main.go:9-45 | definition: the grouping of the lower-cased words, with every key then handled by the second loop |
| Anagrams.ResultShape | L2_11/main.go:9-44 | a key survives exactly when it leads its class and the class has more than one word, repeats counted; its set is the class sorted, without repeats |
| Anagrams.KeyIsFirstWord | L2_11/main.go:23-28 | every key is the first input word, lower-cased, with its runes, and is a member of its own set |
| Anagrams.SetIsClass | L2_11/main.go:15-24 | a set holds exactly the lower-cased input words with its key's signature |
| Anagrams.SetMembers | L2_11/main.go:13-24 | a set holds exactly the lower-cased input words with the same runes as its key, equally often |
| Anagrams.SetsAscending | L2_11/main.go:35-37 | every set is strictly ascending, hence free of repeats |
| Anagrams.RepeatedWordAlone | L2_11/main.go:34-38 | a word repeated with no other anagram gives a one-element set |
| Anagrams.KeptStep | L2_11/main.go:33-40 | one key of the second loop is kept, sorted and de-duplicated, exactly when its group has more than one word |
| Anagrams.GroupWords | L2_11/main.go:13-29 | the first loop builds the two maps of the grouping specification |
| Anagrams.KeepGroups | L2_11/main.go:32-40 | the second loop keeps exactly the groups of more than one word, sorted and de-duplicated |
| Anagrams.FindAnagrams | L2_11/main.go:9-45 | findAnagrams returns exactly the anagram sets of the specification |
| Grep.FinishFlags | L2_12/main.go:64-80 | no argument is an error; a positive -C overrides -A and -B; the first argument is the pattern, the second if present the file; nothing else changes |
| Grep.QuoteMeta | L2_12/main.go:93 | -F escapes each special rune with one backslash |
| Grep.UnescapeQuoteMeta | L2_12/main.go:93 | the escaped pattern denotes the literal text: removing the escapes gives it back |
| Grep.QuoteMetaPlain | L2_12/main.go:93 | a pattern without special runes is not changed by -F |
| Grep.PatternText | L2_12/main.go:91-104 | definition: -F quotes the pattern with QuoteMeta, and -i puts "(?i)" in front of it |
| Grep.Selected | L2_12/main.go:126-135 | line i is selected exactly when match(line) differs from -v; the indices are in range and strictly increasing |
| Grep.SelectLines | L2_12/main.go:126-135 | the selection loop appends exactly the selected indices |
| Grep.Start | L2_12/main.go:148-154 | a window starts after the last printed line and not before max(0, m-before) |
| Grep.Plan | L2_12/main.go:143-177 | every printed line is a line of the input |
| Grep.PlanSnoc | L2_12/main.go:147-176 | each match adds the segment from just after the last printed line to min(n-1, m+after) |
| Grep.WindowsMonotone | L2_12/main.go:148-149 | a later match's window starts and ends no earlier |
| Grep.PlanBelowLast | L2_12/main.go:152-176 | no printed line lies beyond the end of the last window |
| Grep.PlanIncreasing | L2_12/main.go:143-176 | printed line numbers strictly increase, so no line is printed twice |
| Grep.PlanCovers | L2_12/main.go:147-162 | a line is printed exactly when it lies in the window of some match |
| Grep.PlanHighlights | L2_12/main.go:152-173 | a printed line is highlighted exactly when it is a match printed in its own window, not as context of an earlier match |
| Grep.RenderStep | L2_12/main.go:157-174 | each printed line is its 1-based number and ':' under -n, then the line, highlighted when it is the match |
| Grep.PrintWindow | L2_12/main.go:157-175 | the inner loop writes exactly the rendered segment and marks only its lines as printed |
| Grep.PrintMatches | L2_12/main.go:143-177 | the window loop writes exactly the rendered print plan |
| Grep.Grep | L2_12/main.go:85-180 | grep returns exactly the output or the error of the specification |
| Grep.GrepOutput | L2_12/main.go:85-180 | definition: a pattern that does not compile is the "invalid pattern" error; otherwise -c gives the count of selected lines, and anything else the rendered print plan |
| Grep.InvalidPatternWritesNothing | L2_12/main.go:107-109 | grep fails, before any output, exactly when the pattern does not compile |
| Grep.CountModeCounts | L2_12/main.go:138-141 | in count mode the only output is the number of selected lines |
| Grep.GrepIgnoresAround | L2_12/main.go:143-177 | grep itself does not read -C; only the flag step folds it into -A and -B |
| Grep.PrintedOutput | L2_12/main.go:143-177 | the output has one line per planned line, strictly increasing, covering exactly the windows, each numbered and highlighted as specified |
| MirrorPaths.AssetSuffixList | L2_16/pkg/utils.go:21-27 | a link is an asset exactly when it ends with one of the ten suffixes |
| MirrorPaths.IsAsset | L2_16/pkg/utils.go:21-27 | definition: the ten case-sensitive suffix tests joined by "or" |
| MirrorPaths.AssetWhateverPrefix | L2_16/pkg/utils.go:21-27 | only the ending decides: any prefix keeps an asset an asset |
| MirrorPaths.AssetTestIsLiteral | L2_16/pkg/utils.go:21-27 | the suffix test is case-sensitive and sees a query string: "/img/logo.PNG" and "/css/site.css?v=2" are not assets |
| MirrorPaths.NormalizeAppend | L2_16/pkg/utils.go:38 | path cleaning processes elements left to right |
| MirrorPaths.Clean | L2_16/pkg/utils.go:38 | definition: filepath.Clean drops empty and "." elements, lets ".." remove the name before it (or stay at the front of a relative path, or vanish at the root), and writes "." for an empty relative path |
| MirrorPaths.JoinPath | L2_16/pkg/utils.go:38 | definition: filepath.Join skips leading empty elements, gives "" when none is left, and cleans the rest joined with '/' |
| MirrorPaths.NormalizeNames | L2_16/pkg/utils.go:38 | plain names survive cleaning unchanged |
| MirrorPaths.SplitAtSeparator | L2_16/pkg/utils.go:38 | splitting a joined path splits each side |
| MirrorPaths.CleanKeepsName | L2_16/pkg/utils.go:38 | cleaning keeps a path's final name |
| MirrorPaths.JoinPathKeepsName | L2_16/pkg/utils.go:38 | joining keeps the final name of the last element |
| MirrorPaths.FileNameKept | L2_16/pkg/utils.go:32-38 | a URL path ending in a file name maps to a file of that name |
| MirrorPaths.URLToFilePath | L2_16/pkg/utils.go:32-39 | definition: the output directory, the host and the URL path joined, with index.html added to an empty path or one ending in '/' |
| MirrorPaths.DirectoryGetsIndex | L2_16/pkg/utils.go:35-37 | an empty path or one ending in '/' maps to index.html |
| MirrorPaths.OnlyHostAndPathMatter | L2_16/pkg/utils.go:32-38 | the file depends only on host and path: base, scheme, query and fragment do not matter |
| MirrorPaths.DotSegmentsEscape | L2_16/pkg/utils.go:38 | with output directory "m", host "h" and path "/../../x" the file is "x", outside the mirror |
| MirrorPaths.EscapeNormalize | L2_16/pkg/utils.go:38 | the elements m, h, "", .., .., x clean to x |
| MirrorPaths.RelNames | L2_16/pkg/utils.go:32-38 | the corrected relative part consists of plain names only |
| MirrorPaths.SafeStaysInside | L2_16/pkg/utils.go:32-38 | the corrected file is the output directory's own names followed by plain names, so it stays inside the output directory |
| MirrorPaths.SameDomain | L2_16/pkg/utils.go:43-49 | a link that did not parse is never on the same domain |
| MirrorPaths.SameDomainIsSameHost | L2_16/pkg/utils.go:43-49 | a parsed link is on the same domain exactly when its host equals the base host, whatever the scheme |
| Shell.ParseCommand | L2_15/main.go:136-146 | the loop returns the whitespace-separated words of the command with each $NAME word substituted in place |
| Text.Fields | L2_15/main.go:137 | definition: strings.Fields, the maximal runs of non-space runes in order |
| Shell.Expand | L2_15/main.go:140-143 | definition: a word starting with '$' becomes the value of the variable named by the rest, "" when unset; any other word stays |
| Shell.Substitute | L2_15/main.go:138-144 | definition: every word expanded in its own position |
| Shell.PlainWordsUnchanged | L2_15/main.go:138-144 | words not starting with '$' are unchanged |
| Shell.ArgumentsAreWords | L2_15/main.go:137 | the arguments are the non-empty, space-free runs of the command; nothing but whitespace is lost |
| Shell.SubstitutionKeepsPositions | L2_15/main.go:138-144 | a $NAME word keeps its position and becomes the variable's value, or "" when unset; the count of words is preserved |
| Shell.NoSecondSubstitution | L2_15/main.go:140-143 | a value that itself starts with '$' is used literally |
| Shell.ScanRedirections | L2_15/main.go:170-190 | the scan loop, with its manual index step, returns the arguments and files of the scan specification |
| Shell.Scan | L2_15/main.go:170-190 | definition: from no arguments and no files, "< f" sets the input file and "> f" the output file, consuming both words; a trailing operator is dropped; any other word is kept |
| Shell.ScanAppend | L2_15/main.go:174-190 | the scan is a left-to-right pass: a settled prefix can be scanned first |
| Shell.LastInputWins | L2_15/main.go:177-181 | the last "< file" decides the input file |
| Shell.LastOutputWins | L2_15/main.go:182-186 | the last "> file" decides the output file |
| Shell.TrailingOperatorDropped | L2_15/main.go:178-186 | a '<' or '>' with no word after it is dropped and names no file |
| Shell.PlainWordKept | L2_15/main.go:187-188 | every other word is kept, in order |
| Shell.TargetMayBeOperator | L2_15/main.go:177-186 | the word after an operator is its file even when it is itself '<' or '>' |
| Shell.NoOperatorKept | L2_15/main.go:174-190 | no '<' or '>' is left among the arguments |
| Shell.NoOperatorsUnchanged | L2_15/main.go:174-190 | arguments without operators pass through unchanged and name no files |
| Shell.Commands | L2_15/main.go:71-77 | every command that runs has at least one word, and there are no more commands than segments |
| Shell.ParsePipeline | L2_15/main.go:40-77 | the line is trimmed, skipped when empty, split at every pipe rune, and each segment is trimmed and parsed; empty ones are skipped |
| Text.TrimSpace | L2_15/main.go:40 | definition: strings.TrimSpace drops leading and trailing white space |
| Shell.Pipeline | L2_15/main.go:40-77 | definition: a blank line gives no commands; otherwise the trimmed line split at every '|', each segment trimmed, split into words and substituted, and segments without words skipped |
| Shell.CommandsAppend | L2_15/main.go:71-77 | segments are processed in order, independently of each other |
| Shell.BlankSegmentSkipped | L2_15/main.go:73-77 | a segment of nothing but whitespace runs nothing |
| Shell.FirstPipe | L2_15/main.go:59 | the text before the first pipe rune is the first segment, with no quoting |
| Shell.SingleCommand | L2_15/main.go:40-77 | a line without a pipe rune is one command, or none when blank; surrounding spaces do not matter |
| Shell.CommandCount | L2_15/main.go:59 | a line with n pipes yields at most n+1 commands |
| Text.FieldsTrimSpace | L2_15/main.go:73-74 | trimming a command does not change its words |

## Left out

- Input and output are left out: reading lines from files or stdin, `bufio.Scanner` limits, `os.Exit`, and printing. Each operation takes its lines as a sequence and returns its output lines.
- Unpack.Unpack: `unicode.IsDigit` is a parameter. It is required to agree with Go on ASCII, where only '0'..'9' are digits. Other Unicode decimal digits are whatever the parameter says.
- SortLines.CompareStrings: `compareNumeric` and `compareHumanReadable` parse float64 and are parameters of the key options (`numericCmp`, `humanCmp`). Their results are not modelled.
- SortLines.CompareMonth: the Go code slices the first three bytes of each key, and the model takes the first three runes. The two agree on ASCII keys only. For a key whose first runes are multi-byte, Go may cut a rune in half, and the model does not.
- SortLines.CompareStrings: `compareMonth` panics on a key shorter than three bytes. The model requires keys of at least three runes instead. On the sort path, SortLines.SortStrings requires every line to be comparable once there are two or more. On the `-c` path, SortLines.IsSorted requires it only for the pairs the scan reaches before its first descending pair, because those are the only pairs Go compares.
- SortLines.SortStrings: `sort.SliceStable` is modelled by insertion sort. Under a strict weak order every stable sort gives that same result (Sorting.StableSortUnique). Under the cyclic month comparison, Go's block-merge algorithm may order more than twenty lines differently.
- Lower-casing (`strings.ToLower`, `strings.Title`) is modelled on ASCII letters only. In Anagrams the lower-casing function is a parameter.
- `readStrings`, including `-b` trailing-blank trimming, is left out, together with `main`'s flag parsing and file opening in every utility.
- Grep.Grep: regular-expression compilation, matching and `ReplaceAllString` highlighting are a `Matcher` parameter. The `(?i)` prefix is passed to the compile function as pattern text. `Grep.PatternText` builds that text, and `Grep.QuoteMeta` is modelled in full.
- Grep.PlanHighlights: requires `-A` >= 0. Go accepts a negative `-A`; then a window can end before its own match, and the model does not state how such a match line is highlighted.
- Grep.Hi: Go computes `match+cfg.after` in 64-bit `int`, and the model's window end is unbounded. With `-A 9223372036854775807` and a match at index 1 or later, Go's sum wraps negative, so nothing is printed for that match. The model prints through the last line.
- Grep.Lo: Go computes `match-cfg.before` in 64-bit `int`, and the model's window start is unbounded. A `-B` near the negative end of the 64-bit range makes Go's difference wrap; the model does not.
- Cut.AppendRange: the model's loop stops after `end`. Go's `for i := start; i <= end; i++` never ends when `end` is 9223372036854775807, because `i` wraps before it can exceed `end`. Cut.Interval is unbounded in the same way.
- Unpack.ApplyCount: the model's repetition always succeeds. Go's `strings.Repeat` panics when the repeated length overflows `int`, and a count near 2^63 exhausts memory first. Unpack.Repeat is unbounded in the same way.
- Grep.FinishFlags: `flag.Parse` itself is not modelled. A missing pattern is an error result rather than `log.Fatalln`.
- MirrorPaths.URLToFilePath: takes an already parsed URL. When `url.Parse` fails, the Go code reads a field of a nil URL and panics; that case is not modelled.
- MirrorPaths.SameDomain: the outcome of `url.Parse` is an `Option`, and the parser itself is not modelled.
- `ResolveURL`, `download.go`, `parser.go` and the CLI of the site mirror are not part of this model. They are network, HTML parsing and concurrency.
- Shell: `executePipeline`'s process start, pipes, `CommandPath`, the built-in commands, signals and goroutines are not part of this model. So is the file-opening half of `handleRedirections`, including the `Path` assignment after the scan.
- Shell.ParseCommand: `os.Getenv` is an environment map given as a parameter.
- L2_14, WB_L2_17 and L2_8 are concurrency and network code and are not part of this model.

## Findings

| source | as written | input that shows it | evidently intended | confidence | as-written member | corrected member |
|---|---|---|---|---|---|---|
| L2_9/main.go:49-55 | a count of 0 removes the last byte of the builder | "л0" gives the lone byte 0xD0, which is not UTF-8 | a count of 0 removes the last rune | not executed | Unpack.ZeroCountSplitsRune | Unpack.ZeroCountRemovesRune |
| L2_10/main.go:217-227 | months compare by calendar order, and anything else compares as strings, even against a month | "Mar" < "Dec" < "Foo" < "Mar"; the lines Mar, Dec, Foo pass -c, and a stable sort needs a weak order | recognised months in calendar order, ranked against unrecognised keys consistently | not executed | SortLines.MonthModeCycles | SortLines.RankedIsWeakOrder |
| L2_16/pkg/utils.go:38 | the URL path is joined and cleaned after the output directory and host, so ".." climbs out of them | output directory "m", host "h", path "/../../x" gives "x" | every mirrored file lies inside the output directory | not executed | MirrorPaths.DotSegmentsEscape | MirrorPaths.SafeStaysInside |
