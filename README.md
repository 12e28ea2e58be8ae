# pdfManager — a verified model of the page-selection and rewrite core

`pdfManager.py` is a small interactive PDF tool. It has three commands:

- **merge** joins every PDF of a folder, in "natural" file-name order.
- **delete pages** drops the selected pages of one PDF.
- **extract pages** copies the selected pages of one PDF into a new file.

This project models the logic behind those commands:

- `PDFEditor.natural_sort_key`, which gives a file name the list of integers written in it.
- `PDFEditor.parse_page_numbers`, which reads inputs such as `"1,3-5,7"`.
- The deletion selection rules: `odd`/`even`/`홀수`/`짝수`, `"S odd"`, and the fall-back to the parser.
- The guards of each command: empty selection, every page selected, no PDF in the folder, confirmation.
- The output-file name rule: a default name when the line is blank, and `.pdf` appended when it is missing.
- The write loops, which build the output document page by page.

A document is a sequence of pages of an opaque type `P`. The pages of the file called `name` are `pagesOf(name)`. Each console line the tool reads is a parameter, passed in as `input()` returned it. The model applies `strip()` to it where the source does.

Modules, each in its own file:

- `Wrappers` (`wrappers.dfy`) defines `Option`.
- `Text` (`text.dfy`) models the Python string built-ins the tool relies on:
  - `str.isspace`, `strip`, `lower`, `replace`, `split(',')` and `split()`;
  - `re.findall(r'\d+')`;
  - `int()` on a string, with the narrower set of whitespace it skips;
  - `str(n)`.
- `NaturalSort` (`natural_sort.dfy`) holds the key function and Python's `<` on lists of integers.
- `PageSets` (`page_sets.dfy`) holds ascending page lists: `sorted(...)`, `sorted(set(...))`, `range`.
- `PageParser` (`page_parser.dfy`) holds `parse_page_numbers`:
  - an imperative method with the loop over tokens;
  - the function that specifies it.
- `Selection` (`selection.dfy`) holds the selection rules of the delete and extract commands.
- `Rewrite` (`rewrite.dfy`) holds the delete and extract commands, the output-name rule, and the page-writing loops.
- `Merge` (`merge.dfy`) holds the merge command:
  - the `.pdf` filter;
  - the stable sort by natural key;
  - the loop that appends the files.

Every loop of the modelled core becomes a `method` with a `for`/`while` loop. Each method is proved equal to a specification function, and the properties are proved as lemmas about that function. The loops are:

- the token loop of `parse_page_numbers`;
- the page loops of delete and extract;
- the merger loop.

A printed warning becomes an element of a returned `warnings` list: the parser's bad-range and bad-number warnings (pdfManager.py:30, 35) and the delete command's start-page-out-of-range warning (pdfManager.py:185). The list previews printed after a selection are not warnings and are left out. An early `return` becomes an `Outcome` constructor.

## Model

| member | source | states |
|---|---|---|
| Text.Strip | pdfManager.py:149 | `strip()` leaves no whitespace at either end, loses only whitespace, and adds no character; Text.StripSlice states that the result is one contiguous slice of the input |
| Text.StripSlice | pdfManager.py:149 | the stripped line is the slice `s[a..a + len]` of the input for some a, and everything before and after that slice is whitespace |
| Text.StripParts | pdfManager.py:149 | stripping the left end and then the right end gives a result with no whitespace at either end, only whitespace lost, and which is one slice of the input with whitespace around it |
| Text.StripNoSpace | pdfManager.py:149 | stripping a line without whitespace returns it unchanged |
| Text.LowerKeeps | pdfManager.py:154 | `lower()` keeps the length and changes only the letters A to Z |
| Text.Lower | pdfManager.py:154 | specification function for ASCII `lower()`, with no contract of its own; Text.LowerKeeps states its meaning |
| Text.RemoveChar | pdfManager.py:22 | `replace(' ', '')` keeps exactly the characters other than the removed one and is no longer; a string without that character is unchanged |
| Text.RemoveCharConcat | pdfManager.py:22 | removing a character distributes over concatenation |
| Text.SplitOn | pdfManager.py:22 | `split(',')` gives at least one piece; no piece holds a comma; every character of a piece comes from the input; no comma gives the whole input |
| Text.JoinSplitOn | pdfManager.py:22 | joining the pieces of `split(',')` with commas gives back the input |
| Text.SplitOnJoin | pdfManager.py:22 | splitting comma-free pieces joined by commas gives back the pieces |
| Text.SplitOnCons | pdfManager.py:22 | splitting `a + "," + rest` gives `a` followed by the pieces of `rest` |
| Text.Span | pdfManager.py:10 | the longest prefix whose characters all satisfy the predicate |
| Text.Runs | pdfManager.py:10 | the maximal runs (of digits, for `\d+`) are non-empty and hold only matching characters |
| Text.RunsDecompose | pdfManager.py:10 | the string is exactly its gaps and runs interleaved; gaps hold no matching character; inner gaps are non-empty, so the runs are maximal |
| Text.SingleRun | pdfManager.py:10 | one run between two stretches without matching characters is the only run |
| Text.RunsConsRun | pdfManager.py:10 | a leading run, followed by a non-matching character or by nothing, is the first run |
| Text.TwoRunsHaveGap | pdfManager.py:162 | input with two whitespace-separated words holds a whitespace character |
| Text.TwoWords | pdfManager.py:162-163 | `"a b".split()` is `[a, b]` for two words without whitespace |
| Text.Words | pdfManager.py:162 | `split()`: every word is non-empty and holds no whitespace; Text.RunsCover, Text.TwoWords and Text.TwoWordsChars tie the words to the characters of the input |
| Text.RunsCover | pdfManager.py:162 | a character lies in some maximal run exactly when it is in the string and matches the predicate |
| Text.RunCharsInString | pdfManager.py:162 | every character of a run is a matching character of the string |
| Text.StringCharsInRuns | pdfManager.py:162 | every matching character of the string lies in some run |
| Text.TwoWordsChars | pdfManager.py:162 | every character of an input that splits into two words is whitespace or belongs to one of the two words |
| Text.WordChars | pdfManager.py:162 | every character of a word of `split()` comes from the input |
| Text.DecimalRoundTrip | pdfManager.py:11 | the value of `str(n)` is `n` |
| Text.ParseIntDigits | pdfManager.py:33 | `int()` of a non-empty ASCII digit string is its decimal value |
| Text.ParseIntDecimal | pdfManager.py:165 | `int(str(n)) == n` |
| Text.ParseIntCharset | pdfManager.py:27 | a string `int()` accepts holds only digits, signs, underscores and the whitespace `int()` skips |
| Text.ParseIntMinus | pdfManager.py:27 | an accepted string holding a minus sign has a non-positive value |
| Text.ParseInt | pdfManager.py:27-33 | specification function for `int()` on a string, with no contract of its own; it skips only IntSpace around the number; Text.ParseIntDigits, Text.ParseIntDecimal, Text.ParseIntCharset, Text.ParseIntMinus, Text.SeparatorNotSkipped and Text.LeadingSpaceSkipped state its meaning |
| Text.IntSpaceIsSpace | pdfManager.py:27-33 | the whitespace `int()` skips is exactly what `str.isspace()` accepts except U+001C to U+001F |
| Text.IntStrip | pdfManager.py:27-33 | the text `int()` reads: no skipped whitespace at either end, only such whitespace lost, no character added |
| Text.IntStripNoSpace | pdfManager.py:27-33 | `int()` skips nothing around a string without its whitespace |
| Text.SeparatorNotSkipped | pdfManager.py:32-35 | U+001C to U+001F are `isspace()` whitespace, yet `int()` refuses one in front of digits, so such a token draws the bad-number warning |
| Text.LeadingSpaceSkipped | pdfManager.py:32-33 | whitespace `int()` does skip, such as a tab, in front of digits leaves their value |
| Text.MinusOnlyAsSign | pdfManager.py:27 | in a string `int()` accepts, a minus sign can only be the first character after stripping |
| Text.EndsWith | pdfManager.py:224 | specification predicate for `str.endswith`, with no contract of its own; Rewrite.WithPdfSuffix and Merge.LowerKeepsSuffix state what it decides |
| NaturalSort.NaturalSortKey | pdfManager.py:9-11 | the key is never empty |
| NaturalSort.NaturalSortKeyRuns | pdfManager.py:9-11 | the key is `[0]` when the name has no digit run; otherwise it has one entry per maximal digit run, and entry i is the value of run i |
| NaturalSort.NaturalSortKeyZero | pdfManager.py:9-11 | the key is `[0]` exactly when the name has no digit, or its only digit run has value 0 |
| NaturalSort.NumberedNameKey | pdfManager.py:9-11 | `stem + str(n) + ext`, with no digit in stem or ext, has key `[n]` |
| NaturalSort.DigitRuns | pdfManager.py:10 | specification function for `re.findall(r'\d+', filename)`, with no contract of its own; Text.Runs, Text.RunsDecompose and NaturalSort.NaturalSortKeyRuns state its meaning |
| NaturalSort.KeyLess | pdfManager.py:64 | specification predicate for Python's `<` on integer lists, with no contract of its own; NaturalSort.KeyLessIsFirstDifference, NaturalSort.KeyLessIrreflexive, NaturalSort.KeyLessTransitive and NaturalSort.KeyLessTotal state its meaning |
| NaturalSort.KeyLessIsFirstDifference | pdfManager.py:64 | Python's `<` on keys: the first differing entry is smaller, or the left key is a proper prefix of the right one |
| NaturalSort.KeyLessIrreflexive | pdfManager.py:64 | no key sorts before itself |
| NaturalSort.KeyLessTransitive | pdfManager.py:64 | the key order is transitive |
| NaturalSort.KeyLessTotal | pdfManager.py:64 | of two distinct keys, one sorts before the other |
| NaturalSort.NumberedNamesOrder | pdfManager.py:9-11 | `stem + str(m) + ext` sorts before `stem + str(n) + ext` exactly when `m < n` |
| NaturalSort.Page2BeforePage10 | pdfManager.py:9-11 | `page2.pdf` has key `[2]`, `page10.pdf` has key `[10]`, and the first sorts before the second |
| PageSets.Ascending | pdfManager.py:37 | `sorted([p for p in pages if 1 <= p <= max_page])`: strictly ascending, holding exactly the members in range |
| PageSets.AllPages | pdfManager.py:296 | `list(range(1, n + 1))`: n ascending entries, entry k being k + 1 |
| PageSets.SortedDistinct | pdfManager.py:201 | `sorted(set(xs))`: strictly ascending, with the same members as xs |
| PageSets.AscendingUnique | pdfManager.py:201 | two strictly ascending lists with the same members are equal |
| PageSets.SortedDistinctOfAscending | pdfManager.py:201 | deduplicating and sorting a strictly ascending list leaves it unchanged |
| PageSets.AscendingPagesCount | pdfManager.py:203 | an ascending list of pages in [1, n] has at most n entries, and exactly n when it names every page |
| PageParser.Tokens | pdfManager.py:22 | at least one token; no token holds a space or a comma; joining the tokens with commas gives the input without its spaces |
| PageParser.Range | pdfManager.py:28 | `range(a, b + 1)` holds exactly the p with a <= p <= b |
| PageParser.TokenPages | pdfManager.py:24-35 | specification function for the pages one token adds, with no contract of its own; PageParser.MalformedTokenAddsNothing, PageParser.NumberToken, PageParser.RangeToken and PageParser.PageNumbersMembers state its meaning |
| PageParser.TokenWarning | pdfManager.py:24-35 | specification function for the warning one token draws, with no contract of its own; PageParser.MalformedTokenAddsNothing, PageParser.LoneNonNumber and PageParser.ThreePartToken state its meaning |
| PageParser.Warnings | pdfManager.py:24-35 | specification function for the warnings in token order, with no contract of its own; PageParser.ParsePageNumbers and PageParser.TokensStep tie it to the loop |
| PageParser.PageNumbers | pdfManager.py:37-38 | the result is strictly ascending (sorted, no duplicates), within [1, max_page] |
| PageParser.ParsePageNumbers | pdfManager.py:14-38 | the token loop returns PageNumbers: p is in it iff 1 <= p <= max_page and some token requests p; the warnings are one per malformed token, in input order |
| PageParser.TokensStep | pdfManager.py:24-35 | each loop step adds the token's pages to the set and its warning, if any, to the warnings |
| PageParser.CollectMembers | pdfManager.py:24-35 | a page is collected iff some token requests it |
| PageParser.RequestedConcat | pdfManager.py:24-35 | the requested set of two token lists is the union of theirs |
| PageParser.PageNumbersMembers | pdfManager.py:22-37 | p is returned iff 1 <= p <= max_page and p is a bare-integer token or lies in [a, b] for a well-formed `a-b` token |
| PageParser.MalformedTokenAddsNothing | pdfManager.py:25-35 | a token that draws a warning adds no page; a token without one is a well-formed range (with `-`) or an integer (without) |
| PageParser.NumberToken | pdfManager.py:32-33 | the token `str(n)` adds exactly page n and no warning |
| PageParser.DigitToken | pdfManager.py:32-33 | a one-digit token adds exactly its digit |
| PageParser.RangeToken | pdfManager.py:25-28 | the token `a-b` adds exactly [a, b]; nothing when a > b |
| PageParser.SpacesIgnored | pdfManager.py:22 | removing spaces first leaves the result unchanged |
| PageParser.SingleTokenInput | pdfManager.py:22 | input without commas is one token, its spaces removed |
| PageParser.LoneNonNumber | pdfManager.py:31-35 | a single dash-free token that `int()` rejects gives no page and one bad-number warning |
| PageParser.NumberList | pdfManager.py:17 | `"a,b,c"` with 1 <= a < b < c <= max_page gives `[a, b, c]` |
| PageParser.ExampleList | pdfManager.py:17 | `"1,3,5"` gives `[1, 3, 5]` |
| PageParser.Interval | pdfManager.py:28 | an ascending list of exactly the integers in [a, b] |
| PageParser.RangeOnly | pdfManager.py:18 | `"a-b"` within [1, max_page] gives the interval [a, b] |
| PageParser.ExampleRange | pdfManager.py:18 | `"1-5"` gives `[1, 2, 3, 4, 5]` |
| PageParser.NumberRangeNumber | pdfManager.py:19 | `"a,b-c,d"` gives the ascending list of a, [b, c] and d that lie in range |
| PageParser.ExampleMixed | pdfManager.py:19 | `"1,3-5,7"` gives `[1, 3, 4, 5, 7]` |
| PageParser.SingleNumber | pdfManager.py:32-38 | `str(n)` with 1 <= n <= max_page gives `[n]` |
| PageParser.SpaceJoinsDigits | pdfManager.py:22 | `"1 2"` gives page 12, not pages 1 and 2 |
| PageParser.BackwardRange | pdfManager.py:27-28 | `"3-1"` gives nothing |
| PageParser.EmptyInput | pdfManager.py:22-35 | an empty input is one empty token: one bad-number warning, no page |
| PageParser.NegativeToken | pdfManager.py:25-30 | `-n` splits on `-` into two parts, an empty start and n; `int('')` fails, so it draws a bad-range warning and adds no page |
| PageParser.ThreePartToken | pdfManager.py:25-30 | `a-b-c` is refused with a warning and adds nothing |
| Selection.ParityPages | pdfManager.py:155-175 | `[i for i in range(first, last + 1) if i % 2 == r]`: ascending, holding exactly the pages of that parity in [first, last] |
| Selection.SelectForDelete | pdfManager.py:153-194 | the deletion selection is strictly ascending and within [1, total] |
| Selection.ChoosePagesToDelete | pdfManager.py:149-194 | the branching method returns SelectForDelete, and its warnings are DeleteWarnings: the start-page warning when a two-word input starts with an integer outside [1, total], then the parser's warnings exactly when the parser runs |
| Selection.WholeParitySelection | pdfManager.py:153-159 | `odd`/`홀수`/`even`/`짝수`, in any letter case, select exactly the pages of that parity in [1, total], without the parser |
| Selection.StartParitySelection | pdfManager.py:161-183 | any input that `split()` cuts into two words, where `int()` of the first gives S with 1 <= S <= total and the second is a parity word (so `"05 odd"`, `"+5 odd"` and `"5\todd"` too), selects exactly that parity in [S, total]; the parser runs only when that is empty, that is when S == total has the other parity, and then its one warning is the bad number made of both words |
| Selection.StartParityList | pdfManager.py:161-176 | any such two-word input selects the expected ascending list of that parity in [S, total] |
| Selection.ParityWordChars | pdfManager.py:154-169 | a parity word holds no digit, whitespace, sign, underscore or comma |
| Selection.ParityWord | pdfManager.py:154-176 | specification function for `word.lower() in ['odd', '홀수']` and the even test, with no contract of its own; Selection.ParityWordChars and Selection.WholeParitySelection state its meaning |
| Selection.StartSelection | pdfManager.py:161-176 | specification function for the start-page branch, with no contract of its own; Selection.StartParitySelection and Selection.OutOfRangeStart state its meaning |
| Selection.UsesParser | pdfManager.py:178-194 | specification predicate for reaching `parse_page_numbers`, with no contract of its own; Selection.FallbackIsParser and Selection.StartParitySelection state its meaning |
| Selection.StartWarnings | pdfManager.py:184-185 | specification function for the start-page warning, with no contract of its own; Selection.OutOfRangeStart states its meaning |
| Selection.DeleteWarnings | pdfManager.py:149-194 | specification function for every warning of the deletion selection, with no contract of its own; Selection.ChoosePagesToDelete, Selection.OutOfRangeStart and Selection.StartParitySelection state its meaning |
| Selection.StartInputParsesToNothing | pdfManager.py:183-194 | the parser reads a two-word input whose first word is a positive integer and whose second is a parity word as the one token made of both words: no page and one bad-number warning |
| Selection.OutOfRangeStart | pdfManager.py:184-187 | a two-word input whose first word is an integer outside [1, total] is parsed by `parse_page_numbers`, after the start-page warning |
| Selection.ParityPagesEmpty | pdfManager.py:179-183 | a parity selection over [first, last] is empty iff first == last and that page has the other parity |
| Selection.TwoWordsNotParityWord | pdfManager.py:154-163 | input that splits into two words is never a whole-input parity word |
| Selection.FallbackIsParser | pdfManager.py:183-194 | whenever the fall-back is taken, the selection is `parse_page_numbers(input, total)` |
| Selection.DeleteSelectionNormalised | pdfManager.py:201 | `sorted(set(...))` leaves the selection unchanged, and it has at most total entries |
| Selection.FiveOddOfTen | pdfManager.py:145 | `"5 odd"` over 10 pages selects `[5, 7, 9]` |
| Selection.SixEvenOfTen | pdfManager.py:146 | `"6 짝수"` over 10 pages selects `[6, 8, 10]` |
| Selection.DigitsStartForm | pdfManager.py:162-166 | `digits + " " + word`, for a digit string and a word without whitespace, splits into those two words, `int()` of the digits is their decimal value, and the parser's token is the two joined |
| Selection.DigitsStartList | pdfManager.py:162-176 | a digit string S in [1, total] followed by a parity word selects the expected ascending list of that parity in [S, total] |
| Selection.ZeroPaddedStart | pdfManager.py:162-171 | `"05 odd"` over 10 pages selects `[5, 7, 9]`, as `int('05') == 5` |
| Selection.DigitsStartFallback | pdfManager.py:168-194 | a digit string whose value is total, followed by the word for the other parity, selects nothing, falls back to the parser and draws one bad-number warning |
| Selection.StartParityFallback | pdfManager.py:168-194 | any two-word input whose first word `int()` reads as S, on an S-page document where S has the other parity, falls back to the parser, selects nothing and draws the bad-number warning for both words joined |
| Selection.FourOddOfFour | pdfManager.py:168-194 | `"4 odd"` on a 4-page document falls back to the parser and selects nothing, and its only warning is the bad number `4odd` |
| Selection.WholeParityList | pdfManager.py:153-159 | a whole-input parity word selects the expected ascending list of that parity in [1, total] |
| Selection.OddOfTen | pdfManager.py:154-155 | `"ODD"` over 10 pages selects `[1, 3, 5, 7, 9]` |
| Selection.SelectForExtract | pdfManager.py:295-298 | the extraction selection is ascending and within [1, total]; `all` (any case) selects all total pages |
| Selection.ChoosePagesToExtract | pdfManager.py:295-298 | the branch returns SelectForExtract, with the parser's warnings unless the input is `all` |
| Rewrite.WithPdfSuffix | pdfManager.py:224-225 | the result ends in `.pdf`; a name already ending in `.pdf` is kept; any other gets `.pdf` appended |
| Rewrite.WithPdfSuffixIdempotent | pdfManager.py:77-78 | normalising twice changes nothing |
| Rewrite.OutputName | pdfManager.py:216-225 | the output name always ends in `.pdf` |
| Rewrite.OutputNameCases | pdfManager.py:306-315 | a blank line gives WithPdfSuffix of the default; a typed name gives WithPdfSuffix of the stripped line, so it is kept as a prefix, kept as is when it ends in `.pdf`, and otherwise gets `.pdf` appended |
| Rewrite.UpperCaseSuffixExtended | pdfManager.py:314-315 | the suffix test is case-sensitive: `report.PDF` becomes `report.PDF.pdf` |
| Rewrite.PickPages | pdfManager.py:327-328 | one page per selected number, in selection order: entry k is page `selection[k] - 1` of the document |
| Rewrite.Unselected | pdfManager.py:236-240 | the ascending list of exactly the pages in [1, n] that are not deleted |
| Rewrite.KeptPages | pdfManager.py:236-241 | specification function for the pages the delete loop keeps, with no contract of its own; Rewrite.WriteKept, Rewrite.DeleteIsExtractComplement and Rewrite.KeptPagesCount state its meaning |
| Rewrite.Confirms | pdfManager.py:228-229 | specification predicate for `input().strip().lower() == 'y'`, with no contract of its own; Rewrite.DeleteOutcomeMeaning, Rewrite.ExtractOutcomeMeaning and Merge.MergeOutcomeMeaning state it is the cancel guard |
| Rewrite.PickPagesPrefix | pdfManager.py:327-328 | picking pages from a prefix that holds them equals picking them from the whole document |
| Rewrite.PickPagesSnoc | pdfManager.py:327-328 | selecting one more page appends that page |
| Rewrite.DeleteIsExtractComplement | pdfManager.py:236-241 | deletion keeps exactly the pages that extracting the unselected page numbers would copy, in document order |
| Rewrite.KeptPagesCount | pdfManager.py:203-241 | deleting a selection of distinct pages in range leaves total minus the selection's length |
| Rewrite.DisjointCount | pdfManager.py:203 | the selected and the unselected pages together number total |
| Rewrite.LastIsMax | pdfManager.py:201 | the largest member of an ascending list is its last entry |
| Rewrite.WriteKept | pdfManager.py:236-241 | the writer loop adds exactly the unselected pages, in document order |
| Rewrite.DeletePages | pdfManager.py:149-241 | the delete command ends as DeleteOutcome, and its warnings are DeleteWarnings of the stripped line |
| Rewrite.DeleteOutcomeMeaning | pdfManager.py:196-241 | nothing selected, every page selected, cancelled and saved each hold exactly when their guard does; a save names OutputName with the `_edited.pdf` default and holds the unselected pages in order, total minus the selection's length, at least one |
| Rewrite.DeleteOutcome | pdfManager.py:196-241 | specification function for how the delete command ends, with no contract of its own; Rewrite.DeleteOutcomeMeaning states its meaning |
| Rewrite.WriteSelected | pdfManager.py:327-328 | the writer loop adds page `p - 1` for each selected p, in selection order |
| Rewrite.ExtractPages | pdfManager.py:292-328 | the extract command ends as ExtractOutcome; its warnings are none for `all` and the parser's warnings otherwise |
| Rewrite.PickAllPages | pdfManager.py:295-328 | picking every page in order copies the document |
| Rewrite.PickInOrder | pdfManager.py:327-328 | picking pages 1..n of an n-page document in order copies it |
| Rewrite.ExtractSavedPages | pdfManager.py:300-328 | a save holds one page per selected number: entry k is page `selected[k] - 1` |
| Rewrite.ExtractAllCopiesDocument | pdfManager.py:295-328 | `all` on a non-empty document, once confirmed, saves the whole document under OutputName with the `_extracted.pdf` default |
| Rewrite.ExtractOutcome | pdfManager.py:295-328 | specification function for how the extract command ends, with no contract of its own; Rewrite.ExtractOutcomeMeaning, Rewrite.ExtractSavedPages and Rewrite.ExtractAllCopiesDocument state its meaning |
| Rewrite.ExtractEnding | pdfManager.py:300-328 | specification function for the guards after the selection, with no contract of its own; Rewrite.ExtractOutcomeMeaning states its meaning |
| Rewrite.ExtractOutcomeMeaning | pdfManager.py:300-322 | extraction ends with NothingSelected exactly when the selection is empty, with Cancelled exactly when it is not and the answer is not `y`, and saves exactly otherwise, under OutputName with the `_extracted.pdf` default |
| Rewrite.EndingPicks | pdfManager.py:326-328 | a save holds one page per selected number, entry k being page `selected[k] - 1` |
| Merge.PdfNames | pdfManager.py:57 | keeps exactly the listed names whose lower-cased form ends in `.pdf`, and is no longer than the listing; Merge.PdfNamesCount, Merge.PdfNamesConcat and Merge.PdfNamesSingle state how often and in what order |
| Merge.PdfNamesCount | pdfManager.py:57 | the filter keeps every copy of a PDF name the listing holds and no copy of any other name |
| Merge.PdfNamesConcat | pdfManager.py:57 | filtering a listing split in two gives the filtered first part followed by the filtered second part, so the listing order is kept |
| Merge.PdfNamesSingle | pdfManager.py:57 | a one-name listing is kept exactly when the name is a PDF name |
| Merge.IsPdfName | pdfManager.py:57 | specification predicate for `f.lower().endswith('.pdf')`, with no contract of its own; Merge.LowerKeepsSuffix and Merge.UpperCasePdfIsMerged state what it decides |
| Merge.InsertBy | pdfManager.py:64 | inserting into a key-sorted list keeps it sorted and adds exactly that name |
| Merge.SortBy | pdfManager.py:64 | `list.sort(key=...)`: sorted by key, and a permutation of the input |
| Merge.SortByKey | pdfManager.py:64 | sorted by natural_sort_key, and a permutation of the PDF names |
| Merge.KeyLessAsymmetric | pdfManager.py:64 | no two keys each sort before the other |
| Merge.ConcatenationAppend | pdfManager.py:94-97 | merging two lists of files gives the first merge followed by the second |
| Merge.Concatenation | pdfManager.py:94-97 | specification function for the pages the merger collects, with no contract of its own; Merge.ConcatenationAppend, Merge.FilePagesInPlace and Merge.AppendFiles state its meaning |
| Merge.FilePagesInPlace | pdfManager.py:94-97 | the pages of the i-th file appear unchanged, right after the pages of the files before it |
| Merge.AppendFiles | pdfManager.py:94-97 | the merger loop appends each file's pages in order |
| Merge.MergePdfs | pdfManager.py:57-100 | the merge command ends as MergeOutcome |
| Merge.MergeOutcome | pdfManager.py:57-100 | specification function for how the merge command ends, with no contract of its own; Merge.MergeOutcomeMeaning, Merge.MergeRefusal and Merge.MergeSaved state its meaning |
| Merge.MergeOutcomeMeaning | pdfManager.py:57-100 | the merge ends with NoPdfFiles exactly when no listed name is a PDF name, with Cancelled exactly when there is one and the answer is not `y`, and saves exactly otherwise, under OutputName with the `merged_output.pdf` default |
| Merge.MergeRefusal | pdfManager.py:59-61 | the merge refuses exactly when no listed name is a PDF name |
| Merge.MergeSaved | pdfManager.py:57-100 | a save is named OutputName with the `merged_output.pdf` default, which ends in `.pdf`, and holds the concatenated pages of the files in some MergeOrderOf order: sorted by natural key, every PDF name as often as the folder lists it, nothing else |
| Merge.MergeOrderOf | pdfManager.py:57-64 | specification predicate for an order the merger may use, with no contract of its own; Merge.MergeOrder states that the merger's order is one |
| Merge.MergeOrder | pdfManager.py:57-64 | the PDF names sorted by key are sorted, a permutation of the filtered names, hold exactly the PDF names of the listing, each as often as listed |
| Merge.SameMultisetSameMembers | pdfManager.py:64 | sorting keeps the set of names |
| Merge.MergeDefaultName | pdfManager.py:74-75 | a blank name line gives `merged_output.pdf` |
| Merge.NumberedFilesSorted | pdfManager.py:64 | two names `stem + str(m) + ext` and `stem + str(n) + ext` with m < n, given in either order, are sorted m first |
| Merge.MergeOfPdfs | pdfManager.py:57-100 | a confirmed merge of a folder of `.pdf` names concatenates all of them in natural-key order |
| Merge.NumberedFilesMerged | pdfManager.py:57-100 | a folder listing `stem + str(n) + ".pdf"` before `stem + str(m) + ".pdf"`, with m < n, is merged m first |
| Merge.ConcatenationOfTwo | pdfManager.py:94-97 | merging two files gives the first file's pages followed by the second's |
| Merge.Page2MergedBeforePage10 | pdfManager.py:64-97 | a folder listing `page10.pdf` before `page2.pdf` is merged page2 first |
| Merge.PdfNamesOfPdfs | pdfManager.py:57 | a listing of names ending in `.pdf` is kept whole and in order |
| Merge.EndsWithSuffix | pdfManager.py:57 | helper: a name built as `s + suffix` ends with that suffix |
| Merge.LowerKeepsSuffix | pdfManager.py:57 | a name ending in `.pdf` passes the lower-cased filter |
| Merge.UpperCasePdfIsMerged | pdfManager.py:57-78 | `scan.PDF` passes the folder filter although it does not end in `.pdf` |

## Left out

- The PDF library is not modelled: `PdfReader`, `PdfWriter`, `PdfMerger` and their `write`/`close`. A document is a sequence of opaque pages, and a file's pages come from the parameter `pagesOf`. Read, parse and write failures are outside the model.
- Console I/O is not modelled: `input()`, `print()`, banners and the `main_menu` loop (pdfManager.py:347-373). Each line read is a parameter. The warnings of `parse_page_numbers` are returned as a list, not printed.
- The filesystem is not modelled: `os.path.exists`, `os.path.join`, `os.path.abspath` and `os.path.getsize`. So the "file not found" and "folder not found" returns (pdfManager.py:48-54, 122-126, 270-274) are not modelled. The folder listing is a parameter, and the model claims only that the files are sorted by key, not which order tied names take.
- `os.path.splitext` in the default names (pdfManager.py:217, 307) is not modelled; the stem is a parameter.
- File-size reporting (pdfManager.py:103-108, 246-253, 333-339) is floating-point formatting and is not modelled.
- The `except Exception` handlers only report errors. They guard library and filesystem calls, which are left out.
- Text.IsDigit: `\d` and `int()` accept only ASCII digits here. Python also accepts other Unicode decimal digits (such as full-width ones) in both places.
- Text.Lower: `lower()` is ASCII lowering. That is exact for every comparison the tool makes (`odd`, `even`, `all`, `y`, the `.pdf` filter; the Hangul words have no case). It is not exact for `lower()` on arbitrary text.
- Merge.SortBy: sorting by key is proved sorted and a permutation, but the stability of `list.sort` is not stated. The insertion sort places a name after the names with an equal key, so it is stable by construction, but only sortedness is proved. Merge.MergeSaved therefore claims "an order sorted by key", not one particular order among tied names.
- Rewrite.ExtractSavedPages: does not restate the output file name. Rewrite.ExtractOutcomeMeaning states it.
- The list previews printed after a selection (`pages_to_delete[:10]`, pdfManager.py:156-209) are not modelled; they are display only.
- PageParser.TokenPages: a range token adds the set of its pages at once. The source builds `range(a, b + 1)` in memory, so a huge range such as `1-99999999999` exhausts memory (a `MemoryError` caught by the bare `except` at pdfManager.py:29, or the process is killed); the model has no memory bound.
- Text.ParseInt: Python 3.11 and later refuse, with `ValueError`, `int()` of a string of more than 4300 digits. The model reads a digit string of any length, so for such a token it selects pages where the source warns and adds nothing.
