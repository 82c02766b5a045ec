# papers-bibtex, modelled in Dafny

`papers-bibtex.py` builds a rudimentary BibTeX file for a LaTeX document.
It works in four steps:

1. It scans the document for `\cite{…}`, `\citet{…}` and `\citep{…}` markers.
2. It counts every comma-separated citation key it finds in the process-wide dictionary `CITEKEYS`.
3. It looks the keys up, in batches, in the `Publication` table of a Papers2 library.
4. It prints each publication found as an `@article` block.

Two helpers normalise the database's raw columns on the way:

- the packed `publication_date` code becomes a BibTeX month and year;
- the author string becomes "Last, First" form.

This project models those pieces of the script and proves what they compute.
It is organised as follows.

- `wrappers.dfy`: the `Option` and `Result` types. A Python exception is modelled as an `Err` value.
- `text.dfy`: the Python 2 string operations the script relies on: `strip()`, `split(sep)`, `split()`, `sep.join(…)` and `replace(…)`. What `strip()` and `split()` treat as whitespace depends on the string type. Citation keys come from a byte `str` read from a file, so `string.whitespace` applies. Author strings come from sqlite as `unicode`, so every character `unicode.isspace()` accepts applies, for example the no-break space U+00A0.
- `citekeys.dfy`:
  - `citekey_re` as a hand-written scanner, with `findall` as a function (`Citations`) and as a loop (`FindCitations`);
  - `extract_citekeys` as the class `CitekeyIndex`, whose `counts` map is `CITEKEYS`;
  - the counting lemmas: counts are occurrence counts, independent of order, and their total is the number of keys.
- `fields.dfy`:
  - `month_xlate` and `convert_date` with their default offsets;
  - `convert_author_style` as a function and as its loop.
- `lookup.dfy`:
  - the rows the query returns, the entry dictionary built from a row, and the query batching;
  - `lookup_citations` as a `while` loop.

  The database is a function parameter from a batch of keys to the rows returned. The dictionary an entry becomes is a map from a `Field` enumeration to possibly-NULL values.
- `bibtex.dfy`: `as_bibtex`. The order in which Python visits the dictionary is an explicit parameter that enumerates its keys.

The model follows the code as written, including its quirks.

- **Every `and` is deleted from an author string** (`str.replace("and", "")`), even inside a name. `"Alexander Grand"` becomes `"Gr, Alexer"` (`ExampleAndInsideName`).
- **The author string is split on commas only.**
  - `"Proudfoot, Nick"` gives two chunks, and so `"Proudfoot,  and Nick, "` (`ExampleSurnameFirst`).
  - `"Nick and John Smith"` is a single chunk: only the last word moves to the front, giving `"Smith, Nick John"` (`ExampleOneChunk`, an instance of `AndInOneChunk`).
  - A blank chunk, as in `"A,,B"`, makes `pieces[-1]` raise.
- **Author strings are `unicode`**, so `strip()` and `split()` treat Unicode spaces as whitespace. `"Nick\u00a0Proudfoot"`, with a no-break space, becomes `"Proudfoot, Nick"` (`ExampleNoBreakSpace`). A chunk holding only a no-break space raises (`ExampleNoBreakSpaceChunk`).
- **`month` and `year` are always keys of an entry.** They may hold the empty string: `convert_date` never returns `None`, so the `is not None` tests at lines 119 and 121 always pass.

Failures are modelled as values.

| failure | cause |
|---|---|
| `NullAuthorString` | a NULL author string (`None.replace`) |
| `EmptyAuthorChunk` | a blank author chunk (`pieces[-1]`) |
| `NullFieldValue(name)` | printing a NULL value, in practice a title or journal (`None.encode`) |
| `MissingField("citekey")` | printing a dictionary without `citekey` (`KeyError`) |

A NULL `publication_date` raises inside `convert_date`'s `try` blocks. Both are caught there, so it gives an empty month and year.

## Model

| member | source | states |
|---|---|---|
| Text.IsSpace | papers-bibtex.py:53 | the whitespace of `strip()` at line 53 and of `split()` at line 90: Python 2's `string.whitespace` for a byte `str`, and every character `unicode.isspace()` accepts for `unicode`; `PrintableNoSpace` characterises it |
| Text.Words | papers-bibtex.py:90 | the definition of `split()` without argument, with the string type's whitespace; `WordsShape`, `WordsEmpty`, `WordsCons`, `WordsSkipSpace` and `WordsJoin` characterise it |
| Text.Join | papers-bibtex.py:92-94 | the definition of `sep.join(parts)`, also used at line 143; `JoinSplit`, `WordsJoin` and `JoinPair` characterise it |
| Text.Replace | papers-bibtex.py:87 | the definition of `replace(pat, rep)`, scanning left to right without overlaps; `ReplaceAbsent`, `ReplaceKeep`, `ReplaceHit` and `DeleteMiddle` characterise it |
| Text.PrintableNoSpace | papers-bibtex.py:90 | printable ASCII other than the space is whitespace for neither string type |
| Text.Strip | papers-bibtex.py:53 | `strip()` leaves no whitespace at either end and returns an already-trimmed string unchanged |
| Text.StripSlice | papers-bibtex.py:53 | the stripped string is a contiguous part of the input with only whitespace cut from either side |
| Text.StripEmpty | papers-bibtex.py:90-91 | a chunk strips to nothing exactly when it is all whitespace |
| Text.Split | papers-bibtex.py:52 | `split(sep)` always yields at least one piece |
| Text.SplitPieces | papers-bibtex.py:52 | no piece of `split(sep)` contains the separator |
| Text.JoinSplit | papers-bibtex.py:52 | joining the pieces of a split with the separator gives back the original string |
| Text.SplitCount | papers-bibtex.py:52 | a split yields one more piece than the separator has occurrences |
| Text.SplitNone | papers-bibtex.py:87 | a string without the separator splits into itself alone |
| Text.SplitFirst | papers-bibtex.py:87 | the text before the first separator is the first piece, and the rest splits on its own |
| Text.WordEnd | papers-bibtex.py:90 | the leading run of non-whitespace ends at whitespace or at the end of the string |
| Text.WordEndIs | papers-bibtex.py:90 | the first word ends at the first whitespace character |
| Text.WordsShape | papers-bibtex.py:90 | every word of `split()` is non-empty and holds no whitespace |
| Text.WordsEmpty | papers-bibtex.py:90-91 | `split()` gives no words exactly when the string is blank |
| Text.WordsCons | papers-bibtex.py:90 | a word followed by any one whitespace character and more text is the first word of `split()` |
| Text.WordsSkipSpace | papers-bibtex.py:90 | one leading whitespace character does not change the words of `split()` |
| Text.WordsJoin | papers-bibtex.py:90-92 | words joined by single spaces split back into the same words |
| Text.ReplaceAbsent | papers-bibtex.py:87 | `replace` returns a string in which the pattern does not occur unchanged |
| Text.ReplaceKeep | papers-bibtex.py:87 | characters that cannot start the pattern are copied through by `replace` |
| Text.ReplaceHit | papers-bibtex.py:87 | an occurrence at the front is replaced and scanning resumes after it |
| Citekeys.IsMatch | papers-bibtex.py:47 | the definition of a match of `\\cite(?:t\|p)?\{(.*?)\}` at a position, with the group's bounds, stated declaratively; `MatchAtSpec` proves the scanner against it |
| Citekeys.GroupStart | papers-bibtex.py:47 | the definition of the fixed prefix `\cite`, an optional `t` or `p`, and `{`, giving where the group starts; `MarkerAt` characterises it |
| Citekeys.MatchAt | papers-bibtex.py:47 | the definition of a match of `citekey_re` at one position; `MatchAtSpec` and `StopAt` characterise it |
| Citekeys.CitationsFrom | papers-bibtex.py:47-49 | the definition of `findall` from a position on; `NoMarker` and `MarkerScanned` characterise it |
| Citekeys.Citations | papers-bibtex.py:47-49 | the definition of `citekey_re.findall(text)`; `CitationsClean`, `FindCitations` and `ExampleGroups` characterise it |
| Citekeys.StripAll | papers-bibtex.py:52-53 | the definition of stripping each comma piece, in order; `StripAllAt`, `StripAllPrefix`, `StripAllStripped` and `StripAllId` characterise it |
| Citekeys.GroupKeys | papers-bibtex.py:52-53 | the definition of the keys of one group: the stripped comma pieces; `StripAllAt` characterises it |
| Citekeys.KeysOf | papers-bibtex.py:50-53 | the definition of the keys of several groups, in order; `KeysOfLength`, `KeysOfStripped` and `KeysOfPrefix` characterise it |
| Citekeys.CitekeysIn | papers-bibtex.py:49-53 | the definition of the keys one call of `extract_citekeys` iterates: the keys of every group `findall` returns, in order; `ExampleKeys` and `ExtractCitekeys` use it |
| Citekeys.Bump | papers-bibtex.py:54-57 | the definition of one update of `CITEKEYS`: a new key gets 1, a known key one more; `TallySnoc` and `TotalBump` characterise it |
| Citekeys.Tally | papers-bibtex.py:54-57 | the definition of the counts after a run of keys; `TallyCount`, `TallyDomain`, `TallyPositive`, `TallyOrderFree` and `TallyTotal` characterise it |
| Citekeys.StopAt | papers-bibtex.py:47 | the lazy group ends at the first `}` or newline after its start, or at the end of the text |
| Citekeys.MatchAtSpec | papers-bibtex.py:47 | a match at a position exists exactly when `\cite`, an optional `t`/`p`, `{`, a run free of `}` and newlines, and `}` occur there, and that match is unique |
| Citekeys.CitationsClean | papers-bibtex.py:47-49 | no group that `findall` returns contains `}` or a newline |
| Citekeys.FindCitations | papers-bibtex.py:47-49 | the scanning loop returns exactly the groups `findall` returns |
| Citekeys.MarkerAt | papers-bibtex.py:47 | a marker is found exactly when `\cite{`, `\citet{` or `\citep{` starts at the position, with its group start |
| Citekeys.ScanGroup | papers-bibtex.py:47 | the group scan stops at the first `}` or newline |
| Citekeys.NoMarker | papers-bibtex.py:49 | where no marker starts, `findall` moves on by one character |
| Citekeys.MarkerScanned | papers-bibtex.py:47-49 | after a marker, a closing `}` records the group and resumes after it, and anything else moves on by one character |
| Citekeys.StripAllAt | papers-bibtex.py:52-53 | as many keys as comma pieces, each the stripped piece at the same position |
| Citekeys.StripAllPrefix | papers-bibtex.py:52-53 | stripping one more piece appends its stripped form |
| Citekeys.StripAllStripped | papers-bibtex.py:53 | every key has no surrounding whitespace |
| Citekeys.StripAllId | papers-bibtex.py:53 | keys that are already trimmed are kept as they are |
| Citekeys.KeysOfLength | papers-bibtex.py:50-53 | the number of keys registered is the number of comma pieces across all groups |
| Citekeys.KeysOfStripped | papers-bibtex.py:50-53 | every key registered has no surrounding whitespace |
| Citekeys.KeysOfPrefix | papers-bibtex.py:50-53 | one more group appends that group's keys |
| Citekeys.TallySnoc | papers-bibtex.py:54-57 | counting one more key bumps the count of that key |
| Citekeys.TallyAppend | papers-bibtex.py:50-57 | counting two runs of keys one after the other is counting their concatenation |
| Citekeys.TallyCount | papers-bibtex.py:54-57 | each key's count grows by its number of occurrences, and a key never seen has none |
| Citekeys.TallyDomain | papers-bibtex.py:54-55 | the dictionary's keys are the old keys plus every key seen |
| Citekeys.TallyPositive | papers-bibtex.py:55-57 | every count stays at least 1 |
| Citekeys.TallyOrderFree | papers-bibtex.py:54-57 | the counts depend only on the multiset of keys seen, not on their order |
| Citekeys.TotalBump | papers-bibtex.py:54-57 | registering one key adds one to the sum of all counts |
| Citekeys.TallyTotal | papers-bibtex.py:50-57 | the sum of all counts grows by the number of keys registered |
| Citekeys.CitekeyIndex.Valid | papers-bibtex.py:53-57 | the invariant of `CITEKEYS`: every count is at least 1 and every key is stripped; `Register`, `RegisterGroup` and `ExtractCitekeys` keep it |
| Citekeys.CitekeyIndex.constructor | papers-bibtex.py:42 | `CITEKEYS` starts empty |
| Citekeys.CitekeyIndex.Register | papers-bibtex.py:54-57 | a new key gets count 1 and a known key is incremented, keeping every count positive and every key trimmed |
| Citekeys.CitekeyIndex.RegisterGroup | papers-bibtex.py:52-57 | one group adds its stripped comma pieces to the counts, in order |
| Citekeys.CitekeyIndex.ExtractCitekeys | papers-bibtex.py:48-57 | `extract_citekeys` adds every stripped comma piece of every match to the counts |
| Citekeys.ExampleGroups | papers-bibtex.py:47-49 | `\cite{A,B} \citep{A}` has the groups `A,B` and `A` |
| Citekeys.ExampleSecondGroup | papers-bibtex.py:47-49 | the scan from the space after the first group finds only the second group |
| Citekeys.ExampleFirstMatch | papers-bibtex.py:47 | the first marker's group spans indices 6 to 9 |
| Citekeys.ExampleFirstGroup | papers-bibtex.py:47-49 | the first group of the example text is `A,B` |
| Citekeys.ExampleSplit | papers-bibtex.py:52 | `A,B` splits into `A` and `B`, and `A` into itself |
| Citekeys.ExampleGroupKeys | papers-bibtex.py:52-53 | the keys of `A,B` are `A` and `B` |
| Citekeys.KeysOfPair | papers-bibtex.py:50-53 | the keys of two groups are the first group's keys, then the second's |
| Citekeys.ExampleKeys | papers-bibtex.py:48-53 | `\cite{A,B} \citep{A}` registers `A`, `B`, `A` in that order |
| Citekeys.ExampleTally | papers-bibtex.py:54-57 | counting `A`, `B`, `A` gives `A` twice and `B` once |
| Citekeys.ExampleCounts | papers-bibtex.py:48-57 | the text `\cite{A,B} \citep{A}` leaves `A` counted twice and `B` once |
| Citekeys.EmptyKey | papers-bibtex.py:47-53 | an empty group `\cite{}` registers the empty key |
| Citekeys.NewlineEndsGroup | papers-bibtex.py:47 | a group broken by a newline does not match |
| Citekeys.TrailingComma | papers-bibtex.py:52-53 | a trailing comma registers an empty key after the others |
| Fields.Slice | papers-bibtex.py:75-79 | the definition of Python's slice `s[a:b]` for `0 <= a <= b`, both bounds clamped to the length, so the slices at lines 75 and 79 never raise; `ConvertDate` and `DateYear` characterise it |
| Fields.MonthXlate | papers-bibtex.py:65-69 | the table `month_xlate`, from `01` to `12` onto `jan` to `dec`; `MonthTable` characterises it |
| Fields.Chunks | papers-bibtex.py:87 | the definition of the chunks: delete every `and`, then split on commas; `ChunksPair` characterises it |
| Fields.SwapName | papers-bibtex.py:90-93 | the definition of one chunk's swap: no result for a blank chunk, else the last word, a comma and the other words; `SwapNameNone`, `SwapNameTokens` and `TwoWordChunk` characterise it |
| Fields.MonthTable | papers-bibtex.py:65-69 | a two-character code is a key of `month_xlate` exactly when it reads as 01 to 12, and it names that calendar month |
| Fields.ConvertDate | papers-bibtex.py:70-82 | the year has at most four characters, and a NULL date gives an empty month and year |
| Fields.DateYear | papers-bibtex.py:78-81 | the year is `pub_date[2:6]`, shorter or empty when the code is short |
| Fields.DateMonth | papers-bibtex.py:74-77 | the month is non-empty exactly when characters 6 and 7 read as a month number, and is then that month's name |
| Fields.DateExample | papers-bibtex.py:71-73 | `99200406011200000000222000` reads as `jun` and `2004` |
| Fields.SwapNames | papers-bibtex.py:89-93 | the conversion fails exactly when some chunk has no word under `unicode` whitespace, the failure is the empty-chunk one, and otherwise each chunk gives its swapped name at the same position |
| Fields.AuthorStyle | papers-bibtex.py:84-95 | a style other than `default` returns the string unchanged, and the only failure is a blank chunk |
| Fields.ConvertAuthorStyle | papers-bibtex.py:84-95 | the loop returns what `AuthorStyle` specifies, including the failure at the first blank chunk |
| Fields.SwapNamesStep | papers-bibtex.py:89-93 | one more chunk either appends its swapped name or fails on a blank chunk |
| Fields.SwapNamesFailAt | papers-bibtex.py:90-91 | any blank chunk makes the whole conversion fail |
| Fields.SwapNameNone | papers-bibtex.py:90-91 | a chunk has no last word exactly when it is blank |
| Fields.AuthorStyleFails | papers-bibtex.py:87-91 | the default style fails exactly when some comma chunk, after deleting `and`, is blank under `unicode` whitespace |
| Fields.SwapNameTokens | papers-bibtex.py:90-93 | a swapped name's words are the last word with a comma, then the other words in order |
| Fields.ChunksPair | papers-bibtex.py:87 | text without `a` or commas around one comma gives two chunks |
| Fields.SwapOneWord | papers-bibtex.py:90-93 | a one-word chunk, even after a space, becomes that word followed by `", "` |
| Fields.SwapNamesPair | papers-bibtex.py:89-93 | two chunks that name somebody give their two swapped names |
| Fields.SwapNamesSingle | papers-bibtex.py:89-93 | a single chunk that names somebody gives its swapped name |
| Fields.JoinPair | papers-bibtex.py:94 | two names are joined with the separator between them |
| Fields.SurnameFirstPair | papers-bibtex.py:84-95 | `Surname, Given` becomes `Surname, ` and ` and ` and `Given, ` |
| Fields.ExampleSurnameFirst | papers-bibtex.py:84-95 | `Proudfoot, Nick` becomes `Proudfoot,  and Nick, ` |
| Fields.TwoWordChunk | papers-bibtex.py:90-93 | a chunk of two words separated by any one whitespace character puts its last word first |
| Fields.DeleteNext | papers-bibtex.py:87 | text free of the pattern's first letter is kept and the following pattern deleted |
| Fields.DeleteTwo | papers-bibtex.py:87 | both occurrences of the pattern are deleted when no other copy of its first letter occurs |
| Fields.TwoWordAuthor | papers-bibtex.py:84-95 | a string that is two words, separated by one whitespace character, once `and` is deleted becomes `Last, First` |
| Fields.TwoAndsTwoWords | papers-bibtex.py:84-95 | two `and`s inside names are deleted before the words are swapped |
| Fields.ExampleAndInsideName | papers-bibtex.py:84-95 | `Alexander Grand` becomes `Gr, Alexer` |
| Fields.NoBreakSpaceName | papers-bibtex.py:84-95 | `Nick`, a no-break space and `Proudfoot` become `Proudfoot, Nick` |
| Fields.ExampleNoBreakSpace | papers-bibtex.py:84-95 | `Nick\u00a0Proudfoot` becomes `Proudfoot, Nick`, since the no-break space is `unicode` whitespace |
| Fields.ExampleNoBreakSpaceChunk | papers-bibtex.py:87-91 | a chunk that is only a no-break space is blank and raises |
| Fields.DeleteMiddle | papers-bibtex.py:87 | the only `and` in a string is deleted and nothing else changes |
| Fields.AndDeleted | papers-bibtex.py:87 | deleting the `and` of `first and mid last` leaves two spaces between `first` and `mid` |
| Fields.ThreeWords | papers-bibtex.py:90 | three words, the first two separated by two spaces, split into those three words |
| Fields.SwapThreeWords | papers-bibtex.py:90-93 | that chunk swaps to `last, first mid` |
| Fields.AndInOneChunk | papers-bibtex.py:84-95 | `first and mid last`, with no comma and no `a` in the words, is one chunk and becomes `last, first mid` |
| Fields.ExampleOneChunk | papers-bibtex.py:84-95 | `Nick and John Smith` becomes `Smith, Nick John` |
| Lookup.Name | papers-bibtex.py:113-128 | the definition of each field's dictionary key, as it is also printed at line 141; `NameInjective` characterises it |
| Lookup.PageRange | papers-bibtex.py:128 | the definition of `"%s--%s" % (startpage, endpage)`; `EntryPages` and `ExamplePages` characterise it |
| Lookup.RowsOf | papers-bibtex.py:109-110 | the definition of the rows the successive `c.execute` calls return, query after query; `RowsOfAppend` characterises it |
| Lookup.EntryKeys | papers-bibtex.py:113-128 | the definition of the keys an entry gets from its row; `EntryKeySet` and `EntryShape` characterise it |
| Lookup.EntryOf | papers-bibtex.py:113-128 | the definition of the dictionary built from a row and its converted author; `EntryFields`, `EntryDefined`, `EntryValues` and `EntryPages` characterise it |
| Lookup.Batches | papers-bibtex.py:104-108 | the definition of the batches of `n` keys the loop sends; `BatchesCover`, `BatchesCount`, `BatchesSlices` and `BatchesSizes` characterise it |
| Lookup.Collect | papers-bibtex.py:110-129 | the definition of the rows' entries gathered into `results`, stopping at the first failure; `CollectFails`, `CollectFirstFailure`, `CollectKeys` and `CollectLastWins` characterise it |
| Lookup.Resolve | papers-bibtex.py:97-130 | the definition of what `lookup_citations` returns; `ResolveEmpty`, `ResolveWithinKeys`, `ResolveSingle` and `LookupCitations` characterise it |
| Lookup.NameInjective | papers-bibtex.py:113-128 | distinct fields have distinct dictionary key names |
| Lookup.Min | papers-bibtex.py:105 | `take` is at most both the remaining count and `n`, and equals one of them |
| Lookup.MakeEntry | papers-bibtex.py:111-118 | building an entry fails exactly when the author string is NULL or has a blank chunk, with the matching failure, and otherwise gives the row's entry |
| Lookup.EntryFields | papers-bibtex.py:111-128 | an entry has the base keys plus `number`, `volume` and `pages` exactly when their columns are set; only title and journal may be NULL; every value comes from its column as the code computes it |
| Lookup.EntryShape | papers-bibtex.py:113-128 | the entry's keys are those `EntryKeys` names, and only title and journal may be NULL |
| Lookup.EntryKeySet | papers-bibtex.py:113-128 | the entry's keys are the base keys and the optional keys whose columns are set |
| Lookup.EntryDefined | papers-bibtex.py:113-128 | every value but title and journal is non-NULL |
| Lookup.EntryValues | papers-bibtex.py:111-128 | each value is its column, the converted author or the converted date, and the page range is `start--end` |
| Lookup.EntryPages | papers-bibtex.py:127-128 | `pages` is present exactly when both page bounds are, and is then `start--end` |
| Lookup.ExamplePages | papers-bibtex.py:127-128 | pages 272 and 278 give `272--278`, and a missing bound gives no `pages` key |
| Lookup.BuildEntry | papers-bibtex.py:111-128 | the step-by-step construction gives the entry `MakeEntry` specifies, or its failure |
| Lookup.BatchesCover | papers-bibtex.py:104-108 | the batches, concatenated, are exactly the keys in order |
| Lookup.BatchesCount | papers-bibtex.py:104-108 | there are no batches exactly when there are no keys, and the count is the least `b` with `b * n >= len(keys)` |
| Lookup.BatchesQuotient | papers-bibtex.py:104-108 | the number of queries is `(len(keys) + n - 1) / n` |
| Lookup.BatchesSlices | papers-bibtex.py:105-108 | batch `i` is `keys[i*n : i*n+n]`, clamped to the end |
| Lookup.BatchesSizes | papers-bibtex.py:105-108 | every batch but the last holds `n` keys, and the last between 1 and `n` |
| Lookup.ExampleBatches | papers-bibtex.py:97-108 | 250 keys with the default `n=100` make queries of 100, 100 and 50 keys |
| Lookup.BatchesStep | papers-bibtex.py:105-108 | one loop pass sends the next batch and leaves the batches of the remaining keys |
| Lookup.RowsOfAppend | papers-bibtex.py:104-110 | the rows of two runs of queries are the first run's rows, then the second's |
| Lookup.CollectErrPrefix | papers-bibtex.py:110-129 | once a row has raised, later rows change nothing |
| Lookup.CollectFails | papers-bibtex.py:110-129 | the lookup fails exactly when some returned row's entry fails |
| Lookup.CollectFirstFailure | papers-bibtex.py:110-129 | the failure reported is that of the first failing row, and every row before it succeeds |
| Lookup.CollectKeys | papers-bibtex.py:112-129 | the result's keys are exactly the citekeys of the rows returned |
| Lookup.CollectLastWins | papers-bibtex.py:129 | a key returned several times maps to the entry of its last row |
| Lookup.CollectCitekeyField | papers-bibtex.py:112-129 | when every row builds an entry, the lookup succeeds and every entry's `citekey` field is the key it is stored under |
| Lookup.CollectStep | papers-bibtex.py:110-129 | one more row adds its entry under its citekey, or fails with that row's failure |
| Lookup.ResolveEmpty | papers-bibtex.py:102-104 | no keys means no query and an empty result |
| Lookup.ResolveWithinKeys | papers-bibtex.py:101-129 | when the datastore returns only rows whose citekey was asked for, the result holds only requested keys |
| Lookup.ResolveSingle | papers-bibtex.py:97-130 | one key found once gives a result mapping it to its entry |
| Lookup.CollectBatch | papers-bibtex.py:110-129 | the inner `for row in c` loop adds each row's entry and stops with the first failure, as `Collect` specifies |
| Lookup.LookupCitations | papers-bibtex.py:97-130 | the loop returns what `Resolve` specifies; it sends all batches in order when it succeeds, and a prefix of them ending with the failing one when it fails, every batch before that one collecting without failure |
| Bibtex.Enumerates | papers-bibtex.py:135 | the definition of a visiting order of `for key in info`: every key of the dictionary, each once; `BibtexEntry`, `AsBibtex` and `BibtexLayout` require it of the order they are given |
| Bibtex.Header | papers-bibtex.py:134 | the definition of the `@article{key,` header line; `BibtexOfLines` and `BibtexLayout` place it |
| Bibtex.FieldLine | papers-bibtex.py:138-141 | the definition of one key's line, the title in doubled braces; `TitleLine` and `PlainLine` characterise it |
| Bibtex.FieldLines | papers-bibtex.py:135-142 | the definition of the lines of the visited keys, failing at the first NULL value; `FieldLinesOk`, `FieldLinesShape` and `FieldLinesSnoc` characterise it |
| Bibtex.BibtexEntry | papers-bibtex.py:132-145 | the definition of the block `as_bibtex` returns; `BibtexOk`, `BibtexLayout`, `LineOf` and `AsBibtex` characterise it |
| Bibtex.LineKeys | papers-bibtex.py:135-137 | the keys that give a line are visited keys other than `citekey` |
| Bibtex.AsBibtex | papers-bibtex.py:132-145 | the loop builds the block `BibtexEntry` specifies, or the failure it specifies |
| Bibtex.FieldLinesErrPrefix | papers-bibtex.py:135-142 | once a value has failed to print, later keys change nothing |
| Bibtex.LineKeysMembers | papers-bibtex.py:135-137 | a key gives a line exactly when it is visited and is not `citekey`, and no such key is listed twice |
| Bibtex.FieldLinesOk | papers-bibtex.py:135-142 | the lines print exactly when every line key is non-NULL; otherwise the failure names the first NULL key |
| Bibtex.FieldLinesShape | papers-bibtex.py:135-142 | one line per line key, in visiting order, each that key's `FieldLine` |
| Bibtex.FieldLinesSnoc | papers-bibtex.py:135-142 | a key with a value appends its line |
| Bibtex.BibtexOk | papers-bibtex.py:132-145 | the block prints exactly when `citekey` is present and no value is NULL |
| Bibtex.BibtexLayout | papers-bibtex.py:132-145 | a printed block is the header, the lines joined by `",\n"` and `"\n}"`, with one line per key but `citekey`, each key once, in visiting order |
| Bibtex.BibtexOfLines | papers-bibtex.py:143-145 | the block is the header, the joined lines and the closing brace |
| Bibtex.EntryPrints | papers-bibtex.py:111-118 | an entry built from a row prints exactly when its title and journal are non-NULL |
| Bibtex.ThreeFieldLines | papers-bibtex.py:135-142 | a citekey, title, author and year give the title, author and year lines |
| Bibtex.JoinThree | papers-bibtex.py:143 | three lines are joined with the separator between each pair |
| Bibtex.ThreeFieldBlock | papers-bibtex.py:132-145 | a record with a citekey, a title, an author and a year prints as the header, three lines and the closing brace |
| Bibtex.LineOf | papers-bibtex.py:135-142 | in a printed block, every key but `citekey` contributes its `FieldLine` to the joined lines |
| Bibtex.TitleLine | papers-bibtex.py:138-144 | a printed block holds the title as `title = {{…}}`, in doubled braces |
| Bibtex.PlainLine | papers-bibtex.py:140-144 | a printed block holds every key other than `citekey` and `title` as its name and its value in single braces |

## Left out

- The command-line program (`papers-bibtex.py:147-230`) is not modelled. It covers option parsing, configuration, file globbing and reading, opening the library and writing the output, all of which is I/O.
- The sqlite connection, the cursor and `dict_factory` (`papers-bibtex.py:59-63`) are not modelled. The datastore is a function from a batch of keys to the rows returned, in order.
- The SQL text and the quoting of keys into it are not modelled. `ResolveWithinKeys` takes "the datastore returns only requested keys" as a hypothesis about that function.
- Column values are modelled as text or NULL only. A numeric `volume` or `number` would make `as_bibtex` raise at line 141, because an integer has no `encode`. A numeric `publication_date` would make both slices in `convert_date` raise, and both are caught, giving an empty month and year. Only `pages`, built with `%s` at line 128, would come out as it does for text.
- `.encode('utf-8')` is modelled only as the NULL failure it raises. Strings are sequences of characters, with no encoding.
- Python's dictionary iteration order is not modelled. `as_bibtex` takes the visiting order as a parameter, required to enumerate the dictionary's keys once each.
- `convert_date` is modelled with its default offsets only. No caller passes other offsets.
- Lookup.LookupCitations: requires `n >= 1`. For `n <= 0` the source loop never ends on a non-empty key list, and on an empty one it returns `{}`, a case the model does not cover.
- Lookup.LookupCitations: builds each entry with the function `MakeEntry`. `BuildEntry` models the same loop body step by step as its own method.
- The globals `AUTHORS`, `JOURNALS` and `PAPERS` (`papers-bibtex.py:43-45`) are never used, and `CITEKEYS` is modelled as the `counts` field of `CitekeyIndex`.
- Citekeys.CitekeyIndex.Register: requires the key to be trimmed. Its only caller, `RegisterGroup`, passes a stripped piece, so this only records the class invariant.
- The regular expression flag `re.MULTILINE` has no effect on this pattern and is not modelled.
