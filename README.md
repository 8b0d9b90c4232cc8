# Grouped frequency counts: milkweed projects and animal bites

This project models the two analyses of the `data_processed` scripts as Dafny.
Each analysis is a grouped frequency count.

- **Milkweed projects by neighbourhood** (`count_milkweed_by_neighborhood`,
  `process_json_file`). It walks the decoded JSON list and keeps the records
  whose `MILKWEED` value is truthy in Python's sense. Each kept record is keyed
  by `str(NEIGHBORHOOD).strip()`, provided the value is not `None` and not blank.
  The keys are counted, and the counts are written as a report.
- **Animal bites by ward** (`analyze_by_ward`, `process_csv_file`). It walks the
  CSV data rows. Only rows whose logical line number (header = line 1) is above
  3900 are considered. `int(float(row["WARD"]))` is kept when it lies in 1..14.
  A `KeyError` or `ValueError` skips that row only. Any other exception discards
  the whole result.

Both analyses hand their key list to `Counter` and then to
`dict(sorted(items, key=count))`. The model splits that step in two:

- `Frequency.Tally` is the counter, in first-occurrence order.
- `Frequency.SortByCount` is a stable insertion sort by count.

`Frequency.StableSortUnique` proves that any stable ascending sort gives the same
sequence, so the choice of sorting algorithm does not matter.

Layout:

- `py_text.dfy` (module `PyText`) covers Python's `str.strip()` (with its
  whitespace set written out), `str()` of integers, and the file text that a
  sequence of written strings makes.
- `frequency.dfy` (module `Frequency`) holds the pipeline shared by both
  analyses. A per-record `Outcome` is `Counted(key)`, `Skipped` or `Aborted`.
  `Collect` is the list-building scan; the counter and the stable sort follow
  it. The module also proves the general theorems.
- `process_json.dfy` (module `MilkweedJson`) holds the JSON value type, `Truthy`
  and the milkweed scan. It also has the methods mirroring the two functions of
  the script, and the report.
- `process_csv.dfy` (module `BitesCsv`) holds the abstract `WARD` outcome,
  truncation toward zero and the row scan. It also has the methods mirroring the
  two functions of the script, and the report.

The loops of `count_milkweed_by_neighborhood`, `analyze_by_ward`,
`process_json_file` and `process_csv_file` are methods with loop invariants. Their `ensures` ties
each method to a specification function (`MilkweedCounts`, `WardCounts`,
`MilkweedReport`, `WardReport`). The lemmas state the promised properties about
those functions.

Behaviour notes, following the code:

- Truthiness is Python's. Besides absent, `null`, `false`, `0`, `0.0` and `""`,
  an empty list and an empty object are also falsy (`MilkweedJson.FalsyValues`).
- A missing file, invalid JSON, a non-list root and an empty list all give the
  same empty result. So does a list element that is not an object: its `.get`
  raises `AttributeError`, which the generic handler catches. The returned value
  does not tell a load failure from "nothing found".
- Equal counts are ordered by the first appearance of each key. This is not the
  order in which keys reached that count (`Frequency.TieOrderIsFirstAppearance`).

## Model

| member | source | states |
|---|---|---|
| `PyText.IsSpace` | data_processed/jarred_process_json.py:117-119 | the whitespace set of Python's `str.isspace()` written out; what `strip()` does with it is stated by `Strip`, `StripDecomposition` and `StripIgnoresPadding` |
| `PyText.Strip` | data_processed/jarred_process_json.py:117-119 | `strip()` yields text that neither starts nor ends with whitespace; it is empty exactly when the input is all whitespace |
| `PyText.StripDecomposition` | data_processed/jarred_process_json.py:119 | the input is the stripped text with whitespace before and after it |
| `PyText.StripIgnoresPadding` | data_processed/jarred_process_json.py:119 | whitespace added around a text does not change its stripped form |
| `PyText.StripIdempotent` | data_processed/jarred_process_json.py:119 | stripping twice is stripping once |
| `PyText.PaddedShawStripped` | data_processed/jarred_process_json.py:119 | `" Shaw ".strip()` is `"Shaw"` |
| `PyText.ConcatLinesInjective` | data_processed/jarred_process_json.py:162-168 | file texts made of whole lines determine the lines they were written from |
| `PyText.NatText` | data_processed/jarred_process_json.py:166 | the rendered count is a non-empty run of decimal digits without a leading zero |
| `PyText.IntText` | data_processed/jarred_process_csv.py:98 | the rendered ward starts with `-` exactly when it is negative |
| `PyText.IntTextRoundTrip` | data_processed/jarred_process_csv.py:98 | reading the decimal text of an integer back gives the integer |
| `PyText.IntTextInjective` | data_processed/jarred_process_csv.py:98 | different integers render as different texts |
| `Frequency.Tally` | data_processed/jarred_process_json.py:128 | `Counter(list)` in insertion order; its contract is `TallyKeys`, `TallyCounts`, `TallyOrder` and `TallySum` |
| `Frequency.Insert` | data_processed/jarred_process_json.py:131 | inserting one entry adds exactly that entry (multiset) and its count to the total |
| `Frequency.SortByCount` | data_processed/jarred_process_json.py:131 | the sort result ascends by count, is a permutation of its input, keeps the total, and keeps the input order among entries of each count (stable) |
| `Frequency.StableSortUnique` | data_processed/jarred_process_csv.py:69 | two count-sorted sequences with the same entries of every count, in the same order, are equal, so any stable sort gives this result |
| `Frequency.TallyKeys` | data_processed/jarred_process_json.py:128 | `Counter` holds each distinct key of the list exactly once, and no other key |
| `Frequency.TallyCounts` | data_processed/jarred_process_csv.py:66 | each key's count is its number of occurrences in the list |
| `Frequency.TallyOrder` | data_processed/jarred_process_json.py:128 | `Counter`'s items follow the first occurrence of each key in the list |
| `Frequency.TallySum` | data_processed/jarred_process_csv.py:66 | the counts add up to the length of the list |
| `Frequency.CountSorted` | data_processed/jarred_process_json.py:127-131 | `dict(sorted(Counter(list).items(), key=count))`; its contract is `CountSortedSpec` and `CountSortedEmptyIff` |
| `Frequency.CountSortedSpec` | data_processed/jarred_process_json.py:127-131 | count-then-sort gives distinct keys, exactly the list's elements, with their multiplicities; the total is the list length; counts ascend; ties follow first occurrence |
| `Frequency.CountSortedEmptyIff` | data_processed/jarred_process_csv.py:65-69 | the sorted counts are empty exactly when the key list is empty |
| `Frequency.TieKeepsFirstAppearance` | data_processed/jarred_process_csv.py:69 | two keys seen once each stay in the order they appeared |
| `Frequency.TieOrderIsFirstAppearance` | data_processed/jarred_process_json.py:128-131 | for keys `x, y, y, x` the tie lists `x` first, the order of first appearance, although `y` reached 2 first |
| `Frequency.Collect` | data_processed/jarred_process_json.py:107-143 | the list-building scan gives no list (the handler's `{}`) exactly when some record raises an uncaught error; what the list holds is stated by `CollectCounts` and `CollectFirstSeen` |
| `Frequency.CollectCounts` | data_processed/jarred_process_csv.py:55-57 | the gathered list has one key per contributing record, each key as often as records contribute it, and only those keys |
| `Frequency.CollectEmptyIff` | data_processed/jarred_process_csv.py:48-63 | no key is gathered exactly when no record contributes |
| `Frequency.CollectFirstSeen` | data_processed/jarred_process_json.py:120 | the first-occurrence order of keys in the gathered list is that of the records contributing them |
| `Frequency.CollectDropSkipped` | data_processed/jarred_process_csv.py:58-63 | a skipped record can be removed without changing what the scan gathers |
| `Frequency.CollectSkippedPrefix` | data_processed/jarred_process_csv.py:52 | a leading block of skipped records changes nothing |
| `Frequency.FrequencyOfOutcomes` | data_processed/jarred_process_json.py:107-133 | a scan with no abort yields distinct keys that are exactly the contributed ones; each count is the number of records giving that key and at least 1; the total is the number of contributing records; counts ascend; ties follow the first contributing record |
| `MilkweedJson.Truthy` | data_processed/jarred_process_json.py:109-112 | Python's truth value of a decoded JSON value; `FalsyValues` lists the falsy values exactly |
| `MilkweedJson.Text` | data_processed/jarred_process_json.py:117-119 | `str()` of a decoded JSON value: a string is itself, `None`, booleans and integers render as Python does; `StringNeighborhood` and `PaddingIgnored` state its use on names |
| `MilkweedJson.ClassifyProject` | data_processed/jarred_process_json.py:107-122 | a non-dict element aborts; a record counts only with a truthy `MILKWEED` and a non-`None` `NEIGHBORHOOD`, keyed by its stripped text, which is non-blank and has no outer whitespace; a truthy record is skipped only for a `None` or blank neighbourhood |
| `MilkweedJson.ProjectOutcomes` | data_processed/jarred_process_json.py:107 | the scan gives one outcome per element of the list |
| `MilkweedJson.ProjectOutcomesAt` | data_processed/jarred_process_json.py:107-122 | the outcome at each position is the classification of the element at that position |
| `MilkweedJson.ProjectAborts` | data_processed/jarred_process_json.py:107-109 | an element that is not a dict discards the whole result |
| `MilkweedJson.MilkweedCounts` | data_processed/jarred_process_json.py:76-143 | the dictionary `count_milkweed_by_neighborhood` returns; its contract is `MilkweedCountsSpec` and `MilkweedCountsEmptyIff` |
| `MilkweedJson.CountMilkweedByNeighborhood` | data_processed/jarred_process_json.py:76-143 | the loop's result equals `MilkweedCounts`: empty for a missing, undecodable or unreadable file, a non-list or empty root, or a non-dict element; otherwise the counted and stably sorted neighbourhoods |
| `MilkweedJson.MilkweedReport` | data_processed/jarred_process_json.py:162-168 | the strings `process_json_file` writes; its contract is `MilkweedReportShape`, `MilkweedReportInjective` and `MilkweedTextInjective` |
| `MilkweedJson.RenderMilkweedReport` | data_processed/jarred_process_json.py:162-168 | the writing loop produces `MilkweedReport`: the title, then one line per entry, or the single no-data line |
| `MilkweedJson.ProcessJsonFile` | data_processed/jarred_process_json.py:146-168 | the written lines are the report of the analysis result |
| `MilkweedJson.FalsyValues` | data_processed/jarred_process_json.py:109-112 | a `MILKWEED` value is falsy exactly when it is `null`/absent, `false`, `0`, `0.0`, `""`, `[]` or `{}` |
| `MilkweedJson.PaddingIgnored` | data_processed/jarred_process_json.py:114-120 | `" Shaw "` and `"Shaw"` give the same outcome for an otherwise identical record |
| `MilkweedJson.StringNeighborhood` | data_processed/jarred_process_json.py:117-120 | for a truthy record with a string neighbourhood, it is skipped exactly when the string is all whitespace and is otherwise counted under the stripped string |
| `MilkweedJson.ContributingProjects` | data_processed/jarred_process_json.py:107-120 | the contributing positions are exactly the dicts with a truthy `MILKWEED` and a non-`None`, non-blank `NEIGHBORHOOD` |
| `MilkweedJson.MilkweedCountsSpec` | data_processed/jarred_process_json.py:107-131 | for a list of dicts the result meets every frequency-report property against the per-record outcomes; every key is non-empty and already stripped |
| `MilkweedJson.MilkweedCountsEmptyIff` | data_processed/jarred_process_json.py:98-143 | the result is empty exactly when loading failed, the root is not a list, some element is not a dict, or no record contributes |
| `MilkweedJson.AbortedIff` | data_processed/jarred_process_json.py:107-109 | the scan aborts exactly when some element is not a dict |
| `MilkweedJson.SkippedProjectIrrelevant` | data_processed/jarred_process_json.py:111-122 | removing a non-contributing record does not change the result |
| `MilkweedJson.ShawExample` | data_processed/jarred_process_json.py:107-131 | records (true, "Shaw"), (false, "Shaw") and ("yes", " Shaw ") give the single entry ("Shaw", 2) |
| `MilkweedJson.MilkweedReportShape` | data_processed/jarred_process_json.py:163-168 | the report is the title, then either exactly the no-data line or one `Neighborhood '<n>': <c> projects` line per entry in result order |
| `MilkweedJson.NeighborhoodLineInjective` | data_processed/jarred_process_json.py:166 | a report line determines its neighbourhood and count |
| `MilkweedJson.MilkweedReportInjective` | data_processed/jarred_process_json.py:163-168 | different results produce different sequences of written strings |
| `MilkweedJson.NeighborhoodLineIsLine` | data_processed/jarred_process_json.py:166 | an entry string is exactly one line when the neighbourhood name holds no line break |
| `MilkweedJson.EntryTextIsNotNoData` | data_processed/jarred_process_json.py:164-168 | the entry lines of a non-empty result never spell the no-data line |
| `MilkweedJson.MilkweedTextInjective` | data_processed/jarred_process_json.py:162-168 | when no neighbourhood name holds a line break, different results write different file texts |
| `MilkweedJson.CollidingNameCounted` | data_processed/jarred_process_json.py:117-120 | a record whose neighbourhood is `"a': 1 projects\nNeighborhood 'b"` is counted under that name, line break included |
| `MilkweedJson.MilkweedTextCollision` | data_processed/jarred_process_json.py:162-168 | that one-record result and the result `[("a", 1), ("b", 1)]` differ but write the same file text |
| `MilkweedJson.NoDataIsNotALine` | data_processed/jarred_process_json.py:166-168 | no entry line equals the no-data line |
| `BitesCsv.Truncate` | data_processed/jarred_process_csv.py:55 | `int()` of a finite number is the integer next to it on the side of zero: for `x >= 0` it is the largest integer at most `x`, for `x < 0` the smallest integer at least `x` |
| `BitesCsv.ClassifyRowSpec` | data_processed/jarred_process_csv.py:48-63 | a row aborts exactly when the reader fails on it or, past line 3900, `WARD` raises something other than a `KeyError` or `ValueError`; readable rows up to line 3900 are skipped; a counted row is past line 3900 and its ward is the truncated value, in 1..14 |
| `BitesCsv.ClassifyRow` | data_processed/jarred_process_csv.py:48-63 | what one row does to the scan; its contract is `ClassifyRowSpec` |
| `BitesCsv.RowOutcomesFrom` | data_processed/jarred_process_csv.py:48 | the scan gives one outcome per row |
| `BitesCsv.RowOutcomesAt` | data_processed/jarred_process_csv.py:48-63 | the outcome at each position is the classification of the row at that position, with its own index |
| `BitesCsv.WardCounts` | data_processed/jarred_process_csv.py:32-78 | the dictionary `analyze_by_ward` returns; its contract is `WardCountsSpec` and `WardCountsEmptyIff` |
| `BitesCsv.ScanWards` | data_processed/jarred_process_csv.py:48-63 | the loop yields the gathered ward list, or no list once an uncaught error occurs, as `Collect` of the row outcomes |
| `BitesCsv.AnalyzeByWard` | data_processed/jarred_process_csv.py:32-78 | the result equals `WardCounts`: empty for a missing or unopenable file or an aborted scan; otherwise the counted and stably sorted wards |
| `BitesCsv.WardReport` | data_processed/jarred_process_csv.py:94-100 | the strings `process_csv_file` writes; its contract is `WardReportShape`, `WardReportInjective` and `WardTextInjective` |
| `BitesCsv.RenderWardReport` | data_processed/jarred_process_csv.py:94-100 | the writing loop produces `WardReport`: the title, then one line per entry, or the single no-data line |
| `BitesCsv.ProcessCsvFile` | data_processed/jarred_process_csv.py:81-100 | the written lines are the report of the analysis result |
| `BitesCsv.WardAcceptedIff` | data_processed/jarred_process_csv.py:55-59 | past line 3900 a numeric ward counts exactly when it is at least 1 and below 15 before truncation, so 1 and 14 count and 0 and 15 do not |
| `BitesCsv.BoundaryRows` | data_processed/jarred_process_csv.py:48-52 | line 3900 (index 3898) is skipped whatever it holds; line 3901 (index 3899) is read |
| `BitesCsv.ClassifyShift` | data_processed/jarred_process_csv.py:52 | past line 3900 the row's position does not affect its outcome |
| `BitesCsv.RowOutcomesShift` | data_processed/jarred_process_csv.py:48-52 | past line 3900, where a block of rows starts does not change its outcomes |
| `BitesCsv.EarlyRowsSkipped` | data_processed/jarred_process_csv.py:52 | every readable row up to line 3900 is skipped |
| `BitesCsv.CountedRows` | data_processed/jarred_process_csv.py:48-59 | the contributing positions are exactly the rows past line 3900 with a numeric ward that truncates into 1..14 |
| `BitesCsv.NoAbort` | data_processed/jarred_process_csv.py:60-63 | without an unreadable row and without a failing `WARD` past line 3900, nothing aborts the scan |
| `BitesCsv.CountedWardsInRange` | data_processed/jarred_process_csv.py:56-57 | every ward a row contributes is in 1..14 |
| `BitesCsv.WardCountsSpec` | data_processed/jarred_process_csv.py:48-69 | for a scan without abort the result meets every frequency-report property against the row outcomes, and every key is in 1..14 |
| `BitesCsv.EarlyRowsIgnored` | data_processed/jarred_process_csv.py:52 | readable rows up to line 3900 never affect the result, whatever their `WARD` |
| `BitesCsv.CollectAfterEarlyRows` | data_processed/jarred_process_csv.py:48-52 | the scan gathers only what the rows after the readable early block give |
| `BitesCsv.SkippedRowIrrelevant` | data_processed/jarred_process_csv.py:55-63 | removing a skipped row past line 3900 (missing column, non-number, out of range) does not change the result |
| `BitesCsv.RowAborts` | data_processed/jarred_process_csv.py:73-78 | an unreadable row, or a failing `WARD` past line 3900, empties the result and discards every count gathered so far |
| `BitesCsv.WardCountsEmptyIff` | data_processed/jarred_process_csv.py:42-78 | the result is empty exactly when the file could not be opened, some row aborts, or no row contributes |
| `BitesCsv.ThresholdExample` | data_processed/jarred_process_csv.py:48-69 | wards 3, 3, 5, 3 on lines 3899 to 3902 give `[(5, 1), (3, 1)]` |
| `BitesCsv.WardReportShape` | data_processed/jarred_process_csv.py:95-100 | the report is the title, then either exactly the no-data line or one `Ward <w>: <c> bites` line per entry in result order |
| `BitesCsv.WardLineInjective` | data_processed/jarred_process_csv.py:98 | a report line determines its ward and count |
| `BitesCsv.WardReportInjective` | data_processed/jarred_process_csv.py:95-100 | different results produce different sequences of written strings |
| `BitesCsv.WardLineIsLine` | data_processed/jarred_process_csv.py:98 | an entry string is exactly one line |
| `BitesCsv.EntryTextIsNotNoData` | data_processed/jarred_process_csv.py:96-100 | the entry lines of a non-empty result never spell the no-data line |
| `BitesCsv.WardTextInjective` | data_processed/jarred_process_csv.py:94-100 | different results write different file texts |

## Left out

- File opening, reading and writing, `pathlib` paths, `mkdir` and the `__main__` entry point. A report is returned as a sequence of lines, each ending in its `"\n"`.
- `json.load` and `csv.DictReader` tokenisation. The input is the decoded JSON value, or one abstract `WARD` outcome per data row. A file that cannot be found, decoded or read is one constructor of the source type.
- Decimal and float parsing in `int(float(row["WARD"]))`. `WardField` carries the parsed finite number, `NotANumber` (a `ValueError`, including `nan`), `NoColumn` (a `KeyError`) or `Fault` (any other exception, such as `TypeError` on `None` or `OverflowError` on an infinity). Truncation toward zero is modelled on that number.
- MilkweedJson.Text: Python's `str()` of floats, lists and dicts is the parameter `render`, not computed. `str()` of `None`, booleans, integers and strings is computed.
- JSON `NaN` and `Infinity` (which `json.load` accepts): `JFloat` holds a real, so these truthy values are not represented.
- The logger calls. Skipped rows and records are not reported as diagnostics, and load failures are not told apart from an empty result, as the value `count_milkweed_by_neighborhood` and `analyze_by_ward` return does not tell them apart either.
- MilkweedJson.MilkweedReportInjective: the strings written are determined by the result, but the file text is determined only when no neighbourhood name holds a line break (`MilkweedTextInjective`). `str(...).strip()` keeps inner line breaks, and `MilkweedTextCollision` shows two results that write the same text.
- Python's Timsort. It is modelled by an insertion sort, which `Frequency.StableSortUnique` shows gives the same result as any stable sort.
