# Land-affairs complaint dashboard: filters and key figures

The dashboard of the ombudsman's fourth main assistant unit shows land-affairs
complaint cases read from a spreadsheet. Each row is one case. It names the
reported institution (`Terlapor`, a land office), a free-text handling status
(`Status`) and a category of maladministration (`Maladministrasi`). Any of these
columns may be missing from the sheet, and any cell may be empty.

This project models the computation inside `app.py`:

- **Sidebar filters.** An institution selector offers the sentinel
  `"Semua Instansi"` ("all institutions") followed by the distinct institutions
  in ascending order. A status multi-selector offers `"Semua Status"` followed
  by the distinct statuses. The institution filter keeps the rows of the chosen
  institution, or every row for the sentinel. The status filter restricts rows
  only when the selection is non-empty and does not contain its sentinel. Each
  filter applies only when the sheet has its column.
- **Key figures** over the filtered view, computed only when that view is
  non-empty:
  - the total;
  - the closed cases, whose status contains `Selesai` or `Tutup` ignoring case
    (an empty cell is not closed);
  - the cases in process;
  - the number of distinct categories;
  - the completion percentage;
  - the five most reported institutions behind the bar chart.

Files:

- `wrappers.dfy`: `Option`, for empty cells, and the present values of a column.
- `seqs.dfy`: boolean-mask selection (`Filter`), with lemmas. The kept rows are
  a subsequence of the input, and every kept value keeps its multiplicity.
- `text.dfy`: substring search and case-insensitive (ASCII) substring search,
  each proved equal to an independent position-based definition. Also Python's
  code-point ordering of strings and `sorted(set(...))`.
- `records.dfy`: records, the column-presence schema and the two sentinels.
- `filters.dfy`: the option lists, the two filters and their composition.
- `metrics.dfy`: the closed and in-process counts, the distinct categories, the
  value counts and top-5 selection, and the summary of the key figures.

When the filtered view is empty the dashboard computes no figure at all and shows
a notice instead; `Summarize` returns `None` there, so no percentage is ever taken
over zero cases. The bar chart lists up to five institutions by count, not a single
most frequent one. An institution cell that literally reads `"Semua Instansi"`
cannot be singled out: choosing that option always means every institution.

The whole model is pure: a pandas frame becomes a `seq<Record>` plus a `Schema`
of column flags. Boolean-mask selection becomes `Filter`, and `len`, `nunique`
and `value_counts` become counts over the sequence.

## Model

| member | source | states |
|---|---|---|
| Filters.InstansiOptions | app.py:116-117 | only with a Terlapor column: the sentinel first, then strictly ascending names, and a name is listed iff some row reports that institution |
| Filters.StatusOptions | app.py:133-134 | only with a Status column: the sentinel first, then strictly ascending statuses, and a status is listed iff some row has it |
| Filters.FilterInstansi | app.py:123-126 | the sentinel keeps the input unchanged; otherwise exactly the rows whose Terlapor equals the choice, each with its multiplicity; always a subsequence of the input |
| Filters.FilterStatus | app.py:140-141 | an empty selection or one holding the sentinel keeps the input unchanged; otherwise exactly the rows whose Status is one of the chosen, each with its multiplicity; always a subsequence |
| Filters.ApplyFilters | app.py:116-143 | the view keeps the sheet's columns and, in order and with multiplicity, exactly the rows passing each filter whose column exists; a filter without its column restricts nothing |
| Filters.OfferedInstansiIsNonEmpty | app.py:117-126 | choosing a listed institution with no active status filter gives a non-empty view |
| Seqs.Filter | app.py:124 | a boolean-mask selection is no longer than its input and every selected element satisfies the mask |
| Seqs.FilterIsSubsequence | app.py:124 | a boolean-mask selection keeps rows in their order and invents none |
| Seqs.FilterMultiplicity | app.py:124 | a selected value keeps all its occurrences; an unselected value has none |
| Seqs.FilterComplement | app.py:161-162 | selections by a mask and by its negation together have as many rows as the input |
| Seqs.FilterSize | app.py:157-162 | a selection is empty iff the mask holds nowhere, and whole iff it holds everywhere |
| Seqs.FilterAll | app.py:124 | a mask true on every row keeps the whole frame |
| Seqs.IsSubsequenceReflexive | app.py:126 | the unfiltered frame is a subsequence of itself |
| Seqs.SubsequenceTransitive | app.py:124-141 | a subsequence of a subsequence is a subsequence, so chaining the two filters keeps row order |
| Text.ContainsIff | app.py:161 | substring search succeeds iff the pattern occurs at some position |
| Text.ContainsIgnoreCaseIff | app.py:161 | case-insensitive search succeeds iff at some position every character equals the pattern's up to ASCII case |
| Text.LexLessTransitive | app.py:117 | the ordering used by `sorted` on strings is transitive |
| Text.LexLessTotal | app.py:117 | any two different strings are ordered one way or the other |
| Text.LexLessIrreflexive | app.py:117 | no string is below itself |
| Text.SortedDistinct | app.py:117 | the result is strictly ascending, holds exactly the input's values and is no longer than the input |
| Text.StrictlySortedIsDistinct | app.py:117 | a strictly ascending list holds no value twice |
| Metrics.IsClosed | app.py:161 | a case is closed iff its status is present and contains `Selesai` or `Tutup` ignoring case at some position |
| Metrics.ClosedCount | app.py:159-164 | at most the total; 0 without a Status column; with it, the number of rows in a selection holding exactly the closed rows, each with its multiplicity, 0 iff no case is closed and the total iff every case is |
| Metrics.InProcessCount | app.py:162-165 | at most the total; the total without a Status column; with it, the number of rows in a selection holding exactly the rows not closed, each with its multiplicity, 0 iff every case is closed and the total iff none is |
| Metrics.ClosedPlusInProcess | app.py:157-165 | closed plus in process equals the total; without a Status column closed is 0 and in process is the total |
| Metrics.CategorySet | app.py:169 | a category is in the set iff some row has it; the set is no larger than the row count |
| Metrics.DistinctCategories | app.py:168-171 | with the column, the number of distinct non-empty category values over the rows, which is 0 exactly when every category cell is empty; 0 without the column; at most the total |
| Metrics.Occurrences | app.py:189 | an institution's count is its multiplicity in the Terlapor column: at most the total, and at least 1 iff some row reports it |
| Metrics.ValueCounts | app.py:189 | one tally per distinct reported institution, no institution twice, each with its exact row count |
| Metrics.MaxIndex | app.py:189 | the first position whose count is at least every other count |
| Metrics.TopN | app.py:189 | takes n tallies, or all of them when fewer |
| Metrics.TopNFromInput | app.py:189 | every selected tally comes from the input, and the largest count comes first |
| Metrics.TopNDominates | app.py:189 | no tally left out has a larger count than a selected one |
| Metrics.TopNDistinct | app.py:189 | from tallies of distinct institutions, each institution is selected at most once |
| Metrics.TalliesAreExact | app.py:189 | tallies taken from the value counts carry their institution's exact, positive row count |
| Metrics.TopTerlapor | app.py:189 | min(5, number of institutions) bars, no institution twice, counts non-increasing, each bar with its institution's exact positive row count |
| Metrics.TopTerlaporDominates | app.py:189 | a reported institution with no bar has no more rows than any bar |
| Metrics.Summarize | app.py:156-171 | the figures exist exactly when the filtered view is non-empty |
| Metrics.SummarizeSpec | app.py:156-189 | the cards show the closed count, the in-process count and the distinct categories, the percentage is 100 * closed over the total, and with a Terlapor column the chart holds the top-5 tallies; closed plus in process is the total; the percentage has a positive divisor and lies in [0, 100], 0 iff nothing is closed and 100 iff nothing is in process; the defaults hold for missing columns; the chart exists iff the Terlapor column does |
| Metrics.ExampleStatuses | app.py:161 | "Selesai" and "Tutup" are closing statuses, "Proses" is not |
| Metrics.ExampleMasks | app.py:161-162 | on statuses "Selesai", "Proses", "Tutup" the closed mask keeps the first and third case and the negated mask keeps the second |
| Metrics.ThreeCaseExample | app.py:161-176 | statuses "Selesai", "Proses", "Tutup" give 2 closed, 1 in process and a completion of 200/3 percent |

## Left out

- Page configuration, CSS, the sidebar logo, titles and warnings: presentation only.
- Loading the Excel file, `st.cache_data`, and halting on a load error: file I/O and framework caching. The model starts from an already loaded `Frame`.
- The widgets themselves: the chosen institution and statuses are parameters of `ApplyFilters`.
- The bar and pie charts, the table view and the CSV download: rendering and serialisation are done by foreign libraries. Only the top-5 counting behind the bar chart is modelled.
- Metrics.TopN: pandas `nlargest` takes the first of equal counts. The model says nothing about which of several equal counts is taken, or in what order equal counts are listed.
- Metrics.Summarize: the percentage is an exact fraction `Ratio(100 * closed, total)`. Floating-point division and the one-decimal `:.1f` formatting are not modelled.
- Metrics.IsClosed: case-insensitive matching is ASCII case folding. Python's Unicode case-insensitive regular expressions also match a few non-ASCII letters against ASCII ones (for example the dotted capital I and the long s); those are not modelled. Only the two literal alternatives of the pattern are modelled, not general regular expressions.
- Filters.InstansiOptions, Filters.StatusOptions: empty cells are left out of the option lists. In `app.py`, `unique()` keeps a NaN, and `sorted` raises a TypeError when NaN is mixed with strings. That crash is not modelled.
- Metrics.ClosedCount, Metrics.InProcessCount, Metrics.Summarize: when the Status column holds no text cell at all (every cell empty, which pandas reads as a float column, or every cell numeric), `.str.contains` at app.py:161 raises an AttributeError and the page stops before any figure is shown. The model does not capture that crash: with every status empty it gives 0 closed, every case in process and a summary.
- Cells are strings or empty. A numeric or other non-string cell would be compared or case-folded by Python's own rules; that is not modelled. A Status column that mixes text with empty or non-string cells makes `sorted` at app.py:134 raise a TypeError before the figures at app.py:161 are computed, so `na=False` never takes effect there; the model instead treats such a cell as not closed.
- Geocoding, rate limiting, overdue detection, date-range filtering, free-text search and monthly trends are not in `app.py` and are not modelled.
