# Chunked CSV extraction of the SULA plotting scripts

Two plotting scripts each have a function `extract_countries_and_values`. It reads a CSV file chunk by chunk and narrows every chunk with pandas: `isin` selections, `drop_duplicates`, `dropna`, `to_numeric`, and a `groupby(...).agg('first')`. It then folds the grouped rows into a dictionary that maps each country to a list of `(label, value)` pairs. Any exception caught while reading gives `{}`.

- **Education and income** (module `EducationIncome`): the labels are education levels. Only women and the year 2020 count. An optional income column restricts the rows to the bracket "above 100% of median income", compared after `strip()` and `lower()`. A pair is appended only when its country does not list that label yet, so the first value seen wins.
- **Life expectancy** (module `LifeExpectancy`): the labels are sexes. An optional `choose` keeps one sex only. Every grouped row is appended, with no uniqueness check.

Shared modules:
- `Text` models Python's `str` ordering, `strip()` and `lower()`.
- `Frame` models the pandas operations as sequence functions over rows of optional cells.
- `Results` models the insertion-ordered dictionary and the outcome of the chunked reader.

Each script's pipeline is layered:
- The per-chunk pipeline is a chain of functions ending in `Grouped`.
- The two loops that mutate `result` are methods, `MergeChunk` and `ExtractCountriesAndValues`. They are proved equal to the functions `MergeGroups` and `Extract`.
- The invariants the source promises are lemmas about those functions.

The cell that `pd.to_numeric` converts is a parameter `parse: string -> Option<V>` over an arbitrary value type `V`. A missing value (`NaN`) is `None`.

Two behaviours of the code to note:
- A group whose values are all missing still produces a grouped row, with a missing value: pandas' `'first'` skips missing values but keeps the group.
- In the education script, the first `drop_duplicates` (line 35) runs before `dropna` and before the income test. Its key leaves the income out. So a row of another income bracket hides a later row of the wanted bracket that has the same country, level and value. `EducationIncome.ShadowedByOtherBracket` and `EducationIncome.QualifierAfterDedup` state this.

## Model

| member | source | states |
|---|---|---|
| Text.StrLess | sula_plot/.ipynb_checkpoints/plot_education_and_income-checkpoint.py:52 | Python's `<` on `str`, by which pandas sorts the group keys: code point by code point, a proper prefix first |
| Text.StrLessIrreflexive | sula_plot/.ipynb_checkpoints/plot_education_and_income-checkpoint.py:52 | no string sorts before itself, so the groupby key order is strict |
| Text.StrLessTransitive | sula_plot/.ipynb_checkpoints/plot_education_and_income-checkpoint.py:52 | the string order used to sort groupby keys is transitive |
| Text.StrLessTotal | sula_plot/.ipynb_checkpoints/plot_education_and_income-checkpoint.py:52 | of two different strings one sorts first, so the groupby keys are totally ordered |
| Text.IsSpace | sula_plot/.ipynb_checkpoints/plot_education_and_income-checkpoint.py:48 | the whitespace set of `str.strip()`: space, tab to carriage return and the separators 0x1C–0x1F (ASCII only) |
| Text.TrimLeft | sula_plot/.ipynb_checkpoints/plot_education_and_income-checkpoint.py:48 | the result of `lstrip()` is no longer than its input and does not start with whitespace |
| Text.TrimRight | sula_plot/.ipynb_checkpoints/plot_education_and_income-checkpoint.py:48 | the result of `rstrip()` is a prefix of its input and does not end with whitespace |
| Text.Trim | sula_plot/.ipynb_checkpoints/plot_education_and_income-checkpoint.py:48 | the result of `strip()` is no longer than its input and has no whitespace at either end |
| Text.TrimLeftSplits | sula_plot/.ipynb_checkpoints/plot_education_and_income-checkpoint.py:48 | `lstrip()` removes exactly a whitespace prefix |
| Text.TrimRightSplits | sula_plot/.ipynb_checkpoints/plot_education_and_income-checkpoint.py:48 | `rstrip()` removes exactly a whitespace suffix |
| Text.TrimSplits | sula_plot/.ipynb_checkpoints/plot_education_and_income-checkpoint.py:48 | every string is its stripped core between two runs of whitespace |
| Text.TrimLeftSkips | sula_plot/.ipynb_checkpoints/plot_education_and_income-checkpoint.py:48 | a whitespace prefix has no effect on `lstrip()` |
| Text.TrimRightSkips | sula_plot/.ipynb_checkpoints/plot_education_and_income-checkpoint.py:48 | a whitespace suffix has no effect on `rstrip()` |
| Text.TrimLeftAppend | sula_plot/.ipynb_checkpoints/plot_education_and_income-checkpoint.py:48 | `lstrip()` of a concatenation leaves the second part untouched unless the first part is all whitespace |
| Text.TrimRightKeeps | sula_plot/.ipynb_checkpoints/plot_education_and_income-checkpoint.py:48 | `rstrip()` keeps a string that does not end with whitespace |
| Text.TrimPadded | sula_plot/.ipynb_checkpoints/plot_education_and_income-checkpoint.py:48 | stripping a whitespace-free-ended string padded with whitespace gives that string back |
| Text.TrimIgnoresPadding | sula_plot/.ipynb_checkpoints/plot_education_and_income-checkpoint.py:48 | added whitespace at either end never changes what `strip()` returns |
| Text.LowerChar | sula_plot/.ipynb_checkpoints/plot_education_and_income-checkpoint.py:48 | lower-casing a character keeps it whitespace exactly when it was |
| Text.Lower | sula_plot/.ipynb_checkpoints/plot_education_and_income-checkpoint.py:48 | `str.lower()` applied character by character; its properties are `LowerAppend` and `LowerTrimCommute` |
| Text.LowerAppend | sula_plot/.ipynb_checkpoints/plot_education_and_income-checkpoint.py:48 | `lower()` distributes over concatenation |
| Text.LowerTrimLeft | sula_plot/.ipynb_checkpoints/plot_education_and_income-checkpoint.py:48 | `lower()` commutes with `lstrip()` |
| Text.LowerTrimRight | sula_plot/.ipynb_checkpoints/plot_education_and_income-checkpoint.py:48 | `lower()` commutes with `rstrip()` |
| Text.LowerTrimCommute | sula_plot/.ipynb_checkpoints/plot_education_and_income-checkpoint.py:48 | `.strip().lower()` equals `.lower().strip()` |
| Text.Normalize | sula_plot/.ipynb_checkpoints/plot_education_and_income-checkpoint.py:48 | `.str.strip().str.lower()` of one income cell |
| Text.NormalizeInsensitive | sula_plot/.ipynb_checkpoints/plot_education_and_income-checkpoint.py:48 | cells that differ only in letter case and surrounding whitespace normalise alike |
| Frame.IsIn | sula_plot/.ipynb_checkpoints/plot_education_and_income-checkpoint.py:29-32 | `Series.isin` on one cell: a missing cell is in no list |
| Frame.ToNumeric | sula_plot/.ipynb_checkpoints/plot_education_and_income-checkpoint.py:44 | `pd.to_numeric(errors='coerce')` on one cell: the parser's result, and missing for a missing cell |
| Frame.Filter | sula_plot/.ipynb_checkpoints/plot_education_and_income-checkpoint.py:29-32 | a boolean-mask selection keeps exactly the rows that pass, never adds one, and keeps none that fails |
| Frame.FilterAppend | sula_plot/.ipynb_checkpoints/plot_education_and_income-checkpoint.py:29-32 | a selection works row by row, so it distributes over concatenated rows |
| Frame.FilterSkipsRejected | sula_plot/.ipynb_checkpoints/plot_education_and_income-checkpoint.py:29-32 | a row the mask rejects, wherever it stands, does not affect the selection |
| Frame.FilterSingle | sula_plot/.ipynb_checkpoints/plot_education_and_income-checkpoint.py:29-32 | a one-row frame is kept exactly when its row passes |
| Frame.MapAppend | sula_plot/.ipynb_checkpoints/plot_education_and_income-checkpoint.py:44 | a conversion distributes over concatenated rows |
| Frame.FilterMap | sula_plot/.ipynb_checkpoints/plot_education_and_income-checkpoint.py:29-48 | converting rows commutes with a selection that reads only unconverted cells |
| Frame.DropDuplicates | sula_plot/.ipynb_checkpoints/plot_education_and_income-checkpoint.py:35 | `drop_duplicates(subset=...)` returns rows of its input with pairwise different keys, one for every key present; their order is stated by `Frame.DropDuplicatesAppend` |
| Frame.DropDuplicatesKeepsFirst | sula_plot/.ipynb_checkpoints/plot_education_and_income-checkpoint.py:35 | the first row with a given key is kept |
| Frame.DistinctKeysOnly | sula_plot/.ipynb_checkpoints/plot_education_and_income-checkpoint.py:35 | after deduplication a key identifies one kept row |
| Frame.DropDuplicatesSingle | sula_plot/.ipynb_checkpoints/plot_education_and_income-checkpoint.py:35 | a one-row frame has no duplicates to drop |
| Frame.DropDuplicatesMap | sula_plot/.ipynb_checkpoints/plot_education_and_income-checkpoint.py:35-50 | converting rows commutes with deduplication on a key the conversion keeps |
| Frame.KeyInAppend | sula_plot/.ipynb_checkpoints/plot_education_and_income-checkpoint.py:35 | a key occurs in concatenated rows exactly when it occurs in one part |
| Frame.DropDuplicatesSnoc | sula_plot/.ipynb_checkpoints/plot_education_and_income-checkpoint.py:35 | one more row is kept exactly when no kept row has its key |
| Frame.DropDuplicatesKeys | sula_plot/.ipynb_checkpoints/plot_education_and_income-checkpoint.py:35 | deduplication keeps every key of its input and adds none |
| Frame.DropDuplicatesAppend | sula_plot/.ipynb_checkpoints/plot_education_and_income-checkpoint.py:35 | deduplication keeps input order: the result for `a + b` is the result for `a` followed by the deduplicated rows of `b` whose key `a` lacks, in `b`'s order |
| Frame.KeyOf | sula_plot/.ipynb_checkpoints/plot_education_and_income-checkpoint.py:52 | the group key of a row, missing when either key cell is missing, since `groupby` drops such rows |
| Frame.KeyLess | sula_plot/.ipynb_checkpoints/plot_education_and_income-checkpoint.py:52 | the order in which `groupby` sorts its (country, label) keys: by country, then by label, each by `Text.StrLess` |
| Frame.KeyLessIrreflexive | sula_plot/.ipynb_checkpoints/plot_education_and_income-checkpoint.py:52 | the (country, label) order of the groupby is irreflexive |
| Frame.KeyLessTransitive | sula_plot/.ipynb_checkpoints/plot_education_and_income-checkpoint.py:52 | the (country, label) order of the groupby is transitive |
| Frame.KeyLessTotal | sula_plot/.ipynb_checkpoints/plot_education_and_income-checkpoint.py:52 | the (country, label) order of the groupby is total |
| Frame.InsertKey | sula_plot/.ipynb_checkpoints/plot_education_and_income-checkpoint.py:52 | inserting a key into a sorted key list keeps it strictly sorted and adds exactly that key |
| Frame.GroupKeys | sula_plot/.ipynb_checkpoints/plot_education_and_income-checkpoint.py:52 | the group keys are strictly sorted and are exactly the keys of rows with no missing key cell (`dropna=True`) |
| Frame.FirstValue | sula_plot/.ipynb_checkpoints/plot_education_and_income-checkpoint.py:53 | `'first'` is missing exactly when every value of the group is, and otherwise is the earliest present value of the group |
| Frame.GroupFirst | sula_plot/.ipynb_checkpoints/plot_education_and_income-checkpoint.py:51-55 | the grouped result is sorted by key, has one row per key present, and each row's value is its group's first non-missing value |
| Frame.GroupFirstOnePerKey | sula_plot/.ipynb_checkpoints/plot_education_and_income-checkpoint.py:51-55 | no two grouped rows share a key |
| Frame.GroupFirstSingle | sula_plot/.ipynb_checkpoints/plot_education_and_income-checkpoint.py:51-55 | one row with both key cells present groups to itself |
| Frame.GroupFirstDistinct | sula_plot/.ipynb_checkpoints/plot_education_and_income-checkpoint.py:51-55 | the grouped keys are pairwise distinct |
| Frame.GroupFirstSource | sula_plot/.ipynb_checkpoints/plot_education_and_income-checkpoint.py:51-55 | each grouped row has a row of its key behind it, and a present value is that of such a row |
| Results.HasLabel | sula_plot/.ipynb_checkpoints/plot_education_and_income-checkpoint.py:67 | `any(edu[0] == label for edu in result[country])` |
| Results.AddEntry | sula_plot/.ipynb_checkpoints/plot_education_and_income-checkpoint.py:63-68 | creating or appending to one key's list leaves every other key alone, keeps the insertion order, and keeps the dictionary well formed |
| Results.ExtendsReflexive | sula_plot/.ipynb_checkpoints/plot_education_and_income-checkpoint.py:63-68 | "only appends" holds of a dictionary and itself |
| Results.ExtendsTransitive | sula_plot/.ipynb_checkpoints/plot_education_and_income-checkpoint.py:63-68 | "only appends" composes over successive merges |
| Results.AddEntryExtends | sula_plot/.ipynb_checkpoints/plot_education_and_income-checkpoint.py:63-68 | one insertion or append only appends |
| EducationIncome.Selected | sula_plot/.ipynb_checkpoints/plot_education_and_income-checkpoint.py:26-32 | the four `isin` selections: accepted country and level, `Sex` is `Female`, period 2020 |
| EducationIncome.Complete | sula_plot/.ipynb_checkpoints/plot_education_and_income-checkpoint.py:38-41 | `dropna` on the level, the value and, with an income column, the income |
| EducationIncome.Qualified | sula_plot/.ipynb_checkpoints/plot_education_and_income-checkpoint.py:47-48 | the bracket test, applied only with an income column: the stripped, lower-cased cell is the bracket name |
| EducationIncome.TextKey | sula_plot/.ipynb_checkpoints/plot_education_and_income-checkpoint.py:35 | the `subset=[countries, education_type, column_values]` of the first `drop_duplicates`, the value still text |
| EducationIncome.NumericKey | sula_plot/.ipynb_checkpoints/plot_education_and_income-checkpoint.py:44-50 | the same subset in the second `drop_duplicates`, the value converted by `pd.to_numeric` |
| EducationIncome.Unique | sula_plot/.ipynb_checkpoints/plot_education_and_income-checkpoint.py:29-35 | the rows left after the selections and the first deduplication come from the chunk and pass the four selections |
| EducationIncome.Cleaned | sula_plot/.ipynb_checkpoints/plot_education_and_income-checkpoint.py:38-48 | the rows left after `dropna` and the bracket test come from the chunk and pass every test |
| EducationIncome.Survivors | sula_plot/.ipynb_checkpoints/plot_education_and_income-checkpoint.py:29-50 | the rows that reach the groupby come from the chunk and pass every test, including female, 2020 and the bracket |
| EducationIncome.Grouped | sula_plot/.ipynb_checkpoints/plot_education_and_income-checkpoint.py:50-55 | one chunk's `chunk_result`; its properties are stated by `GroupedOnePerKey`, `GroupedSource` and `GroupedComplete` |
| EducationIncome.ToKeyed | sula_plot/.ipynb_checkpoints/plot_education_and_income-checkpoint.py:44-55 | the surviving rows as the `groupby` sees them: country, level and converted value; used by `Grouped` |
| EducationIncome.GroupedOnePerKey | sula_plot/.ipynb_checkpoints/plot_education_and_income-checkpoint.py:50-55 | a chunk's grouped result has one row per (country, level), with the first non-missing value among that pair's surviving rows |
| EducationIncome.GroupedSource | sula_plot/.ipynb_checkpoints/plot_education_and_income-checkpoint.py:29-55 | every grouped row goes back to a row of the chunk that passes every test, and a present value is that row's converted value |
| EducationIncome.UniqueKeeps | sula_plot/.ipynb_checkpoints/plot_education_and_income-checkpoint.py:29-35 | a selected row with no earlier selected row of the same country, level and value text survives the first deduplication |
| EducationIncome.CleanedKeeps | sula_plot/.ipynb_checkpoints/plot_education_and_income-checkpoint.py:38-48 | such a row, passing every test, also survives `dropna` and the bracket test |
| EducationIncome.GroupedComplete | sula_plot/.ipynb_checkpoints/plot_education_and_income-checkpoint.py:29-55 | a row that passes every test, with no earlier selected row of the same country, level and value text, has its (country, level) grouped |
| EducationIncome.Extract | sula_plot/.ipynb_checkpoints/plot_education_and_income-checkpoint.py:73-81 | a read that raises any of the three caught errors gives the empty dictionary, with nothing kept from earlier chunks |
| EducationIncome.MergeGroup | sula_plot/.ipynb_checkpoints/plot_education_and_income-checkpoint.py:57-68 | one pass of the inner loop: create the list, append when the label is absent, or leave the dictionary alone |
| EducationIncome.MergeGroups | sula_plot/.ipynb_checkpoints/plot_education_and_income-checkpoint.py:57-68 | the inner loop as a fold over one chunk's grouped rows; its properties are the `MergeGroups*` lemmas |
| EducationIncome.MergeAll | sula_plot/.ipynb_checkpoints/plot_education_and_income-checkpoint.py:23-68 | the outer loop as a fold over the chunks; its properties are the `MergeAll*` lemmas |
| EducationIncome.MergeChunk | sula_plot/.ipynb_checkpoints/plot_education_and_income-checkpoint.py:57-68 | the inner loop computes the fold `MergeGroups` of one chunk's grouped rows |
| EducationIncome.MergeAllSnoc | sula_plot/.ipynb_checkpoints/plot_education_and_income-checkpoint.py:23-68 | one more pass of the outer loop merges one more chunk's grouped rows |
| EducationIncome.ExtractCountriesAndValues | sula_plot/.ipynb_checkpoints/plot_education_and_income-checkpoint.py:7-81 | the function returns `Extract` of its chunks and read outcome |
| EducationIncome.MergeGroupsExtends | sula_plot/.ipynb_checkpoints/plot_education_and_income-checkpoint.py:57-68 | merging one chunk only appends and keeps the dictionary well formed |
| EducationIncome.MergeGroupsAppend | sula_plot/.ipynb_checkpoints/plot_education_and_income-checkpoint.py:57-68 | merging two runs of grouped rows is merging one after the other |
| EducationIncome.MergeGroupsPrefix | sula_plot/.ipynb_checkpoints/plot_education_and_income-checkpoint.py:57-68 | later rows of a chunk only append to what its earlier rows built |
| EducationIncome.MergeAllExtends | sula_plot/.ipynb_checkpoints/plot_education_and_income-checkpoint.py:23-68 | after any number of chunks, later chunks only append: keys keep their order and each list keeps its earlier pairs as a prefix |
| EducationIncome.ExtendsKeepsLabel | sula_plot/.ipynb_checkpoints/plot_education_and_income-checkpoint.py:63-68 | a label listed for a country stays listed |
| EducationIncome.ExtendsKeepsEntry | sula_plot/.ipynb_checkpoints/plot_education_and_income-checkpoint.py:63-68 | a pair listed for a country stays listed |
| EducationIncome.MergeGroupsUnique | sula_plot/.ipynb_checkpoints/plot_education_and_income-checkpoint.py:63-68 | the `any(...)` check keeps every country's labels pairwise distinct |
| EducationIncome.MergeAllUnique | sula_plot/.ipynb_checkpoints/plot_education_and_income-checkpoint.py:63-68 | after every chunk, no country lists a label twice |
| EducationIncome.MergeGroupsSource | sula_plot/.ipynb_checkpoints/plot_education_and_income-checkpoint.py:57-68 | a pair after merging was there before or is a grouped row of the chunk |
| EducationIncome.MergeAllSource | sula_plot/.ipynb_checkpoints/plot_education_and_income-checkpoint.py:23-68 | every pair of the result is a grouped row of some chunk |
| EducationIncome.MergeGroupsHasLabel | sula_plot/.ipynb_checkpoints/plot_education_and_income-checkpoint.py:63-68 | after a chunk is merged, each of its grouped rows has its label listed for its country |
| EducationIncome.MergeAllComplete | sula_plot/.ipynb_checkpoints/plot_education_and_income-checkpoint.py:23-68 | every (country, level) grouped in any chunk is listed in the result |
| EducationIncome.MergeGroupsKeepsAbsent | sula_plot/.ipynb_checkpoints/plot_education_and_income-checkpoint.py:63-68 | a country lacks a label until a grouped row with that key is merged |
| EducationIncome.MergeAllLacks | sula_plot/.ipynb_checkpoints/plot_education_and_income-checkpoint.py:23-68 | no chunk before the `i`-th grouped a key, so the dictionary built before that chunk lacks it |
| EducationIncome.MergeGroupsFirstSeen | sula_plot/.ipynb_checkpoints/plot_education_and_income-checkpoint.py:63-68 | a pair whose label its country lacks is stored as grouped |
| EducationIncome.MergeAllFirstSeen | sula_plot/.ipynb_checkpoints/plot_education_and_income-checkpoint.py:23-68 | such a pair survives all later chunks unchanged |
| EducationIncome.ExtractSound | sula_plot/.ipynb_checkpoints/plot_education_and_income-checkpoint.py:26-68 | every key is an accepted country, every label an accepted level, and every pair goes back to a row of a chunk for a woman, for 2020, complete and, with an income column, in the wanted bracket; a non-empty result means the read did not fail |
| EducationIncome.ExtractShape | sula_plot/.ipynb_checkpoints/plot_education_and_income-checkpoint.py:29-68 | the keys are accepted countries, each once (their insertion order is stated by `EducationIncome.MergeAllExtends`), every list is non-empty, and no country lists a label twice |
| EducationIncome.GroupedChunksPrefix | sula_plot/.ipynb_checkpoints/plot_education_and_income-checkpoint.py:23-55 | the grouping of the first `n` chunks is the first `n` groupings |
| EducationIncome.GroupedChunksSnoc | sula_plot/.ipynb_checkpoints/plot_education_and_income-checkpoint.py:23-55 | reading one more chunk adds exactly its grouped result after those of the earlier chunks |
| EducationIncome.ExtractAppends | sula_plot/.ipynb_checkpoints/plot_education_and_income-checkpoint.py:23-71 | the dictionary built from the first `n` chunks is extended, never altered, by the rest |
| EducationIncome.ExtractFirstSeenWins | sula_plot/.ipynb_checkpoints/plot_education_and_income-checkpoint.py:57-68 | the pair stored for a (country, level) is the one of the first chunk that grouped it |
| EducationIncome.ExtractComplete | sula_plot/.ipynb_checkpoints/plot_education_and_income-checkpoint.py:57-68 | every (country, level) grouped in some chunk is listed |
| EducationIncome.ExtractListsContributing | sula_plot/.ipynb_checkpoints/plot_education_and_income-checkpoint.py:23-68 | a row of a chunk that passes every test, with no earlier selected row of the same country, level and value text in its chunk, has its level listed for its country |
| EducationIncome.MergeGroupsNoop | sula_plot/.ipynb_checkpoints/plot_education_and_income-checkpoint.py:63-68 | grouped rows whose label their country already lists change nothing |
| EducationIncome.MergeAllRepeat | sula_plot/.ipynb_checkpoints/plot_education_and_income-checkpoint.py:63-68 | merging an already-merged chunk's grouped rows again changes nothing |
| EducationIncome.ExtractIgnoresRepeatedChunk | sula_plot/.ipynb_checkpoints/plot_education_and_income-checkpoint.py:63-68 | a chunk read a second time leaves the result unchanged |
| EducationIncome.UnselectedRowIgnored | sula_plot/.ipynb_checkpoints/plot_education_and_income-checkpoint.py:26-32 | a row of another country, level, sex or year has no effect on its chunk's grouped result, whatever its other cells |
| EducationIncome.ExtractIgnoresUnselected | sula_plot/.ipynb_checkpoints/plot_education_and_income-checkpoint.py:26-32 | removing such a row from any chunk leaves the returned dictionary unchanged |
| EducationIncome.IncomeUnreadCleared | sula_plot/.ipynb_checkpoints/plot_education_and_income-checkpoint.py:24-48 | without an income column the income cell takes no part in the pipeline |
| EducationIncome.ToKeyedIgnoresIncome | sula_plot/.ipynb_checkpoints/plot_education_and_income-checkpoint.py:51-55 | the rows the `groupby` sees carry no income cell, so clearing it changes nothing there |
| EducationIncome.IncomeUnreadWithoutColumn | sula_plot/.ipynb_checkpoints/plot_education_and_income-checkpoint.py:38-48 | without an income column, chunks that differ only in income cells group the same way, so no bracket filter applies |
| EducationIncome.QualifierSpellings | sula_plot/.ipynb_checkpoints/plot_education_and_income-checkpoint.py:48 | any income cell that lower-cases to the bracket name, with any whitespace padding, passes the bracket test |
| EducationIncome.QualifierNormal | sula_plot/.ipynb_checkpoints/plot_education_and_income-checkpoint.py:48 | the bracket name is "above 100% of median income" and is its own normal form |
| EducationIncome.CapitalisedSpelling | sula_plot/.ipynb_checkpoints/plot_education_and_income-checkpoint.py:48 | the capitalised spelling "Above 100% of median income" lower-cases to the bracket name |
| EducationIncome.WantedBracketContributes | sula_plot/.ipynb_checkpoints/plot_education_and_income-checkpoint.py:29-48 | a row for Austria and a listed level whose income cell is the bracket name capitalised and padded with spaces passes every test |
| EducationIncome.OtherBracketRejected | sula_plot/.ipynb_checkpoints/plot_education_and_income-checkpoint.py:48 | the same row with the income cell "Below 100% of median income" fails the bracket test |
| EducationIncome.SingleRowSurvives | sula_plot/.ipynb_checkpoints/plot_education_and_income-checkpoint.py:29-50 | a one-row chunk whose row passes every test reaches the groupby |
| EducationIncome.SingleRowGrouped | sula_plot/.ipynb_checkpoints/plot_education_and_income-checkpoint.py:29-55 | such a chunk groups to that row, its value converted |
| EducationIncome.ShadowedUnique | sula_plot/.ipynb_checkpoints/plot_education_and_income-checkpoint.py:35 | of two selected rows with the same country, level and value text, the first deduplication keeps the first |
| EducationIncome.ShadowedByOtherBracket | sula_plot/.ipynb_checkpoints/plot_education_and_income-checkpoint.py:35-48 | a row of another bracket followed by a row of the wanted bracket with the same country, level and value leaves nothing to group, although the second row alone is grouped |
| EducationIncome.QualifierAfterDedup | sula_plot/.ipynb_checkpoints/plot_education_and_income-checkpoint.py:35-55 | the same, on those two concrete rows for Austria |
| LifeExpectancy.Selected | sula_plot/.ipynb_checkpoints/plot_of_life_expectancy-checkpoint.py:28-35 | the `isin` selections: accepted country and age group, period 2020, and the sex `choose` when it is not empty |
| LifeExpectancy.DedupKey | sula_plot/.ipynb_checkpoints/plot_of_life_expectancy-checkpoint.py:37-42 | the deduplication key after conversion: country and converted value, and the sex when `choose` is set |
| LifeExpectancy.Survivors | sula_plot/.ipynb_checkpoints/plot_of_life_expectancy-checkpoint.py:28-42 | the rows that reach the groupby come from the chunk and pass the selections: accepted country and age group, 2020, and the sex `choose` when set |
| LifeExpectancy.Grouped | sula_plot/.ipynb_checkpoints/plot_of_life_expectancy-checkpoint.py:44-48 | one chunk's `chunk_result`; its properties are stated by `GroupedOnePerKey`, `GroupedSource` and `GroupedComplete` |
| LifeExpectancy.ToKeyed | sula_plot/.ipynb_checkpoints/plot_of_life_expectancy-checkpoint.py:37-48 | the surviving rows as the `groupby` sees them: country, sex and converted value; used by `Grouped` |
| LifeExpectancy.GroupedOnePerKey | sula_plot/.ipynb_checkpoints/plot_of_life_expectancy-checkpoint.py:39-48 | a chunk's grouped result has one row per (country, sex), with the first non-missing value among that pair's surviving rows |
| LifeExpectancy.GroupedSource | sula_plot/.ipynb_checkpoints/plot_of_life_expectancy-checkpoint.py:28-48 | every grouped row goes back to a selected row of the chunk, and a present value is that row's converted value |
| LifeExpectancy.SurvivorsKeep | sula_plot/.ipynb_checkpoints/plot_of_life_expectancy-checkpoint.py:28-42 | a selected row with no earlier selected row of the same deduplication key reaches the groupby |
| LifeExpectancy.GroupedComplete | sula_plot/.ipynb_checkpoints/plot_of_life_expectancy-checkpoint.py:28-48 | such a row with its sex cell present has its (country, sex) grouped |
| LifeExpectancy.SameValueOtherSexDropped | sula_plot/.ipynb_checkpoints/plot_of_life_expectancy-checkpoint.py:39-42 | without `choose`, a later row of the same country with the same converted value is dropped even when it is for another sex |
| LifeExpectancy.Extract | sula_plot/.ipynb_checkpoints/plot_of_life_expectancy-checkpoint.py:62-70 | a read that raises any of the three caught errors gives the empty dictionary, with nothing kept from earlier chunks |
| LifeExpectancy.MergeGroup | sula_plot/.ipynb_checkpoints/plot_of_life_expectancy-checkpoint.py:50-58 | one pass of the inner loop: create the list or append, unconditionally |
| LifeExpectancy.MergeGroups | sula_plot/.ipynb_checkpoints/plot_of_life_expectancy-checkpoint.py:50-58 | the inner loop as a fold over one chunk's grouped rows; its properties are `MergeGroupsContents` and `MergeGroupsExtends` |
| LifeExpectancy.MergeAll | sula_plot/.ipynb_checkpoints/plot_of_life_expectancy-checkpoint.py:24-58 | the outer loop as a fold over the chunks; its properties are `MergeAllContents` and `MergeAllExtends` |
| LifeExpectancy.MergeChunk | sula_plot/.ipynb_checkpoints/plot_of_life_expectancy-checkpoint.py:50-58 | the inner loop computes the fold `MergeGroups` of one chunk's grouped rows |
| LifeExpectancy.MergeAllSnoc | sula_plot/.ipynb_checkpoints/plot_of_life_expectancy-checkpoint.py:24-58 | one more pass of the outer loop merges one more chunk's grouped rows |
| LifeExpectancy.ExtractCountriesAndValues | sula_plot/.ipynb_checkpoints/plot_of_life_expectancy-checkpoint.py:7-70 | the function returns `Extract` of its chunks and read outcome |
| LifeExpectancy.EntriesOfSnoc | sula_plot/.ipynb_checkpoints/plot_of_life_expectancy-checkpoint.py:50-58 | one more grouped row adds its pair to its own country's entries only |
| LifeExpectancy.MergeGroupList | sula_plot/.ipynb_checkpoints/plot_of_life_expectancy-checkpoint.py:55-58 | one pass of the inner loop appends the pair to its country's list, creating the key if new, and leaves other lists alone |
| LifeExpectancy.MergeGroupsContents | sula_plot/.ipynb_checkpoints/plot_of_life_expectancy-checkpoint.py:50-58 | merging a chunk appends exactly that chunk's grouped pairs for each country, in order |
| LifeExpectancy.MergeAllContents | sula_plot/.ipynb_checkpoints/plot_of_life_expectancy-checkpoint.py:24-58 | a country's list is all of its grouped pairs, chunk after chunk, and it is a key exactly when it has one |
| LifeExpectancy.AllEntriesCount | sula_plot/.ipynb_checkpoints/plot_of_life_expectancy-checkpoint.py:50-58 | the number of those pairs is the number of grouped rows for the country summed over the chunks |
| LifeExpectancy.MergeGroupsExtends | sula_plot/.ipynb_checkpoints/plot_of_life_expectancy-checkpoint.py:55-58 | merging one chunk only appends and keeps the dictionary well formed |
| LifeExpectancy.MergeAllExtends | sula_plot/.ipynb_checkpoints/plot_of_life_expectancy-checkpoint.py:24-58 | later chunks only append: keys keep their order and each list keeps its earlier pairs as a prefix |
| LifeExpectancy.EntrySource | sula_plot/.ipynb_checkpoints/plot_of_life_expectancy-checkpoint.py:50-58 | every pair of the result is a grouped row of some chunk |
| LifeExpectancy.AllEntriesSource | sula_plot/.ipynb_checkpoints/plot_of_life_expectancy-checkpoint.py:50-58 | every pair collected for a country is a grouped row of some chunk for that country |
| LifeExpectancy.AllEntriesComplete | sula_plot/.ipynb_checkpoints/plot_of_life_expectancy-checkpoint.py:50-58 | every grouped row of every chunk is among its country's collected entries |
| LifeExpectancy.ExtractSound | sula_plot/.ipynb_checkpoints/plot_of_life_expectancy-checkpoint.py:28-58 | every key is an accepted country; with `choose` set every label is `choose`; every pair goes back to a row of a chunk for an accepted age group and 2020; a non-empty result means the read did not fail |
| LifeExpectancy.ExtractShape | sula_plot/.ipynb_checkpoints/plot_of_life_expectancy-checkpoint.py:29-56 | the keys are accepted countries, each once (their insertion order is stated by `LifeExpectancy.MergeAllExtends`), and no list is empty |
| LifeExpectancy.ExtractContents | sula_plot/.ipynb_checkpoints/plot_of_life_expectancy-checkpoint.py:50-58 | each country's list is every grouped pair for it over all chunks, its length is their total count, and a country is a key exactly when that count is positive |
| LifeExpectancy.ExtractListsSelected | sula_plot/.ipynb_checkpoints/plot_of_life_expectancy-checkpoint.py:24-58 | a selected row of a chunk with its sex cell present and no earlier selected row of the same deduplication key in its chunk has its sex listed for its country |
| LifeExpectancy.GroupedChunksPrefix | sula_plot/.ipynb_checkpoints/plot_of_life_expectancy-checkpoint.py:24-48 | the grouping of the first `n` chunks is the first `n` groupings |
| LifeExpectancy.ExtractAppends | sula_plot/.ipynb_checkpoints/plot_of_life_expectancy-checkpoint.py:24-60 | the dictionary built from the first `n` chunks is extended, never altered, by the rest |
| LifeExpectancy.ExtractRepeatedChunk | sula_plot/.ipynb_checkpoints/plot_of_life_expectancy-checkpoint.py:55-58 | with no uniqueness check, a chunk read again appends its grouped pairs a second time |
| LifeExpectancy.UnselectedRowIgnored | sula_plot/.ipynb_checkpoints/plot_of_life_expectancy-checkpoint.py:28-35 | a row of another country, age group, year, or sex than `choose` has no effect on its chunk's grouped result |
| LifeExpectancy.ExtractIgnoresUnselected | sula_plot/.ipynb_checkpoints/plot_of_life_expectancy-checkpoint.py:28-35 | removing such a row from any chunk leaves the returned dictionary unchanged |

## Left out

- Reading the file: `pd.read_csv` with its delimiter, encoding, `usecols`, `chunksize` and `on_bad_lines='skip'` is library I/O. The chunks are given as a sequence of rows, restricted to the columns read, and a failure as one of three error kinds after the chunks yielded so far.
- Type inference by `read_csv`: the period column is taken as an integer column and every other cell as text, a missing cell as `None`. Two consequences are not modelled:
  - When pandas reads the value column as numbers, the first `drop_duplicates` of the education script (line 35) compares numbers, so `"42.5"` and `"42.50"` are duplicates there. The model compares the text and keeps both, which can change which rows the shadowing drops.
  - A chunk whose income cells are all empty is read as a float column. Then `.str` at line 48 raises, and the whole call returns `{}`. The model never produces that outcome.
- `pd.to_numeric(errors='coerce')`: its parsing is the parameter `parse`, and a cell it cannot convert, or a missing one, becomes `None`. No float value or `NaN` arithmetic is modelled; `NaN` keys compare equal to each other in `drop_duplicates`, as `None == None`.
- `strip()` and `lower()`: only ASCII whitespace and ASCII letters are modelled; Unicode whitespace and case mapping are not.
- `solve_data` and everything else of matplotlib rendering, the `print` calls in the handlers, and the module-level script code with its hard-coded lists and calls are not part of this model.
- The life-expectancy parameter `age_value_life_expectancy` is annotated `str` but used as a list of accepted age groups; it is modelled as a sequence.
- LifeExpectancy.Survivors: the deduplication is applied to the rows before conversion, keyed on the converted value; this is equivalent to converting first, but the model does not hold the converted cell in the row.
- The result dictionary is a value (`Mapping`) that the loops rebuild, not a Python object shared by reference; aliasing of the lists is not modelled.
