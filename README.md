# Fuzzy item-name matcher — Dafny model

The repository is a small Streamlit tool for comparing product names. The user uploads two tables, picks one column from each, and sets a threshold. The tool then lists every pair of rows whose names share at least that many distinct characters. All of the logic is in `fuzzy_match_items` (app.py:7-23). It walks the cross product of the two columns in nested order. It skips any pair where a cell is not a string (a number, a pandas NaN). For a text pair it intersects the two character sets, and it emits a record when the intersection has at least `length` characters. Each record holds both row positions, both original texts, the size of the intersection and the shared characters joined into a string.

`fuzzy_match.dfy` (module `FuzzyMatch`) models that function:

- `Cell = Str(s) | Other` is one cell of a column. `Other` stands for every value that is not text.
- `MatchRecord` is one output row: `df1Index`, `df2Index`, `df1Value`, `df2Value`, `sharedCount` (相同字數) and `sharedChars` (共同字元).
- `Common(a, b)` is `set(a) & set(b)`. `SharedChars(a, b)` lists that set without repeats, as `''.join(...)` does.
- `Matches` is the specification of the result. It is defined row by row from `PairMatch`, `RowMatches` and `MatchesUpTo`.
- `FuzzyMatchItems` is the function itself: two nested `while` loops that append to `matched`. It has the source's default threshold of 4 and is proved equal to `Matches`.
- The properties are proved about `Matches` against independent definitions: the predicate `Reports` (what a record must say about its pair), the match rule `Qualifies`, and the set of accepted index pairs `QualifyingPairs`.

`fuzzy_match_items` does not guard thresholds ≤ 0; only the slider at app.py:47 limits the threshold to 1-10. `''.join` of a `set` has no fixed character order. The model follows the code: `length` is any `int`, with no precondition, and the character order is a modelling choice (see below).

## Model

| member | source | states |
|---|---|---|
| FuzzyMatch.FuzzyMatchItems | app.py:7-23 | The nested loop over both columns returns exactly `Matches`. Every record describes a qualifying pair faithfully, the records are in nested (i, j) order, and there are as many records as qualifying pairs. |
| FuzzyMatch.PairMatchSpec | app.py:12-22 | One pair yields at most one record. It yields one exactly when both cells are text and their character sets share at least `length` characters. The record carries positions (i, j) and satisfies `Reports`. |
| FuzzyMatch.SharedCharsSpec | app.py:13-21 | The joined shared-character text has no repeated character. Its characters are exactly `set(a) & set(b)`. Its length equals the size of that set, so the reported count is the intersection size, with repeated characters counted once. |
| FuzzyMatch.MatchesSound | app.py:10-21 | Every record has in-bounds indices and holds the original texts at those indices. Its count equals the size of the intersection and is at least `length`, and its shared-character text is repeat-free and spells exactly the intersection. |
| FuzzyMatch.MatchesMembership | app.py:10-22 | Pair (i, j) is reported if and only if both indices are in bounds, both cells are text, and the intersection has at least `length` characters. |
| FuzzyMatch.MatchesOrdered | app.py:10-15 | Records follow nested iteration order: by first index, then by second index, strictly. So no pair is reported twice. |
| FuzzyMatch.MatchesCount | app.py:10-22 | The number of records equals the number of (i, j) pairs the match rule accepts. |
| FuzzyMatch.NonTextNeverMatches | app.py:12 | A reported pair never involves a cell that is not text. Such cells are skipped and do not fail the call. |
| FuzzyMatch.MatchesEmpty | app.py:8-11 | If either column is empty, the result is empty. |
| FuzzyMatch.MatchesSwap | app.py:12-21 | Swapping the two columns reports the same pairs with the indices swapped, because the character-set intersection is symmetric. The two records of a swapped pair have the same count and the same set of shared characters. |
| FuzzyMatch.CommonBound | app.py:13-14 | Two texts share no more distinct characters than either text has characters. |
| FuzzyMatch.MatchedValuesLongEnough | app.py:13-14 | Both texts of every record are at least `length` characters long. A text shorter than the threshold never matches anything. |
| FuzzyMatch.AppleJuiceExample | app.py:7-23 | In the model, "蘋果汁" against "蘋果汽水" at threshold 2 gives exactly one record: positions (0, 0), count 2, shared characters "蘋果". "蘋果" is the model's order; Python may give "果蘋". |

## Left out

- Streamlit interface (app.py:28-60): the page title, the file uploaders, the column select boxes, the threshold slider (range 1-10), the button, the success and error messages and the table display. These are I/O and user interface.
- File loading (app.py:38-39): `pd.read_excel` / `pd.read_csv` and choosing one by file extension. These are calls into a library and file I/O.
- CSV export with a UTF-8 byte-order mark (app.py:56-57). This is serialisation done by a library.
- Building the `DataFrame` from the list of dicts (app.py:23). The result is modelled as the `seq<MatchRecord>` it is built from.
- Column lookup `df1[col1]` / `df2[col2]`, its `KeyError`, and the catch-all `except` that shows it (app.py:59-60). The two columns are the model's inputs, as `seq<Cell>`.
- The kind of a non-text value. Numbers, NaN and every other non-`str` value become `Other`, because the code only asks whether a value is a `str`.
- FuzzyMatch.SharedChars: Python joins the characters of a `set`, so their order depends on the per-process string hash seed. The model fixes one order, first occurrence in the first text. The general contracts (`SharedCharsSpec`, `MatchesSound`, `PairMatchSpec`) state only what holds for any order: no repeats, and exactly the shared characters. The two example lemmas `AppleJuiceShared` and `AppleJuiceExample` pin the model's order ("蘋果"), where Python may equally produce "果蘋".
- Python strings are sequences of code points, and a Dafny `char` is a Unicode scalar value. Strings that contain lone surrogates are not modelled.
