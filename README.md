# cafe-dashboard loader and feedback selection, modelled in Dafny

The cafe dashboard reads a point-of-sale CSV export in which rows have different
shapes. `load_cafe_data` runs a loop that turns each raw row into a fixed six-field
row, in the order Location, Rating, Comment, TransactionDateTime, TransactionValue,
FeedbackID. The loop works from the number of present cells: 5, 6, 7 or 8. In 7-cell
rows it also repairs the date and the value. Then each column is converted to a typed
value, and a conversion failure gives NaN/NaT.

The feedback page renders ratings as stars (`draw_stars`). It counts reviews per star
rating and picks the three best and the three worst rated rows.

Files:

- `wrappers.dfy`: `Option` and `Result`.
- `text.dfy`: `str.replace(c, '')`, `str.strip()`, string repetition, and character counts.
- `decimal.dfy`: a decimal-number grammar over `real` that stands in for `float(...)` and
  `pd.to_numeric(...)`. It comes with printers for whole numbers and for cents amounts,
  and round-trip lemmas.
- `data_loader.dfy`: the reconciliation loop. The method `ReconcileRows` follows the
  code as written and is proved against the function `ReconcileAsWritten`. Beside it
  are the per-row dispatch, the 7-cell repairs, the corrected reconciler, the column
  conversions, and `LoadCafeData`, which chains the two stages.
- `feedback.dfy`: `draw_stars`, sorting by rating with NaN last, the top and bottom
  three rows, and `value_counts` with the per-rating lookup.

The pandas date parser is a parameter of type `string -> Option<Timestamp>`. The code
calls it twice: with default settings at utils/data_loader.py line 30, and day-first at
line 74. The model therefore takes two such parameters.

Where the code differs from what its docstring ("clean irregular rows") leads one to
expect, the model follows the code:

- Rows whose cell count is not 5 to 8 are not dropped. The previous row is appended
  again, or the function raises if no earlier row was recognised. See Findings.
- The final conversion removes only `$` from the value, not `,`. A value like
  `"1,234"` therefore becomes NaN (`CommaValueIsNull`).
- Every `$` is removed, not only a leading one.

## Model

| member | source | states |
|---|---|---|
| `Text.RemoveChar` | utils/data_loader.py:35 | `replace(c, '')`: the result contains no `c`, and every other character of the input is still present |
| `Text.Strip` | utils/data_loader.py:78 | `str.strip()`: the result neither starts nor ends in whitespace, it is the infix after the leading whitespace, and only whitespace follows it |
| `Text.StripIdempotent` | utils/data_loader.py:78 | stripping a stripped location changes nothing |
| `Text.Repeat` | utils/feedback.py:7-8 | Python's `c * n`: exactly `n` copies of `c`, and the empty string for `n <= 0` |
| `Decimal.ParseNumber` | utils/data_loader.py:36 | a successful parse only accepts digits, `.`, `+` and `-` |
| `Decimal.ParseNumberAccepts` | utils/data_loader.py:36 | a string parses exactly when it is an optional sign, then digits with at most one decimal point and at least one digit; `"1.2.3"`, `"+"`, `"."` and `"1-2"` are refused, so `float()` raising at that line is modelled as `None` |
| `Decimal.ParseNumberForms` | utils/data_loader.py:36 | an optional sign followed by `ddd`, `ddd.ddd`, `ddd.` or `.ddd` parses to the decimal value, negated after `-` |
| `Decimal.ParsedHasNoSeparators` | utils/data_loader.py:75 | a string that parses contains no `,` and no `$` |
| `Decimal.NatRoundTrip` | utils/data_loader.py:76-77 | a printed whole number (a rating, a feedback id) parses back to itself |
| `Decimal.CentsRoundTrip` | utils/data_loader.py:75 | a price printed as `units.cc` parses back to the amount |
| `DataLoader.Present` | utils/data_loader.py:15 | `row.dropna().tolist()`: exactly the present cells, never more than the row had |
| `DataLoader.PresentDropsGap` | utils/data_loader.py:15 | a missing cell anywhere in the row is dropped, so an empty comment shortens the row by one |
| `DataLoader.PresentComplete` | utils/data_loader.py:15 | a row with no missing cell keeps every cell, in order |
| `DataLoader.StripCurrency` | utils/data_loader.py:35 | `replace('$', '').replace(',', '')`: the result holds exactly the characters of the input other than `$` and `,` |
| `DataLoader.IsValueOutlier` | utils/data_loader.py:34-41 | a value is kept exactly when, stripped of `$` and `,`, it parses and is at most 1000 |
| `DataLoader.RepairDate` | utils/data_loader.py:30-31 | the date becomes None exactly when the default parser fails on it; otherwise it is kept as written |
| `DataLoader.ReconcileRow` | utils/data_loader.py:17-59 | every recognised shape keeps location and rating from cells 0 and 1; the comment is `""` for 5 cells and cell 2 otherwise; the feedback id is the last cell, except cell 6 of a 7-cell row; the date and value come from the row or are the repair constants |
| `DataLoader.SixCellsUnchanged` | utils/data_loader.py:17-18 | a 6-cell row is emitted unchanged, field for field |
| `DataLoader.FiveCellsEmptyComment` | utils/data_loader.py:19-27 | a 5-cell row becomes `[v0, v1, "", v2, v3, v4]` |
| `DataLoader.SevenCellsRepaired` | utils/data_loader.py:28-49 | a 7-cell row becomes `[v0, v1, v2, date', value', v6]`: cell 5 is dropped, the date is None exactly when it fails to parse, and the value is `'0'` for an outlier and the original string otherwise |
| `DataLoader.EightCellsDropMetadata` | utils/data_loader.py:50-59 | an 8-cell row becomes `[v0, v1, v2, v4, v5, v7]`, with the value passed on uncorrected |
| `DataLoader.RepairValue` | utils/data_loader.py:33-41 | the repaired value is the original string or `'0'`, and after stripping `$` and `,` it parses to at most 1000 |
| `DataLoader.RepairValueIdempotent` | utils/data_loader.py:33-41 | repairing an already repaired value changes nothing |
| `DataLoader.RepairValueDollars` | utils/data_loader.py:33-41 | a `$units.cc` price is kept as written up to and including exactly 1000.00, and becomes `'0'` above it |
| `DataLoader.ReconcileRows` | utils/data_loader.py:10-61 | the loop over `df_raw.iloc[1:]` yields exactly `ReconcileAsWritten`: header skipped, and the stale `cleaned` is appended or the error raised |
| `DataLoader.DataRows` | utils/data_loader.py:13-15 | `df_raw.iloc[1:]` with `dropna()` per row: the header row is skipped, and data row `k` is the present cells of raw row `k+1` |
| `DataLoader.ReconcileFrom` | utils/data_loader.py:17-61 | the rest of the loop from a given value of `cleaned`: it raises exactly when its first row is unrecognised and `cleaned` was never assigned; otherwise it emits one row per row |
| `DataLoader.ReconcileAsWritten` | utils/data_loader.py:13-61 | the loop raises exactly when the first data row has an unrecognised count; otherwise it emits one row per data row |
| `DataLoader.AsWrittenRows` | utils/data_loader.py:13-61 | output row `k` reconciles data row `k` when its count is recognised, and repeats output row `k-1` when it is not |
| `DataLoader.ReconcileDropping` | utils/data_loader.py:13-61 | corrected loop: the output length is the number of data rows minus the unrecognised ones, and with all counts recognised row `k` reconciles data row `k` |
| `DataLoader.ReconcileDroppingSkips` | utils/data_loader.py:13-61 | in the corrected loop an unrecognised row contributes nothing, wherever it stands |
| `DataLoader.AsWrittenAgreesWhenRecognised` | utils/data_loader.py:13-61 | when every count is 5 to 8, the loop as written and the corrected loop give the same rows |
| `DataLoader.StaleRowRepeated` | utils/data_loader.py:61 | a row with an unrecognised count (fewer than 5 or more than 8 present cells) after a 6-cell row repeats the 6-cell output, while the corrected loop emits it once |
| `DataLoader.NormaliseRow` | utils/data_loader.py:74-78 | one converted row, each field from its own cell only: the location stripped; rating and feedback id parsed as numbers, null when they do not parse; the date parsed day-first, NaT when absent or unparseable; the value parsed after removing `$`, so null when it still holds `,`; the comment unchanged |
| `DataLoader.Normalise` | utils/data_loader.py:74-78 | the column conversions keep every row, in order, and convert each one on its own |
| `DataLoader.NormaliseRoundTrip` | utils/data_loader.py:74-78 | a row of well-formed fields converts with no missing field: the numbers come back, `$` is dropped, the location is stripped |
| `DataLoader.NormaliseBadDateOnly` | utils/data_loader.py:74 | an unparseable date makes only the date NaT and leaves every other field as it was |
| `DataLoader.CommaValueIsNull` | utils/data_loader.py:75 | a value containing `,` becomes NaN, because only `$` is stripped |
| `DataLoader.SevenCellValueBounded` | utils/data_loader.py:33-75 | the final value from a 7-cell row is NaN or at most 1000 |
| `DataLoader.EightCellValueUncorrected` | utils/data_loader.py:50-75 | an 8-cell row's `$units.cc` price reaches the dataset unchanged, however large it is |
| `DataLoader.LoadCafeData` | utils/data_loader.py:3-80 | raises exactly when the first data row is unrecognised; otherwise one record per data row, the conversions applied to the loop's output; equals the conversions applied to the corrected loop when every count is recognised |
| `Feedback.Truncate` | utils/feedback.py:7 | `int(x)`: truncation toward zero |
| `Feedback.DrawStars` | utils/feedback.py:5-9 | the coloured span holds `max(0, int(rating))` filled stars, and `max(0, max_stars - int(rating))` empty stars follow it |
| `Feedback.DrawStarsCounts` | utils/feedback.py:7-8 | the markup contains exactly that many `★` and `☆` |
| `Feedback.DrawStarsTotal` | utils/feedback.py:5-8 | for `0 <= int(rating) <= max_stars` there are `max_stars` stars in all, five by default |
| `Feedback.RanksBefore` | utils/feedback.py:99-100 | the sort order: equal ratings may stand either way, a rating stands before NaN and never after it, and distinct ratings follow the requested direction |
| `Feedback.RanksBeforeTotal` | utils/feedback.py:99-100 | any two ratings are comparable |
| `Feedback.RanksBeforeTransitive` | utils/feedback.py:99-100 | the order is transitive |
| `Feedback.SortByRating` | utils/feedback.py:99-100 | `sort_values(by='Rating')`: a permutation of the rows, ordered by rating in the requested direction, with NaN last |
| `Feedback.TopFeedback` | utils/feedback.py:99 | `min(3, n)` rows taken from the data, in descending rating order, none rated below an unselected row |
| `Feedback.BottomFeedback` | utils/feedback.py:100 | `min(3, n)` rows taken from the data, in ascending rating order, none rated above an unselected row |
| `Feedback.ValueCounts` | utils/feedback.py:17 | `value_counts()`: a rating is a key exactly when some row has it, and it maps to the number of such rows; NaN is not counted |
| `Feedback.CountOrZero` | utils/feedback.py:70 | `rating_counts.get(rating, 0)`: the stored count for a rating that occurs, 0 otherwise |
| `Feedback.RatingBreakdown` | utils/feedback.py:68-70 | for ratings 5 down to 1, the number of rows with that rating, 0 when there are none |
| `Feedback.StarCountsPartition` | utils/feedback.py:68-70 | each row is counted under at most one of the five ratings; the rows counted under none are those not rated 1 to 5 |
| `Feedback.BreakdownCoversRows` | utils/feedback.py:68-70 | the five counts add up to at most the number of rows, and to exactly that number when every rating is 1 to 5 |

## Findings

| source | as written | input that shows it | evidently intended | confidence | as-written member | corrected member |
|---|---|---|---|---|---|---|
| utils/data_loader.py:61 | `cleaned_rows.append(cleaned)` also runs when no branch assigned `cleaned`. The previous row's `cleaned` is appended again, or `UnboundLocalError` is raised if there is none | a data row with 6 present cells, then a row with only 4 present cells (two of its fields empty): two copies of the first row come out. A first data row with 4 present cells makes the load fail. Any count outside 5 to 8 behaves the same way | a row with an unrecognised cell count is dropped | high; not executed | `DataLoader.StaleRowRepeated` | `DataLoader.ReconcileDropping` |

`LoadCafeData` follows the code as written. By `AsWrittenAgreesWhenRecognised`, it
equals the corrected pipeline on every input whose data rows all have 5 to 8 present
cells.

## Left out

- CSV reading (`pd.read_csv`, utils/data_loader.py:8) is not modelled. This includes
  the choice of strings pandas reads as missing (`""`, `NA`, `NaN`, ...). The model
  starts from the rows pandas produced, each cell `Option<string>`.
- pandas date parsing is not modelled. Both parsers are parameters. pandas 2 infers a
  format from a column's first date and applies it to the whole column, so one cell's
  result can depend on another cell. The model converts each date on its own.
- Decimal.ParseNumber: does not accept the other forms `float()` and `pd.to_numeric`
  take: exponents, `inf`/`nan`, surrounding whitespace, underscores between digits, and
  non-ASCII decimal digits (such as U+FF14, fullwidth four). Exact reals
  replace binary floating point, and no int64/float64 dtype is chosen.
- Text.Strip: removes the ASCII characters Python counts as whitespace (including the
  separators U+001C to U+001F). Python also strips non-ASCII whitespace such as U+0085
  and U+00A0.
- The `except IndexError` in the 7-cell branch is not modelled, because a 7-cell row
  cannot raise it.
- The debug `print` at utils/data_loader.py:29 is not modelled.
- The feedback page's average rating, review total and bar percentages are not
  modelled (utils/feedback.py:15-16, 73). They are float arithmetic.
- `draw_stars` of a NaN average is not modelled. Python's `int()` raises there, and
  `real` has no NaN.
- Feedback.TopFeedback: pandas' default sort is not stable, so the source does not
  determine which of several rows with tied ratings is chosen. The model fixes one
  order, and its contract holds for any choice.
- Feedback.BottomFeedback: the same tie caveat applies.
- Streamlit rendering is not modelled: CSS, columns, progress bars, and the
  `strftime` of each selected row's date (utils/feedback.py:19-138 apart from the
  selection).
- utils/analysis.py (a network call to a language model, with caching), utils/revenue.py
  (a resample over floats with a wall-clock cutoff) and app.py are not part of this model.
