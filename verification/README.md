# Production summary report — a Dafny model

`production_summary_agent.py` is a daily job. It reads the production sheet and keeps
yesterday's rows. It totals boxes, raw material (RM) and scrap, and groups those
sums by product. It orders the products by boxes and lays them out twice: as a
fixed-width text table and as HTML `<tr>` rows. Both go into an e-mail for the
recipients listed in `EMAIL_TO`.

This project models the part of the job that computes the report:

- **Schema check** (`Schema`): the headers are stripped, and the four required
  columns are checked in order. The first missing one is reported. The
  optional `scrap` column is recorded as present or absent.
- **Day filter** (`DayFilter`): rows whose parsed `ProdDate` falls on the
  target date are kept. A row whose date could not be parsed (NaT) never
  matches. An empty slice is the "no production data" error.
- **Totals and grouping** (`Aggregation`): the day totals, and one group per
  distinct non-blank product. Each group holds its product's sums and its
  Boxes/kg ratio. Rows with a blank Product are counted in the day totals but
  in no group, because pandas' `groupby` drops NaN keys. The partition lemmas
  state exactly that.
- **Ordering** (`Ordering`): the descending sort on boxes.
- **Cell texts** (`Numerals`, `CellText`): `{:,}` for boxes and `{:.2f}` for
  RM, scrap and Boxes/kg, with their round trips back to the number.
- **Text table** (`TextTable`): the lines of `product_summary_table` and their
  newline join. Widths are reproduced as written. The rule is 79 characters,
  the header 89, and a data line at least 85, because data cells are padded
  to `width - 1` between three-character separators.
- **HTML rows** (`HtmlTable`): `html_table_rows`, the exact f-string per
  group, concatenated in table order.
- **Averages** (`Efficiency`): the mean of the Boxes/kg column.
- **Recipients** (`Recipients`): the normalised `To` header.
- **The whole computation** (`Pipeline.ProductionSummary`): from headers,
  rows and target date to a `Report`, or to one of the three errors.

Representation choices:

- Boxes are integers. RM and scrap are integers counting hundredths of a
  kilogram, so sums are exact.
- Boxes/kg is a `Ratio`: a finite real, or the `inf` / `-inf` / `nan` that
  float division by a zero RM total produces. The zero-RM case is therefore
  modelled, not excluded by a precondition. It prints as `inf`, `-inf` or
  `nan` in both tables, and the mean follows pandas: NaN is skipped, an
  infinity dominates, and infinities of both signs give NaN.
- `sort_values` is called with its default algorithm, which is not stable,
  so the model promises only a permutation with non-increasing box counts.
  `SortByBoxes` (an insertion sort) fixes one tie order for the model; no
  contract promises any order among equal box counts.
- Column labels that coincide after stripping make pandas select a frame
  where the code expects a single column, and the job stops. The model
  reports this as `DuplicateColumn`: for `ProdDate` before the day is
  selected (line 32), and for the box, RM, scrap and product columns
  after the no-data check, in the order lines 38-46 read them.

## Model

| member | source | states |
|---|---|---|
| Schema.StripHeaders | production_summary_agent.py:25 | one column name per header, each the header with Python-whitespace removed at both ends |
| Schema.CheckColumns | production_summary_agent.py:26-31 | fails iff some required column is absent, and then names the first absent one in the listed order; on success, reports true iff the `scrap` column is present |
| Text.Strip | production_summary_agent.py:25 | the result is a contiguous piece of the input with no whitespace at either end, and only whitespace was cut off on each side |
| DayFilter.SelectDay | production_summary_agent.py:32-33 | a row is in the slice iff it is an input row whose parsed date is the target day (unparsable dates never match) |
| DayFilter.SelectDayAppend | production_summary_agent.py:33 | filtering distributes over concatenation, so the slice keeps input order |
| DayFilter.SelectDaySingle | production_summary_agent.py:33 | a single row is kept exactly when it is on the target day |
| DayFilter.DaySlice | production_summary_agent.py:33-35 | the "no data" error iff no row is on the target day; otherwise the non-empty slice |
| Aggregation.YieldOf | production_summary_agent.py:47 | finite iff RM is nonzero, and then ratio × RM = boxes; otherwise `inf`, `-inf` or `nan` by the sign of boxes |
| Aggregation.Keys | production_summary_agent.py:46 | the group keys are distinct and are exactly the non-blank products present in the rows |
| Aggregation.GroupsAreProducts | production_summary_agent.py:43-47 | one group per distinct non-blank product and no other; each group's boxes, RM and (when the column exists) scrap are that product's sums, and its ratio is their quotient |
| Aggregation.PartitionTotals | production_summary_agent.py:38-46 | a column's day total equals the sum over the product keys plus the rows with a blank product |
| Aggregation.GroupSumsMatchDay | production_summary_agent.py:38-46 | summing a column over the groups, plus the blank-product rows, gives the day total (scrap only when the column exists) |
| Aggregation.NoScrapColumn | production_summary_agent.py:40-45 | without a scrap column the day's scrap total is 0 and no group carries scrap |
| Aggregation.SumGroupsNoScrap | production_summary_agent.py:40-45 | groups without scrap sum to zero scrap |
| Aggregation.SingleRecord | production_summary_agent.py:46-47 | one named record gives exactly one group with that record's values and ratio |
| Ordering.SortedPermutation | production_summary_agent.py:48 | the sorted table is a permutation of the groups with box counts non-increasing |
| Ordering.SortKeepsProductsDistinct | production_summary_agent.py:48 | sorting keeps one row per product |
| Ordering.PermutationKeepsProducts | production_summary_agent.py:48 | a reordering shows exactly the same products |
| Ordering.SumGroupsPermutation | production_summary_agent.py:48 | column sums over the groups do not depend on their order |
| Efficiency.MeanBounded | production_summary_agent.py:114 | when every ratio is finite, the mean is finite and lies within any bounds of the per-product ratios |
| Efficiency.MeanOfOne | production_summary_agent.py:114 | with a single product the mean is that product's ratio, infinite or NaN included |
| Numerals.Decimal | production_summary_agent.py:71 | the digits of a number: non-empty, all digits, no leading zero |
| Numerals.DecimalRoundTrip | production_summary_agent.py:71 | reading the digits back gives the number |
| Numerals.GroupDigitsShape | production_summary_agent.py:71 | the `{:,}` spelling has a comma exactly before every third digit from the right and digits elsewhere |
| Numerals.GroupDigitsIsDecimal | production_summary_agent.py:71 | deleting the commas from the `{:,}` spelling gives the plain decimal spelling |
| Numerals.WithCommasRoundTrip | production_summary_agent.py:88 | the `{:,}` spelling of any integer, sign included, reads back (commas removed) as that integer |
| Numerals.Fixed2 | production_summary_agent.py:72 | the `.2f` text has a point before two final digits and a leading minus iff the amount is negative |
| Numerals.Fixed2RoundTrip | production_summary_agent.py:72 | the `.2f` text of an amount in hundredths reads back as that amount |
| Numerals.RoundHalfEven | production_summary_agent.py:74 | the rounded value is within one half of the input, and an exact tie goes to the even neighbour |
| Numerals.RealFixed2 | production_summary_agent.py:74 | the `.2f` text of a real reads back as its hundredths rounded half to even, with a leading minus exactly when the value is negative (so `-0.00` for a small negative value) |
| CellText.CellsSolid | production_summary_agent.py:69-75 | every value cell is non-empty and holds no blank and no line break |
| CellText.NoScrapCells | production_summary_agent.py:90 | without a scrap column every scrap cell reads `0.00` |
| Text.Take | production_summary_agent.py:70 | `s[:n]`: the first min(n, length) characters |
| Text.LJust | production_summary_agent.py:57 | the `<` alignment pads to the width and never cuts |
| Text.LJustShape | production_summary_agent.py:70 | the value comes first and only blanks follow |
| Text.RJust | production_summary_agent.py:71 | the `>` alignment pads to the width and never cuts |
| Text.RJustShape | production_summary_agent.py:71-74 | only blanks come before the value and the value ends the cell |
| Text.TrimRJust | production_summary_agent.py:71-74 | removing the padding of a right-aligned cell gives the value back |
| TextTable.BorderShape | production_summary_agent.py:54-56 | the rule is 79 characters, with `+` exactly at the five column boundaries and both ends, `-` elsewhere |
| TextTable.HeaderWidth | production_summary_agent.py:57-63 | the header line is 89 characters |
| TextTable.ProductCellShape | production_summary_agent.py:70 | the product cell is the name's first 33 characters padded with blanks to exactly 33 |
| TextTable.DataRowShape | production_summary_agent.py:68-75 | a data line starts with a bar, a blank and the product cell; its value cells are at least 9 wide and never cut; it is 85 characters when they fit and longer otherwise |
| TextTable.TableShape | production_summary_agent.py:52-79 | title, rule, header, rule, one line per group in table order, rule: the group count plus five lines |
| TextTable.BuildProductTable | production_summary_agent.py:51-80 | the loop builds exactly the framed lines and joins them with newlines |
| TextTable.DataRowHasNoNewline | production_summary_agent.py:68-75 | a data line has no line break when its product name has none |
| TextTable.TableLinesRecoverable | production_summary_agent.py:80 | when no product name holds a line break, splitting the table on newlines gives back exactly its lines |
| Text.Split | production_summary_agent.py:144 | `split(sep)` gives one piece more than there are separators, none containing the separator |
| Text.SplitJoin | production_summary_agent.py:80 | splitting a separator-free join on its separator gives back the parts |
| Text.JoinSplit | production_summary_agent.py:144 | joining the pieces of a split with the separator gives back the string |
| HtmlTable.BuildHtmlRows | production_summary_agent.py:83-93 | the loop concatenates exactly one row per group, in table order |
| HtmlTable.HtmlRowAt | production_summary_agent.py:84-93 | group i's row stands after exactly the rows of the groups before it |
| HtmlTable.CellsAgree | production_summary_agent.py:68-91 | the text product cell is the HTML product name cut to 33 and padded; each text value cell, padding removed, is the HTML cell |
| HtmlTable.SameRowsSameOrder | production_summary_agent.py:68-93 | both tables show each group once, in the same order and with the same cells |
| Recipients.Entries | production_summary_agent.py:144 | one address per comma-separated piece, each the stripped piece |
| Recipients.EntriesClean | production_summary_agent.py:144 | every address has no edge whitespace and no comma |
| Recipients.EntriesOfHeader | production_summary_agent.py:144 | the header reads back as the same addresses |
| Recipients.ToHeaderIdempotent | production_summary_agent.py:144 | normalising the header again changes nothing |
| Pipeline.SortedGroups | production_summary_agent.py:46-48 | the sorted groups are a permutation of the grouped table, non-increasing in boxes, one per product, and cover exactly the day's non-blank products |
| Pipeline.SortedGroupSums | production_summary_agent.py:38-48 | the day totals are the sorted groups' sums plus the blank-product rows; without scrap both scrap figures are 0 |
| Pipeline.ProductionSummary | production_summary_agent.py:25-114 | missing-column error iff a required column is absent (naming the first); duplicate-column error iff `ProdDate` is doubled, or the day has rows and a summed or grouped column is doubled (naming the one read first); no-data error iff the columns are there, `ProdDate` is single and no row is on the day; otherwise the report's totals, sorted groups, text table, HTML rows and average as above |
| Schema.FirstDoubled | production_summary_agent.py:32-46 | none iff no listed label names two columns; otherwise the first listed label that does |
| Aggregation.GroupBy | production_summary_agent.py:43-46 | its contract is carried by `GroupsAreProducts` (one group per product with that product's sums) and `GroupSumsMatchDay` (the groups add up to the day totals) |
| Aggregation.DayTotals | production_summary_agent.py:38-40 | its contract is carried by `GroupSumsMatchDay` and `NoScrapColumn`: each total is the groups' sum plus the blank-product rows, and scrap is 0 without the column |
| Ordering.SortByBoxes | production_summary_agent.py:48 | its contract is carried by `SortedPermutation`: a permutation with non-increasing box counts |
| Efficiency.MeanYield | production_summary_agent.py:114 | its contract is carried by `MeanOfFinite`, `MeanBounded` and `MeanOfOne` |
| Efficiency.MeanOfFinite | production_summary_agent.py:114 | when every ratio is finite, the mean is the sum of the ratios divided by their number |
| Recipients.ToHeader | production_summary_agent.py:144 | its contract is carried by `EntriesOfHeader` (the header reads back as the same addresses) and `ToHeaderIdempotent` |
| Numerals.WithCommas | production_summary_agent.py:88 | its contract is carried by `WithCommasRoundTrip`: the spelling reads back as the integer |
| Numerals.GroupDigits | production_summary_agent.py:71 | its contract is carried by `GroupDigitsShape` and `GroupDigitsIsDecimal`: commas every three digits, and the plain decimal once they are deleted |
| CellText.RatioText | production_summary_agent.py:91 | its contract is carried by `RealFixed2` for a finite ratio and `CellsSolid` for all four cases (`inf`, `-inf` and `nan` as Python prints them) |
| CellText.RealFixed2Solid | production_summary_agent.py:74 | the `.2f` text of a ratio is non-empty with no blank and no line break |
| TextTable.DataRow | production_summary_agent.py:69-75 | its contract is carried by `DataRowShape`, `DataRowHasNoNewline` and `CellsAgree` |
| TextTable.PaddedBarShape | production_summary_agent.py:69-75 | a line of a product cell and four right-aligned values is at least 85 characters, exactly 85 when every value fits in 9 |
| HtmlTable.HtmlRow | production_summary_agent.py:85-93 | its contract is carried by `HtmlRowAt` and `CellsAgree`: one row per group, showing the same cells as the text table |

## Left out

- Reading `production.xlsx` (lines 19-22) is not modelled. The headers and the parsed rows are parameters.
- `pd.to_datetime(..., errors='coerce')` (line 32) is not modelled. Each row carries its parsed timestamp, or None for NaT.
- The wall clock (lines 12-13) is not modelled. The target date is a parameter.
- The report date text, the message templates and the HTML frame around the rows (lines 95-111, 115-134 and 146-159) are not modelled; they are fixed text around the modelled values.
- The `{:,.2f}` total lines (lines 126-127 and 150-152) and the `.2f` text of the average (lines 117 and 155) are not modelled.
- Environment lookups, `EmailMessage` assembly and SMTP delivery (lines 9, 137-143, 145-146 and 162-167) are I/O and are not modelled.
- Recipients.Entries: an unset `EMAIL_TO` (None, which makes line 144 raise) is not modelled; the value is a string.
- Aggregation.Total: RM and scrap are exact hundredths, not floats, so float rounding of the sums is not modelled.
- Numerals.Fixed2: a negative amount that rounds to zero prints as `-0.00` in Python; hundredths are exact here, so this case cannot arise.
- Numerals.RealFixed2: rounds the exact ratio half-to-even, not the nearest binary double.
- Aggregation.YieldOf: zero boxes over a negative RM total is the float `-0.0` in Python and prints `-0.00`; the model's ratio is the real 0, which prints `0.00`.
- Efficiency.MeanYield: sums exact reals, not floats.
- Fractional box counts and the `int()` truncation at lines 38 and 71 are not modelled; box counts are integers.
- Product cells that are not text (numbers in the Product column) are not modelled; a product is a string or blank.
- Aggregation.GroupBy: groups come in first-appearance order, not `groupby`'s key-sorted order; `sort_values` is unstable anyway, and the model promises no particular order among equal box counts.
- HTML escaping is not performed by the source and is not modelled.
- The string helpers model ordinary Python `str` operations on code points; no encoding is modelled.
