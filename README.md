# GDP extract–transform–select, modelled in Dafny

This project models the logic of `etl_project_gdp.py`, a script that does four things:

- it reads the table of countries by nominal GDP from a saved Wikipedia page;
- it turns the IMF estimates, given in millions of US dollars as text with thousands separators, into billions rounded to two decimals;
- it charts the ten largest economies;
- it queries the rows worth at least 100 billion.

The model has one module per stage:

- `Wrappers`: the `Option`, `Result` and `Outcome` types.
- `Frame`: the table the stages pass along.
  - `Field` is a cell that holds either text or an exact `Decimal`.
  - `Record` is a (country, GDP) row.
  - `class Table` stands for the pandas DataFrame. It has a column-label list and two columns, which the stages update in place.
- `Extraction`: the parsed page.
  - The page is a sequence of table bodies. Each body is a sequence of rows, and each row is a sequence of cells.
  - Each cell carries two given attributes. `hasLink` says whether the cell contains a hyperlink. `text` is the cell's stripped text.
  - `Selected` is the row filter, written as a function.
  - `Extract` is the loop that grows the table row by row. It is proved to produce exactly `Selected` of the third table body.
- `Numbers`: exact decimal arithmetic.
  - `StripSeparators` removes the thousands separators.
  - `ParseDecimal` parses the text that remains.
  - `ToBillions` divides by 1000 and rounds to hundredths of a billion.
- `Transformation`: the three in-place rewrites of the value column and the relabelling, as the method `Transform` on a `Table`.
- `Selection`: the two selections over the final table.
  - `TopN` picks the chart's rows.
  - `AtLeast100Billion` is the query's filter.
  - Both work on `Entries`, which is the final table read as (country, hundredths of a billion) pairs.

Numbers are exact throughout. A figure is `Decimal(units, scale)`, worth `units / 10^scale`. A billions figure always has scale 2.

## Model

| member | source | states |
|---|---|---|
| Extraction.Extract | etl_project_gdp.py:31-47 | Fails exactly when the page has no third table body, and then reports how many bodies it found. Otherwise it returns a fresh, consistent table with the columns `Country` and `GDP_USD_millions`. Its rows are exactly `Selected` of the third body, so no other body is ever read. |
| Extraction.Selected | etl_project_gdp.py:35-45 | Emits at most one record per row. Every emitted estimate is text and is never the missing-value marker. |
| Extraction.SelectedMembership | etl_project_gdp.py:36-43 | A record is emitted if and only if some row has at least 3 cells, a linked first cell, and a third cell whose text is not the marker. The record is (cell 0 text, cell 2 text) of that row. |
| Extraction.SelectedConcat | etl_project_gdp.py:35-45 | Selecting from two stretches of rows gives the first stretch's records followed by the second's. Document order is kept. |
| Extraction.SelectedLength | etl_project_gdp.py:35-45 | The number of records equals the number of qualifying row positions. Each qualifying row is appended once and nothing is de-duplicated. |
| Extraction.SelectedExample | etl_project_gdp.py:36-45 | A linked row with estimate "1,234" is kept verbatim. A linked row whose estimate is the marker is dropped. |
| Frame.Table.Append | etl_project_gdp.py:43-45 | Appending a record adds exactly that row at the end. Labels and all earlier rows are unchanged. |
| Numbers.StripSeparators | etl_project_gdp.py:52 | The result contains no comma and is no longer than the input. |
| Numbers.StripSeparatorsCounts | etl_project_gdp.py:52 | Every character other than the comma occurs as often as before. The length shrinks by exactly the number of commas. |
| Numbers.StripSeparatorsConcat | etl_project_gdp.py:52 | Stripping works piece by piece. The characters it keeps stay in their original order. |
| Numbers.StripSeparatorsKeeps | etl_project_gdp.py:52 | Text without commas is left unchanged. |
| Numbers.StripSeparatorsIdempotent | etl_project_gdp.py:52 | Stripping twice gives the same text as stripping once. |
| Numbers.StripGrouped | etl_project_gdp.py:52 | A number written with a comma before every three-digit group strips to its plain digits. |
| Numbers.ParseDecimal | etl_project_gdp.py:53 | A parse succeeds only on text made of digits and at most one point, after an optional leading sign, with at least one digit. A negative result needs a leading minus. |
| Numbers.ParseBareSymbols | etl_project_gdp.py:53 | A bare minus, plus or point is not a number. |
| Numbers.ParseSigned | etl_project_gdp.py:53 | A leading minus negates the unsigned reading of the rest, and a leading plus keeps it. |
| Numbers.ParseWhole | etl_project_gdp.py:53 | Every non-empty digit string, leading zeros included, parses to its own value with no decimal places. |
| Numbers.ParseLeadingZeros | etl_project_gdp.py:53 | "007" parses to 7. |
| Numbers.ParseDigits | etl_project_gdp.py:53 | The decimal rendering of n parses back to n with no decimal places. |
| Numbers.ParseFraction | etl_project_gdp.py:53 | "whole.fraction" parses to the value of all its digits, scaled by the length of the fraction. |
| Numbers.ValueConcat | etl_project_gdp.py:53 | The value of two digit strings joined is the first value shifted left by the second's length, plus the second value. |
| Numbers.RoundDiv | etl_project_gdp.py:54 | The quotient is the nearest integer to n / q, within one half. A non-negative dividend gives a non-negative result. |
| Numbers.RoundingIsUnique | etl_project_gdp.py:54 | At most one integer lies within that half-unit window, so the rounded value is determined. |
| Numbers.ToBillions | etl_project_gdp.py:54 | The result has two decimal places. It lies within 0.005 of the input in millions divided by 1000, and an exact tie goes up. A non-negative input stays non-negative. |
| Transformation.Normalized | etl_project_gdp.py:52-54 | A converted estimate always has two decimal places. A failure is a not-numeric error whose text has already had its commas removed. |
| Transformation.NormalizedGrouped | etl_project_gdp.py:52-54 | Any comma-grouped whole number of millions converts to that number over 1000, rounded. The result is non-negative. |
| Transformation.NormalizedExample | etl_project_gdp.py:52-54 | "1,234" million converts to 1.23 billion. |
| Transformation.NormalizedHyphen | etl_project_gdp.py:52-53 | An estimate that is a bare hyphen fails the conversion with a not-numeric error. |
| Transformation.NormalizedNonNegative | etl_project_gdp.py:52-54 | Text with no minus sign never converts to a negative figure. |
| Transformation.ParseColumn | etl_project_gdp.py:53 | The conversion succeeds if and only if every text parses. Row i then holds the number its own text reads as. Otherwise the error names the first text that does not parse. |
| Transformation.ColumnRewrites | etl_project_gdp.py:52-54 | The column converts if and only if every estimate converts. On success, row i holds the converted estimate of row i. On failure, the error is the first failing row's. |
| Transformation.Transform | etl_project_gdp.py:50-56 | Countries, row count and row order are unchanged. The method succeeds if and only if every estimate converts. On success, the labels are `Country`, `GDP_USD_billions`, and each row holds its own converted estimate in billions with two decimals. On failure, the labels are untouched, the column holds the comma-stripped text, and the error is the first failing row's. |
| Selection.SortDescending | etl_project_gdp.py:76 | The result is a permutation of the entries, ordered by value from largest to smallest. |
| Selection.TopN | etl_project_gdp.py:76 | Returns min(n, rows) entries (for negative n, all but the last -n), drawn from the table, in non-increasing order. |
| Selection.TopNKeepsLargest | etl_project_gdp.py:76 | No entry left out of the top n is worth more than any entry kept. |
| Selection.Chart | etl_project_gdp.py:74-76 | With the script's ten rows: min(10, rows) entries from the table, largest first, and none left out is worth more than one kept. |
| Selection.TableEntries | etl_project_gdp.py:55-56 | A converted table, with every value in billions to two decimals, reads as entries row by row: row i is its country with its value in hundredths. |
| Selection.AtLeast100Billion | etl_project_gdp.py:130 | Never returns more rows than the table has. |
| Selection.AtLeast100BillionCounts | etl_project_gdp.py:130 | Every entry worth at least 100 billion comes back as often as it occurs in the table. No other entry comes back. |
| Selection.AtLeast100BillionConcat | etl_project_gdp.py:130 | The filter works row by row, so the rows it returns keep their table order. |
| Selection.AtLeast100BillionExample | etl_project_gdp.py:130 | Of 50, 99.99, 100, 100.01 and 500 billion, the query returns exactly the last three, in order. |

## Left out

- The network fetch and the HTML parser are left out. The page arrives already split into table bodies, rows and cells. Whether a cell contains a link, and its stripped text, are given attributes. Rows nested inside other rows are not modelled.
- `extract`'s `table_attribs` parameter is left out. The script always passes `['Country', 'GDP_USD_millions']`, and the model fixes the labels to that list.
- Numbers.ToBillions: the source converts through binary floating point and rounds half to even. The model divides exact decimals and rounds ties half up, and its contract fixes that choice. Its upper bound is strict, so a tie always goes up. For example, 5 million becomes 0.01 billion, where the source's rounding gives 0.00.
- Numbers.ParseDecimal: the source accepts every float literal Python accepts. The model accepts only an optional sign, digits and at most one point. It rejects exponents, `inf` and `nan`, underscores, surrounding whitespace and non-ASCII digits.
- Transformation.Transform requires its table to have the extracted column labels, and every value to still be text. Those are what `extract` produces. A table of any other shape is not modelled.
- The order among equal values in the chart is left out. The sort at etl_project_gdp.py:76 is not stable, so the order of ties is unspecified.
- The code never checks that country names are non-empty, so the model does not require it.
- Selection.TopN and Selection.AtLeast100Billion work on `Entries`, the final table read as (country, hundredths) pairs, rather than on the `Table` object itself.
- CSV output, the SQLite table replace and the running of the SQL text are left out. They are file and database I/O; only the query's predicate is modelled.
- Chart drawing and the swallowed `plt.show()` error are left out, because they are display code.
- Timestamped logging is left out, because it is file I/O and clock reads.
- The try/log/re-raise stage driver is left out. A failure of any modelled stage is its `Failure` or `Fail` result.
