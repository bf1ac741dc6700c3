# MercadoInsights analytics core, modelled in Dafny

`analytics.py` runs a fixed set of SQL queries and turns each result into a chart. It then writes every non-empty result into one styled Excel workbook. This project models three parts of it and proves properties of each:

- **The query registry** (`load_queries`). The query file is split at each `-- Q_` marker. Each block is stripped. The key comes from the first line, and the body is the remaining lines joined with `\n` and stripped. A later block with the same key overwrites an earlier one. A missing file gives the empty registry.
- **The chart transforms** (pie, bar, hbar, line, hist, scatter). The model covers what each one does to its query result before plotting, and the table it hands back:
  - the pie renames the count column and computes shares;
  - it pools categories below 10 % into an "Other" slice;
  - bar, hbar and segment charts sort their rows;
  - the line chart adds a three-month trailing mean;
  - the histogram chooses its mode from the columns present;
  - the scatter drops incomplete rows before it samples.
- **The report plan** (`export_to_excel_advanced`). A worksheet is written for each non-empty table, in order, titled with the name cut to 31 characters. Each sheet is then styled:
  - the panes are frozen at `B2`, which keeps the header row and column A in view;
  - the header cells get a fill, bold font and centring;
  - a three-colour scale covers `A2:<last column><last row>` when there is a data row;
  - the auto-filter covers the used range.

Modules:

| module | file | contents |
|---|---|---|
| `Wrappers` | `wrappers.dfy` | `Option`, `Result` |
| `Text` | `text.dfy` | the Python `str` operations the script relies on, on ASCII: `strip`, `split(sep)`, `split()`, `splitlines`, `"\n".join`, `title`, `str(int)` |
| `QueryRegistry` | `queries.dfy` | `load_queries` as a loop over the blocks, and the functions that specify it: `ParseBlock`, `Entries`, `ToMap`, `Parse`. A writer `Serialize` serves as its inverse |
| `Tables` | `tables.dfy` | tabular results: rows as maps from column name to cell. Also the pandas operations used (`sort_values`, boolean masks, `sum`) |
| `Charts` | `charts.dfy` | the six transforms |
| `Report` | `report.dfy` | sheet selection, titles, column letters, and the styling of each sheet |

A tabular result is a `Table`: its column names in order, and its rows. The empty table stands for `pd.DataFrame()`, the value a failed or empty query yields. Every transform maps an empty input to it.

Three points about what the code returns:

- `chart_pie` returns the renamed table with its `pct` column (line 87), not the bucketed table it plots.
- `chart_scatter` returns the whole input (line 175), not the sample.
- A transform indexes the columns it reads (`df["revenue"]`, `df["product_category_name"]`, ...), and pandas raises a `KeyError` when one is missing. Each transform's `requires` names the columns it reads, so the model returns no table where the code raises `KeyError`. Other errors the code can raise are not all captured. A text `price` column in the histogram and a sheet name Excel refuses are two such cases; "## Left out" lists them with what the model does instead.

## Model

| member | source | states |
|---|---|---|
| Text.Strip | analytics.py:41 | The stripped text is a slice of the input with only whitespace before and after it, and has no whitespace at either end. It is empty exactly when the input is all whitespace |
| Text.StripTrimmed | analytics.py:44 | Stripping a text that already has no whitespace at its ends leaves it unchanged |
| Text.StripTrailingSpace | analytics.py:41 | Stripping a trimmed text followed by whitespace gives back that text |
| Text.Split | analytics.py:39 | `split(sep)` yields at least one piece. No piece contains the separator, and the first piece is a prefix of the text |
| Text.JoinSplit | analytics.py:39 | Joining the pieces of a split with the same separator gives back the original text |
| Text.SplitPrefix | analytics.py:39 | A prefix in which no separator starts is glued to the first piece of the rest, and the remaining pieces are unchanged |
| Text.SplitNoMatch | analytics.py:45 | A text without the separator splits into itself alone |
| Text.SplitAfterSeparator | analytics.py:39 | A text that begins with the separator splits into an empty piece followed by the pieces of the rest |
| Text.Words | analytics.py:45 | `split()` yields non-empty pieces without whitespace. There are none exactly when the text is all whitespace, and the first is the leading run of non-whitespace |
| Text.WordsOfWord | analytics.py:45 | A non-empty text without whitespace is its own only word |
| Text.SplitLines | analytics.py:43 | `splitlines()` of the empty text is empty, and of any other text it is non-empty. The first line runs up to the first line break |
| Text.SplitLinesHaveNoBreaks | analytics.py:43 | No line produced by `splitlines()` contains a line break |
| Text.JoinLines | analytics.py:46 | `"\n".join` starts with the first line, and returns a single line as it is |
| Text.SplitJoinLines | analytics.py:43-46 | Lines without breaks, the last one non-empty, are given back by `splitlines()` of their join |
| Text.JoinSplitLines | analytics.py:43-46 | For a text whose only breaks are `\n` and that does not end in a break, joining its lines with `\n` gives back the text |
| Text.Title | analytics.py:94 | `title()` keeps the length. A letter is upper-cased when it follows a non-letter (or starts the text) and lower-cased otherwise. Other characters are kept |
| Text.TitleFromAppend | analytics.py:94 | `title()` distributes over concatenation, given how the first part ended |
| Text.Decimal | analytics.py:204 | `str(n)` is a non-empty string of digits. It has one digit exactly when `n < 10`, starts with `0` exactly when `n` is 0, and has no leading zero otherwise |
| Text.DecimalRoundTrip | analytics.py:204 | The decimal digits written for a row number read back to that number |
| QueryRegistry.HeaderKey | analytics.py:44-45 | The key taken from a header line contains neither whitespace nor a colon |
| QueryRegistry.HeaderKeyOfKey | analytics.py:44-45 | A header that is exactly a valid key yields that key |
| QueryRegistry.HeaderKeyOfHeader | analytics.py:44-45 | A header made of a valid key followed by nothing, by whitespace or by a colon (`PIE: orders by payment type`) yields exactly that key |
| QueryRegistry.ParseBlock | analytics.py:41-48 | An accepted block gives a non-empty key without whitespace or colon, and a non-empty trimmed body |
| QueryRegistry.ParseBlockOfBlock | analytics.py:41-48 | A block written as key, line feed, body, line feed parses back to exactly that entry |
| QueryRegistry.LoadQueries | analytics.py:32-49 | A missing file gives the empty map. Otherwise the loop leaves the map `Parse` defines for the text, and every stored key and body is well formed |
| QueryRegistry.ToMapLastWins | analytics.py:40-48 | The registry's keys are exactly the keys of the accepted blocks, and a key maps to the body of the last block that has it |
| QueryRegistry.ParseLastWins | analytics.py:39-49 | The same, for the registry parsed from any file text |
| QueryRegistry.SplitSerialize | analytics.py:39 | A written file splits at the marker into an empty preamble and one block per entry |
| QueryRegistry.EntriesOfSerialize | analytics.py:39-48 | Parsing the blocks of a written file recovers the written entries, in order |
| QueryRegistry.RoundTrip | analytics.py:32-49 | Loading a written file gives the map built by inserting its entries in order |
| Tables.IsEmpty | analytics.py:65 | `df.empty`: the empty table is empty, and a table that is not has a row and a column |
| Tables.SumOf | analytics.py:69 | `sum()` over no rows is zero |
| Tables.SumOfAppend | analytics.py:69 | The total of two row sequences put together is the sum of their totals |
| Tables.SumOfNonNegative | analytics.py:69 | Counts of at least zero have a total of at least zero |
| Tables.SumOfAtLeastEach | analytics.py:69 | Among counts of at least zero, each count lies between zero and the total |
| Tables.SortValues | analytics.py:92 | `sort_values` returns a permutation of the rows (same multiset, same length), ordered on the column in the requested direction |
| Tables.Insert | analytics.py:92 | Placing a row into sorted rows adds exactly that row and keeps them sorted |
| Tables.SumOfSortValues | analytics.py:76 | Sorting does not change the total of any numeric column |
| Tables.Where | analytics.py:71-72 | A boolean-mask selection keeps exactly the rows the mask accepts, and never adds rows |
| Tables.WherePartition | analytics.py:71-74 | Two complementary masks split the rows, and a numeric column's total, between them |
| Tables.WithoutSortValues | analytics.py:123 | Sorting rearranges the rows in the same way when one column is ignored |
| Charts.NormalizeCounts | analytics.py:66-67 | `orders_count` is renamed to `payments_count` exactly when the first is present and the second absent. Other columns and values are kept |
| Charts.ShareBelowThreshold | analytics.py:70-72 | A share is below 10 % exactly when ten times the count is below the total |
| Charts.ChartPie | analytics.py:63-87 | Given the columns the plot reads, empty in gives empty out. Otherwise the renamed table is returned with `pct` added to the columns and each row's share of the count total in `pct` |
| Charts.ShareRows | analytics.py:70 | One row per input row, each with `pct` set to its count's share of the total, in percent. Counts and shares are numbers in every row |
| Charts.PieSharesSum | analytics.py:69-70 | The shares add up to 100 and the counts are unchanged |
| Charts.ShareBounded | analytics.py:70 | A count between zero and the total has a share between 0 and 100 percent |
| Charts.PieSharesBounded | analytics.py:69-70 | Every row of the returned table has a `pct` between 0 and 100 |
| Charts.OtherRow | analytics.py:74-75 | The pooled row has payment type "Other" and the given count. Its other columns are missing |
| Charts.PieSlices | analytics.py:71-76 | The plotted slices are sorted by count, descending |
| Charts.MasksByCount | analytics.py:70-72 | On the share table, the percentage masks select the same rows as masks on the counts against a tenth of the total |
| Charts.LightExists | analytics.py:71-73 | Some category is pooled exactly when some count is below a tenth of the total |
| Charts.PieBuckets | analytics.py:69-76 | The slices are exactly the categories of at least a tenth, plus the "Other" row holding the pooled count, present exactly when some category is below a tenth |
| Charts.PieSlicesTotal | analytics.py:69-76 | The slice counts add up to the total of all counts |
| Charts.OtherIsSynthetic | analytics.py:75 | The "Other" row is never one of the categories and is selected by neither mask |
| Charts.ChartBar | analytics.py:89-94 | Empty in gives empty out. Otherwise the rows are permuted into descending revenue order, with the columns kept |
| Charts.Underscores | analytics.py:94 | `str.replace("_", " ")` keeps the length, turns each underscore into a space and keeps every other character |
| Charts.PrettyLabel | analytics.py:94 | A label keeps its length. Underscores become spaces, and each letter is capitalised when it starts a word and lower-cased inside one |
| Charts.PrettyLabelExample | analytics.py:94 | `bed_bath_table` is shown as `Bed Bath Table` |
| Charts.BarLabels | analytics.py:94 | Given a table with the category column, there is one label per row: the normalised category name, or missing when the row's category is missing or not text |
| Charts.ChartHBar | analytics.py:105-110 | Empty in gives empty out. Otherwise the rows are permuted into ascending order of average delivery days |
| Charts.Rolling3 | analytics.py:124 | Each moving-average value is the mean of the value and up to two values before it |
| Charts.Rolling3Example | analytics.py:124 | The averages of 10, 20, 30, 40 are 10, 15, 20, 30 |
| Charts.Trend | analytics.py:122-124 | The rows are a permutation, ignoring `ma3`, sorted by month. Each row's `ma3` is the trailing mean of the revenues in that order |
| Charts.ChartLine | analytics.py:119-124 | Empty in gives empty out. Otherwise the months are in order, `ma3` is added to the columns, and each row carries the trailing three-month mean of revenue |
| Charts.Classify | analytics.py:140-155 | The histogram is chosen exactly when `price` is present. The segment bars are chosen exactly when it is absent and both segment columns are present. Otherwise there is no chart |
| Charts.ChartHist | analytics.py:135-160 | Empty in gives empty out. A price table comes back unchanged. A segment table comes back permuted into descending item count. Any other table gives the empty table |
| Charts.HistFallback | analytics.py:136-155 | The fallback query's `dummy` table yields the empty table |
| Charts.Complete | analytics.py:165 | `dropna` keeps exactly the rows where both price and freight are present |
| Charts.ChartScatter | analytics.py:162-175 | As written, sampling succeeds exactly when at least min(4000, all rows) complete rows remain. On success the whole input is returned |
| Charts.ScatterFailsOnIncompleteRow | analytics.py:165 | Two rows, one with a missing price, make the as-written transform fail |
| Charts.ScatterSampleSize | analytics.py:165 | The intended sample size is at most 4000 and at most the number of complete rows, and equals one of them |
| Charts.ChartScatterIntended | analytics.py:162-175 | With the sample taken from the complete rows, the transform never fails. It returns the input (or the empty table), and agrees with the as-written transform whenever that succeeds |
| Charts.ScatterSucceedsWhenComplete | analytics.py:165 | With no incomplete rows, the as-written and corrected transforms agree |
| Report.SheetTitle | analytics.py:184 | The title is the name's prefix of length min(31, length of the name) |
| Report.SheetTitleOfShortName | analytics.py:184 | A name of at most 31 characters is kept whole |
| Report.Selected | analytics.py:182-183 | The tables that get a sheet are exactly the non-empty ones, each once, in the given order |
| Report.Written | analytics.py:184-185 | `to_excel` into a fresh sheet: titled with the name cut to at most 31 characters (the whole name when it fits), holding the table, with nothing styled yet |
| Report.MaxRow | analytics.py:202 | `ws.max_row` is at least 1: the header row plus one row per record when the table has columns. It is at least 2 exactly when the table has records, so a header-only sheet counts as one row |
| Report.MaxColumn | analytics.py:196 | `ws.max_column` is at least 1, and is the number of table columns when there are any |
| Report.WriteSheets | analytics.py:181-185 | The first loop writes one fresh sheet per selected table, in order, titled and filled from that table |
| Report.WrittenSheetsSelected | analytics.py:182-185 | The k-th written sheet is the one for the k-th selected table |
| Report.ColumnLetter | analytics.py:204 | `get_column_letter` gives a non-empty string of the letters A..Z |
| Report.ColumnNumberOfLetter | analytics.py:204 | `get_column_letter` is injective: reading its letters back gives the column number |
| Report.ColumnLetterOfNumber | analytics.py:204 | Every non-empty string of A..Z is the letter of its own column number, so letters and column numbers correspond one to one |
| Report.ColumnLetterExamples | analytics.py:204 | Columns 1, 26 and 27 are A, Z and AA |
| Report.CellNameReadsBack | analytics.py:204 | A cell name is letters that read back to its column, then digits that read back to its row |
| Report.DataRange | analytics.py:204 | The colour-scale range starts at `A2:` |
| Report.Dimensions | analytics.py:210 | `ws.dimensions` starts at `A1:` |
| Report.RangesReadBack | analytics.py:204-210 | Both ranges end at the cell named by the last column and the last row |
| Report.StyleHeader | analytics.py:194-200 | Exactly the header cells of columns 1..max_column get the header style, and all other cell styles are kept |
| Report.StyleSheet | analytics.py:191-210 | One styled sheet: title and contents kept, panes frozen at B2, header styled, one colour scale over `A2:<col><row>` exactly when there is a data row, auto-filter over the used range |
| Report.OneColorScale | analytics.py:202-208 | A sheet written from a non-empty table ends with exactly one colour scale |
| Report.ExportToExcelAdvanced | analytics.py:178-214 | One sheet per non-empty table, in order. Each is titled with the name cut to 31 characters, holds its table, is styled as above, and carries exactly one colour scale |

## Left out

- Database access is not modelled (`create_engine`, `run_query`, environment variables). A transform takes its query result as a `Table`, and a failed query is the empty table.
- Plotting, image files, output directories and `print` are not modelled. Each transform keeps only its table logic.
- `main` and the fixed order in which it runs the transforms are not modelled.
- Opening and decoding the query file is a parameter. `Source.Missing` stands for `FileNotFoundError`, and other I/O errors are not modelled.
- `queries.get(key, default)`: the default queries only produce an empty result, or the `dummy` table for the histogram (`HistFallback`).
- Text is ASCII. Unicode whitespace, Unicode line breaks (`\x85`, `\u2028`, ...) and non-ASCII letters are not modelled.
- Numbers are exact reals. Floating-point rounding is not modelled, and `NaN` is modelled only as a missing cell.
- `pd.to_datetime` is not modelled. Months are numbers, ordered as the dates are.
- `sort_values` is modelled by insertion sort. pandas' default sort is not stable, so the contracts promise only order and permutation.
- The histogram's binning and mean, the random sample and the correlation feed only the plots and are not modelled.
- The scatter sample is not returned by the transform, so only the condition under which sampling fails is modelled.
- openpyxl objects are reduced to a `Worksheet` value. It holds the title, the table, the frozen cell, the header styles, the formatting rules and the auto-filter. Fonts and fills are one `CellStyle`, and saving and reloading the file is not modelled.
- The sheet dictionary is a sequence in insertion order. Two names that truncate to the same 31 characters get two worksheets here, while the source writes both tables into one sheet.
- Excel's limit of 16384 columns is not modelled. `ColumnLetter` accepts any positive number.
- Charts.ChartPie: requires the count column, holding a number of at least zero in every row, with a positive total. The count column is a SQL `COUNT` and so never negative. The source itself raises only when the pooled "Other" sum is negative: `ax.pie` (line 79) refuses a negative wedge, and a negative count always has a share below 10 and is pooled at line 74. The model also excludes negative counts whose pool stays at least zero. Without the column the source raises `KeyError`. A zero total makes the shares `NaN` or infinite. Missing counts, which `sum` skips, are not modelled.
- Charts.ChartPie: also requires a `payment_type` column when no category is pooled, because the plot's labels read it (line 79) and pandas raises `KeyError` without it. When a category is pooled, the "Other" row brings the column in.
- Charts.PieSlices: requires the same as `ChartPie`, for the same reasons.
- Charts.ChartBar: requires a `revenue` column holding a number in every row, and a `product_category_name` column. Without either the source raises `KeyError` (lines 92 and 94). Missing revenues, which `sort_values` puts last, are not modelled.
- Charts.BarLabels: the `.str` accessor raises when the category column holds no text at all. That case is not modelled, and such a column gives missing labels here.
- Charts.ChartHBar: requires an `avg_delivery_days` column holding a number in every row, and a `customer_state` column. Without either the source raises `KeyError` (lines 108 and 110). Missing values, which `sort_values` puts last, are not modelled.
- Charts.ChartLine: requires `month` and `revenue` columns holding a number in every row. Without them the source raises `KeyError`. Missing months, which `sort_values` puts last, and missing revenues, which `rolling(3, min_periods=1).mean()` leaves out of the mean, are not modelled.
- Charts.ChartHist: requires `items_count` to hold a number in every row in the segment mode. The source sorts whatever values the column holds, with missing values last.
- Charts.ChartHist: in the price mode the model does not look at the `price` values. A column of text makes `.mean()` (line 142) raise `TypeError`, yet the model returns the table unchanged.
- Tables.SortValues: every sort key must be a number. pandas also accepts missing keys (`NaN`) and places those rows last; that ordering is not modelled.
- Report.ExportToExcelAdvanced: sheet names are taken as given. A name holding any of `: / ? * [ ] \` makes openpyxl raise `ValueError` when the sheet is written (line 185). The model creates the sheet anyway.
- Report.ExportToExcelAdvanced: when no table is non-empty the model gives a book with no sheets. The Excel writer's refusal to save a workbook without a sheet belongs to the library and is not modelled.
- Charts.ChartScatter: requires the `price` and `freight_value` columns. Without them `dropna(subset=...)` raises `KeyError`.
- Text.JoinSplitLines: holds only for bodies whose line breaks are `\n`. Other breaks are rewritten to `\n` by the join, so the round trip holds only up to that.

## Findings

| source | as written | input that shows it | evidently intended | confidence | as-written member | corrected member |
|---|---|---|---|---|---|---|
| analytics.py:165 | the sample size is `min(4000, len(df))`, counted before `dropna` removes the incomplete rows, and `sample` without replacement raises when the sample is larger than what remains | a scatter result of two rows, one with a missing price: one row survives and a sample of two is requested | sample `min(4000, n)` of the `n` complete rows, which always succeeds | not executed | Charts.ScatterFailsOnIncompleteRow | Charts.ChartScatterIntended |
