# Monthly index data: month extraction, duplicate-month filter, DCA return

This project is a Dafny model of the computational core of `index_process.py`, a script that
loads a table of monthly index prices and computes the return of dollar-cost averaging. It
covers three pieces:

- **`get_month`** (`date_month.dfy`, module `DateMonth`). The date string is split on `'-'`
  with Python's `str.split` semantics, and the second field is parsed with Python's `int()`
  syntax. That syntax allows an optional sign and ASCII digits with single underscores between
  them. It also allows surrounding whitespace: the ASCII space, tab through carriage return, and
  the Unicode space characters; the ASCII separators 0x1C-0x1F are not stripped. A date without
  `'-'` has no second field. That case (`IndexError` in Python) becomes `MissingMonthField`.
  A second field that is not an integer (`ValueError`) becomes `MonthNotInteger`. A second field
  with more than 4300 digits (the `ValueError` of the default `sys.get_int_max_str_digits()`)
  becomes `DigitLimitExceeded`.
- **The row collection and duplicate-month filter of `read_index_file`** (`index_loader.dfy`,
  module `IndexLoader`). The already-parsed CSV input is a list of field names plus a sequence
  of row records (field name to cell). A cell is `Some(text)`, or `None` where a short line
  ended before that field, as `csv.DictReader` fills it. The first record is discarded. The rest are pivoted
  into a dictionary of column lists. Every row whose month equals the month of the row before
  it is dropped from every column, where row 0 is compared with the LAST row (Python's
  `months[-1]`). A `None` date makes `get_month` fail (`AttributeError` in Python), which
  becomes `DateNotText`. The pure specification is `ReadIndexData`. The loops of the source are the
  methods `CollectColumns`, `FindRepeated` and `FilterColumns`, composed in `ReadIndexFile`,
  each proved equal to its specification function.
- **`calc_return`** (`return_calculator.dfy`, module `ReturnCalculator`), over exact `real`.
  A fixed amount buys shares at indices `0, f, 2f, ...` of the price series (the slice
  `[0::f]`, including Python's behaviour for a negative step). The shares are valued at the
  last price of the whole series. The result is the pair (final worth / total invested,
  total invested).

`outcomes.dfy` holds the `Result` type used for the error paths and the `Option` type of a cell.

Of two adjacent rows sharing a month one would expect the earlier to be kept. The code does
that for every row except row 0: because index 0 is compared with the last
row, row 0 is dropped whenever its month equals the last row's month, and a single-row table
filters to empty. The model follows the code (`RepeatedIndicesExamples`,
`SameMonthEverywhereDropsAll`).

## Model

| member | source | states |
|---|---|---|
| DateMonth.Split | index_process.py:8 | `str.split('-')` always yields at least one field |
| DateMonth.JoinSplit | index_process.py:8 | joining the split fields with `'-'` gives back the string, and no field contains `'-'` |
| DateMonth.SplitJoin | index_process.py:8 | splitting a `'-'`-join of separator-free fields gives back exactly those fields |
| DateMonth.SplitWithoutSeparator | index_process.py:8 | a string without `'-'` splits into itself alone |
| DateMonth.SplitAtSeparator | index_process.py:8 | splitting at one `'-'` concatenates the fields of both sides |
| DateMonth.SplitCons | index_process.py:8 | a leading `'-'` starts a new empty field; any other leading character joins the first field |
| DateMonth.SplitHasSecondField | index_process.py:8-9 | there is a second field (`split_date[1]` exists) iff the string contains `'-'` |
| DateMonth.TrimStart | index_process.py:9 | `int()` strips leading whitespace and only that: the result is a suffix that does not start with whitespace, and everything removed is whitespace |
| DateMonth.TrimEnd | index_process.py:9 | `int()` strips trailing whitespace and only that: the result is a prefix that does not end with whitespace, and everything removed is whitespace |
| DateMonth.StripUnpadded | index_process.py:9 | text that neither starts nor ends with whitespace is unchanged by stripping |
| DateMonth.StripSlice | index_process.py:9 | trimming the front and then the back leaves a middle slice with only whitespace on both sides |
| DateMonth.WithoutUnderscores | index_process.py:9 | removing the digit-group underscores leaves no `'_'` |
| DateMonth.WithoutUnderscoresCounts | index_process.py:9 | only underscores are removed: every other character keeps its count, and the length drops by the number of underscores |
| DateMonth.WithoutUnderscoresAppend | index_process.py:9 | underscore removal distributes over concatenation |
| DateMonth.WithoutUnderscoresKeepsDigits | index_process.py:9 | a digits-and-underscores body leaves only digits once underscores are removed |
| DateMonth.DigitChar | index_process.py:9 | each digit value 0-9 has a digit character with that value |
| DateMonth.DecimalString | index_process.py:9 | the decimal rendering of a number is a non-empty string of digits |
| DateMonth.Zeros | index_process.py:9 | a run of k zero characters |
| DateMonth.DigitsValueOfDecimal | index_process.py:9 | reading back the decimal rendering of n gives n |
| DateMonth.LeadingZerosValue | index_process.py:9 | leading zeros do not change the value `int()` reads ("03" is 3) |
| DateMonth.ZerosValue | index_process.py:9 | a run of zeros reads as 0 |
| DateMonth.WithoutUnderscoresOfDigits | index_process.py:9 | a body of plain digits is unchanged by underscore removal |
| DateMonth.StripDigits | index_process.py:9 | a non-empty string of digits is unchanged by whitespace stripping |
| DateMonth.ParseDigitsOfDigits | index_process.py:9 | an unsigned run of digits reads as its decimal value, unless it has more than 4300 digits |
| DateMonth.ParseIntOfDigits | index_process.py:9 | `int()` of a non-empty digit string is its decimal value, unless it has more than 4300 digits (`ValueError`) |
| DateMonth.ParseIntOfDecimal | index_process.py:9 | `int()` of a zero-padded decimal rendering of n is n, unless padding and digits exceed 4300 characters |
| DateMonth.ParseIntIgnoresUnderscore | index_process.py:9 | an underscore between two digit groups is ignored: `int("1_000") == int("1000")` |
| DateMonth.ParseSignedAcceptsOnly | index_process.py:9 | an accepted stripped field holds only signs, digits and underscores |
| DateMonth.ParseIntAcceptsOnly | index_process.py:9 | an accepted field holds only whitespace, signs, ASCII digits and underscores: any other character is a `ValueError` |
| DateMonth.ParseIntNonNegative | index_process.py:9 | a field with no `'-'` never parses to a negative number |
| DateMonth.ParseIntRejectsNonDigits | index_process.py:9 | a field with no digit at all is not an integer (`ValueError`) |
| DateMonth.GetMonthMissingField | index_process.py:7-9 | `get_month` fails with the missing-field error exactly when the date has no `'-'` |
| DateMonth.GetMonthNonNegative | index_process.py:7-9 | a month read from a date is never negative |
| DateMonth.GetMonthIgnoresYear | index_process.py:7-9 | the text before the first `'-'` (the year) does not affect the month |
| DateMonth.GetMonthOfDate | index_process.py:7-9 | for any year, zero padding and trailing `-day` part, the month read is the number written in the second field, unless that field exceeds 4300 characters |
| DateMonth.GetMonthOfWord | index_process.py:7-9 | a second field without any digit (a month name) is not an integer |
| DateMonth.GetMonthOfFullDate | index_process.py:7-9 | "2020-03-15" gives 3 |
| DateMonth.GetMonthOutOfRange | index_process.py:7-9 | "2020-13" gives 13: the range 1..12 is not checked |
| DateMonth.GetMonthWithoutSeparator | index_process.py:8-9 | "202003" fails with the missing-field error |
| DateMonth.GetMonthOfMonthName | index_process.py:9 | "2020-Mar" fails as not an integer |
| IndexLoader.ColumnOfFullRows | index_process.py:17-20 | when every row has the key, its column has one entry per row, in row order |
| IndexLoader.PivotOfFullRows | index_process.py:17-20 | rows with exactly the header's fields (short rows included, with `None` cells) pivot without error into columns with one entry per row, in file order |
| IndexLoader.NoneDateFails | index_process.py:22 | a `None` date behind dates that all read makes the filter fail with the `AttributeError` |
| IndexLoader.ShortRowWithoutDateFails | index_process.py:15-22 | a data row that ends before its `Date` cell, behind dates that all read, makes the load fail with the `AttributeError` |
| IndexLoader.FirstRowDiscarded | index_process.py:15 | the first data row never influences the result |
| IndexLoader.MapAllSpec | index_process.py:22 | `list(map(f, xs))` succeeds iff f succeeds on every element, then holds f's value per element; otherwise it fails with the first element's error |
| IndexLoader.CellMonth | index_process.py:7-9 | a month read from a `Date` cell is never negative: a `-` in the date only separates fields, so the month field carries no minus sign |
| IndexLoader.MonthsSpec | index_process.py:22 | the months list exists iff every date has a month, then holds one month per date; otherwise the first bad date's error aborts it |
| IndexLoader.MonthsFirstFailure | index_process.py:22 | the error of the months list is that of the first date that does not read |
| IndexLoader.RepeatedBelowSpec | index_process.py:23-26 | after k loop steps the list holds exactly the repeated indices below k, ascending |
| IndexLoader.RepeatedIndicesSpec | index_process.py:23-26 | an index is marked repeated iff its month equals the month before it, index 0 comparing with the last |
| IndexLoader.KeptIndicesSpec | index_process.py:29 | the kept indices are exactly those below n not marked, ascending |
| IndexLoader.FilterColumnSelects | index_process.py:29 | the filtered column is the column read at the kept indices, in order |
| IndexLoader.FilterColumnKeepsAll | index_process.py:29 | a column with no marked index is unchanged |
| IndexLoader.FilterColumnDropsAll | index_process.py:29 | a column whose every index is marked becomes empty |
| IndexLoader.NoRepeatNothingBelow | index_process.py:23-26 | with no cyclically adjacent equal months, no index below k is marked |
| IndexLoader.NoRepeatNothingDropped | index_process.py:23-26 | with no cyclically adjacent equal months, no index is marked |
| IndexLoader.KeptRun | index_process.py:23-29 | in the surviving months, each one differs from the one before it, and the first differs from the last |
| IndexLoader.FilteredMonthsHaveNoRepeat | index_process.py:23-29 | after filtering, no two cyclically adjacent months are equal |
| IndexLoader.MonthsOfFiltered | index_process.py:22-29 | reading the months of the filtered dates gives the filtered months |
| IndexLoader.DropRepeatedMonthsNoOp | index_process.py:23-29 | a table without cyclically adjacent equal months passes unchanged |
| IndexLoader.DropRepeatedMonthsIdempotent | index_process.py:22-29 | filtering an already filtered table changes nothing |
| IndexLoader.DropRepeatedMonthsKeepsRowsAligned | index_process.py:28-29 | columns of equal length stay equal length, and their j-th entries still come from one original row |
| IndexLoader.DropRepeatedMonthsKeepsExactly | index_process.py:23-29 | each column keeps exactly the unmarked indices, in increasing order, with their original values |
| IndexLoader.MapAllConstant | index_process.py:22 | mapping a function that gives one value on every element succeeds with that value everywhere |
| IndexLoader.SameMonthMarksAll | index_process.py:23-26 | when all months are equal, every index is marked, index 0 included through the wrap-around |
| IndexLoader.SameMonthEverywhereDropsAll | index_process.py:22-29 | when every date reads as the same month (a single row included), filtering succeeds and every column no longer than the dates comes out empty |
| IndexLoader.RepeatedIndicesExamples | index_process.py:24-26 | months [1,1,2] mark [1]; [1,2,3] mark nothing; [1,2,1] mark [0]; [5] marks [0] |
| IndexLoader.CollectColumns | index_process.py:17-20 | the nested append loops produce the pivot of the rows, or fail on a field outside the header |
| IndexLoader.FindRepeated | index_process.py:23-26 | the marking loop produces exactly the specified repeated indices |
| IndexLoader.FilterColumns | index_process.py:28-29 | the per-column reassignment loop produces every column filtered by the marked indices |
| IndexLoader.ReadIndexFile | index_process.py:15-29 | the whole loader body equals its specification, including each error path |
| ReturnCalculator.EveryNthLength | index_process.py:43 | a positive-step slice takes the least number of steps that covers the series |
| ReturnCalculator.EveryNthAt | index_process.py:43 | the j-th purchase price is the price at index j*f |
| ReturnCalculator.PurchasePricesCount | index_process.py:43-48 | the number of purchases is ceil(n / f) for f > 0, and one for f < 0 on a non-empty series |
| ReturnCalculator.PurchasePricesAt | index_process.py:43 | the prices bought at are exactly the prices at the purchase indices |
| ReturnCalculator.PurchaseIndexIsVisited | index_process.py:43 | every multiple of f inside the series is a purchase |
| ReturnCalculator.MultipleIsPurchaseIndex | index_process.py:43 | every j*f is a purchase index |
| ReturnCalculator.PurchasePricesNoZero | index_process.py:43-45 | when every purchase index has a non-zero price, no purchase divides by zero |
| ReturnCalculator.CalcReturn | index_process.py:42-50 | a zero step fails (slice `ValueError`), an empty series fails (`[-1]` `IndexError`), otherwise it succeeds with total invested = amount × number of purchases |
| ReturnCalculator.CalcReturnClosedForm | index_process.py:43-50 | on success the multiple is (sum of 1/price over the purchase prices) × last price of the series / ceil(n / f), and the total invested is amount × ceil(n / f) |
| ReturnCalculator.SharesScale | index_process.py:45 | the shares bought scale linearly with the amount |
| ReturnCalculator.SharesAtConstantPrice | index_process.py:45 | at one constant price, n purchases buy n × amount / price shares |
| ReturnCalculator.InvestMultiple | index_process.py:45-50 | the multiple is (sum of 1/price over purchases) × last price / number of purchases |
| ReturnCalculator.AmountCancels | index_process.py:45-50 | the multiple does not depend on the amount invested per purchase |
| ReturnCalculator.InvestAtConstantPrice | index_process.py:45-50 | buying and valuing at one constant price gives a multiple of exactly 1 |
| ReturnCalculator.ConstantPriceBreaksEven | index_process.py:42-50 | a constant price series gives a multiple of exactly 1, for any step and amount |
| ReturnCalculator.SinglePurchase | index_process.py:43-50 | with f >= n or f < 0 there is one purchase: the multiple is last / first and the amount is invested once |
| ReturnCalculator.WorkedExample | index_process.py:42-50 | prices [100, 50], amount 1000, f = 1 give (0.75, 2000) |

## Left out

- `plot_graph` (matplotlib rendering) and the command-line `__main__` block (argparse, `float()` conversion of the price strings, printing) are user interface only.
- Opening the file and `csv.DictReader` parsing are not modelled. The input is the header's field names plus the already-parsed row records. CSV quoting and blank-line skipping belong to the library reader.
- `DictReader` puts surplus cells of a long row under the key `None`. The model represents this by a key outside the header, which fails with `UnexpectedField` (the `KeyError` on `index_data[None]`). A record that lacks a header key is not something the reader produces; the model's loop adds no entry for it.
- Empty input: `next()` on a file with no data row raises `StopIteration`, modelled as `NoDataRows`. A missing `Date` column (`KeyError`) is `MissingColumn`, a `None` date is `DateNotText`, and a date `get_month` rejects is `BadDate`.
- DateMonth.ParseInt: `int()` also accepts non-ASCII Unicode decimal digits (for example Arabic-Indic digits). Only ASCII digits are modelled.
- DateMonth.ParseInt: the digit limit is fixed at 4300. That is the default of `sys.get_int_max_str_digits()` in Python 3.11 and later, and in the 3.7–3.10 security releases from 3.10.7, 3.9.14, 3.8.14 and 3.7.14 on. The limit can be configured, and earlier interpreters have none.
- ReturnCalculator.CalcReturn: numpy floating point is not modelled. Rounding, and the `inf`/`nan` with a warning that numpy yields on division by zero, are replaced by exact `real` arithmetic with preconditions. The amount must be non-zero, and so must every price at a purchase index.
- ReturnCalculator.CalcReturn: `int(month_freq)` is modelled as an integer step given directly. The truncation of a fractional step is left out.
- Solving for an equivalent annual interest rate and restricting the data to a year range are not in `index_process.py`, so they are not part of this model.
