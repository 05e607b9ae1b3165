# listdiff in Dafny

listdiff compares two columns of a CSV table. `find_unique_upcs` reads the
table, drops the header row when told there is one, and collects the values
("UPCs") of two chosen columns into two sets. It uses only rows that are long
enough to hold both columns. It returns the values found in exactly one of the
two sets, which is their symmetric difference. `write_to_csv` then writes that
set out, one single-field row per value.

The model has two modules. Each follows one function of `main.py`.

- `Loader` (loader.dfy) models `find_unique_upcs`.
  - The file is replaced by a `Source`. `Missing` means opening raised
    `FileNotFoundError`. `Readable(rows)` means every row was read.
    `Failed(rows)` means the reader yielded `rows` and then raised some other
    error. `Failed([])` also stands for an `open` that raised anything other
    than `FileNotFoundError` (a `PermissionError` or `IsADirectoryError`, say),
    which the generic handler at main.py:24 catches.
  - The method `FindUniqueUpcs` is the loop. It adds to two set accumulators
    and ends with their symmetric difference. It also returns the console
    messages as a `log`. Its postconditions tie both results to the
    specification functions `UniqueUpcs` and `Diagnostics`.
  - Those functions are built from `Column`: the values at one index, taken
    from the rows that pass the length test. The lemmas state what the
    program promises about them.
- `Writer` (writer.dfy) models `write_to_csv`.
  - Python visits a set in no fixed order. So the method `WriteToCsv` picks
    each next value freely with `:|`.
  - It is proved to write each value exactly once, as a row of one field. The
    row count equals the size of the set.
  - The output file is replaced by a `Destination` that can or cannot be
    opened.

Behaviour worth noting:

- A row too short for either column is skipped as a whole (main.py:17-21). It
  adds to neither set, even when it holds the other column's field.
- The function compares exactly two columns, and the writer emits no labels.
- An empty table read with a header makes `next` raise `StopIteration`
  (main.py:14). The handler at main.py:24 catches it, so an `Error` message is
  printed and the result is empty.

## Model

| member | source | states |
|---|---|---|
| Loader.FindUniqueUpcs | main.py:5-28 | the loop's two set accumulators and the final `^` give exactly the specified result, and the printed messages are exactly the specified diagnostics, on every source outcome |
| Loader.SymmetricDifference | main.py:27 | a value is in `a ^ b` exactly when it is in one of `a`, `b` and not the other |
| Loader.UniqueIsUnionMinusIntersection | main.py:27 | the result equals `(upcs1 ∪ upcs2) − (upcs1 ∩ upcs2)` |
| Loader.UniqueExactlyOne | main.py:27 | every result value lies in exactly one of the two column sets, and no value present in both is in the result |
| Loader.ColumnMembership | main.py:16-19 | a value is in a column set exactly when some data row passing the length test holds it at that column, so the sets are the deduplicated column values of the qualifying rows |
| Loader.ColumnConcat | main.py:16-19 | collecting a column over two consecutive runs of rows gives the union of the two collections |
| Loader.QualifyingRowContributes | main.py:17-19 | a data row with `len(row) > max(c1, c2)` puts `row[c1]` into `upcs1` and `row[c2]` into `upcs2` |
| Loader.ShortRowContributesNothing | main.py:17-21 | a row failing the length test, anywhere in the input, changes neither set, even if it holds one of the two fields |
| Loader.AppendRowGrows | main.py:16-19 | one more row only grows a set: by its value when the row qualifies, not at all when it does not or when the value is already there |
| Loader.PartialReadIsSubset | main.py:16-25 | when the read fails partway, each set is a subset of the set the whole table would give |
| Loader.HeaderNeverContributes | main.py:13-16 | with a header, the first row reaches neither set; the result is that of the other rows read as headerless data |
| Loader.NoHeaderFirstRowIsData | main.py:13-19 | without a header, the first row contributes to both sets like any data row |
| Loader.MissingSourceIsEmpty | main.py:6-27 | a missing file leaves both sets empty and the result empty, with only the file-not-found message |
| Loader.EmptySourceWithHeader | main.py:13-27 | an empty table read with a header reports an error and returns the empty set |
| Loader.SkippedExactlyShortRows | main.py:17-21 | the "skipping row" messages name exactly the data rows failing the length test |
| Loader.ErrorReportedIffRaised | main.py:9-25 | an error message is printed exactly when the read failed or the header was read from an empty table |
| Loader.SwapColumns | main.py:17-27 | swapping the column indices swaps the two sets and leaves the result unchanged |
| Loader.SameColumnIsEmpty | main.py:17-27 | when both indices are the same column, the result is empty |
| Loader.WorkedExample | main.py:5-28 | a header plus rows `1,2`, `3,2`, `5,6` give the result `{1, 3, 5, 2, 6}` |
| Writer.OutputRowCount | main.py:34 | a row list holding each value once, one field per row, has as many rows as the set has values |
| Writer.WriteToCsv | main.py:30-37 | writes exactly one single-field row per result value, each value once, in some order, and confirms; when the output cannot be opened it writes nothing and reports an error |

## Left out

- `main` and argument parsing (main.py:39-53): command-line glue. Column indices are `nat`. Python's negative indices count from the end, and these are not modelled.
- Opening files and the mechanics of the CSV reader and writer: the input is a sequence of rows of string fields, and the output is a sequence of rows.
- Console messages are modelled only as which messages appear, in order. The text of the messages, the file names and the exception descriptions are left out.
- `defaultdict` is imported (main.py:3) but never used.
- Loader.FindUniqueUpcs: `has_header` defaults to `True` in Python (main.py:5); here it is a required argument. The only caller (main.py:49) always passes it.
- Writer.WriteToCsv: does not model an exception raised partway through writing rows. Only a destination that cannot be opened is modelled, and then nothing is written.
- The order of output rows is left unspecified, as Python's set iteration order is.
