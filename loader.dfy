/** `find_unique_upcs` of listdiff: it reads a table, collects the values of
    two selected columns into two sets, and ends with the set expression
    `upcs1 ^ upcs2`, the values that lie in exactly one of them. */
module Loader {

  /** One record of the table: its fields, in order. */
  type Row = seq<string>

  /** What opening and reading the source table yields. */
  datatype Source =
    | Missing                  // opening the file raised FileNotFoundError
    | Readable(rows: seq<Row>) // the reader yielded every row, header included
    | Failed(rows: seq<Row>)   // the reader yielded these rows, then raised another error;
                               // Failed([]) is also an open that raised anything but
                               // FileNotFoundError (PermissionError, IsADirectoryError)

  /** A console message of the loader. */
  datatype Message =
    | SkippingRow(row: Row)    // a data row too short for the selected columns
    | FileNotFound             // the source could not be opened
    | Error                    // any other exception, including an empty table whose header is read

  function Max(a: nat, b: nat): nat
  {
    if a < b then b else a
  }

  /** The row-length test: the row holds a field at both selected indices. */
  predicate Qualifies(row: Row, c1: nat, c2: nat)
  {
    |row| > Max(c1, c2)
  }

  /** The rows the loop over the reader visits once the optional header is consumed. */
  function DataRows(rows: seq<Row>, hasHeader: bool): seq<Row>
  {
    if hasHeader && rows != [] then rows[1..]
    else if hasHeader then []
    else rows
  }

  /** The data rows of a source; a missing file has none. */
  function Loaded(source: Source, hasHeader: bool): seq<Row>
  {
    match source
    case Missing => []
    case Readable(rows) => DataRows(rows, hasHeader)
    case Failed(rows) => DataRows(rows, hasHeader)
  }

  /** The values at index `c` of the rows that pass the length test for `c` and `other`. */
  function Column(rows: seq<Row>, c: nat, other: nat): set<string>
  {
    if rows == [] then {}
    else
      var last := rows[|rows| - 1];
      Column(rows[..|rows| - 1], c, other) + (if Qualifies(last, c, other) then {last[c]} else {})
  }

  /** The "Skipping row" messages for the rows that fail the length test, in order. */
  function Skipped(rows: seq<Row>, c1: nat, c2: nat): seq<Message>
  {
    if rows == [] then []
    else
      var last := rows[|rows| - 1];
      Skipped(rows[..|rows| - 1], c1, c2) + (if Qualifies(last, c1, c2) then [] else [SkippingRow(last)])
  }

  /** The set `upcs1` holds once the loader is done. */
  function Upcs1(source: Source, c1: nat, c2: nat, hasHeader: bool): set<string>
  {
    Column(Loaded(source, hasHeader), c1, c2)
  }

  /** The set `upcs2` holds once the loader is done. */
  function Upcs2(source: Source, c1: nat, c2: nat, hasHeader: bool): set<string>
  {
    Column(Loaded(source, hasHeader), c2, c1)
  }

  /** Python's `a ^ b` on sets. */
  function SymmetricDifference(a: set<string>, b: set<string>): (r: set<string>)
    ensures forall v :: v in r <==> (v in a) != (v in b)
  {
    (a - b) + (b - a)
  }

  /** The value `find_unique_upcs` returns. */
  function UniqueUpcs(source: Source, c1: nat, c2: nat, hasHeader: bool): set<string>
  {
    SymmetricDifference(Upcs1(source, c1, c2, hasHeader), Upcs2(source, c1, c2, hasHeader))
  }

  /** The messages `find_unique_upcs` prints, in order. */
  function Diagnostics(source: Source, c1: nat, c2: nat, hasHeader: bool): seq<Message>
  {
    match source
    case Missing => [FileNotFound]
    case Readable(rows) =>
      if hasHeader && rows == [] then [Error] else Skipped(DataRows(rows, hasHeader), c1, c2)
    case Failed(rows) => Skipped(DataRows(rows, hasHeader), c1, c2) + [Error]
  }

  /** `find_unique_upcs`: one pass over the rows adding to two set accumulators,
      then their symmetric difference. `log` is what the function prints. */
  method FindUniqueUpcs(source: Source, column1Index: nat, column2Index: nat, hasHeader: bool)
    returns (uniqueUpcs: set<string>, log: seq<Message>)
    ensures uniqueUpcs == UniqueUpcs(source, column1Index, column2Index, hasHeader)
    ensures log == Diagnostics(source, column1Index, column2Index, hasHeader)
  {
    var upcs1: set<string> := {};
    var upcs2: set<string> := {};
    log := [];
    if source.Missing? {
      log := [FileNotFound];
    } else {
      var rows := source.rows;
      var raised := source.Failed?;
      var data := rows;
      if hasHeader {
        if rows == [] {
          // next(reader) raises on an empty table; the generic handler catches it
          raised := true;
        } else {
          data := rows[1..];
        }
      }
      if !(hasHeader && rows == []) {
        for i := 0 to |data|
          invariant upcs1 == Column(data[..i], column1Index, column2Index)
          invariant upcs2 == Column(data[..i], column2Index, column1Index)
          invariant log == Skipped(data[..i], column1Index, column2Index)
        {
          var row := data[i];
          assert data[..i + 1][..i] == data[..i];
          if |row| > Max(column1Index, column2Index) {
            upcs1 := upcs1 + {row[column1Index]};
            upcs2 := upcs2 + {row[column2Index]};
          } else {
            log := log + [SkippingRow(row)];
          }
        }
        assert data[..|data|] == data;
      }
      if raised {
        log := log + [Error];
      }
    }
    uniqueUpcs := SymmetricDifference(upcs1, upcs2);
  }

  // ---------------------------------------------------------------------------
  // The column sets

  /** Collecting a column over two runs of rows gives the union of the two collections. */
  lemma {:induction false} ColumnConcat(a: seq<Row>, b: seq<Row>, c: nat, other: nat)
    ensures Column(a + b, c, other) == Column(a, c, other) + Column(b, c, other)
    decreases |b|
  {
    if b == [] {
      assert a + b == a;
    } else {
      var b' := b[..|b| - 1];
      assert (a + b)[..|a + b| - 1] == a + b';
      assert (a + b)[|a + b| - 1] == b[|b| - 1];
      ColumnConcat(a, b', c, other);
    }
  }

  /** A value is in a column set exactly when some qualifying row holds it at that column. */
  lemma {:induction false} ColumnMembership(rows: seq<Row>, c: nat, other: nat, v: string)
    ensures v in Column(rows, c, other) <==>
            exists i :: 0 <= i < |rows| && Qualifies(rows[i], c, other) && rows[i][c] == v
    decreases |rows|
  {
    if rows != [] {
      var init := rows[..|rows| - 1];
      ColumnMembership(init, c, other, v);
      if v in Column(init, c, other) {
        var i :| 0 <= i < |init| && Qualifies(init[i], c, other) && init[i][c] == v;
        assert rows[i] == init[i];
      }
      if exists i :: 0 <= i < |rows| && Qualifies(rows[i], c, other) && rows[i][c] == v {
        var i :| 0 <= i < |rows| && Qualifies(rows[i], c, other) && rows[i][c] == v;
        if i < |rows| - 1 {
          assert init[i] == rows[i];
        }
      }
    }
  }

  /** A data row that passes the length test puts its first selected field into
      `upcs1` and its second into `upcs2`. */
  lemma QualifyingRowContributes(source: Source, c1: nat, c2: nat, hasHeader: bool, i: nat)
    requires i < |Loaded(source, hasHeader)|
    requires Qualifies(Loaded(source, hasHeader)[i], c1, c2)
    ensures Loaded(source, hasHeader)[i][c1] in Upcs1(source, c1, c2, hasHeader)
    ensures Loaded(source, hasHeader)[i][c2] in Upcs2(source, c1, c2, hasHeader)
  {
    var data := Loaded(source, hasHeader);
    ColumnMembership(data, c1, c2, data[i][c1]);
    assert Qualifies(data[i], c2, c1);
    ColumnMembership(data, c2, c1, data[i][c2]);
  }

  /** A row that fails the length test adds to neither set, even when it does
      hold a field at one of the two indices. */
  lemma ShortRowContributesNothing(before: seq<Row>, row: Row, after: seq<Row>, c1: nat, c2: nat)
    requires !Qualifies(row, c1, c2)
    ensures Column(before + [row] + after, c1, c2) == Column(before + after, c1, c2)
    ensures Column(before + [row] + after, c2, c1) == Column(before + after, c2, c1)
  {
    ColumnConcat(before + [row], after, c1, c2);
    ColumnConcat(before, [row], c1, c2);
    ColumnConcat(before, after, c1, c2);
    ColumnConcat(before + [row], after, c2, c1);
    ColumnConcat(before, [row], c2, c1);
    ColumnConcat(before, after, c2, c1);
  }

  /** Reading one more row only grows a column set: by that row's value when it
      passes the length test, and not at all when the value is already there. */
  lemma AppendRowGrows(rows: seq<Row>, row: Row, c: nat, other: nat)
    ensures Column(rows, c, other) <= Column(rows + [row], c, other)
    ensures Qualifies(row, c, other) ==> Column(rows + [row], c, other) == Column(rows, c, other) + {row[c]}
    ensures !Qualifies(row, c, other) ==> Column(rows + [row], c, other) == Column(rows, c, other)
    ensures Qualifies(row, c, other) && row[c] in Column(rows, c, other) ==>
              Column(rows + [row], c, other) == Column(rows, c, other)
  {
  }

  /** A read that fails partway leaves each set a subset of what the whole table gives. */
  lemma PartialReadIsSubset(prefix: seq<Row>, rest: seq<Row>, c1: nat, c2: nat, hasHeader: bool)
    ensures Upcs1(Failed(prefix), c1, c2, hasHeader) <= Upcs1(Readable(prefix + rest), c1, c2, hasHeader)
    ensures Upcs2(Failed(prefix), c1, c2, hasHeader) <= Upcs2(Readable(prefix + rest), c1, c2, hasHeader)
  {
    var whole := DataRows(prefix + rest, hasHeader);
    var part := DataRows(prefix, hasHeader);
    if hasHeader && prefix == [] {
      assert part == [];
    } else if hasHeader {
      assert whole == part + rest;
      ColumnConcat(part, rest, c1, c2);
      ColumnConcat(part, rest, c2, c1);
    } else {
      assert whole == part + rest;
      ColumnConcat(part, rest, c1, c2);
      ColumnConcat(part, rest, c2, c1);
    }
  }

  // ---------------------------------------------------------------------------
  // The header row

  /** With a header, the first row never reaches either set: the result is that
      of the remaining rows read as headerless data, whatever the header holds. */
  lemma HeaderNeverContributes(header: Row, rows: seq<Row>, c1: nat, c2: nat)
    ensures Upcs1(Readable([header] + rows), c1, c2, true) == Upcs1(Readable(rows), c1, c2, false)
    ensures Upcs2(Readable([header] + rows), c1, c2, true) == Upcs2(Readable(rows), c1, c2, false)
    ensures UniqueUpcs(Readable([header] + rows), c1, c2, true) == UniqueUpcs(Readable(rows), c1, c2, false)
  {
  }

  /** Without a header, the first row is data like any other. */
  lemma NoHeaderFirstRowIsData(first: Row, rows: seq<Row>, c1: nat, c2: nat)
    ensures Upcs1(Readable([first] + rows), c1, c2, false) ==
            (if Qualifies(first, c1, c2) then {first[c1]} else {}) + Upcs1(Readable(rows), c1, c2, false)
    ensures Upcs2(Readable([first] + rows), c1, c2, false) ==
            (if Qualifies(first, c1, c2) then {first[c2]} else {}) + Upcs2(Readable(rows), c1, c2, false)
  {
    ColumnConcat([first], rows, c1, c2);
    ColumnConcat([first], rows, c2, c1);
    assert [first][..0] == [];
  }

  // ---------------------------------------------------------------------------
  // Error paths

  /** A missing file leaves both sets empty, so the result is empty; the only
      message names the missing file. */
  lemma MissingSourceIsEmpty(c1: nat, c2: nat, hasHeader: bool)
    ensures Upcs1(Missing, c1, c2, hasHeader) == {} && Upcs2(Missing, c1, c2, hasHeader) == {}
    ensures UniqueUpcs(Missing, c1, c2, hasHeader) == {}
    ensures Diagnostics(Missing, c1, c2, hasHeader) == [FileNotFound]
  {
  }

  /** An empty table read with a header: reading the header raises, the generic
      handler reports it, and the result is empty. */
  lemma EmptySourceWithHeader(c1: nat, c2: nat)
    ensures UniqueUpcs(Readable([]), c1, c2, true) == {}
    ensures Diagnostics(Readable([]), c1, c2, true) == [Error]
  {
  }

  /** The messages report exactly the short data rows, and an error exactly when
      the read raised. */
  lemma {:induction false} SkippedExactlyShortRows(rows: seq<Row>, c1: nat, c2: nat, m: Message)
    ensures m in Skipped(rows, c1, c2) <==>
            m.SkippingRow? && exists i :: 0 <= i < |rows| && rows[i] == m.row && !Qualifies(rows[i], c1, c2)
    decreases |rows|
  {
    if rows != [] {
      var init := rows[..|rows| - 1];
      SkippedExactlyShortRows(init, c1, c2, m);
      if m in Skipped(init, c1, c2) {
        var i :| 0 <= i < |init| && init[i] == m.row && !Qualifies(init[i], c1, c2);
        assert rows[i] == init[i];
      }
      if m.SkippingRow? && exists i :: 0 <= i < |rows| && rows[i] == m.row && !Qualifies(rows[i], c1, c2) {
        var i :| 0 <= i < |rows| && rows[i] == m.row && !Qualifies(rows[i], c1, c2);
        if i < |rows| - 1 {
          assert init[i] == rows[i];
        }
      }
    }
  }

  /** An `Error` message is printed exactly when the reader raised: a read that
      failed, or a header read from an empty table. */
  lemma ErrorReportedIffRaised(source: Source, c1: nat, c2: nat, hasHeader: bool)
    ensures Error in Diagnostics(source, c1, c2, hasHeader) <==>
            source.Failed? || (source.Readable? && hasHeader && source.rows == [])
  {
    match source
    case Missing =>
    case Readable(rows) =>
      if !(hasHeader && rows == []) {
        SkippedExactlyShortRows(DataRows(rows, hasHeader), c1, c2, Error);
      }
    case Failed(rows) =>
  }

  // ---------------------------------------------------------------------------
  // The final `upcs1 ^ upcs2`

  /** The result is the union of the two sets minus their intersection. */
  lemma UniqueIsUnionMinusIntersection(source: Source, c1: nat, c2: nat, hasHeader: bool)
    ensures UniqueUpcs(source, c1, c2, hasHeader) ==
            (Upcs1(source, c1, c2, hasHeader) + Upcs2(source, c1, c2, hasHeader))
            - (Upcs1(source, c1, c2, hasHeader) * Upcs2(source, c1, c2, hasHeader))
  {
  }

  /** A value is in the result exactly when it is in one of the two sets and not
      the other; so no value found in both columns is ever reported. */
  lemma UniqueExactlyOne(source: Source, c1: nat, c2: nat, hasHeader: bool, v: string)
    ensures v in UniqueUpcs(source, c1, c2, hasHeader) <==>
            (v in Upcs1(source, c1, c2, hasHeader) && v !in Upcs2(source, c1, c2, hasHeader)) ||
            (v !in Upcs1(source, c1, c2, hasHeader) && v in Upcs2(source, c1, c2, hasHeader))
    ensures v in Upcs1(source, c1, c2, hasHeader) && v in Upcs2(source, c1, c2, hasHeader) ==>
            v !in UniqueUpcs(source, c1, c2, hasHeader)
  {
  }

  /** Swapping the two column indices swaps the two sets and leaves the result unchanged. */
  lemma SwapColumns(source: Source, c1: nat, c2: nat, hasHeader: bool)
    ensures Upcs1(source, c2, c1, hasHeader) == Upcs2(source, c1, c2, hasHeader)
    ensures UniqueUpcs(source, c2, c1, hasHeader) == UniqueUpcs(source, c1, c2, hasHeader)
  {
  }

  /** Comparing a column with itself finds nothing. */
  lemma SameColumnIsEmpty(source: Source, c: nat, hasHeader: bool)
    ensures UniqueUpcs(source, c, c, hasHeader) == {}
  {
  }

  /** A worked table: a header, then rows whose second column repeats "2".
      Neither column shares a value with the other, so all five values are reported. */
  lemma WorkedExample()
    ensures UniqueUpcs(Readable([["A", "B"], ["1", "2"], ["3", "2"], ["5", "6"]]), 0, 1, true)
            == {"1", "3", "5", "2", "6"}
  {
    var data := [["1", "2"], ["3", "2"], ["5", "6"]];
    assert DataRows([["A", "B"], ["1", "2"], ["3", "2"], ["5", "6"]], true) == data;
    var one := [["1", "2"]];
    var two := [["1", "2"], ["3", "2"]];
    assert one[..0] == [] && two[..1] == one && data[..2] == two;
    assert Column(one, 0, 1) == {"1"} && Column(one, 1, 0) == {"2"};
    assert Column(two, 0, 1) == {"1", "3"} && Column(two, 1, 0) == {"2"};
    assert Column(data, 0, 1) == {"1", "3", "5"};
    assert Column(data, 1, 0) == {"2", "6"};
  }
}
