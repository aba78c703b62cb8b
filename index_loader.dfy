/**
 * The row collection and duplicate-month filter of `read_index_file`.
 *
 * The CSV reader's rows (field name to cell) arrive already parsed; a row with
 * fewer cells than the header holds `None` for the fields it lacks. The first
 * data row is consumed and thrown away; the remaining rows are pivoted into one
 * list per header field; the `Date` column is mapped through `get_month`; an
 * index is "repeated" when its month equals the month of the index before it,
 * where index 0 is compared with the LAST entry (Python's `months[-1]`); and
 * every column drops the repeated indices.
 */
module IndexLoader {
  import opened Outcomes
  import DateMonth

  /** One cell of a record: its text, or `None` when the line ended before this field. */
  type Cell = Option<string>

  /** One record from the CSV reader: field name to cell. */
  type Row = map<string, Cell>

  /** The dictionary of column lists the loader builds and returns. */
  type Table = map<string, seq<Cell>>

  /** Why `read_index_file` aborts. */
  datatype LoadError =
    | NoDataRows                          // `next()` on a reader with no data row: StopIteration
    | UnexpectedField                     // a row key outside the header: KeyError in the pivot
    | MissingColumn(name: string)         // `index_data['Date']` without such a column: KeyError
    | BadDate(cause: DateMonth.DateError) // `get_month` failed on a date
    | DateNotText                         // `get_month(None)` on a short row: AttributeError

  const DateColumn: string := "Date"

  // ---------------------------------------------------------------------------
  // Pivoting rows into columns
  // ---------------------------------------------------------------------------

  /** Every key of the row is a header field, so `index_data[key]` exists for it. */
  predicate RowFits(row: Row, fields: seq<string>) {
    forall k :: k in row ==> k in fields
  }

  /** The entries `key` receives from `rows`, in file order (a row without the key adds nothing). */
  function Column(rows: seq<Row>, key: string): seq<Cell> {
    if |rows| == 0 then []
    else
      var last := rows[|rows| - 1];
      Column(rows[..|rows| - 1], key) + (if key in last then [last[key]] else [])
  }

  /** The dictionary of column lists built from `rows`, one list per header field. */
  function Pivot(fields: seq<string>, rows: seq<Row>): Result<Table, LoadError> {
    if forall i :: 0 <= i < |rows| ==> RowFits(rows[i], fields) then
      Ok(map k | k in fields :: Column(rows, k))
    else
      Err(UnexpectedField)
  }

  /** When every row carries `key`, its column holds one entry per row, in order. */
  lemma {:induction false} ColumnOfFullRows(rows: seq<Row>, key: string)
    requires forall i :: 0 <= i < |rows| ==> key in rows[i]
    ensures |Column(rows, key)| == |rows|
    ensures forall i :: 0 <= i < |rows| ==> Column(rows, key)[i] == rows[i][key]
  {
    if |rows| > 0 {
      ColumnOfFullRows(rows[..|rows| - 1], key);
    }
  }

  // ---------------------------------------------------------------------------
  // Months and repeated indices
  // ---------------------------------------------------------------------------

  /** Apply `f` to every element, front to back; the first error aborts the whole list. */
  function MapAll<T, U, E>(f: T -> Result<U, E>, xs: seq<T>): Result<seq<U>, E> {
    if |xs| == 0 then Ok([])
    else
      match f(xs[0])
      case Err(e) => Err(e)
      case Ok(y) =>
        match MapAll(f, xs[1..])
        case Err(e) => Err(e)
        case Ok(ys) => Ok([y] + ys)
  }

  /** The mapped list exists exactly when `f` succeeds everywhere, and then holds `f`'s value per
      element; otherwise the error is that of the first element `f` fails on. */
  lemma {:induction false} MapAllSpec<T, U, E>(f: T -> Result<U, E>, xs: seq<T>)
    ensures MapAll(f, xs).Ok? <==> forall i :: 0 <= i < |xs| ==> f(xs[i]).Ok?
    ensures MapAll(f, xs).Ok? ==>
              && |MapAll(f, xs).value| == |xs|
              && forall i :: 0 <= i < |xs| ==> f(xs[i]) == Ok(MapAll(f, xs).value[i])
    ensures MapAll(f, xs).Err? ==>
              exists i :: 0 <= i < |xs| && f(xs[i]) == Err(MapAll(f, xs).error)
                && forall j :: 0 <= j < i ==> f(xs[j]).Ok?
  {
    if |xs| > 0 {
      MapAllSpec(f, xs[1..]);
      assert forall i :: 1 <= i < |xs| ==> xs[i] == xs[1..][i - 1];
      if f(xs[0]).Ok? && MapAll(f, xs[1..]).Err? {
        var i :| 0 <= i < |xs[1..]| && f(xs[1..][i]) == Err(MapAll(f, xs[1..]).error)
                 && forall j :: 0 <= j < i ==> f(xs[1..][j]).Ok?;
        assert f(xs[i + 1]) == Err(MapAll(f, xs).error);
        forall j | 0 <= j < i + 1 ensures f(xs[j]).Ok? {
          if j > 0 { assert xs[j] == xs[1..][j - 1]; }
        }
      }
    }
  }

  /** `get_month` on one cell of the `Date` column: a missing cell is `None`, which has no
      `split`. A month read from a cell is never negative. */
  function CellMonth(cell: Cell): (r: Result<int, LoadError>)
    ensures r.Ok? ==> r.value >= 0
  {
    match cell
    case None => Err(DateNotText)
    case Some(date) =>
      DateMonth.GetMonthNonNegative(date);
      match DateMonth.GetMonth(date)
      case Ok(m) => Ok(m)
      case Err(e) => Err(BadDate(e))
  }

  /** `list(map(get_month, dates))`. */
  function Months(dates: seq<Cell>): Result<seq<int>, LoadError> {
    MapAll(CellMonth, dates)
  }

  /** The months list exists exactly when every date reads, and then holds one month per date;
      otherwise the error is that of the first date that does not read. */
  lemma MonthsSpec(dates: seq<Cell>)
    ensures Months(dates).Ok? <==> forall i :: 0 <= i < |dates| ==> CellMonth(dates[i]).Ok?
    ensures Months(dates).Ok? ==>
              && |Months(dates).value| == |dates|
              && forall i :: 0 <= i < |dates| ==> CellMonth(dates[i]) == Ok(Months(dates).value[i])
    ensures Months(dates).Err? ==>
              exists i :: 0 <= i < |dates| && CellMonth(dates[i]) == Err(Months(dates).error)
                && forall j :: 0 <= j < i ==> CellMonth(dates[j]).Ok?
  {
    MapAllSpec(CellMonth, dates);
  }

  /** The first date that does not read decides the error: a `None` date behind dates that all
      read aborts the months list with an AttributeError. */
  lemma MonthsFirstFailure(dates: seq<Cell>, i: nat)
    requires i < |dates| && CellMonth(dates[i]).Err?
    requires forall j :: 0 <= j < i ==> CellMonth(dates[j]).Ok?
    ensures Months(dates) == Err(CellMonth(dates[i]).error)
  {
    MonthsSpec(dates);
  }

  /** Index `i` repeats the month before it; index 0 looks at the last entry. */
  predicate IsRepeated(months: seq<int>, i: int)
    requires 0 <= i < |months|
  {
    months[i] == months[if i == 0 then |months| - 1 else i - 1]
  }

  /** The repeated indices below `k`, in ascending order, as the loop appends them. */
  function RepeatedBelow(months: seq<int>, k: nat): seq<nat>
    requires k <= |months|
  {
    if k == 0 then []
    else RepeatedBelow(months, k - 1) + (if IsRepeated(months, k - 1) then [k - 1] else [])
  }

  function RepeatedIndices(months: seq<int>): seq<nat> {
    RepeatedBelow(months, |months|)
  }

  predicate StrictlyIncreasing(s: seq<nat>) {
    forall i, j :: 0 <= i < j < |s| ==> s[i] < s[j]
  }

  lemma {:induction false} RepeatedBelowSpec(months: seq<int>, k: nat)
    requires k <= |months|
    ensures forall i :: i in RepeatedBelow(months, k) <==> 0 <= i < k && IsRepeated(months, i)
    ensures StrictlyIncreasing(RepeatedBelow(months, k))
  {
    if k > 0 {
      RepeatedBelowSpec(months, k - 1);
      var prev := RepeatedBelow(months, k - 1);
      assert forall i :: 0 <= i < |prev| ==> prev[i] in prev;
    }
  }

  /** The repeated indices are exactly the `i` with `months[i] == months[i-1]` (cyclically), ascending. */
  lemma RepeatedIndicesSpec(months: seq<int>)
    ensures forall i :: i in RepeatedIndices(months) <==> 0 <= i < |months| && IsRepeated(months, i)
    ensures StrictlyIncreasing(RepeatedIndices(months))
  {
    RepeatedBelowSpec(months, |months|);
  }

  // ---------------------------------------------------------------------------
  // Filtering columns
  // ---------------------------------------------------------------------------

  /** `[x for i, x in enumerate(col) if i not in drop]`. */
  function FilterColumn<T>(col: seq<T>, drop: seq<nat>): seq<T> {
    if |col| == 0 then []
    else
      FilterColumn(col[..|col| - 1], drop)
      + (if |col| - 1 in drop then [] else [col[|col| - 1]])
  }

  /** The indices below `n` that are not dropped, ascending. */
  function KeptIndices(n: nat, drop: seq<nat>): seq<nat> {
    if n == 0 then []
    else KeptIndices(n - 1, drop) + (if n - 1 in drop then [] else [n - 1])
  }

  lemma {:induction false} KeptIndicesSpec(n: nat, drop: seq<nat>)
    ensures forall i :: i in KeptIndices(n, drop) <==> 0 <= i < n && i !in drop
    ensures StrictlyIncreasing(KeptIndices(n, drop))
  {
    if n > 0 {
      KeptIndicesSpec(n - 1, drop);
      var prev := KeptIndices(n - 1, drop);
      assert forall i :: 0 <= i < |prev| ==> prev[i] in prev;
    }
  }

  /** The filtered column is the order-preserving selection of the kept indices:
      its j-th entry is the entry at the j-th index not in `drop`. */
  lemma {:induction false} FilterColumnSelects<T>(col: seq<T>, drop: seq<nat>)
    ensures |FilterColumn(col, drop)| == |KeptIndices(|col|, drop)|
    ensures forall j :: 0 <= j < |FilterColumn(col, drop)| ==>
              KeptIndices(|col|, drop)[j] < |col| &&
              FilterColumn(col, drop)[j] == col[KeptIndices(|col|, drop)[j]]
  {
    if |col| > 0 {
      var n := |col| - 1;
      var prefix := col[..n];
      FilterColumnSelects(prefix, drop);
      var filtered, kept := FilterColumn(prefix, drop), KeptIndices(n, drop);
      assert FilterColumn(col, drop) == filtered + (if n in drop then [] else [col[n]]);
      assert KeptIndices(|col|, drop) == kept + (if n in drop then [] else [n]);
      forall j | 0 <= j < |filtered| ensures kept[j] < n && filtered[j] == col[kept[j]] {
        assert prefix[kept[j]] == col[kept[j]];
      }
    }
  }

  /** Nothing in `drop` indexes the column: filtering leaves it unchanged. */
  lemma {:induction false} FilterColumnKeepsAll<T>(col: seq<T>, drop: seq<nat>)
    requires forall i :: 0 <= i < |col| ==> i !in drop
    ensures FilterColumn(col, drop) == col
  {
    if |col| > 0 {
      FilterColumnKeepsAll(col[..|col| - 1], drop);
    }
  }

  /** Every index of the column is dropped: nothing is left. */
  lemma {:induction false} FilterColumnDropsAll<T>(col: seq<T>, drop: seq<nat>)
    requires forall i :: 0 <= i < |col| ==> i in drop
    ensures FilterColumn(col, drop) == []
  {
    if |col| > 0 {
      FilterColumnDropsAll(col[..|col| - 1], drop);
    }
  }

  /** Every column of the table filtered by the same index list. */
  function FilterTable(t: Table, drop: seq<nat>): Table {
    map k | k in t :: FilterColumn(t[k], drop)
  }

  // ---------------------------------------------------------------------------
  // read_index_file, lines 15-29
  // ---------------------------------------------------------------------------

  /** Lines 22-29: drop from every column the indices whose month repeats the previous one. */
  function DropRepeatedMonths(t: Table): Result<Table, LoadError> {
    if DateColumn !in t then Err(MissingColumn(DateColumn))
    else
      match Months(t[DateColumn])
      case Err(e) => Err(e)
      case Ok(months) => Ok(FilterTable(t, RepeatedIndices(months)))
  }

  /** Lines 15-29: discard the first data row, pivot the rest, drop repeated months. */
  function ReadIndexData(fields: seq<string>, rows: seq<Row>): Result<Table, LoadError> {
    if |rows| == 0 then Err(NoDataRows)
    else
      match Pivot(fields, rows[1..])
      case Err(e) => Err(e)
      case Ok(t) => DropRepeatedMonths(t)
  }

  // ---------------------------------------------------------------------------
  // Properties of the filter
  // ---------------------------------------------------------------------------

  /** No index repeats its cyclic predecessor's month. */
  predicate NoCyclicRepeat(months: seq<int>) {
    forall i :: 0 <= i < |months| ==> !IsRepeated(months, i)
  }

  /** Without cyclic repeats there is nothing to drop. */
  lemma NoRepeatNothingDropped(months: seq<int>)
    requires NoCyclicRepeat(months)
    ensures RepeatedIndices(months) == []
  {
    NoRepeatNothingBelow(months, |months|);
  }

  lemma {:induction false} NoRepeatNothingBelow(months: seq<int>, k: nat)
    requires NoCyclicRepeat(months) && k <= |months|
    ensures RepeatedBelow(months, k) == []
  {
    if k > 0 {
      NoRepeatNothingBelow(months, k - 1);
    }
  }

  /** What holds of the months kept from the prefix `months[..k]`: the newest kept month equals
      `months[k-1]` (everything after it was a repeat), the oldest differs from the last month of
      the whole series, and neighbours differ. */
  ghost predicate KeptRunInvariant(months: seq<int>, k: nat, kept: seq<int>)
    requires 0 < |months| && k <= |months|
  {
    var last := months[|months| - 1];
    && (|kept| == 0 ==> k == 0 || months[k - 1] == last)
    && (|kept| > 0 ==> 0 < k && kept[|kept| - 1] == months[k - 1] && kept[0] != last)
    && (forall i :: 0 < i < |kept| ==> !IsRepeated(kept, i))
  }

  lemma {:induction false} KeptRun(months: seq<int>, k: nat)
    requires 0 < |months| && k <= |months|
    ensures KeptRunInvariant(months, k, FilterColumn(months[..k], RepeatedIndices(months)))
  {
    var drop := RepeatedIndices(months);
    if k > 0 {
      KeptRun(months, k - 1);
      RepeatedIndicesSpec(months);
      var before := FilterColumn(months[..k - 1], drop);
      assert months[..k][..k - 1] == months[..k - 1];
      var after := FilterColumn(months[..k], drop);
      if k - 1 in drop {
        assert after == before;
      } else {
        assert after == before + [months[k - 1]];
        forall i | 0 < i < |after| ensures !IsRepeated(after, i) {
          if i < |before| {
            assert IsRepeated(after, i) == IsRepeated(before, i);
          }
        }
      }
    }
  }

  /** The months that survive the filter have no cyclic repeats. Between two kept indices every
      month equals the earlier one, and the first kept month differs from the last month, which the
      last kept month equals; so no two cyclically adjacent survivors agree, and a single survivor
      is impossible. */
  lemma FilteredMonthsHaveNoRepeat(months: seq<int>)
    ensures NoCyclicRepeat(FilterColumn(months, RepeatedIndices(months)))
  {
    var kept := FilterColumn(months, RepeatedIndices(months));
    if |months| > 0 {
      KeptRun(months, |months|);
      assert months[..|months|] == months;
      if |kept| > 0 {
        assert !IsRepeated(kept, 0);
      }
    } else {
      assert kept == [];
    }
  }

  /** Reading months commutes with filtering, when every date reads. */
  lemma MonthsOfFiltered(dates: seq<Cell>, months: seq<int>, drop: seq<nat>)
    requires Months(dates) == Ok(months)
    ensures Months(FilterColumn(dates, drop)) == Ok(FilterColumn(months, drop))
  {
    var fd := FilterColumn(dates, drop);
    var fm := FilterColumn(months, drop);
    MonthsSpec(dates);
    MonthsSpec(fd);
    FilterColumnSelects(dates, drop);
    FilterColumnSelects(months, drop);
    assert Months(fd).Ok?;
    assert Months(fd).value == fm;
  }

  /** A table whose dates have no two cyclically adjacent equal months passes unchanged. */
  lemma DropRepeatedMonthsNoOp(t: Table)
    requires DateColumn in t && Months(t[DateColumn]).Ok?
    requires NoCyclicRepeat(Months(t[DateColumn]).value)
    ensures DropRepeatedMonths(t) == Ok(t)
  {
    var drop := RepeatedIndices(Months(t[DateColumn]).value);
    NoRepeatNothingDropped(Months(t[DateColumn]).value);
    forall k | k in t ensures FilterColumn(t[k], drop) == t[k] {
      FilterColumnKeepsAll(t[k], drop);
    }
    assert FilterTable(t, drop) == t;
  }

  /** Filtering twice is filtering once. */
  lemma DropRepeatedMonthsIdempotent(t: Table, filtered: Table)
    requires DropRepeatedMonths(t) == Ok(filtered)
    ensures DropRepeatedMonths(filtered) == Ok(filtered)
  {
    var months := Months(t[DateColumn]).value;
    var drop := RepeatedIndices(months);
    assert filtered[DateColumn] == FilterColumn(t[DateColumn], drop);
    MonthsOfFiltered(t[DateColumn], months, drop);
    FilteredMonthsHaveNoRepeat(months);
    DropRepeatedMonthsNoOp(filtered);
  }

  /** Every column is filtered by the same indices, so columns of equal length stay equal in
      length and their entries stay paired: the j-th survivors come from the same row. */
  lemma DropRepeatedMonthsKeepsRowsAligned(t: Table, filtered: Table, a: string, b: string)
    requires DropRepeatedMonths(t) == Ok(filtered)
    requires a in t && b in t && |t[a]| == |t[b]|
    ensures a in filtered && b in filtered && |filtered[a]| == |filtered[b]|
    ensures forall j :: 0 <= j < |filtered[a]| ==>
              exists i :: 0 <= i < |t[a]| && filtered[a][j] == t[a][i] && filtered[b][j] == t[b][i]
  {
    var drop := RepeatedIndices(Months(t[DateColumn]).value);
    FilterColumnSelects(t[a], drop);
    FilterColumnSelects(t[b], drop);
    var kept := KeptIndices(|t[a]|, drop);
    forall j | 0 <= j < |filtered[a]|
      ensures exists i :: 0 <= i < |t[a]| && filtered[a][j] == t[a][i] && filtered[b][j] == t[b][i]
    {
      var i := kept[j];
      assert filtered[a][j] == t[a][i] && filtered[b][j] == t[b][i];
    }
  }

  /** The filtered column is an order-preserving subsequence of the original that keeps exactly
      the indices that are not repeated. */
  lemma DropRepeatedMonthsKeepsExactly(t: Table, filtered: Table, k: string)
    requires DropRepeatedMonths(t) == Ok(filtered) && k in t
    ensures k in filtered
    ensures var months := Months(t[DateColumn]).value;
            var kept := KeptIndices(|t[k]|, RepeatedIndices(months));
            && StrictlyIncreasing(kept)
            && (forall i :: i in kept <==> 0 <= i < |t[k]| && !(i < |months| && IsRepeated(months, i)))
            && |filtered[k]| == |kept|
            && (forall j :: 0 <= j < |kept| ==> kept[j] < |t[k]| && filtered[k][j] == t[k][kept[j]])
  {
    var months := Months(t[DateColumn]).value;
    var drop := RepeatedIndices(months);
    RepeatedIndicesSpec(months);
    KeptIndicesSpec(|t[k]|, drop);
    FilterColumnSelects(t[k], drop);
  }

  /** When every date falls in the same month (a single row is the smallest case), every index is
      a repeat because index 0 wraps around to the last, so every column no longer than the dates
      comes out empty. */
  lemma SameMonthEverywhereDropsAll(t: Table, month: int, k: string)
    requires DateColumn in t && k in t && |t[k]| <= |t[DateColumn]|
    requires forall i :: 0 <= i < |t[DateColumn]| ==>
               t[DateColumn][i].Some? && DateMonth.GetMonth(t[DateColumn][i].value) == Ok(month)
    ensures DropRepeatedMonths(t).Ok? && k in DropRepeatedMonths(t).value
    ensures DropRepeatedMonths(t).value[k] == []
  {
    var dates := t[DateColumn];
    assert forall i :: 0 <= i < |dates| ==> CellMonth(dates[i]) == Ok(month);
    MapAllConstant(CellMonth, dates, month);
    var months := Months(dates).value;
    SameMonthMarksAll(months, |t[k]|);
    FilterColumnDropsAll(t[k], RepeatedIndices(months));
  }

  /** Mapping a function that gives the same value everywhere gives that value everywhere. */
  lemma MapAllConstant<T, U, E>(f: T -> Result<U, E>, xs: seq<T>, y: U)
    requires forall i :: 0 <= i < |xs| ==> f(xs[i]) == Ok(y)
    ensures MapAll(f, xs).Ok? && |MapAll(f, xs).value| == |xs|
    ensures forall i :: 0 <= i < |xs| ==> MapAll(f, xs).value[i] == y
  {
    MapAllSpec(f, xs);
  }

  /** With one month everywhere, every index is marked. */
  lemma SameMonthMarksAll(months: seq<int>, n: nat)
    requires n <= |months|
    requires forall i :: 0 <= i < |months| ==> months[i] == months[0]
    ensures forall i :: 0 <= i < n ==> i in RepeatedIndices(months)
  {
    RepeatedIndicesSpec(months);
    forall i | 0 <= i < n ensures i in RepeatedIndices(months) {
      assert IsRepeated(months, i);
    }
  }

  /** Worked cases over month numbers: January, January, February drops the second row; three
      distinct months drop nothing; January, February, January drops the FIRST row because it is
      compared with the last. */
  lemma RepeatedIndicesExamples()
    ensures RepeatedIndices([1, 1, 2]) == [1]
    ensures RepeatedIndices([1, 2, 3]) == []
    ensures RepeatedIndices([1, 2, 1]) == [0]
    ensures RepeatedIndices([5]) == [0]
  {
  }

  /** The first data row never reaches the output: whatever it holds, the result is the same. */
  lemma FirstRowDiscarded(fields: seq<string>, first1: Row, first2: Row, rest: seq<Row>)
    ensures ReadIndexData(fields, [first1] + rest) == ReadIndexData(fields, [first2] + rest)
  {
    assert ([first1] + rest)[1..] == rest == ([first2] + rest)[1..];
  }

  /** Every row has exactly the header's fields as keys, as the CSV reader delivers them (a short
      row with `None` cells included). */
  predicate HeaderRows(fields: seq<string>, rows: seq<Row>) {
    forall i :: 0 <= i < |rows| ==> rows[i].Keys == set f | f in fields
  }

  /** Before filtering, each header field's column has one entry per remaining row, in file order. */
  lemma PivotOfFullRows(fields: seq<string>, rows: seq<Row>, k: string)
    requires HeaderRows(fields, rows)
    requires k in fields
    ensures Pivot(fields, rows).Ok?
    ensures k in Pivot(fields, rows).value
    ensures |Pivot(fields, rows).value[k]| == |rows|
    ensures forall i :: 0 <= i < |rows| ==> Pivot(fields, rows).value[k][i] == rows[i][k]
  {
    ColumnOfFullRows(rows, k);
  }

  /** A data row after the first that ends before its `Date` cell, behind rows whose dates all
      read, makes the load fail with the AttributeError of `get_month(None)`. */
  lemma ShortRowWithoutDateFails(fields: seq<string>, rows: seq<Row>, i: nat)
    requires HeaderRows(fields, rows)
    requires DateColumn in fields
    requires 1 <= i < |rows| && rows[i][DateColumn] == None
    requires forall j :: 1 <= j < i ==> CellMonth(rows[j][DateColumn]).Ok?
    ensures ReadIndexData(fields, rows) == Err(DateNotText)
  {
    var data := rows[1..];
    assert HeaderRows(fields, data);
    PivotOfFullRows(fields, data, DateColumn);
    var t := Pivot(fields, data).value;
    ReadIndexDataOfPivot(fields, rows, t);
    ShiftedDates(rows, t[DateColumn], i);
    NoneDateFails(t, i - 1);
  }

  /** Once the rows pivot, the result is that of the filter on the pivot. */
  lemma ReadIndexDataOfPivot(fields: seq<string>, rows: seq<Row>, t: Table)
    requires |rows| > 0 && Pivot(fields, rows[1..]) == Ok(t)
    ensures ReadIndexData(fields, rows) == DropRepeatedMonths(t)
  {
  }

  /** The dates column of the rows after the first holds row `j + 1`'s date at index `j`. */
  lemma ShiftedDates(rows: seq<Row>, dates: seq<Cell>, i: nat)
    requires 1 <= i < |rows| && |dates| == |rows| - 1
    requires forall j :: 0 <= j < |rows| - 1 ==> DateColumn in rows[1..][j] && dates[j] == rows[1..][j][DateColumn]
    requires DateColumn in rows[i] && rows[i][DateColumn] == None
    requires forall j :: 1 <= j < i ==> DateColumn in rows[j] && CellMonth(rows[j][DateColumn]).Ok?
    ensures dates[i - 1] == None
    ensures forall j :: 0 <= j < i - 1 ==> CellMonth(dates[j]).Ok?
  {
    assert rows[1..][i - 1] == rows[i];
    forall j | 0 <= j < i - 1 ensures CellMonth(dates[j]).Ok? {
      assert rows[1..][j] == rows[j + 1];
    }
  }

  /** A `None` date behind dates that all read aborts the filter with the AttributeError. */
  lemma NoneDateFails(t: Table, i: nat)
    requires DateColumn in t && i < |t[DateColumn]| && t[DateColumn][i] == None
    requires forall j :: 0 <= j < i ==> CellMonth(t[DateColumn][j]).Ok?
    ensures DropRepeatedMonths(t) == Err(DateNotText)
  {
    MonthsFirstFailure(t[DateColumn], i);
  }

  // ---------------------------------------------------------------------------
  // The loops of read_index_file
  // ---------------------------------------------------------------------------

  /** Lines 17-20: one empty list per header field, then every cell of every row appended to
      its field's list; a cell under a key outside the header is a KeyError. */
  method CollectColumns(fields: seq<string>, rows: seq<Row>) returns (r: Result<Table, LoadError>)
    ensures r == Pivot(fields, rows)
  {
    var data: Table := map k | k in fields :: [];
    var i := 0;
    while i < |rows|
      invariant 0 <= i <= |rows|
      invariant forall j :: 0 <= j < i ==> RowFits(rows[j], fields)
      invariant forall k :: k in data <==> k in fields
      invariant forall k :: k in data ==> data[k] == Column(rows[..i], k)
    {
      var row := rows[i];
      var pending := row.Keys;
      while pending != {}
        invariant pending <= row.Keys
        invariant forall k :: k in row && k !in pending ==> k in fields
        invariant forall k :: k in data <==> k in fields
        invariant forall k :: k in data ==>
                    data[k] == Column(rows[..i], k) + (if k in row && k !in pending then [row[k]] else [])
        decreases pending
      {
        var key :| key in pending;
        if key !in data {
          assert !RowFits(rows[i], fields);
          return Err(UnexpectedField);
        }
        data := data[key := data[key] + [row[key]]];
        pending := pending - {key};
      }
      assert rows[..i + 1][..i] == rows[..i];
      i := i + 1;
    }
    assert rows[..i] == rows;
    assert data == Pivot(fields, rows).value;
    return Ok(data);
  }

  /** Lines 23-26: the indices whose month equals the month before, index 0 looking at the last. */
  method FindRepeated(months: seq<int>) returns (repeated: seq<nat>)
    ensures repeated == RepeatedIndices(months)
  {
    repeated := [];
    var i := 0;
    while i < |months|
      invariant 0 <= i <= |months|
      invariant repeated == RepeatedBelow(months, i)
    {
      var previous := if i == 0 then |months| - 1 else i - 1;  // months[-1] wraps to the last entry
      if months[i] == months[previous] {
        repeated := repeated + [i];
      }
      i := i + 1;
    }
  }

  /** Lines 28-29: every column reassigned to its copy without the repeated indices. */
  method FilterColumns(collected: Table, repeated: seq<nat>) returns (data: Table)
    ensures data == FilterTable(collected, repeated)
  {
    data := collected;
    var columns := data.Keys;
    while columns != {}
      invariant columns <= collected.Keys
      invariant data.Keys == collected.Keys
      invariant forall k :: k in data ==>
                  data[k] == if k in columns then collected[k] else FilterColumn(collected[k], repeated)
      decreases columns
    {
      var key :| key in columns;
      data := data[key := FilterColumn(data[key], repeated)];
      columns := columns - {key};
    }
    assert data == FilterTable(collected, repeated);
  }

  /** `read_index_file` from the reader's rows on, step by step as the source runs it. */
  method ReadIndexFile(fields: seq<string>, rows: seq<Row>) returns (r: Result<Table, LoadError>)
    ensures r == ReadIndexData(fields, rows)
  {
    if |rows| == 0 {
      return Err(NoDataRows);
    }
    var collected := CollectColumns(fields, rows[1..]);
    if collected.Err? {
      return Err(collected.error);
    }
    var data := collected.value;
    if DateColumn !in data {
      return Err(MissingColumn(DateColumn));
    }
    var monthsRead := Months(data[DateColumn]);
    if monthsRead.Err? {
      return Err(monthsRead.error);
    }
    var repeated := FindRepeated(monthsRead.value);
    data := FilterColumns(data, repeated);
    return Ok(data);
  }
}
