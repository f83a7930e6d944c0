/** `ExcelService`: the first worksheet read as one dictionary per data row,
    keyed by the header row, and the layout `ExportToExcel` writes. A worksheet
    is its used range's size and the text of its non-empty cells, indexed by
    1-based (row, column). */
module Excel {
  import opened Base
  import opened Strings

  /** `dimension` is the used range's (rows, columns), absent for an empty sheet;
      a cell is in `cells` exactly when its value is not null, and holds the
      value's text. */
  datatype Sheet = Sheet(dimension: Option<(nat, nat)>, cells: map<(int, int), string>)

  function RowCount(sh: Sheet): nat
  {
    if sh.dimension.Some? then sh.dimension.value.0 else 0
  }

  function ColCount(sh: Sheet): nat
  {
    if sh.dimension.Some? then sh.dimension.value.1 else 0
  }

  /** A data cell's text; an empty cell reads as "". */
  function CellText(sh: Sheet, row: int, col: int): string
  {
    if (row, col) in sh.cells then sh.cells[(row, col)] else ""
  }

  /** Column `col`'s header: the text in row 1, or "Column<col>" when that cell is empty. */
  function Header(sh: Sheet, col: int): string
  {
    if (1, col) in sh.cells then sh.cells[(1, col)] else "Column" + IntToString(col)
  }

  /** The rightmost column among 1..n whose header is `h`, or 0 when none is. */
  function LastColumn(sh: Sheet, h: string, n: int): (c: int)
    ensures c == 0 || (1 <= c <= n && Header(sh, c) == h)
    decreases n
  {
    if n <= 0 then 0
    else if Header(sh, n) == h then n
    else LastColumn(sh, h, n - 1)
  }

  /** `LastColumn` finds a column exactly when some column has the header, and no
      column to the right of the one it finds has it. */
  lemma {:induction false} LastColumnIsRightmost(sh: Sheet, h: string, n: int)
    ensures LastColumn(sh, h, n) == 0 <==> forall k :: 1 <= k <= n ==> Header(sh, k) != h
    ensures forall k :: LastColumn(sh, h, n) < k <= n ==> Header(sh, k) != h
    decreases n
  {
    if n > 0 && Header(sh, n) != h {
      LastColumnIsRightmost(sh, h, n - 1);
    }
  }

  /** `m` is sheet row `row` read over columns 1..n: one key per header, holding
      the cell under the rightmost column with that header (a later column
      overwrites an earlier one with the same header). */
  ghost predicate ReadsRow(sh: Sheet, m: map<string, string>, row: int, n: int)
  {
    && (forall h :: h in m <==> LastColumn(sh, h, n) != 0)
    && forall h :: h in m ==> m[h] == CellText(sh, row, LastColumn(sh, h, n))
  }

  /** Storing column n + 1's cell under its header extends a read of columns 1..n
      to a read of columns 1..n + 1. */
  lemma ReadsOneMoreColumn(sh: Sheet, m: map<string, string>, row: int, n: nat)
    requires ReadsRow(sh, m, row, n)
    ensures ReadsRow(sh, m[Header(sh, n + 1) := CellText(sh, row, n + 1)], row, n + 1)
  {
    var h1 := Header(sh, n + 1);
    var m' := m[h1 := CellText(sh, row, n + 1)];
    forall h ensures (h in m' <==> LastColumn(sh, h, n + 1) != 0)
      && (h in m' ==> m'[h] == CellText(sh, row, LastColumn(sh, h, n + 1)))
    {
      if h == h1 {
        assert LastColumn(sh, h, n + 1) == n + 1;
      } else {
        assert LastColumn(sh, h, n + 1) == LastColumn(sh, h, n);
      }
    }
  }

  /** The header row: column c's header at index c - 1. */
  method ReadHeaders(sh: Sheet, colCount: nat) returns (headers: seq<string>)
    ensures |headers| == colCount
    ensures forall k :: 1 <= k <= colCount ==> headers[k - 1] == Header(sh, k)
  {
    headers := [];
    var col := 1;
    while col <= colCount
      invariant 1 <= col <= colCount + 1
      invariant |headers| == col - 1
      invariant forall k :: 1 <= k < col ==> headers[k - 1] == Header(sh, k)
    {
      headers := headers + [Header(sh, col)];
      col := col + 1;
    }
  }

  /** One data row: each column's cell stored under that column's header, left to right. */
  method ReadRow(sh: Sheet, headers: seq<string>, row: int) returns (rowData: map<string, string>)
    requires forall k :: 1 <= k <= |headers| ==> headers[k - 1] == Header(sh, k)
    ensures ReadsRow(sh, rowData, row, |headers|)
  {
    rowData := map[];
    var col := 1;
    while col <= |headers|
      invariant 1 <= col <= |headers| + 1
      invariant ReadsRow(sh, rowData, row, col - 1)
    {
      ReadsOneMoreColumn(sh, rowData, row, col - 1);
      rowData := rowData[headers[col - 1] := CellText(sh, row, col)];
      col := col + 1;
    }
  }

  /** `ReadExcelAsync` on the first worksheet: no rows without a used range;
      otherwise row 1 gives the headers and every later row of the used range
      gives one dictionary. */
  method ReadExcel(sh: Sheet) returns (data: seq<map<string, string>>)
    ensures RowCount(sh) == 0 ==> data == []
    ensures RowCount(sh) > 0 ==> |data| == RowCount(sh) - 1
    ensures forall i :: 0 <= i < |data| ==> ReadsRow(sh, data[i], i + 2, ColCount(sh))
  {
    data := [];
    var rowCount := RowCount(sh);
    var colCount := ColCount(sh);
    if rowCount == 0 {
      return;
    }
    var headers := ReadHeaders(sh, colCount);
    var row := 2;
    while row <= rowCount
      invariant 2 <= row <= rowCount + 1
      invariant |data| == row - 2
      invariant forall i :: 0 <= i < |data| ==> ReadsRow(sh, data[i], i + 2, colCount)
    {
      var rowData := ReadRow(sh, headers, row);
      data := data + [rowData];
      row := row + 1;
    }
  }

  /** A read row's keys are exactly the headers of columns 1..n. */
  lemma ReadRowKeys(sh: Sheet, m: map<string, string>, row: int, n: int)
    requires ReadsRow(sh, m, row, n)
    ensures forall h :: h in m <==> exists c :: 1 <= c <= n && Header(sh, c) == h
  {
    forall h ensures h in m <==> exists c :: 1 <= c <= n && Header(sh, c) == h {
      LastColumnIsRightmost(sh, h, n);
      if h in m {
        var c := LastColumn(sh, h, n);
        assert 1 <= c <= n && Header(sh, c) == h;
      }
    }
  }

  /** The sheet `ExportToExcel` writes: the column names in row 1 and record i in
      row i + 2; every value is written, so every cell of the range is present. */
  function Export(names: seq<string>, records: seq<seq<string>>): (sh: Sheet)
    requires forall i :: 0 <= i < |records| ==> |records[i]| == |names|
    ensures RowCount(sh) == |records| + 1 && ColCount(sh) == |names|
    ensures forall c :: 1 <= c <= |names| ==> Header(sh, c) == names[c - 1]
    ensures forall r, c :: 2 <= r <= |records| + 1 && 1 <= c <= |names| ==> CellText(sh, r, c) == records[r - 2][c - 1]
  {
    Sheet(Some((|records| + 1, |names|)),
      map p: (int, int) | p in ExportedCells(|records|, |names|) ::
        if p.0 == 1 then names[p.1 - 1] else records[p.0 - 2][p.1 - 1])
  }

  /** The positions of a range with a header row, `rows` records and `cols` columns. */
  function ExportedCells(rows: nat, cols: nat): (ps: set<(int, int)>)
    ensures forall r, c :: (r, c) in ps <==> 1 <= r <= rows + 1 && 1 <= c <= cols
  {
    set r, c | 1 <= r <= rows + 1 && 1 <= c <= cols :: (r, c)
  }

  /** A row read under pairwise different headers is the dictionary from each
      header to the cell in its column. */
  lemma DistinctHeadersReadBack(sh: Sheet, names: seq<string>, record: seq<string>, m: map<string, string>, row: int)
    requires |record| == |names|
    requires forall a, b :: 0 <= a < b < |names| ==> names[a] != names[b]
    requires forall c :: 1 <= c <= |names| ==> Header(sh, c) == names[c - 1]
    requires forall c :: 1 <= c <= |names| ==> CellText(sh, row, c) == record[c - 1]
    requires ReadsRow(sh, m, row, |names|)
    ensures forall h :: h in m <==> h in names
    ensures forall k :: 0 <= k < |names| ==> m[names[k]] == record[k]
  {
    ReadRowKeys(sh, m, row, |names|);
    forall h ensures h in m <==> h in names {
      if h in names {
        var k :| 0 <= k < |names| && names[k] == h;
        assert Header(sh, k + 1) == h;
      }
    }
    forall k | 0 <= k < |names| ensures m[names[k]] == record[k] {
      assert Header(sh, k + 1) == names[k];
      var c := LastColumn(sh, names[k], |names|);
      LastColumnIsRightmost(sh, names[k], |names|);
      assert Header(sh, c) == names[c - 1];
      assert c == k + 1;
    }
  }

  /** Reading back an exported sheet whose column names are distinct gives each
      record as the dictionary from column name to value. */
  lemma ExportReadsBack(names: seq<string>, records: seq<seq<string>>, m: map<string, string>, i: int)
    requires forall k :: 0 <= k < |records| ==> |records[k]| == |names|
    requires forall a, b :: 0 <= a < b < |names| ==> names[a] != names[b]
    requires 0 <= i < |records|
    requires ReadsRow(Export(names, records), m, i + 2, |names|)
    ensures forall h :: h in m <==> h in names
    ensures forall k :: 0 <= k < |names| ==> m[names[k]] == records[i][k]
  {
    var sh := Export(names, records);
    var row, record := i + 2, records[i];
    forall c | 1 <= c <= |names| ensures CellText(sh, row, c) == record[c - 1] {
      assert 2 <= row <= |records| + 1;
    }
    DistinctHeadersReadBack(sh, names, record, m, row);
  }
}
