/**
 * The JSON layout object: it holds the result set and two caches, the
 * column names and the row headers, each filled on first use and never
 * invalidated. Its methods are proved to compute the functions of module
 * Flattening.
 */
module JsonLayouts {
  import opened Wrappers
  import opened FriendlyNames
  import opened Records
  import opened Flattening

  class JsonLayout<V> {
    const resultSet: ResultSet<V>

    /** `$columns`: unset (None) until `GetColumns` first runs. */
    var columns: Option<seq<string>>

    /** `$rows`: unset (None) until `GetRows` first runs. */
    var rows: Option<seq<seq<Header>>>

    /** A filled cache holds exactly what it is computed from. */
    ghost predicate Valid()
      reads this
    {
      && (columns.Some? ==> HasFirstMembers(resultSet.colAxisSet) && columns.value == ColumnNames(resultSet.colAxisSet))
      && (rows.Some? ==> rows.value == RowHeaders(resultSet.rowAxisSet))
    }

    constructor (resultSet: ResultSet<V>)
      ensures Valid()
      ensures this.resultSet == resultSet && columns == None && rows == None
    {
      this.resultSet := resultSet;
      columns := None;
      rows := None;
    }

    /**
     * One name per column tuple, in tuple order: the first member's unique
     * name, normalised; duplicates are kept. Once the cache is filled the
     * call returns it and changes nothing.
     */
    method GetColumns() returns (cols: seq<string>)
      requires Valid()
      requires HasFirstMembers(resultSet.colAxisSet)
      modifies this`columns
      ensures Valid()
      ensures columns == Some(cols)
      ensures old(columns).Some? ==> columns == old(columns)
      ensures |cols| == |resultSet.colAxisSet|
      ensures forall i :: 0 <= i < |cols| ==> cols[i] == FriendlyName(resultSet.colAxisSet[i][0].uniqueName)
    {
      if columns.None? {
        columns := Some([]);
        var rawColumns: seq<Tuple> := resultSet.colAxisSet;
        for i := 0 to |rawColumns|
          invariant columns.Some? && |columns.value| == i
          invariant forall k :: 0 <= k < i ==> columns.value[k] == FriendlyName(rawColumns[k][0].uniqueName)
        {
          columns := Some(columns.value + [FriendlyName(rawColumns[i][0].uniqueName)]);
        }
      }
      cols := columns.value;
    }

    /**
     * One header list per row tuple, in tuple order, one `{name, caption}`
     * per member: the level name normalised, the caption verbatim. Once the
     * cache is filled the call returns it and changes nothing.
     */
    method GetRows() returns (rs: seq<seq<Header>>)
      requires Valid()
      modifies this`rows
      ensures Valid()
      ensures rows == Some(rs)
      ensures old(rows).Some? ==> rows == old(rows)
      ensures |rs| == |resultSet.rowAxisSet|
      ensures forall i :: 0 <= i < |rs| ==> |rs[i]| == |resultSet.rowAxisSet[i]|
      ensures forall i, j :: 0 <= i < |rs| && 0 <= j < |rs[i]| ==>
                rs[i][j] == Header(FriendlyName(resultSet.rowAxisSet[i][j].levelUniqueName),
                                   resultSet.rowAxisSet[i][j].caption)
    {
      if rows.None? {
        rows := Some([]);
        var rawRows: seq<Tuple> := resultSet.rowAxisSet;
        for i := 0 to |rawRows|
          invariant rows == Some(RowHeaders(rawRows)[..i])
        {
          var row := [];
          for j := 0 to |rawRows[i]|
            invariant row == RowHeaders(rawRows)[i][..j]
          {
            row := row + [Header(FriendlyName(rawRows[i][j].levelUniqueName), rawRows[i][j].caption)];
          }
          assert row == RowHeaders(rawRows)[i];
          assert RowHeaders(rawRows)[..i + 1] == RowHeaders(rawRows)[..i] + [row];
          rows := Some(rows.value + [row]);
        }
      }
      rs := rows.value;
    }

    /**
     * The record of row `rowIndex`: the row's headers, then one field per
     * column holding the cell at `count(columns) * rowIndex + j`, or `null`
     * outside the buffer; PHP array assignment decides order and overrides.
     */
    method BuildResult(rowIndex: nat) returns (result: Record<V>)
      requires Valid()
      requires HasFirstMembers(resultSet.colAxisSet)
      requires rowIndex < |resultSet.rowAxisSet|
      modifies this`columns, this`rows
      ensures Valid()
      ensures columns == Some(ColumnNames(resultSet.colAxisSet))
      ensures rows == Some(RowHeaders(resultSet.rowAxisSet))
      ensures result == RowRecord(RowHeaders(resultSet.rowAxisSet)[rowIndex],
                                  ColumnNames(resultSet.colAxisSet), resultSet.dataSet, rowIndex)
    {
      var headerRows := GetRows();
      var columnNames := GetColumns();
      result := AssembleRecord(headerRows[rowIndex], columnNames, resultSet.dataSet, rowIndex);
    }

    /**
     * One record per row tuple, record `i` built from row `i`. With no row
     * tuple the column cache is never consulted.
     */
    method BuildResultList() returns (resultList: seq<Record<V>>)
      requires Valid()
      requires resultSet.rowAxisSet != [] ==> HasFirstMembers(resultSet.colAxisSet)
      modifies this`columns, this`rows
      ensures Valid()
      ensures resultList == Flatten(resultSet)
      ensures rows == Some(RowHeaders(resultSet.rowAxisSet))
      ensures resultSet.rowAxisSet != [] ==> columns == Some(ColumnNames(resultSet.colAxisSet))
      ensures resultSet.rowAxisSet == [] ==> columns == old(columns)
    {
      resultList := [];
      var rowIndex := 0;
      var headerRows := GetRows();
      while rowIndex < |headerRows|
        invariant Valid()
        invariant rows == Some(RowHeaders(resultSet.rowAxisSet)) && headerRows == rows.value
        invariant rowIndex <= |headerRows|
        invariant resultList == Flatten(resultSet)[..rowIndex]
        invariant resultSet.rowAxisSet == [] ==> columns == old(columns)
        invariant rowIndex > 0 ==> columns == Some(ColumnNames(resultSet.colAxisSet))
        decreases |headerRows| - rowIndex
      {
        var record := BuildResult(rowIndex);
        resultList := resultList + [record];
        rowIndex := rowIndex + 1;
        headerRows := GetRows();
      }
    }

    /** `generate`: the record list that `json_encode` serialises. */
    method Generate() returns (records: seq<Record<V>>)
      requires Valid()
      requires resultSet.rowAxisSet != [] ==> HasFirstMembers(resultSet.colAxisSet)
      modifies this`columns, this`rows
      ensures Valid()
      ensures records == Flatten(resultSet)
      ensures rows == Some(RowHeaders(resultSet.rowAxisSet))
      ensures resultSet.rowAxisSet != [] ==> columns == Some(ColumnNames(resultSet.colAxisSet))
      ensures resultSet.rowAxisSet == [] ==> columns == old(columns)
    {
      records := BuildResultList();
    }
  }

  /**
   * The body of `buildResult` once the caches are read: assign each header
   * caption under its normalised name, then each column's cell (the cell at
   * `count(columns) * rowIndex + j`, or `null` when that index is outside
   * the buffer) under the column's name.
   */
  method AssembleRecord<V>(row: seq<Header>, columnNames: seq<string>, dataSet: seq<Option<V>>, rowIndex: nat)
    returns (result: Record<V>)
    ensures result == RowRecord(row, columnNames, dataSet, rowIndex)
  {
    result := [];
    var rowRelativeIndex := |columnNames| * rowIndex;
    ghost var writes := HeaderWrites<V>(row) + ColumnWrites(columnNames, dataSet, rowRelativeIndex);

    for h := 0 to |row|
      invariant result == Apply(writes[..h])
    {
      var columnName := FriendlyName(row[h].name);
      assert writes[h] == (columnName, Text(row[h].caption));
      ApplyPrefix(writes, h);
      result := Assign(result, columnName, Text(row[h].caption));
    }

    for columnIndex := 0 to |columnNames|
      invariant result == Apply(writes[..|row| + columnIndex])
    {
      var value := if rowRelativeIndex + columnIndex < |dataSet|
                   then ValueField(dataSet[rowRelativeIndex + columnIndex])
                   else Null;
      assert writes[|row| + columnIndex] == (columnNames[columnIndex], value);
      ApplyPrefix(writes, |row| + columnIndex);
      result := Assign(result, columnNames[columnIndex], value);
    }
    assert writes[..|row| + |columnNames|] == writes;
  }
}
