/**
 * What the JSON layout computes, as functions of the result set: the column
 * names, the row headers, one record per row and the record list. The class
 * in module JsonLayouts is proved to compute exactly these.
 */
module Flattening {
  import opened Wrappers
  import opened FriendlyNames
  import opened Records

  /** An axis member, reduced to the three getters the layout calls. */
  datatype Member = Member(uniqueName: string, levelUniqueName: string, caption: string)

  /** One position on an axis. */
  type Tuple = seq<Member>

  /**
   * The result set: `getColAxisSet()`, `getRowAxisSet()` and `getDataSet()`,
   * the cell buffer in row-major order, each cell given by its `getValue()`.
   */
  datatype ResultSet<V> = ResultSet(colAxisSet: seq<Tuple>, rowAxisSet: seq<Tuple>, dataSet: seq<Option<V>>)

  /** One `{name, caption}` entry of a row. */
  datatype Header = Header(name: string, caption: string)

  /** Every column tuple has a first member (`$rawColumn[0]` exists). */
  predicate HasFirstMembers(tuples: seq<Tuple>)
  {
    forall i :: 0 <= i < |tuples| ==> tuples[i] != []
  }

  /** The identifier of a column: its first member's unique name, normalised. */
  function ColumnNames(tuples: seq<Tuple>): seq<string>
    requires HasFirstMembers(tuples)
  {
    seq(|tuples|, i requires 0 <= i < |tuples| => FriendlyName(tuples[i][0].uniqueName))
  }

  /** The header entry of one row member: its level name normalised, its caption verbatim. */
  function HeaderOf(m: Member): Header
  {
    Header(FriendlyName(m.levelUniqueName), m.caption)
  }

  function RowHeaders(tuples: seq<Tuple>): seq<seq<Header>>
  {
    seq(|tuples|, i requires 0 <= i < |tuples| =>
      seq(|tuples[i]|, j requires 0 <= j < |tuples[i]| => HeaderOf(tuples[i][j])))
  }

  /** A cell value as a record field; PHP `null` stays `null`. */
  function ValueField<V>(value: Option<V>): Field<V>
  {
    match value
    case Some(v) => Scalar(v)
    case None => Null
  }

  /** `isset($dataSet[$index]) ? $dataSet[$index]->getValue() : null`. */
  function CellField<V>(data: seq<Option<V>>, index: nat): Field<V>
  {
    if index < |data| then ValueField(data[index]) else Null
  }

  /** The header assignments of a row, in row order. */
  function HeaderWrites<V>(row: seq<Header>): seq<Write<V>>
  {
    seq(|row|, h requires 0 <= h < |row| => (FriendlyName(row[h].name), Text(row[h].caption)))
  }

  /** The column assignments of the row whose cells start at `offset`. */
  function ColumnWrites<V>(columns: seq<string>, data: seq<Option<V>>, offset: nat): seq<Write<V>>
  {
    seq(|columns|, j requires 0 <= j < |columns| => (columns[j], CellField(data, offset + j)))
  }

  /** The record of row `rowIndex`: header writes, then column writes, into an empty array. */
  function RowRecord<V>(row: seq<Header>, columns: seq<string>, data: seq<Option<V>>, rowIndex: nat): Record<V>
  {
    Apply(HeaderWrites(row) + ColumnWrites(columns, data, |columns| * rowIndex))
  }

  /** The layout's whole output: one record per row tuple, in row order. */
  function Flatten<V>(rs: ResultSet<V>): seq<Record<V>>
    requires rs.rowAxisSet != [] ==> HasFirstMembers(rs.colAxisSet)
  {
    seq(|rs.rowAxisSet|, i requires 0 <= i < |rs.rowAxisSet| =>
      RowRecord(RowHeaders(rs.rowAxisSet)[i], ColumnNames(rs.colAxisSet), rs.dataSet, i))
  }

  /** The keys the header writes of a row use (`friendlyName($column["name"])`). */
  function HeaderNames(row: seq<Header>): seq<string>
  {
    seq(|row|, h requires 0 <= h < |row| => FriendlyName(row[h].name))
  }

  /** The normalised level names of a row tuple, in member order. */
  function LevelNames(tuple: Tuple): seq<string>
  {
    seq(|tuple|, j requires 0 <= j < |tuple| => FriendlyName(tuple[j].levelUniqueName))
  }

  /** No column after `j` has the same name as column `j`. */
  predicate IsLastOccurrence(names: seq<string>, j: nat)
  {
    j < |names| && forall m :: j < m < |names| ==> names[m] != names[j]
  }

  // ----- index arithmetic -----

  /** Cell `(i, j)` of an `R` by `C` grid lies inside a buffer of `R * C` cells. */
  lemma GridIndexInRange(rows: nat, cols: nat, i: nat, j: nat)
    requires i < rows && j < cols
    ensures cols * i + j < rows * cols
  {
    calc {
      cols * i + j;
    <  cols * i + cols;
    == cols * (i + 1);
    <= { MulMonotone(cols, i + 1, rows); }
       cols * rows;
    }
  }

  lemma MulMonotone(c: nat, a: nat, b: nat)
    requires a <= b
    ensures c * a <= c * b
  {
  }

  /** Distinct cells of a row-major grid sit at distinct buffer offsets. */
  lemma GridIndexUnique(cols: nat, i: nat, j: nat, i': nat, j': nat)
    requires j < cols && j' < cols
    requires cols * i + j == cols * i' + j'
    ensures i == i' && j == j'
  {
    if i < i' {
      MulMonotone(cols, i + 1, i');
      assert false;
    } else if i' < i {
      MulMonotone(cols, i' + 1, i);
      assert false;
    }
  }

  // ----- one record -----

  /**
   * The keys of a row's record are its header names followed by its column
   * names, each key kept once at its first position.
   */
  lemma RowRecordKeys<V>(row: seq<Header>, columns: seq<string>, data: seq<Option<V>>, rowIndex: nat)
    ensures Keys(RowRecord(row, columns, data, rowIndex))
         == FirstOccurrences(HeaderNames(row) + columns)
    ensures Distinct(Keys(RowRecord(row, columns, data, rowIndex)))
  {
    var w := HeaderWrites<V>(row) + ColumnWrites(columns, data, |columns| * rowIndex);
    ApplyKeys(w);
    FirstOccurrencesSpec(WriteKeys(w));
    assert WriteKeys(w) == HeaderNames(row) + columns;
  }

  /**
   * Column `j` holds the cell at offset `C * rowIndex + j`, or `null` outside
   * the buffer, unless a later column has the same name; a column also
   * overrides a header of the same name.
   */
  lemma RowRecordColumn<V>(row: seq<Header>, columns: seq<string>, data: seq<Option<V>>, rowIndex: nat, j: nat)
    requires IsLastOccurrence(columns, j)
    ensures Lookup(RowRecord(row, columns, data, rowIndex), columns[j])
         == Some(CellField(data, |columns| * rowIndex + j))
  {
    var hw := HeaderWrites<V>(row);
    var cw := ColumnWrites(columns, data, |columns| * rowIndex);
    ApplyLookup(hw + cw, columns[j]);
    LastWriteAppend(hw, cw, columns[j]);
    LastWriteAt(cw, j);
  }

  /**
   * Two columns with the same name give one key, which holds the later
   * column's cell: an overwrite, not an error.
   */
  lemma RowRecordDuplicateColumns<V>(row: seq<Header>, columns: seq<string>, data: seq<Option<V>>, rowIndex: nat, j1: nat, j2: nat)
    requires j1 < j2 < |columns| && columns[j1] == columns[j2]
    requires IsLastOccurrence(columns, j2)
    ensures Lookup(RowRecord(row, columns, data, rowIndex), columns[j1])
         == Some(CellField(data, |columns| * rowIndex + j2))
    ensures Distinct(Keys(RowRecord(row, columns, data, rowIndex)))
  {
    RowRecordColumn(row, columns, data, rowIndex, j2);
    RowRecordKeys(row, columns, data, rowIndex);
  }

  /**
   * A header whose name no column and no later header takes holds the
   * member's caption.
   */
  lemma RowRecordHeader<V>(row: seq<Header>, columns: seq<string>, data: seq<Option<V>>, rowIndex: nat, h: nat)
    requires h < |row|
    requires FriendlyName(row[h].name) !in columns
    requires forall m :: h < m < |row| ==> FriendlyName(row[m].name) != FriendlyName(row[h].name)
    ensures Lookup(RowRecord(row, columns, data, rowIndex), FriendlyName(row[h].name))
         == Some(Text(row[h].caption))
  {
    var k := FriendlyName(row[h].name);
    var hw := HeaderWrites<V>(row);
    var cw := ColumnWrites(columns, data, |columns| * rowIndex);
    ApplyLookup(hw + cw, k);
    LastWriteAppend(hw, cw, k);
    LastWriteAbsent(cw, k);
    LastWriteAt(hw, h);
  }

  // ----- the record list -----

  /** Headers built from the axis are already normalised, so line 129's second normalisation changes nothing. */
  lemma RowHeaderNames(tuples: seq<Tuple>, i: nat)
    requires i < |tuples|
    ensures HeaderNames(RowHeaders(tuples)[i]) == LevelNames(tuples[i])
  {
    var row := RowHeaders(tuples)[i];
    forall h | 0 <= h < |row|
      ensures FriendlyName(row[h].name) == FriendlyName(tuples[i][h].levelUniqueName)
    {
      FriendlyNameIdempotent(tuples[i][h].levelUniqueName);
    }
  }

  /** Record `i` of the output is the record of row `i`. */
  lemma FlattenAt<V>(rs: ResultSet<V>, i: nat)
    requires rs.rowAxisSet != [] ==> HasFirstMembers(rs.colAxisSet)
    requires i < |rs.rowAxisSet|
    ensures |Flatten(rs)| == |rs.rowAxisSet|
    ensures Flatten(rs)[i] == RowRecord(RowHeaders(rs.rowAxisSet)[i], ColumnNames(rs.colAxisSet), rs.dataSet, i)
  {
  }

  /** No row tuples: no records, whatever the column axis holds. */
  lemma FlattenNoRows<V>(rs: ResultSet<V>)
    requires rs.rowAxisSet == []
    ensures Flatten(rs) == []
  {
  }

  /**
   * Record `i` has the row's level names followed by the column names as
   * keys, each key kept once at its first position.
   */
  lemma FlattenKeys<V>(rs: ResultSet<V>, i: nat)
    requires HasFirstMembers(rs.colAxisSet)
    requires i < |rs.rowAxisSet|
    ensures |Flatten(rs)| == |rs.rowAxisSet|
    ensures Keys(Flatten(rs)[i]) == FirstOccurrences(LevelNames(rs.rowAxisSet[i]) + ColumnNames(rs.colAxisSet))
  {
    FlattenAt(rs, i);
    RowRecordKeys<V>(RowHeaders(rs.rowAxisSet)[i], ColumnNames(rs.colAxisSet), rs.dataSet, i);
    RowHeaderNames(rs.rowAxisSet, i);
  }

  /**
   * On a well-formed grid (`R * C` cells) each column of record `i` that no
   * later column shadows holds cell `C * i + j` of the buffer, and that
   * offset is inside the buffer, so the value read is the cell's own.
   */
  lemma FlattenFullGrid<V>(rs: ResultSet<V>, i: nat, j: nat)
    requires HasFirstMembers(rs.colAxisSet)
    requires |rs.dataSet| == |rs.rowAxisSet| * |rs.colAxisSet|
    requires i < |rs.rowAxisSet|
    requires IsLastOccurrence(ColumnNames(rs.colAxisSet), j)
    ensures |rs.colAxisSet| * i + j < |rs.dataSet|
    ensures Lookup(Flatten(rs)[i], ColumnNames(rs.colAxisSet)[j])
         == Some(CellField(rs.dataSet, |rs.colAxisSet| * i + j))
  {
    var columns := ColumnNames(rs.colAxisSet);
    var c := |rs.colAxisSet|;
    GridIndexInRange(|rs.rowAxisSet|, c, i, j);
    FlattenAt(rs, i);
    RowRecordColumn(RowHeaders(rs.rowAxisSet)[i], columns, rs.dataSet, i, j);
  }

  /** With distinct names the keys are exactly the level names followed by the column names. */
  lemma FlattenKeysDistinct<V>(rs: ResultSet<V>, i: nat)
    requires HasFirstMembers(rs.colAxisSet)
    requires i < |rs.rowAxisSet|
    requires Distinct(LevelNames(rs.rowAxisSet[i]) + ColumnNames(rs.colAxisSet))
    ensures Keys(Flatten(rs)[i]) == LevelNames(rs.rowAxisSet[i]) + ColumnNames(rs.colAxisSet)
    ensures |Keys(Flatten(rs)[i])| == |rs.rowAxisSet[i]| + |rs.colAxisSet|
  {
    FlattenAt(rs, i);
    RowRecordKeys<V>(RowHeaders(rs.rowAxisSet)[i], ColumnNames(rs.colAxisSet), rs.dataSet, i);
    RowHeaderNames(rs.rowAxisSet, i);
    FirstOccurrencesOfDistinct(LevelNames(rs.rowAxisSet[i]) + ColumnNames(rs.colAxisSet));
  }

  /** A cell inside the buffer reads the same after more cells are appended. */
  lemma ColumnWritesExtend<V>(columns: seq<string>, data: seq<Option<V>>, more: seq<Option<V>>, offset: nat)
    requires offset + |columns| <= |data|
    ensures ColumnWrites(columns, data, offset) == ColumnWrites(columns, data + more, offset)
  {
    forall j | 0 <= j < |columns|
      ensures ColumnWrites(columns, data, offset)[j] == ColumnWrites(columns, data + more, offset)[j]
    {
      assert (data + more)[offset + j] == data[offset + j];
      assert CellField(data + more, offset + j) == CellField(data, offset + j);
    }
  }

  /**
   * A buffer one cell short: every record but the last is what the full
   * buffer gives.
   */
  lemma FlattenMissingLastCellEarlierRows<V>(rs: ResultSet<V>, last: Option<V>)
    requires HasFirstMembers(rs.colAxisSet)
    requires |rs.rowAxisSet| > 0
    requires |rs.dataSet| + 1 == |rs.rowAxisSet| * |rs.colAxisSet|
    ensures var r := |rs.rowAxisSet| - 1;
            Flatten(rs)[..r] == Flatten(rs.(dataSet := rs.dataSet + [last]))[..r]
  {
    var full := rs.(dataSet := rs.dataSet + [last]);
    var r := |rs.rowAxisSet| - 1;
    var columns := ColumnNames(rs.colAxisSet);
    var c := |columns|;
    forall i | 0 <= i < r
      ensures Flatten(rs)[i] == Flatten(full)[i]
    {
      MulMonotone(c, i + 1, r);
      assert c * (i + 1) == c * i + c;
      assert c * (r + 1) == c * r + c;
      ColumnWritesExtend(columns, rs.dataSet, [last], c * i);
    }
  }

  /**
   * The record of a row whose last cell is missing from the buffer: the last
   * column is `null`, every other key is as with that cell present.
   */
  lemma RowRecordMissingLastCell<V>(row: seq<Header>, columns: seq<string>, data: seq<Option<V>>, last: Option<V>, r: nat)
    requires |columns| > 0
    requires |data| + 1 == |columns| * r + |columns|
    ensures forall k | k != columns[|columns| - 1] ::
              Lookup(RowRecord(row, columns, data, r), k) == Lookup(RowRecord(row, columns, data + [last], r), k)
    ensures Lookup(RowRecord(row, columns, data, r), columns[|columns| - 1]) == Some(Null)
  {
    var c := |columns|;
    var hw := HeaderWrites<V>(row);
    var cw := ColumnWrites(columns, data, c * r);
    var cw' := ColumnWrites(columns, data + [last], c * r);
    ColumnWritesExtend(columns[..c - 1], data, [last], c * r);
    assert cw[..c - 1] == ColumnWrites(columns[..c - 1], data, c * r);
    assert cw'[..c - 1] == ColumnWrites(columns[..c - 1], data + [last], c * r);
    assert (hw + cw)[..|hw + cw| - 1] == (hw + cw')[..|hw + cw'| - 1];
    forall k | k != columns[c - 1]
      ensures Lookup(RowRecord(row, columns, data, r), k) == Lookup(RowRecord(row, columns, data + [last], r), k)
    {
      ApplyLookup(hw + cw, k);
      ApplyLookup(hw + cw', k);
      LastWriteSkip(hw + cw, k);
      LastWriteSkip(hw + cw', k);
    }
    RowRecordColumn(row, columns, data, r, c - 1);
  }

  /**
   * A buffer one cell short: in the last record the last column is `null`
   * and every other key holds what the full buffer gives.
   */
  lemma FlattenMissingLastCell<V>(rs: ResultSet<V>, last: Option<V>)
    requires HasFirstMembers(rs.colAxisSet)
    requires |rs.rowAxisSet| > 0 && |rs.colAxisSet| > 0
    requires |rs.dataSet| + 1 == |rs.rowAxisSet| * |rs.colAxisSet|
    ensures var full := rs.(dataSet := rs.dataSet + [last]);
            var r := |rs.rowAxisSet| - 1;
            var columns := ColumnNames(rs.colAxisSet);
            && (forall k | k != columns[|columns| - 1] :: Lookup(Flatten(rs)[r], k) == Lookup(Flatten(full)[r], k))
            && Lookup(Flatten(rs)[r], columns[|columns| - 1]) == Some(Null)
  {
    var full := rs.(dataSet := rs.dataSet + [last]);
    var r := |rs.rowAxisSet| - 1;
    var columns := ColumnNames(rs.colAxisSet);
    var c := |columns|;
    assert c * (r + 1) == c * r + c;
    FlattenAt(rs, r);
    FlattenAt(full, r);
    RowRecordMissingLastCell(RowHeaders(rs.rowAxisSet)[r], columns, rs.dataSet, last, r);
  }

  /**
   * Two rows `CA` and `NY` of a `store` level, columns `sales` and `profit`,
   * buffer `[100, 10, 200, 20]`: the records are
   * `{store: CA, sales: 100, profit: 10}` and `{store: NY, sales: 200, profit: 20}`.
   */
  lemma FlattenScenario(store: string, sales: string, profit: string, ca: string, ny: string)
    requires IsFriendly(store) && IsFriendly(sales) && IsFriendly(profit)
    requires store != sales && store != profit && sales != profit
    ensures var rs := ResultSet(
              [[Member(sales, "", "")], [Member(profit, "", "")]],
              [[Member("", store, ca)], [Member("", store, ny)]],
              [Some(100), Some(10), Some(200), Some(20)]);
            Flatten(rs)
            == [[(store, Text(ca)), (sales, Scalar(100)), (profit, Scalar(10))],
                [(store, Text(ny)), (sales, Scalar(200)), (profit, Scalar(20))]]
  {
    FriendlyNameFixesFriendly(store);
    FriendlyNameFixesFriendly(sales);
    FriendlyNameFixesFriendly(profit);
    var rs := ResultSet(
      [[Member(sales, "", "")], [Member(profit, "", "")]],
      [[Member("", store, ca)], [Member("", store, ny)]],
      [Some(100), Some(10), Some(200), Some(20)]);
    assert ColumnNames(rs.colAxisSet) == [sales, profit];
    assert RowHeaders(rs.rowAxisSet)[0] == [Header(store, ca)];
    assert RowHeaders(rs.rowAxisSet)[1] == [Header(store, ny)];
    ScenarioRow(store, sales, profit, ca, rs.dataSet, 0);
    ScenarioRow(store, sales, profit, ny, rs.dataSet, 1);
  }

  lemma ScenarioRow(store: string, sales: string, profit: string, caption: string, data: seq<Option<int>>, i: nat)
    requires IsFriendly(store)
    requires store != sales && store != profit && sales != profit
    requires |data| == 4 && i < 2
    ensures RowRecord([Header(store, caption)], [sales, profit], data, i)
         == [(store, Text(caption)), (sales, ValueField(data[2 * i])), (profit, ValueField(data[2 * i + 1]))]
  {
    FriendlyNameFixesFriendly(store);
    var w := HeaderWrites<int>([Header(store, caption)]) + ColumnWrites([sales, profit], data, 2 * i);
    assert HeaderWrites<int>([Header(store, caption)]) == [(store, Text(caption))];
    assert 2 * i + 1 < |data|;
    assert CellField(data, 2 * i) == ValueField(data[2 * i]);
    assert CellField(data, 2 * i + 1) == ValueField(data[2 * i + 1]);
    assert ColumnWrites([sales, profit], data, 2 * i)
        == [(sales, ValueField(data[2 * i])), (profit, ValueField(data[2 * i + 1]))];
    assert WriteKeys(w) == [store, sales, profit];
    ApplyDistinct(w);
  }
}
