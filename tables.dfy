/** table.cpp: building a table from a schema, fresh per-chunk column arrays, the
    alignment that print_table asserts, and the text form of a Decimal. */
module Tables {
  import opened Columns

  /** The column types of a table, in schema order. */
  function SchemaOf(columns: seq<ChunkedArray>): (schema: seq<Type>)
    ensures |schema| == |columns|
    ensures forall i :: 0 <= i < |columns| ==> schema[i] == columns[i].columnType
  {
    seq(|columns|, i requires 0 <= i < |columns| => columns[i].columnType)
  }

  /** The table invariant: every column holds the same number of chunks, and for every
      chunk index all columns' chunks hold the same number of rows. */
  predicate Aligned(columns: seq<ChunkedArray>)
  {
    (forall i, j :: 0 <= i < |columns| && 0 <= j < |columns| ==>
      |columns[i].chunks| == |columns[j].chunks|) &&
    (forall i, j, k ::
      0 <= i < |columns| && 0 <= j < |columns| && 0 <= k < |columns[i].chunks| && k < |columns[j].chunks|
      ==> Length(columns[i].chunks[k]) == Length(columns[j].chunks[k]))
  }

  /** Every chunk of a column holds values of that column's type. */
  predicate WellTyped(columns: seq<ChunkedArray>)
  {
    forall i, k :: 0 <= i < |columns| && 0 <= k < |columns[i].chunks| ==>
      ColumnType(columns[i].chunks[k]) == columns[i].columnType
  }

  /** The columns of a table just made from `schema`: one per entry, in order, no chunks yet. */
  function EmptyTable(schema: seq<Type>): (columns: seq<ChunkedArray>)
    ensures SchemaOf(columns) == schema
    ensures forall i :: 0 <= i < |columns| ==> columns[i].chunks == []
    ensures Aligned(columns) && WellTyped(columns)
  {
    seq(|schema|, i requires 0 <= i < |schema| => ChunkedArray(schema[i], []))
  }

  /** Table: one chunked column per schema position. */
  class Table {
    var columns: seq<ChunkedArray>

    /** make_table: one empty chunked column per schema entry, in schema order. */
    constructor FromSchema(schema: seq<Type>)
      ensures columns == EmptyTable(schema)
    {
      var res: seq<ChunkedArray> := [];
      for i := 0 to |schema|
        invariant |res| == i
        invariant forall j :: 0 <= j < i ==> res[j] == ChunkedArray(schema[j], [])
      {
        res := res + [ChunkedArray(schema[i], [])];
      }
      columns := res;
    }
  }

  /** create_empty_columns: one fresh, empty array per table column, typed as that column.
      The table is only read. */
  method CreateEmptyColumns(table: Table) returns (arrays: seq<ColumnArray>)
    ensures |arrays| == |table.columns|
    ensures Distinct(arrays) && forall i :: 0 <= i < |arrays| ==> fresh(arrays[i])
    ensures forall i :: 0 <= i < |arrays| ==> arrays[i].values == EmptyColumn(table.columns[i].columnType)
  {
    arrays := [];
    for columnIndex := 0 to |table.columns|
      invariant |arrays| == columnIndex
      invariant Distinct(arrays) && forall i :: 0 <= i < columnIndex ==> fresh(arrays[i])
      invariant forall i :: 0 <= i < columnIndex ==> arrays[i].values == EmptyColumn(table.columns[i].columnType)
    {
      var a := new ColumnArray(table.columns[columnIndex].columnType);
      arrays := arrays + [a];
    }
  }

  /** The two assert loops of print_table, which reads columns[0] and so needs a column:
      `ok` is whether every assertion holds, i.e. whether the table is aligned. */
  method CheckAligned(table: Table) returns (ok: bool)
    requires |table.columns| > 0
    ensures ok <==> Aligned(table.columns)
  {
    var columns := table.columns;
    var chunksCount := |columns[0].chunks|;
    for c := 0 to |columns|
      invariant forall j :: 0 <= j < c ==> |columns[j].chunks| == chunksCount
    {
      if |columns[c].chunks| != chunksCount {
        return false;
      }
    }
    for chunk := 0 to chunksCount
      invariant forall k, j :: 0 <= k < chunk && 0 <= j < |columns| ==>
        Length(columns[j].chunks[k]) == Length(columns[0].chunks[k])
    {
      var rowsCount := Length(columns[0].chunks[chunk]);
      for c := 0 to |columns|
        invariant forall j :: 0 <= j < c ==> Length(columns[j].chunks[chunk]) == rowsCount
        invariant forall k, j :: 0 <= k < chunk && 0 <= j < |columns| ==>
          Length(columns[j].chunks[k]) == Length(columns[0].chunks[k])
      {
        if Length(columns[c].chunks[chunk]) != rowsCount {
          return false;
        }
      }
    }
    return true;
  }

  /** An unsigned integer as an ostream prints it: decimal digits, no padding. */
  function NatText(n: nat): (r: Text)
    ensures |r| > 0 && forall c <- r :: IsDigit(c)
    ensures r[0] == ZERO ==> n == 0
  {
    if n < 10 then [ZERO + n] else NatText(n / 10) + [ZERO + n % 10]
  }

  /** operator<< for Decimal: "-" when negative, then a, ".", b. */
  function RenderDecimal(d: Decimal): (r: Text)
    ensures |r| > 0 && (r[0] == MINUS <==> d.negative)
    ensures DOT in r && (forall c <- r :: c == MINUS || c == DOT || IsDigit(c))
  {
    assert IsDigit(NatText(d.a)[0]);
    (if d.negative then [MINUS] else []) + NatText(d.a) + [DOT] + NatText(d.b)
  }
}
