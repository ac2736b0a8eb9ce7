/** main.cpp: the sequential meaning of the ingest pipeline. Each buffer is parsed into
    fresh column arrays (the parse stage) and these are appended, one chunk per column,
    to the table (the append stage), in the order the buffers were read. */
module Pipeline {
  import opened Columns
  import opened Tables
  import opened Parser

  /** Whether parse_chunk stops on `buf` for a table of this schema: with no columns it
      only does when nothing follows the first line. */
  predicate Parsable(schema: seq<Type>, buf: Text)
  {
    |schema| > 0 || HeaderEnd(buf) >= |buf|
  }

  predicate AllParsable(schema: seq<Type>, buffers: seq<Text>)
  {
    forall k :: 0 <= k < |buffers| ==> Parsable(schema, buffers[k])
  }

  /** The parse stage: fresh empty arrays typed after the table's columns, filled only by
      parse_chunk; the table itself is only read. */
  method ParseStage(table: Table, buf: Text) returns (chunk: seq<ColumnArray>)
    requires Parsable(SchemaOf(table.columns), buf)
    ensures Distinct(chunk) && forall i :: 0 <= i < |chunk| ==> fresh(chunk[i])
    ensures ValuesOf(chunk) == ChunkColumns(SchemaOf(table.columns), buf)
  {
    chunk := CreateEmptyColumns(table);
    assert ValuesOf(chunk) == EmptyColumns(SchemaOf(table.columns));
    ParseChunk(chunk, buf);
  }

  /** The columns after appending one chunk: column i gains chunk[i] as its last chunk. */
  function Appended(columns: seq<ChunkedArray>, chunk: seq<Column>): (r: seq<ChunkedArray>)
    requires |chunk| == |columns|
    ensures SchemaOf(r) == SchemaOf(columns)
    ensures forall i :: 0 <= i < |r| ==>
      |r[i].chunks| == |columns[i].chunks| + 1 &&
      r[i].chunks[..|columns[i].chunks|] == columns[i].chunks && r[i].chunks[|columns[i].chunks|] == chunk[i]
  {
    seq(|columns|, i requires 0 <= i < |columns| => columns[i].(chunks := columns[i].chunks + [chunk[i]]))
  }

  /** Appending a chunk whose columns have the table's types and a common length keeps the
      table invariant that print_table asserts. */
  lemma AppendedKeepsInvariant(columns: seq<ChunkedArray>, chunk: seq<Column>)
    requires Aligned(columns) && WellTyped(columns)
    requires ColumnTypes(chunk) == SchemaOf(columns)
    requires forall i, j :: 0 <= i < |chunk| && 0 <= j < |chunk| ==> Length(chunk[i]) == Length(chunk[j])
    ensures Aligned(Appended(columns, chunk)) && WellTyped(Appended(columns, chunk))
  {
    var r := Appended(columns, chunk);
    forall i, k | 0 <= i < |r| && 0 <= k < |r[i].chunks|
      ensures ColumnType(r[i].chunks[k]) == r[i].columnType
    {
      if k < |columns[i].chunks| {
        assert r[i].chunks[k] == columns[i].chunks[k];
      }
    }
    forall i, j, k | 0 <= i < |r| && 0 <= j < |r| && 0 <= k < |r[i].chunks| && k < |r[j].chunks|
      ensures Length(r[i].chunks[k]) == Length(r[j].chunks[k])
    {
      if k < |columns[i].chunks| {
        assert r[i].chunks[k] == columns[i].chunks[k];
        assert r[j].chunks[k] == columns[j].chunks[k];
      }
    }
  }

  /** The append stage: each table column gets the matching array as a new last chunk. */
  method AppendStage(table: Table, chunk: seq<ColumnArray>)
    requires |chunk| == |table.columns|
    modifies table
    ensures table.columns == Appended(old(table.columns), ValuesOf(chunk))
  {
    ghost var values := ValuesOf(chunk);
    for columnIndex := 0 to |table.columns|
      invariant |table.columns| == |chunk|
      invariant forall i :: 0 <= i < columnIndex ==>
        table.columns[i] == old(table.columns[i]).(chunks := old(table.columns[i]).chunks + [values[i]])
      invariant forall i :: columnIndex <= i < |table.columns| ==> table.columns[i] == old(table.columns[i])
    {
      var column := table.columns[columnIndex];
      table.columns := table.columns[columnIndex := column.(chunks := column.chunks + [chunk[columnIndex].values])];
    }
  }

  /** A parsed chunk fit for a table of this schema: one column per entry, typed as it,
      all of one length. */
  predicate ChunkFits(schema: seq<Type>, chunk: seq<Column>)
  {
    ColumnTypes(chunk) == schema &&
    forall i, j :: 0 <= i < |chunk| && 0 <= j < |chunk| ==> Length(chunk[i]) == Length(chunk[j])
  }

  predicate ChunksFit(schema: seq<Type>, chunks: seq<seq<Column>>)
  {
    forall k :: 0 <= k < |chunks| ==> ChunkFits(schema, chunks[k])
  }

  /** The columns after appending each of `chunks` in turn. */
  function AppendedAll(columns: seq<ChunkedArray>, chunks: seq<seq<Column>>): (r: seq<ChunkedArray>)
    requires ChunksFit(SchemaOf(columns), chunks)
    ensures SchemaOf(r) == SchemaOf(columns)
    ensures forall i :: 0 <= i < |r| ==> |r[i].chunks| == |columns[i].chunks| + |chunks|
  {
    if chunks == [] then columns
    else
      var last := |chunks| - 1;
      Appended(AppendedAll(columns, chunks[..last]), chunks[last])
  }

  /** Appending fitting chunks one by one keeps the table invariant. */
  lemma {:induction false} AppendedAllKeepsInvariant(columns: seq<ChunkedArray>, chunks: seq<seq<Column>>)
    requires Aligned(columns) && WellTyped(columns)
    requires ChunksFit(SchemaOf(columns), chunks)
    ensures Aligned(AppendedAll(columns, chunks)) && WellTyped(AppendedAll(columns, chunks))
  {
    if chunks != [] {
      var last := |chunks| - 1;
      AppendedAllKeepsInvariant(columns, chunks[..last]);
      AppendedKeepsInvariant(AppendedAll(columns, chunks[..last]), chunks[last]);
    }
  }

  /** Earlier chunks stay in place, and the k-th appended chunk of column i is column i of chunks[k]. */
  lemma {:induction false} AppendedAllChunk(columns: seq<ChunkedArray>, chunks: seq<seq<Column>>, i: nat, k: nat)
    requires ChunksFit(SchemaOf(columns), chunks)
    requires i < |columns| && k < |columns[i].chunks| + |chunks|
    ensures AppendedAll(columns, chunks)[i].chunks[k] ==
      if k < |columns[i].chunks| then columns[i].chunks[k] else chunks[k - |columns[i].chunks|][i]
  {
    if chunks != [] {
      var last := |chunks| - 1;
      var prefix := AppendedAll(columns, chunks[..last]);
      if k < |columns[i].chunks| + last {
        AppendedAllChunk(columns, chunks[..last], i, k);
        assert AppendedAll(columns, chunks)[i].chunks[k] == prefix[i].chunks[k];
      }
    }
  }

  /** What parse_chunk makes of each buffer, starting from empty arrays. */
  function ParsedChunks(schema: seq<Type>, buffers: seq<Text>): (chunks: seq<seq<Column>>)
    requires AllParsable(schema, buffers)
    ensures |chunks| == |buffers| && ChunksFit(schema, chunks)
    ensures forall k :: 0 <= k < |buffers| ==> chunks[k] == ChunkColumns(schema, buffers[k])
  {
    seq(|buffers|, k requires 0 <= k < |buffers| => ChunkColumns(schema, buffers[k]))
  }

  /** The table's columns after make_table(schema) and then the two stages for each buffer,
      in read order. */
  function Ingested(schema: seq<Type>, buffers: seq<Text>): (columns: seq<ChunkedArray>)
    requires AllParsable(schema, buffers)
    ensures SchemaOf(columns) == schema
    ensures forall i :: 0 <= i < |columns| ==> |columns[i].chunks| == |buffers|
  {
    AppendedAll(EmptyTable(schema), ParsedChunks(schema, buffers))
  }

  /** The table invariant holds after any number of buffers. */
  lemma IngestedKeepsInvariant(schema: seq<Type>, buffers: seq<Text>)
    requires AllParsable(schema, buffers)
    ensures Aligned(Ingested(schema, buffers)) && WellTyped(Ingested(schema, buffers))
  {
    AppendedAllKeepsInvariant(EmptyTable(schema), ParsedChunks(schema, buffers));
  }

  /** Chunk k of every column is that column of the k-th buffer, parsed on its own. */
  lemma IngestedChunk(schema: seq<Type>, buffers: seq<Text>, i: nat, k: nat)
    requires AllParsable(schema, buffers)
    requires i < |schema| && k < |buffers|
    ensures Ingested(schema, buffers)[i].chunks[k] == ChunkColumns(schema, buffers[k])[i]
  {
    AppendedAllChunk(EmptyTable(schema), ParsedChunks(schema, buffers), i, k);
  }

  /** The whole ingest, run sequentially: make_table, then for each buffer in read order the
      parse stage and the append stage. */
  method Ingest(schema: seq<Type>, buffers: seq<Text>) returns (table: Table)
    requires AllParsable(schema, buffers)
    ensures table.columns == Ingested(schema, buffers)
  {
    table := new Table.FromSchema(schema);
    ghost var parsed: seq<seq<Column>> := [];
    for k := 0 to |buffers|
      invariant parsed == ParsedChunks(schema, buffers[..k])
      invariant table.columns == AppendedAll(EmptyTable(schema), parsed)
    {
      var chunk := ParseStage(table, buffers[k]);
      AppendStage(table, chunk);
      ghost var before := parsed;
      parsed := parsed + [ValuesOf(chunk)];
      assert parsed[..k] == before;
    }
    assert buffers[..|buffers|] == buffers;
  }
}
