# csv-bench core in Dafny

This project models the core of csv-bench, a columnar CSV ingester written in C++. The
ingester cuts a file into fixed-size byte buffers. It tokenizes each buffer into one
typed array per schema column (`parse_chunk`), and then appends those arrays, one chunk per
column, to a table of chunked columns in the order the buffers were read.

The model has five modules:

- `Columns` (`columns.dfy`) covers `table.h`. It holds the column type tags, the
  `Decimal` record (two `uint64_t` magnitudes and a sign flag), the typed arrays as a
  class `ColumnArray` whose contents are updated in place (`pop`, `clear`, `push_back`),
  and a chunked column as a value.
- `Tables` (`tables.dfy`) covers `table.cpp`. It holds `make_table` (a `Table` class
  whose constructor loops over the schema), `create_empty_columns`, and the two assert
  loops of `print_table`. Those loops are stated as the table invariant `Aligned` and
  checked by `CheckAligned`. The module also holds the text that `operator<<` prints
  for a `Decimal`.
- `Parser` (`parser.dfy`) covers `parser.cpp`. The readers are specified by the
  functions `IntField`, `DecimalField` and `StringField`. The rows that `parse_chunk`
  keeps from a buffer are specified by `ChunkRows`. The imperative code (`read_int`,
  `read_decimal`, `read_string`, `rollback`, `parse_chunk`) is written as methods with
  loops, and each is proved against those functions. `ParseChunk` ends with every array
  extended by its column of `ChunkRows`.
- `ParserProperties` (`parser_props.dfy`) states what the readers and `parse_chunk`
  compute on well-formed text, proved for all inputs:
  - a decimal reads back what `operator<<` prints;
  - an integer below 2^63 reads back its digits, without its sign;
  - fitting fields joined by `,` and ended by `\n` read back as one row of their values
    (`LineRow`), and a run of such lines as those rows, in order (`LinesRows`);
  - a buffer made of a first line, fitting lines, and possibly the first fields of one
    more row each ended by `,`, keeps exactly the rows of the lines
    (`WellFormedChunkRows`): the cut row is rolled back;
  - the first line is skipped;
  - once the cursor passes the end, the rest of the row is zero-filled, and a row whose
    field runs to the end is kept;
  - column `i` of a parsed chunk is field `i` of every kept row.
- `ParserExamples` (`parser_examples.dfy`) works each quirk of the code out on small
  buffers, and the mixed buffer of the design notes as a whole.
- `Pipeline` (`pipeline.dfy`) covers `main.cpp`. It holds the parse stage and the
  append stage, and `Ingest`, which runs both for every buffer in read order. The result
  is the fold `Ingested`. The lemmas prove that the table invariant holds after any
  number of buffers, and that chunk `k` of every column is that column of buffer `k`
  parsed on its own.

`src/main2.cpp` is a single-file copy of the same program. Its types (21-75),
`make_table` (81-87), readers (89-142), `parse_chunk` (144-177), `print_table`
(179-200), column creation (240-261) and append stage (265-273) have the same text as
their counterparts in `table.h`, `table.cpp`, `parser.cpp` and `main.cpp`, which the
table below cites.

Bytes are `CChar`, a signed 8-bit `char`. A buffer is a `seq<CChar>`. A position at or
past the end of a buffer reads as the byte 0. The `size` argument of the readers and of
`parse_chunk` equals the buffer's length at every call in `main.cpp` (`buf_size`, with
`std::vector<char> buf(buf_size)`), so the model uses `|buf|` for it.

## Where the documented behaviour and the code disagree

The design notes of csv-bench describe the ingester's intended behaviour. They are not
part of the repository's source. The model follows the code in each of these cases.

- **Sign of integers.** The design notes say an Int field takes an optional leading
  `-`, and its worked example reads `-7` as -7. In `read_int` (`src/parser.cpp:11-14`),
  the `-` negates the accumulator while it is still 0, and the sign is never applied
  again. So `-7` reads as 7 (`ParserExamples.MinusSevenReadsSeven`,
  `ParserProperties.IntFieldRoundTrip`). Decimals do keep their sign.
- **Truncated rows.** The design notes say a row cut by the buffer boundary is rolled
  back, so that no partial-row values leak. The code rolls back only when the cursor
  sits exactly at `size` before a column (`src/parser.cpp:67-71`). A field cut in the
  middle stops its scan at `size` and leaves the cursor at `size + 1`. The remaining
  columns of that row are then read past the end as zeros and empty strings, and the row
  is kept (`ParserExamples.CutFieldExample`, `ParserProperties.CutRowKept`). A row cut
  right after a `,` is rolled back, after any number of complete lines
  (`ParserProperties.TruncatedChunkRows`).
- **Buffers shorter than a row.** The design notes say such a buffer yields zero
  rows. With two integer columns, `"h\n1"` yields the row `[1, 0]`
  (`ParserExamples.ShortBufferExample`).
- **First line.** The algorithm in the design notes skips the first line of every
  buffer, as the code does (`src/parser.cpp:60-63`). Their row-count property, however,
  leaves out only the header of the first buffer. The model follows the code: every
  buffer loses its first line, data or not (`ParserExamples.FirstLineDroppedExample`).

## Model

| member | source | states |
|---|---|---|
| Columns.ColumnType | src/table.h:21-29 | every value stored in a column has the type tag of its element type |
| Columns.EmptyColumn | src/table.cpp:44-56 | a freshly made array for tag `t` has type `t` and holds no values |
| Columns.Append | src/table.h:41 | `push_back` keeps the type and adds `v` after the existing values |
| Columns.DropLast | src/table.h:43 | `pop_back` keeps the type and removes exactly the last value |
| Columns.DropLastUndoesAppend | src/parser.cpp:67-71 | popping right after a push restores the array exactly, which makes a rollback exact |
| Columns.ColumnArray.constructor | src/table.cpp:46 | `make_shared<TypedArray<T>>()` gives an empty array of the tagged type |
| Columns.ColumnArray.Type | src/table.h:42 | `type()` is the tag every stored value carries |
| Columns.ColumnArray.Size | src/table.h:46 | `size()` is the number of stored values |
| Columns.ColumnArray.Pop | src/table.h:43 | `pop()` removes the last value and keeps the rest and the type |
| Columns.ColumnArray.Clear | src/table.h:44 | `clear()` leaves an empty array of the same type |
| Columns.ColumnArray.Push | src/parser.cpp:75-76 | `values.push_back(v)` appends `v` and keeps the type |
| Tables.EmptyTable | src/table.cpp:8-14 | the table made from a schema has one chunk-less column per entry, in schema order, and satisfies the table invariant |
| Tables.Table.FromSchema | src/table.cpp:8-14 | `make_table` builds, in a loop, exactly the columns of `EmptyTable(schema)` |
| Tables.CreateEmptyColumns | src/table.cpp:39-59 | one fresh, distinct, empty array per table column, typed as that column |
| Tables.CheckAligned | src/table.cpp:16-26 | the asserts of `print_table` all hold if and only if every column has the same chunk count and, chunk by chunk, the same row count |
| Tables.NatText | src/table.cpp:5 | a `uint64_t` prints as a non-empty run of decimal digits, with no leading zero except for 0 itself |
| Tables.RenderDecimal | src/table.cpp:4-6 | a printed decimal starts with `-` exactly when it is negative, holds a `.`, and holds only `-`, `.` and digits |
| Parser.ScanEnd | src/parser.cpp:15-19 | a reader's loop stops at the first position, at or after its start, that is the end or a stop byte |
| Parser.IntField | src/parser.cpp:9-22 | `read_int` always moves the cursor forward |
| Parser.DecimalField | src/parser.cpp:24-45 | `read_decimal` always moves the cursor forward, and the result is negative exactly when the field starts with `-` |
| Parser.StringField | src/parser.cpp:47-56 | `read_string` always moves the cursor forward, and its result holds no `,` and no `\n` |
| Parser.FieldAt | src/parser.cpp:73-88 | the switch picks the reader for the column's type, and the value it yields has that type |
| Parser.RowAt | src/parser.cpp:66-89 | a kept row matches the schema and extends the values already read; a rollback happens at some column not yet read |
| Parser.Rows | src/parser.cpp:65-90 | every kept row matches the schema, and at most one row is kept per remaining byte |
| Parser.ChunkRows | src/parser.cpp:58-91 | the rows kept from a whole buffer match the schema |
| Parser.Extend | src/parser.cpp:73-88 | extending a column by field `i` of each row keeps its values and adds field `i` of every row, in row order |
| Parser.ExtendAll | src/parser.cpp:66-89 | every column is extended by its own field of each row, and keeps its type |
| Parser.AppendRow | src/parser.cpp:66-89 | one complete row adds exactly its `i`-th value to column `i` |
| Parser.ExtendAllSnoc | src/parser.cpp:65-90 | extending by one more row is pushing that row's values |
| Parser.ChunkColumns | src/parser.cpp:58-91 | the arrays made from a buffer are typed by the schema, and all have one value per kept row |
| Parser.Rollback | src/parser.cpp:3-7 | `rollback(chunk, size)` pops one value from each of the first `size` arrays and leaves the others unchanged |
| Parser.ReadInt | src/parser.cpp:9-22 | the loop computes the value and the cursor of `IntField` |
| Parser.AccumulateU64 | src/parser.cpp:30-34 | a digit loop of `read_decimal` stops where the scan stops, and accumulates its digits modulo 2^64 |
| Parser.ReadDecimal | src/parser.cpp:24-45 | the loops compute the value and the cursor of `DecimalField` |
| Parser.ReadString | src/parser.cpp:47-56 | the loop computes the value and the cursor of `StringField` |
| Parser.ReadField | src/parser.cpp:73-88 | the switch computes what `FieldAt` specifies for the column's type |
| Parser.ReadRow | src/parser.cpp:66-89 | one pass of the column loop either pushes the whole row that `RowAt` reads, or finds the rollback case and leaves every array as it was |
| Parser.ParseRow | src/parser.cpp:65-90 | a pass either pushes the first kept row and continues with the rows kept after it, or changes nothing when no row is kept from here |
| Parser.UndoRow | src/parser.cpp:67-71 | the rollback restores the arrays written for the current row to their state before the row, and touches no others |
| Parser.PushField | src/parser.cpp:73-88 | a field is read by the reader for the array's type and pushed onto that array |
| Parser.SkipHeader | src/parser.cpp:60-63 | the first loop leaves the cursor one past the first `\n`, or one past the end |
| Parser.ParseChunk | src/parser.cpp:58-91 | each array ends up extended by its column of the rows the buffer keeps, and keeps its type |
| ParserProperties.ScanOver | src/parser.cpp:15-19 | a scan over bytes with no stop byte among them, followed by a stop byte or the end, passes over exactly those bytes |
| ParserProperties.IntFieldAt | src/parser.cpp:9-22 | on an optional `-` and digits that end a field, whose value fits the `long` accumulator (below 2^63), `read_int` yields the value of the digits and moves one past the delimiter |
| ParserProperties.DecimalFieldAt | src/parser.cpp:24-45 | on an optional `-`, digits, `.` and digits, `read_decimal` yields both magnitudes and the sign |
| ParserProperties.DecimalFieldNoDotAt | src/parser.cpp:24-45 | on an optional `-` and digits with no `.`, the fraction is 0 |
| ParserProperties.StringFieldAt | src/parser.cpp:47-56 | `read_string` yields exactly the bytes of a field with no `,` or `\n` |
| ParserProperties.HeaderEndSkipsFirstLine | src/parser.cpp:60-63 | row reading starts right after the buffer's first line |
| ParserProperties.NoNewlineNoRows | src/parser.cpp:60-65 | a buffer without `\n` yields no rows |
| ParserProperties.FieldPastEnd | src/parser.cpp:15-20 | a reader entered past the end yields its type's zero and moves one on |
| ParserProperties.RowPastEnd | src/parser.cpp:66-89 | once the cursor is past the end, the rest of the row is filled with zeros, and the row is never rolled back |
| ParserProperties.IntValueOfNatText | src/parser.cpp:15-19 | the decimal digits of `n` accumulate back to `n` in the unbounded accumulator, which the `uint64_t` accumulators wrap and which the `long` of `read_int` holds below 2^63 |
| ParserProperties.U64ValueWraps | src/parser.cpp:30-34 | the `uint64_t` accumulators equal the unbounded accumulator, modulo 2^64 |
| ParserProperties.U64ValueOfNatText | src/parser.cpp:30-34 | the digits of any `uint64_t` accumulate back to it |
| ParserProperties.IntFieldRoundTrip | src/parser.cpp:9-22 | the digits of any `n` below 2^63, with or without a leading `-`, read back as `n` |
| ParserProperties.DecimalFieldRoundTrip | src/parser.cpp:24-45 | `read_decimal` reads back exactly the decimal that `operator<<` printed |
| ParserProperties.IntStep | src/parser.cpp:73-77 | an integer column over an optional `-` and digits below 2^63 pushes their unsigned value and goes on with the next column one past the delimiter |
| ParserProperties.DecimalStep | src/parser.cpp:79-82 | a decimal column over an optional `-`, digits, `.` and digits pushes both magnitudes modulo 2^64 and the sign, and goes on one past the delimiter |
| ParserProperties.StringStep | src/parser.cpp:84-87 | a string column over bytes free of `,` and `\n` pushes exactly those bytes and goes on one past the delimiter |
| ParserProperties.CutRowKept | src/parser.cpp:65-89 | a row whose field runs to the end without a delimiter is always kept, and the cursor ends past the end by the number of columns left |
| ParserProperties.FieldRunsToEnd | src/parser.cpp:15-20 | a field with no delimiter after its start leaves the cursor one past the end |
| ParserProperties.FieldRoundTrip | src/parser.cpp:73-88 | the reader chosen for a column's type reads back any field that fits the type (an integer loses its sign) and moves one past its delimiter |
| ParserProperties.FieldStep | src/parser.cpp:66-89 | a fitting field of the current column pushes its value, and the row goes on with the next column one past its delimiter |
| ParserProperties.ThreeFields | src/parser.cpp:66-89 | a line of three fields is their texts separated by `,` and ended by `\n` |
| ParserProperties.LineRowFrom | src/parser.cpp:66-89 | the fields of a fitting line, from any column on, read back as their values, and the cursor ends one past the line's `\n` |
| ParserProperties.LineRow | src/parser.cpp:66-89 | a fitting line reads back as one row of its values, with the cursor right after its `\n` |
| ParserProperties.LinesRows | src/parser.cpp:65-90 | fitting lines read back as their rows, in order, followed by the rows read after them |
| ParserProperties.PartialRolledBack | src/parser.cpp:66-71 | fewer fields than columns, each ended by `,` and reaching the end of the buffer, lead to a rollback of exactly the columns read |
| ParserProperties.PartialNoRows | src/parser.cpp:65-71 | after the lines, the end of the buffer or a row cut right after a `,` keeps no further row |
| ParserProperties.WellFormedChunkRows | src/parser.cpp:58-91 | a buffer holding a first line, fitting lines and a row cut right after a `,` keeps exactly the rows of the lines |
| ParserProperties.TruncatedChunkRows | src/parser.cpp:58-91 | a first line, then fitting lines, then a row cut at a column boundary: exactly the lines' rows are kept |
| ParserProperties.LinesChunkRows | src/parser.cpp:58-91 | a first line followed by fitting lines keeps exactly those lines' rows |
| ParserProperties.ExtendEmptyHoldsRows | src/parser.cpp:73-88 | starting from empty arrays, column `i` holds field `i` of every row, in row order |
| ParserProperties.ChunkColumnsHoldRows | src/parser.cpp:58-91 | column `i` of a parsed buffer holds field `i` of every kept row, in row order |
| ParserExamples.MinusSevenReadsSeven | src/parser.cpp:11-14 | `-7` in an integer column reads as 7 |
| ParserExamples.TwelveFiftyRead | src/parser.cpp:24-45 | `12.50` reads as a = 12, b = 50, not negative |
| ParserExamples.MinusOnePointTwoRead | src/parser.cpp:24-45 | `-1.2` reads as a = 1, b = 2, negative |
| ParserExamples.FractionDigitsLost | src/parser.cpp:35-42 | `0.05` and `0.5` read as the same decimal |
| ParserExamples.RollbackExample | src/parser.cpp:67-71 | in `"h\n1,2\n3,"`, the 3 is rolled back and only the row 1,2 is kept |
| ParserExamples.CutFieldExample | src/parser.cpp:65-71 | in `"h\n1,2\n34"`, the cut row is kept as 34,0 |
| ParserExamples.ShortBufferExample | src/parser.cpp:65-71 | `"h\n1"` with two integer columns yields the row 1,0 rather than nothing |
| ParserExamples.FirstLineDroppedExample | src/parser.cpp:60-63 | in `"1,2\n3,4\n"`, the first data line is dropped |
| ParserExamples.MixedExample | src/parser.cpp:58-91 | `"h\n3,12.50,abc\n-7,-1.2,xy\n"` with columns Int, Decimal, String keeps the rows 3, 12.50, abc and 7, -1.2, xy, and the integer array holds 3 and 7 |
| Pipeline.ParseStage | src/main.cpp:43-47 | the parse stage returns fresh, distinct arrays holding exactly the columns parsed from its buffer |
| Pipeline.Appended | src/main.cpp:50-56 | appending adds `chunk[i]` as the last chunk of column `i`, keeps the earlier chunks, and keeps the schema |
| Pipeline.AppendedKeepsInvariant | src/main.cpp:48-56 | appending a well-typed chunk whose columns have equal lengths keeps the table invariant |
| Pipeline.AppendStage | src/main.cpp:48-56 | the append stage's loop makes the table's columns exactly `Appended(old columns, chunk)` |
| Pipeline.AppendedAll | src/main.cpp:48-56 | appending `n` chunks adds `n` chunks to each column, and keeps the schema |
| Pipeline.AppendedAllKeepsInvariant | src/main.cpp:48-56 | any number of appends of fitting chunks keeps the table invariant |
| Pipeline.AppendedAllChunk | src/main.cpp:48-56 | earlier chunks stay in place, and the `k`-th appended chunk of column `i` is column `i` of the `k`-th chunk |
| Pipeline.ParsedChunks | src/main.cpp:43-47 | each buffer parses, on its own, into arrays that fit the schema |
| Pipeline.Ingested | src/main.cpp:27-57 | after `n` buffers every column has `n` chunks, and the schema is that of `make_table` |
| Pipeline.IngestedKeepsInvariant | src/table.cpp:16-26 | after any number of buffers, the asserts of `print_table` hold |
| Pipeline.IngestedChunk | src/main.cpp:48-56 | chunk `k` of every column is that column of buffer `k` parsed on its own: it depends only on buffer `k` |
| Pipeline.Ingest | src/main.cpp:27-57 | `make_table`, then the parse and append stages for every buffer in read order, yield exactly `Ingested` |

## Left out

- Concurrency: the TBB pipeline with 112 tokens and a parallel parse stage
  (`src/main.cpp:29-57`) is modelled as a sequential fold in read order. This is sound
  for the result. Each parse works on fresh arrays of its own and only reads the table's
  column types, and the append filter is `serial`, which in TBB means in-order. Chunk `k`
  depends only on buffer `k` (`Pipeline.IngestedChunk`), so the order in which the
  parses run does not change the table. The parse order itself is not modelled.
- The read stage: `fopen`/`fread` are I/O. The buffers are the input of `Pipeline.Ingest`,
  each a whole `buf_size`-byte vector. The final buffer includes the zero bytes that a
  short `fread` leaves in it, and the model parses those like any other bytes.
- Host constants: the file path, `buf_size` = 100000 and the 51-column schema of `main`
  are parameters of the model.
- Timing (`measure`) and all stream output: `print_table`'s printing loop,
  `TypedArray::print` and the final `std::cout`. `Tables.RenderDecimal` models the text
  of `operator<<` only so that the decimal round trip can be stated.
- Shared ownership: a table column stores its chunks as column values, copied when the
  append stage runs. The parse stage never touches its arrays after returning them, so
  no aliasing is observable.
- Parser.IntValue: the `long` accumulator of `read_int` is an unbounded integer. Signed
  overflow at 2^63 and above is undefined behaviour in C++ and is not modelled, so every
  lemma about `read_int` (`IntFieldAt`, `IntFieldRoundTrip`, `IntStep`, `FieldFits`)
  requires a value below 2^63. The `uint64_t` accumulators of `read_decimal` do wrap
  modulo 2^64 (`Parser.Wrap64`).
- Parser.At: a read at or past the end of the buffer yields 0. In the source,
  `data[cur]` with `cur == size` is an out-of-bounds read, undefined in C++. Each loop
  condition evaluates it before testing `cur < size`.
- Parser.ParseChunk: it requires at least one column, or a buffer whose first line runs
  to the end. With an empty schema, `parse_chunk` never advances its cursor and loops
  forever. `Pipeline.Parsable` states the same condition for the pipeline.
- Tables.CheckAligned: it requires at least one column. `print_table` reads `columns[0]`
  unconditionally.
- Non-digit bytes in numeric fields are not validated. They contribute `byte - '0'`,
  as in the source (`Parser.Digit`).
- Well-formed text is proved only for rows cut at a column boundary or not cut at all.
  A row cut inside a field is kept with zero-filled columns (`CutRowKept`); which values
  it keeps is not stated for all inputs.
