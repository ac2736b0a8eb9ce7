/** parser.cpp: the cursor-based field readers and parse_chunk, which tokenizes one
    buffer straight into a set of column arrays and undoes a row cut by the buffer end.

    Reads are bounds-checked: a position at or past the end of the buffer reads as the
    byte 0 (the source reads buf[cur] there, which C++ leaves undefined). The `size`
    argument of the source equals the buffer length at every call, so it is |buf| here. */
module Parser {
  import opened Columns

  /** buf[p], bounds-checked. */
  function At(buf: Text, p: nat): CChar
  {
    if p < |buf| then buf[p] else 0
  }

  /** The bytes that end a field, the integer part of a decimal, and a line. */
  const FIELD_END: set<CChar> := {COMMA, NEWLINE}
  const INT_PART_END: set<CChar> := {COMMA, NEWLINE, DOT}
  const LINE_END: set<CChar> := {NEWLINE}

  /** Whether a reader's while loop stops at p: the end of the buffer or a stop byte. */
  predicate StopsAt(buf: Text, p: nat, stops: set<CChar>)
  {
    p >= |buf| || buf[p] in stops
  }

  /** Where a scan from p halts: the first stopping position at or after p. */
  function ScanEnd(buf: Text, p: nat, stops: set<CChar>): (q: nat)
    decreases |buf| - p
    ensures p <= q && StopsAt(buf, q, stops)
    ensures forall k :: p <= k < q ==> !StopsAt(buf, k, stops)
    ensures p <= |buf| ==> q <= |buf|
  {
    if StopsAt(buf, p, stops) then p else ScanEnd(buf, p + 1, stops)
  }

  /** buf[i..j] where that is a slice of the buffer, otherwise nothing. */
  function Between(buf: Text, i: nat, j: nat): Text
  {
    if i <= j <= |buf| then buf[i..j] else []
  }

  /** The bytes a scan from p passes over; none of them is a stop byte. */
  function Span(buf: Text, p: nat, stops: set<CChar>): (r: Text)
    ensures forall k :: 0 <= k < |r| ==> r[k] !in stops
    ensures p <= |buf| ==> |r| == ScanEnd(buf, p, stops) - p
  {
    SpanAvoidsStops(buf, p, stops);
    Between(buf, p, ScanEnd(buf, p, stops))
  }

  lemma SpanAvoidsStops(buf: Text, p: nat, stops: set<CChar>)
    ensures forall k :: 0 <= k < |Between(buf, p, ScanEnd(buf, p, stops))| ==>
      Between(buf, p, ScanEnd(buf, p, stops))[k] !in stops
  {
    var q := ScanEnd(buf, p, stops);
    if p <= |buf| {
      forall k | 0 <= k < q - p ensures buf[p..q][k] !in stops {
        assert !StopsAt(buf, p + k, stops);
      }
    }
  }

  /** Taking one more byte of the buffer. */
  lemma BetweenSnoc(buf: Text, i: nat, j: nat)
    requires i <= j < |buf|
    ensures Between(buf, i, j + 1) == Between(buf, i, j) + [buf[j]]
  {
  }

  lemma IntValueSnoc(s: Text, c: CChar)
    ensures IntValue(s + [c]) == 10 * IntValue(s) + Digit(c)
  {
    assert (s + [c])[..|s|] == s;
  }

  lemma U64ValueSnoc(s: Text, c: CChar)
    ensures U64Value(s + [c]) == Wrap64(10 * U64Value(s) + Digit(c))
  {
    assert (s + [c])[..|s|] == s;
  }

  /** `buf[cur] - '0'`: the byte, promoted to int, minus the code of '0'; any byte is taken. */
  function Digit(c: CChar): int
  {
    c - ZERO
  }

  /** The long accumulator of read_int, res = res * 10 + digit per byte (no overflow: see README). */
  function IntValue(s: Text): int
  {
    if s == [] then 0 else 10 * IntValue(s[..|s| - 1]) + Digit(s[|s| - 1])
  }

  /** Conversion to uint64_t. */
  function Wrap64(x: int): U64
  {
    x % TWO_64
  }

  /** The uint64_t accumulators of read_decimal: the same step, wrapping modulo 2^64. */
  function U64Value(s: Text): U64
  {
    if s == [] then 0 else Wrap64(10 * U64Value(s[..|s| - 1]) + Digit(s[|s| - 1]))
  }

  /** What a reader returns, and the cursor it leaves behind. */
  datatype Read<T> = Read(value: T, next: nat)

  /** read_int: a leading '-' is stepped over but, since it negates the still-zero
      accumulator, does not change the result; the bytes up to the first ',' or '\n' or the
      end are accumulated; the cursor ends one past the stopping position. */
  function IntField(buf: Text, cur: nat): (r: Read<int>)
    ensures r.next > cur
  {
    var start := if At(buf, cur) == MINUS then cur + 1 else cur;
    Read(IntValue(Span(buf, start, FIELD_END)), ScanEnd(buf, start, FIELD_END) + 1)
  }

  /** read_decimal: a leading '-' sets the sign; bytes up to '.', ',', '\n' or the end go
      into `a`; after a '.', bytes up to ',', '\n' or the end go into `b`. */
  function DecimalField(buf: Text, cur: nat): (r: Read<Decimal>)
    ensures r.next > cur
    ensures r.value.negative <==> At(buf, cur) == MINUS
  {
    var negative := At(buf, cur) == MINUS;
    var start := if negative then cur + 1 else cur;
    var intEnd := ScanEnd(buf, start, INT_PART_END);
    var a := U64Value(Span(buf, start, INT_PART_END));
    if At(buf, intEnd) == DOT then
      Read(Dec(a, U64Value(Span(buf, intEnd + 1, FIELD_END)), negative), ScanEnd(buf, intEnd + 1, FIELD_END) + 1)
    else
      Read(Dec(a, 0, negative), intEnd + 1)
  }

  /** read_string: the bytes up to the first ',' or '\n' or the end, verbatim. */
  function StringField(buf: Text, cur: nat): (r: Read<Text>)
    ensures r.next > cur
    ensures COMMA !in r.value && NEWLINE !in r.value
  {
    Read(Span(buf, cur, FIELD_END), ScanEnd(buf, cur, FIELD_END) + 1)
  }

  /** The reader parse_chunk's switch picks for a column of type t. */
  function FieldAt(t: Type, buf: Text, cur: nat): (r: Read<Value>)
    ensures ValueType(r.value) == t && r.next > cur
  {
    match t
    case Int => var f := IntField(buf, cur); Read(IntVal(f.value), f.next)
    case Decimal => var f := DecimalField(buf, cur); Read(DecVal(f.value), f.next)
    case String => var f := StringField(buf, cur); Read(StrVal(f.value), f.next)
  }

  /** Where parse_chunk starts reading rows: one past the buffer's first '\n' (or past the end). */
  function HeaderEnd(buf: Text): nat
  {
    ScanEnd(buf, 0, LINE_END) + 1
  }

  /** A row of values matching the schema, column by column. */
  predicate RowFits(schema: seq<Type>, row: seq<Value>)
  {
    |row| == |schema| && forall j :: 0 <= j < |row| ==> ValueType(row[j]) == schema[j]
  }

  /** Every one of `rows` matches the schema. */
  predicate RowsFit(schema: seq<Type>, rows: seq<seq<Value>>)
  {
    forall k :: 0 <= k < |rows| ==> RowFits(schema, rows[k])
  }

  lemma RowsFitSnoc(schema: seq<Type>, rows: seq<seq<Value>>, row: seq<Value>)
    requires RowsFit(schema, rows) && RowFits(schema, row)
    ensures RowsFit(schema, rows + [row])
  {
  }

  /** The outcome of reading one row: its values and the cursor after it, or a rollback
      of the `col` values already appended when the cursor sits exactly at the end. */
  datatype RowRead = Row(values: seq<Value>, next: nat) | RolledBack(col: nat)

  /** The rest of a row from column `col`, with `acc` the values read for the columns before it. */
  function RowAt(schema: seq<Type>, buf: Text, col: nat, cur: nat, acc: seq<Value>): (r: RowRead)
    requires col <= |schema| && |acc| == col
    requires forall j :: 0 <= j < col ==> ValueType(acc[j]) == schema[j]
    decreases |schema| - col, 1
    ensures r.Row? ==> RowFits(schema, r.values) && r.values[..col] == acc
    ensures r.Row? ==> r.next >= cur + (|schema| - col)
    ensures r.RolledBack? ==> col <= r.col < |schema|
  {
    if col == |schema| then Row(acc, cur)
    else if cur == |buf| then RolledBack(col)
    else ColumnThenRest(schema, buf, col, cur, acc)
  }

  /** The field of column `col` read at `cur`, then the rest of the row after it. */
  function ColumnThenRest(schema: seq<Type>, buf: Text, col: nat, cur: nat, acc: seq<Value>): (r: RowRead)
    requires col < |schema| && |acc| == col
    requires forall j :: 0 <= j < col ==> ValueType(acc[j]) == schema[j]
    decreases |schema| - col, 0
    ensures r.Row? ==> RowFits(schema, r.values) && r.values[..col] == acc
    ensures r.Row? ==> r.next > cur + (|schema| - col - 1)
    ensures r.RolledBack? ==> col < r.col < |schema|
  {
    var f := FieldAt(schema[col], buf, cur);
    RowAt(schema, buf, col + 1, f.next, acc + [f.value])
  }

  /** One field of a row: read it and go on with the next column. */
  lemma RowAtStep(schema: seq<Type>, buf: Text, col: nat, cur: nat, acc: seq<Value>, v: Value, next: nat)
    requires col < |schema| && |acc| == col && cur != |buf|
    requires forall j :: 0 <= j < col ==> ValueType(acc[j]) == schema[j]
    requires Read(v, next) == FieldAt(schema[col], buf, cur)
    ensures RowAt(schema, buf, col, cur, acc) == RowAt(schema, buf, col + 1, next, acc + [v])
  {
  }

  /** The rows parse_chunk keeps from position cur on: complete rows, until the cursor
      passes the end or a row is rolled back. With no columns the source loops forever
      unless the cursor is already past the end, hence the precondition. */
  function Rows(schema: seq<Type>, buf: Text, cur: nat): (rows: seq<seq<Value>>)
    requires |schema| > 0 || cur >= |buf|
    decreases |buf| - cur
    ensures RowsFit(schema, rows)
    ensures rows == [] || cur + |rows| <= |buf|
  {
    if cur >= |buf| then []
    else
      match RowAt(schema, buf, 0, cur, [])
      case RolledBack(_) => []
      case Row(values, next) => [values] + Rows(schema, buf, next)
  }

  /** The rows parse_chunk keeps from a whole buffer. */
  function ChunkRows(schema: seq<Type>, buf: Text): (rows: seq<seq<Value>>)
    requires |schema| > 0 || HeaderEnd(buf) >= |buf|
    ensures RowsFit(schema, rows)
  {
    Rows(schema, buf, HeaderEnd(buf))
  }

  /** Column i of `rows`, appended after the values already in c. */
  function Extend(c: Column, rows: seq<seq<Value>>, i: nat): (r: Column)
    requires forall k :: 0 <= k < |rows| ==> i < |rows[k]| && ValueType(rows[k][i]) == ColumnType(c)
    ensures ColumnType(r) == ColumnType(c)
    ensures Length(r) == Length(c) + |rows|
    ensures Items(r)[..Length(c)] == Items(c)
    ensures forall k :: 0 <= k < |rows| ==> Items(r)[Length(c) + k] == rows[k][i]
  {
    if rows == [] then c
    else
      var r := Append(Extend(c, rows[..|rows| - 1], i), rows[|rows| - 1][i]);
      assert forall k :: 0 <= k < |rows| - 1 ==> rows[..|rows| - 1][k] == rows[k];
      r
  }

  /** Extending by one more row appends that row's value. */
  lemma ExtendSnoc(c: Column, rows: seq<seq<Value>>, row: seq<Value>, i: nat)
    requires forall k :: 0 <= k < |rows| ==> i < |rows[k]| && ValueType(rows[k][i]) == ColumnType(c)
    requires i < |row| && ValueType(row[i]) == ColumnType(c)
    ensures Extend(c, rows + [row], i) == Append(Extend(c, rows, i), row[i])
  {
    assert (rows + [row])[..|rows|] == rows;
  }

  /** Every column with the matching value of `row` appended: one complete row pushed. */
  function AppendRow(cs: seq<Column>, row: seq<Value>): (r: seq<Column>)
    requires RowFits(ColumnTypes(cs), row)
    ensures ColumnTypes(r) == ColumnTypes(cs)
    ensures forall i :: 0 <= i < |cs| ==> Items(r[i]) == Items(cs[i]) + [row[i]]
  {
    seq(|cs|, i requires 0 <= i < |cs| => Append(cs[i], row[i]))
  }

  /** Every column extended by its field of each of `rows`. */
  function ExtendAll(cs: seq<Column>, rows: seq<seq<Value>>): (r: seq<Column>)
    requires RowsFit(ColumnTypes(cs), rows)
    ensures ColumnTypes(r) == ColumnTypes(cs)
    ensures forall i :: 0 <= i < |cs| ==> r[i] == Extend(cs[i], rows, i)
  {
    seq(|cs|, i requires 0 <= i < |cs| => Extend(cs[i], rows, i))
  }

  /** Extending every column by one more row is pushing that row. */
  lemma ExtendAllSnoc(cs: seq<Column>, rows: seq<seq<Value>>, row: seq<Value>)
    requires RowsFit(ColumnTypes(cs), rows)
    requires RowFits(ColumnTypes(cs), row)
    ensures ExtendAll(cs, rows + [row]) == AppendRow(ExtendAll(cs, rows), row)
  {
    var l := ExtendAll(cs, rows + [row]);
    var r := AppendRow(ExtendAll(cs, rows), row);
    forall i | 0 <= i < |cs| ensures l[i] == r[i] {
      ExtendSnoc(cs[i], rows, row, i);
    }
  }

  /** The column arrays parse_chunk produces from a buffer when it starts from empty ones. */
  function ChunkColumns(schema: seq<Type>, buf: Text): (columns: seq<Column>)
    requires |schema| > 0 || HeaderEnd(buf) >= |buf|
    ensures ColumnTypes(columns) == schema
    ensures forall i :: 0 <= i < |schema| ==> Length(columns[i]) == |ChunkRows(schema, buf)|
  {
    ExtendAll(EmptyColumns(schema), ChunkRows(schema, buf))
  }

  /** rollback: pops exactly one value from each of the first `size` arrays, and nothing else. */
  method Rollback(chunk: seq<ColumnArray>, size: nat)
    requires size <= |chunk| && Distinct(chunk)
    requires forall i :: 0 <= i < size ==> Length(chunk[i].values) > 0
    modifies chunk[..size]
    ensures forall i :: 0 <= i < size ==> chunk[i].values == DropLast(old(chunk[i].values))
    ensures forall i :: size <= i < |chunk| ==> chunk[i].values == old(chunk[i].values)
  {
    for i := 0 to size
      invariant forall j :: 0 <= j < i ==> chunk[j].values == DropLast(old(chunk[j].values))
      invariant forall j :: i <= j < |chunk| ==> chunk[j].values == old(chunk[j].values)
    {
      chunk[i].Pop();
    }
  }

  /** read_int, moving the cursor. */
  method ReadInt(buf: Text, cur: nat) returns (res: int, next: nat)
    ensures Read(res, next) == IntField(buf, cur)
  {
    res := 0;
    next := cur;
    if At(buf, next) == MINUS {
      res := -res;
      next := next + 1;
    }
    ghost var start := next;
    while At(buf, next) != COMMA && At(buf, next) != NEWLINE && next < |buf|
      invariant start <= next && (next <= |buf| || next == start)
      invariant ScanEnd(buf, next, FIELD_END) == ScanEnd(buf, start, FIELD_END)
      invariant res == IntValue(Between(buf, start, next))
      decreases |buf| - next
    {
      BetweenSnoc(buf, start, next);
      IntValueSnoc(Between(buf, start, next), buf[next]);
      res := res * 10;
      res := res + Digit(buf[next]);
      next := next + 1;
    }
    next := next + 1;
  }

  /** The digit loops of read_decimal: accumulate from `from` until a stop byte or the end. */
  method AccumulateU64(buf: Text, from: nat, stops: set<CChar>) returns (res: U64, next: nat)
    ensures next == ScanEnd(buf, from, stops)
    ensures res == U64Value(Span(buf, from, stops))
  {
    res := 0;
    next := from;
    while !StopsAt(buf, next, stops)
      invariant from <= next && (next <= |buf| || next == from)
      invariant ScanEnd(buf, next, stops) == ScanEnd(buf, from, stops)
      invariant res == U64Value(Between(buf, from, next))
      decreases |buf| - next
    {
      BetweenSnoc(buf, from, next);
      U64ValueSnoc(Between(buf, from, next), buf[next]);
      res := Wrap64(res * 10 + Digit(buf[next]));
      next := next + 1;
    }
  }

  /** read_decimal, moving the cursor. */
  method ReadDecimal(buf: Text, cur: nat) returns (res: Decimal, next: nat)
    ensures Read(res, next) == DecimalField(buf, cur)
  {
    res := Dec(0, 0, false);
    next := cur;
    if At(buf, next) == MINUS {
      res := res.(negative := true);
      next := next + 1;
    }
    var a;
    a, next := AccumulateU64(buf, next, INT_PART_END);
    res := res.(a := a);
    if At(buf, next) == DOT {
      next := next + 1;
      var b;
      b, next := AccumulateU64(buf, next, FIELD_END);
      res := res.(b := b);
    }
    next := next + 1;
  }

  /** read_string, moving the cursor. */
  method ReadString(buf: Text, cur: nat) returns (res: Text, next: nat)
    ensures Read(res, next) == StringField(buf, cur)
  {
    res := [];
    next := cur;
    while At(buf, next) != COMMA && At(buf, next) != NEWLINE && next < |buf|
      invariant cur <= next && (next <= |buf| || next == cur)
      invariant ScanEnd(buf, next, FIELD_END) == ScanEnd(buf, cur, FIELD_END)
      invariant res == Between(buf, cur, next)
      decreases |buf| - next
    {
      BetweenSnoc(buf, cur, next);
      res := res + [buf[next]];
      next := next + 1;
    }
    next := next + 1;
  }

  /** The switch of parse_chunk: the reader for a column's type, its value tagged with that type. */
  method ReadField(t: Type, buf: Text, cur: nat) returns (v: Value, next: nat)
    ensures Read(v, next) == FieldAt(t, buf, cur)
  {
    match t {
      case Int =>
        var x;
        x, next := ReadInt(buf, cur);
        v := IntVal(x);
      case Decimal =>
        var d;
        d, next := ReadDecimal(buf, cur);
        v := DecVal(d);
      case String =>
        var s;
        s, next := ReadString(buf, cur);
        v := StrVal(s);
    }
  }

  /** One pass of parse_chunk's loop over the columns, entered with the cursor before the
      end: each field is read and pushed at once; if the cursor sits exactly at the end
      before some column, the values pushed for this row are popped again. */
  method ReadRow(chunk: seq<ColumnArray>, buf: Text, cur: nat, ghost schema: seq<Type>)
    returns (next: nat, finished: bool, ghost values: seq<Value>)
    requires Distinct(chunk) && ColumnTypes(ValuesOf(chunk)) == schema
    requires 0 < |chunk| && cur < |buf|
    modifies chunk
    ensures finished ==> RowAt(schema, buf, 0, cur, []).RolledBack?
    ensures finished ==> forall i :: 0 <= i < |chunk| ==> chunk[i].values == old(chunk[i].values)
    ensures !finished ==> RowAt(schema, buf, 0, cur, []) == Row(values, next)
    ensures !finished ==> forall i :: 0 <= i < |chunk| ==>
      chunk[i].values == Append(old(chunk[i].values), values[i])
  {
    ghost var before := ValuesOf(chunk);
    next := cur;
    values := [];
    finished := false;
    var col := 0;
    while col < |chunk|
      invariant col <= |chunk| && |values| == col
      invariant forall j :: 0 <= j < col ==> ValueType(values[j]) == schema[j]
      invariant RowAt(schema, buf, 0, cur, []) == RowAt(schema, buf, col, next, values)
      invariant forall i :: 0 <= i < col ==> chunk[i].values == Append(before[i], values[i])
      invariant forall i :: col <= i < |chunk| ==> chunk[i].values == before[i]
    {
      if next == |buf| {
        UndoRow(chunk, col, before, values);
        finished := true;
        return;
      }
      var v;
      ghost var here := next;
      label BeforePush:
      v, next := PushField(chunk, col, buf, next);
      RowAtStep(schema, buf, col, here, values, v, next);
      forall i | 0 <= i < |chunk| && i != col ensures chunk[i].values == old@BeforePush(chunk[i].values) {
        assert chunk[i] != chunk[col];
      }
      values := values + [v];
      col := col + 1;
    }
  }

  /** One row of parse_chunk, seen from the arrays: either the whole row is pushed and the
      rows kept from here on are it followed by those kept after it, or nothing changes and
      no row is kept from here on. */
  method ParseRow(chunk: seq<ColumnArray>, buf: Text, cur: nat, ghost schema: seq<Type>)
    returns (next: nat, finished: bool, ghost row: seq<Value>)
    requires Distinct(chunk) && ColumnTypes(ValuesOf(chunk)) == schema
    requires 0 < |chunk| && cur < |buf|
    modifies chunk
    ensures finished ==> ValuesOf(chunk) == old(ValuesOf(chunk)) && Rows(schema, buf, cur) == []
    ensures !finished ==> RowFits(schema, row) && ValuesOf(chunk) == AppendRow(old(ValuesOf(chunk)), row)
    ensures !finished ==> next > cur && Rows(schema, buf, cur) == [row] + Rows(schema, buf, next)
  {
    ghost var before := ValuesOf(chunk);
    next, finished, row := ReadRow(chunk, buf, cur, schema);
    if !finished {
      assert ValuesOf(chunk) == AppendRow(before, row);
    } else {
      assert ValuesOf(chunk) == before;
    }
  }

  /** The rollback branch of parse_chunk: popping the `col` values pushed for the current
      row restores the arrays as they were before the row. */
  method UndoRow(chunk: seq<ColumnArray>, col: nat, ghost before: seq<Column>, ghost values: seq<Value>)
    requires Distinct(chunk) && col <= |chunk| == |before| && col <= |values|
    requires forall i :: 0 <= i < col ==> ValueType(values[i]) == ColumnType(before[i])
    requires forall i :: 0 <= i < col ==> chunk[i].values == Append(before[i], values[i])
    modifies chunk
    ensures forall i :: 0 <= i < col ==> chunk[i].values == before[i]
    ensures forall i :: col <= i < |chunk| ==> chunk[i].values == old(chunk[i].values)
  {
    forall i | 0 <= i < col
      ensures Length(chunk[i].values) > 0 && DropLast(chunk[i].values) == before[i]
    {
      DropLastUndoesAppend(before[i], values[i]);
    }
    Rollback(chunk, col);
  }

  /** One field of parse_chunk's loop: read with the reader for the column's type and push. */
  method PushField(chunk: seq<ColumnArray>, col: nat, buf: Text, cur: nat) returns (v: Value, next: nat)
    requires col < |chunk|
    modifies chunk[col]
    ensures Read(v, next) == FieldAt(old(chunk[col].Type()), buf, cur)
    ensures chunk[col].values == Append(old(chunk[col].values), v)
  {
    v, next := ReadField(chunk[col].Type(), buf, cur);
    chunk[col].Push(v);
  }

  /** The first loop of parse_chunk: the cursor ends one past the buffer's first '\n'. */
  method SkipHeader(buf: Text) returns (cur: nat)
    ensures cur == HeaderEnd(buf)
  {
    cur := 0;
    while At(buf, cur) != NEWLINE && cur < |buf|
      invariant cur <= |buf|
      invariant ScanEnd(buf, cur, LINE_END) == ScanEnd(buf, 0, LINE_END)
      decreases |buf| - cur
    {
      cur := cur + 1;
    }
    cur := cur + 1;
  }

  lemma ConcatAssoc<T>(a: seq<T>, b: seq<T>, c: seq<T>)
    ensures a + b + c == a + (b + c)
  {
  }

  /** parse_chunk: skips the first line, then reads rows field by field, pushing each value
      straight into its column; a row that finds the cursor exactly at the end before one
      of its columns is popped again. Each array ends up extended by its column of the
      kept rows. */
  method ParseChunk(chunk: seq<ColumnArray>, buf: Text)
    requires Distinct(chunk)
    requires |chunk| > 0 || HeaderEnd(buf) >= |buf|
    modifies chunk
    ensures ColumnTypes(ValuesOf(chunk)) == ColumnTypes(old(ValuesOf(chunk)))
    ensures ValuesOf(chunk) == ExtendAll(old(ValuesOf(chunk)), ChunkRows(ColumnTypes(old(ValuesOf(chunk))), buf))
  {
    ghost var start := ValuesOf(chunk);
    ghost var schema := ColumnTypes(start);
    var cur := SkipHeader(buf);
    ghost var rows: seq<seq<Value>> := [];
    var finished := false;
    while !finished && cur < |buf|
      invariant |chunk| > 0 || cur >= |buf|
      invariant RowsFit(schema, rows)
      invariant ValuesOf(chunk) == ExtendAll(start, rows)
      invariant !finished ==> ChunkRows(schema, buf) == rows + Rows(schema, buf, cur)
      invariant finished ==> ChunkRows(schema, buf) == rows
      decreases if finished || cur >= |buf| then 0 else |buf| - cur + 1
    {
      ghost var row;
      cur, finished, row := ParseRow(chunk, buf, cur, schema);
      if !finished {
        ExtendAllSnoc(start, rows, row);
        RowsFitSnoc(schema, rows, row);
        ConcatAssoc(rows, [row], Rows(schema, buf, cur));
        rows := rows + [row];
      }
    }
    if !finished {
      assert Rows(schema, buf, cur) == [];
      assert rows + [] == rows;
    }
  }
}
