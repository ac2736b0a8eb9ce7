/** What the readers and parse_chunk compute on well-formed text, and the quirks of the
    code: the sign of an integer is dropped, every buffer loses its first line, and a
    field cut by the end of the buffer is kept. */
module ParserProperties {
  import opened Columns
  import opened Tables
  import opened Parser

  /** The text of an optional leading '-'. */
  function SignText(negative: bool): Text
  {
    if negative then [MINUS] else []
  }

  predicate AllDigits(t: Text)
  {
    forall c <- t :: IsDigit(c)
  }

  /** buf holds the bytes t from position p on, byte by byte. */
  predicate HoldsAt(buf: Text, p: nat, t: Text)
    decreases |t|
  {
    p + |t| <= |buf| && (t == [] || (buf[p] == t[0] && HoldsAt(buf, p + 1, t[1..])))
  }

  lemma {:induction false} HoldsIndex(buf: Text, p: nat, t: Text)
    requires HoldsAt(buf, p, t)
    ensures p + |t| <= |buf| && forall k :: 0 <= k < |t| ==> buf[p + k] == t[k]
    decreases |t|
  {
    if t != [] {
      HoldsIndex(buf, p + 1, t[1..]);
      forall k | 0 <= k < |t| ensures buf[p + k] == t[k] {
        if k > 0 {
          assert buf[p + 1 + (k - 1)] == t[1..][k - 1];
        }
      }
    }
  }

  /** Holding a slice of the buffer. */
  lemma {:induction false} HoldsSlice(buf: Text, p: nat, q: nat)
    requires p <= q <= |buf|
    ensures HoldsAt(buf, p, buf[p..q])
    decreases q - p
  {
    if p < q {
      HoldsSlice(buf, p + 1, q);
      assert buf[p..q][1..] == buf[p + 1..q];
    }
  }

  /** Position p ends a field: it is the end of the buffer, a ',' or a '\n'. */
  predicate EndsField(buf: Text, p: nat)
  {
    p == |buf| || (p < |buf| && buf[p] in FIELD_END)
  }

  /** A scan stops at the first stopping position: any q that stops, with none before it. */
  lemma {:induction false} ScanEndIs(buf: Text, p: nat, q: nat, stops: set<CChar>)
    requires p <= q && StopsAt(buf, q, stops)
    requires forall k :: p <= k < q ==> !StopsAt(buf, k, stops)
    ensures ScanEnd(buf, p, stops) == q
    decreases q - p
  {
    if p < q {
      ScanEndIs(buf, p + 1, q, stops);
    }
  }

  /** A scan over bytes t free of stop bytes, followed by a stop byte or the end, passes
      over exactly t. */
  lemma ScanOver(buf: Text, p: nat, t: Text, stops: set<CChar>)
    requires HoldsAt(buf, p, t) && forall c <- t :: c !in stops
    requires StopsAt(buf, p + |t|, stops)
    ensures ScanEnd(buf, p, stops) == p + |t|
    ensures Span(buf, p, stops) == t
  {
    HoldsIndex(buf, p, t);
    forall k | p <= k < p + |t| ensures !StopsAt(buf, k, stops) {
      assert buf[p + (k - p)] == t[k - p];
    }
    ScanEndIs(buf, p, p + |t|, stops);
  }

  lemma DigitsAvoid(t: Text, stops: set<CChar>)
    requires AllDigits(t) && stops <= INT_PART_END
    ensures forall c <- t :: c !in stops
  {
    forall c <- t ensures c !in stops {
      assert IsDigit(c);
    }
  }

  /** read_int's scan over an optional '-' and digits t ending a field: it accumulates
      exactly t, whatever its value, and stops one past the delimiter. */
  lemma IntScanAt(buf: Text, p: nat, negative: bool, t: Text)
    requires HoldsAt(buf, p, SignText(negative) + t) && AllDigits(t)
    requires EndsField(buf, p + |SignText(negative)| + |t|)
    ensures IntField(buf, p) == Read(IntValue(t), p + |SignText(negative)| + |t| + 1)
  {
    var start := p + |SignText(negative)|;
    assert (At(buf, p) == MINUS) == negative by {
      IntPartAt(buf, p, negative, t);
    }
    assert ScanEnd(buf, start, FIELD_END) == start + |t| && Span(buf, start, FIELD_END) == t by {
      HoldsSplit(buf, p, SignText(negative), t);
      DigitsAvoid(t, FIELD_END);
      ScanOver(buf, start, t, FIELD_END);
    }
  }

  /** read_int on an optional '-' and digits t ending a field: the value of t whatever the
      sign, the cursor one past the delimiter. The value must fit the `long` accumulator;
      beyond it the source overflows. */
  lemma IntFieldAt(buf: Text, p: nat, negative: bool, t: Text)
    requires HoldsAt(buf, p, SignText(negative) + t) && AllDigits(t) && IntValue(t) < TWO_63
    requires EndsField(buf, p + |SignText(negative)| + |t|)
    ensures IntField(buf, p) == Read(IntValue(t), p + |SignText(negative)| + |t| + 1)
  {
    IntScanAt(buf, p, negative, t);
  }

  /** Holding a concatenation is holding each part, one after the other. */
  lemma {:induction false} HoldsSplit(buf: Text, p: nat, a: Text, b: Text)
    requires HoldsAt(buf, p, a + b)
    ensures HoldsAt(buf, p, a) && HoldsAt(buf, p + |a|, b)
    decreases |a|
  {
    if a != [] {
      assert (a + b)[1..] == a[1..] + b;
      HoldsSplit(buf, p + 1, a[1..], b);
    } else {
      assert a + b == b;
    }
  }

  lemma HoldsFirst(buf: Text, p: nat, t: Text)
    requires HoldsAt(buf, p, t) && t != []
    ensures p < |buf| && buf[p] == t[0]
  {
  }

  /** The integer part read_decimal scans: after the optional '-', exactly the digits ta,
      stopped by the byte that follows them. */
  lemma IntPartAt(buf: Text, p: nat, negative: bool, ta: Text)
    requires HoldsAt(buf, p, SignText(negative) + ta) && AllDigits(ta)
    requires StopsAt(buf, p + |SignText(negative)| + |ta|, INT_PART_END)
    ensures (At(buf, p) == MINUS) == negative
    ensures ScanEnd(buf, p + |SignText(negative)|, INT_PART_END) == p + |SignText(negative)| + |ta|
    ensures Span(buf, p + |SignText(negative)|, INT_PART_END) == ta
  {
    var sign := SignText(negative);
    HoldsSplit(buf, p, sign, ta);
    if negative {
      HoldsFirst(buf, p, sign);
    } else if ta != [] {
      HoldsFirst(buf, p, ta);
      assert IsDigit(ta[0]);
    }
    DigitsAvoid(ta, INT_PART_END);
    ScanOver(buf, p + |sign|, ta, INT_PART_END);
  }

  /** The fraction read_decimal scans after the '.': exactly the digits tb. */
  lemma FractionAt(buf: Text, q: nat, tb: Text)
    requires HoldsAt(buf, q, [DOT] + tb) && AllDigits(tb)
    requires EndsField(buf, q + 1 + |tb|)
    ensures StopsAt(buf, q, INT_PART_END) && At(buf, q) == DOT
    ensures ScanEnd(buf, q + 1, FIELD_END) == q + 1 + |tb|
    ensures Span(buf, q + 1, FIELD_END) == tb
  {
    HoldsSplit(buf, q, [DOT], tb);
    HoldsFirst(buf, q, [DOT]);
    DigitsAvoid(tb, FIELD_END);
    ScanOver(buf, q + 1, tb, FIELD_END);
  }

  /** A byte that ends a field also ends an integer part, and is not a '.'. */
  lemma FieldEndStops(buf: Text, q: nat)
    requires EndsField(buf, q)
    ensures StopsAt(buf, q, FIELD_END) && StopsAt(buf, q, INT_PART_END) && At(buf, q) != DOT
  {
  }

  /** read_decimal, given what its two scans find: the integer digits ta from s to q, a '.'
      at q, and the fraction digits tb up to e. */
  lemma FractionFrom(buf: Text, p: nat, negative: bool, s: nat, q: nat, e: nat, ta: Text, tb: Text)
    requires (At(buf, p) == MINUS) == negative && s == if negative then p + 1 else p
    requires ScanEnd(buf, s, INT_PART_END) == q && Span(buf, s, INT_PART_END) == ta
    requires At(buf, q) == DOT
    requires ScanEnd(buf, q + 1, FIELD_END) == e && Span(buf, q + 1, FIELD_END) == tb
    ensures DecimalField(buf, p) == Read(Dec(U64Value(ta), U64Value(tb), negative), e + 1)
  {
  }

  /** read_decimal, given what its scan finds: the integer digits ta from s to q, and no '.'
      at q. */
  lemma NoFractionFrom(buf: Text, p: nat, negative: bool, s: nat, q: nat, ta: Text)
    requires (At(buf, p) == MINUS) == negative && s == if negative then p + 1 else p
    requires ScanEnd(buf, s, INT_PART_END) == q && Span(buf, s, INT_PART_END) == ta
    requires At(buf, q) != DOT
    ensures DecimalField(buf, p) == Read(Dec(U64Value(ta), 0, negative), q + 1)
  {
  }

  /** What read_decimal's scans find on an optional '-', digits ta, '.' and digits tb. */
  lemma DecimalScans(buf: Text, p: nat, negative: bool, ta: Text, tb: Text)
    requires HoldsAt(buf, p, SignText(negative) + ta + ([DOT] + tb)) && AllDigits(ta) && AllDigits(tb)
    requires EndsField(buf, p + |SignText(negative)| + |ta| + 1 + |tb|)
    ensures var s := p + |SignText(negative)|;
      (At(buf, p) == MINUS) == negative && s == (if negative then p + 1 else p) &&
      ScanEnd(buf, s, INT_PART_END) == s + |ta| && Span(buf, s, INT_PART_END) == ta &&
      At(buf, s + |ta|) == DOT &&
      ScanEnd(buf, s + |ta| + 1, FIELD_END) == s + |ta| + 1 + |tb| &&
      Span(buf, s + |ta| + 1, FIELD_END) == tb
  {
    var s := p + |SignText(negative)|;
    var q := s + |ta|;
    HoldsSplit(buf, p, SignText(negative) + ta, [DOT] + tb);
    FractionAt(buf, q, tb);
    IntPartAt(buf, p, negative, ta);
  }

  /** What read_decimal's scans find on an optional '-' and digits ta ending a field. */
  lemma NoDotScans(buf: Text, p: nat, negative: bool, ta: Text)
    requires HoldsAt(buf, p, SignText(negative) + ta) && AllDigits(ta)
    requires EndsField(buf, p + |SignText(negative)| + |ta|)
    ensures var s := p + |SignText(negative)|;
      (At(buf, p) == MINUS) == negative && s == (if negative then p + 1 else p) &&
      ScanEnd(buf, s, INT_PART_END) == s + |ta| && Span(buf, s, INT_PART_END) == ta &&
      At(buf, s + |ta|) != DOT
  {
    FieldEndStops(buf, p + |SignText(negative)| + |ta|);
    IntPartAt(buf, p, negative, ta);
  }

  /** read_decimal on an optional '-', digits ta, '.' and digits tb ending a field. */
  lemma DecimalFieldAt(buf: Text, p: nat, negative: bool, ta: Text, tb: Text)
    requires HoldsAt(buf, p, SignText(negative) + ta + ([DOT] + tb)) && AllDigits(ta) && AllDigits(tb)
    requires EndsField(buf, p + |SignText(negative)| + |ta| + 1 + |tb|)
    ensures DecimalField(buf, p)
      == Read(Dec(U64Value(ta), U64Value(tb), negative), p + |SignText(negative)| + |ta| + 1 + |tb| + 1)
  {
    DecimalScans(buf, p, negative, ta, tb);
    var s := p + |SignText(negative)|;
    FractionFrom(buf, p, negative, s, s + |ta|, s + |ta| + 1 + |tb|, ta, tb);
  }

  /** read_decimal on an optional '-' and digits ending a field, with no '.': the fraction is 0. */
  lemma DecimalFieldNoDotAt(buf: Text, p: nat, negative: bool, ta: Text)
    requires HoldsAt(buf, p, SignText(negative) + ta) && AllDigits(ta)
    requires EndsField(buf, p + |SignText(negative)| + |ta|)
    ensures DecimalField(buf, p) == Read(Dec(U64Value(ta), 0, negative), p + |SignText(negative)| + |ta| + 1)
  {
    NoDotScans(buf, p, negative, ta);
    var s := p + |SignText(negative)|;
    NoFractionFrom(buf, p, negative, s, s + |ta|, ta);
  }

  /** read_string on bytes free of ',' and '\n' ending a field: exactly those bytes. */
  lemma StringFieldAt(buf: Text, p: nat, t: Text)
    requires HoldsAt(buf, p, t) && COMMA !in t && NEWLINE !in t
    requires EndsField(buf, p + |t|)
    ensures StringField(buf, p) == Read(t, p + |t| + 1)
  {
    ScanOver(buf, p, t, FIELD_END);
  }

  /** The value a reader yields when entered past the end of the buffer. */
  function Default(t: Type): (v: Value)
    ensures ValueType(v) == t
  {
    match t
    case Int => IntVal(0)
    case Decimal => DecVal(Dec(0, 0, false))
    case String => StrVal([])
  }

  /** Past the end nothing is read: the reader yields its type's zero and moves one on. */
  lemma FieldPastEnd(t: Type, buf: Text, p: nat)
    requires p > |buf|
    ensures FieldAt(t, buf, p) == Read(Default(t), p + 1)
  {
    assert ScanEnd(buf, p, FIELD_END) == p && ScanEnd(buf, p, INT_PART_END) == p;
  }

  /** Once the cursor is past the end, the rest of the row is filled with zeros, never rolled back. */
  lemma {:induction false} RowPastEnd(schema: seq<Type>, buf: Text, col: nat, p: nat, acc: seq<Value>)
    requires col <= |schema| && |acc| == col && p > |buf|
    requires forall j :: 0 <= j < col ==> ValueType(acc[j]) == schema[j]
    ensures RowAt(schema, buf, col, p, acc)
      == Row(acc + seq(|schema| - col, j requires 0 <= j < |schema| - col => Default(schema[col + j])), p + |schema| - col)
    decreases |schema| - col
  {
    if col < |schema| {
      var v := Default(schema[col]);
      FieldPastEnd(schema[col], buf, p);
      RowPastEnd(schema, buf, col + 1, p + 1, acc + [v]);
      var tail := seq(|schema| - col, j requires 0 <= j < |schema| - col => Default(schema[col + j]));
      var tail' := seq(|schema| - col - 1, j requires 0 <= j < |schema| - col - 1 => Default(schema[col + 1 + j]));
      assert acc + [v] + tail' == acc + tail;
    }
  }

  /** A row is kept and reading goes on after it; a rolled-back row ends the buffer. */
  lemma RowsStep(schema: seq<Type>, buf: Text, cur: nat)
    requires |schema| > 0 && cur < |buf|
    ensures RowAt(schema, buf, 0, cur, []).RolledBack? ==> Rows(schema, buf, cur) == []
    ensures RowAt(schema, buf, 0, cur, []).Row? ==>
      Rows(schema, buf, cur) == [RowAt(schema, buf, 0, cur, []).values] + Rows(schema, buf, RowAt(schema, buf, 0, cur, []).next)
  {
  }

  /** A kept row is followed by the rows kept after it. */
  lemma RowKept(schema: seq<Type>, buf: Text, cur: nat, values: seq<Value>, next: nat)
    requires |schema| > 0 && cur < |buf| && RowAt(schema, buf, 0, cur, []) == Row(values, next)
    ensures Rows(schema, buf, cur) == [values] + Rows(schema, buf, next)
  {
  }

  /** parse_chunk drops everything up to and including the first '\n' of every buffer. */
  lemma HeaderEndSkipsFirstLine(buf: Text, line: Text)
    requires HoldsAt(buf, 0, line) && NEWLINE !in line
    requires |line| < |buf| && buf[|line|] == NEWLINE
    ensures HeaderEnd(buf) == |line| + 1
  {
    ScanOver(buf, 0, line, LINE_END);
  }

  /** A buffer without a '\n' yields no rows at all. */
  lemma NoNewlineNoRows(schema: seq<Type>, buf: Text)
    requires NEWLINE !in buf
    ensures HeaderEnd(buf) == |buf| + 1 && ChunkRows(schema, buf) == []
  {
    HoldsSlice(buf, 0, |buf|);
    assert buf[0..|buf|] == buf;
    ScanOver(buf, 0, buf, LINE_END);
  }

  /** Decimal digits of n read back as n. */
  lemma {:induction false} IntValueOfNatText(n: nat)
    ensures IntValue(NatText(n)) == n
  {
    if n >= 10 {
      IntValueOfNatText(n / 10);
      IntValueSnoc(NatText(n / 10), ZERO + n % 10);
    } else {
      assert [ZERO + n][..0] == [];
    }
  }

  lemma ModStep(x: int, d: int)
    ensures Wrap64(10 * Wrap64(x) + d) == Wrap64(10 * x + d)
  {
    var q := x / TWO_64;
    assert x == q * TWO_64 + Wrap64(x);
    assert 10 * x + d == (10 * Wrap64(x) + d) + (10 * q) * TWO_64;
  }

  /** The uint64_t accumulators are the long accumulator, wrapped modulo 2^64. */
  lemma {:induction false} U64ValueWraps(s: Text)
    ensures U64Value(s) == Wrap64(IntValue(s))
  {
    if s != [] {
      var init := s[..|s| - 1];
      U64ValueWraps(init);
      ModStep(IntValue(init), Digit(s[|s| - 1]));
    }
  }

  lemma U64ValueOfNatText(n: U64)
    ensures U64Value(NatText(n)) == n
  {
    U64ValueWraps(NatText(n));
    IntValueOfNatText(n);
  }

  /** read_int reads back the decimal text of n, with or without a '-' in front: the sign is lost. */
  lemma IntFieldRoundTrip(buf: Text, p: nat, n: nat, negative: bool)
    requires n < TWO_63
    requires HoldsAt(buf, p, SignText(negative) + NatText(n))
    requires EndsField(buf, p + |SignText(negative)| + |NatText(n)|)
    ensures IntField(buf, p) == Read(n, p + |SignText(negative)| + |NatText(n)| + 1)
  {
    IntValueOfNatText(n);
    IntFieldAt(buf, p, negative, NatText(n));
  }

  /** read_decimal reads back what operator<< prints for a Decimal. */
  lemma DecimalFieldRoundTrip(buf: Text, p: nat, d: Decimal)
    requires HoldsAt(buf, p, RenderDecimal(d)) && EndsField(buf, p + |RenderDecimal(d)|)
    ensures DecimalField(buf, p) == Read(d, p + |RenderDecimal(d)| + 1)
  {
    assert RenderDecimal(d) == SignText(d.negative) + NatText(d.a) + ([DOT] + NatText(d.b));
    DecimalFieldAt(buf, p, d.negative, NatText(d.a), NatText(d.b));
    U64ValueOfNatText(d.a);
    U64ValueOfNatText(d.b);
  }

  /** Field i of every row, in row order. */
  function FieldColumn(rows: seq<seq<Value>>, i: nat): seq<Value>
    requires forall k :: 0 <= k < |rows| ==> i < |rows[k]|
  {
    seq(|rows|, k requires 0 <= k < |rows| => rows[k][i])
  }

  /** Starting from empty columns, column i after extending by `rows` is field i of every row. */
  lemma ExtendEmptyHoldsRows(schema: seq<Type>, rows: seq<seq<Value>>, i: nat)
    requires RowsFit(schema, rows) && i < |schema|
    ensures Items(ExtendAll(EmptyColumns(schema), rows)[i]) == FieldColumn(rows, i)
  {
    var c := ExtendAll(EmptyColumns(schema), rows)[i];
    var empty := EmptyColumns(schema)[i];
    assert c == Extend(empty, rows, i) && Length(empty) == 0;
    var fields := FieldColumn(rows, i);
    forall k | 0 <= k < |rows| ensures Items(c)[k] == fields[k] {
      assert Items(c)[Length(empty) + k] == rows[k][i];
    }
  }

  /** Column i of the arrays parse_chunk fills holds field i of every kept row, in row order. */
  lemma ChunkColumnsHoldRows(schema: seq<Type>, buf: Text, i: nat)
    requires |schema| > 0 || HeaderEnd(buf) >= |buf|
    requires i < |schema|
    ensures Items(ChunkColumns(schema, buf)[i]) == FieldColumn(ChunkRows(schema, buf), i)
  {
    ExtendEmptyHoldsRows(schema, ChunkRows(schema, buf), i);
  }

  /** Reading column col of a row, with acc the values of the columns before it. */
  predicate Reading(schema: seq<Type>, col: nat, acc: seq<Value>)
  {
    col < |schema| && |acc| == col && forall j :: 0 <= j < col ==> ValueType(acc[j]) == schema[j]
  }

  /** An integer column of a row over an optional '-' and digits: the unsigned value, then the next column. */
  lemma IntStep(schema: seq<Type>, buf: Text, col: nat, p: nat, acc: seq<Value>, negative: bool, t: Text)
    requires Reading(schema, col, acc) && schema[col] == Int && p < |buf|
    requires HoldsAt(buf, p, SignText(negative) + t) && AllDigits(t) && IntValue(t) < TWO_63
    requires EndsField(buf, p + |SignText(negative)| + |t|)
    ensures RowAt(schema, buf, col, p, acc)
      == RowAt(schema, buf, col + 1, p + |SignText(negative)| + |t| + 1, acc + [IntVal(IntValue(t))])
  {
    IntFieldAt(buf, p, negative, t);
    RowAtStep(schema, buf, col, p, acc, IntVal(IntValue(t)), p + |SignText(negative)| + |t| + 1);
  }

  /** A decimal column of a row over an optional '-', digits, '.' and digits. */
  lemma DecimalStep(schema: seq<Type>, buf: Text, col: nat, p: nat, acc: seq<Value>, negative: bool, ta: Text, tb: Text)
    requires Reading(schema, col, acc) && schema[col] == Decimal && p < |buf|
    requires HoldsAt(buf, p, SignText(negative) + ta + ([DOT] + tb)) && AllDigits(ta) && AllDigits(tb)
    requires EndsField(buf, p + |SignText(negative)| + |ta| + 1 + |tb|)
    ensures RowAt(schema, buf, col, p, acc)
      == RowAt(schema, buf, col + 1, p + |SignText(negative)| + |ta| + 1 + |tb| + 1,
               acc + [DecVal(Dec(U64Value(ta), U64Value(tb), negative))])
  {
    DecimalFieldAt(buf, p, negative, ta, tb);
    RowAtStep(schema, buf, col, p, acc, DecVal(Dec(U64Value(ta), U64Value(tb), negative)),
      p + |SignText(negative)| + |ta| + 1 + |tb| + 1);
  }

  /** A string column of a row over bytes free of ',' and '\n'. */
  lemma StringStep(schema: seq<Type>, buf: Text, col: nat, p: nat, acc: seq<Value>, t: Text)
    requires Reading(schema, col, acc) && schema[col] == String && p < |buf|
    requires HoldsAt(buf, p, t) && COMMA !in t && NEWLINE !in t && EndsField(buf, p + |t|)
    ensures RowAt(schema, buf, col, p, acc) == RowAt(schema, buf, col + 1, p + |t| + 1, acc + [StrVal(t)])
  {
    StringFieldAt(buf, p, t);
    RowAtStep(schema, buf, col, p, acc, StrVal(t), p + |t| + 1);
  }

  /** A row whose field at column col runs to the end of the buffer, with no ',' or '\n'
      after position p, is kept: rollback happens only at a column boundary. */
  lemma CutRowKept(schema: seq<Type>, buf: Text, col: nat, p: nat, acc: seq<Value>)
    requires Reading(schema, col, acc) && p < |buf|
    requires forall k :: p <= k < |buf| ==> buf[k] !in FIELD_END
    ensures RowAt(schema, buf, col, p, acc).Row?
    ensures RowAt(schema, buf, col, p, acc).next == |buf| + |schema| - col
  {
    var f := FieldAt(schema[col], buf, p);
    FieldRunsToEnd(schema[col], buf, p);
    RowAtStep(schema, buf, col, p, acc, f.value, f.next);
    RowPastEnd(schema, buf, col + 1, |buf| + 1, acc + [f.value]);
  }

  /** A field with no ',' or '\n' after its start leaves the cursor one past the end. */
  lemma FieldRunsToEnd(t: Type, buf: Text, p: nat)
    requires p < |buf| && forall k :: p <= k < |buf| ==> buf[k] !in FIELD_END
    ensures FieldAt(t, buf, p).next == |buf| + 1
  {
    forall s | p <= s <= |buf| ensures ScanEnd(buf, s, FIELD_END) == |buf| {
      ScanEndIs(buf, s, |buf|, FIELD_END);
    }
    var s := if At(buf, p) == MINUS then p + 1 else p;
    var q := ScanEnd(buf, s, INT_PART_END);
    if q < |buf| {
      assert buf[q] in INT_PART_END && buf[q] !in FIELD_END;
    }
  }

  /** One well-formed field as a writer would put it in the file: an integer with an
      optional '-', a decimal as operator<< prints it, or bytes free of ',' and '\n'. */
  datatype FieldText = IntText(negative: bool, n: nat) | DecText(d: Decimal) | StrText(s: Text)

  /** The bytes of a field. */
  function FieldBytes(f: FieldText): Text
  {
    match f
    case IntText(negative, n) => SignText(negative) + NatText(n)
    case DecText(d) => RenderDecimal(d)
    case StrText(s) => s
  }

  /** The value parse_chunk stores for a field: an integer loses its sign. */
  function FieldValue(f: FieldText): Value
  {
    match f
    case IntText(_, n) => IntVal(n)
    case DecText(d) => DecVal(d)
    case StrText(s) => StrVal(s)
  }

  /** A field fit for a column of type t: of that type, an integer within the range of a
      `long`, a string free of delimiters. */
  predicate FieldFits(t: Type, f: FieldText)
  {
    match f
    case IntText(_, n) => t == Int && n < TWO_63
    case DecText(_) => t == Decimal
    case StrText(s) => t == String && COMMA !in s && NEWLINE !in s
  }

  /** The reader for a column's type reads back a fitting field that ends a field. */
  lemma FieldRoundTrip(t: Type, buf: Text, p: nat, f: FieldText)
    requires FieldFits(t, f)
    requires HoldsAt(buf, p, FieldBytes(f)) && EndsField(buf, p + |FieldBytes(f)|)
    ensures FieldAt(t, buf, p) == Read(FieldValue(f), p + |FieldBytes(f)| + 1)
  {
    match f
    case IntText(negative, n) =>
      IntFieldRoundTrip(buf, p, n, negative);
    case DecText(d) =>
      DecimalFieldRoundTrip(buf, p, d);
    case StrText(str) =>
      StringFieldAt(buf, p, str);
  }

  /** One fitting field of a row: read it and go on with the next column. */
  lemma FieldStep(schema: seq<Type>, buf: Text, col: nat, p: nat, acc: seq<Value>, f: FieldText)
    requires Reading(schema, col, acc) && FieldFits(schema[col], f)
    requires HoldsAt(buf, p, FieldBytes(f)) && EndsField(buf, p + |FieldBytes(f)|) && p < |buf|
    ensures RowAt(schema, buf, col, p, acc)
      == RowAt(schema, buf, col + 1, p + |FieldBytes(f)| + 1, acc + [FieldValue(f)])
  {
    FieldRoundTrip(schema[col], buf, p, f);
    RowAtStep(schema, buf, col, p, acc, FieldValue(f), p + |FieldBytes(f)| + 1);
  }

  /** A row of fields fit for the schema, column by column. */
  predicate LineFits(schema: seq<Type>, fields: seq<FieldText>)
  {
    |fields| == |schema| && forall j :: 0 <= j < |fields| ==> FieldFits(schema[j], fields[j])
  }

  /** Fields joined by ','. */
  function JoinFields(fields: seq<FieldText>): Text
    requires |fields| > 0
  {
    if |fields| == 1 then FieldBytes(fields[0])
    else FieldBytes(fields[0]) + [COMMA] + JoinFields(fields[1..])
  }

  /** A line of the file: its fields joined by ',', then '\n'. */
  function LineText(fields: seq<FieldText>): Text
    requires |fields| > 0
  {
    JoinFields(fields) + [NEWLINE]
  }

  function FieldValues(fields: seq<FieldText>): (r: seq<Value>)
    ensures |r| == |fields| && forall j :: 0 <= j < |fields| ==> r[j] == FieldValue(fields[j])
  {
    seq(|fields|, j requires 0 <= j < |fields| => FieldValue(fields[j]))
  }

  /** Holding a, then the byte c, then b. */
  lemma HoldsThen(buf: Text, p: nat, a: Text, c: CChar, b: Text)
    requires HoldsAt(buf, p, a + ([c] + b))
    ensures HoldsAt(buf, p, a) && p + |a| < |buf| && buf[p + |a|] == c && HoldsAt(buf, p + |a| + 1, b)
  {
    HoldsSplit(buf, p, a, [c] + b);
    HoldsSplit(buf, p + |a|, [c], b);
    HoldsFirst(buf, p + |a|, [c]);
  }

  /** The last field of a line: it ends at the '\n'. */
  lemma LastFieldAt(buf: Text, p: nat, fields: seq<FieldText>, col: nat)
    requires col + 1 == |fields|
    requires HoldsAt(buf, p, JoinFields(fields[col..]) + [NEWLINE])
    ensures var fb := FieldBytes(fields[col]);
      HoldsAt(buf, p, fb) && p + |fb| < |buf| && EndsField(buf, p + |fb|) &&
      |JoinFields(fields[col..])| == |fb|
  {
    assert fields[col..] == [fields[col]];
    assert JoinFields(fields[col..]) + [NEWLINE] == FieldBytes(fields[col]) + ([NEWLINE] + []);
    HoldsThen(buf, p, FieldBytes(fields[col]), NEWLINE, []);
  }

  /** A field of a line before its last: it ends at a ',' and the rest of the line follows. */
  lemma NextFieldAt(buf: Text, p: nat, fields: seq<FieldText>, col: nat)
    requires col + 1 < |fields|
    requires HoldsAt(buf, p, JoinFields(fields[col..]) + [NEWLINE])
    ensures var fb := FieldBytes(fields[col]);
      HoldsAt(buf, p, fb) && p + |fb| < |buf| && EndsField(buf, p + |fb|) &&
      HoldsAt(buf, p + |fb| + 1, JoinFields(fields[col + 1..]) + [NEWLINE]) &&
      |JoinFields(fields[col..])| == |fb| + 1 + |JoinFields(fields[col + 1..])|
  {
    var fb := FieldBytes(fields[col]);
    var tail := JoinFields(fields[col + 1..]);
    assert fields[col..][0] == fields[col] && fields[col..][1..] == fields[col + 1..];
    assert JoinFields(fields[col..]) == fb + [COMMA] + tail;
    assert JoinFields(fields[col..]) + [NEWLINE] == fb + ([COMMA] + (tail + [NEWLINE]));
    HoldsThen(buf, p, fb, COMMA, tail + [NEWLINE]);
  }

  lemma FieldValuesCons(fields: seq<FieldText>, col: nat)
    requires col < |fields|
    ensures FieldValues(fields[col..]) == [FieldValue(fields[col])] + FieldValues(fields[col + 1..])
  {
  }

  /** The last field of a fitting line completes the row. */
  lemma LastFieldRow(schema: seq<Type>, buf: Text, fields: seq<FieldText>, col: nat, p: nat, acc: seq<Value>)
    requires LineFits(schema, fields) && Reading(schema, col, acc) && col + 1 == |schema|
    requires HoldsAt(buf, p, JoinFields(fields[col..]) + [NEWLINE])
    ensures RowAt(schema, buf, col, p, acc)
      == Row(acc + FieldValues(fields[col..]), p + |JoinFields(fields[col..])| + 1)
  {
    var f := fields[col];
    LastFieldAt(buf, p, fields, col);
    FieldStep(schema, buf, col, p, acc, f);
    assert fields[col..] == [f];
  }

  /** The fields from column col on of a fitting line read back as their values, and the
      cursor ends one past the line's '\n'. */
  lemma {:induction false} LineRowFrom(schema: seq<Type>, buf: Text, fields: seq<FieldText>, col: nat, p: nat, acc: seq<Value>)
    requires LineFits(schema, fields) && Reading(schema, col, acc)
    requires HoldsAt(buf, p, JoinFields(fields[col..]) + [NEWLINE])
    ensures RowAt(schema, buf, col, p, acc)
      == Row(acc + FieldValues(fields[col..]), p + |JoinFields(fields[col..])| + 1)
    decreases |schema| - col
  {
    if col + 1 == |schema| {
      LastFieldRow(schema, buf, fields, col, p, acc);
    } else {
      var f := fields[col];
      var v := FieldValue(f);
      var next := p + |FieldBytes(f)| + 1;
      NextFieldAt(buf, p, fields, col);
      FieldStep(schema, buf, col, p, acc, f);
      LineRowFrom(schema, buf, fields, col + 1, next, acc + [v]);
      FieldValuesCons(fields, col);
      ConcatAssoc(acc, [v], FieldValues(fields[col + 1..]));
    }
  }

  /** A fitting line reads back as one row of its values; the cursor ends after its '\n'. */
  lemma LineRow(schema: seq<Type>, buf: Text, fields: seq<FieldText>, p: nat)
    requires |schema| > 0 && LineFits(schema, fields)
    requires HoldsAt(buf, p, LineText(fields))
    ensures RowAt(schema, buf, 0, p, []) == Row(FieldValues(fields), p + |LineText(fields)|)
  {
    assert fields[0..] == fields;
    LineRowFrom(schema, buf, fields, 0, p, []);
  }

  predicate LinesFit(schema: seq<Type>, lines: seq<seq<FieldText>>)
  {
    forall k :: 0 <= k < |lines| ==> LineFits(schema, lines[k])
  }

  /** Lines one after the other. */
  function LinesText(lines: seq<seq<FieldText>>): Text
    requires forall k :: 0 <= k < |lines| ==> |lines[k]| > 0
  {
    if lines == [] then [] else LineText(lines[0]) + LinesText(lines[1..])
  }

  /** The rows the lines stand for, in order. */
  function LinesValues(lines: seq<seq<FieldText>>): (rows: seq<seq<Value>>)
    ensures |rows| == |lines| && forall k :: 0 <= k < |lines| ==> rows[k] == FieldValues(lines[k])
  {
    seq(|lines|, k requires 0 <= k < |lines| => FieldValues(lines[k]))
  }

  /** A line of three fields whose texts are a, b and c. */
  lemma ThreeFields(line: seq<FieldText>, a: Text, b: Text, c: Text)
    requires |line| == 3 && FieldBytes(line[0]) == a && FieldBytes(line[1]) == b && FieldBytes(line[2]) == c
    ensures LineText(line) == a + [COMMA] + b + [COMMA] + c + [NEWLINE]
  {
    assert line[1..][0] == line[1] && line[1..][1..] == [line[2]];
    assert JoinFields(line[1..]) == b + [COMMA] + c;
    assert JoinFields(line) == a + [COMMA] + (b + [COMMA] + c);
    ConcatAssoc(a + [COMMA], b + [COMMA], c);
    ConcatAssoc(a + [COMMA], b, [COMMA]);
  }

  /** The first of several lines, and the lines after it. */
  lemma FirstLineAt(buf: Text, p: nat, lines: seq<seq<FieldText>>)
    requires lines != [] && forall k :: 0 <= k < |lines| ==> |lines[k]| > 0
    requires HoldsAt(buf, p, LinesText(lines))
    ensures HoldsAt(buf, p, LineText(lines[0])) && p < |buf|
    ensures HoldsAt(buf, p + |LineText(lines[0])|, LinesText(lines[1..]))
    ensures |LinesText(lines)| == |LineText(lines[0])| + |LinesText(lines[1..])|
  {
    HoldsSplit(buf, p, LineText(lines[0]), LinesText(lines[1..]));
    HoldsFirst(buf, p, LineText(lines[0]));
  }

  lemma LinesCons(schema: seq<Type>, lines: seq<seq<FieldText>>)
    requires lines != [] && LinesFit(schema, lines)
    ensures LineFits(schema, lines[0]) && LinesFit(schema, lines[1..])
    ensures LinesValues(lines) == [FieldValues(lines[0])] + LinesValues(lines[1..])
  {
    assert forall k :: 0 <= k < |lines| - 1 ==> lines[1..][k] == lines[k + 1];
  }

  /** Fitting lines from p to q read back as their rows, followed by whatever is read
      from q on. */
  lemma {:induction false} LinesRows(schema: seq<Type>, buf: Text, p: nat, q: nat, lines: seq<seq<FieldText>>)
    requires |schema| > 0 && LinesFit(schema, lines)
    requires HoldsAt(buf, p, LinesText(lines)) && q == p + |LinesText(lines)|
    ensures Rows(schema, buf, p) == LinesValues(lines) + Rows(schema, buf, q)
    decreases |lines|
  {
    if lines == [] {
      assert LinesValues(lines) == [];
    } else {
      var next := p + |LineText(lines[0])|;
      var first := FieldValues(lines[0]);
      var rest := lines[1..];
      assert HoldsAt(buf, p, LineText(lines[0])) &&
        HoldsAt(buf, next, LinesText(rest)) && q == next + |LinesText(rest)| by {
        FirstLineAt(buf, p, lines);
      }
      assert LineFits(schema, lines[0]) && LinesFit(schema, rest) &&
        LinesValues(lines) == [first] + LinesValues(rest) by {
        LinesCons(schema, lines);
      }
      assert RowAt(schema, buf, 0, p, []) == Row(first, next) by {
        LineRow(schema, buf, lines[0], p);
      }
      RowKept(schema, buf, p, first, next);
      LinesRows(schema, buf, next, q, rest);
      ChainRows(Rows(schema, buf, p), first, Rows(schema, buf, next),
        LinesValues(rest), Rows(schema, buf, q), LinesValues(lines));
    }
  }

  lemma ChainRows(all: seq<seq<Value>>, first: seq<Value>, later: seq<seq<Value>>,
                  rest: seq<seq<Value>>, tail: seq<seq<Value>>, front: seq<seq<Value>>)
    requires all == [first] + later && later == rest + tail && front == [first] + rest
    ensures all == front + tail
  {
    ConcatAssoc([first], rest, tail);
  }

  /** The start of a row: each field followed by ','. */
  function PartialText(fields: seq<FieldText>): Text
  {
    if fields == [] then [] else FieldBytes(fields[0]) + [COMMA] + PartialText(fields[1..])
  }

  /** A field of a cut row: it ends at a ',' and the rest of the cut row follows. */
  lemma PartialFieldAt(buf: Text, p: nat, partial: seq<FieldText>, col: nat)
    requires col < |partial|
    requires HoldsAt(buf, p, PartialText(partial[col..]))
    ensures var fb := FieldBytes(partial[col]);
      HoldsAt(buf, p, fb) && p + |fb| < |buf| && EndsField(buf, p + |fb|) &&
      HoldsAt(buf, p + |fb| + 1, PartialText(partial[col + 1..])) &&
      |PartialText(partial[col..])| == |fb| + 1 + |PartialText(partial[col + 1..])|
  {
    var fb := FieldBytes(partial[col]);
    var rest := PartialText(partial[col + 1..]);
    assert partial[col..][0] == partial[col] && partial[col..][1..] == partial[col + 1..];
    assert PartialText(partial[col..]) == fb + ([COMMA] + rest);
    HoldsThen(buf, p, fb, COMMA, rest);
  }

  /** A row still missing columns when the cursor sits at the end is rolled back. */
  lemma RolledBackAtEnd(schema: seq<Type>, buf: Text, col: nat, acc: seq<Value>)
    requires Reading(schema, col, acc)
    ensures RowAt(schema, buf, col, |buf|, acc) == RolledBack(col)
  {
  }

  /** A row whose fields from column col on run up to the end of the buffer, each ended by
      ',', with fewer fields than columns: the cursor reaches the end exactly at a column
      boundary, and the row is rolled back. */
  lemma {:induction false} PartialRolledBack(schema: seq<Type>, buf: Text, partial: seq<FieldText>, col: nat, p: nat, acc: seq<Value>)
    requires |partial| < |schema| && col <= |partial| && |acc| == col
    requires forall j :: 0 <= j < |partial| ==> FieldFits(schema[j], partial[j])
    requires forall j :: 0 <= j < col ==> ValueType(acc[j]) == schema[j]
    requires HoldsAt(buf, p, PartialText(partial[col..])) && p + |PartialText(partial[col..])| == |buf|
    ensures RowAt(schema, buf, col, p, acc) == RolledBack(|partial|)
    decreases |partial| - col
  {
    if col < |partial| {
      var f := partial[col];
      var next := p + |FieldBytes(f)| + 1;
      PartialFieldAt(buf, p, partial, col);
      FieldStep(schema, buf, col, p, acc, f);
      PartialRolledBack(schema, buf, partial, col + 1, next, acc + [FieldValue(f)]);
    } else {
      assert p == |buf| by {
        assert partial[col..] == [];
      }
      RolledBackAtEnd(schema, buf, col, acc);
    }
  }

  /** After the lines, either the end of the buffer or the start of a row cut at a column
      boundary: no further row is kept. */
  lemma PartialNoRows(schema: seq<Type>, buf: Text, partial: seq<FieldText>, p: nat)
    requires |partial| < |schema|
    requires forall j :: 0 <= j < |partial| ==> FieldFits(schema[j], partial[j])
    requires HoldsAt(buf, p, PartialText(partial)) && p + |PartialText(partial)| == |buf|
    ensures Rows(schema, buf, p) == []
  {
    if p < |buf| {
      assert partial[0..] == partial;
      PartialRolledBack(schema, buf, partial, 0, p, []);
    }
  }

  lemma HeaderLineAt(buf: Text, header: Text)
    requires HoldsAt(buf, 0, header + [NEWLINE]) && NEWLINE !in header
    ensures HeaderEnd(buf) == |header| + 1
  {
    HoldsSplit(buf, 0, header, [NEWLINE]);
    HoldsFirst(buf, |header|, [NEWLINE]);
    HeaderEndSkipsFirstLine(buf, header);
  }

  /** parse_chunk on a buffer holding, from its start, a first line, fitting lines, and the
      first fields of one more row each ended by ',' (possibly none): exactly the rows of
      the fitting lines are kept, integers without their sign. */
  lemma WellFormedChunkRows(schema: seq<Type>, buf: Text, header: Text, lines: seq<seq<FieldText>>, partial: seq<FieldText>)
    requires |schema| > 0 && LinesFit(schema, lines) && NEWLINE !in header
    requires |partial| < |schema| && forall j :: 0 <= j < |partial| ==> FieldFits(schema[j], partial[j])
    requires HoldsAt(buf, 0, header + [NEWLINE])
    requires HoldsAt(buf, |header| + 1, LinesText(lines) + PartialText(partial))
    requires |header| + 1 + |LinesText(lines)| + |PartialText(partial)| == |buf|
    ensures ChunkRows(schema, buf) == LinesValues(lines)
  {
    var q := |header| + 1;
    var r := q + |LinesText(lines)|;
    assert HeaderEnd(buf) == q by {
      HeaderLineAt(buf, header);
    }
    assert HoldsAt(buf, q, LinesText(lines)) && HoldsAt(buf, r, PartialText(partial)) by {
      HoldsSplit(buf, q, LinesText(lines), PartialText(partial));
    }
    assert Rows(schema, buf, r) == [] by {
      PartialNoRows(schema, buf, partial, r);
    }
    LinesRows(schema, buf, q, r, lines);
    assert LinesValues(lines) + [] == LinesValues(lines);
  }

  /** A buffer made of a first line and fitting lines keeps exactly those lines' rows. */
  lemma LinesChunkRows(schema: seq<Type>, header: Text, lines: seq<seq<FieldText>>)
    requires |schema| > 0 && LinesFit(schema, lines) && NEWLINE !in header
    ensures ChunkRows(schema, header + [NEWLINE] + LinesText(lines)) == LinesValues(lines)
  {
    TruncatedChunkRows(schema, header, lines, []);
    assert LinesText(lines) + PartialText([]) == LinesText(lines);
  }

  /** A buffer made of a first line, fitting lines, and k < |schema| fields each ended by ','
      (a row cut by the end of the buffer at a column boundary) keeps exactly the lines'
      rows: the cut row is rolled back. */
  lemma TruncatedChunkRows(schema: seq<Type>, header: Text, lines: seq<seq<FieldText>>, partial: seq<FieldText>)
    requires |schema| > 0 && LinesFit(schema, lines) && NEWLINE !in header
    requires |partial| < |schema| && forall j :: 0 <= j < |partial| ==> FieldFits(schema[j], partial[j])
    ensures ChunkRows(schema, header + [NEWLINE] + (LinesText(lines) + PartialText(partial))) == LinesValues(lines)
  {
    var body := LinesText(lines) + PartialText(partial);
    var buf := header + [NEWLINE] + body;
    HoldsSlice(buf, 0, |buf|);
    assert buf[0..|buf|] == buf;
    HoldsSplit(buf, 0, header + [NEWLINE], body);
    WellFormedChunkRows(schema, buf, header, lines, partial);
  }
}
