/** The behaviour of the readers and of parse_chunk on small inputs, one quirk at a time. */
module ParserExamples {
  import opened Columns
  import opened Tables
  import opened Parser
  import opened ParserProperties

  const ONE: CChar := ZERO + 1
  const TWO: CChar := ZERO + 2
  const THREE: CChar := ZERO + 3
  const FOUR: CChar := ZERO + 4
  const FIVE: CChar := ZERO + 5
  const SEVEN: CChar := ZERO + 7
  /** 'h', standing for a header line. */
  const H: CChar := 104

  /** "-7" in an integer column reads as 7: the '-' is stepped over but never applied. */
  lemma MinusSevenReadsSeven(buf: Text, p: nat)
    requires HoldsAt(buf, p, [MINUS, SEVEN]) && EndsField(buf, p + 2)
    ensures IntField(buf, p) == Read(7, p + 3)
  {
    assert [MINUS, SEVEN] == SignText(true) + [SEVEN];
    assert [SEVEN][..0] == [];
    IntFieldAt(buf, p, true, [SEVEN]);
  }

  /** "12.50" in a decimal column: a = 12, b = 50, not negative. */
  lemma TwelveFiftyRead(buf: Text, p: nat)
    requires HoldsAt(buf, p, [ONE, TWO, DOT, FIVE, ZERO]) && EndsField(buf, p + 5)
    ensures DecimalField(buf, p) == Read(Dec(12, 50, false), p + 6)
  {
    assert [ONE, TWO, DOT, FIVE, ZERO] == SignText(false) + [ONE, TWO] + ([DOT] + [FIVE, ZERO]);
    DecimalFieldAt(buf, p, false, [ONE, TWO], [FIVE, ZERO]);
    TwoDigitValues();
  }

  lemma TwoDigitValues()
    ensures U64Value([ONE, TWO]) == 12 && U64Value([FIVE, ZERO]) == 50
  {
    assert NatText(12) == [ONE, TWO];
    U64ValueOfNatText(12);
    assert NatText(50) == [FIVE, ZERO];
    U64ValueOfNatText(50);
  }

  /** "-1.2" in a decimal column: a = 1, b = 2, negative. */
  lemma MinusOnePointTwoRead(buf: Text, p: nat)
    requires HoldsAt(buf, p, [MINUS, ONE, DOT, TWO]) && EndsField(buf, p + 4)
    ensures DecimalField(buf, p) == Read(Dec(1, 2, true), p + 5)
  {
    assert [MINUS, ONE, DOT, TWO] == SignText(true) + [ONE] + ([DOT] + [TWO]);
    DecimalFieldAt(buf, p, true, [ONE], [TWO]);
    assert [ONE][..0] == [] && [TWO][..0] == [];
  }

  /** "0.05" and "0.5" read as the same decimal: no count of fraction digits is kept. */
  lemma FractionDigitsLost(buf: Text, p: nat, buf': Text, p': nat)
    requires HoldsAt(buf, p, [ZERO, DOT, ZERO, FIVE]) && EndsField(buf, p + 4)
    requires HoldsAt(buf', p', [ZERO, DOT, FIVE]) && EndsField(buf', p' + 3)
    ensures DecimalField(buf, p).value == DecimalField(buf', p').value == Dec(0, 5, false)
  {
    assert [ZERO, DOT, ZERO, FIVE] == SignText(false) + [ZERO] + ([DOT] + [ZERO, FIVE]);
    DecimalFieldAt(buf, p, false, [ZERO], [ZERO, FIVE]);
    assert [ZERO, DOT, FIVE] == SignText(false) + [ZERO] + ([DOT] + [FIVE]);
    DecimalFieldAt(buf', p', false, [ZERO], [FIVE]);
    LeadingZeroValues();
  }

  lemma LeadingZeroValues()
    ensures U64Value([ZERO]) == 0 && U64Value([FIVE]) == 5 && U64Value([ZERO, FIVE]) == 5
  {
    assert [ZERO][..0] == [] && [FIVE][..0] == [];
    U64ValueSnoc([ZERO], FIVE);
    assert [ZERO] + [FIVE] == [ZERO, FIVE];
  }

  const TWO_INTS: seq<Type> := [Int, Int]

  /** "h\n1,2\n3," */
  const ROLLBACK_BUF: Text := [H, NEWLINE, ONE, COMMA, TWO, NEWLINE, THREE, COMMA]

  /** "h\n1,2\n34" */
  const CUT_BUF: Text := [H, NEWLINE, ONE, COMMA, TWO, NEWLINE, THREE, FOUR]

  /** "1,2\n3,4\n" */
  const NO_HEADER_BUF: Text := [ONE, COMMA, TWO, NEWLINE, THREE, COMMA, FOUR, NEWLINE]

  lemma Digits()
    ensures IntValue([ONE]) == 1 && IntValue([TWO]) == 2 && IntValue([THREE]) == 3 && IntValue([FOUR]) == 4
    ensures SignText(false) + [ONE] == [ONE] && SignText(false) + [TWO] == [TWO]
    ensures SignText(false) + [THREE] == [THREE] && SignText(false) + [FOUR] == [FOUR]
  {
    assert [ONE][..0] == [] && [TWO][..0] == [] && [THREE][..0] == [] && [FOUR][..0] == [];
  }

  /** The row "1,2\n" at p: two integers, the cursor after the '\n'. */
  lemma OneTwoRow(buf: Text, p: nat)
    requires p + 4 <= |buf| && buf[p] == ONE && buf[p + 1] == COMMA && buf[p + 2] == TWO && buf[p + 3] == NEWLINE
    ensures RowAt(TWO_INTS, buf, 0, p, []) == Row([IntVal(1), IntVal(2)], p + 4)
  {
    Digits();
    IntStep(TWO_INTS, buf, 0, p, [], false, [ONE]);
    IntStep(TWO_INTS, buf, 1, p + 2, [IntVal(1)], false, [TWO]);
  }

  /** "h\n1,2\n3,": the second row ends exactly at the end of the buffer after its first
      column, so its 3 is rolled back and only 1,2 is kept. */
  lemma RollbackExample()
    ensures ChunkRows(TWO_INTS, ROLLBACK_BUF) == [[IntVal(1), IntVal(2)]]
  {
    var buf := ROLLBACK_BUF;
    HeaderEndSkipsFirstLine(buf, [H]);
    OneTwoRow(buf, 2);
    RowsStep(TWO_INTS, buf, 2);
    RollbackRow();
    RowsStep(TWO_INTS, buf, 6);
  }

  lemma RollbackRow()
    ensures RowAt(TWO_INTS, ROLLBACK_BUF, 0, 6, []) == RolledBack(1)
  {
    Digits();
    IntStep(TWO_INTS, ROLLBACK_BUF, 0, 6, [], false, [THREE]);
  }

  /** "h\n1,2\n34": the last field is cut by the end of the buffer; the row is kept with
      34, and the column after it gets 0. */
  lemma CutFieldExample()
    ensures ChunkRows(TWO_INTS, CUT_BUF) == [[IntVal(1), IntVal(2)], [IntVal(34), IntVal(0)]]
  {
    var buf := CUT_BUF;
    HeaderEndSkipsFirstLine(buf, [H]);
    OneTwoRow(buf, 2);
    RowsStep(TWO_INTS, buf, 2);
    CutRow();
    RowsStep(TWO_INTS, buf, 6);
  }

  lemma CutRow()
    ensures RowAt(TWO_INTS, CUT_BUF, 0, 6, []) == Row([IntVal(34), IntVal(0)], 10)
  {
    assert SignText(false) + [THREE, FOUR] == [THREE, FOUR];
    IntValueSnoc([THREE], FOUR);
    assert [THREE] + [FOUR] == [THREE, FOUR] && [THREE][..0] == [];
    IntStep(TWO_INTS, CUT_BUF, 0, 6, [], false, [THREE, FOUR]);
    SecondPastEnd(CUT_BUF, 9, IntVal(34));
  }

  /** The second integer column entered past the end: a zero, the cursor one further. */
  lemma SecondPastEnd(buf: Text, p: nat, v: Value)
    requires p > |buf| && v.IntVal?
    ensures RowAt(TWO_INTS, buf, 1, p, [v]) == Row([v, IntVal(0)], p + 1)
  {
    RowPastEnd(TWO_INTS, buf, 1, p, [v]);
    assert seq(1, j requires 0 <= j < 1 => Default(TWO_INTS[1 + j])) == [IntVal(0)];
  }

  /** "h\n1" */
  const SHORT_BUF: Text := [H, NEWLINE, ONE]

  /** "h\n1": a buffer shorter than one row of two columns still yields a row, 1 and a
      zero, since no column boundary falls exactly at the end. */
  lemma ShortBufferExample()
    ensures ChunkRows(TWO_INTS, SHORT_BUF) == [[IntVal(1), IntVal(0)]]
  {
    HeaderEndSkipsFirstLine(SHORT_BUF, [H]);
    ShortRow();
    RowsStep(TWO_INTS, SHORT_BUF, 2);
  }

  lemma ShortRow()
    ensures RowAt(TWO_INTS, SHORT_BUF, 0, 2, []) == Row([IntVal(1), IntVal(0)], 5)
  {
    Digits();
    IntStep(TWO_INTS, SHORT_BUF, 0, 2, [], false, [ONE]);
    SecondPastEnd(SHORT_BUF, 4, IntVal(1));
  }

  /** "1,2\n3,4\n": the first line is dropped even when it holds data. */
  lemma FirstLineDroppedExample()
    ensures ChunkRows(TWO_INTS, NO_HEADER_BUF) == [[IntVal(3), IntVal(4)]]
  {
    var buf := NO_HEADER_BUF;
    FirstLineEnd();
    ThreeFourRow();
    RowsStep(TWO_INTS, buf, 4);
  }

  lemma FirstLineEnd()
    ensures HeaderEnd(NO_HEADER_BUF) == 4
  {
    var buf := NO_HEADER_BUF;
    assert HoldsAt(buf, 0, [ONE, COMMA, TWO]) by {
      HoldsSlice(buf, 0, 3);
      assert buf[0..3] == [ONE, COMMA, TWO];
    }
    HeaderEndSkipsFirstLine(buf, [ONE, COMMA, TWO]);
  }

  lemma ThreeFourRow()
    ensures RowAt(TWO_INTS, NO_HEADER_BUF, 0, 4, []) == Row([IntVal(3), IntVal(4)], 8)
  {
    Digits();
    IntStep(TWO_INTS, NO_HEADER_BUF, 0, 4, [], false, [THREE]);
    IntStep(TWO_INTS, NO_HEADER_BUF, 1, 6, [IntVal(3)], false, [FOUR]);
  }

  const MIXED: seq<Type> := [Int, Decimal, String]
  /** "abc" */
  const ABC: Text := [97, 98, 99]
  /** "xy" */
  const XY: Text := [120, 121]

  /** The lines "3,12.50,abc" and "-7,-1.2,xy". */
  const MIXED_LINES: seq<seq<FieldText>> :=
    [[IntText(false, 3), DecText(Dec(12, 50, false)), StrText(ABC)],
     [IntText(true, 7), DecText(Dec(1, 2, true)), StrText(XY)]]

  /** "3,12.50,abc\n" */
  const LINE_1: Text := [THREE, COMMA, ONE, TWO, DOT, FIVE, ZERO, COMMA, 97, 98, 99, NEWLINE]
  /** "-7,-1.2,xy\n" */
  const LINE_2: Text := [MINUS, SEVEN, COMMA, MINUS, ONE, DOT, TWO, COMMA, 120, 121, NEWLINE]
  /** "h\n3,12.50,abc\n-7,-1.2,xy\n" */
  const MIXED_BUF: Text := [H, NEWLINE] + LINE_1 + LINE_2

  /** The mixed buffer of the design: both lines are kept field by field, and the integer
      column holds 3 and 7, the sign of -7 being lost. */
  lemma MixedExample()
    ensures ChunkRows(MIXED, MIXED_BUF) == MIXED_ROWS
    ensures Items(ChunkColumns(MIXED, MIXED_BUF)[0]) == [IntVal(3), IntVal(7)]
  {
    MixedRows();
    ChunkColumnsHoldRows(MIXED, MIXED_BUF, 0);
    assert FieldColumn(MIXED_ROWS, 0) == [IntVal(3), IntVal(7)];
  }

  lemma MixedRows()
    ensures ChunkRows(MIXED, MIXED_BUF) == MIXED_ROWS
  {
    assert LinesFit(MIXED, MIXED_LINES);
    MixedBuffer();
    LinesChunkRows(MIXED, [H], MIXED_LINES);
    MixedValues();
  }

  lemma MixedBuffer()
    ensures [H] + [NEWLINE] + LinesText(MIXED_LINES) == MIXED_BUF
  {
    MixedLinesText();
    ConcatAssoc([H, NEWLINE], LINE_1, LINE_2);
    assert [H] + [NEWLINE] == [H, NEWLINE];
  }

  /** The rows of the mixed lines. */
  const MIXED_ROWS: seq<seq<Value>> :=
    [[IntVal(3), DecVal(Dec(12, 50, false)), StrVal(ABC)], [IntVal(7), DecVal(Dec(1, 2, true)), StrVal(XY)]]

  lemma MixedValues()
    ensures LinesValues(MIXED_LINES) == MIXED_ROWS
  {
    assert FieldValues(MIXED_LINES[0]) == MIXED_ROWS[0];
    assert FieldValues(MIXED_LINES[1]) == MIXED_ROWS[1];
  }

  lemma MixedLinesText()
    ensures LinesText(MIXED_LINES) == LINE_1 + LINE_2
  {
    FirstLineText();
    SecondLineText();
    assert MIXED_LINES[1..][1..] == [];
    assert LinesText(MIXED_LINES[1..]) == LINE_2 + [];
  }

  lemma FirstLineText()
    ensures LineText(MIXED_LINES[0]) == LINE_1
  {
    TwelveFiftyText();
    ThreeFields(MIXED_LINES[0], [THREE], [ONE, TWO, DOT, FIVE, ZERO], ABC);
    assert [THREE] + [COMMA] + [ONE, TWO, DOT, FIVE, ZERO] + [COMMA] + ABC + [NEWLINE] == LINE_1;
  }

  lemma SecondLineText()
    ensures LineText(MIXED_LINES[1]) == LINE_2
  {
    assert FieldBytes(MIXED_LINES[1][1]) == [MINUS, ONE, DOT, TWO];
    ThreeFields(MIXED_LINES[1], [MINUS, SEVEN], [MINUS, ONE, DOT, TWO], XY);
    assert [MINUS, SEVEN] + [COMMA] + [MINUS, ONE, DOT, TWO] + [COMMA] + XY + [NEWLINE] == LINE_2;
  }

  /** "12.50" */
  lemma TwelveFiftyText()
    ensures FieldBytes(DecText(Dec(12, 50, false))) == [ONE, TWO, DOT, FIVE, ZERO]
  {
    assert NatText(12) == [ONE, TWO] && NatText(50) == [FIVE, ZERO];
  }
}
