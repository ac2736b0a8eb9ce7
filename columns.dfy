/** The value model of table.h: column type tags, the fixed-point decimal record,
    typed column arrays (TypedArray<T>) and chunked columns (ChunkedArray). */
module Columns {

  /** A C `char` on the targets the program is built for: a signed 8-bit byte. */
  type CChar = c: int | -128 <= c < 128

  /** A std::string or a raw input buffer: a sequence of bytes. */
  type Text = seq<CChar>

  const TWO_64: int := 0x1_0000_0000_0000_0000

  /** One past the largest value of a 64-bit `long`. */
  const TWO_63: int := 0x8000_0000_0000_0000

  /** uint64_t */
  type U64 = x: int | 0 <= x < TWO_64

  /** The bytes the parser and the decimal rendering treat specially. */
  const NEWLINE: CChar := 10
  const COMMA: CChar := 44
  const MINUS: CChar := 45
  const DOT: CChar := 46
  const ZERO: CChar := 48

  predicate IsDigit(c: CChar) { ZERO <= c <= ZERO + 9 }

  /** The closed set of column types (enum class Type). */
  datatype Type = Int | Decimal | String

  /** A decimal as the program stores it: integer magnitude `a`, fraction magnitude `b`
      (no count of fraction digits is kept) and a sign flag. */
  datatype Decimal = Dec(a: U64, b: U64, negative: bool)

  /** One field value, tagged with the type of the column it belongs to. */
  datatype Value = IntVal(i: int) | DecVal(d: Decimal) | StrVal(s: Text)

  /** get_runtime_type<T>(): long is Int, Decimal is Decimal, std::string is String. */
  function ValueType(v: Value): Type
  {
    match v
    case IntVal(_) => Int
    case DecVal(_) => Decimal
    case StrVal(_) => String
  }

  /** The contents of one TypedArray<T>: the closed sum over the three element types. */
  datatype Column = IntCol(ints: seq<int>) | DecCol(decs: seq<Decimal>) | StrCol(strs: seq<Text>)

  /** TypedArray<T>::type(): the tag of the element type; every stored value carries it. */
  function ColumnType(c: Column): (t: Type)
    ensures forall v <- Items(c) :: ValueType(v) == t
  {
    match c
    case IntCol(_) => Int
    case DecCol(_) => Decimal
    case StrCol(_) => String
  }

  /** The stored values, in order, as tagged values. */
  function Items(c: Column): (r: seq<Value>)
    ensures |r| == Length(c)
  {
    match c
    case IntCol(s) => seq(|s|, k requires 0 <= k < |s| => IntVal(s[k]))
    case DecCol(s) => seq(|s|, k requires 0 <= k < |s| => DecVal(s[k]))
    case StrCol(s) => seq(|s|, k requires 0 <= k < |s| => StrVal(s[k]))
  }

  /** TypedArray<T>::size() */
  function Length(c: Column): nat
  {
    match c
    case IntCol(s) => |s|
    case DecCol(s) => |s|
    case StrCol(s) => |s|
  }

  /** A default-constructed TypedArray<T> for the element type tagged `t`. */
  function EmptyColumn(t: Type): (c: Column)
    ensures ColumnType(c) == t && Items(c) == []
  {
    match t
    case Int => IntCol([])
    case Decimal => DecCol([])
    case String => StrCol([])
  }

  /** values.push_back(v), reached through a cast to the array's own element type. */
  function Append(c: Column, v: Value): (r: Column)
    requires ValueType(v) == ColumnType(c)
    ensures ColumnType(r) == ColumnType(c)
    ensures Items(r) == Items(c) + [v]
  {
    match c
    case IntCol(s) => IntCol(s + [v.i])
    case DecCol(s) => DecCol(s + [v.d])
    case StrCol(s) => StrCol(s + [v.s])
  }

  /** values.pop_back(): defined only on a non-empty array. */
  function DropLast(c: Column): (r: Column)
    requires Length(c) > 0
    ensures ColumnType(r) == ColumnType(c)
    ensures Items(r) == Items(c)[..Length(c) - 1]
  {
    match c
    case IntCol(s) => IntCol(s[..|s| - 1])
    case DecCol(s) => DecCol(s[..|s| - 1])
    case StrCol(s) => StrCol(s[..|s| - 1])
  }

  /** A column is determined by its type and its values. */
  lemma ItemsDetermine(c: Column, d: Column)
    requires ColumnType(c) == ColumnType(d) && Items(c) == Items(d)
    ensures c == d
  {
    match c
    case IntCol(s) =>
      forall k | 0 <= k < |s| ensures s[k] == d.ints[k] {
        assert Items(c)[k] == Items(d)[k];
      }
    case DecCol(s) =>
      forall k | 0 <= k < |s| ensures s[k] == d.decs[k] {
        assert Items(c)[k] == Items(d)[k];
      }
    case StrCol(s) =>
      forall k | 0 <= k < |s| ensures s[k] == d.strs[k] {
        assert Items(c)[k] == Items(d)[k];
      }
  }

  /** Popping right after a push gives back the array as it was: what makes a rollback exact. */
  lemma DropLastUndoesAppend(c: Column, v: Value)
    requires ValueType(v) == ColumnType(c)
    ensures Length(Append(c, v)) == Length(c) + 1
    ensures DropLast(Append(c, v)) == c
  {
    var r := DropLast(Append(c, v));
    assert Items(r) == (Items(c) + [v])[..Length(c)] == Items(c);
    ItemsDetermine(r, c);
  }

  /** TypedArray<T>: one chunk of one column, reached through a shared pointer and updated in place. */
  class ColumnArray {
    var values: Column

    /** std::make_shared<TypedArray<T>>() for the element type tagged `t`. */
    constructor (t: Type)
      ensures values == EmptyColumn(t)
    {
      values := EmptyColumn(t);
    }

    /** type(): fixed by the element type. */
    function Type(): (t: Type)
      reads this
      ensures forall v <- Items(values) :: ValueType(v) == t
    {
      ColumnType(values)
    }

    /** size() */
    function Size(): (n: nat)
      reads this
      ensures n == |Items(values)|
    {
      Length(values)
    }

    /** pop(): removes the last value and nothing else; the array must not be empty. */
    method Pop()
      requires Size() > 0
      modifies this
      ensures Type() == old(Type())
      ensures Items(values) == old(Items(values))[..old(Size()) - 1]
      ensures values == DropLast(old(values))
    {
      values := DropLast(values);
    }

    /** clear(): leaves an empty array of the same type. */
    method Clear()
      modifies this
      ensures Type() == old(Type()) && Size() == 0
      ensures values == EmptyColumn(old(Type()))
    {
      values := EmptyColumn(Type());
    }

    /** values.push_back(v) after a static_pointer_cast to the array's own type. */
    method Push(v: Value)
      requires ValueType(v) == Type()
      modifies this
      ensures Type() == old(Type())
      ensures Items(values) == old(Items(values)) + [v]
      ensures values == Append(old(values), v)
    {
      values := Append(values, v);
    }
  }

  /** ChunkedArray, held by value inside a Table: a type fixed at construction and the
      ordered chunks appended so far (the shared pointers become owned column values). */
  datatype ChunkedArray = ChunkedArray(columnType: Type, chunks: seq<Column>)

  /** No two slots of a vector<shared_ptr<Array>> share an array: each was made by its own make_shared. */
  ghost predicate Distinct(arrays: seq<ColumnArray>)
  {
    forall i, j :: 0 <= i < j < |arrays| ==> arrays[i] != arrays[j]
  }

  /** The current contents of each array. */
  function ValuesOf(arrays: seq<ColumnArray>): (r: seq<Column>)
    reads arrays
    ensures |r| == |arrays| && forall i :: 0 <= i < |arrays| ==> r[i] == arrays[i].values
  {
    seq(|arrays|, i requires 0 <= i < |arrays| reads arrays => arrays[i].values)
  }

  /** The element type of each column, in order. */
  function ColumnTypes(cs: seq<Column>): (r: seq<Type>)
    ensures |r| == |cs| && forall i :: 0 <= i < |cs| ==> r[i] == ColumnType(cs[i])
  {
    seq(|cs|, i requires 0 <= i < |cs| => ColumnType(cs[i]))
  }

  /** One empty column per schema entry, typed as that entry. */
  function EmptyColumns(schema: seq<Type>): (r: seq<Column>)
    ensures ColumnTypes(r) == schema
    ensures forall i :: 0 <= i < |r| ==> Items(r[i]) == []
  {
    seq(|schema|, i requires 0 <= i < |schema| => EmptyColumn(schema[i]))
  }
}
