/** __leaf_to_sql(): one term as a WHERE condition with its parameters, and when the rows
    that condition selects are the rows the term describes. */
module LeafCompiler {
  import opened Wrappers
  import opened Domains
  import opened Sql

  datatype Kind = BooleanKind | IntegerKind

  // The columns each table declares itself (inherited fields belong to the parent's table).
  type Columns = map<Ref, Kind>

  datatype CompileError = InvalidField | InvalidTerm | IllTyped

  datatype Compiled = Compiled(query: Condition, params: seq<Cell>)

  const ID: string := "id"

  // What Python finds equal to False: 0 is.
  predicate EqualsFalse(item: Item)
  {
    item == FalseItem || item == IntItem(0)
  }

  // False itself, or None.
  predicate IsUnset(item: Item)
  {
    item == FalseItem || item == NoneItem
  }

  // The `_symbol_set` conversion of the column.
  function Symbol(kind: Kind, item: Item): Cell
  {
    match kind
    case BooleanKind => Flag(item == TrueItem || (item.IntItem? && item.n != 0))
    case IntegerKind => Num(match item case IntItem(n) => n case TrueItem => 1 case _ => 0)
  }

  // A list entry as it is bound: no conversion.
  function Bound(item: Item): Cell
  {
    match item
    case NoneItem => Null
    case FalseItem => Flag(false)
    case TrueItem => Flag(true)
    case IntItem(n) => Num(n)
  }

  function WithoutFalse(items: seq<Item>): seq<Item>
  {
    if items == [] then []
    else (if EqualsFalse(items[0]) then [] else [items[0]]) + WithoutFalse(items[1..])
  }

  function BoundAll(items: seq<Item>): (r: seq<Cell>)
    ensures |r| == |items|
  {
    seq(|items|, i requires 0 <= i < |items| => Bound(items[i]))
  }

  // Entries the database can compare with the column.
  predicate Comparable(kind: Kind, item: Item)
  {
    item == NoneItem || (if kind == BooleanKind then item == TrueItem else item.IntItem?)
  }

  // The deletion loop of the list case, from the end of the list to its start.
  method DropFalse(right: seq<Item>) returns (params: seq<Item>, checkNulls: bool)
    ensures params == WithoutFalse(right)
    ensures checkNulls <==> exists i :: 0 <= i < |right| && EqualsFalse(right[i])
  {
    params := right;
    checkNulls := false;
    var i := |right|;
    while i > 0
      invariant 0 <= i <= |right|
      invariant params == right[..i] + WithoutFalse(right[i..])
      invariant checkNulls <==> exists j :: i <= j < |right| && EqualsFalse(right[j])
    {
      i := i - 1;
      assert right[i..] == [right[i]] + right[i + 1..];
      assert params[i] == right[i];
      if EqualsFalse(params[i]) {
        checkNulls := true;
        params := params[..i] + params[i + 1..];
      }
    }
  }

  function KindOf(columns: Columns, col: Ref): Option<Kind>
  {
    if col in columns then Some(columns[col]) else if col.field == ID then Some(IntegerKind) else None
  }

  function ListSql(col: Ref, kind: Kind, not: bool, items: seq<Item>): Result<Compiled, CompileError>
  {
    var params := WithoutFalse(items);
    var checkNulls := exists i :: 0 <= i < |items| && EqualsFalse(items[i]);
    if exists i :: 0 <= i < |params| && !Comparable(kind, params[i]) then Failure(IllTyped)
    else
      var query := if params != [] then InList(col, not, |params|) else Literal(not);
      Success(Compiled(
        if checkNulls && !not then OrC(query, NullTest(col, false))
        else if !checkNulls && not then OrC(query, NullTest(col, false))
        else if checkNulls && not then AndC(query, NullTest(col, true))
        else query,
        BoundAll(params)))
  }

  // What a column is compared with: converted by the column, but for `id`.
  function Compared(kind: Kind, declared: bool, item: Item): Cell
  {
    if declared then Symbol(kind, item) else Bound(item)
  }

  // The comparison case.
  function CompareSql(col: Ref, kind: Kind, declared: bool, cmp: Comparison, item: Item): Result<Compiled, CompileError>
  {
    if !declared && (item.FalseItem? || item.TrueItem?) then Failure(IllTyped)
    else Success(Compiled(Compare(col, cmp), [Compared(kind, declared, item)]))
  }

  function ScalarSql(col: Ref, kind: Kind, declared: bool, op: TermOp, item: Item): Result<Compiled, CompileError>
    decreases if op == EqIfSet then 1 else 0
  {
    match op
    case In =>
      if item.FalseItem? || item.TrueItem? then Success(Compiled(NullTest(col, item.TrueItem?), [])) else Failure(InvalidTerm)
    case NotIn =>
      if item.FalseItem? || item.TrueItem? then Success(Compiled(NullTest(col, item.FalseItem?), [])) else Failure(InvalidTerm)
    case Eq =>
      if EqualsFalse(item) && kind == BooleanKind then Success(Compiled(OrC(NullTest(col, false), FlagTest(col, false)), []))
      else if IsUnset(item) then Success(Compiled(NullTest(col, false), []))
      else CompareSql(col, kind, declared, CmpEq, item)
    case Ne =>
      if EqualsFalse(item) && kind == BooleanKind then Success(Compiled(AndC(NullTest(col, true), FlagTest(col, true)), []))
      else if IsUnset(item) then Success(Compiled(NullTest(col, true), []))
      else CompareSql(col, kind, declared, CmpNe, item)
    case EqIfSet =>
      if IsUnset(item) then Success(Compiled(Literal(true), []))
      else ScalarSql(col, kind, declared, Eq, item)
    case Lt => CompareSql(col, kind, declared, CmpLt, item)
    case Le => CompareSql(col, kind, declared, CmpLe, item)
    case Gt => CompareSql(col, kind, declared, CmpGt, item)
    case Ge => CompareSql(col, kind, declared, CmpGe, item)
    case ChildOf => Failure(InvalidTerm)
  }

  // __leaf_to_sql()
  function LeafSql(leaf: Leaf, table: string, columns: Columns): (r: Result<Compiled, CompileError>)
  {
    if leaf == TRUE_LEAF then Success(Compiled(Literal(true), []))
    else if leaf == FALSE_LEAF then Success(Compiled(Literal(false), []))
    else match leaf
      case Constant(_, _) => Failure(InvalidField)
      case Term(field, op, right) =>
        var col := Ref(table, field);
        match KindOf(columns, col)
        case None => Failure(InvalidField)
        case Some(kind) =>
          match right
          case Scalar(item) => ScalarSql(col, kind, col in columns, op, item)
          case Many(items) =>
            if op == In || op == NotIn then ListSql(col, kind, op == NotIn, items) else Failure(InvalidTerm)
  }

  // As many parameters as placeholders, and no IN without one.
  lemma LeafSqlSlots(leaf: Leaf, table: string, columns: Columns)
    requires LeafSql(leaf, table, columns).Success?
    ensures var c := LeafSql(leaf, table, columns).value; |c.params| == Slots(c.query) && NoEmptyIn(c.query)
  {
  }

  // normalize_leaf(): lists go with `in`, booleans with `=`.
  function NormalizeLeaf(leaf: Leaf): Leaf
  {
    match leaf
    case Constant(_, _) => leaf
    case Term(field, op, right) =>
      var op1 := if right.Scalar? && (right.item.FalseItem? || right.item.TrueItem?) then
                   (if op == In then Eq else if op == NotIn then Ne else op)
                 else op;
      var op2 := if right.Many? then (if op1 == Eq then In else if op1 == Ne then NotIn else op1) else op1;
      Term(field, op2, right)
  }
}
