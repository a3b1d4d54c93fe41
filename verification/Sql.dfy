/** WHERE conditions with `%s` placeholders, evaluated in SQL's three-valued logic (truth
    tables in section 9.1, "Logical Operators", of the PostgreSQL documentation). */
module Sql {
  datatype Tri = T | F | U

  datatype Cell = Null | Flag(b: bool) | Num(n: int)

  datatype Ref = Ref(table: string, field: string)

  type Row = Ref -> Cell

  datatype Comparison = CmpEq | CmpNe | CmpLt | CmpLe | CmpGt | CmpGe

  // Literal: TRUE / FALSE; InList: col [NOT] IN (%s, ..., %s); Compare: col op %s;
  // NullTest: col IS [NOT] NULL; FlagTest: col = false / col != false.
  datatype Condition =
    | Literal(value: bool)
    | InList(col: Ref, not: bool, slots: nat)
    | Compare(col: Ref, cmp: Comparison)
    | NullTest(col: Ref, not: bool)
    | FlagTest(col: Ref, not: bool)
    | AndC(p: Condition, q: Condition)
    | OrC(p: Condition, q: Condition)
    | NotC(p: Condition)

  function TriNot(a: Tri): Tri
  {
    match a case T => F case F => T case U => U
  }

  function TriAnd(a: Tri, b: Tri): Tri
  {
    if a == F || b == F then F else if a == T && b == T then T else U
  }

  function TriOr(a: Tri, b: Tri): Tri
  {
    if a == T || b == T then T else if a == F && b == F then F else U
  }

  function Truth(b: bool): Tri
  {
    if b then T else F
  }

  predicate Less(a: Cell, b: Cell)
  {
    match a
    case Null => false
    case Flag(x) => (match b case Null => false case Flag(y) => !x && y case Num(_) => true)
    case Num(m) => (match b case Null => false case Flag(_) => false case Num(n) => m < n)
  }

  function CompareCells(cmp: Comparison, a: Cell, b: Cell): Tri
  {
    if a == Null || b == Null then U
    else match cmp
      case CmpEq => Truth(a == b)
      case CmpNe => Truth(a != b)
      case CmpLt => Truth(Less(a, b))
      case CmpLe => Truth(!Less(b, a))
      case CmpGt => Truth(Less(b, a))
      case CmpGe => Truth(!Less(a, b))
  }

  // a IN (list), as the disjunction of equalities.
  function IsIn(a: Cell, list: seq<Cell>): Tri
  {
    if list == [] then F else TriOr(CompareCells(CmpEq, a, list[0]), IsIn(a, list[1..]))
  }

  // The number of placeholders in the text of the condition.
  function Slots(c: Condition): nat
  {
    match c
    case Literal(_) => 0
    case InList(_, _, n) => n
    case Compare(_, _) => 1
    case NullTest(_, _) => 0
    case FlagTest(_, _) => 0
    case AndC(p, q) => Slots(p) + Slots(q)
    case OrC(p, q) => Slots(p) + Slots(q)
    case NotC(p) => Slots(p)
  }

  // SQL has no empty list after IN.
  predicate NoEmptyIn(c: Condition)
  {
    match c
    case InList(_, _, n) => n > 0
    case AndC(p, q) => NoEmptyIn(p) && NoEmptyIn(q)
    case OrC(p, q) => NoEmptyIn(p) && NoEmptyIn(q)
    case NotC(p) => NoEmptyIn(p)
    case _ => true
  }

  // The k-th placeholder in the text takes the k-th parameter.
  function Eval(c: Condition, params: seq<Cell>, row: Row): Tri
    requires |params| == Slots(c)
  {
    match c
    case Literal(value) => Truth(value)
    case InList(col, not, _) => (var r := IsIn(row(col), params); if not then TriNot(r) else r)
    case Compare(col, cmp) => CompareCells(cmp, row(col), params[0])
    case NullTest(col, not) => Truth((row(col) == Null) != not)
    case FlagTest(col, not) => CompareCells(if not then CmpNe else CmpEq, row(col), Flag(false))
    case AndC(p, q) => TriAnd(Eval(p, params[..Slots(p)], row), Eval(q, params[Slots(p)..], row))
    case OrC(p, q) => TriOr(Eval(p, params[..Slots(p)], row), Eval(q, params[Slots(p)..], row))
    case NotC(p) => TriNot(Eval(p, params, row))
  }

  // IN is TRUE exactly on the listed values, and UNKNOWN instead of FALSE when a NULL is around.
  lemma {:induction false} IsInCases(a: Cell, list: seq<Cell>)
    ensures IsIn(a, list) == T <==> a != Null && a in list
    ensures IsIn(a, list) == F <==> list == [] || (a != Null && Null !in list && a !in list)
  {
    if list != [] {
      IsInCases(a, list[1..]);
      assert list == [list[0]] + list[1..];
    }
  }
}
