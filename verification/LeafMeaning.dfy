/** What a term says about a column in two-valued terms, and exactly when the condition
    compiled for it, or for its negation, selects the rows it describes. */
module LeafMeaning {
  import opened Domains
  import opened Sql
  import opened LeafCompiler

  // The values a column of this kind can hold.
  predicate Fits(kind: Kind, c: Cell)
  {
    c == Null || (kind == BooleanKind <==> c.Flag?)
  }

  // (field, '=', item): False and None stand for NULL, False also for a false boolean.
  predicate Matches(kind: Kind, c: Cell, item: Item)
  {
    if kind == BooleanKind && EqualsFalse(item) then c == Null || c == Flag(false)
    else if IsUnset(item) then c == Null
    else c == Symbol(kind, item)
  }

  predicate MatchesAny(kind: Kind, c: Cell, items: seq<Item>)
  {
    exists i :: 0 <= i < |items| && Matches(kind, c, items[i])
  }

  predicate BothSet(kind: Kind, declared: bool, c: Cell, item: Item)
  {
    c != Null && Compared(kind, declared, item) != Null
  }

  // `declared` is false for `id`; nothing is greater or less than NULL.
  predicate TermHolds(kind: Kind, declared: bool, c: Cell, op: TermOp, right: Operand)
  {
    match right
    case Scalar(item) =>
      (match op
       case Eq => Matches(kind, c, item)
       case In => Matches(kind, c, item)
       case Ne => !Matches(kind, c, item)
       case NotIn => !Matches(kind, c, item)
       case Lt => BothSet(kind, declared, c, item) && Less(c, Compared(kind, declared, item))
       case Le => BothSet(kind, declared, c, item) && !Less(Compared(kind, declared, item), c)
       case Gt => BothSet(kind, declared, c, item) && Less(Compared(kind, declared, item), c)
       case Ge => BothSet(kind, declared, c, item) && !Less(c, Compared(kind, declared, item))
       case EqIfSet => IsUnset(item) || Matches(kind, c, item)
       case ChildOf => false)
    case Many(items) =>
      (match op
       case Eq => MatchesAny(kind, c, items)
       case In => MatchesAny(kind, c, items)
       case Ne => !MatchesAny(kind, c, items)
       case NotIn => !MatchesAny(kind, c, items)
       case _ => false)
  }

  // What equality says, value by value: on a boolean column 0 is false and every other number true,
  // on an integer column True is 1.
  lemma EqualityMeans(kind: Kind, declared: bool, c: Cell, item: Item)
    requires Fits(kind, c)
    ensures var equal := match item
              case NoneItem => c == Null
              case FalseItem => c == Null || c == Flag(false)
              case TrueItem => if kind == BooleanKind then c == Flag(true) else c == Num(1)
              case IntItem(n) =>
                if kind == IntegerKind then c == Num(n)
                else if n == 0 then c == Null || c == Flag(false)
                else c == Flag(true);
            && (TermHolds(kind, declared, c, Eq, Scalar(item)) <==> equal)
            && (TermHolds(kind, declared, c, Ne, Scalar(item)) <==> !equal)
            && (TermHolds(kind, declared, c, EqIfSet, Scalar(item)) <==> item == NoneItem || item == FalseItem || equal)
  {
  }

  // What order says: of numbers it is theirs, with None and False as 0 and True as 1 on a declared
  // column, and for nothing on `id`; false comes before true; NULL is in no order.
  lemma OrderMeans(kind: Kind, declared: bool, c: Cell, item: Item)
    requires Fits(kind, c) && (!declared ==> kind == IntegerKind && (item.IntItem? || item.NoneItem?))
    ensures c == Null || (!declared && item == NoneItem) ==>
              forall op :: op in {Lt, Le, Gt, Ge} ==> !TermHolds(kind, declared, c, op, Scalar(item))
    ensures c.Num? && !(!declared && item == NoneItem) ==>
              var n := match item case IntItem(n) => n case TrueItem => 1 case _ => 0;
              && (TermHolds(kind, declared, c, Lt, Scalar(item)) <==> c.n < n)
              && (TermHolds(kind, declared, c, Le, Scalar(item)) <==> c.n <= n)
              && (TermHolds(kind, declared, c, Gt, Scalar(item)) <==> c.n > n)
              && (TermHolds(kind, declared, c, Ge, Scalar(item)) <==> c.n >= n)
    ensures c.Flag? ==>
              var b := match item case IntItem(n) => n != 0 case TrueItem => true case _ => false;
              && (TermHolds(kind, declared, c, Lt, Scalar(item)) <==> !c.b && b)
              && (TermHolds(kind, declared, c, Le, Scalar(item)) <==> !c.b || b)
              && (TermHolds(kind, declared, c, Gt, Scalar(item)) <==> c.b && !b)
              && (TermHolds(kind, declared, c, Ge, Scalar(item)) <==> c.b || !b)
  {
  }

  // A list says that one of its entries is equal to the column, or that none is.
  lemma ListMeans(kind: Kind, declared: bool, c: Cell, items: seq<Item>)
    ensures TermHolds(kind, declared, c, In, Many(items)) <==> exists x :: x in items && TermHolds(kind, declared, c, Eq, Scalar(x))
    ensures TermHolds(kind, declared, c, NotIn, Many(items)) <==> !TermHolds(kind, declared, c, In, Many(items))
  {
    forall i | 0 <= i < |items| && Matches(kind, c, items[i])
      ensures items[i] in items && TermHolds(kind, declared, c, Eq, Scalar(items[i]))
    {
    }
  }

  lemma NormalizeLeafMeaning(kind: Kind, declared: bool, c: Cell, field: string, op: TermOp, right: Operand)
    ensures var n := NormalizeLeaf(Term(field, op, right));
            n.right == right && n.field == field && TermHolds(kind, declared, c, n.op, right) == TermHolds(kind, declared, c, op, right)
  {
  }

  // ------------------------------------------------------------------
  // Lists

  // The truth value of the condition compiled for a list.
  function ListTri(not: bool, items: seq<Item>, c: Cell): Tri
  {
    var params := WithoutFalse(items);
    var checkNulls := exists i :: 0 <= i < |items| && EqualsFalse(items[i]);
    var q := if params == [] then Truth(not) else if not then TriNot(IsIn(c, BoundAll(params))) else IsIn(c, BoundAll(params));
    if checkNulls && not then TriAnd(q, Truth(c != Null))
    else if checkNulls != not then TriOr(q, Truth(c == Null))
    else q
  }

  lemma ListSqlTri(col: Ref, kind: Kind, not: bool, items: seq<Item>, row: Row)
    requires ListSql(col, kind, not, items).Success?
    ensures var c := ListSql(col, kind, not, items).value;
            |c.params| == Slots(c.query) && Eval(c.query, c.params, row) == ListTri(not, items, row(col))
  {
    var c := ListSql(col, kind, not, items).value;
    assert c.params[..|c.params|] == c.params;
  }

  lemma {:induction false} WithoutFalseMembers(items: seq<Item>)
    ensures forall x :: x in WithoutFalse(items) <==> x in items && !EqualsFalse(x)
  {
    if items != [] {
      WithoutFalseMembers(items[1..]);
      assert items == [items[0]] + items[1..];
    }
  }

  lemma BoundMembers(items: seq<Item>, x: Item)
    ensures Bound(x) in BoundAll(items) <==> x in items
  {
    if Bound(x) in BoundAll(items) {
      var i :| 0 <= i < |items| && BoundAll(items)[i] == Bound(x);
      assert items[i] == x;
    }
    if x in items {
      var i :| 0 <= i < |items| && items[i] == x;
      assert BoundAll(items)[i] == Bound(x);
    }
  }

  // ListTri by cases on the entries of the list: `same` says that the cell's own value is an entry.
  lemma ListTriCases(not: bool, items: seq<Item>, c: Cell)
    ensures var falsy := exists i :: 0 <= i < |items| && EqualsFalse(items[i]);
            var same := exists x :: x in items && !EqualsFalse(x) && Bound(x) == c;
            var none := NoneItem in items;
            ListTri(not, items, c) == T <==>
              if not then
                if c == Null then !falsy else !same && !none
              else
                if c == Null then falsy else same
  {
    var params := WithoutFalse(items);
    WithoutFalseMembers(items);
    BoundMembers(params, NoneItem);
    IsInCases(c, BoundAll(params));
    assert forall i :: 0 <= i < |items| && EqualsFalse(items[i]) ==> items[i] in items;
    var same := exists x :: x in items && !EqualsFalse(x) && Bound(x) == c;
    if c in BoundAll(params) {
      var i :| 0 <= i < |params| && BoundAll(params)[i] == c;
      assert params[i] in params && Bound(params[i]) == c;
    }
    if same {
      var x :| x in items && !EqualsFalse(x) && Bound(x) == c;
      BoundMembers(params, x);
    }
    if params == [] {
      assert NoneItem !in params;
    }
  }

  // The lists on which `in` (`not in`) selects the rows it describes: no 0 for a number; no
  // false for a boolean; and None only where the check for NULL is added anyway, or, under
  // `not in`, in the list [False, True, None] that excludes every boolean.
  ghost predicate CleanList(kind: Kind, not: bool, items: seq<Item>)
  {
    var falsy := exists i :: 0 <= i < |items| && EqualsFalse(items[i]);
    match kind
    case IntegerKind => IntItem(0) !in items && (NoneItem in items ==> !not && FalseItem in items)
    case BooleanKind => (!falsy && NoneItem !in items) || (not && falsy && NoneItem in items && TrueItem in items)
  }

  ghost predicate ListExact(kind: Kind, not: bool, items: seq<Item>, c: Cell)
  {
    ListTri(not, items, c) == T <==> (MatchesAny(kind, c, items) != not)
  }

  // The entries the database accepts for the column.
  ghost predicate Typed(kind: Kind, items: seq<Item>)
  {
    forall x :: x in items ==> EqualsFalse(x) || Comparable(kind, x)
  }

  lemma ListSqlTyped(col: Ref, kind: Kind, not: bool, items: seq<Item>)
    ensures ListSql(col, kind, not, items).Success? <==> Typed(kind, items)
  {
    var params := WithoutFalse(items);
    WithoutFalseMembers(items);
    if forall i :: 0 <= i < |params| ==> Comparable(kind, params[i]) {
      forall x | x in items && !EqualsFalse(x)
        ensures Comparable(kind, x)
      {
        var i :| 0 <= i < |params| && params[i] == x;
      }
    } else {
      var i :| 0 <= i < |params| && !Comparable(kind, params[i]);
      assert params[i] in items;
    }
  }

  lemma MatchesAnyCases(kind: Kind, c: Cell, items: seq<Item>)
    requires Typed(kind, items) && Fits(kind, c)
    ensures var falsy := exists i :: 0 <= i < |items| && EqualsFalse(items[i]);
            MatchesAny(kind, c, items) <==>
              match kind
              case IntegerKind => if c == Null then FalseItem in items || NoneItem in items else IntItem(c.n) in items
              case BooleanKind =>
                if c == Null then falsy || NoneItem in items
                else if c == Flag(false) then falsy
                else TrueItem in items
  {
    assert forall i :: 0 <= i < |items| ==> items[i] in items;
    if kind == IntegerKind {
      forall x | x in items
        ensures Matches(kind, c, x) <==> if c == Null then IsUnset(x) else x == IntItem(c.n)
      {
      }
      if c == Null {
        assert FalseItem in items ==> Matches(kind, c, FalseItem);
        assert NoneItem in items ==> Matches(kind, c, NoneItem);
      } else {
        assert IntItem(c.n) in items ==> Matches(kind, c, IntItem(c.n));
      }
    } else {
      forall x | x in items
        ensures Matches(kind, c, x) <==>
                  if c == Null then EqualsFalse(x) || x == NoneItem else if c == Flag(false) then EqualsFalse(x) else x == TrueItem
      {
      }
    }
  }

  lemma {:induction false} UnlistedNumber(items: seq<Item>) returns (n: int)
    ensures n > 0 && forall x :: x in items && x.IntItem? ==> x.n < n
  {
    n := 1;
    if items != [] {
      n := UnlistedNumber(items[1..]);
      if items[0].IntItem? && items[0].n >= n {
        n := items[0].n + 1;
      }
      assert items == [items[0]] + items[1..];
    }
  }

  lemma SameEntry(items: seq<Item>, c: Cell)
    requires c != Null
    ensures (exists x :: x in items && !EqualsFalse(x) && Bound(x) == c) <==>
            match c case Flag(b) => b && TrueItem in items case Num(n) => n != 0 && IntItem(n) in items
  {
    match c
    case Flag(b) =>
      assert b && TrueItem in items ==> Bound(TrueItem) == c;
    case Num(n) =>
      assert n != 0 && IntItem(n) in items ==> Bound(IntItem(n)) == c;
  }

  // A list term selects the rows it describes, whatever the column holds, if and only if
  // its list is clean.
  lemma ListExactness(kind: Kind, not: bool, items: seq<Item>)
    requires Typed(kind, items)
    ensures (forall c :: Fits(kind, c) ==> ListExact(kind, not, items, c)) <==> CleanList(kind, not, items)
  {
    var falsy := exists i :: 0 <= i < |items| && EqualsFalse(items[i]);
    assert falsy <==> FalseItem in items || IntItem(0) in items;
    forall c | Fits(kind, c)
      ensures CleanList(kind, not, items) ==> ListExact(kind, not, items, c)
    {
      ListTriCases(not, items, c);
      MatchesAnyCases(kind, c, items);
      if c != Null {
        SameEntry(items, c);
      }
    }
    if !CleanList(kind, not, items) {
      var c := MisjudgedCell(kind, not, items);
    }
  }

  lemma MisjudgedCell(kind: Kind, not: bool, items: seq<Item>) returns (c: Cell)
    requires Typed(kind, items) && !CleanList(kind, not, items)
    ensures Fits(kind, c) && !ListExact(kind, not, items, c)
  {
    var falsy := exists i :: 0 <= i < |items| && EqualsFalse(items[i]);
    assert falsy <==> FalseItem in items || IntItem(0) in items;
    if kind == IntegerKind {
      if NoneItem in items && not {
        var n := UnlistedNumber(items);
        c := Num(n);
      } else if IntItem(0) in items {
        c := Num(0);
      } else {
        c := Null;
      }
    } else if falsy && (!not || NoneItem !in items) {
      c := Flag(false);
    } else if falsy {
      c := Flag(true);
    } else {
      c := Null;
    }
    ListTriCases(not, items, c);
    MatchesAnyCases(kind, c, items);
    if c != Null {
      SameEntry(items, c);
    }
  }

  // ------------------------------------------------------------------
  // Scalars

  // The truth value of the condition compiled for a scalar.
  function ScalarTri(kind: Kind, declared: bool, op: TermOp, item: Item, c: Cell): Tri
    decreases if op == EqIfSet then 1 else 0
  {
    var s := Compared(kind, declared, item);
    match op
    case Eq =>
      if ShowsNull(kind, item) then Truth(c == Null || (kind == BooleanKind && EqualsFalse(item) && c == Flag(false)))
      else CompareCells(CmpEq, c, s)
    case Ne =>
      if ShowsNull(kind, item) then Truth(c != Null && !(kind == BooleanKind && EqualsFalse(item) && c == Flag(false)))
      else CompareCells(CmpNe, c, s)
    case Lt => CompareCells(CmpLt, c, s)
    case Le => CompareCells(CmpLe, c, s)
    case Gt => CompareCells(CmpGt, c, s)
    case Ge => CompareCells(CmpGe, c, s)
    case EqIfSet => if IsUnset(item) then T else ScalarTri(kind, declared, Eq, item, c)
    case In => Truth((c == Null) != item.TrueItem?)
    case NotIn => Truth((c == Null) != item.FalseItem?)
    case ChildOf => U
  }

  // Comparisons with False or None that test for NULL.
  predicate ShowsNull(kind: Kind, item: Item)
  {
    IsUnset(item) || (kind == BooleanKind && EqualsFalse(item))
  }

  lemma ScalarSqlTri(col: Ref, kind: Kind, declared: bool, op: TermOp, item: Item, row: Row)
    requires ScalarSql(col, kind, declared, op, item).Success?
    requires !declared ==> kind == IntegerKind
    requires Fits(kind, row(col))
    ensures var c := ScalarSql(col, kind, declared, op, item).value;
            |c.params| == Slots(c.query) && Eval(c.query, c.params, row) == ScalarTri(kind, declared, op, item, row(col))
  {
  }

  // When the condition for a normalized scalar term is TRUE on exactly the cells it describes.
  predicate ScalarClean(kind: Kind, c: Cell, op: TermOp, item: Item)
  {
    op == Ne ==> ShowsNull(kind, item) || c != Null
  }

  // When the condition for the negation of a normalized scalar term is TRUE on exactly the others.
  predicate NegatedScalarClean(kind: Kind, declared: bool, c: Cell, op: TermOp, item: Item)
  {
    match op
    case Ne => true
    case Eq => ShowsNull(kind, item) || c != Null
    case EqIfSet => ShowsNull(kind, item) || c != Null
    case _ => BothSet(kind, declared, c, item)
  }

  function Opposite(op: TermOp): TermOp
  {
    match op
    case In => NotIn case NotIn => In case Lt => Ge case Gt => Le case Le => Gt case Ge => Lt case Eq => Ne case Ne => Eq
    case EqIfSet => EqIfSet case ChildOf => ChildOf
  }

  lemma ScalarExactness(kind: Kind, declared: bool, c: Cell, op: TermOp, item: Item)
    requires op != In && op != NotIn && op != ChildOf && Fits(kind, c)
    requires !declared ==> kind == IntegerKind && item != TrueItem
    ensures (ScalarTri(kind, declared, op, item, c) == T <==> TermHolds(kind, declared, c, op, Scalar(item))) <==> ScalarClean(kind, c, op, item)
    ensures (var negated := if op == EqIfSet then TriNot(ScalarTri(kind, declared, op, item, c)) else ScalarTri(kind, declared, Opposite(op), item, c);
             negated == T <==> !TermHolds(kind, declared, c, op, Scalar(item))) <==> NegatedScalarClean(kind, declared, c, op, item)
  {
  }

  // ------------------------------------------------------------------
  // Which terms can be printed

  // A scalar goes with every operator but child_of; with `in` and `not in`, as an alias of `=` and
  // `!=`, only when it is a boolean. `id` is not compared with booleans, but False can be read as NULL.
  predicate ScalarFits(declared: bool, op: TermOp, item: Item)
  {
    && op != ChildOf
    && (op == In || op == NotIn ==> item == FalseItem || item == TrueItem)
    && (!declared ==> item != TrueItem)
    && (!declared && item == FalseItem ==> op in {Eq, Ne, In, NotIn, EqIfSet})
  }

  // Left as they are, `in` and `not in` have an SQL for a boolean, and for no other scalar.
  lemma BooleanInPrints(col: Ref, kind: Kind, declared: bool, op: TermOp, item: Item)
    requires op == In || op == NotIn
    ensures ScalarSql(col, kind, declared, op, item).Success? <==> item == FalseItem || item == TrueItem
  {
  }

  // A list goes with `in` and `not in`, for which `=` and `!=` may stand, when the database can
  // compare its entries with the column.
  ghost predicate Printable(columns: Columns, col: Ref, op: TermOp, right: Operand)
  {
    && (col in columns || col.field == ID)
    && match right
       case Scalar(item) => ScalarFits(col in columns, op, item)
       case Many(items) => op in {In, NotIn, Eq, Ne} && Typed(if col in columns then columns[col] else IntegerKind, items)
  }

  // These are the terms for which there is an SQL, and no others.
  lemma PrintsExactly(columns: Columns, table: string, field: string, op: TermOp, right: Operand)
    ensures LeafSql(NormalizeLeaf(Term(field, op, right)), table, columns).Success? <==>
            Printable(columns, Ref(table, field), op, right)
  {
    var col := Ref(table, field);
    if right.Many? && KindOf(columns, col).Some? {
      ListSqlTyped(col, KindOf(columns, col).value, NormalizeLeaf(Term(field, op, right)).op == NotIn, right.items);
    }
  }
}
