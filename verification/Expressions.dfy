/** The expression class: rewriting the terms of a domain in place (`parse`) and printing it
    as one WHERE condition (`to_sql`). */
module Expressions {
  import opened Wrappers
  import opened Forests
  import opened NestedSets
  import opened Sql
  import opened Domains
  import opened DomainOperations
  import opened Negation
  import opened DomainTruth
  import opened LeafCompiler
  import opened LeafMeaning
  import opened ChildOfDomains
  import opened Rewritings

  datatype ExpressionError = Unreadable | BadTerm

  // The model a domain is about: its table, the fields it inherits with the table that
  // declares each, the declared columns, and its parent hierarchy (`stored`: with
  // parent_left and parent_right kept up to date); and how deep calls may be nested.
  datatype Model = Model(main: string, inherited: map<string, string>, columns: Columns, stored: bool,
                         parent: ParentMap, left: Column, right: Column, limit: nat)
  {
    ghost predicate Valid()
    {
      && (forall f :: f in inherited ==> Ref(inherited[f], f) in columns)
      && ID !in inherited && Ref(main, ID) !in columns && NO_ID !in parent
      && (stored ==> Indexed(parent, left, right) && PARENT_LEFT !in inherited
                     && Ref(main, PARENT_LEFT) in columns && columns[Ref(main, PARENT_LEFT)] == IntegerKind)
    }

    // The table whose column a field name denotes.
    function TableOf(field: string): string
    {
      if field in inherited then inherited[field] else main
    }

    predicate Known(field: string)
    {
      Ref(TableOf(field), field) in columns || field == ID
    }

    // The hierarchy child_of goes by: the range form knows existing records only.
    function Tree(): ParentMap
    {
      if stored then parent else Hung(parent)
    }
  }

  function ItemId(item: Item): Option<Id>
  {
    match item
    case IntItem(n) => Some(n)
    case FalseItem => Some(NO_ID)
    case _ => None
  }

  // The ids of a child_of term.
  function ChildOfIds(right: Operand): Option<seq<Id>>
  {
    match right
    case Scalar(item) => if ItemId(item).Some? then Some([ItemId(item).value]) else None
    case Many(items) =>
      if forall i :: 0 <= i < |items| ==> ItemId(items[i]).Some? then
        Some(seq(|items|, i requires 0 <= i < |items| && ItemId(items[i]).Some? => ItemId(items[i]).value))
      else None
  }

  predicate IsChildOf(leaf: Leaf)
  {
    leaf.Term? && leaf.field == ID && leaf.op == ChildOf
  }

  // What the child_of expansion accepts: existing records, and at least one of them, for the
  // range form; for the other one, ids without too many levels below them.
  ghost predicate ExpandsWell(m: Model, ids: seq<Id>)
  {
    if m.stored then ids != [] && forall i :: 0 <= i < |ids| ==> ids[i] in m.parent
    else !HasLevel(Hung(m.parent), ids, m.limit)
  }

  // With room for as many calls as there are records, that is: no id on a cycle.
  lemma ExpandsExactly(m: Model, ids: seq<Id>)
    requires m.Valid() && !m.stored && m.limit > |m.parent|
    ensures ExpandsWell(m, ids) <==> forall a :: a in ids ==> !OnCycle(m.parent, a)
  {
    RecursionEndsExactly(m.parent, ids);
  }

  // The terms `parse` and `to_sql` can handle.
  ghost predicate Compiles(m: Model, leaf: Leaf)
    ensures leaf.Term? && !IsChildOf(leaf) ==>
              (Compiles(m, leaf) <==> m.Known(leaf.field) && LeafSql(NormalizeLeaf(leaf), m.TableOf(leaf.field), m.columns).Success?)
  {
    if leaf.Constant? then leaf == TRUE_LEAF || leaf == FALSE_LEAF
    else if IsChildOf(leaf) then ChildOfIds(leaf.right).Some? && ExpandsWell(m, ChildOfIds(leaf.right).value)
    else
      PrintsExactly(m.columns, m.TableOf(leaf.field), leaf.field, leaf.op, leaf.right);
      Printable(m.columns, Ref(m.TableOf(leaf.field), leaf.field), leaf.op, leaf.right)
  }

  // A row of the query result describes record x of the model.
  ghost predicate Describes(m: Model, row: Row, x: Id)
  {
    && x in m.parent && row(Ref(m.main, ID)) == Num(x)
    && (m.stored ==> x in m.left && row(Ref(m.main, PARENT_LEFT)) == Num(m.left[x]))
    && (forall col :: col in m.columns ==> Fits(m.columns[col], row(col)))
  }

  ghost predicate IsBelow(m: Model, ids: seq<Id>, x: Id)
  {
    exists a :: a in ids && Below(m.Tree(), x, a)
  }

  // The truth value the emitted SQL gives a term on a row.
  ghost function SqlTruth(m: Model, row: Row, x: Id, leaf: Leaf): Tri
  {
    if leaf == TRUE_LEAF then T
    else if leaf == FALSE_LEAF then F
    else if IsChildOf(leaf) && ChildOfIds(leaf.right).Some? then Truth(IsBelow(m, ChildOfIds(leaf.right).value, x))
    else if leaf.Constant? || !m.Known(leaf.field) then U
    else PrintTruth(m, row, NormalizeLeaf(leaf), Some(m.TableOf(leaf.field)))
  }

  // The SQL of a term as it stands, in the table recorded for it or else the model's own.
  function PrintedLeaf(m: Model, leaf: Leaf, table: Option<string>): Result<Compiled, CompileError>
  {
    LeafSql(leaf, if table.Some? then table.value else m.main, m.columns)
  }

  ghost function PrintTruth(m: Model, row: Row, leaf: Leaf, table: Option<string>): Tri
  {
    var c := PrintedLeaf(m, leaf, table);
    if c.Success? && |c.value.params| == Slots(c.value.query) then Eval(c.value.query, c.value.params, row) else U
  }

  ghost function PrintReading(m: Model, row: Row): Reading
  {
    (l, table) => PrintTruth(m, row, l, table)
  }

  // Every term has an SQL in the table recorded for it.
  ghost predicate AllPrint(m: Model, exp: seq<Token>, tables: Tables)
  {
    forall i :: 0 <= i < |exp| && exp[i].Atomic? ==> PrintedLeaf(m, exp[i].leaf, TableAt(tables, i)).Success?
  }

  // ------------------------------------------------------------------

  ghost function TruthOn(m: Model, row: Row, x: Id): TriValuation
  {
    l => SqlTruth(m, row, x, l)
  }

  ghost function CompilesIn(m: Model): Leaf -> bool
  {
    l => Compiles(m, l)
  }

  // A term `parse` is done with: in normal form, recorded with the table of its field.
  predicate Settled(m: Model, leaf: Leaf, table: Option<string>)
  {
    && leaf.Term? && !IsChildOf(leaf) && NormalizeLeaf(leaf) == leaf && m.Known(leaf.field)
    && (if table.Some? then table.value else m.main) == m.TableOf(leaf.field)
  }

  // The token at index i is no term, or one that `parse` is done with.
  predicate SettledAt(m: Model, tables: map<int, string>, i: int, t: Token)
  {
    t.Atomic? && !IsConstant(t) ==> Settled(m, t.leaf, TableAt(tables, i))
  }

  predicate IsRangeTerm(l: Leaf)
  {
    l.Term? && l.field == PARENT_LEFT && (l.op == Lt || l.op == Ge) && l.right.Scalar? && l.right.item.IntItem?
  }

  lemma RangeTermCompiles(m: Model, l: Leaf)
    requires m.Valid() && m.stored && IsRangeTerm(l)
    ensures Compiles(m, l) && !IsChildOf(l)
    ensures forall row, x :: Describes(m, row, x) ==>
              SqlTruth(m, row, x, l) == Truth(if l.op == Lt then m.left[x] < l.right.item.n else m.left[x] >= l.right.item.n)
  {
  }

  lemma RangeCompiles(m: Model, ids: seq<Id>)
    requires m.Valid() && m.stored && ids != [] && forall i :: 0 <= i < |ids| ==> ids[i] in m.parent
    ensures var e := Join(Or, RangesOf(ids, m.left, m.right));
            && EveryLeaf(e, CompilesIn(m))
            && (forall i :: 0 <= i < |Flat(e)| && Flat(e)[i].Atomic? ==> Flat(e)[i].leaf.Term? && !IsChildOf(Flat(e)[i].leaf))
            && !Flat(e)[0].Atomic?
            && forall row, x :: Describes(m, row, x) ==>
                 EvalTri(e, TruthOn(m, row, x)) == Truth(IsBelow(m, ids, x))
  {
    var ds := RangesOf(ids, m.left, m.right);
    var e := Join(Or, ds);
    var p: Leaf -> bool := l => IsRangeTerm(l);
    JoinLeaves(Or, ds, p);
    forall l: Leaf | p(l)
      ensures Compiles(m, l) && !IsChildOf(l)
    {
      RangeTermCompiles(m, l);
    }
    WeakerLeaves(e, p, CompilesIn(m));
    EveryLeafTokens(e, p);
    FlatJoin(Or, ds);
    assert Flats(ds)[0] == And;
    forall row, x | Describes(m, row, x)
      ensures EvalTri(e, TruthOn(m, row, x)) == Truth(IsBelow(m, ids, x))
    {
      RangeReads(m, ids, row, x);
    }
  }

  lemma RangeReads(m: Model, ids: seq<Id>, row: Row, x: Id)
    requires m.Valid() && m.stored && ids != [] && forall i :: 0 <= i < |ids| ==> ids[i] in m.parent
    requires Describes(m, row, x)
    ensures EvalTri(Join(Or, RangesOf(ids, m.left, m.right)), TruthOn(m, row, x)) == Truth(IsBelow(m, ids, x))
  {
    forall n
      ensures TruthOn(m, row, x)(Term(PARENT_LEFT, Lt, Scalar(IntItem(n)))) == Truth(m.left[x] < n)
      ensures TruthOn(m, row, x)(Term(PARENT_LEFT, Ge, Scalar(IntItem(n)))) == Truth(m.left[x] >= n)
    {
      RangeTermCompiles(m, Term(PARENT_LEFT, Lt, Scalar(IntItem(n))));
      RangeTermCompiles(m, Term(PARENT_LEFT, Ge, Scalar(IntItem(n))));
    }
    RangeTruth(m.parent, m.left, m.right, ids, x, TruthOn(m, row, x));
  }

  lemma {:induction false} JoinLeaves(op: Token, ds: seq<Dom>, p: Leaf -> bool)
    requires ds != [] && (op == And || op == Or)
    requires forall i :: 0 <= i < |ds| ==> EveryLeaf(ds[i], p)
    ensures EveryLeaf(Join(op, ds), p)
  {
    if |ds| > 1 {
      JoinLeaves(op, ds[..|ds| - 1], p);
    }
  }

  lemma {:induction false} WeakerLeaves(d: Dom, p: Leaf -> bool, q: Leaf -> bool)
    requires EveryLeaf(d, p) && forall l :: p(l) ==> q(l)
    ensures EveryLeaf(d, q)
  {
    match d
    case Atom(l) =>
    case Neg(e) => WeakerLeaves(e, p, q);
    case Conj(a, b) => WeakerLeaves(a, p, q); WeakerLeaves(b, p, q);
    case Disj(a, b) => WeakerLeaves(a, p, q); WeakerLeaves(b, p, q);
  }

  // The term that the id is one of those listed.
  function IdsTerm(all: seq<Id>): Leaf
  {
    Term(ID, In, Many(seq(|all|, i requires 0 <= i < |all| => IntItem(all[i]))))
  }

  lemma ListedCompiles(m: Model, ids: seq<Id>, all: seq<Id>)
    requires m.Valid()
    requires forall x :: x in all <==> IsBelow(m, ids, x)
    ensures var l := IdsTerm(all);
            && Compiles(m, l) && SettledAt(m, map[], 0, Atomic(l))
            && forall row, x :: Describes(m, row, x) ==> SqlTruth(m, row, x, l) == Truth(IsBelow(m, ids, x))
  {
    var l := IdsTerm(all);
    var items := l.right.items;
    var col := Ref(m.main, ID);
    ListSqlTyped(col, IntegerKind, false, items);
    forall row, x | Describes(m, row, x)
      ensures SqlTruth(m, row, x, l) == Truth(IsBelow(m, ids, x))
    {
      ListSqlTri(col, IntegerKind, false, items, row);
      ListedTri(items, all, x);
    }
  }

  // A list of ids, read on the id of a record, is never UNKNOWN.
  lemma ListedTri(items: seq<Item>, all: seq<Id>, x: Id)
    requires |items| == |all| && forall i :: 0 <= i < |all| ==> items[i] == IntItem(all[i])
    requires x != 0
    ensures ListTri(false, items, Num(x)) == Truth(x in all)
  {
    ListTriCases(false, items, Num(x));
    SameEntry(items, Num(x));
    var params := WithoutFalse(items);
    WithoutFalseMembers(items);
    BoundMembers(params, NoneItem);
    assert forall y :: y in items ==> y.IntItem?;
    IsInCases(Num(x), BoundAll(params));
    if x in all {
      var i :| 0 <= i < |all| && all[i] == x;
      assert items[i] == IntItem(x);
    }
    if IntItem(x) in items {
      var i :| 0 <= i < |items| && items[i] == IntItem(x);
    }
  }

  // ------------------------------------------------------------------
  // The loop of parse()

  // Steps the loop may still take: an expansion is walked through after its first token.
  function Work(m: Model, ts: seq<Token>): nat
  {
    if ts == [] then 0 else TokenWork(ts[0]) + Work(m, ts[1..])
  }

  function TokenWork(t: Token): nat
  {
    if t.Atomic? && IsChildOf(t.leaf) && ChildOfIds(t.leaf.right).Some? then 4 * |ChildOfIds(t.leaf.right).value| + 2 else 1
  }

  lemma {:induction false} WorkAppend(m: Model, a: seq<Token>, b: seq<Token>)
    ensures Work(m, a + b) == Work(m, a) + Work(m, b)
    ensures (forall i :: 0 <= i < |a| && a[i].Atomic? ==> !IsChildOf(a[i].leaf)) ==> Work(m, a) == |a|
  {
    if a == [] {
      assert a + b == b;
    } else {
      assert (a + b)[1..] == a[1..] + b;
      WorkAppend(m, a[1..], b);
    }
  }

  // Where the loop stands: exp is an expression with the truth values of the original one
  // (or has lost a term), settled up to index i.
  ghost predicate Parsed(m: Model, orig: Dom, exp: seq<Token>, tables: map<int, string>, i: int, cur: Dom, broken: bool)
  {
    && (broken ==> Balance(exp) < 1 && !EveryLeaf(orig, CompilesIn(m)))
    && (!broken ==>
          && exp == Flat(cur)
          && (EveryLeaf(cur, CompilesIn(m)) <==> EveryLeaf(orig, CompilesIn(m)))
          && SameTruth(m, cur, orig)
          && (forall j :: 0 <= j <= i && j < |exp| ==> SettledAt(m, tables, j, exp[j])))
    && (forall k :: k in tables ==> 0 <= k <= i)
  }

  ghost predicate SameTruth(m: Model, d: Dom, e: Dom)
  {
    forall row, x :: Describes(m, row, x) ==> EvalTri(d, TruthOn(m, row, x)) == EvalTri(e, TruthOn(m, row, x))
  }

  // One term replaced by an expression with its truth values.
  lemma ParsedStep(m: Model, orig: Dom, exp: seq<Token>, cur: Dom, i: nat, e: Dom)
    requires exp == Flat(cur) && SameTruth(m, cur, orig)
    requires EveryLeaf(cur, CompilesIn(m)) <==> EveryLeaf(orig, CompilesIn(m))
    requires i < |exp| && exp[i].Atomic?
    requires forall row, x :: Describes(m, row, x) ==> EvalTri(e, TruthOn(m, row, x)) == SqlTruth(m, row, x, exp[i].leaf)
    requires EveryLeaf(e, CompilesIn(m)) <==> Compiles(m, exp[i].leaf)
    ensures var next := Replaced(cur, i, e);
            && Spliced(exp, i, Flat(e)) == Flat(next) && SameTruth(m, next, orig)
            && (EveryLeaf(next, CompilesIn(m)) <==> EveryLeaf(orig, CompilesIn(m)))
  {
    ReplacedFlat(cur, i, e);
    ReplacedLeaves(cur, i, e, CompilesIn(m));
    forall row, x | Describes(m, row, x)
      ensures EvalTri(Replaced(cur, i, e), TruthOn(m, row, x)) == EvalTri(orig, TruthOn(m, row, x))
    {
      ReplacedTruth(cur, i, e, TruthOn(m, row, x));
    }
  }

  lemma NormalizedLeafTruth(m: Model, l: Leaf)
    requires l.Term?
    ensures var n := NormalizeLeaf(l);
            && n.Term? && n.field == l.field && NormalizeLeaf(n) == n && (Compiles(m, n) <==> Compiles(m, l))
            && (IsChildOf(l) ==> n == l) && IsChildOf(n) == IsChildOf(l)
            && forall row, x :: SqlTruth(m, row, x, n) == SqlTruth(m, row, x, l)
  {
  }

  // Walking through an expansion is less work than its term was worth.
  lemma ExpansionWork(m: Model, exp: seq<Token>, i: nat, dom: seq<Token>)
    requires i < |exp| && exp[i].Atomic? && IsChildOf(exp[i].leaf) && ChildOfIds(exp[i].leaf.right).Some?
    requires |dom| <= 4 * |ChildOfIds(exp[i].leaf.right).value| + 1
    requires forall k :: 0 <= k < |dom| && dom[k].Atomic? ==> !IsChildOf(dom[k].leaf)
    ensures var next := exp[..i] + dom + exp[i + 1..];
            i + 1 < |next| ==> Work(m, next[i + 1..]) < Work(m, exp[i..])
  {
    var next := exp[..i] + dom + exp[i + 1..];
    assert exp[i..] == [exp[i]] + exp[i + 1..];
    WorkAppend(m, [exp[i]], exp[i + 1..]);
    if dom != [] {
      assert next[i + 1..] == dom[1..] + exp[i + 1..];
      WorkAppend(m, dom[1..], exp[i + 1..]);
    } else if i + 1 < |next| {
      assert next[i + 1..] == exp[i + 2..];
      assert exp[i + 1..] == [exp[i + 1]] + exp[i + 2..];
      WorkAppend(m, [exp[i + 1]], exp[i + 2..]);
    }
  }

  // The leaf at hand decides whether the original expression compiles.
  lemma ParsedLeaf(m: Model, orig: Dom, exp: seq<Token>, tables: map<int, string>, i: nat, cur: Dom, broken: bool)
    requires Parsed(m, orig, exp, tables, i - 1, cur, broken) && i < |exp| && exp[i].Atomic?
    ensures !Compiles(m, exp[i].leaf) ==> !EveryLeaf(orig, CompilesIn(m))
    ensures exp[i].leaf.Term? ==> (Compiles(m, NormalizeLeaf(exp[i].leaf)) <==> Compiles(m, exp[i].leaf))
  {
    if exp[i].leaf.Term? {
      NormalizedLeafTruth(m, exp[i].leaf);
    }
    if !broken {
      EveryLeafTokens(cur, CompilesIn(m));
      assert Flat(cur)[i] == exp[i];
      assert CompilesIn(m)(exp[i].leaf) <==> Compiles(m, exp[i].leaf);
    }
  }

  // exp[i] := the normalized term
  lemma NormalizeStep(m: Model, orig: Dom, exp: seq<Token>, tables: map<int, string>, i: nat, cur: Dom, broken: bool)
    requires Parsed(m, orig, exp, tables, i - 1, cur, broken) && i < |exp| && exp[i].Atomic? && exp[i].leaf.Term?
    ensures var leaf := NormalizeLeaf(exp[i].leaf);
            && leaf.Term? && NormalizeLeaf(leaf) == leaf && IsChildOf(leaf) == IsChildOf(exp[i].leaf)
            && (IsChildOf(leaf) ==> leaf == exp[i].leaf)
            && Parsed(m, orig, exp[i := Atomic(leaf)], tables, i - 1, if broken then cur else Replaced(cur, i, Atom(leaf)), broken)
  {
    var leaf := NormalizeLeaf(exp[i].leaf);
    NormalizedLeafTruth(m, exp[i].leaf);
    SplicedOne(exp, i, Atomic(leaf));
    if broken {
      BalanceSpliced(exp, i, [Atomic(leaf)]);
    } else {
      ParsedStep(m, orig, exp, cur, i, Atom(leaf));
    }
  }

  // A plain term in normal form, its table recorded.
  lemma PlainSettled(m: Model, orig: Dom, exp: seq<Token>, tables: Tables, i: nat, cur: Dom, broken: bool)
    requires Parsed(m, orig, exp, tables, i - 1, cur, broken) && i < |exp| && exp[i].Atomic?
    requires exp[i].leaf.Term? && NormalizeLeaf(exp[i].leaf) == exp[i].leaf && !IsChildOf(exp[i].leaf) && m.Known(exp[i].leaf.field)
    ensures var field := exp[i].leaf.field;
            Parsed(m, orig, exp, if field in m.inherited then tables[i := m.inherited[field]] else tables, i, cur, broken)
  {
    var field := exp[i].leaf.field;
    var tables' := if field in m.inherited then tables[i := m.inherited[field]] else tables;
    forall j | 0 <= j <= i && j < |exp| && !broken
      ensures SettledAt(m, tables', j, exp[j])
    {
      if j < i {
        assert SettledAt(m, tables, j, exp[j]);
      }
    }
  }

  // A pass at an operator or constant.
  lemma PassedOver(m: Model, orig: Dom, exp: seq<Token>, tables: map<int, string>, i: nat, cur: Dom, broken: bool)
    requires Parsed(m, orig, exp, tables, i - 1, cur, broken) && i < |exp|
    requires exp[i].Atomic? ==> exp[i].leaf == TRUE_LEAF || exp[i].leaf == FALSE_LEAF
    ensures Parsed(m, orig, exp, tables, i, cur, broken)
    ensures i + 1 < |exp| ==> Work(m, exp[i + 1..]) < Work(m, exp[i..])
  {
    assert exp[i..] == [exp[i]] + exp[i + 1..];
    WorkAppend(m, [exp[i]], exp[i + 1..]);
  }

  // exp := exp[..i] + dom + exp[i + 1..] for the expansion dom of a child_of term
  lemma ExpandStep(m: Model, orig: Dom, exp: seq<Token>, tables: map<int, string>, i: nat, cur: Dom, broken: bool,
                   ids: seq<Id>, dom: seq<Token>, e: Dom)
    requires Parsed(m, orig, exp, tables, i - 1, cur, broken) && i < |exp| && exp[i].Atomic? && i !in tables
    requires IsChildOf(exp[i].leaf) && ChildOfIds(exp[i].leaf.right) == Some(ids)
    requires dom == [] <==> m.stored && ids == []
    requires if m.stored then forall k :: 0 <= k < |ids| ==> ids[k] in m.parent else !HasLevel(Hung(m.parent), ids, m.limit)
    requires dom != [] ==> dom == Flat(e) && EveryLeaf(e, CompilesIn(m))
    requires dom != [] ==> forall row, x :: Describes(m, row, x) ==> EvalTri(e, TruthOn(m, row, x)) == Truth(IsBelow(m, ids, x))
    requires dom != [] && dom[0].Atomic? ==> SettledAt(m, map[], 0, dom[0])
    ensures Parsed(m, orig, Spliced(exp, i, dom), tables, i,
                   if broken || dom == [] then cur else Replaced(cur, i, e), broken || dom == [])
  {
    BalanceSpliced(exp, i, dom);
    if dom != [] {
      BalanceFlat(e);
    }
    if !broken {
      BalanceFlat(cur);
      EveryLeafTokens(cur, CompilesIn(m));
      assert Flat(cur)[i] == exp[i];
      assert CompilesIn(m)(exp[i].leaf) <==> dom != [];
      if dom != [] {
        ParsedStep(m, orig, exp, cur, i, e);
        var next := Spliced(exp, i, dom);
        assert next[i] == dom[0];
        forall j | 0 <= j <= i
          ensures SettledAt(m, tables, j, next[j])
        {
          if j < i {
            assert next[j] == exp[j];
          }
        }
      }
    }
  }

  predicate AllSettled(m: Model, exp: seq<Token>, tables: map<int, string>)
  {
    forall i :: 0 <= i < |exp| ==> SettledAt(m, tables, i, exp[i])
  }

  function ConcatParams(cs: seq<Compiled>): seq<Cell>
  {
    if cs == [] then [] else cs[0].params + ConcatParams(cs[1..])
  }

  // c evaluates like d, read with its first token at index `at`, each term in its table.
  ghost predicate PrintedOne(m: Model, tables: Tables, at: int, d: Dom, c: Compiled)
  {
    && |c.params| == Slots(c.query) && NoEmptyIn(c.query)
    && forall row {:trigger PrintReading(m, row)} ::
         Eval(c.query, c.params, row) == EvalAt(d, at, InTables(tables, PrintReading(m, row)))
  }

  ghost predicate PrintedAll(m: Model, tables: Tables, at: int, ds: seq<Dom>, cs: seq<Compiled>)
    decreases |ds|
  {
    && |ds| == |cs|
    && (ds != [] ==> PrintedOne(m, tables, at, ds[0], cs[0]) && PrintedAll(m, tables, at + |Flat(ds[0])|, ds[1..], cs[1..]))
  }

  // The stack holds the conditions of the expressions ds read so far, from index `at` on, the
  // first one on top; the parameters are theirs, in the order of the text.
  ghost predicate Printed(m: Model, tables: Tables, at: int, stack: seq<Condition>, params: seq<Cell>, ds: seq<Dom>, cs: seq<Compiled>)
  {
    && |stack| == |cs|
    && (forall j :: 0 <= j < |cs| ==> stack[|stack| - 1 - j] == cs[j].query)
    && PrintedAll(m, tables, at, ds, cs)
    && params == ConcatParams(cs)
  }

  lemma PrintLeaf(m: Model, tables: Tables, at: int, stack: seq<Condition>, params: seq<Cell>, ds: seq<Dom>, cs: seq<Compiled>, leaf: Leaf)
    requires Printed(m, tables, at + 1, stack, params, ds, cs) && PrintedLeaf(m, leaf, TableAt(tables, at)).Success?
    ensures var c := PrintedLeaf(m, leaf, TableAt(tables, at)).value;
            Printed(m, tables, at, stack + [c.query], c.params + params, [Atom(leaf)] + ds, [c] + cs)
  {
    var c := PrintedLeaf(m, leaf, TableAt(tables, at)).value;
    LeafSqlSlots(leaf, if at in tables then tables[at] else m.main, m.columns);
    assert PrintedOne(m, tables, at, Atom(leaf), c);
    assert ([c] + cs)[1..] == cs && ([Atom(leaf)] + ds)[1..] == ds;
  }

  lemma PrintNot(m: Model, tables: Tables, at: int, stack: seq<Condition>, params: seq<Cell>, ds: seq<Dom>, cs: seq<Compiled>)
    requires Printed(m, tables, at + 1, stack, params, ds, cs) && |ds| >= 1
    ensures var c := Compiled(NotC(cs[0].query), cs[0].params);
            Printed(m, tables, at, stack[..|stack| - 1] + [c.query], params, [Neg(ds[0])] + ds[1..], [c] + cs[1..])
  {
    var c, d := Compiled(NotC(cs[0].query), cs[0].params), Neg(ds[0]);
    assert PrintedOne(m, tables, at, d, c);
    assert ([c] + cs[1..])[1..] == cs[1..] && ([d] + ds[1..])[1..] == ds[1..];
    assert at + |Flat(d)| == at + 1 + |Flat(ds[0])|;
  }

  // Two expressions one after the other, as one.
  lemma PrintPair(m: Model, tables: Tables, at: int, a: Dom, b: Dom, p: Compiled, q: Compiled, and: bool)
    requires PrintedOne(m, tables, at + 1, a, p) && PrintedOne(m, tables, at + 1 + |Flat(a)|, b, q)
    ensures PrintedOne(m, tables, at, if and then Conj(a, b) else Disj(a, b),
                       Compiled(if and then AndC(p.query, q.query) else OrC(p.query, q.query), p.params + q.params))
  {
    var params := p.params + q.params;
    assert params[..Slots(p.query)] == p.params && params[Slots(p.query)..] == q.params;
  }

  lemma PrintBinary(m: Model, tables: Tables, at: int, stack: seq<Condition>, params: seq<Cell>, ds: seq<Dom>, cs: seq<Compiled>, and: bool)
    requires Printed(m, tables, at + 1, stack, params, ds, cs) && |ds| >= 2
    ensures var c := Compiled(if and then AndC(cs[0].query, cs[1].query) else OrC(cs[0].query, cs[1].query),
                              cs[0].params + cs[1].params);
            var d := if and then Conj(ds[0], ds[1]) else Disj(ds[0], ds[1]);
            Printed(m, tables, at, stack[..|stack| - 2] + [c.query], params, [d] + ds[2..], [c] + cs[2..])
  {
    var c := Compiled(if and then AndC(cs[0].query, cs[1].query) else OrC(cs[0].query, cs[1].query),
                      cs[0].params + cs[1].params);
    var d := if and then Conj(ds[0], ds[1]) else Disj(ds[0], ds[1]);
    assert cs[1..][1..] == cs[2..] && ds[1..][1..] == ds[2..];
    assert ([c] + cs[2..])[1..] == cs[2..] && ([d] + ds[2..])[1..] == ds[2..];
    assert PrintedAll(m, tables, at + 1 + |Flat(ds[0])|, ds[1..], cs[1..]);
    PrintPair(m, tables, at, ds[0], ds[1], cs[0], cs[1], and);
    assert at + |Flat(d)| == at + 1 + |Flat(ds[0])| + |Flat(ds[1])|;
    assert ConcatParams(cs) == cs[0].params + (cs[1].params + ConcatParams(cs[2..]));
  }

  lemma NotOneIsMalformed(ts: seq<Token>, ds: seq<Dom>)
    requires ts == Flats(ds) && |ds| != 1
    ensures !WellFormed(ts)
  {
    BalanceFlats(ds);
    forall d | ts == Flat(d)
      ensures false
    {
      BalanceFlat(d);
    }
  }

  // query and params evaluate like the expression written exp, each term in its table.
  ghost predicate PrintsAs(m: Model, exp: seq<Token>, tables: Tables, query: Condition, params: seq<Cell>)
  {
    && |params| == Slots(query) && NoEmptyIn(query)
    && forall d, row {:trigger Flat(d), PrintReading(m, row)} ::
         exp == Flat(d) ==> Eval(query, params, row) == EvalAt(d, 0, InTables(tables, PrintReading(m, row)))
  }

  lemma PrintedAlone(m: Model, tables: Tables, exp: seq<Token>, stack: seq<Condition>, params: seq<Cell>, ds: seq<Dom>, cs: seq<Compiled>)
    requires exp == Flats(ds) && Printed(m, tables, 0, stack, params, ds, cs) && |stack| == 1
    ensures WellFormed(exp) && PrintsAs(m, exp, tables, stack[0], params)
  {
    var d, c := ds[0], cs[0];
    assert ds == [d] && cs == [c] && PrintedOne(m, tables, 0, d, c);
    FlatsOne(d);
    assert cs[1..] == [] && ConcatParams(cs) == c.params;
    assert stack[0] == c.query;
    forall e | exp == Flat(e)
      ensures e == d
    {
      FlatInjective(e, d);
    }
  }

  // When every term is settled, its table is that of its field, and the tables drop out of sight.
  lemma SettledReads(m: Model, tables: Tables, d: Dom, row: Row, x: Id)
    requires AllSettled(m, Flat(d), tables) && Describes(m, row, x)
    ensures EvalAt(d, 0, InTables(tables, PrintReading(m, row))) == EvalTri(d, TruthOn(m, row, x))
  {
    var v, t := InTables(tables, PrintReading(m, row)), TruthOn(m, row, x);
    var w: PlacedValuation := (j, l) => t(l);
    forall k | 0 <= k < |Flat(d)| && Flat(d)[k].Atomic?
      ensures v(k, Flat(d)[k].leaf) == w(k, Flat(d)[k].leaf)
    {
      SettledLeaf(m, tables, k, Flat(d)[k].leaf, row, x);
    }
    AgreeingAt(d, 0, v, w);
    PlacedTruth(d, 0, w, t);
  }

  lemma SettledLeaf(m: Model, tables: Tables, i: int, leaf: Leaf, row: Row, x: Id)
    requires SettledAt(m, tables, i, Atomic(leaf))
    ensures PrintedLeaf(m, leaf, TableAt(tables, i)).Success? <==> Compiles(m, leaf)
    ensures PrintTruth(m, row, leaf, TableAt(tables, i)) == SqlTruth(m, row, x, leaf)
  {
  }

  lemma SettledPrints(m: Model, exp: seq<Token>, tables: Tables)
    requires AllSettled(m, exp, tables)
    ensures AllPrint(m, exp, tables) <==> forall i :: 0 <= i < |exp| && exp[i].Atomic? ==> Compiles(m, exp[i].leaf)
  {
    forall i | 0 <= i < |exp| && exp[i].Atomic?
      ensures PrintedLeaf(m, exp[i].leaf, TableAt(tables, i)).Success? <==> Compiles(m, exp[i].leaf)
    {
      SettledLeaf(m, tables, i, exp[i].leaf, ref => Null, 0);
    }
  }

  // ------------------------------------------------------------------
  // What a domain means, and where its SQL says the same

  ghost predicate LeafHolds(m: Model, row: Row, x: Id, leaf: Leaf)
  {
    if leaf.Constant? then (leaf.left == 1) != leaf.negated
    else if IsChildOf(leaf) then ChildOfIds(leaf.right).Some? && IsBelow(m, ChildOfIds(leaf.right).value, x)
    else
      var col := Ref(m.TableOf(leaf.field), leaf.field);
      KindOf(m.columns, col).Some? && TermHolds(KindOf(m.columns, col).value, col in m.columns, row(col), leaf.op, leaf.right)
  }

  // child_of: the record is the one named, or one of those listed, or below it.
  lemma ChildOfMeans(m: Model, row: Row, x: Id, a: Id, ids: seq<Id>)
    ensures LeafHolds(m, row, x, Term(ID, ChildOf, Scalar(IntItem(a)))) <==> Below(m.Tree(), x, a)
    ensures LeafHolds(m, row, x, Term(ID, ChildOf, Scalar(FalseItem))) <==> Below(m.Tree(), x, NO_ID)
    ensures LeafHolds(m, row, x, Term(ID, ChildOf, Many(seq(|ids|, i requires 0 <= i < |ids| => IntItem(ids[i]))))) <==>
            exists i :: 0 <= i < |ids| && Below(m.Tree(), x, ids[i])
  {
    assert ChildOfIds(Scalar(IntItem(a))) == Some([a]);
    assert ChildOfIds(Scalar(FalseItem)) == Some([NO_ID]);
    assert a in [a] && (forall b :: b in [a] ==> b == a) && NO_ID in [NO_ID] && forall b :: b in [NO_ID] ==> b == NO_ID;
    var items := seq(|ids|, i requires 0 <= i < |ids| => IntItem(ids[i]));
    assert ChildOfIds(Many(items)).value == ids;
    assert forall i :: 0 <= i < |ids| ==> ids[i] in ids;
  }

  ghost function MeaningOn(m: Model, row: Row, x: Id): Valuation
  {
    l => LeafHolds(m, row, x, l)
  }

  // The terms whose SQL, or the SQL of whose negation (!pos), is right on this row: clean
  // lists; scalars, unless a comparison that does not test for NULL meets a NULL.
  ghost predicate LeafClean(m: Model, row: Row, leaf: Leaf, pos: bool)
  {
    if leaf.Constant? || IsChildOf(leaf) then true
    else
      var col := Ref(m.TableOf(leaf.field), leaf.field);
      KindOf(m.columns, col).Some? ==>
        var kind, op := KindOf(m.columns, col).value, NormalizeLeaf(leaf).op;
        match leaf.right
        case Many(items) => CleanList(kind, (op == NotIn) == pos, items)
        case Scalar(item) => if pos then ScalarClean(kind, row(col), op, item) else NegatedScalarClean(kind, col in m.columns, row(col), op, item)
  }

  ghost function CleanOn(m: Model, row: Row): (Leaf, bool) -> bool
  {
    (l, pos) => LeafClean(m, row, l, pos)
  }

  // The leaf, or its negation, is something `parse` and `to_sql` can handle.
  ghost predicate CompilesAt(m: Model, leaf: Leaf, pos: bool)
  {
    if pos then Compiles(m, leaf) else EveryLeaf(NegatedAtom(leaf), CompilesIn(m))
  }

  ghost predicate Compilable(m: Model, domain: seq<Token>)
  {
    exists d :: Normalized(domain) == Success(Flat(d)) && NotsUnnested(d) && EveryLeaf(Pushed(d), CompilesIn(m))
  }

  // The truth value of a term that compiles.
  lemma TermTruth(m: Model, row: Row, x: Id, leaf: Leaf)
    requires m.Valid() && Describes(m, row, x)
    requires leaf.Term? && !IsChildOf(leaf) && Compiles(m, leaf)
    ensures var col := Ref(m.TableOf(leaf.field), leaf.field);
            var kind, op := KindOf(m.columns, col).value, NormalizeLeaf(leaf).op;
            && Fits(kind, row(col))
            && SqlTruth(m, row, x, leaf) ==
               (if leaf.right.Scalar? then ScalarTri(kind, col in m.columns, op, leaf.right.item, row(col))
                else ListTri(op == NotIn, leaf.right.items, row(col)))
            && (leaf.right.Scalar? ==> op != In && op != NotIn && op != ChildOf)
            && (leaf.right.Scalar? && col !in m.columns ==> kind == IntegerKind && leaf.right.item != TrueItem)
            && (leaf.right.Many? ==> Typed(kind, leaf.right.items) && (op == In || op == NotIn))
  {
    var n := NormalizeLeaf(leaf);
    var col := Ref(m.TableOf(leaf.field), leaf.field);
    var kind := KindOf(m.columns, col).value;
    assert Fits(kind, row(col));
    match leaf.right
    case Scalar(item) =>
      ScalarSqlTri(col, kind, col in m.columns, n.op, item, row);
    case Many(items) =>
      ListSqlTri(col, kind, n.op == NotIn, items, row);
      ListSqlTyped(col, kind, n.op == NotIn, items);
  }

  // The leaf that stands in the negation of a leaf.
  function NegationSubject(leaf: Leaf): Leaf
  {
    if NegatedAtom(leaf).Atom? then NegatedAtom(leaf).leaf else leaf
  }

  lemma NegatedAtomCases(leaf: Leaf, p: Leaf -> bool, t: TriValuation)
    ensures EveryLeaf(NegatedAtom(leaf), p) <==> p(NegationSubject(leaf))
    ensures NegatedAtom(leaf).Atom? <==> leaf.Constant? || (leaf.op != EqIfSet && leaf.op != ChildOf)
    ensures EvalTri(NegatedAtom(leaf), t) ==
            if NegatedAtom(leaf).Atom? then t(NegationSubject(leaf)) else TriNot(t(leaf))
    ensures leaf.Term? && NegatedAtom(leaf).Atom? ==> NegationSubject(leaf) == Term(leaf.field, Opposite(leaf.op), leaf.right)
    ensures leaf.Constant? ==> NegationSubject(leaf) == Constant(leaf.left, !leaf.negated)
  {
    if !NegatedAtom(leaf).Atom? {
      assert NegatedAtom(leaf) == Neg(Atom(leaf));
      assert EveryLeaf(Atom(leaf), p) <==> p(leaf);
      assert EvalTri(Atom(leaf), t) == t(leaf);
    }
  }

  // A clean leaf is faithful, whichever sign it stands under; for scalars, only a clean one is.
  lemma CleanIsFaithful(m: Model, row: Row, x: Id, leaf: Leaf, pos: bool)
    requires m.Valid() && Describes(m, row, x) && CompilesAt(m, leaf, pos)
    ensures LeafClean(m, row, leaf, pos) ==> Faithful(MeaningOn(m, row, x), TruthOn(m, row, x), leaf, pos)
    ensures leaf.Term? && leaf.right.Scalar? && !IsChildOf(leaf) ==>
              (LeafClean(m, row, leaf, pos) <==> Faithful(MeaningOn(m, row, x), TruthOn(m, row, x), leaf, pos))
  {
    NegatedAtomCases(leaf, CompilesIn(m), TruthOn(m, row, x));
    var subject := if pos then leaf else NegationSubject(leaf);
    assert CompilesIn(m)(subject) == Compiles(m, subject);
    if !leaf.Constant? && !IsChildOf(leaf) {
      if leaf.right.Scalar? {
        ScalarFaithful(m, row, x, leaf, pos);
      } else if LeafClean(m, row, leaf, pos) {
        ListFaithful(m, row, x, leaf, pos);
      }
    }
  }

  lemma ScalarFaithful(m: Model, row: Row, x: Id, leaf: Leaf, pos: bool)
    requires m.Valid() && Describes(m, row, x) && CompilesAt(m, leaf, pos)
    requires leaf.Term? && leaf.right.Scalar? && !IsChildOf(leaf)
    ensures LeafClean(m, row, leaf, pos) <==> Faithful(MeaningOn(m, row, x), TruthOn(m, row, x), leaf, pos)
  {
    NegatedAtomCases(leaf, CompilesIn(m), TruthOn(m, row, x));
    var subject := if pos then leaf else NegationSubject(leaf);
    assert CompilesIn(m)(subject) == Compiles(m, subject);
    TermTruth(m, row, x, subject);
    var col := Ref(m.TableOf(leaf.field), leaf.field);
    var kind, op := KindOf(m.columns, col).value, NormalizeLeaf(leaf).op;
    SubjectOp(leaf, pos);
    NormalizeLeafMeaning(kind, col in m.columns, row(col), leaf.field, leaf.op, leaf.right);
    ScalarExactness(kind, col in m.columns, row(col), op, leaf.right.item);
  }

  // Negation and normalization can be done in either order.
  lemma SubjectOp(leaf: Leaf, pos: bool)
    requires leaf.Term? && leaf.right.Scalar? && !IsChildOf(leaf)
    ensures var op := NormalizeLeaf(leaf).op;
            var subject := if pos then leaf else NegationSubject(leaf);
            && subject.Term? && subject.field == leaf.field && subject.right == leaf.right
            && NormalizeLeaf(subject).op == (if pos || op == EqIfSet || op == ChildOf then op else Opposite(op))
            && (!pos ==> NegatedAtom(leaf).Atom? == (op != EqIfSet && op != ChildOf))
  {
  }

  lemma ListFaithful(m: Model, row: Row, x: Id, leaf: Leaf, pos: bool)
    requires m.Valid() && Describes(m, row, x) && CompilesAt(m, leaf, pos)
    requires leaf.Term? && leaf.right.Many? && !IsChildOf(leaf) && LeafClean(m, row, leaf, pos)
    ensures Faithful(MeaningOn(m, row, x), TruthOn(m, row, x), leaf, pos)
  {
    NegatedAtomCases(leaf, CompilesIn(m), TruthOn(m, row, x));
    var subject := if pos then leaf else NegationSubject(leaf);
    assert CompilesIn(m)(subject) == Compiles(m, subject);
    TermTruth(m, row, x, subject);
    var col := Ref(m.TableOf(leaf.field), leaf.field);
    var kind, op := KindOf(m.columns, col).value, NormalizeLeaf(leaf).op;
    NormalizeLeafMeaning(kind, col in m.columns, row(col), leaf.field, leaf.op, leaf.right);
    ListExactness(kind, (op == NotIn) == pos, leaf.right.items);
    assert ListExact(kind, (op == NotIn) == pos, leaf.right.items, row(col));
  }

  lemma {:induction false} NegatedLeavesCompile(m: Model, d: Dom)
    requires NoNot(d) && EveryLeaf(Negated(d), CompilesIn(m))
    ensures AllLeaves(d, false, (l, pos) => CompilesAt(m, l, pos))
  {
    match d
    case Atom(l) =>
    case Conj(a, b) => NegatedLeavesCompile(m, a); NegatedLeavesCompile(m, b);
    case Disj(a, b) => NegatedLeavesCompile(m, a); NegatedLeavesCompile(m, b);
  }

  lemma {:induction false} PushedLeavesCompile(m: Model, d: Dom)
    requires NotsUnnested(d) && EveryLeaf(Pushed(d), CompilesIn(m))
    ensures AllLeaves(d, true, (l, pos) => CompilesAt(m, l, pos))
  {
    match d
    case Atom(l) =>
    case Neg(e) => NegatedLeavesCompile(m, e);
    case Conj(a, b) => PushedLeavesCompile(m, a); PushedLeavesCompile(m, b);
    case Disj(a, b) => PushedLeavesCompile(m, a); PushedLeavesCompile(m, b);
  }

  lemma {:induction false} CleanLeavesAreFaithful(m: Model, row: Row, x: Id, d: Dom, pos: bool)
    requires m.Valid() && Describes(m, row, x)
    requires AllLeaves(d, pos, (l, pos) => CompilesAt(m, l, pos)) && AllLeaves(d, pos, CleanOn(m, row))
    ensures AllLeaves(d, pos, (l, pos) => Faithful(MeaningOn(m, row, x), TruthOn(m, row, x), l, pos))
  {
    match d
    case Atom(l) => CleanIsFaithful(m, row, x, l, pos);
    case Neg(e) => CleanLeavesAreFaithful(m, row, x, e, !pos);
    case Conj(a, b) => CleanLeavesAreFaithful(m, row, x, a, pos); CleanLeavesAreFaithful(m, row, x, b, pos);
    case Disj(a, b) => CleanLeavesAreFaithful(m, row, x, a, pos); CleanLeavesAreFaithful(m, row, x, b, pos);
  }

  // Terms whose SQL is right on every row and under either sign: constants, child_of,
  // comparisons with False and None, and lists without 0 and None (nor False, for a boolean).
  ghost predicate NullAware(m: Model, leaf: Leaf)
  {
    if leaf.Constant? || IsChildOf(leaf) then true
    else
      var col := Ref(m.TableOf(leaf.field), leaf.field);
      KindOf(m.columns, col).Some? &&
        var kind, op := KindOf(m.columns, col).value, NormalizeLeaf(leaf).op;
        match leaf.right
        case Scalar(item) => (op == Eq || op == Ne) && ShowsNull(kind, item)
        case Many(items) =>
          IntItem(0) !in items && NoneItem !in items && (kind == BooleanKind ==> FalseItem !in items)
  }

  lemma {:induction false} NullAwareIsClean(m: Model, row: Row, d: Dom, pos: bool)
    requires EveryLeaf(d, l => NullAware(m, l))
    ensures AllLeaves(d, pos, CleanOn(m, row))
  {
    match d
    case Atom(l) =>
      if l.Term? && !IsChildOf(l) && l.right.Many? {
        var items := l.right.items;
        assert forall i :: 0 <= i < |items| ==> items[i] in items;
      }
    case Neg(e) => NullAwareIsClean(m, row, e, !pos);
    case Conj(a, b) => NullAwareIsClean(m, row, a, pos); NullAwareIsClean(m, row, b, pos);
    case Disj(a, b) => NullAwareIsClean(m, row, a, pos); NullAwareIsClean(m, row, b, pos);
  }

  // On domains over such terms the emitted SQL is TRUE on exactly the rows that satisfy the
  // domain, NULL columns included.
  lemma NullAwareDomain(m: Model, domain: seq<Token>, d: Dom, c: Compiled, row: Row, x: Id)
    requires Selects(m, domain, c) && Normalized(domain) == Success(Flat(d))
    requires EveryLeaf(d, l => NullAware(m, l)) && Describes(m, row, x)
    ensures Eval(c.query, c.params, row) == T <==> Holds(d, MeaningOn(m, row, x))
  {
    NullAwareIsClean(m, row, d, true);
  }

  // The two expansions of child_of give the same truth value on every record.
  lemma ChildOfFormsAgree(m: Model, ids: seq<Id>, all: seq<Id>, row: Row, x: Id)
    requires m.Valid() && m.stored && ids != [] && forall i :: 0 <= i < |ids| ==> ids[i] in m.parent
    requires forall y :: y in all <==> exists a :: a in ids && Below(Hung(m.parent), y, a)
    requires Describes(m, row, x)
    ensures EvalTri(Join(Or, RangesOf(ids, m.left, m.right)), TruthOn(m, row, x)) == SqlTruth(m, row, x, IdsTerm(all))
  {
    RangeReads(m, ids, row, x);
    forall a | a in ids
      ensures forall y :: Below(Hung(m.parent), y, a) <==> Below(m.parent, y, a)
    {
      HungIsAlike(m.parent, a);
    }
    forall y
      ensures y in all <==> IsBelow(m, ids, y)
    {
    }
    ListedCompiles(m, ids, all);
  }

  // The expression a normalized domain is.
  ghost function NormalizedTree(domain: seq<Token>): (d: Dom)
    requires Normalized(domain).Success?
    ensures Normalized(domain) == Success(Flat(d))
  {
    NormalizedIsOne(domain);
    var d :| Normalized(domain).value == Flat(d);
    d
  }

  lemma NormalizedIsOne(domain: seq<Token>)
    requires Normalized(domain).Success?
    ensures WellFormed(Normalized(domain).value)
  {
    if domain == [] {
      assert TRUE_DOMAIN == Flat(Atom(TRUE_LEAF));
    } else {
      var ds := AcceptedIsFlats(domain, 1);
      NormalizeJoins(ds);
    }
  }

  lemma NotCompilable(m: Model, domain: seq<Token>, d: Dom)
    requires Normalized(domain) == Success(Flat(d))
    requires !NotsUnnested(d) || !EveryLeaf(Pushed(d), CompilesIn(m))
    ensures !Compilable(m, domain)
  {
    forall e | Normalized(domain) == Success(Flat(e))
      ensures e == d
    {
      FlatInjective(d, e);
    }
  }

  // From the state `parse` leaves and the outcome of `to_sql` to the outcome of the compilation.
  lemma PrintedSelects(m: Model, domain: seq<Token>, d: Dom, exp: seq<Token>, tables: Tables, cur: Dom, c: Compiled)
    requires m.Valid() && Normalized(domain) == Success(Flat(d)) && NotsUnnested(d) && EveryLeaf(Pushed(d), CompilesIn(m))
    requires exp == Flat(cur) && SameTruth(m, cur, Pushed(d)) && AllSettled(m, exp, tables)
    requires PrintsAs(m, exp, tables, c.query, c.params)
    ensures Selects(m, domain, c)
  {
    forall e, row, x | Normalized(domain) == Success(Flat(e)) && Describes(m, row, x) && AllLeaves(e, true, CleanOn(m, row))
      ensures Eval(c.query, c.params, row) == T <==> Holds(e, MeaningOn(m, row, x))
    {
      FlatInjective(d, e);
      assert Eval(c.query, c.params, row) == EvalAt(cur, 0, InTables(tables, PrintReading(m, row)));
      SettledReads(m, tables, cur, row, x);
      PushedSelects(m, row, x, d);
    }
  }

  // The condition is TRUE on the rows the domain describes, wherever its leaves are clean.
  ghost predicate Selects(m: Model, domain: seq<Token>, c: Compiled)
  {
    && |c.params| == Slots(c.query) && NoEmptyIn(c.query)
    && forall d, row, x ::
         Normalized(domain) == Success(Flat(d)) && Describes(m, row, x) && AllLeaves(d, true, CleanOn(m, row)) ==>
           (Eval(c.query, c.params, row) == T <==> Holds(d, MeaningOn(m, row, x)))
  }

  lemma CompileDone(m: Model, domain: seq<Token>, d: Dom, exp: seq<Token>, tables: map<int, string>, cur: Dom, broken: bool,
                    r: Result<Compiled, ExpressionError>)
    requires m.Valid() && Normalized(domain) == Success(Flat(d)) && NotsUnnested(d)
    requires Parsed(m, Pushed(d), exp, tables, |exp|, cur, broken)
    requires r.Success? <==> WellFormed(exp) && AllPrint(m, exp, tables)
    requires r.Success? ==> PrintsAs(m, exp, tables, r.value.query, r.value.params)
    ensures r.Success? <==> Compilable(m, domain)
    ensures r.Success? ==> Selects(m, domain, r.value)
  {
    if broken {
      forall e | exp == Flat(e)
        ensures false
      {
        BalanceFlat(e);
      }
      NotCompilable(m, domain, d);
    } else {
      EveryLeafTokens(cur, CompilesIn(m));
      assert AllSettled(m, exp, tables) && WellFormed(exp);
      SettledPrints(m, exp, tables);
      if r.Failure? {
        var i :| 0 <= i < |exp| && exp[i].Atomic? && !Compiles(m, exp[i].leaf);
        assert Flat(cur)[i] == exp[i] && !CompilesIn(m)(exp[i].leaf);
        assert !EveryLeaf(cur, CompilesIn(m));
        NotCompilable(m, domain, d);
      } else {
        PrintedSelects(m, domain, d, exp, tables, cur, r.value);
      }
    }
  }

  // On a row where every leaf is clean, the expression with its '!' pushed down is TRUE in
  // SQL exactly if the domain holds.
  lemma PushedSelects(m: Model, row: Row, x: Id, d: Dom)
    requires m.Valid() && Describes(m, row, x) && NotsUnnested(d)
    requires EveryLeaf(Pushed(d), CompilesIn(m)) && AllLeaves(d, true, CleanOn(m, row))
    ensures EvalTri(Pushed(d), TruthOn(m, row, x)) == T <==> Holds(d, MeaningOn(m, row, x))
  {
    PushedLeavesCompile(m, d);
    CleanLeavesAreFaithful(m, row, x, d, true);
    PushedTruth(d, MeaningOn(m, row, x), TruthOn(m, row, x));
  }

  lemma TermWork(m: Model, exp: seq<Token>, i: nat, leaf: Leaf)
    requires i < |exp| && exp[i].Atomic? && (IsChildOf(leaf) || IsChildOf(exp[i].leaf) ==> leaf == exp[i].leaf)
    ensures var next := exp[i := Atomic(leaf)];
            Work(m, next[i..]) == Work(m, exp[i..]) && (i + 1 < |exp| ==> Work(m, next[i + 1..]) < Work(m, exp[i..]))
  {
    var next := exp[i := Atomic(leaf)];
    assert exp[i..] == [exp[i]] + exp[i + 1..];
    assert next[i..] == [next[i]] + exp[i + 1..] && next[i + 1..] == exp[i + 1..];
    WorkAppend(m, [exp[i]], exp[i + 1..]);
    WorkAppend(m, [next[i]], exp[i + 1..]);
  }

  // ------------------------------------------------------------------
  // parse() with any branches

  // What the branches below answer to a term, `listed` being what child_of_domain() lists.
  ghost function BranchAnswer(m: Model, listed: seq<Id> -> seq<Id>, l: Leaf): Answer
    requires m.Valid()
  {
    if !Compiles(m, l) then Refuse
    else if l.Constant? then Put(Atom(l), None)
    else if IsChildOf(l) then
      var ids := ChildOfIds(l.right).value;
      if m.stored then Put(Join(Or, RangesOf(ids, m.left, m.right)), None)
      else Put(Atom(IdsTerm(listed(ids))), None)
    else Put(Atom(NormalizeLeaf(l)), if l.field in m.inherited then Some(m.inherited[l.field]) else None)
  }

  ghost function BranchCost(m: Model, listed: seq<Id> -> seq<Id>): Costs
    requires m.Valid()
  {
    l => if IsChildOf(l) && Compiles(m, l) then |Flat(BranchAnswer(m, listed, l).e)| else 0
  }

  lemma {:induction false} PlainCost(m: Model, listed: seq<Id> -> seq<Id>, ts: seq<Token>)
    requires m.Valid() && forall i :: 0 <= i < |ts| && ts[i].Atomic? ==> !IsChildOf(ts[i].leaf)
    ensures Cost(BranchCost(m, listed), ts) == |ts|
  {
    if ts != [] {
      PlainCost(m, listed, ts[1..]);
    }
  }

  lemma BranchFits(m: Model, listed: seq<Id> -> seq<Id>, l: Leaf)
    requires m.Valid() && forall ids, x :: x in listed(ids) <==> IsBelow(m, ids, x)
    ensures var answer := BranchAnswer(m, listed, l);
            && (answer.Put? <==> Compiles(m, l))
            && (answer.Put? ==>
                  && Cost(BranchCost(m, listed), Flat(answer.e)[1..]) <= BranchCost(m, listed)(l)
                  && (answer.e.Atom? && !IsConstant(Atomic(answer.e.leaf)) ==> Settled(m, answer.e.leaf, answer.table))
                  && EveryLeaf(answer.e, CompilesIn(m))
                  && forall row, x :: Describes(m, row, x) ==>
                       PutTruth(answer.e, answer.table, TruthOn(m, row, x), PrintReading(m, row)) == SqlTruth(m, row, x, l))
  {
    if !Compiles(m, l) {
    } else if IsChildOf(l) && m.stored {
      RangeCompiles(m, ChildOfIds(l.right).value);
      PlainCost(m, listed, Flat(BranchAnswer(m, listed, l).e)[1..]);
    } else {
      if IsChildOf(l) {
        ListedCompiles(m, ChildOfIds(l.right).value, listed(ChildOfIds(l.right).value));
      } else if l.Term? {
        NormalizedLeafTruth(m, l);
      }
      var e := BranchAnswer(m, listed, l).e;
      assert CompilesIn(m)(e.leaf) == Compiles(m, e.leaf);
      assert forall row, x :: EvalTri(e, TruthOn(m, row, x)) == TruthOn(m, row, x)(e.leaf) == SqlTruth(m, row, x, e.leaf);
    }
  }

  ghost function BranchAnswers(m: Model, listed: seq<Id> -> seq<Id>): Answers
    requires m.Valid()
  {
    (n, l) => BranchAnswer(m, listed, l)
  }

  // The branches below are as any branches have to be: they put an expression of the same truth
  // in the place of every term that compiles, record its table, and walking through it ends.
  lemma BranchesFit(m: Model, listed: seq<Id> -> seq<Id>)
    requires m.Valid() && forall ids, x :: x in listed(ids) <==> IsBelow(m, ids, x)
    ensures Bounded(BranchAnswers(m, listed), BranchCost(m, listed))
    ensures AnswersPair(BranchAnswers(m, listed), (l, table) => Settled(m, l, table))
    ensures forall row, x :: Describes(m, row, x) ==>
              AnswersKeep(BranchAnswers(m, listed), TruthOn(m, row, x), PrintReading(m, row))
    ensures forall n, l :: BranchAnswers(m, listed)(n, l).Put? <==> Compiles(m, l)
  {
    forall l: Leaf
      ensures BranchAnswer(m, listed, l).Put? <==> Compiles(m, l)
      ensures var answer := BranchAnswer(m, listed, l);
              answer.Put? ==>
                && Cost(BranchCost(m, listed), Flat(answer.e)[1..]) <= BranchCost(m, listed)(l)
                && (answer.e.Atom? && !IsConstant(Atomic(answer.e.leaf)) ==> Settled(m, answer.e.leaf, answer.table))
                && forall row, x :: Describes(m, row, x) ==>
                     PutTruth(answer.e, answer.table, TruthOn(m, row, x), PrintReading(m, row)) == TruthOn(m, row, x)(l)
    {
      BranchFits(m, listed, l);
    }
  }

  // On every row the condition has the truth value of the original expression, under any
  // reading of its terms that the branches keep, each term left being read in its table.
  ghost predicate PrintsTruth(m: Model, orig: Dom, answers: Answers, c: Compiled)
  {
    && |c.params| == Slots(c.query) && NoEmptyIn(c.query)
    && forall row, t: TriValuation {:trigger AnswersKeep(answers, t, PrintReading(m, row))} ::
         AnswersKeep(answers, t, PrintReading(m, row)) ==> Eval(c.query, c.params, row) == EvalTri(orig, t)
  }

  lemma RewrittenPrints(m: Model, orig: Dom, answers: Answers, exp: seq<Token>, tables: Tables, cur: Dom, c: Compiled)
    requires exp == Flat(cur) && PrintsAs(m, exp, tables, c.query, c.params)
    requires TruthKept(answers, orig, cur, tables)
    ensures PrintsTruth(m, orig, answers, c)
  {
    forall row, t: TriValuation | AnswersKeep(answers, t, PrintReading(m, row))
      ensures Eval(c.query, c.params, row) == EvalTri(orig, t)
    {
      assert Eval(c.query, c.params, row) == EvalAt(cur, 0, InTables(tables, PrintReading(m, row)));
    }
  }

  // What a branch on an inherited relation leaves, a list of ids with the table of the field
  // recorded for it, is read on the id of that table.
  lemma IdsInRecordedTable(m: Model, ids: seq<Id>, table: string, row: Row)
    requires Ref(table, ID) !in m.columns
    ensures PrintedLeaf(m, IdsTerm(ids), Some(table)).Success?
    ensures PrintTruth(m, row, IdsTerm(ids), Some(table)) == ListTri(false, IdsTerm(ids).right.items, row(Ref(table, ID)))
  {
    var items := IdsTerm(ids).right.items;
    ListSqlTyped(Ref(table, ID), IntegerKind, false, items);
    ListSqlTri(Ref(table, ID), IntegerKind, false, items, row);
  }

  class Expression {
    var exp: seq<Token>
    var tables: map<int, string>   // __field_tables
    const m: Model

    constructor (m: Model)
      ensures this.m == m && exp == [] && tables == map[]
    {
      this.m := m;
      exp, tables := [], map[];
    }

    // child_of_domain() for a term on the ids of the model itself.
    method ChildOfDomain(ids: seq<Id>) returns (r: Option<seq<Token>>, ghost e: Dom)
      requires m.Valid() && (m.stored ==> forall i :: 0 <= i < |ids| ==> ids[i] in m.parent)
      ensures r.None? <==> !m.stored && HasLevel(Hung(m.parent), ids, m.limit)
      ensures r == Some([]) <==> m.stored && ids == []
      ensures r.Some? && r.value != [] ==>
                && r.value == Flat(e) && EveryLeaf(e, CompilesIn(m))
                && forall row, x :: Describes(m, row, x) ==> EvalTri(e, TruthOn(m, row, x)) == Truth(IsBelow(m, ids, x))
      ensures r.Some? ==> |r.value| <= 4 * |ids| + 1
      ensures r.Some? && r.value != [] && r.value[0].Atomic? ==> SettledAt(m, map[], 0, r.value[0])
      ensures r.Some? ==> forall i :: 0 <= i < |r.value| && r.value[i].Atomic? ==> r.value[i].leaf.Term? && !IsChildOf(r.value[i].leaf)
    {
      e := Atom(TRUE_LEAF);
      if m.stored {
        var dom := RangeDomain(ids, m.left, m.right);
        if ids != [] {
          e := Join(Or, RangesOf(ids, m.left, m.right));
          RangeCompiles(m, ids);
        }
        return Some(dom), e;
      }
      var all := RecursiveChildren(ids, m.parent, m.limit);
      if all == None {
        return None, e;
      }
      e := Atom(IdsTerm(all.value));
      ListedCompiles(m, ids, all.value);
      r := Some([Atomic(IdsTerm(all.value))]);
    }

    // Replace the child_of term at i by its expansion.
    method ExpandChildOf(i: nat, ghost orig: Dom, ghost cur0: Dom, ghost broken0: bool)
      returns (r: Option<ExpressionError>, ghost cur: Dom, ghost broken: bool)
      requires m.Valid() && i < |exp| && Parsed(m, orig, exp, tables, i - 1, cur0, broken0)
      requires exp[i].Atomic? && IsChildOf(exp[i].leaf)
      modifies this`exp
      ensures r.Some? ==> !EveryLeaf(orig, CompilesIn(m))
      ensures r.None? ==> i <= |exp| && Parsed(m, orig, exp, tables, i, cur, broken)
      ensures r.None? && i + 1 < |exp| ==> Work(m, exp[i + 1..]) < Work(m, old(exp)[i..])
    {
      r, cur, broken := None, cur0, broken0;
      ParsedLeaf(m, orig, exp, tables, i, cur, broken);
      var ids := ChildOfIds(exp[i].leaf.right);
      if ids == None || (m.stored && exists k :: 0 <= k < |ids.value| && ids.value[k] !in m.parent) {
        return Some(BadTerm), cur, broken;
      }
      var expansion, e := ChildOfDomain(ids.value);
      if expansion == None {
        return Some(BadTerm), cur, broken;
      }
      var dom := expansion.value;
      ExpandStep(m, orig, exp, tables, i, cur, broken, ids.value, dom, e);
      ExpansionWork(m, exp, i, dom);
      if !broken && dom != [] {
        cur := Replaced(cur, i, e);
      }
      broken := broken || dom == [];
      exp := exp[..i] + dom + exp[i + 1..];
    }

    // One pass of the loop at a term.
    method ParseTerm(i: nat, ghost orig: Dom, ghost cur0: Dom, ghost broken0: bool)
      returns (r: Option<ExpressionError>, ghost cur: Dom, ghost broken: bool)
      requires m.Valid() && i < |exp| && Parsed(m, orig, exp, tables, i - 1, cur0, broken0)
      requires exp[i].Atomic? && exp[i].leaf != TRUE_LEAF && exp[i].leaf != FALSE_LEAF
      modifies this`exp, this`tables
      ensures r.Some? ==> !EveryLeaf(orig, CompilesIn(m))
      ensures r.None? ==> i <= |exp| && Parsed(m, orig, exp, tables, i, cur, broken)
      ensures r.None? && i + 1 < |exp| ==> Work(m, exp[i + 1..]) < Work(m, old(exp)[i..])
    {
      r, cur, broken := None, cur0, broken0;
      ParsedLeaf(m, orig, exp, tables, i, cur, broken);
      if exp[i].leaf.Constant? {
        return Some(BadTerm), cur, broken;
      }
      var leaf := NormalizeLeaf(exp[i].leaf);
      NormalizeStep(m, orig, exp, tables, i, cur, broken);
      cur := if broken then cur else Replaced(cur, i, Atom(leaf));
      TermWork(m, exp, i, leaf);
      exp := exp[i := Atomic(leaf)];
      if !IsChildOf(leaf) && m.Known(leaf.field) {
        PlainSettled(m, orig, exp, tables, i, cur, broken);
      }
      if leaf.field in m.inherited {
        tables := tables[i := m.inherited[leaf.field]];
      } else if Ref(m.main, leaf.field) !in m.columns {
        if IsChildOf(leaf) {
          r, cur, broken := ExpandChildOf(i, orig, cur, broken);
        } else if leaf.field != ID {
          return Some(BadTerm), cur, broken;
        }
      }
    }

    // Rewrite the terms of a complete expression, left to right.
    method Parse(ghost orig: Dom, exp0: seq<Token>) returns (r: Option<ExpressionError>, ghost cur: Dom, ghost broken: bool)
      requires m.Valid() && exp0 == Flat(orig)
      modifies this`exp, this`tables
      ensures r.Some? ==> !EveryLeaf(orig, CompilesIn(m))
      ensures r.None? ==> Parsed(m, orig, exp, tables, |exp|, cur, broken)
    {
      exp, tables := exp0, map[];
      cur, broken := orig, false;
      var i := -1;
      while i + 1 < |exp|
        invariant -1 <= i <= |exp|
        invariant Parsed(m, orig, exp, tables, i, cur, broken)
        decreases if i + 1 < |exp| then Work(m, exp[i + 1..]) else 0
      {
        i := i + 1;
        if exp[i].Atomic? && exp[i].leaf != TRUE_LEAF && exp[i].leaf != FALSE_LEAF {
          r, cur, broken := ParseTerm(i, orig, cur, broken);
          if r.Some? {
            return;
          }
        } else {
          PassedOver(m, orig, exp, tables, i, cur, broken);
        }
      }
      r := None;
    }

    // One pass of the printing loop: the token at index i, read with the stack of what is to
    // its right.
    method PrintToken(i: nat, stack0: seq<Condition>, params0: seq<Cell>, ghost ds0: seq<Dom>, ghost cs0: seq<Compiled>)
      returns (r: Option<ExpressionError>, stack: seq<Condition>, params: seq<Cell>, ghost ds: seq<Dom>, ghost cs: seq<Compiled>)
      requires i < |exp| && Printed(m, tables, i + 1, stack0, params0, ds0, cs0)
      ensures r.None? ==> Printed(m, tables, i, stack, params, ds, cs) && Extended(exp[i], ds0) == Some(ds)
      ensures r == Some(BadTerm) <==> exp[i].Atomic? && PrintedLeaf(m, exp[i].leaf, TableAt(tables, i)).Failure?
      ensures r == Some(Unreadable) <==> Extended(exp[i], ds0) == None
    {
      var e := exp[i];
      r, stack, params, ds, cs := None, stack0, params0, ds0, cs0;
      if e.Atomic? {
        var c := PrintedLeaf(m, e.leaf, TableAt(tables, i));
        if c.Failure? {
          r := Some(BadTerm);
        } else {
          PrintLeaf(m, tables, i, stack, params, ds, cs, e.leaf);
          ds, cs := [Atom(e.leaf)] + ds, [c.value] + cs;
          stack, params := stack + [c.value.query], c.value.params + params;
        }
      } else if |stack| < (if e == Not then 1 else 2) {
        r := Some(Unreadable);
      } else {
        var q1 := stack[|stack| - 1];
        assert q1 == cs[0].query;
        if e == Not {
          PrintNot(m, tables, i, stack, params, ds, cs);
          ds, cs := [Neg(ds[0])] + ds[1..], [Compiled(NotC(q1), cs[0].params)] + cs[1..];
          stack := stack[..|stack| - 1] + [NotC(q1)];
        } else {
          var q2 := stack[|stack| - 2];
          assert q2 == cs[1].query;
          PrintBinary(m, tables, i, stack, params, ds, cs, e == And);
          var q := if e == And then AndC(q1, q2) else OrC(q1, q2);
          ds, cs := [if e == And then Conj(ds[0], ds[1]) else Disj(ds[0], ds[1])] + ds[2..],
                    [Compiled(q, cs[0].params + cs[1].params)] + cs[2..];
          stack := stack[..|stack| - 2] + [q];
        }
      }
    }

    // Print the expression, from right to left.
    method ToSql() returns (r: Result<Compiled, ExpressionError>)
      ensures r.Success? <==> WellFormed(exp) && AllPrint(m, exp, tables)
      ensures r == Failure(Unreadable) ==> !WellFormed(exp)
      ensures r == Failure(BadTerm) ==> !AllPrint(m, exp, tables)
      ensures r.Success? ==> PrintsAs(m, exp, tables, r.value.query, r.value.params)
    {
      var stack: seq<Condition> := [];
      var params: seq<Cell> := [];
      ghost var ds: seq<Dom> := [];
      ghost var cs: seq<Compiled> := [];
      var i := |exp|;
      while i > 0
        invariant 0 <= i <= |exp|
        invariant exp[i..] == Flats(ds)
        invariant Printed(m, tables, i, stack, params, ds, cs)
        invariant forall j :: i <= j < |exp| && exp[j].Atomic? ==> PrintedLeaf(m, exp[j].leaf, TableAt(tables, j)).Success?
      {
        i := i - 1;
        ghost var ds0 := ds;
        assert exp[i..] == [exp[i]] + exp[i + 1..];
        var failed;
        failed, stack, params, ds, cs := PrintToken(i, stack, params, ds, cs);
        if failed.Some? {
          if failed.value == Unreadable {
            ShortIsMalformed(exp, i, ds0);
          }
          return Failure(failed.value);
        }
        ExtendedTokens(exp[i], ds0);
      }
      assert exp[0..] == exp;
      if |stack| != 1 {
        NotOneIsMalformed(exp, ds);
        return Failure(Unreadable);
      }
      PrintedAlone(m, tables, exp, stack, params, ds, cs);
      r := Success(Compiled(stack[0], params));
    }

    // parse() with any branches, and to_sql(): as long as they put one expression in the place of
    // a term, the result is one expression, each term in it recorded with the table the branch gave
    // it, it is printed exactly if all its terms can be, and the condition says what the original does.
    method CompileWith(ghost orig: Dom, exp0: seq<Token>, answers: Answers, ghost cost: Costs, ghost good: Pairing)
      returns (r: Result<Compiled, ExpressionError>, ghost cur: Dom)
      requires exp0 == Flat(orig) && Bounded(answers, cost) && AnswersPair(answers, good)
      modifies this`exp, this`tables
      ensures r != Failure(Unreadable)
      ensures (forall n, l :: answers(n, l).Put?) ==>
                && exp == Flat(cur) && PairedUpTo(exp, tables, good, |exp|)
                && (r.Success? <==> AllPrint(m, exp, tables))
      ensures r.Success? ==> exp == Flat(cur) && PairedUpTo(exp, tables, good, |exp|) && AllPrint(m, exp, tables)
      ensures r.Success? ==> PrintsTruth(m, orig, answers, r.value)
    {
      var rewritten;
      rewritten, cur := RewriteTerms(orig, exp0, answers, cost, good);
      if rewritten == None {
        return Failure(BadTerm), cur;
      }
      exp, tables := rewritten.value.0, rewritten.value.1;
      assert WellFormed(exp);
      r := ToSql();
      if r.Success? {
        RewrittenPrints(m, orig, answers, exp, tables, cur, r.value);
      }
    }

    // The whole compilation: normalize, push '!' down, rewrite the terms, print. It succeeds
    // exactly on the domains it can handle, and then the condition is TRUE on the rows the
    // domain describes.
    method Compile(domain: seq<Token>) returns (r: Result<Compiled, ExpressionError>)
      requires m.Valid()
      modifies this`exp, this`tables
      ensures r.Success? <==> Compilable(m, domain)
      ensures r.Success? ==> Selects(m, domain, r.value)
    {
      var normal := Normalize(domain);
      if normal.Failure? {
        return Failure(Unreadable);
      }
      ghost var d := NormalizedTree(domain);
      DistributeNotExpression(d);
      var pushed := DistributeNot(normal.value);
      if pushed == None {
        NotCompilable(m, domain, d);
        return Failure(Unreadable);
      }
      var failed, cur, broken := Parse(Pushed(d), pushed.value);
      if failed.Some? {
        NotCompilable(m, domain, d);
        return Failure(failed.value);
      }
      r := ToSql();
      CompileDone(m, domain, d, exp, tables, cur, broken, r);
    }
  }
}
