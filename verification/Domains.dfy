/** Domains: the prefix-notation token lists of the ORM, the expression trees they stand
    for, and the truth of a domain given the truth of its terms. */
module Domains {
  import opened Wrappers

  // A scalar on the right of a term, or one entry of a list there.
  datatype Item = FalseItem | TrueItem | NoneItem | IntItem(n: int)

  datatype Operand = Scalar(item: Item) | Many(items: seq<Item>)

  // The term operators; `=?` is EqIfSet.
  datatype TermOp = Eq | Ne | Lt | Le | Gt | Ge | EqIfSet | In | NotIn | ChildOf

  // Constant(k, false) is the term (k, '=', 1), Constant(k, true) is (k, '!=', 1).
  datatype Leaf = Constant(left: int, negated: bool) | Term(field: string, op: TermOp, right: Operand)

  const TRUE_LEAF := Constant(1, false)
  const FALSE_LEAF := Constant(0, false)

  datatype Token = Not | And | Or | Atomic(leaf: Leaf)

  const TRUE_DOMAIN: seq<Token> := [Atomic(TRUE_LEAF)]
  const FALSE_DOMAIN: seq<Token> := [Atomic(FALSE_LEAF)]

  datatype Dom = Atom(leaf: Leaf) | Neg(d: Dom) | Conj(a: Dom, b: Dom) | Disj(a: Dom, b: Dom)

  // The prefix notation of one expression ...
  function Flat(d: Dom): (ts: seq<Token>)
    ensures |ts| > 0
  {
    match d
    case Atom(l) => [Atomic(l)]
    case Neg(e) => [Not] + Flat(e)
    case Conj(a, b) => [And] + Flat(a) + Flat(b)
    case Disj(a, b) => [Or] + Flat(a) + Flat(b)
  }

  // ... and of several, one after the other.
  function Flats(ds: seq<Dom>): seq<Token>
  {
    if ds == [] then [] else Flat(ds[0]) + Flats(ds[1..])
  }

  type Valuation = Leaf -> bool

  function Holds(d: Dom, v: Valuation): bool
  {
    match d
    case Atom(l) => v(l)
    case Neg(e) => !Holds(e, v)
    case Conj(a, b) => Holds(a, v) && Holds(b, v)
    case Disj(a, b) => Holds(a, v) || Holds(b, v)
  }

  ghost predicate WellFormed(ts: seq<Token>)
  {
    exists d :: ts == Flat(d)
  }

  // The truth of a token list; the empty list reads as true, anything else that is not one
  // complete expression has no truth.
  ghost predicate Means(ts: seq<Token>, v: Valuation)
  {
    ts == [] || exists d :: ts == Flat(d) && Holds(d, v)
  }

  // Reading one expression off the front of a token list.
  function Parse(ts: seq<Token>): (r: Option<(Dom, seq<Token>)>)
    ensures r.Some? ==> |r.value.1| < |ts|
    decreases |ts|
  {
    if ts == [] then None
    else match ts[0]
      case Atomic(l) => Some((Atom(l), ts[1..]))
      case Not =>
        (match Parse(ts[1..])
         case None => None
         case Some((e, rest)) => Some((Neg(e), rest)))
      case _ =>
        (match Parse(ts[1..])
         case None => None
         case Some((a, rest)) =>
           match Parse(rest)
           case None => None
           case Some((b, rest2)) => Some((if ts[0] == And then Conj(a, b) else Disj(a, b), rest2)))
  }

  lemma {:induction false} ParseFlat(d: Dom, rest: seq<Token>)
    ensures Parse(Flat(d) + rest) == Some((d, rest))
  {
    var ts := Flat(d) + rest;
    match d
    case Atom(l) =>
      assert ts[1..] == rest;
    case Neg(e) =>
      assert ts[1..] == Flat(e) + rest;
      ParseFlat(e, rest);
    case Conj(a, b) =>
      assert ts[1..] == Flat(a) + (Flat(b) + rest);
      ParseFlat(a, Flat(b) + rest);
      ParseFlat(b, rest);
    case Disj(a, b) =>
      assert ts[1..] == Flat(a) + (Flat(b) + rest);
      ParseFlat(a, Flat(b) + rest);
      ParseFlat(b, rest);
  }

  // A token list is at most one expression.
  lemma FlatInjective(d: Dom, e: Dom)
    requires Flat(d) == Flat(e)
    ensures d == e
  {
    ParseFlat(d, []);
    ParseFlat(e, []);
    assert Flat(d) + [] == Flat(d) && Flat(e) + [] == Flat(e);
  }

  lemma MeansFlat(d: Dom, v: Valuation)
    ensures Means(Flat(d), v) <==> Holds(d, v)
  {
    forall e | Flat(d) == Flat(e)
      ensures d == e
    {
      FlatInjective(d, e);
    }
  }

  lemma FlatsOne(d: Dom)
    ensures Flats([d]) == Flat(d)
  {
    assert [d][1..] == [];
  }

  lemma {:induction false} FlatsAppend(ds: seq<Dom>, es: seq<Dom>)
    ensures Flats(ds + es) == Flats(ds) + Flats(es)
  {
    if ds == [] {
      assert ds + es == es;
    } else {
      assert (ds + es)[0] == ds[0] && (ds + es)[1..] == ds[1..] + es;
      FlatsAppend(ds[1..], es);
    }
  }

  // ------------------------------------------------------------------
  // Joining expressions with one operator

  // ((d0 op d1) op d2) ... for op = And or Or.
  function Join(op: Token, ds: seq<Dom>): Dom
    requires ds != [] && (op == And || op == Or)
  {
    if |ds| == 1 then ds[0]
    else
      var init := Join(op, ds[..|ds| - 1]);
      if op == And then Conj(init, ds[|ds| - 1]) else Disj(init, ds[|ds| - 1])
  }

  function Repeat(t: Token, n: nat): (ts: seq<Token>)
    ensures |ts| == n
  {
    if n == 0 then [] else [t] + Repeat(t, n - 1)
  }

  lemma Regroup<T>(op: seq<T>, ops: seq<T>, a: seq<T>, b: seq<T>)
    ensures op + (ops + a) + b == op + ops + (a + b)
    ensures op + (ops + (a + b)) == op + ops + a + b
  {
  }

  // One operator fewer than there are operands, in front.
  lemma {:induction false} FlatJoin(op: Token, ds: seq<Dom>)
    requires ds != [] && (op == And || op == Or)
    ensures Flat(Join(op, ds)) == Repeat(op, |ds| - 1) + Flats(ds)
  {
    if |ds| == 1 {
      assert ds == [ds[0]];
      FlatsOne(ds[0]);
    } else {
      var init, last := ds[..|ds| - 1], ds[|ds| - 1];
      FlatJoin(op, init);
      FlatsAppend(init, [last]);
      FlatsOne(last);
      assert ds == init + [last];
      Regroup([op], Repeat(op, |init| - 1), Flats(init), Flat(last));
    }
  }

  lemma {:induction false} HoldsJoin(op: Token, ds: seq<Dom>, v: Valuation)
    requires ds != [] && (op == And || op == Or)
    ensures Holds(Join(op, ds), v) <==>
            if op == And then forall i :: 0 <= i < |ds| ==> Holds(ds[i], v) else exists i :: 0 <= i < |ds| && Holds(ds[i], v)
  {
    if |ds| > 1 {
      var init := ds[..|ds| - 1];
      HoldsJoin(op, init, v);
      assert forall i :: 0 <= i < |init| ==> ds[i] == init[i];
      if op == Or && exists i :: 0 <= i < |ds| && Holds(ds[i], v) {
        var i :| 0 <= i < |ds| && Holds(ds[i], v);
        assert i < |init| ==> Holds(init[i], v);
      }
    }
  }
}
