/** distribute_not(): pushing '!' down to the terms. */
module Negation {
  import opened Wrappers
  import opened Domains

  // negate(): one term, or '!' and the term when its operator has no opposite.
  function NegateLeaf(leaf: Leaf): seq<Token>
  {
    match leaf
    case Constant(k, negated) => [Atomic(Constant(k, !negated))]
    case Term(field, op, right) =>
      match op
      case In => [Atomic(Term(field, NotIn, right))]
      case NotIn => [Atomic(Term(field, In, right))]
      case Lt => [Atomic(Term(field, Ge, right))]
      case Gt => [Atomic(Term(field, Le, right))]
      case Le => [Atomic(Term(field, Gt, right))]
      case Ge => [Atomic(Term(field, Lt, right))]
      case Eq => [Atomic(Term(field, Ne, right))]
      case Ne => [Atomic(Term(field, Eq, right))]
      case EqIfSet => [Not, Atomic(leaf)]
      case ChildOf => [Not, Atomic(leaf)]
  }

  // distribute_negate(): the negation of the expression at the front of the list, and what
  // follows it. There is no branch for '!' (nor for the end of the list): the call fails.
  function DistributeNegate(ts: seq<Token>): (r: Option<(seq<Token>, seq<Token>)>)
    ensures r.Some? ==> |r.value.1| < |ts|
    decreases |ts|
  {
    if ts == [] then None
    else match ts[0]
      case Atomic(l) => Some((NegateLeaf(l), ts[1..]))
      case Not => None
      case _ =>
        (match DistributeNegate(ts[1..])
         case None => None
         case Some((done1, todo1)) =>
           match DistributeNegate(todo1)
           case None => None
           case Some((done2, todo2)) => Some(([if ts[0] == And then Or else And] + done1 + done2, todo2)))
  }

  function DistributeNot(ts: seq<Token>): Option<seq<Token>>
    decreases |ts|
  {
    if ts == [] then Some([])
    else if ts[0] != Not then
      match DistributeNot(ts[1..])
      case None => None
      case Some(rest) => Some([ts[0]] + rest)
    else
      match DistributeNegate(ts[1..])
      case None => None
      case Some((done, todo)) =>
        match DistributeNot(todo)
        case None => None
        case Some(rest) => Some(done + rest)
  }

  // ------------------------------------------------------------------
  // The same on expressions

  function NegatedAtom(leaf: Leaf): (d: Dom)
    ensures Flat(d) == NegateLeaf(leaf)
  {
    match leaf
    case Term(_, EqIfSet, _) => Neg(Atom(leaf))
    case Term(_, ChildOf, _) => Neg(Atom(leaf))
    case _ => assert |NegateLeaf(leaf)| == 1; Atom(NegateLeaf(leaf)[0].leaf)
  }

  predicate NoNot(d: Dom)
  {
    match d
    case Atom(_) => true
    case Neg(_) => false
    case Conj(a, b) => NoNot(a) && NoNot(b)
    case Disj(a, b) => NoNot(a) && NoNot(b)
  }

  // No '!' inside a negated expression.
  predicate NotsUnnested(d: Dom)
  {
    match d
    case Atom(_) => true
    case Neg(e) => NoNot(e)
    case Conj(a, b) => NotsUnnested(a) && NotsUnnested(b)
    case Disj(a, b) => NotsUnnested(a) && NotsUnnested(b)
  }

  function Negated(d: Dom): Dom
    requires NoNot(d)
  {
    match d
    case Atom(l) => NegatedAtom(l)
    case Conj(a, b) => Disj(Negated(a), Negated(b))
    case Disj(a, b) => Conj(Negated(a), Negated(b))
  }

  function Pushed(d: Dom): Dom
    requires NotsUnnested(d)
  {
    match d
    case Atom(l) => d
    case Neg(e) => Negated(e)
    case Conj(a, b) => Conj(Pushed(a), Pushed(b))
    case Disj(a, b) => Disj(Pushed(a), Pushed(b))
  }

  lemma {:induction false} DistributeNegateFlat(d: Dom, rest: seq<Token>)
    ensures DistributeNegate(Flat(d) + rest) == if NoNot(d) then Some((Flat(Negated(d)), rest)) else None
  {
    var ts := Flat(d) + rest;
    match d
    case Atom(l) =>
      assert ts[1..] == rest;
    case Neg(e) =>
    case Conj(a, b) =>
      assert ts[1..] == Flat(a) + (Flat(b) + rest);
      DistributeNegateFlat(a, Flat(b) + rest);
      DistributeNegateFlat(b, rest);
    case Disj(a, b) =>
      assert ts[1..] == Flat(a) + (Flat(b) + rest);
      DistributeNegateFlat(a, Flat(b) + rest);
      DistributeNegateFlat(b, rest);
  }

  lemma {:induction false} DistributeNotFlat(d: Dom, rest: seq<Token>)
    ensures DistributeNot(Flat(d) + rest) ==
            if NotsUnnested(d) && DistributeNot(rest).Some? then Some(Flat(Pushed(d)) + DistributeNot(rest).value) else None
  {
    var ts := Flat(d) + rest;
    match d
    case Atom(l) =>
      assert ts[1..] == rest;
    case Neg(e) =>
      assert ts[1..] == Flat(e) + rest;
      DistributeNegateFlat(e, rest);
    case Conj(a, b) =>
      assert ts[1..] == Flat(a) + (Flat(b) + rest);
      DistributeNotFlat(a, Flat(b) + rest);
      DistributeNotFlat(b, rest);
      if NotsUnnested(d) && DistributeNot(rest).Some? {
        Regroup([ts[0]], Flat(Pushed(a)), Flat(Pushed(b)), DistributeNot(rest).value);
      }
    case Disj(a, b) =>
      assert ts[1..] == Flat(a) + (Flat(b) + rest);
      DistributeNotFlat(a, Flat(b) + rest);
      DistributeNotFlat(b, rest);
      if NotsUnnested(d) && DistributeNot(rest).Some? {
        Regroup([ts[0]], Flat(Pushed(a)), Flat(Pushed(b)), DistributeNot(rest).value);
      }
  }

  // distribute_not() succeeds exactly on the expressions without nested '!'.
  lemma DistributeNotExpression(d: Dom)
    ensures DistributeNot(Flat(d)) == if NotsUnnested(d) then Some(Flat(Pushed(d))) else None
  {
    DistributeNotFlat(d, []);
    assert Flat(d) + [] == Flat(d);
    if NotsUnnested(d) {
      assert Flat(Pushed(d)) + [] == Flat(Pushed(d));
    }
  }

  // The leaves of d under an even (pos) or odd number of '!' all satisfy a condition.
  ghost predicate AllLeaves(d: Dom, pos: bool, p: (Leaf, bool) -> bool)
  {
    match d
    case Atom(l) => p(l, pos)
    case Neg(e) => AllLeaves(e, !pos, p)
    case Conj(a, b) => AllLeaves(a, pos, p) && AllLeaves(b, pos, p)
    case Disj(a, b) => AllLeaves(a, pos, p) && AllLeaves(b, pos, p)
  }

  // A term and its negation are complementary under v.
  ghost predicate Complementary(v: Valuation, leaf: Leaf)
  {
    Holds(NegatedAtom(leaf), v) <==> !v(leaf)
  }

  lemma {:induction false} NegatedMeaning(d: Dom, v: Valuation)
    requires NoNot(d) && AllLeaves(d, false, (l, pos) => pos || Complementary(v, l))
    ensures Holds(Negated(d), v) <==> !Holds(d, v)
  {
    match d
    case Atom(l) =>
    case Conj(a, b) =>
      NegatedMeaning(a, v);
      NegatedMeaning(b, v);
    case Disj(a, b) =>
      NegatedMeaning(a, v);
      NegatedMeaning(b, v);
  }

  // Pushing '!' to the terms keeps the meaning wherever each negated term and its opposite
  // are complementary.
  lemma {:induction false} PushedMeaning(d: Dom, v: Valuation)
    requires NotsUnnested(d) && AllLeaves(d, true, (l, pos) => pos || Complementary(v, l))
    ensures Holds(Pushed(d), v) <==> Holds(d, v)
  {
    match d
    case Atom(l) =>
    case Neg(e) =>
      NegatedMeaning(e, v);
    case Conj(a, b) =>
      PushedMeaning(a, v);
      PushedMeaning(b, v);
    case Disj(a, b) =>
      PushedMeaning(a, v);
      PushedMeaning(b, v);
  }
}
