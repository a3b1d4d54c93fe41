/** Expressions in three-valued logic: evaluation, replacing one term by an expression, and
    reading the prefix notation from right to left. */
module DomainTruth {
  import opened Wrappers
  import opened Domains
  import opened Negation
  import opened Sql

  type TriValuation = Leaf -> Tri

  function EvalTri(d: Dom, t: TriValuation): Tri
  {
    match d
    case Atom(l) => t(l)
    case Neg(e) => TriNot(EvalTri(e, t))
    case Conj(a, b) => TriAnd(EvalTri(a, t), EvalTri(b, t))
    case Disj(a, b) => TriOr(EvalTri(a, t), EvalTri(b, t))
  }

  // p holds of every leaf of d.
  ghost predicate EveryLeaf(d: Dom, p: Leaf -> bool)
  {
    match d
    case Atom(l) => p(l)
    case Neg(e) => EveryLeaf(e, p)
    case Conj(a, b) => EveryLeaf(a, p) && EveryLeaf(b, p)
    case Disj(a, b) => EveryLeaf(a, p) && EveryLeaf(b, p)
  }

  ghost predicate LeavesIn(ts: seq<Token>, p: Leaf -> bool)
  {
    forall i :: 0 <= i < |ts| && ts[i].Atomic? ==> p(ts[i].leaf)
  }

  lemma LeavesInAppend(a: seq<Token>, b: seq<Token>, p: Leaf -> bool)
    ensures LeavesIn(a + b, p) <==> LeavesIn(a, p) && LeavesIn(b, p)
  {
    var ts := a + b;
    assert forall i :: 0 <= i < |a| ==> ts[i] == a[i];
    assert forall i :: 0 <= i < |b| ==> ts[|a| + i] == b[i];
    if LeavesIn(a, p) && LeavesIn(b, p) {
      forall i | 0 <= i < |ts| && ts[i].Atomic?
        ensures p(ts[i].leaf)
      {
        if i >= |a| {
          assert ts[i] == b[i - |a|];
        }
      }
    }
    if LeavesIn(ts, p) {
      forall i | 0 <= i < |b| && b[i].Atomic?
        ensures p(b[i].leaf)
      {
        assert ts[|a| + i] == b[i];
      }
    }
  }

  // The same on the tokens.
  lemma {:induction false} EveryLeafTokens(d: Dom, p: Leaf -> bool)
    ensures EveryLeaf(d, p) <==> LeavesIn(Flat(d), p)
  {
    match d
    case Atom(l) =>
      assert Flat(d)[0] == Atomic(l);
    case Neg(e) =>
      EveryLeafTokens(e, p);
      LeavesInAppend([Not], Flat(e), p);
    case Conj(a, b) =>
      EveryLeafTokens(a, p);
      EveryLeafTokens(b, p);
      LeavesInAppend([And], Flat(a), p);
      LeavesInAppend([And] + Flat(a), Flat(b), p);
    case Disj(a, b) =>
      EveryLeafTokens(a, p);
      EveryLeafTokens(b, p);
      LeavesInAppend([Or], Flat(a), p);
      LeavesInAppend([Or] + Flat(a), Flat(b), p);
  }

  // ------------------------------------------------------------------
  // Replacing the term at one position by an expression

  function Spliced(ts: seq<Token>, i: nat, piece: seq<Token>): seq<Token>
    requires i < |ts|
  {
    ts[..i] + piece + ts[i + 1..]
  }

  lemma SplicedOne(ts: seq<Token>, i: nat, t: Token)
    requires i < |ts|
    ensures ts[i := t] == Spliced(ts, i, [t])
  {
  }

  function Size(d: Dom): nat
  {
    match d
    case Atom(_) => 1
    case Neg(e) => 1 + Size(e)
    case Conj(a, b) => 1 + Size(a) + Size(b)
    case Disj(a, b) => 1 + Size(a) + Size(b)
  }

  function Replaced(d: Dom, i: nat, e: Dom): Dom
    requires i < |Flat(d)| && Flat(d)[i].Atomic?
  {
    match d
    case Atom(l) => e
    case Neg(s) => Neg(Replaced(s, i - 1, e))
    case Conj(a, b) =>
      if i <= |Flat(a)| then Conj(Replaced(a, i - 1, e), b) else Conj(a, Replaced(b, i - 1 - |Flat(a)|, e))
    case Disj(a, b) =>
      if i <= |Flat(a)| then Disj(Replaced(a, i - 1, e), b) else Disj(a, Replaced(b, i - 1 - |Flat(a)|, e))
  }

  // The result is one expression again, ...
  lemma {:induction false} ReplacedFlat(d: Dom, i: nat, e: Dom)
    requires i < |Flat(d)| && Flat(d)[i].Atomic?
    ensures Flat(Replaced(d, i, e)) == Spliced(Flat(d), i, Flat(e))
    decreases Size(d)
  {
    match d
    case Atom(l) =>
    case Neg(s) =>
      ReplacedFlat(s, i - 1, e);
      NegFlat(s, i, e);
    case Conj(a, b) =>
      ReplacedInPair(And, a, b, i, e);
      ConjFlat(a, b, i, e);
    case Disj(a, b) =>
      ReplacedInPair(Or, a, b, i, e);
      DisjFlat(a, b, i, e);
  }

  lemma NegFlat(s: Dom, i: nat, e: Dom)
    requires 0 < i < 1 + |Flat(s)| && Flat(Neg(s))[i].Atomic? && Flat(s)[i - 1].Atomic?
    requires Flat(Replaced(s, i - 1, e)) == Spliced(Flat(s), i - 1, Flat(e))
    ensures Flat(Replaced(Neg(s), i, e)) == Spliced(Flat(Neg(s)), i, Flat(e))
  {
    SpliceInside([Not], Flat(s), [], i - 1, Flat(e));
  }

  // Both halves of a pair: what the pair with the part replaced is written as.
  function PairFlat(op: Token, a: Dom, b: Dom, i: nat, e: Dom): seq<Token>
    requires 0 < i < 1 + |Flat(a)| + |Flat(b)|
    requires if i <= |Flat(a)| then Flat(a)[i - 1].Atomic? else Flat(b)[i - 1 - |Flat(a)|].Atomic?
  {
    if i <= |Flat(a)| then [op] + Flat(Replaced(a, i - 1, e)) + Flat(b)
    else [op] + Flat(a) + Flat(Replaced(b, i - 1 - |Flat(a)|, e))
  }

  lemma ConjFlat(a: Dom, b: Dom, i: nat, e: Dom)
    requires 0 < i < 1 + |Flat(a)| + |Flat(b)| && Flat(Conj(a, b))[i].Atomic?
    requires if i <= |Flat(a)| then Flat(a)[i - 1].Atomic? else Flat(b)[i - 1 - |Flat(a)|].Atomic?
    ensures Flat(Replaced(Conj(a, b), i, e)) == PairFlat(And, a, b, i, e)
  {
  }

  lemma DisjFlat(a: Dom, b: Dom, i: nat, e: Dom)
    requires 0 < i < 1 + |Flat(a)| + |Flat(b)| && Flat(Disj(a, b))[i].Atomic?
    requires if i <= |Flat(a)| then Flat(a)[i - 1].Atomic? else Flat(b)[i - 1 - |Flat(a)|].Atomic?
    ensures Flat(Replaced(Disj(a, b), i, e)) == PairFlat(Or, a, b, i, e)
  {
  }

  lemma PairIndex(op: Token, a: seq<Token>, b: seq<Token>, i: nat)
    requires 0 < i < 1 + |a| + |b|
    ensures ([op] + a + b)[i] == if i <= |a| then a[i - 1] else b[i - 1 - |a|]
  {
  }

  lemma {:induction false} ReplacedInPair(op: Token, a: Dom, b: Dom, i: nat, e: Dom)
    requires 0 < i < 1 + |Flat(a)| + |Flat(b)| && ([op] + Flat(a) + Flat(b))[i].Atomic?
    ensures if i <= |Flat(a)| then Flat(a)[i - 1].Atomic? else Flat(b)[i - 1 - |Flat(a)|].Atomic?
    ensures PairFlat(op, a, b, i, e) == Spliced([op] + Flat(a) + Flat(b), i, Flat(e))
    decreases Size(a) + Size(b)
  {
    PairIndex(op, Flat(a), Flat(b), i);
    SpliceInPair(op, Flat(a), Flat(b), i, Flat(e));
    if i <= |Flat(a)| {
      ReplacedFlat(a, i - 1, e);
    } else {
      ReplacedFlat(b, i - 1 - |Flat(a)|, e);
    }
  }

  // ... with the truth value of the old one wherever the new part has that of the term ...
  lemma {:induction false} ReplacedTruth(d: Dom, i: nat, e: Dom, t: TriValuation)
    requires i < |Flat(d)| && Flat(d)[i].Atomic?
    requires EvalTri(e, t) == t(Flat(d)[i].leaf)
    ensures EvalTri(Replaced(d, i, e), t) == EvalTri(d, t)
  {
    match d
    case Atom(l) =>
    case Neg(s) => ReplacedTruth(s, i - 1, e, t);
    case Conj(a, b) => if i <= |Flat(a)| { ReplacedTruth(a, i - 1, e, t); } else { ReplacedTruth(b, i - 1 - |Flat(a)|, e, t); }
    case Disj(a, b) => if i <= |Flat(a)| { ReplacedTruth(a, i - 1, e, t); } else { ReplacedTruth(b, i - 1 - |Flat(a)|, e, t); }
  }

  // Valuations that agree on the leaves of an expression give it one truth value.
  lemma {:induction false} AgreeingTruth(d: Dom, p: Leaf -> bool, t: TriValuation, u: TriValuation)
    requires EveryLeaf(d, p) && forall l :: p(l) ==> t(l) == u(l)
    ensures EvalTri(d, t) == EvalTri(d, u)
  {
    match d
    case Atom(l) =>
    case Neg(e) => AgreeingTruth(e, p, t, u);
    case Conj(a, b) => AgreeingTruth(a, p, t, u); AgreeingTruth(b, p, t, u);
    case Disj(a, b) => AgreeingTruth(a, p, t, u); AgreeingTruth(b, p, t, u);
  }

  // The truth of a leaf may depend on where it stands.
  type PlacedValuation = (int, Leaf) -> Tri

  // d, read with its first token at index `at`.
  function EvalAt(d: Dom, at: int, v: PlacedValuation): Tri
  {
    match d
    case Atom(l) => v(at, l)
    case Neg(e) => TriNot(EvalAt(e, at + 1, v))
    case Conj(a, b) => TriAnd(EvalAt(a, at + 1, v), EvalAt(b, at + 1 + |Flat(a)|, v))
    case Disj(a, b) => TriOr(EvalAt(a, at + 1, v), EvalAt(b, at + 1 + |Flat(a)|, v))
  }

  ghost predicate AgreeOn(ts: seq<Token>, at: int, v: PlacedValuation, w: PlacedValuation)
  {
    forall k :: 0 <= k < |ts| && ts[k].Atomic? ==> v(at + k, ts[k].leaf) == w(at + k, ts[k].leaf)
  }

  lemma AgreeOnPair(op: Token, a: seq<Token>, b: seq<Token>, at: int, v: PlacedValuation, w: PlacedValuation)
    requires AgreeOn([op] + a + b, at, v, w)
    ensures AgreeOn(a, at + 1, v, w) && AgreeOn(b, at + 1 + |a|, v, w)
  {
    var ts := [op] + a + b;
    forall k | 0 <= k < |a| && a[k].Atomic?
      ensures v(at + 1 + k, a[k].leaf) == w(at + 1 + k, a[k].leaf)
    {
      assert ts[k + 1] == a[k];
    }
    forall k | 0 <= k < |b| && b[k].Atomic?
      ensures v(at + 1 + |a| + k, b[k].leaf) == w(at + 1 + |a| + k, b[k].leaf)
    {
      assert ts[1 + |a| + k] == b[k];
    }
  }

  lemma {:induction false} AgreeingAt(d: Dom, at: int, v: PlacedValuation, w: PlacedValuation)
    requires AgreeOn(Flat(d), at, v, w)
    ensures EvalAt(d, at, v) == EvalAt(d, at, w)
  {
    match d
    case Atom(l) =>
      assert Flat(d)[0].leaf == l;
    case Neg(e) =>
      assert [Not] + Flat(e) + [] == Flat(d);
      AgreeOnPair(Not, Flat(e), [], at, v, w);
      AgreeingAt(e, at + 1, v, w);
    case Conj(a, b) =>
      AgreeOnPair(And, Flat(a), Flat(b), at, v, w);
      AgreeingAt(a, at + 1, v, w);
      AgreeingAt(b, at + 1 + |Flat(a)|, v, w);
    case Disj(a, b) =>
      AgreeOnPair(Or, Flat(a), Flat(b), at, v, w);
      AgreeingAt(a, at + 1, v, w);
      AgreeingAt(b, at + 1 + |Flat(a)|, v, w);
  }

  // Where the place does not matter, it is the truth of before.
  lemma {:induction false} PlacedTruth(d: Dom, at: int, v: PlacedValuation, t: TriValuation)
    requires forall j, l :: j >= at ==> v(j, l) == t(l)
    ensures EvalAt(d, at, v) == EvalTri(d, t)
  {
    match d
    case Atom(l) =>
    case Neg(e) => PlacedTruth(e, at + 1, v, t);
    case Conj(a, b) => PlacedTruth(a, at + 1, v, t); PlacedTruth(b, at + 1 + |Flat(a)|, v, t);
    case Disj(a, b) => PlacedTruth(a, at + 1, v, t); PlacedTruth(b, at + 1 + |Flat(a)|, v, t);
  }

  // What is before place p is read alike, and what is after it alike everywhere, when the term
  // at p gives way to `grown` tokens.
  ghost predicate AgreeAround(p: int, grown: nat, v: PlacedValuation, w: PlacedValuation, t: TriValuation)
  {
    && (forall j, l :: j < p ==> v(j, l) == w(j, l))
    && (forall j, l :: j > p ==> v(j, l) == t(l))
    && (forall j, l :: j >= p + grown ==> w(j, l) == t(l))
  }

  // Then replacing a term by an expression that reads like it keeps the truth.
  lemma {:induction false} ReplacedAt(d: Dom, at: int, i: nat, e: Dom, v: PlacedValuation, w: PlacedValuation, t: TriValuation)
    requires i < |Flat(d)| && Flat(d)[i].Atomic?
    requires EvalAt(e, at + i, w) == v(at + i, Flat(d)[i].leaf)
    requires AgreeAround(at + i, |Flat(e)|, v, w, t)
    ensures EvalAt(Replaced(d, i, e), at, w) == EvalAt(d, at, v)
    decreases Size(d)
  {
    match d
    case Atom(l) =>
    case Neg(s) =>
      assert at + 1 + (i - 1) == at + i && Flat(s)[i - 1] == Flat(d)[i];
      ReplacedAt(s, at + 1, i - 1, e, v, w, t);
    case Conj(a, b) =>
      PairIndex(And, Flat(a), Flat(b), i);
      ReplacedInPairAt(a, b, at, i, Flat(d)[i].leaf, e, v, w, t);
      ConjAt(a, b, at, i, e, v, w);
    case Disj(a, b) =>
      PairIndex(Or, Flat(a), Flat(b), i);
      ReplacedInPairAt(a, b, at, i, Flat(d)[i].leaf, e, v, w, t);
      DisjAt(a, b, at, i, e, v, w);
  }

  // The parts of a pair read as before.
  ghost predicate PairReads(a: Dom, b: Dom, at: int, i: nat, e: Dom, v: PlacedValuation, w: PlacedValuation)
    requires 0 < i < 1 + |Flat(a)| + |Flat(b)|
    requires if i <= |Flat(a)| then Flat(a)[i - 1].Atomic? else Flat(b)[i - 1 - |Flat(a)|].Atomic?
  {
    if i <= |Flat(a)| then
      var a' := Replaced(a, i - 1, e);
      && EvalAt(a', at + 1, w) == EvalAt(a, at + 1, v)
      && EvalAt(b, at + 1 + |Flat(a')|, w) == EvalAt(b, at + 1 + |Flat(a)|, v)
    else
      var b' := Replaced(b, i - 1 - |Flat(a)|, e);
      && EvalAt(a, at + 1, w) == EvalAt(a, at + 1, v)
      && EvalAt(b', at + 1 + |Flat(a)|, w) == EvalAt(b, at + 1 + |Flat(a)|, v)
  }

  lemma ConjAt(a: Dom, b: Dom, at: int, i: nat, e: Dom, v: PlacedValuation, w: PlacedValuation)
    requires i < |Flat(Conj(a, b))| && Flat(Conj(a, b))[i].Atomic?
    requires 0 < i < 1 + |Flat(a)| + |Flat(b)|
    requires if i <= |Flat(a)| then Flat(a)[i - 1].Atomic? else Flat(b)[i - 1 - |Flat(a)|].Atomic?
    requires PairReads(a, b, at, i, e, v, w)
    ensures EvalAt(Replaced(Conj(a, b), i, e), at, w) == EvalAt(Conj(a, b), at, v)
  {
  }

  lemma DisjAt(a: Dom, b: Dom, at: int, i: nat, e: Dom, v: PlacedValuation, w: PlacedValuation)
    requires i < |Flat(Disj(a, b))| && Flat(Disj(a, b))[i].Atomic?
    requires 0 < i < 1 + |Flat(a)| + |Flat(b)|
    requires if i <= |Flat(a)| then Flat(a)[i - 1].Atomic? else Flat(b)[i - 1 - |Flat(a)|].Atomic?
    requires PairReads(a, b, at, i, e, v, w)
    ensures EvalAt(Replaced(Disj(a, b), i, e), at, w) == EvalAt(Disj(a, b), at, v)
  {
  }

  lemma {:induction false} ReplacedInPairAt(a: Dom, b: Dom, at: int, i: nat, leaf: Leaf, e: Dom,
                                            v: PlacedValuation, w: PlacedValuation, t: TriValuation)
    requires 0 < i < 1 + |Flat(a)| + |Flat(b)|
    requires Atomic(leaf) == if i <= |Flat(a)| then Flat(a)[i - 1] else Flat(b)[i - 1 - |Flat(a)|]
    requires EvalAt(e, at + i, w) == v(at + i, leaf)
    requires AgreeAround(at + i, |Flat(e)|, v, w, t)
    ensures PairReads(a, b, at, i, e, v, w)
    decreases Size(a) + Size(b)
  {
    if i <= |Flat(a)| {
      assert at + 1 + (i - 1) == at + i;
      ReplacedAt(a, at + 1, i - 1, e, v, w, t);
      ReplacedFlat(a, i - 1, e);
      PlacedTruth(b, at + 1 + |Flat(a)|, v, t);
      PlacedTruth(b, at + 1 + |Flat(Replaced(a, i - 1, e))|, w, t);
    } else {
      AgreeingAt(a, at + 1, v, w);
      assert at + 1 + |Flat(a)| + (i - 1 - |Flat(a)|) == at + i;
      ReplacedAt(b, at + 1 + |Flat(a)|, i - 1 - |Flat(a)|, e, v, w, t);
    }
  }

  // ... and with its other leaves.
  lemma {:induction false} ReplacedLeaves(d: Dom, i: nat, e: Dom, p: Leaf -> bool)
    requires i < |Flat(d)| && Flat(d)[i].Atomic?
    requires EveryLeaf(e, p) <==> p(Flat(d)[i].leaf)
    ensures EveryLeaf(Replaced(d, i, e), p) <==> EveryLeaf(d, p)
  {
    match d
    case Atom(l) =>
    case Neg(s) => ReplacedLeaves(s, i - 1, e, p);
    case Conj(a, b) => if i <= |Flat(a)| { ReplacedLeaves(a, i - 1, e, p); } else { ReplacedLeaves(b, i - 1 - |Flat(a)|, e, p); }
    case Disj(a, b) => if i <= |Flat(a)| { ReplacedLeaves(a, i - 1, e, p); } else { ReplacedLeaves(b, i - 1 - |Flat(a)|, e, p); }
  }

  lemma SpliceInside(pre: seq<Token>, mid: seq<Token>, post: seq<Token>, i: nat, piece: seq<Token>)
    requires i < |mid|
    ensures Spliced(pre + mid + post, |pre| + i, piece) == pre + Spliced(mid, i, piece) + post
    ensures pre + mid + [] == pre + mid
    ensures pre + Spliced(mid, i, piece) + [] == pre + Spliced(mid, i, piece)
  {
    var all := pre + mid + post;
    assert all[..|pre| + i] == pre + mid[..i];
    assert all[|pre| + i + 1..] == mid[i + 1..] + post;
  }

  lemma SpliceInPair(op: Token, a: seq<Token>, b: seq<Token>, i: nat, piece: seq<Token>)
    requires 0 < i < 1 + |a| + |b|
    ensures Spliced([op] + a + b, i, piece) ==
            if i <= |a| then [op] + Spliced(a, i - 1, piece) + b else [op] + a + Spliced(b, i - 1 - |a|, piece)
  {
    if i <= |a| {
      SpliceInside([op], a, b, i - 1, piece);
    } else {
      SpliceInside([op] + a, b, [], i - 1 - |a|, piece);
    }
  }

  // Operands due minus operands supplied: 1 for every expression.
  function Balance(ts: seq<Token>): int
  {
    if ts == [] then 0
    else (match ts[0] case Atomic(_) => 1 case Not => 0 case _ => -1) + Balance(ts[1..])
  }

  lemma {:induction false} BalanceAppend(a: seq<Token>, b: seq<Token>)
    ensures Balance(a + b) == Balance(a) + Balance(b)
  {
    if a == [] {
      assert a + b == b;
    } else {
      assert (a + b)[1..] == a[1..] + b;
      BalanceAppend(a[1..], b);
    }
  }

  lemma {:induction false} BalanceFlat(d: Dom)
    ensures Balance(Flat(d)) == 1
  {
    match d
    case Atom(l) =>
    case Neg(e) =>
      BalanceFlat(e);
    case Conj(a, b) =>
      BalanceFlat(a);
      BalanceFlat(b);
      BalanceAppend([And] + Flat(a), Flat(b));
      BalanceAppend([And], Flat(a));
    case Disj(a, b) =>
      BalanceFlat(a);
      BalanceFlat(b);
      BalanceAppend([Or] + Flat(a), Flat(b));
      BalanceAppend([Or], Flat(a));
  }

  lemma BalanceSpliced(ts: seq<Token>, i: nat, piece: seq<Token>)
    requires i < |ts| && ts[i].Atomic?
    ensures Balance(Spliced(ts, i, piece)) == Balance(ts) - 1 + Balance(piece)
  {
    assert ts == ts[..i] + ([ts[i]] + ts[i + 1..]);
    BalanceAppend(ts[..i], [ts[i]] + ts[i + 1..]);
    BalanceAppend([ts[i]], ts[i + 1..]);
    BalanceAppend(ts[..i] + piece, ts[i + 1..]);
    BalanceAppend(ts[..i], piece);
  }

  // Deleting a term leaves nothing that can be read.
  lemma DeletedTermIsMalformed(ts: seq<Token>, i: nat)
    requires WellFormed(ts) && i < |ts| && ts[i].Atomic?
    ensures !WellFormed(Spliced(ts, i, []))
  {
    var d :| ts == Flat(d);
    BalanceFlat(d);
    BalanceSpliced(ts, i, []);
    forall e | Spliced(ts, i, []) == Flat(e)
      ensures false
    {
      BalanceFlat(e);
    }
  }

  // ------------------------------------------------------------------
  // Pushing '!' to the terms, in three-valued logic

  // v and t agree on the leaf itself (pos) or on its negation (!pos).
  ghost predicate Faithful(v: Valuation, t: TriValuation, leaf: Leaf, pos: bool)
  {
    if pos then t(leaf) == T <==> v(leaf) else EvalTri(NegatedAtom(leaf), t) == T <==> !v(leaf)
  }

  lemma {:induction false} NegatedTruth(d: Dom, v: Valuation, t: TriValuation)
    requires NoNot(d) && AllLeaves(d, false, (l, pos) => Faithful(v, t, l, pos))
    ensures EvalTri(Negated(d), t) == T <==> !Holds(d, v)
  {
    match d
    case Atom(l) =>
    case Conj(a, b) =>
      NegatedTruth(a, v, t);
      NegatedTruth(b, v, t);
    case Disj(a, b) =>
      NegatedTruth(a, v, t);
      NegatedTruth(b, v, t);
  }

  // The expression with its '!' pushed down is TRUE where the original holds.
  lemma {:induction false} PushedTruth(d: Dom, v: Valuation, t: TriValuation)
    requires NotsUnnested(d) && AllLeaves(d, true, (l, pos) => Faithful(v, t, l, pos))
    ensures EvalTri(Pushed(d), t) == T <==> Holds(d, v)
  {
    match d
    case Atom(l) =>
    case Neg(e) =>
      NegatedTruth(e, v, t);
    case Conj(a, b) =>
      PushedTruth(a, v, t);
      PushedTruth(b, v, t);
    case Disj(a, b) =>
      PushedTruth(a, v, t);
      PushedTruth(b, v, t);
  }

  // ------------------------------------------------------------------
  // Right-to-left reading

  // What remains when a list of complete expressions is read from the right one token further.
  function Extended(t: Token, ds: seq<Dom>): Option<seq<Dom>>
  {
    match t
    case Atomic(l) => Some([Atom(l)] + ds)
    case Not => if |ds| < 1 then None else Some([Neg(ds[0])] + ds[1..])
    case And => if |ds| < 2 then None else Some([Conj(ds[0], ds[1])] + ds[2..])
    case Or => if |ds| < 2 then None else Some([Disj(ds[0], ds[1])] + ds[2..])
  }

  lemma ExtendedTokens(t: Token, ds: seq<Dom>)
    requires Extended(t, ds).Some?
    ensures Flats(Extended(t, ds).value) == [t] + Flats(ds)
  {
    var es := Extended(t, ds).value;
    match t
    case Atomic(l) =>
      assert es[1..] == ds;
    case Not =>
      assert es[1..] == ds[1..];
    case _ =>
      assert es[1..] == ds[2..] && ds[1..][1..] == ds[2..];
      assert Flats(ds) == Flat(ds[0]) + (Flat(ds[1]) + Flats(ds[2..]));
  }

  lemma {:induction false} BalanceFlats(ds: seq<Dom>)
    ensures Balance(Flats(ds)) == |ds|
  {
    if ds != [] {
      BalanceFlat(ds[0]);
      BalanceAppend(Flat(ds[0]), Flats(ds[1..]));
      BalanceFlats(ds[1..]);
    }
  }

  // Read from the right, an expression never runs short of operands.
  lemma {:induction false} SuffixBalance(d: Dom, k: nat)
    requires k <= |Flat(d)|
    ensures Balance(Flat(d)[k..]) >= if k < |Flat(d)| then 1 else 0
    decreases Size(d)
  {
    if k == 0 {
      BalanceFlat(d);
      assert Flat(d)[0..] == Flat(d);
    } else {
      match d
      case Atom(l) =>
        assert Flat(d)[k..] == [];
      case Neg(e) =>
        assert Flat(d)[k..] == Flat(e)[k - 1..];
        SuffixBalance(e, k - 1);
      case Conj(a, b) =>
        SuffixOfPair(And, a, b, k);
      case Disj(a, b) =>
        SuffixOfPair(Or, a, b, k);
    }
  }

  lemma {:induction false} SuffixOfPair(op: Token, a: Dom, b: Dom, k: nat)
    requires 0 < k <= 1 + |Flat(a)| + |Flat(b)|
    ensures Balance(([op] + Flat(a) + Flat(b))[k..]) >= if k < 1 + |Flat(a)| + |Flat(b)| then 1 else 0
    decreases Size(a) + Size(b)
  {
    DropInPair(op, Flat(a), Flat(b), k);
    if k <= |Flat(a)| {
      SuffixBalance(a, k - 1);
      BalanceFlat(b);
      BalanceAppend(Flat(a)[k - 1..], Flat(b));
    } else {
      SuffixBalance(b, k - 1 - |Flat(a)|);
    }
  }

  lemma DropInPair(op: Token, a: seq<Token>, b: seq<Token>, k: nat)
    requires 0 < k <= 1 + |a| + |b|
    ensures ([op] + a + b)[k..] == if k <= |a| then a[k - 1..] + b else b[k - 1 - |a|..]
  {
  }

  // An operator short of operands cannot be completed to the left into one expression.
  lemma ShortIsMalformed(ts: seq<Token>, k: nat, ds: seq<Dom>)
    requires k < |ts| && ts[k + 1..] == Flats(ds) && Extended(ts[k], ds) == None
    ensures !WellFormed(ts)
  {
    BalanceFlats(ds);
    assert ts[k..] == [ts[k]] + Flats(ds);
    BalanceAppend([ts[k]], Flats(ds));
    assert Balance(ts[k..]) < 1;
    forall d | ts == Flat(d)
      ensures false
    {
      SuffixBalance(d, k);
    }
  }
}
