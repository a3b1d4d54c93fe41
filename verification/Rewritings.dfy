/** What the rewriting loop of `parse` may do with the terms of an expression, whichever branch
    does it: put an expression in the place of a term, and record a table for it. */
module Rewritings {
  import opened Wrappers
  import opened Sql
  import opened Domains
  import opened DomainTruth

  // What a pass makes of a term: it is refused, or e comes in its place and `table` is recorded
  // at its index. A term left as it is, is put in its own place.
  datatype Answer = Refuse | Put(e: Dom, table: Option<string>)

  // The answer may depend on anything that changes from pass to pass.
  type Answers = (nat, Leaf) -> Answer

  type Tables = map<int, string>

  // The passes that terms and what comes in their place are worth.
  type Costs = Leaf -> nat

  function Cost(cost: Costs, ts: seq<Token>): nat
  {
    if ts == [] then 0 else (if ts[0].Atomic? then 1 + cost(ts[0].leaf) else 1) + Cost(cost, ts[1..])
  }

  lemma {:induction false} CostAppend(cost: Costs, a: seq<Token>, b: seq<Token>)
    ensures Cost(cost, a + b) == Cost(cost, a) + Cost(cost, b)
  {
    if a == [] {
      assert a + b == b;
    } else {
      assert (a + b)[1..] == a[1..] + b;
      CostAppend(cost, a[1..], b);
    }
  }

  // What is walked through after a replacement, all but its first token, costs less than the term did.
  ghost predicate Bounded(answers: Answers, cost: Costs)
  {
    forall n, l {:trigger answers(n, l)} :: answers(n, l).Put? ==> Cost(cost, Flat(answers(n, l).e)[1..]) <= cost(l)
  }

  lemma ReplacementCosts(cost: Costs, exp: seq<Token>, i: nat, e: Dom)
    requires i < |exp| && exp[i].Atomic? && Cost(cost, Flat(e)[1..]) <= cost(exp[i].leaf)
    ensures Cost(cost, Spliced(exp, i, Flat(e))[i + 1..]) < Cost(cost, exp[i..])
  {
    assert exp[i..] == [exp[i]] + exp[i + 1..];
    CostAppend(cost, [exp[i]], exp[i + 1..]);
    assert Spliced(exp, i, Flat(e))[i + 1..] == Flat(e)[1..] + exp[i + 1..];
    CostAppend(cost, Flat(e)[1..], exp[i + 1..]);
  }

  function TableAt(tables: Tables, i: int): Option<string>
  {
    if i in tables then Some(tables[i]) else None
  }

  predicate IsConstant(t: Token)
  {
    t == Atomic(TRUE_LEAF) || t == Atomic(FALSE_LEAF)
  }

  // Whether a term may stand with the table recorded for it.
  type Pairing = (Leaf, Option<string>) -> bool

  // A term that is left in its place goes with the table recorded in that pass.
  ghost predicate AnswersPair(answers: Answers, good: Pairing)
  {
    forall n, l {:trigger answers(n, l)} ::
      answers(n, l).Put? && answers(n, l).e.Atom? && !IsConstant(Atomic(answers(n, l).e.leaf)) ==>
        good(answers(n, l).e.leaf, answers(n, l).table)
  }

  ghost predicate PairedAt(exp: seq<Token>, tables: Tables, good: Pairing, j: int)
  {
    0 <= j < |exp| && exp[j].Atomic? && !IsConstant(exp[j]) ==> good(exp[j].leaf, TableAt(tables, j))
  }

  // Up to index i each term stands with the table recorded for it, and nothing is recorded beyond.
  ghost predicate PairedUpTo(exp: seq<Token>, tables: Tables, good: Pairing, i: int)
  {
    && (forall j {:trigger PairedAt(exp, tables, good, j)} :: j <= i ==> PairedAt(exp, tables, good, j))
    && (forall k :: k in tables ==> 0 <= k <= i)
  }

  // The truth of a term in the table recorded for it.
  type Reading = (Leaf, Option<string>) -> Tri

  // A term put in place is read in its table; those of a longer expression are still to come.
  function PutTruth(e: Dom, table: Option<string>, t: TriValuation, u: Reading): Tri
  {
    if e.Atom? then u(e.leaf, table) else EvalTri(e, t)
  }

  ghost predicate ConstantsAlike(t: TriValuation, u: Reading)
  {
    forall table {:trigger u(TRUE_LEAF, table)} {:trigger u(FALSE_LEAF, table)} ::
      u(TRUE_LEAF, table) == t(TRUE_LEAF) && u(FALSE_LEAF, table) == t(FALSE_LEAF)
  }

  // What comes in the place of a term has the truth t of the term.
  ghost predicate AnswersKeep(answers: Answers, t: TriValuation, u: Reading)
  {
    && ConstantsAlike(t, u)
    && forall n, l {:trigger answers(n, l)} :: answers(n, l).Put? ==> PutTruth(answers(n, l).e, answers(n, l).table, t, u) == t(l)
  }

  // Up to index i terms are read in the tables recorded for them, beyond as in the original.
  function ReadUpTo(tables: Tables, i: int, t: TriValuation, u: Reading): PlacedValuation
  {
    (j: int, l: Leaf) => if j <= i then u(l, TableAt(tables, j)) else t(l)
  }

  // One pass at a term keeps one expression, each term with its table, and the truth.
  lemma OnePut(exp: seq<Token>, cur: Dom, tables: Tables, good: Pairing, i: nat, e: Dom, table: Option<string>)
    requires exp == Flat(cur) && i < |exp| && exp[i].Atomic? && PairedUpTo(exp, tables, good, i - 1)
    requires e.Atom? && !IsConstant(Atomic(e.leaf)) ==> good(e.leaf, table)
    ensures var exp' := Spliced(exp, i, Flat(e));
            var tables' := if table.Some? then tables[i := table.value] else tables;
            && exp' == Flat(Replaced(cur, i, e)) && i < |exp'|
            && PairedUpTo(exp', tables', good, i)
            && forall t: TriValuation, u: Reading :: PutTruth(e, table, t, u) == t(exp[i].leaf) ==>
                 EvalAt(Replaced(cur, i, e), 0, ReadUpTo(tables', i, t, u)) == EvalAt(cur, 0, ReadUpTo(tables, i - 1, t, u))
  {
    var exp' := Spliced(exp, i, Flat(e));
    var tables' := if table.Some? then tables[i := table.value] else tables;
    ReplacedFlat(cur, i, e);
    forall j | j <= i
      ensures PairedAt(exp', tables', good, j)
    {
      if 0 <= j < i {
        assert exp'[j] == exp[j] && PairedAt(exp, tables, good, j);
      } else if j == i {
        assert exp'[i] == Flat(e)[0];
      }
    }
    forall t: TriValuation, u: Reading | PutTruth(e, table, t, u) == t(exp[i].leaf)
      ensures EvalAt(Replaced(cur, i, e), 0, ReadUpTo(tables', i, t, u)) == EvalAt(cur, 0, ReadUpTo(tables, i - 1, t, u))
    {
      PutReads(e, tables, i, table, t, u);
      assert forall j :: j < i ==> TableAt(tables', j) == TableAt(tables, j);
      ReplacedAt(cur, 0, i, e, ReadUpTo(tables, i - 1, t, u), ReadUpTo(tables', i, t, u), t);
    }
  }

  lemma PutReads(e: Dom, tables: Tables, i: nat, table: Option<string>, t: TriValuation, u: Reading)
    requires i !in tables
    ensures var tables' := if table.Some? then tables[i := table.value] else tables;
            EvalAt(e, i, ReadUpTo(tables', i, t, u)) == PutTruth(e, table, t, u)
  {
    var tables' := if table.Some? then tables[i := table.value] else tables;
    var w := ReadUpTo(tables', i, t, u);
    assert TableAt(tables', i) == table;
    match e
    case Atom(l) =>
    case Neg(d) => PlacedTruth(d, i + 1, w, t);
    case Conj(a, b) => PlacedTruth(a, i + 1, w, t); PlacedTruth(b, i + 1 + |Flat(a)|, w, t);
    case Disj(a, b) => PlacedTruth(a, i + 1, w, t); PlacedTruth(b, i + 1 + |Flat(a)|, w, t);
  }

  // A pass at an operator or constant changes nothing.
  lemma OneSkipped(exp: seq<Token>, cur: Dom, tables: Tables, good: Pairing, i: nat)
    requires exp == Flat(cur) && PairedUpTo(exp, tables, good, i - 1) && i < |exp| && (!exp[i].Atomic? || IsConstant(exp[i]))
    ensures PairedUpTo(exp, tables, good, i)
    ensures forall t: TriValuation, u: Reading :: ConstantsAlike(t, u) ==>
              EvalAt(cur, 0, ReadUpTo(tables, i, t, u)) == EvalAt(cur, 0, ReadUpTo(tables, i - 1, t, u))
  {
    forall j | j <= i
      ensures PairedAt(exp, tables, good, j)
    {
      assert j <= i - 1 ==> PairedAt(exp, tables, good, j);
    }
    forall t: TriValuation, u: Reading | ConstantsAlike(t, u)
      ensures EvalAt(cur, 0, ReadUpTo(tables, i, t, u)) == EvalAt(cur, 0, ReadUpTo(tables, i - 1, t, u))
    {
      var v, w := ReadUpTo(tables, i, t, u), ReadUpTo(tables, i - 1, t, u);
      assert u(TRUE_LEAF, TableAt(tables, i)) == t(TRUE_LEAF) && u(FALSE_LEAF, TableAt(tables, i)) == t(FALSE_LEAF);
      forall k | 0 <= k < |exp| && exp[k].Atomic?
        ensures v(0 + k, exp[k].leaf) == w(0 + k, exp[k].leaf)
      {
        assert v(k, exp[k].leaf) == w(k, exp[k].leaf);
      }
      AgreeingAt(cur, 0, v, w);
    }
  }

  lemma SkippedCosts(cost: Costs, exp: seq<Token>, i: nat)
    requires i < |exp|
    ensures Cost(cost, exp[i + 1..]) < Cost(cost, exp[i..])
  {
    assert exp[i..] == [exp[i]] + exp[i + 1..];
    CostAppend(cost, [exp[i]], exp[i + 1..]);
  }

  // Every term read in the table recorded for it.
  function InTables(tables: Tables, u: Reading): PlacedValuation
  {
    (j: int, l: Leaf) => u(l, TableAt(tables, j))
  }

  // What the loop keeps: read as far as it has come, the expression has the truth of the original.
  ghost predicate KeptUpTo(answers: Answers, orig: Dom, cur: Dom, tables: Tables, i: int)
  {
    forall t: TriValuation, u: Reading :: AnswersKeep(answers, t, u) ==> EvalAt(cur, 0, ReadUpTo(tables, i, t, u)) == EvalTri(orig, t)
  }

  // Whatever truth of the terms the branches keep, the expression, with each term read in its
  // table, has the truth of the original.
  ghost predicate TruthKept(answers: Answers, orig: Dom, cur: Dom, tables: Tables)
  {
    forall t: TriValuation, u: Reading :: AnswersKeep(answers, t, u) ==> EvalAt(cur, 0, InTables(tables, u)) == EvalTri(orig, t)
  }

  lemma PairedToTheEnd(exp: seq<Token>, tables: Tables, good: Pairing)
    requires PairedUpTo(exp, tables, good, |exp| - 1)
    ensures PairedUpTo(exp, tables, good, |exp|)
  {
    forall j
      ensures PairedAt(exp, tables, good, j)
    {
      if j < |exp| {
        assert j <= |exp| - 1;
      }
    }
  }

  lemma KeptAtFirst(answers: Answers, orig: Dom)
    ensures KeptUpTo(answers, orig, orig, map[], -1)
  {
    forall t: TriValuation, u: Reading | AnswersKeep(answers, t, u)
      ensures EvalAt(orig, 0, ReadUpTo(map[], -1, t, u)) == EvalTri(orig, t)
    {
      PlacedTruth(orig, 0, ReadUpTo(map[], -1, t, u), t);
    }
  }

  lemma KeptToTheEnd(answers: Answers, orig: Dom, cur: Dom, tables: Tables)
    requires KeptUpTo(answers, orig, cur, tables, |Flat(cur)| - 1)
    ensures TruthKept(answers, orig, cur, tables)
  {
    forall t: TriValuation, u: Reading | AnswersKeep(answers, t, u)
      ensures EvalAt(cur, 0, InTables(tables, u)) == EvalAt(cur, 0, ReadUpTo(tables, |Flat(cur)| - 1, t, u))
    {
      AgreeingAt(cur, 0, InTables(tables, u), ReadUpTo(tables, |Flat(cur)| - 1, t, u));
    }
  }

  lemma PassKeeps(answers: Answers, orig: Dom, exp: seq<Token>, cur: Dom, tables: Tables, good: Pairing, i: nat, pass: nat)
    requires exp == Flat(cur) && i < |exp| && exp[i].Atomic? && PairedUpTo(exp, tables, good, i - 1)
    requires KeptUpTo(answers, orig, cur, tables, i - 1) && AnswersPair(answers, good) && answers(pass, exp[i].leaf).Put?
    ensures var e, table := answers(pass, exp[i].leaf).e, answers(pass, exp[i].leaf).table;
            var exp', next := Spliced(exp, i, Flat(e)), Replaced(cur, i, e);
            var tables' := if table.Some? then tables[i := table.value] else tables;
            && exp' == Flat(next) && i < |exp'| && PairedUpTo(exp', tables', good, i) && KeptUpTo(answers, orig, next, tables', i)
  {
    OnePut(exp, cur, tables, good, i, answers(pass, exp[i].leaf).e, answers(pass, exp[i].leaf).table);
  }

  lemma SkipKeeps(answers: Answers, orig: Dom, exp: seq<Token>, cur: Dom, tables: Tables, good: Pairing, i: nat)
    requires exp == Flat(cur) && PairedUpTo(exp, tables, good, i - 1) && i < |exp| && (!exp[i].Atomic? || IsConstant(exp[i]))
    requires KeptUpTo(answers, orig, cur, tables, i - 1)
    ensures PairedUpTo(exp, tables, good, i) && KeptUpTo(answers, orig, cur, tables, i)
  {
    OneSkipped(exp, cur, tables, good, i);
  }

  // The loop of `parse`, whatever its branches answer: as long as each of them puts one expression
  // in the place of a term, and walking through these ends, the loop ends with one expression in
  // which each term stands with the table recorded for it. None when a term is refused.
  method RewriteTerms(ghost orig: Dom, exp0: seq<Token>, answers: Answers, ghost cost: Costs, ghost good: Pairing)
    returns (r: Option<(seq<Token>, Tables)>, ghost cur: Dom)
    requires exp0 == Flat(orig) && Bounded(answers, cost) && AnswersPair(answers, good)
    ensures r.Some? ==> r.value.0 == Flat(cur) && PairedUpTo(r.value.0, r.value.1, good, |r.value.0|)
    ensures r.Some? ==> TruthKept(answers, orig, cur, r.value.1)
    ensures (forall n, l :: answers(n, l).Put?) ==> r.Some?
  {
    var exp, tables := exp0, map[];
    cur := orig;
    KeptAtFirst(answers, orig);
    var i := -1;
    var pass := 0;
    ghost var work := Cost(cost, exp[i + 1..]);
    while i + 1 < |exp|
      invariant -1 <= i < |exp| && exp == Flat(cur) && PairedUpTo(exp, tables, good, i)
      invariant KeptUpTo(answers, orig, cur, tables, i)
      invariant work == Cost(cost, exp[i + 1..])
      decreases work
    {
      i := i + 1;
      if !exp[i].Atomic? || IsConstant(exp[i]) {
        SkipKeeps(answers, orig, exp, cur, tables, good, i);
        SkippedCosts(cost, exp, i);
        work := Cost(cost, exp[i + 1..]);
        continue;
      }
      var leaf := exp[i].leaf;
      var answer := answers(pass, leaf);
      if answer.Refuse? {
        return None, cur;
      }
      PassKeeps(answers, orig, exp, cur, tables, good, i, pass);
      ReplacementCosts(cost, exp, i, answer.e);
      work := Cost(cost, Spliced(exp, i, Flat(answer.e))[i + 1..]);
      tables := if answer.table.Some? then tables[i := answer.table.value] else tables;
      exp := exp[..i] + Flat(answer.e) + exp[i + 1..];
      cur := Replaced(cur, i, answer.e);
      pass := pass + 1;
    }
    PairedToTheEnd(exp, tables, good);
    KeptToTheEnd(answers, orig, cur, tables);
    r := Some((exp, tables));
  }
}
