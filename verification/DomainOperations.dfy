/** normalize(), AND() and OR(): making implicit conjunctions explicit and combining
    normalized domains. */
module DomainOperations {
  import opened Wrappers
  import opened Domains

  datatype NormalizeError = AssertionError

  function Arity(t: Token): nat
  {
    match t
    case Not => 1
    case And => 2
    case Or => 2
    case Atomic(_) => 0
  }

  // Reading ts while `expected` expressions are still due: the number of '&' that have to be
  // put in front, or None when an expression is left incomplete.
  function MissingAnds(ts: seq<Token>, expected: nat): Option<nat>
  {
    if ts == [] then if expected == 0 then Some(0) else None
    else
      var due := if expected == 0 then 1 else expected;
      match MissingAnds(ts[1..], due - 1 + Arity(ts[0]))
      case None => None
      case Some(m) => Some(if expected == 0 then m + 1 else m)
  }

  // The result of normalize().
  function Normalized(domain: seq<Token>): Result<seq<Token>, NormalizeError>
  {
    if domain == [] then Success(TRUE_DOMAIN)
    else match MissingAnds(domain, 1)
      case None => Failure(AssertionError)
      case Some(m) => Success(Repeat(And, m) + domain)
  }

  method Normalize(domain: seq<Token>) returns (r: Result<seq<Token>, NormalizeError>)
    ensures r == Normalized(domain)
  {
    if domain == [] {
      return Success(TRUE_DOMAIN);
    }
    var result: seq<Token> := [];
    var expected := 1;
    ghost var ands := 0;
    var i := 0;
    while i < |domain|
      invariant 0 <= i <= |domain|
      invariant expected >= 0 && (i == 0 ==> expected == 1)
      invariant result == Repeat(And, ands) + domain[..i]
      invariant MissingAnds(domain, 1) == match MissingAnds(domain[i..], expected)
                                           case None => None
                                           case Some(m) => Some(m + ands)
    {
      var token := domain[i];
      assert domain[i..][1..] == domain[i + 1..];
      if expected == 0 {
        result := [And] + result;
        ands := ands + 1;
        expected := 1;
      }
      result := result + [token];
      expected := expected + Arity(token) - 1;
      assert domain[..i + 1] == domain[..i] + [token];
      i := i + 1;
    }
    assert domain[..i] == domain && domain[i..] == [];
    r := if expected == 0 then Success(result) else Failure(AssertionError);
  }

  lemma {:induction false} MissingAndsFlat(d: Dom, rest: seq<Token>, expected: nat)
    requires expected > 0
    ensures MissingAnds(Flat(d) + rest, expected) == MissingAnds(rest, expected - 1)
  {
    var ts := Flat(d) + rest;
    match d
    case Atom(l) =>
      assert ts[1..] == rest;
    case Neg(e) =>
      assert ts[1..] == Flat(e) + rest;
      MissingAndsFlat(e, rest, expected);
    case Conj(a, b) =>
      assert ts[1..] == Flat(a) + (Flat(b) + rest);
      MissingAndsFlat(a, Flat(b) + rest, expected + 1);
      MissingAndsFlat(b, rest, expected);
    case Disj(a, b) =>
      assert ts[1..] == Flat(a) + (Flat(b) + rest);
      MissingAndsFlat(a, Flat(b) + rest, expected + 1);
      MissingAndsFlat(b, rest, expected);
  }

  lemma {:induction false} MissingAndsFlats(ds: seq<Dom>)
    ensures MissingAnds(Flats(ds), 0) == Some(|ds|)
    ensures ds != [] ==> MissingAnds(Flats(ds), 1) == Some(|ds| - 1)
  {
    if ds != [] {
      MissingAndsFlats(ds[1..]);
      MissingAndsFlat(ds[0], Flats(ds[1..]), 1);
      var ts := Flats(ds);
      assert MissingAnds(ts, 0) == match MissingAnds(ts, 1) case None => None case Some(m) => Some(m + 1);
    }
  }

  // What normalize() accepts is a concatenation of complete expressions.
  lemma {:induction false} AcceptedIsFlats(ts: seq<Token>, expected: nat) returns (ds: seq<Dom>)
    requires MissingAnds(ts, expected).Some?
    ensures ts == Flats(ds) && |ds| == expected + MissingAnds(ts, expected).value
  {
    if ts == [] {
      ds := [];
    } else {
      var due := if expected == 0 then 1 else expected;
      var es := AcceptedIsFlats(ts[1..], due - 1 + Arity(ts[0]));
      assert ts == [ts[0]] + ts[1..];
      match ts[0]
      case Atomic(l) =>
        ds := [Atom(l)] + es;
      case Not =>
        ds := [Neg(es[0])] + es[1..];
      case And =>
        ds := [Conj(es[0], es[1])] + es[2..];
        assert es[1..][1..] == es[2..];
      case Or =>
        ds := [Disj(es[0], es[1])] + es[2..];
        assert es[1..][1..] == es[2..];
    }
  }

  // normalize() turns a concatenation of complete expressions into one expression for their
  // conjunction, and rejects everything else.
  lemma NormalizeJoins(ds: seq<Dom>)
    requires ds != []
    ensures Normalized(Flats(ds)) == Success(Flat(Join(And, ds)))
  {
    MissingAndsFlats(ds);
    FlatJoin(And, ds);
    assert |Flat(ds[0])| > 0;
  }

  lemma NormalizeMeaning(ds: seq<Dom>, v: Valuation)
    requires ds != []
    ensures Normalized(Flats(ds)).Success?
    ensures WellFormed(Normalized(Flats(ds)).value)
    ensures Means(Normalized(Flats(ds)).value, v) <==> forall i :: 0 <= i < |ds| ==> Holds(ds[i], v)
  {
    NormalizeJoins(ds);
    MeansFlat(Join(And, ds), v);
    HoldsJoin(And, ds, v);
  }

  lemma NormalizeAccepts(domain: seq<Token>)
    ensures Normalized(domain).Success? <==> exists ds :: domain == Flats(ds)
  {
    if domain == [] {
      assert domain == Flats([]);
    } else if Normalized(domain).Success? {
      var ds := AcceptedIsFlats(domain, 1);
    } else if exists ds :: domain == Flats(ds) {
      var ds :| domain == Flats(ds);
      MissingAndsFlats(ds);
    }
  }

  lemma NormalizeIdempotent(domain: seq<Token>)
    requires Normalized(domain).Success?
    ensures Normalized(Normalized(domain).value) == Normalized(domain)
  {
    if domain == [] {
      NormalizeJoins([Atom(TRUE_LEAF)]);
      FlatsOne(Atom(TRUE_LEAF));
    } else {
      var ds := AcceptedIsFlats(domain, 1);
      NormalizeJoins(ds);
      NormalizeJoins([Join(And, ds)]);
      FlatsOne(Join(And, ds));
    }
  }

  // ------------------------------------------------------------------
  // combine(), AND() and OR()

  // The domains combine() keeps.
  function Kept(unit: seq<Token>, domains: seq<seq<Token>>): seq<seq<Token>>
  {
    if domains == [] then []
    else (if domains[0] == unit || domains[0] == [] then [] else [domains[0]]) + Kept(unit, domains[1..])
  }

  function Concat(domains: seq<seq<Token>>): seq<Token>
  {
    if domains == [] then [] else domains[0] + Concat(domains[1..])
  }

  lemma {:induction false} KeptAppend(unit: seq<Token>, domains: seq<seq<Token>>, d: seq<Token>)
    ensures Kept(unit, domains + [d]) == Kept(unit, domains) + (if d == unit || d == [] then [] else [d])
    ensures Concat(domains + [d]) == Concat(domains) + d
  {
    if domains == [] {
      assert domains + [d] == [d];
    } else {
      assert (domains + [d])[1..] == domains[1..] + [d];
      KeptAppend(unit, domains[1..], d);
    }
  }

  method Combine(operator: Token, unit: seq<Token>, zero: seq<Token>, domains: seq<seq<Token>>) returns (result: seq<Token>)
    requires unit != zero && zero != []
    ensures zero in domains ==> result == zero
    ensures zero !in domains ==>
              var kept := Kept(unit, domains);
              result == Repeat(operator, if kept == [] then 0 else |kept| - 1) + Concat(kept)
  {
    result := [];
    var count := 0;
    var i := 0;
    while i < |domains|
      invariant 0 <= i <= |domains|
      invariant zero !in domains[..i]
      invariant count == |Kept(unit, domains[..i])| && result == Concat(Kept(unit, domains[..i]))
    {
      var domain := domains[i];
      assert domains[..i + 1] == domains[..i] + [domain];
      KeptAppend(unit, domains[..i], domain);
      if domain == zero {
        return zero;
      }
      ghost var kept := Kept(unit, domains[..i]);
      assert kept + [] == kept && result + [] == result;
      if domain != unit && domain != [] {
        KeptAppend(unit, Kept(unit, domains[..i]), domain);
        result := result + domain;
        count := count + 1;
      }
      i := i + 1;
    }
    assert domains[..i] == domains;
    result := Repeat(operator, if count == 0 then 0 else count - 1) + result;
  }

  ghost predicate AllNormalized(domains: seq<seq<Token>>)
  {
    forall i :: 0 <= i < |domains| ==> WellFormed(domains[i])
  }

  // A valuation that reads the constant terms as true and false.
  ghost predicate ReadsConstants(v: Valuation)
  {
    v(TRUE_LEAF) && !v(FALSE_LEAF)
  }

  lemma ConstantDomains(v: Valuation)
    requires ReadsConstants(v)
    ensures Means(TRUE_DOMAIN, v) && !Means(FALSE_DOMAIN, v)
  {
    MeansFlat(Atom(TRUE_LEAF), v);
    MeansFlat(Atom(FALSE_LEAF), v);
  }

  // The kept domains as expressions.
  lemma {:induction false} KeptTrees(unit: seq<Token>, domains: seq<seq<Token>>) returns (ds: seq<Dom>)
    requires AllNormalized(domains)
    ensures Concat(Kept(unit, domains)) == Flats(ds) && |ds| == |Kept(unit, domains)|
    ensures forall i :: 0 <= i < |ds| ==> Flat(ds[i]) == Kept(unit, domains)[i]
  {
    if domains == [] {
      ds := [];
    } else {
      assert forall i :: 0 <= i < |domains[1..]| ==> domains[1..][i] == domains[i + 1];
      var rest := KeptTrees(unit, domains[1..]);
      var d :| domains[0] == Flat(d);
      if domains[0] == unit {
        ds := rest;
        assert Kept(unit, domains) == Kept(unit, domains[1..]);
      } else {
        ds := [d] + rest;
        assert ds[1..] == rest;
        assert Kept(unit, domains) == [domains[0]] + Kept(unit, domains[1..]);
        assert Kept(unit, domains)[1..] == Kept(unit, domains[1..]);
      }
    }
  }

  lemma {:induction false} KeptMembers(unit: seq<Token>, domains: seq<seq<Token>>)
    ensures forall d :: d in Kept(unit, domains) <==> d in domains && d != unit && d != []
  {
    if domains != [] {
      KeptMembers(unit, domains[1..]);
      assert domains == [domains[0]] + domains[1..];
    }
  }

  // The meaning of what combine() builds.
  lemma CombinedMeaning(operator: Token, unit: seq<Token>, domains: seq<seq<Token>>, v: Valuation)
    requires operator == And || operator == Or
    requires AllNormalized(domains)
    ensures var kept := Kept(unit, domains);
            var result := Repeat(operator, if kept == [] then 0 else |kept| - 1) + Concat(kept);
            && (result == [] <==> kept == [])
            && (kept != [] ==> WellFormed(result))
            && (kept != [] ==> (Means(result, v) <==>
                  if operator == And then forall d :: d in kept ==> Means(d, v) else exists d :: d in kept && Means(d, v)))
  {
    var kept := Kept(unit, domains);
    var ds := KeptTrees(unit, domains);
    if kept != [] {
      FlatJoin(operator, ds);
      MeansFlat(Join(operator, ds), v);
      HoldsJoin(operator, ds, v);
      forall i | 0 <= i < |ds|
        ensures Means(kept[i], v) <==> Holds(ds[i], v)
      {
        MeansFlat(ds[i], v);
      }
      if operator == Or && exists d :: d in kept && Means(d, v) {
        var d :| d in kept && Means(d, v);
        var i :| 0 <= i < |kept| && kept[i] == d;
        assert Holds(ds[i], v);
      }
    }
  }

  // AND of normalized domains means their conjunction.
  method AND(domains: seq<seq<Token>>) returns (result: seq<Token>)
    requires AllNormalized(domains)
    ensures result == [] || WellFormed(result)
    ensures forall v :: ReadsConstants(v) ==> (Means(result, v) <==> forall d :: d in domains ==> Means(d, v))
  {
    result := Combine(And, TRUE_DOMAIN, FALSE_DOMAIN, domains);
    KeptMembers(TRUE_DOMAIN, domains);
    NormalizedNotEmpty(domains);
    assert WellFormed(FALSE_DOMAIN) by { assert FALSE_DOMAIN == Flat(Atom(FALSE_LEAF)); }
    if FALSE_DOMAIN !in domains {
      CombinedMeaning(And, TRUE_DOMAIN, domains, _ => true);
    }
    forall v | ReadsConstants(v)
      ensures Means(result, v) <==> forall d :: d in domains ==> Means(d, v)
    {
      ConstantDomains(v);
      if FALSE_DOMAIN !in domains {
        CombinedMeaning(And, TRUE_DOMAIN, domains, v);
      }
    }
  }

  lemma NormalizedNotEmpty(domains: seq<seq<Token>>)
    requires AllNormalized(domains)
    ensures forall d :: d in domains ==> d != []
  {
  }

  // OR of normalized domains means their disjunction if, and only if, one of them is not
  // FALSE_DOMAIN: dropping every operand leaves the empty domain, which reads as true.
  method OR(domains: seq<seq<Token>>) returns (result: seq<Token>)
    requires AllNormalized(domains)
    ensures result == [] || WellFormed(result)
    ensures (forall v :: ReadsConstants(v) ==> (Means(result, v) <==> exists d :: d in domains && Means(d, v)))
            <==> exists d :: d in domains && d != FALSE_DOMAIN
  {
    result := Combine(Or, FALSE_DOMAIN, TRUE_DOMAIN, domains);
    ghost var kept := Kept(FALSE_DOMAIN, domains);
    assert kept != [] ==> kept[0] in kept;
    KeptMembers(FALSE_DOMAIN, domains);
    NormalizedNotEmpty(domains);
    assert WellFormed(TRUE_DOMAIN) by { assert TRUE_DOMAIN == Flat(Atom(TRUE_LEAF)); }
    if TRUE_DOMAIN !in domains {
      CombinedMeaning(Or, FALSE_DOMAIN, domains, _ => true);
    }
    if exists d :: d in domains && d != FALSE_DOMAIN {
      forall v | ReadsConstants(v)
        ensures Means(result, v) <==> exists d :: d in domains && Means(d, v)
      {
        ConstantDomains(v);
        if TRUE_DOMAIN !in domains {
          CombinedMeaning(Or, FALSE_DOMAIN, domains, v);
        }
      }
    } else {
      var v := (l: Leaf) => l == TRUE_LEAF;
      ConstantDomains(v);
      assert kept == [] && result == [];
      assert ReadsConstants(v) && Means(result, v);
    }
  }
}
