/** Fields that a model takes over from the models it inherits by reference: recomputing them
    from a changed model downwards, and walking up to the owner of one. */
module InheritedFields {
  import opened Names

  type Field = string

  // _inherits: the parent models and the column that refers to each.
  type Parents = seq<(Name, Field)>

  // An entry of _inherit_fields: the parent to go to, the column that refers to it, and where
  // the field is said to come from.
  datatype Source = Source(parent: Name, reference: Field, original: Name)

  type Sources = map<Field, Source>

  // The models: their parents and their own columns.
  datatype Schema = Schema(models: seq<Name>, inherits: map<Name, Parents>, columns: map<Name, set<Field>>)

  function ParentsOf(schema: Schema, m: Name): Parents
  {
    if m in schema.inherits then schema.inherits[m] else []
  }

  function ColumnsOf(schema: Schema, m: Name): set<Field>
  {
    if m in schema.columns then schema.columns[m] else {}
  }

  function SourcesOf(inherited: map<Name, Sources>, m: Name): Sources
  {
    if m in inherited then inherited[m] else map[]
  }

  predicate IsParent(schema: Schema, p: Name, m: Name)
  {
    exists i :: 0 <= i < |ParentsOf(schema, m)| && ParentsOf(schema, m)[i].0 == p
  }

  // A model ranks above its parents: no model inherits from itself, however far around.
  ghost predicate RankOk(schema: Schema, rank: Name -> nat, m: Name, i: int)
  {
    0 <= i < |ParentsOf(schema, m)| ==> rank(ParentsOf(schema, m)[i].0) < rank(m)
  }

  ghost predicate Acyclic(schema: Schema, rank: Name -> nat)
  {
    forall m, i {:trigger RankOk(schema, rank, m, i)} :: RankOk(schema, rank, m, i)
  }

  // x is m, or inherits from it, however far.
  ghost predicate Under(schema: Schema, rank: Name -> nat, x: Name, m: Name)
    requires Acyclic(schema, rank)
    decreases rank(x)
  {
    x == m || exists i :: 0 <= i < |ParentsOf(schema, x)| && RankOk(schema, rank, x, i) && Under(schema, rank, ParentsOf(schema, x)[i].0, m)
  }

  // What the parents give: for a field that several have, the last one counts.
  function Taken(schema: Schema, inherited: map<Name, Sources>, parents: Parents): Sources
  {
    if parents == [] then map[]
    else
      var (p, reference) := parents[|parents| - 1];
      var before := Taken(schema, inherited, parents[..|parents| - 1]);
      before
      + (map f | f in ColumnsOf(schema, p) :: Source(p, reference, p))
      + (map f | f in SourcesOf(inherited, p) :: Source(p, reference, SourcesOf(inherited, p)[f].original))
  }

  // A model's entries are what its parents give it.
  ghost predicate Fresh(schema: Schema, inherited: map<Name, Sources>, m: Name)
  {
    SourcesOf(inherited, m) == Taken(schema, inherited, ParentsOf(schema, m))
  }

  lemma {:induction false} UnderIsTransitive(schema: Schema, rank: Name -> nat, x: Name, y: Name, z: Name)
    requires Acyclic(schema, rank) && Under(schema, rank, x, y) && Under(schema, rank, y, z)
    ensures Under(schema, rank, x, z)
    decreases rank(x)
  {
    if x != y {
      var i :| 0 <= i < |ParentsOf(schema, x)| && RankOk(schema, rank, x, i) && Under(schema, rank, ParentsOf(schema, x)[i].0, y);
      UnderIsTransitive(schema, rank, ParentsOf(schema, x)[i].0, y, z);
    }
  }

  lemma ParentIsUnder(schema: Schema, rank: Name -> nat, p: Name, m: Name)
    requires Acyclic(schema, rank) && IsParent(schema, p, m)
    ensures Under(schema, rank, m, p) && rank(p) < rank(m)
  {
    var i :| 0 <= i < |ParentsOf(schema, m)| && ParentsOf(schema, m)[i].0 == p;
    assert RankOk(schema, rank, m, i) && Under(schema, rank, p, p);
  }

  lemma {:induction false} UnderRanksHigher(schema: Schema, rank: Name -> nat, x: Name, m: Name)
    requires Acyclic(schema, rank) && Under(schema, rank, x, m)
    ensures x != m ==> rank(m) < rank(x)
    decreases rank(x)
  {
    if x != m {
      var i :| 0 <= i < |ParentsOf(schema, x)| && RankOk(schema, rank, x, i) && Under(schema, rank, ParentsOf(schema, x)[i].0, m);
      UnderRanksHigher(schema, rank, ParentsOf(schema, x)[i].0, m);
    }
  }

  // The parents of the models are models.
  ghost predicate Closed(schema: Schema)
  {
    forall m, p {:trigger IsParent(schema, p, m)} :: m in schema.models && IsParent(schema, p, m) ==> p in schema.models
  }

  // What inherits from m does so by way of a child of m.
  lemma {:induction false} ByWayOfChild(schema: Schema, rank: Name -> nat, x: Name, m: Name) returns (c: Name)
    requires Acyclic(schema, rank) && Closed(schema) && x in schema.models && x != m && Under(schema, rank, x, m)
    ensures c in schema.models && IsParent(schema, m, c) && Under(schema, rank, x, c)
    decreases rank(x)
  {
    var i :| 0 <= i < |ParentsOf(schema, x)| && RankOk(schema, rank, x, i) && Under(schema, rank, ParentsOf(schema, x)[i].0, m);
    var p := ParentsOf(schema, x)[i].0;
    assert IsParent(schema, p, x);
    if p == m {
      c := x;
    } else {
      c := ByWayOfChild(schema, rank, p, m);
    }
  }

  lemma {:induction false} TakenDependsOnParents(schema: Schema, a: map<Name, Sources>, b: map<Name, Sources>, parents: Parents)
    requires forall i :: 0 <= i < |parents| ==> SourcesOf(a, parents[i].0) == SourcesOf(b, parents[i].0)
    ensures Taken(schema, a, parents) == Taken(schema, b, parents)
  {
    if parents != [] {
      TakenDependsOnParents(schema, a, b, parents[..|parents| - 1]);
    }
  }

  // Changing entries elsewhere than at a model and its parents leaves it as fresh as it was.
  lemma FreshStays(schema: Schema, a: map<Name, Sources>, b: map<Name, Sources>, x: Name)
    requires Fresh(schema, a, x) && SourcesOf(a, x) == SourcesOf(b, x)
    requires forall p {:trigger IsParent(schema, p, x)} :: IsParent(schema, p, x) ==> SourcesOf(a, p) == SourcesOf(b, p)
    ensures Fresh(schema, b, x)
  {
    var parents := ParentsOf(schema, x);
    forall i | 0 <= i < |parents|
      ensures SourcesOf(a, parents[i].0) == SourcesOf(b, parents[i].0)
    {
      assert IsParent(schema, parents[i].0, x);
    }
    TakenDependsOnParents(schema, a, b, parents);
  }

  // While the children of m are being reloaded: fresh, or still to be reached by way of one of them.
  ghost predicate FreshOrWaiting(schema: Schema, rank: Name -> nat, inherited: map<Name, Sources>, x: Name, m: Name, k: int)
    requires Acyclic(schema, rank)
  {
    Fresh(schema, inherited, x) || exists j :: k <= j < |schema.models| && Waits(schema, rank, x, m, j)
  }

  ghost predicate Waits(schema: Schema, rank: Name -> nat, x: Name, m: Name, j: int)
    requires Acyclic(schema, rank)
  {
    0 <= j < |schema.models| && IsParent(schema, m, schema.models[j]) && Under(schema, rank, x, schema.models[j])
  }

  // A model with its entries recomputed: everything under it waits.
  lemma FirstWaits(schema: Schema, rank: Name -> nat, before: map<Name, Sources>, m: Name, x: Name)
    requires Acyclic(schema, rank) && Closed(schema) && x in schema.models
    requires Fresh(schema, before, x) || Under(schema, rank, x, m)
    ensures FreshOrWaiting(schema, rank, before[m := Taken(schema, before, ParentsOf(schema, m))], x, m, 0)
  {
    var after := before[m := Taken(schema, before, ParentsOf(schema, m))];
    if x == m {
      forall i | 0 <= i < |ParentsOf(schema, m)|
        ensures ParentsOf(schema, m)[i].0 != m
      {
        assert RankOk(schema, rank, m, i);
      }
      TakenDependsOnParents(schema, before, after, ParentsOf(schema, m));
    } else if Under(schema, rank, x, m) {
      var c := ByWayOfChild(schema, rank, x, m);
      var j :| 0 <= j < |schema.models| && schema.models[j] == c;
      assert Waits(schema, rank, x, m, j);
    } else {
      forall p | IsParent(schema, p, x)
        ensures p != m
      {
        ParentIsUnder(schema, rank, p, x);
      }
      FreshStays(schema, before, after, x);
    }
  }

  ghost predicate AllFresh(schema: Schema, inherited: map<Name, Sources>)
  {
    forall x {:trigger Fresh(schema, inherited, x)} :: x in schema.models ==> Fresh(schema, inherited, x)
  }

  // What reloading a model does to another one: nothing unless that is under it; fresh ones stay
  // fresh, and those under it become so.
  ghost predicate Reloaded(schema: Schema, rank: Name -> nat, before: map<Name, Sources>, after: map<Name, Sources>, m: Name, x: Name)
    requires Acyclic(schema, rank)
  {
    && (!Under(schema, rank, x, m) ==> SourcesOf(after, x) == SourcesOf(before, x))
    && (x in schema.models && (Fresh(schema, before, x) || Under(schema, rank, x, m)) ==> Fresh(schema, after, x))
  }

  // The same, when k of the models have been looked at for children of m.
  ghost predicate Progress(schema: Schema, rank: Name -> nat, before: map<Name, Sources>, after: map<Name, Sources>,
                           m: Name, k: int, x: Name)
    requires Acyclic(schema, rank)
  {
    && (!Under(schema, rank, x, m) ==> SourcesOf(after, x) == SourcesOf(before, x))
    && (x in schema.models && FreshOrWaiting(schema, rank, before, x, m, 0) ==> FreshOrWaiting(schema, rank, after, x, m, k))
  }

  // So when a model has changed, and with it what only those under it depend on, reloading it
  // makes all models fresh again.
  lemma ReloadingIsEnough(schema: Schema, rank: Name -> nat, before: map<Name, Sources>, after: map<Name, Sources>, m: Name)
    requires Acyclic(schema, rank)
    requires forall x {:trigger Reloaded(schema, rank, before, after, m, x)} :: Reloaded(schema, rank, before, after, m, x)
    requires forall x {:trigger Fresh(schema, before, x)} :: x in schema.models && !Under(schema, rank, x, m) ==> Fresh(schema, before, x)
    ensures AllFresh(schema, after)
  {
    forall x | x in schema.models
      ensures Fresh(schema, after, x)
    {
      assert Reloaded(schema, rank, before, after, m, x);
    }
  }

  lemma AllReloaded(schema: Schema, rank: Name -> nat, before: map<Name, Sources>, after: map<Name, Sources>, m: Name, x: Name)
    requires Acyclic(schema, rank) && Closed(schema)
    requires var first := before[m := Taken(schema, before, ParentsOf(schema, m))];
             Progress(schema, rank, first, after, m, |schema.models|, x)
    ensures Reloaded(schema, rank, before, after, m, x)
  {
    if x in schema.models && (Fresh(schema, before, x) || Under(schema, rank, x, m)) {
      FirstWaits(schema, rank, before, m, x);
    }
  }

  lemma ChildReloaded(schema: Schema, rank: Name -> nat, first: map<Name, Sources>, before: map<Name, Sources>,
                      after: map<Name, Sources>, m: Name, k: nat, x: Name)
    requires Acyclic(schema, rank) && k < |schema.models| && IsParent(schema, m, schema.models[k])
    requires Progress(schema, rank, first, before, m, k, x)
    requires Reloaded(schema, rank, before, after, schema.models[k], x)
    ensures Progress(schema, rank, first, after, m, k + 1, x)
  {
    var c := schema.models[k];
    ParentIsUnder(schema, rank, m, c);
    if Under(schema, rank, x, c) {
      UnderIsTransitive(schema, rank, x, c, m);
    }
    if x in schema.models && !Fresh(schema, before, x) && FreshOrWaiting(schema, rank, before, x, m, k) {
      var j :| k <= j < |schema.models| && Waits(schema, rank, x, m, j);
      assert j > k ==> k + 1 <= j;
    }
  }

  class Registry {
    const schema: Schema
    ghost const rank: Name -> nat
    ghost const top: nat
    var inherited: map<Name, Sources>    // _inherit_fields

    ghost predicate Valid()
    {
      Acyclic(schema, rank) && Closed(schema) && forall m :: m in schema.models ==> rank(m) <= top
    }

    constructor (schema: Schema, ghost rank: Name -> nat, ghost top: nat)
      requires Acyclic(schema, rank) && Closed(schema) && forall m :: m in schema.models ==> rank(m) <= top
      ensures this.schema == schema && this.rank == rank && inherited == map[] && Valid()
    {
      this.schema, this.rank, this.top, inherited := schema, rank, top, map[];
    }

    // _inherits_reload: the entries of a model, then those of its children.
    method Reload(m: Name)
      requires Valid() && m in schema.models
      modifies this
      ensures forall x {:trigger Reloaded(schema, rank, old(inherited), inherited, m, x)} ::
                Reloaded(schema, rank, old(inherited), inherited, m, x)
      decreases top - rank(m), 1
    {
      ghost var before := inherited;
      var parents := ParentsOf(schema, m);
      var res: Sources := map[];
      var i := 0;
      while i < |parents|
        invariant 0 <= i <= |parents| && res == Taken(schema, inherited, parents[..i])
      {
        var (p, reference) := parents[i];
        assert parents[..i + 1][..i] == parents[..i];
        res := res + map f | f in ColumnsOf(schema, p) :: Source(p, reference, p);
        res := res + map f | f in SourcesOf(inherited, p) :: Source(p, reference, SourcesOf(inherited, p)[f].original);
        i := i + 1;
      }
      assert parents[..i] == parents;
      inherited := inherited[m := res];
      ghost var first := inherited;
      ReloadSrc(m);
      forall x
        ensures Reloaded(schema, rank, before, inherited, m, x)
      {
        assert Progress(schema, rank, first, inherited, m, |schema.models|, x);
        AllReloaded(schema, rank, before, inherited, m, x);
      }
    }

    // _inherits_reload_src: the children of a model.
    method ReloadSrc(m: Name)
      requires Valid() && m in schema.models
      modifies this
      ensures forall x {:trigger Progress(schema, rank, old(inherited), inherited, m, |schema.models|, x)} ::
                Progress(schema, rank, old(inherited), inherited, m, |schema.models|, x)
      decreases top - rank(m), 0
    {
      ghost var first := inherited;
      var k := 0;
      while k < |schema.models|
        invariant 0 <= k <= |schema.models|
        invariant forall x {:trigger Progress(schema, rank, first, inherited, m, k, x)} ::
                    Progress(schema, rank, first, inherited, m, k, x)
      {
        var c := schema.models[k];
        ghost var before := inherited;
        if IsParent(schema, m, c) {
          ParentIsUnder(schema, rank, m, c);
          Reload(c);
        }
        k := k + 1;
        forall x
          ensures Progress(schema, rank, first, inherited, m, k, x)
        {
          assert Progress(schema, rank, first, before, m, k - 1, x);
          if IsParent(schema, m, c) {
            assert Reloaded(schema, rank, before, inherited, c, x);
            ChildReloaded(schema, rank, first, before, inherited, m, k - 1, x);
          }
        }
      }
    }

    // _inherits_join_calc: up from a model to the one whose table has the column, naming the
    // models on the way. Which one that is, the schema alone decides; and what the entry says
    // the field comes from is that model unless one above it has the column too.
    method JoinCalc(m: Name, field: Field) returns (path: seq<Name>)
      requires Valid() && AllFresh(schema, inherited) && m in schema.models
      ensures path != [] && path[0] == m
      ensures forall k {:trigger Hop(schema, inherited, path, k, field)} :: Hop(schema, inherited, path, k, field)
      ensures var owner := path[|path| - 1];
              && owner == OwnerOf(schema, rank, m, field)
              && (field in ColumnsOf(schema, owner) <==> field in ColumnsOf(schema, m) || field in SourcesOf(inherited, m))
              && (field in SourcesOf(inherited, m) && field !in ColumnsOf(schema, m) ==>
                    (SourcesOf(inherited, m)[field].original == owner <==> !exists a :: Above(schema, rank, owner, a, field)))
    {
      var current := m;
      path := [m];
      while field in SourcesOf(inherited, current) && field !in ColumnsOf(schema, current)
        invariant path != [] && path[0] == m && path[|path| - 1] == current && current in schema.models
        invariant Has(schema, inherited, current, field) <==> Has(schema, inherited, m, field)
        invariant OwnerOf(schema, rank, current, field) == OwnerOf(schema, rank, m, field)
        invariant forall k {:trigger Hop(schema, inherited, path, k, field)} :: Hop(schema, inherited, path, k, field)
        invariant field in SourcesOf(inherited, m) ==>
                    SourcesOf(inherited, m)[field].original ==
                    if field in SourcesOf(inherited, current) then SourcesOf(inherited, current)[field].original else current
        decreases rank(current)
      {
        OneHop(schema, rank, inherited, path, field);
        current := SourcesOf(inherited, current)[field].parent;
        path := path + [current];
      }
      WalkEnds(schema, rank, inherited, current, field);
    }
  }

  lemma OneHop(schema: Schema, rank: Name -> nat, inherited: map<Name, Sources>, path: seq<Name>, f: Field)
    requires Acyclic(schema, rank) && Closed(schema) && AllFresh(schema, inherited)
    requires path != [] && path[|path| - 1] in schema.models
    requires forall k {:trigger Hop(schema, inherited, path, k, f)} :: Hop(schema, inherited, path, k, f)
    requires f in SourcesOf(inherited, path[|path| - 1]) && f !in ColumnsOf(schema, path[|path| - 1])
    ensures var current := path[|path| - 1];
            var source := SourcesOf(inherited, current)[f];
            var p := source.parent;
            && p in schema.models && rank(p) < rank(current) && Has(schema, inherited, p, f)
            && OwnerOf(schema, rank, current, f) == OwnerOf(schema, rank, p, f)
            && source.original == (if f in SourcesOf(inherited, p) then SourcesOf(inherited, p)[f].original else p)
            && forall k {:trigger Hop(schema, inherited, path + [p], k, f)} :: Hop(schema, inherited, path + [p], k, f)
  {
    var current := path[|path| - 1];
    EntryOk(schema, rank, inherited, current, f);
    EntryFollowsSchema(schema, rank, inherited, current, f);
    forall k
      ensures Hop(schema, inherited, path + [SourcesOf(inherited, current)[f].parent], k, f)
    {
      assert Hop(schema, inherited, path, k, f);
    }
  }

  lemma WalkEnds(schema: Schema, rank: Name -> nat, inherited: map<Name, Sources>, m: Name, f: Field)
    requires Acyclic(schema, rank) && Closed(schema) && AllFresh(schema, inherited) && m in schema.models
    requires f in ColumnsOf(schema, m) || f !in SourcesOf(inherited, m)
    ensures OwnerOf(schema, rank, m, f) == m
    ensures f in SourcesOf(inherited, m) <==> exists a :: Above(schema, rank, m, a, f)
    ensures f in SourcesOf(inherited, m) ==> SourcesOf(inherited, m)[f].original != m
  {
    InheritsWhatIsAbove(schema, rank, inherited, m, f);
    if f in SourcesOf(inherited, m) {
      OriginalOwns(schema, rank, inherited, m, f);
    } else {
      NothingOffered(schema, rank, inherited, m, f);
    }
  }

  // A step of the walk up: from a model without the column to the parent its entry names.
  ghost predicate Hop(schema: Schema, inherited: map<Name, Sources>, path: seq<Name>, k: int, field: Field)
  {
    0 <= k < |path| - 1 ==>
      && field !in ColumnsOf(schema, path[k]) && field in SourcesOf(inherited, path[k])
      && path[k + 1] == SourcesOf(inherited, path[k])[field].parent && IsParent(schema, path[k + 1], path[k])
  }

  ghost predicate Has(schema: Schema, inherited: map<Name, Sources>, p: Name, f: Field)
  {
    f in ColumnsOf(schema, p) || f in SourcesOf(inherited, p)
  }

  // What the parents give is the union of their own and inherited fields ...
  lemma {:induction false} TakenIsUnion(schema: Schema, inherited: map<Name, Sources>, parents: Parents, f: Field)
    ensures f in Taken(schema, inherited, parents) <==> exists i :: 0 <= i < |parents| && Has(schema, inherited, parents[i].0, f)
  {
    if parents != [] {
      var rest := parents[..|parents| - 1];
      TakenIsUnion(schema, inherited, rest, f);
      assert forall i :: 0 <= i < |rest| ==> rest[i] == parents[i];
    }
  }

  // ... each by way of a parent that has it.
  lemma {:induction false} TakenFromParent(schema: Schema, inherited: map<Name, Sources>, parents: Parents, f: Field)
    requires f in Taken(schema, inherited, parents)
    ensures var source := Taken(schema, inherited, parents)[f];
            && (source.parent, source.reference) in parents && Has(schema, inherited, source.parent, f)
            && source.original == if f in SourcesOf(inherited, source.parent) then SourcesOf(inherited, source.parent)[f].original
                                  else source.parent
  {
    var (p, reference) := parents[|parents| - 1];
    if !Has(schema, inherited, p, f) {
      TakenFromParent(schema, inherited, parents[..|parents| - 1], f);
    } else {
      assert parents[|parents| - 1] in parents;
    }
  }

  // The entry of a fresh model leads to a parent that has the field.
  lemma EntryOk(schema: Schema, rank: Name -> nat, inherited: map<Name, Sources>, m: Name, f: Field)
    requires Acyclic(schema, rank) && Closed(schema) && m in schema.models && Fresh(schema, inherited, m)
    requires f in SourcesOf(inherited, m)
    ensures var source := SourcesOf(inherited, m)[f];
            && source.parent in schema.models && IsParent(schema, source.parent, m) && rank(source.parent) < rank(m)
            && (f in ColumnsOf(schema, source.parent) || f in SourcesOf(inherited, source.parent))
            && source.original == if f in SourcesOf(inherited, source.parent) then SourcesOf(inherited, source.parent)[f].original
                                  else source.parent
  {
    TakenFromParent(schema, inherited, ParentsOf(schema, m), f);
    var source := SourcesOf(inherited, m)[f];
    var i :| 0 <= i < |ParentsOf(schema, m)| && ParentsOf(schema, m)[i] == (source.parent, source.reference);
    assert IsParent(schema, source.parent, m);
    ParentIsUnder(schema, rank, SourcesOf(inherited, m)[f].parent, m);
  }

  lemma {:induction false} OriginalOwns(schema: Schema, rank: Name -> nat, inherited: map<Name, Sources>, m: Name, f: Field)
    requires Acyclic(schema, rank) && Closed(schema) && AllFresh(schema, inherited) && m in schema.models
    requires f in SourcesOf(inherited, m)
    ensures var original := SourcesOf(inherited, m)[f].original;
            original in schema.models && f in ColumnsOf(schema, original) && rank(original) < rank(m)
    decreases rank(m)
  {
    EntryOk(schema, rank, inherited, m, f);
    var p := SourcesOf(inherited, m)[f].parent;
    if f in SourcesOf(inherited, p) {
      OriginalOwns(schema, rank, inherited, p, f);
    }
  }

  // a, above m, has the field as a column.
  ghost predicate Above(schema: Schema, rank: Name -> nat, m: Name, a: Name, f: Field)
    requires Acyclic(schema, rank)
  {
    a != m && Under(schema, rank, m, a) && f in ColumnsOf(schema, a)
  }

  lemma {:induction false} InheritedIsAbove(schema: Schema, rank: Name -> nat, inherited: map<Name, Sources>, m: Name, f: Field)
    returns (a: Name)
    requires Acyclic(schema, rank) && Closed(schema) && AllFresh(schema, inherited) && m in schema.models
    requires f in SourcesOf(inherited, m)
    ensures Above(schema, rank, m, a, f)
    decreases rank(m)
  {
    EntryOk(schema, rank, inherited, m, f);
    a := SourcesOf(inherited, m)[f].parent;
    ParentIsUnder(schema, rank, a, m);
    if f !in ColumnsOf(schema, a) {
      var p := a;
      a := InheritedIsAbove(schema, rank, inherited, p, f);
      UnderIsTransitive(schema, rank, m, p, a);
      UnderRanksHigher(schema, rank, p, a);
    }
  }

  lemma {:induction false} AboveIsInherited(schema: Schema, rank: Name -> nat, inherited: map<Name, Sources>, m: Name, a: Name, f: Field)
    requires Acyclic(schema, rank) && Closed(schema) && AllFresh(schema, inherited) && m in schema.models
    requires Above(schema, rank, m, a, f)
    ensures f in SourcesOf(inherited, m)
    decreases rank(m)
  {
    var parents := ParentsOf(schema, m);
    var i :| 0 <= i < |parents| && RankOk(schema, rank, m, i) && Under(schema, rank, parents[i].0, a);
    var p := parents[i].0;
    assert IsParent(schema, p, m);
    if p != a {
      AboveIsInherited(schema, rank, inherited, p, a, f);
    }
    assert Fresh(schema, inherited, m) && Has(schema, inherited, p, f);
    TakenIsUnion(schema, inherited, parents, f);
  }

  // A model inherits exactly the fields that a model above it has as columns.
  lemma InheritsWhatIsAbove(schema: Schema, rank: Name -> nat, inherited: map<Name, Sources>, m: Name, f: Field)
    requires Acyclic(schema, rank) && Closed(schema) && AllFresh(schema, inherited) && m in schema.models
    ensures f in SourcesOf(inherited, m) <==> exists a :: Above(schema, rank, m, a, f)
  {
    if f in SourcesOf(inherited, m) {
      var a := InheritedIsAbove(schema, rank, inherited, m, f);
    }
    forall a | Above(schema, rank, m, a, f)
      ensures f in SourcesOf(inherited, m)
    {
      AboveIsInherited(schema, rank, inherited, m, a, f);
    }
  }

  // ------------------------------------------------------------------
  // Where a field is found, from the schema alone

  // p has the field as a column, or a model above it does.
  ghost predicate Offers(schema: Schema, rank: Name -> nat, p: Name, f: Field)
    requires Acyclic(schema, rank)
  {
    f in ColumnsOf(schema, p) || exists a :: Above(schema, rank, p, a, f)
  }

  // The last parent that offers the field; -1 when none does.
  ghost function LastOffering(schema: Schema, rank: Name -> nat, parents: Parents, f: Field): (i: int)
    requires Acyclic(schema, rank)
    ensures -1 <= i < |parents|
    ensures i >= 0 ==> Offers(schema, rank, parents[i].0, f)
    ensures forall j :: i < j < |parents| ==> !Offers(schema, rank, parents[j].0, f)
  {
    if parents == [] then -1
    else if Offers(schema, rank, parents[|parents| - 1].0, f) then |parents| - 1
    else LastOffering(schema, rank, parents[..|parents| - 1], f)
  }

  // The model whose table has the column: by way of the last parent that offers it.
  ghost function OwnerOf(schema: Schema, rank: Name -> nat, m: Name, f: Field): Name
    requires Acyclic(schema, rank)
    decreases rank(m)
  {
    var i := LastOffering(schema, rank, ParentsOf(schema, m), f);
    if f in ColumnsOf(schema, m) || i < 0 then m
    else
      assert RankOk(schema, rank, m, i);
      OwnerOf(schema, rank, ParentsOf(schema, m)[i].0, f)
  }

  // A parent found last to have the field is the one its entry is taken from.
  lemma {:induction false} TakenFromLast(schema: Schema, inherited: map<Name, Sources>, parents: Parents, f: Field, i: nat)
    requires i < |parents| && Has(schema, inherited, parents[i].0, f)
    requires forall j :: i < j < |parents| ==> !Has(schema, inherited, parents[j].0, f)
    ensures f in Taken(schema, inherited, parents) && Taken(schema, inherited, parents)[f].parent == parents[i].0
  {
    if i < |parents| - 1 {
      TakenFromLast(schema, inherited, parents[..|parents| - 1], f, i);
    }
  }

  lemma HasIsOffers(schema: Schema, rank: Name -> nat, inherited: map<Name, Sources>, m: Name, f: Field)
    requires Acyclic(schema, rank) && Closed(schema) && AllFresh(schema, inherited) && m in schema.models
    ensures forall i :: 0 <= i < |ParentsOf(schema, m)| ==>
              (Has(schema, inherited, ParentsOf(schema, m)[i].0, f) <==> Offers(schema, rank, ParentsOf(schema, m)[i].0, f))
  {
    forall i | 0 <= i < |ParentsOf(schema, m)|
      ensures Has(schema, inherited, ParentsOf(schema, m)[i].0, f) <==> Offers(schema, rank, ParentsOf(schema, m)[i].0, f)
    {
      var p := ParentsOf(schema, m)[i].0;
      assert IsParent(schema, p, m);
      InheritsWhatIsAbove(schema, rank, inherited, p, f);
    }
  }

  lemma EntryFollowsSchema(schema: Schema, rank: Name -> nat, inherited: map<Name, Sources>, m: Name, f: Field)
    requires Acyclic(schema, rank) && Closed(schema) && AllFresh(schema, inherited) && m in schema.models
    requires f in SourcesOf(inherited, m)
    ensures var i := LastOffering(schema, rank, ParentsOf(schema, m), f);
            i >= 0 && SourcesOf(inherited, m)[f].parent == ParentsOf(schema, m)[i].0
  {
    assert Fresh(schema, inherited, m);
    HasIsOffers(schema, rank, inherited, m, f);
    TakenIsUnion(schema, inherited, ParentsOf(schema, m), f);
    var i := LastOffering(schema, rank, ParentsOf(schema, m), f);
    TakenFromLast(schema, inherited, ParentsOf(schema, m), f, i);
  }

  lemma NothingOffered(schema: Schema, rank: Name -> nat, inherited: map<Name, Sources>, m: Name, f: Field)
    requires Acyclic(schema, rank) && Closed(schema) && AllFresh(schema, inherited) && m in schema.models
    requires f !in SourcesOf(inherited, m)
    ensures LastOffering(schema, rank, ParentsOf(schema, m), f) == -1 && OwnerOf(schema, rank, m, f) == m
  {
    assert Fresh(schema, inherited, m);
    HasIsOffers(schema, rank, inherited, m, f);
    TakenIsUnion(schema, inherited, ParentsOf(schema, m), f);
  }

  // c takes the field from a parent that has it as a column although a model above that does too.
  ghost predicate Misleads(schema: Schema, rank: Name -> nat, c: Name, f: Field)
    requires Acyclic(schema, rank)
  {
    && c in schema.models && f !in ColumnsOf(schema, c)
    && var i := LastOffering(schema, rank, ParentsOf(schema, c), f);
       i >= 0 && f in ColumnsOf(schema, ParentsOf(schema, c)[i].0) && exists a :: Above(schema, rank, ParentsOf(schema, c)[i].0, a, f)
  }

  ghost predicate OriginalIsOwner(schema: Schema, rank: Name -> nat, inherited: map<Name, Sources>, m: Name, f: Field)
    requires Acyclic(schema, rank)
  {
    m in schema.models && f in SourcesOf(inherited, m) && f !in ColumnsOf(schema, m) ==>
      SourcesOf(inherited, m)[f].original == OwnerOf(schema, rank, m, f)
  }

  // Every entry names the model in which the walk up ends if and only if no model takes a field
  // from a parent that repeats a column of a model above it.
  lemma OriginalsAreOwnersExactly(schema: Schema, rank: Name -> nat, inherited: map<Name, Sources>)
    requires Acyclic(schema, rank) && Closed(schema) && AllFresh(schema, inherited)
    ensures (forall m, f {:trigger OriginalIsOwner(schema, rank, inherited, m, f)} :: OriginalIsOwner(schema, rank, inherited, m, f))
            <==> forall c, f {:trigger Misleads(schema, rank, c, f)} :: !Misleads(schema, rank, c, f)
  {
    if forall c, f {:trigger Misleads(schema, rank, c, f)} :: !Misleads(schema, rank, c, f) {
      forall m, f
        ensures OriginalIsOwner(schema, rank, inherited, m, f)
      {
        if m in schema.models {
          NotMisled(schema, rank, inherited, m, f);
        }
      }
    }
    forall c, f | Misleads(schema, rank, c, f)
      ensures !OriginalIsOwner(schema, rank, inherited, c, f)
    {
      Misled(schema, rank, inherited, c, f);
    }
  }

  lemma {:induction false} NotMisled(schema: Schema, rank: Name -> nat, inherited: map<Name, Sources>, m: Name, f: Field)
    requires Acyclic(schema, rank) && Closed(schema) && AllFresh(schema, inherited) && m in schema.models
    requires forall c {:trigger Misleads(schema, rank, c, f)} :: !Misleads(schema, rank, c, f)
    ensures OriginalIsOwner(schema, rank, inherited, m, f)
    decreases rank(m)
  {
    if f in SourcesOf(inherited, m) && f !in ColumnsOf(schema, m) {
      EntryOk(schema, rank, inherited, m, f);
      EntryFollowsSchema(schema, rank, inherited, m, f);
      var p := SourcesOf(inherited, m)[f].parent;
      assert !Misleads(schema, rank, m, f);
      InheritsWhatIsAbove(schema, rank, inherited, p, f);
      if f !in ColumnsOf(schema, p) {
        NotMisled(schema, rank, inherited, p, f);
      }
    }
  }

  lemma Misled(schema: Schema, rank: Name -> nat, inherited: map<Name, Sources>, c: Name, f: Field)
    requires Acyclic(schema, rank) && Closed(schema) && AllFresh(schema, inherited) && Misleads(schema, rank, c, f)
    ensures !OriginalIsOwner(schema, rank, inherited, c, f)
  {
    OfferedIsInherited(schema, rank, inherited, c, f);
    EntryFollowsSchema(schema, rank, inherited, c, f);
    EntryOk(schema, rank, inherited, c, f);
    WalkEnds(schema, rank, inherited, SourcesOf(inherited, c)[f].parent, f);
  }

  lemma OfferedIsInherited(schema: Schema, rank: Name -> nat, inherited: map<Name, Sources>, c: Name, f: Field)
    requires Acyclic(schema, rank) && Closed(schema) && AllFresh(schema, inherited) && c in schema.models
    requires LastOffering(schema, rank, ParentsOf(schema, c), f) >= 0
    ensures f in SourcesOf(inherited, c)
  {
    var i := LastOffering(schema, rank, ParentsOf(schema, c), f);
    HasIsOffers(schema, rank, inherited, c, f);
    TakenIsUnion(schema, inherited, ParentsOf(schema, c), f);
    assert Fresh(schema, inherited, c) && Has(schema, inherited, ParentsOf(schema, c)[i].0, f);
  }

  // Such a schema: p inherits from g, both have the column, and c inherits from p. The entry of c
  // names g, but the walk ends at p.
  const REPEATED: Schema :=
    Schema(["g", "p", "c"], map["p" := [("g", "g_id")], "c" := [("p", "p_id")]], map["g" := {"f"}, "p" := {"f", "g_id"}, "c" := {"p_id"}])

  function RepeatedRank(m: Name): nat
  {
    if m == "c" then 2 else if m == "p" then 1 else 0
  }

  const REPEATED_SOURCES: map<Name, Sources> :=
    map["p" := map["f" := Source("g", "g_id", "g")],
        "c" := map["f" := Source("p", "p_id", "g"), "g_id" := Source("p", "p_id", "p")]]

  lemma RepeatedEntryOfP()
    ensures Fresh(REPEATED, REPEATED_SOURCES, "g") && Fresh(REPEATED, REPEATED_SOURCES, "p")
  {
    assert ParentsOf(REPEATED, "p")[..0] == [];
  }

  lemma RepeatedEntryOfC()
    ensures Fresh(REPEATED, REPEATED_SOURCES, "c")
  {
    assert ParentsOf(REPEATED, "c")[..0] == [];
  }

  lemma RepeatedIsFresh()
    ensures Acyclic(REPEATED, RepeatedRank) && Closed(REPEATED) && AllFresh(REPEATED, REPEATED_SOURCES)
  {
    RepeatedEntryOfP();
    RepeatedEntryOfC();
  }

  lemma RepeatedColumnMisleads()
    ensures Acyclic(REPEATED, RepeatedRank) && Closed(REPEATED) && AllFresh(REPEATED, REPEATED_SOURCES)
    ensures REPEATED_SOURCES["c"]["f"].original == "g" && OwnerOf(REPEATED, RepeatedRank, "c", "f") == "p"
  {
    RepeatedIsFresh();
    assert ParentsOf(REPEATED, "c")[..0] == [];
    assert Offers(REPEATED, RepeatedRank, "p", "f");
  }
}
