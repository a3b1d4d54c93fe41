/** What creating, reparenting and deleting records do to a hierarchical table without an index:
    the plain forest that the nested-set columns have to follow. */
module HierarchyOperations {
  import opened Wrappers
  import opened Forests
  import opened NestedSets
  import opened Listings
  import opened Placements

  datatype Plain = Plain(parent: ParentMap, key: Column)

  datatype Operation =
    | Creation(id: Id, target: Option<Id>, key: int)
    | Reparenting(ids: set<Id>, target: Option<Id>)
    | Deletion(ids: set<Id>)

  // The foreign key refuses a missing parent, a write one of its records that is missing, and
  // what would close a cycle is rolled back.
  ghost function After(p: Plain, op: Operation): Plain
  {
    match op
    case Creation(id, target, k) =>
      if id in p.parent || (target.Some? && target.value !in p.parent) then p
      else Plain(p.parent[id := target], p.key[id := k])
    case Reparenting(ids, target) =>
      if !(ids <= p.parent.Keys) || (target.Some? && target.value !in p.parent && exists x :: x in ids)
        || HasCycle(Reparent(p.parent, ids, target))
      then p
      else Plain(Reparent(p.parent, ids, target), p.key)
    case Deletion(ids) =>
      var gone := set x | x in p.parent && BelowAny(p.parent, x, ids);
      Plain(p.parent - gone, p.key - gone)
  }

  ghost function AfterAll(p: Plain, ops: seq<Operation>): Plain
  {
    if ops == [] then p else After(AfterAll(p, ops[..|ops| - 1]), ops[|ops| - 1])
  }

  // No two records moved together have the same key.
  ghost predicate Clear(p: Plain, op: Operation)
  {
    op.Reparenting? ==> Unambiguous(p.parent, p.key, op.ids, op.target)
  }

  ghost predicate AllClear(p: Plain, ops: seq<Operation>)
  {
    forall i {:trigger ops[i]} :: 0 <= i < |ops| ==> Clear(AfterAll(p, ops[..i]), ops[i])
  }

  // No two records have the same key at any time.
  ghost predicate AlwaysStrict(p: Plain, ops: seq<Operation>)
  {
    forall i {:trigger ops[..i]} :: 0 <= i <= |ops| ==> StrictKeys(AfterAll(p, ops[..i]).key)
  }

  lemma OneMoreOperation(p: Plain, ops: seq<Operation>, i: nat)
    requires i < |ops|
    ensures AfterAll(p, ops[..i + 1]) == After(AfterAll(p, ops[..i]), ops[i])
  {
    assert ops[..i + 1][..i] == ops[..i];
  }

  // Distinct keys in the whole table are more than any operation needs.
  lemma StrictIsClear(p: Plain, ops: seq<Operation>)
    requires AlwaysStrict(p, ops)
    ensures AllClear(p, ops)
  {
    forall i | 0 <= i < |ops|
      ensures Clear(AfterAll(p, ops[..i]), ops[i])
    {
      assert StrictKeys(AfterAll(p, ops[..i]).key);
    }
  }
}
