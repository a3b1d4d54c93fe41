/** A table with a `parent_id` column and the nested-set columns the ORM keeps for it:
    record creation, parent-changing writes, deletion and full recomputation. */
module HierarchyTables {
  import opened Wrappers
  import opened Forests
  import opened NestedSets
  import opened Listings
  import opened Placements
  import opened Numbering
  import opened HierarchyOperations

  datatype WriteOutcome = Written | AccessError | ForeignKeyViolation | RecursivityDetected

  predicate Refused(outcome: WriteOutcome)
  {
    outcome == AccessError || outcome == ForeignKeyViolation
  }

  class HierarchyTable {
    var parent: ParentMap
    var left: Column
    var right: Column
    var key: Column   // `_parent_order`

    // The shape every operation keeps: one cell per row, parents are rows.
    ghost predicate Shape()
      reads this
    {
      Closed(parent) && left.Keys == parent.Keys && right.Keys == parent.Keys && key.Keys == parent.Keys
    }

    // The columns index the forest.
    ghost predicate Valid()
      reads this
    {
      Shape() && Indexed(parent, left, right)
    }

    constructor ()
      ensures Valid() && parent == map[]
    {
      parent, left, right, key := map[], map[], map[], map[];
    }

    method UpdateLeftFrom(d: int, c: int)
      modifies this`left
      ensures left == ShiftFrom(old(left), d, c)
    {
      left := ShiftFrom(left, d, c);
    }

    method UpdateRightFrom(d: int, c: int)
      modifies this`right
      ensures right == ShiftFrom(old(right), d, c)
    {
      right := ShiftFrom(right, d, c);
    }

    method UpdateBlock(d: int, lo: int, hi: int)
      modifies this`left, this`right
      ensures left == ShiftRows(old(left), old(left), d, lo, hi)
      ensures right == ShiftRows(old(right), old(left), d, lo, hi)
    {
      left, right := ShiftRows(left, left, d, lo, hi), ShiftRows(right, left, d, lo, hi);
    }

    // The largest right end; 0 in an empty table.
    method MaxRight() returns (m: int)
      ensures right.Keys != {} ==> exists x :: x in right && m == right[x]
      ensures forall x :: x in right ==> right[x] <= m
      ensures right.Keys == {} ==> m == 0
    {
      m := 0;
      if right.Keys != {} {
        var x := Pick(right.Keys);
        m := right[x];
        var unseen := right.Keys;
        while unseen != {}
          invariant unseen <= right.Keys
          invariant exists x :: x in right && m == right[x]
          invariant forall y :: y in right && y !in unseen ==> right[y] <= m
          decreases unseen
        {
          var y := Pick(unseen);
          if m < right[y] {
            m := right[y];
          }
          unseen := unseen - {y};
        }
      }
    }

    // The end of the last numbered sibling listed before the first unnumbered one.
    method LastRightBefore(siblings: seq<Id>, id: Id) returns (found: Option<int>, ghost prev: Option<Id>)
      requires forall s :: s in siblings ==> s == id || (s in right && right[s] > 0)
      requires id !in right
      ensures found.Some? == prev.Some?
      ensures prev.Some? ==> exists i :: 0 <= i < |siblings| && siblings[i] == prev.value && id !in siblings[..i + 1]
                                       && (i + 1 == |siblings| || siblings[i + 1] == id)
      ensures prev.Some? ==> prev.value in right && found == Some(right[prev.value])
      ensures prev.None? ==> siblings == [] || siblings[0] == id
    {
      found, prev := None, None;
      var i := 0;
      while i < |siblings|
        invariant 0 <= i <= |siblings|
        invariant id !in siblings[..i]
        invariant i == 0 ==> found == None && prev == None
        invariant i > 0 ==> prev == Some(siblings[i - 1]) && prev.value in right && found == Some(right[prev.value])
      {
        if siblings[i] !in right || right[siblings[i]] == 0 {
          break;
        }
        found, prev := Some(right[siblings[i]]), Some(siblings[i]);
        i := i + 1;
      }
      if prev.Some? {
        assert siblings[i - 1] == prev.value && siblings[..i - 1 + 1] == siblings[..i];
      }
    }

    // The end of the interval after which a new record goes: its last sibling in key order
    // before it, else the start of its parent; for a root, the end of the table.
    method FindCreatePosition(id: Id, target: Option<Id>, ghost forest: ParentMap) returns (pleft: int)
      requires parent == forest[id := target] && id !in forest && key.Keys == parent.Keys
      requires Indexed(forest, left, right)
      requires target.Some? ==> target.value in forest
      ensures pleft >= 0
      ensures CutUnder(forest.Keys, left, right, pleft + 1, target)
      ensures target == None ==> forall x :: x in right ==> right[x] <= pleft
      ensures SiblingsOrdered(forest, left, key) && StrictKeys(key) ==>
                CutInOrder(forest, left, key, id, pleft + 1, target)
    {
      forall x | x in forest
        ensures 0 <= left[x] < right[x]
      {
        PairFacts(forest, left, right, x, x);
      }
      if target.Some? {
        var siblings := SelectOrdered(Children(parent, target), key);
        var found, prev := LastRightBefore(siblings, id);
        assert id in siblings && forall s :: s in siblings && s != id ==> forest[s] == target;
        if found.Some? {
          assert forest[prev.value] == target;
          pleft := found.value;
          CutAfterSibling(forest, left, right, prev.value);
          CutOrderAfterSibling(forest, left, right, key, siblings, id, prev.value);
        } else {
          pleft := left[target.value];
          CutAfterStart(forest, left, right, target.value);
          CutOrderAtStart(forest, left, right, key, siblings, id, target.value);
        }
      } else {
        pleft := MaxRight();
        forall y | y in forest
          ensures !Straddles(left, right, pleft + 1, y)
        {
        }
      }
    }

    // Create a record under `target`, or as a root; false when the foreign key refuses the parent.
    method Create(id: Id, target: Option<Id>, k: int) returns (ok: bool, ghost c: int)
      requires Valid() && id !in parent
      modifies this
      ensures Valid() && (ok <==> target.Some? ==> target.value in old(parent))
      ensures !ok ==> parent == old(parent) && key == old(key) && left == old(left) && right == old(right)
      ensures ok ==> parent == old(parent)[id := target] && key == old(key)[id := k]
      ensures ok ==> left == ShiftFrom(old(left), 2, c)[id := c]
      ensures ok ==> right == ShiftFrom(old(right), 2, c)[id := c + 1]
      ensures ok && target == None ==> forall x :: x in old(right) ==> old(right)[x] < c
      ensures ok ==> c >= 1
      ensures ok && old(SiblingsOrdered(parent, left, key)) && StrictKeys(key) ==> SiblingsOrdered(parent, left, key)
    {
      if target.Some? && target.value !in parent {
        return false, 0;
      }
      ghost var forest := parent;
      NewKeyKeepsOrder(forest, left, key, id, k);
      parent, key := parent[id := target], key[id := k];
      c := IndexNew(id, target, forest);
      ok := true;
    }

    // Give a row just inserted its place in the index.
    method IndexNew(id: Id, target: Option<Id>, ghost forest: ParentMap) returns (ghost c: int)
      requires parent == forest[id := target] && id !in forest && key.Keys == parent.Keys
      requires Indexed(forest, left, right) && (target.Some? ==> target.value in forest)
      modifies this`left, this`right
      ensures Valid() && c >= 1
      ensures left == ShiftFrom(old(left), 2, c)[id := c] && right == ShiftFrom(old(right), 2, c)[id := c + 1]
      ensures target == None ==> forall x :: x in old(right) ==> old(right)[x] < c
      ensures old(SiblingsOrdered(forest, left, key)) && StrictKeys(key) ==> SiblingsOrdered(parent, left, key)
    {
      ghost var left0, right0 := left, right;
      var pleft := FindCreatePosition(id, target, forest);
      c := pleft + 1;
      InsertAfter(id, pleft);
      CreateKeepsIndex(forest, left0, right0, key, id, c, target);
    }

    // Open a gap of two after pleft and give it to id.
    method InsertAfter(id: Id, pleft: int)
      modifies this`left, this`right
      ensures left == ShiftFrom(old(left), 2, pleft + 1)[id := pleft + 1]
      ensures right == ShiftFrom(old(right), 2, pleft + 1)[id := pleft + 2]
    {
      UpdateLeftFrom(2, pleft + 1);
      UpdateRightFrom(2, pleft + 1);
      left, right := left[id := pleft + 1], right[id := pleft + 2];
    }

    // The insertion point of a moved record among its new siblings.
    method FindMovePosition(id: Id, target: Option<Id>, ghost index: ParentMap) returns (position: int, ghost prev: Option<Id>)
      requires Shape() && index.Keys == parent.Keys && Indexed(index, left, right)
      requires id in parent && parent[id] == target
      ensures position >= 1
      ensures Precedes(parent, key, target, id, prev)
      ensures var owner := LandsUnder(index, left, target, prev);
              && (owner.Some? ==> owner.value in index)
              && CutUnder(index.Keys, left, right, position, owner)
      ensures prev.Some? ==> position == right[prev.value] + 1
      ensures prev.None? && target.Some? ==> target.value in index && position == left[target.value] + 1
      ensures prev.None? && target.None? ==> position == 1
    {
      var siblings := SelectOrdered(Children(parent, target), key);
      var found: Option<int> := None;
      prev := None;
      var i := 0;
      while i < |siblings| && siblings[i] != id
        invariant 0 <= i <= |siblings| && id !in siblings[..i]
        invariant i == 0 ==> found == None && prev == None
        invariant i > 0 ==> prev == Some(siblings[i - 1]) && found == Some(right[siblings[i - 1]] + 1)
      {
        found, prev := Some(right[siblings[i]] + 1), Some(siblings[i]);
        i := i + 1;
      }
      ListedBefore(parent, key, target, siblings, id, i);
      assert Precedes(parent, key, target, id, prev);
      if prev.Some? {
        PairFacts(index, left, right, prev.value, prev.value);
      }
      if found.Some? && found.value != 0 {
        position := found.value;
        CutAfterSibling(index, left, right, prev.value);
      } else {
        if target == None {
          position := 1;
          CutAtOne(index, left, right);
        } else {
          position := left[target.value] + 1;
          CutAfterStart(index, left, right, target.value);
          PairFacts(index, left, right, target.value, target.value);
        }
      }
    }

    // The UPDATE statements that move the block of id to `position`.
    method Relocate(id: Id, position: int)
      requires id in left && id in right
      requires left[id] < right[id] && !(left[id] < position <= right[id])
      modifies this`left, this`right
      ensures left == AfterMove(old(left), old(left), old(right), id, position)
      ensures right == AfterMove(old(right), old(left), old(right), id, position)
    {
      var pleft, pright := left[id], right[id];
      var distance := pright - pleft + 1;
      ghost var left0, right0 := left, right;
      UpdateLeftFrom(distance, position);
      UpdateRightFrom(distance, position);
      if pleft < position {
        BlockShift(left0, left0, right0, id, position, position - pleft, pleft, pright);
        BlockShift(right0, left0, right0, id, position, position - pleft, pleft, pright);
        UpdateBlock(position - pleft, pleft, pright);
      } else {
        BlockShift(left0, left0, right0, id, position, -(pleft - position + distance), pleft + distance, pright + distance);
        BlockShift(right0, left0, right0, id, position, -(pleft - position + distance), pleft + distance, pright + distance);
        UpdateBlock(-(pleft - position + distance), pleft + distance, pright + distance);
      }
    }

    // One pass of the loop: find the position of id and move its block there.
    method MoveOne(id: Id, target: Option<Id>, ghost index: ParentMap) returns (ok: bool, ghost prev: Option<Id>)
      requires Shape() && index.Keys == parent.Keys && Indexed(index, left, right)
      requires id in parent && parent[id] == target
      modifies this`left, this`right
      ensures Precedes(parent, key, target, id, prev)
      ensures var owner := LandsUnder(index, old(left), target, prev);
              && (owner.Some? ==> owner.value in index)
              && (ok <==> !(owner.Some? && Below(index, owner.value, id)))
              && (ok ==> Indexed(index[id := owner], left, right))
              && (ok && old(SiblingsOrdered(index, left, key)) && StrictKeys(key)
                  && SiblingsAreChildren(index, parent, id, owner, target) ==>
                    SiblingsOrdered(index[id := owner], left, key))
      ensures ok ==> StandsAfter(left, right, id, target, prev) && BlockMoved(old(left), old(right), left, right, id)
      ensures !ok ==> left == old(left) && right == old(right)
      ensures left.Keys == old(left.Keys) && right.Keys == old(right.Keys)
      ensures forall z :: z in left && z != id && old(left)[z] == 0 ==> left[z] == 0
      ensures forall z :: z in left && old(left)[z] > 0 ==> left[z] > 0
    {
      var position;
      position, prev := FindMovePosition(id, target, index);
      MoveSummary(index, parent, left, right, key, id, position, target, prev);
      if left[id] < position <= right[id] {
        return false, prev;
      }
      BlockPlaced(index, left, right, id, position, target, prev);
      Relocate(id, position);
      ok := true;
    }

    // How far the write loop is: k records are moved, placed after `prevs`, and `index` is indexed.
    ghost predicate Moving(changed: seq<Id>, k: nat, ids: set<Id>, target: Option<Id>,
                           parent0: ParentMap, left0: Column, index: ParentMap, prevs: seq<Option<Id>>)
      reads this
    {
      && Shape() && parent == Reparent(parent0, ids, target) && (target.Some? ==> target.value in parent0)
      && index.Keys == parent.Keys && Indexed(index, left, right)
      && Progress(parent0, left0, key, ids, target, changed, k, index, left)
      && |prevs| == k && Placed(parent0, key, ids, target, changed, prevs, index)
    }

    // The pass for the k-th record, as the write loop sees it.
    method MovePass(changed: seq<Id>, k: nat, ids: set<Id>, target: Option<Id>,
                    ghost parent0: ParentMap, ghost left0: Column, ghost index0: ParentMap, ghost prevs: seq<Option<Id>>)
      returns (ok: bool, ghost index: ParentMap, ghost prev: Option<Id>)
      requires k < |changed| && Moving(changed, k, ids, target, parent0, left0, index0, prevs)
      modifies this`left, this`right
      ensures ok ==> Moving(changed, k + 1, ids, target, parent0, left0, index, prevs + [prev])
      ensures !ok ==> left == old(left) && right == old(right) && index == index0
      ensures !ok && Unambiguous(parent0, key, ids, target) ==> HasCycle(parent)
      ensures ok && StrictKeys(key) && LandsWell(parent0, left0, key, ids, target) ==>
                (old(SiblingsOrdered(index0, left, key)) ==> SiblingsOrdered(index, left, key))
    {
      ghost var leftK, rightK := left, right;
      assert changed[k] in Moved(parent0, ids, target);
      ok, prev := MoveOne(changed[k], target, index0);
      if !ok {
        if Unambiguous(parent0, key, ids, target) {
          StepFindsCycle(parent0, left0, key, ids, target, changed, k, index0, leftK, rightK, prev);
        }
        return false, index0, prev;
      }
      PlacedStep(parent0, left0, key, ids, target, changed, prevs, index0, leftK, prev);
      ProgressStep(parent0, left0, key, ids, target, changed, k, index0, leftK, rightK, left, prev);
      if StrictKeys(key) && LandsWell(parent0, left0, key, ids, target) {
        StepAmongSiblings(parent0, left0, key, ids, target, changed, k, index0, leftK, prev);
      }
      index := index0[changed[k] := LandsUnder(index0, leftK, target, prev)];
    }

    // The loop of a parent-changing write: move the blocks of `changed` one after the other.
    method MoveAll(changed: seq<Id>, ids: set<Id>, target: Option<Id>, ghost parent0: ParentMap)
      returns (ok: bool, ghost index: ParentMap, ghost prevs: seq<Option<Id>>)
      requires Shape() && parent == Reparent(parent0, ids, target)
      requires Indexed(parent0, left, right) && (target.Some? ==> target.value in parent0)
      requires Progress(parent0, left, key, ids, target, changed, 0, parent0, left)
      modifies this`left, this`right
      ensures |prevs| <= |changed| && Moving(changed, |prevs|, ids, target, parent0, old(left), index, prevs)
      ensures ok ==> |prevs| == |changed|
      ensures !ok && Unambiguous(parent0, key, ids, target) ==> HasCycle(parent)
      ensures old(RowAtZero(left)) == None ==> RowAtZero(left) == None
      ensures ok && StrictKeys(key) && LandsWell(parent0, old(left), key, ids, target) ==>
                (old(SiblingsOrdered(parent0, left, key)) ==> SiblingsOrdered(index, left, key))
    {
      index, prevs := parent0, [];
      ghost var left0 := left;
      ghost var ordered := StrictKeys(key) && LandsWell(parent0, left0, key, ids, target) && SiblingsOrdered(parent0, left0, key);
      var k := 0;
      while k < |changed|
        invariant 0 <= k <= |changed| && Moving(changed, k, ids, target, parent0, left0, index, prevs)
        invariant ordered ==> SiblingsOrdered(index, left, key)
      {
        ghost var prev;
        ok, index, prev := MovePass(changed, k, ids, target, parent0, left0, index, prevs);
        if !ok {
          return;
        }
        prevs := prevs + [prev];
        k := k + 1;
      }
      ok := true;
    }

    // Give every record of `ids` the parent `target`, then move the blocks of those whose
    // parent changed, one after the other in key order. On RecursivityDetected the caller
    // rolls the transaction back.
    method Write(ids: set<Id>, target: Option<Id>) returns (outcome: WriteOutcome, ghost index: ParentMap)
      requires Valid()
      modifies this`parent, this`left, this`right
      ensures outcome == ForeignKeyViolation <==>
                target.Some? && target.value !in old(parent) && exists x :: x in ids && x in old(parent)
      ensures outcome == AccessError <==> outcome != ForeignKeyViolation && !(ids <= old(parent.Keys))
      ensures Refused(outcome) ==> parent == old(parent) && left == old(left) && right == old(right)
      ensures !Refused(outcome) ==> parent == old(Reparent(parent, ids, target))
      ensures !Refused(outcome) ==> Shape() && index.Keys == parent.Keys && Indexed(index, left, right)
      ensures !Refused(outcome) && old(Unambiguous(parent, key, ids, target)) ==>
                (outcome == RecursivityDetected <==> HasCycle(parent))
      ensures outcome == Written && old(LandsWell(parent, left, key, ids, target)) ==> Indexed(parent, left, right)
      ensures outcome == Written && old(MovesBeforeRowZero(parent, left, key, ids, target)) ==> !Indexed(parent, left, right)
      ensures outcome == Written && StrictKeys(key) ==>
                (Indexed(parent, left, right) <==> !old(MovesBeforeRowZero(parent, left, key, ids, target)))
      ensures outcome == Written && old(RowAtZero(left)) == None ==> RowAtZero(left) == None
      ensures outcome == Written && StrictKeys(key) && Indexed(parent, left, right) ==>
                (old(SiblingsOrdered(parent, left, key)) ==> SiblingsOrdered(parent, left, key))
    {
      index := parent;
      IndexedIsAcyclic(parent, left, right);
      if ids == {} {
        assert Reparent(parent, ids, target) == parent;
        return Written, index;
      }
      var found := ids * parent.Keys;
      assert forall x :: x in found <==> x in ids && x in parent;
      if target.Some? && target.value !in parent && found != {} {
        var x := Pick(found);
        return ForeignKeyViolation, index;
      }
      if found != ids {
        return AccessError, index;
      }
      var x := Pick(ids);
      outcome, index := Reindex(ids, target);
    }

    // A write of existing records to an existing parent.
    method Reindex(ids: set<Id>, target: Option<Id>) returns (outcome: WriteOutcome, ghost index: ParentMap)
      requires Valid() && ids <= parent.Keys && (target.Some? ==> target.value in parent)
      modifies this`parent, this`left, this`right
      ensures outcome == Written || outcome == RecursivityDetected
      ensures parent == old(Reparent(parent, ids, target))
      ensures Shape() && index.Keys == parent.Keys && Indexed(index, left, right)
      ensures old(Unambiguous(parent, key, ids, target)) ==> (outcome == RecursivityDetected <==> HasCycle(parent))
      ensures outcome == Written && old(LandsWell(parent, left, key, ids, target)) ==> Indexed(parent, left, right)
      ensures outcome == Written && old(MovesBeforeRowZero(parent, left, key, ids, target)) ==> !Indexed(parent, left, right)
      ensures outcome == Written && StrictKeys(key) ==>
                (Indexed(parent, left, right) <==> !old(MovesBeforeRowZero(parent, left, key, ids, target)))
      ensures outcome == Written && old(RowAtZero(left)) == None ==> RowAtZero(left) == None
      ensures outcome == Written && StrictKeys(key) && Indexed(parent, left, right) ==>
                (old(SiblingsOrdered(parent, left, key)) ==> SiblingsOrdered(parent, left, key))
    {
      index := parent;
      ghost var parent0, left0 := parent, left;
      var changed := SelectOrdered(Moved(parent, ids, target), key);
      ProgressStarts(parent, left, right, key, ids, target, changed);
      IndexedIsAcyclic(parent, left, right);
      parent := Reparent(parent, ids, target);
      var ok;
      ghost var prevs;
      ok, index, prevs := MoveAll(changed, ids, target, parent0);
      if !ok {
        return RecursivityDetected, index;
      }
      ProgressDone(parent0, left0, key, ids, target, changed, index, left, right);
      outcome := Written;
    }

    // Number the records listed in `ids` (the children of `owner`, or the roots) and
    // everything below them from pos on. `path` is the chain of ancestors of those records
    // and `done` what has been numbered elsewhere.
    method NumberAll(ids: seq<Id>, pos: int, ghost owner: Option<Id>, ghost path: seq<Id>, ghost done: set<Id>)
      returns (next: int, ghost seen: set<Id>)
      requires Closed(parent) && key.Keys == parent.Keys && pos >= 0
      requires PathTo(parent, path, owner)
      requires IsListing(ids, Children(parent, owner), key)
      requires NumberedApart(parent, path, done) && forall i :: 0 <= i < |ids| ==> ids[i] !in done
      modifies this`left, this`right
      ensures Covers(parent, ids, path, done, seen)
      ensures Numbered(parent, left, right, key, seen, pos, next)
      ensures OthersKept(old(left), left, seen) && OthersKept(old(right), right, seen)
      decreases |parent| - |path|, 1
    {
      ghost var par, ks, left0, right0 := parent, key, left, right;
      next, seen := pos, {};
      var i := 0;
      while i < |ids|
        invariant 0 <= i <= |ids| && parent == par && key == ks
        invariant Covers(par, ids[..i], path, done, seen)
        invariant Numbered(par, left, right, ks, seen, pos, next)
        invariant OthersKept(left0, left, seen) && OthersKept(right0, right, seen)
      {
        next, seen := NumberNext(ids, i, pos, next, owner, path, done, seen, left0, right0);
        i := i + 1;
      }
      assert ids[..i] == ids;
    }

    // The next record listed, and everything below it.
    method NumberNext(ids: seq<Id>, i: nat, ghost pos: int, next: int, ghost owner: Option<Id>, ghost path: seq<Id>,
                      ghost done: set<Id>, ghost seen: set<Id>, ghost left0: Column, ghost right0: Column)
      returns (next': int, ghost seen': set<Id>)
      requires Closed(parent) && key.Keys == parent.Keys && pos >= 0
      requires PathTo(parent, path, owner)
      requires IsListing(ids, Children(parent, owner), key) && i < |ids| && ids[i] !in done
      requires NumberedApart(parent, path, done) && Covers(parent, ids[..i], path, done, seen)
      requires Numbered(parent, left, right, key, seen, pos, next)
      requires OthersKept(left0, left, seen) && OthersKept(right0, right, seen)
      modifies this`left, this`right
      ensures Covers(parent, ids[..i + 1], path, done, seen')
      ensures Numbered(parent, left, right, key, seen', pos, next')
      ensures OthersKept(left0, left, seen') && OthersKept(right0, right, seen')
      decreases |parent| - |path|, 0
    {
      ghost var par, ks, left1, right1 := parent, key, left, right;
      NextIsNew(par, ks, owner, ids, i, path, done, seen);
      ghost var sub;
      next', sub := NumberSubtree(ids[i], next, path + [ids[i]], done + seen);
      BatchDone(par, ks, owner, ids, i, path, done, seen, sub, left0, left1, left, right0, right1, right, pos, next, next');
      seen' := seen + sub;
    }

    // browse_rec: number root and everything below it from pos on.
    method NumberSubtree(root: Id, pos: int, ghost path: seq<Id>, ghost done: set<Id>) returns (next: int, ghost seen: set<Id>)
      requires Closed(parent) && key.Keys == parent.Keys && pos >= 0
      requires path != [] && PathTo(parent, path, Some(root))
      requires NumberedApart(parent, path[..|path| - 1], done) && root !in done
      modifies this`left, this`right
      ensures Covers(parent, [root], path[..|path| - 1], done, seen)
      ensures Numbered(parent, left, right, key, seen, pos, next)
      ensures OthersKept(old(left), left, seen) && OthersKept(old(right), right, seen)
      decreases |parent| - |path|, 2
    {
      ghost var left0, right0 := left, right;
      var children := SelectOrdered(Children(parent, Some(root)), key);
      var pos2 := pos + 1;
      ChildrenAreNew(parent, key, root, children, path, done);
      pos2, seen := NumberAll(children, pos2, Some(root), path, done);
      SubtreeDone(parent, key, root, children, path, done, seen, left0, left, right0, right, pos, pos2);
      left, right := left[root := pos], right[root := pos2];
      seen := seen + {root};
      next := pos2 + 1;
    }

    // Recompute the whole index; rows on or below a parent cycle are not reached.
    method ParentStoreCompute() returns (ghost seen: set<Id>)
      requires Closed(parent) && key.Keys == parent.Keys && left.Keys <= parent.Keys && right.Keys <= parent.Keys
      modifies this`left, this`right
      ensures forall x :: x in seen <==> x in parent && Rooted(parent, x)
      ensures Numbered(parent, left, right, key, seen, 0, 2 * |seen|)
      ensures !HasCycle(parent) ==> seen == parent.Keys && Valid() && SiblingsOrdered(parent, left, key)
    {
      var roots := SelectOrdered(Children(parent, None), key);
      var pos;
      pos, seen := NumberAll(roots, 0, None, [], {});
      RecomputeDone(parent, old(left), old(right), left, right, key, roots, seen, pos);
    }

    // Delete records; `parent_id` is declared with ondelete='cascade', so whatever is below
    // them goes too.
    method Unlink(ids: set<Id>) returns (ghost gone: set<Id>)
      requires Valid()
      modifies this
      ensures Valid()
      ensures forall x :: x in gone <==> x in old(parent) && BelowAny(old(parent), x, ids)
      ensures parent == old(parent) - gone && key == old(key) - gone
      ensures left == old(left) - gone && right == old(right) - gone
      ensures old(SiblingsOrdered(parent, left, key)) ==> SiblingsOrdered(parent, left, key)
    {
      var doomed := set x | x in ids && x in parent;
      forall x | x in doomed
        ensures BelowAny(parent, x, ids)
      {
        BelowSelf(parent, x);
      }
      var next := set x | x in parent && x !in doomed && parent[x].Some? && parent[x].value in doomed;
      while next != {}
        invariant doomed <= parent.Keys && forall x :: x in ids && x in parent ==> x in doomed
        invariant forall x :: x in doomed ==> BelowAny(parent, x, ids)
        invariant next == set x | x in parent && x !in doomed && parent[x].Some? && parent[x].value in doomed
        decreases parent.Keys - doomed
      {
        forall x | x in next
          ensures BelowAny(parent, x, ids)
        {
          var p := parent[x].value;
          var a :| a in ids && Below(parent, p, a);
          BelowParent(parent, x, p, a);
        }
        assert doomed < doomed + next;
        doomed := doomed + next;
        next := set x | x in parent && x !in doomed && parent[x].Some? && parent[x].value in doomed;
      }
      gone := doomed;
      assert forall x :: x in parent && parent[x].Some? && parent[x].value in doomed ==> x in next + doomed;
      forall x | x in parent && BelowAny(parent, x, ids)
        ensures x in doomed
      {
        var a :| a in ids && Below(parent, x, a);
        var n: nat :| Up(parent, x, n) == Some(a);
        UpStaysInside(parent, x, n);
        ClosedSetHoldsSubtree(parent, doomed, x, a, n);
      }
      RestrictKeepsIndex(parent, left, right, doomed);
      RestrictKeepsOrder(parent, left, key, doomed);
      parent, left, right, key := parent - doomed, left - doomed, right - doomed, key - doomed;
    }

    // ------------------------------------------------------------------
    // Runs

    ghost function Forest(): Plain
      reads this
    {
      Plain(parent, key)
    }

    // The columns index the forest, and no row is numbered 0.
    ghost predicate Sound()
      reads this
    {
      Valid() && RowAtZero(left) == None
    }

    ghost predicate InOrder()
      reads this
      requires Valid()
    {
      SiblingsOrdered(parent, left, key)
    }

    // A write; when it would close a cycle, the transaction is rolled back.
    method Reparented(ids: set<Id>, target: Option<Id>)
      requires Sound() && Unambiguous(parent, key, ids, target)
      modifies this`parent, this`left, this`right
      ensures Sound() && Forest() == After(old(Forest()), Reparenting(ids, target))
      ensures old(InOrder()) && StrictKeys(key) ==> InOrder()
    {
      var parent0, left0, right0 := parent, left, right;
      var outcome;
      ghost var index;
      outcome, index := Write(ids, target);
      if outcome == RecursivityDetected {
        parent, left, right := parent0, left0, right0;
      } else if outcome == Written {
        IndexedIsAcyclic(parent, left, right);
      }
    }

    // One request.
    method Do(op: Operation)
      requires Sound() && Clear(Forest(), op)
      modifies this
      ensures Sound() && Forest() == After(old(Forest()), op)
      ensures old(InOrder()) && old(StrictKeys(key)) && StrictKeys(key) ==> InOrder()
    {
      match op
      case Creation(id, target, k) =>
        if id !in parent {
          var ok;
          ghost var c;
          ok, c := Create(id, target, k);
        }
      case Reparenting(ids, target) =>
        Reparented(ids, target);
      case Deletion(ids) =>
        ghost var gone := Unlink(ids);
    }

    // Any run of requests: the columns index the forest that the plain operations give.
    method Run(ops: seq<Operation>)
      requires Sound() && AllClear(Forest(), ops)
      modifies this
      ensures Sound() && Forest() == AfterAll(old(Forest()), ops)
      ensures old(InOrder()) && AlwaysStrict(old(Forest()), ops) ==> InOrder()
    {
      ghost var start := Forest();
      var i := 0;
      while i < |ops|
        invariant 0 <= i <= |ops| && Sound() && Forest() == AfterAll(start, ops[..i])
        invariant old(InOrder()) && AlwaysStrict(start, ops) ==> InOrder()
      {
        OneMoreOperation(start, ops, i);
        Do(ops[i]);
        i := i + 1;
      }
      assert ops[..i] == ops;
    }
  }
}
