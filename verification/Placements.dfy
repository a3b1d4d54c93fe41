/** Where creating and reparenting records put their intervals, and what a whole
    parent-changing write makes of the index. */
module Placements {
  import opened Wrappers
  import opened Forests
  import opened NestedSets
  import opened Listings

  // The row numbered from 0, if there is one.
  ghost function RowAtZero(left: Column): Option<Id>
  {
    if exists z :: z in left && left[z] == 0 then var z :| z in left && left[z] == 0; Some(z) else None
  }

  // The rows a write to `target` has to move.
  function Moved(parent: ParentMap, ids: set<Id>, target: Option<Id>): set<Id>
  {
    set x | x in ids && x in parent && parent[x] != target
  }

  // A write to the root level that moves a record before every other root, in a table
  // numbered from 0.
  ghost predicate MovesBeforeRowZero(parent: ParentMap, left: Column, key: Column, ids: set<Id>, target: Option<Id>)
    requires parent.Keys <= key.Keys
  {
    && target == None
    && RowAtZero(left).Some?
    && exists id :: id in Moved(parent, ids, None) &&
         forall r :: r in parent && r != id && (parent[r] == None || r in ids) ==> key[id] < key[r]
  }

  // The same when ties may put the record first: whether it is moved before every other root
  // is then up to the listing.
  ghost predicate MayMoveBeforeRowZero(parent: ParentMap, left: Column, key: Column, ids: set<Id>, target: Option<Id>)
    requires parent.Keys <= key.Keys
  {
    && target == None
    && RowAtZero(left).Some?
    && exists id :: id in Moved(parent, ids, None) &&
         forall r :: r in parent && r != id && (parent[r] == None || r in ids) ==> key[id] <= key[r]
  }

  // With strict keys there is no difference.
  lemma StrictOrMay(parent: ParentMap, left: Column, key: Column, ids: set<Id>, target: Option<Id>)
    requires parent.Keys <= key.Keys
    ensures MovesBeforeRowZero(parent, left, key, ids, target) ==> MayMoveBeforeRowZero(parent, left, key, ids, target)
    ensures StrictKeys(key) && MayMoveBeforeRowZero(parent, left, key, ids, target) ==>
              MovesBeforeRowZero(parent, left, key, ids, target)
  {
    if StrictKeys(key) && MayMoveBeforeRowZero(parent, left, key, ids, target) {
      var id :| id in Moved(parent, ids, None) &&
                forall r :: r in parent && r != id && (parent[r] == None || r in ids) ==> key[id] <= key[r];
      assert forall r :: r in parent && r != id && (parent[r] == None || r in ids) ==> key[id] < key[r];
    }
  }

  // `prev` directly precedes `id` in the listing of the children of prev's parent.
  lemma CutOrderAfterSibling(forest: ParentMap, left: Column, right: Column, key: Column, siblings: seq<Id>, id: Id, prev: Id)
    requires Indexed(forest, left, right) && forest.Keys <= key.Keys && id in key
    requires prev in forest && forest[prev].Some?
    requires forall s :: s in forest && s != id && forest[s] == forest[prev] ==> s in siblings
    requires IsListing(siblings, (set x | x in siblings), key)
    requires exists i :: 0 <= i < |siblings| - 1 && siblings[i] == prev && siblings[i + 1] == id
    ensures SiblingsOrdered(forest, left, key) && StrictKeys(key) ==>
              CutInOrder(forest, left, key, id, right[prev] + 1, forest[prev])
  {
    if SiblingsOrdered(forest, left, key) && StrictKeys(key) {
      var i :| 0 <= i < |siblings| - 1 && siblings[i] == prev && siblings[i + 1] == id;
      forall s | s in forest && s != id && forest[s] == forest[prev]
        ensures RightSide(left, key, id, right[prev] + 1, s)
      {
        var j :| 0 <= j < |siblings| && siblings[j] == s;
        PairFacts(forest, left, right, s, prev);
        assert PairInOrder(forest, left, key, s, prev) && PairInOrder(forest, left, key, prev, s);
        PairFacts(forest, left, right, prev, forest[prev].value);
      }
    }
  }

  lemma CutOrderAtStart(forest: ParentMap, left: Column, right: Column, key: Column, siblings: seq<Id>, id: Id, owner: Id)
    requires Indexed(forest, left, right) && forest.Keys <= key.Keys && id in key && owner in forest
    requires forall s :: s in forest && s != id && forest[s] == Some(owner) ==> s in siblings
    requires IsListing(siblings, (set x | x in siblings), key)
    requires siblings != [] && siblings[0] == id
    ensures CutInOrder(forest, left, key, id, left[owner] + 1, Some(owner))
  {
    forall s | s in forest && s != id && forest[s] == Some(owner)
      ensures RightSide(left, key, id, left[owner] + 1, s)
    {
      PairFacts(forest, left, right, s, owner);
    }
  }

  lemma NewKeyKeepsOrder(forest: ParentMap, left: Column, key: Column, id: Id, k: int)
    requires forest.Keys <= left.Keys && forest.Keys <= key.Keys && id !in forest
    ensures SiblingsOrdered(forest, left, key) ==> SiblingsOrdered(forest, left, key[id := k])
  {
    if SiblingsOrdered(forest, left, key) {
      forall x, y | x in forest && y in forest
        ensures PairInOrder(forest, left, key[id := k], x, y)
      {
        assert PairInOrder(forest, left, key, x, y);
      }
    }
  }

  lemma CreateKeepsIndex(forest: ParentMap, left: Column, right: Column, key: Column, id: Id, c: int, target: Option<Id>)
    requires Indexed(forest, left, right) && id !in forest && id in key && forest.Keys <= key.Keys && c >= 0
    requires target.Some? ==> target.value in forest
    requires CutUnder(forest.Keys, left, right, c, target)
    ensures var l, r := ShiftFrom(left, 2, c)[id := c], ShiftFrom(right, 2, c)[id := c + 1];
            && Indexed(forest[id := target], l, r)
            && (SiblingsOrdered(forest, left, key) && CutInOrder(forest, left, key, id, c, target) ==>
                  SiblingsOrdered(forest[id := target], l, key))
  {
    OpenGapKeepsIndex(forest, left, right, c, 2, target);
    InsertKeepsIndex(forest, ShiftFrom(left, 2, c), ShiftFrom(right, 2, c), id, c, target);
    if SiblingsOrdered(forest, left, key) && CutInOrder(forest, left, key, id, c, target) {
      OpenGapKeepsOrder(forest, left, key, id, c, 2, target);
      InsertKeepsOrder(forest, ShiftFrom(left, 2, c), key, id, c, target);
    }
  }

  // A column after the block of id has been moved to position c: a gap opens before c and
  // the block is shifted into it.
  function AfterMove(col: Column, left: Column, right: Column, id: Id, c: int): Column
    requires id in left && id in right
  {
    var w := right[id] - left[id] + 1;
    var l := ShiftFrom(left, w, c);
    ShiftRows(ShiftFrom(col, w, c), l, c - l[id], l[id], l[id] + w - 1)
  }

  // The same with the numbers the two updates of the block are given.
  lemma BlockShift(col: Column, left: Column, right: Column, id: Id, c: int, d: int, lo: int, hi: int)
    requires id in left && id in right && left[id] < right[id]
    requires lo == (if left[id] < c then left[id] else right[id] + 1) && hi == lo + right[id] - left[id] && d == c - lo
    ensures var w := right[id] - left[id] + 1;
            ShiftRows(ShiftFrom(col, w, c), ShiftFrom(left, w, c), d, lo, hi) == AfterMove(col, left, right, id, c)
  {
  }

  lemma MoveKeepsIndex(index: ParentMap, left: Column, right: Column, id: Id, c: int, owner: Option<Id>)
    requires Indexed(index, left, right) && id in index && c >= 1
    requires owner.Some? ==> owner.value in index
    requires CutUnder(index.Keys, left, right, c, owner)
    requires !Straddles(left, right, c, id)
    ensures Indexed(index[id := owner], AfterMove(left, left, right, id, c), AfterMove(right, left, right, id, c))
  {
    var w := right[id] - left[id] + 1;
    PairFacts(index, left, right, id, id);
    var l, r := ShiftFrom(left, w, c), ShiftFrom(right, w, c);
    OpenGapKeepsIndex(index, left, right, c, w, owner);
    assert r[id] == l[id] + w - 1;
    RelocateKeepsIndex(index, l, r, id, c, owner);
    assert AfterMove(left, left, right, id, c) == ShiftRows(l, l, c - l[id], l[id], r[id]);
    assert AfterMove(right, left, right, id, c) == ShiftRows(r, l, c - l[id], l[id], r[id]);
  }

  lemma MoveKeepsOrder(index: ParentMap, left: Column, right: Column, key: Column, id: Id, c: int, owner: Option<Id>)
    requires Indexed(index, left, right) && id in index && c >= 1 && index.Keys <= key.Keys
    requires owner.Some? ==> owner.value in index
    requires CutUnder(index.Keys, left, right, c, owner)
    requires !Straddles(left, right, c, id)
    requires SiblingsOrdered(index, left, key) && CutInOrder(index, left, key, id, c, owner)
    ensures SiblingsOrdered(index[id := owner], AfterMove(left, left, right, id, c), key)
  {
    var w := right[id] - left[id] + 1;
    PairFacts(index, left, right, id, id);
    OpenGapKeepsIndex(index, left, right, c, w, owner);
    OpenGapKeepsOrder(index, left, key, id, c, w, owner);
    RelocateKeepsOrder(index, ShiftFrom(left, w, c), ShiftFrom(right, w, c), key, id, c, owner);
  }

  // A move to a position past 0 neither renumbers the row at 0 nor creates one.
  lemma MoveAndRowZero(index: ParentMap, left: Column, right: Column, id: Id, c: int, z: Id)
    requires Indexed(index, left, right) && id in index && z in index && c >= 1
    ensures z != id && left[z] == 0 ==> AfterMove(left, left, right, id, c)[z] == 0
    ensures left[z] > 0 ==> AfterMove(left, left, right, id, c)[z] > 0
  {
    PairFacts(index, left, right, z, id);
  }

  // Where a moved record ends up: `prev` is the last of its new siblings listed before it.
  ghost predicate Precedes(parent: ParentMap, key: Column, target: Option<Id>, id: Id, prev: Option<Id>)
    requires parent.Keys <= key.Keys && id in parent
  {
    && (prev.Some? ==>
          && prev.value in parent && prev.value != id
          && parent[prev.value] == target && key[prev.value] <= key[id])
    && forall s {:trigger ListedAround(parent, key, target, id, prev, s)} ::
         s in parent ==> ListedAround(parent, key, target, id, prev, s)
  }

  // A sibling s with a smaller key than id comes no later than prev.
  ghost predicate ListedAround(parent: ParentMap, key: Column, target: Option<Id>, id: Id, prev: Option<Id>, s: Id)
    requires parent.Keys <= key.Keys && id in parent && s in parent
  {
    s != id && parent[s] == target && key[s] < key[id] ==>
      prev.Some? && prev.value in key && key[s] <= key[prev.value]
  }

  lemma ListedBefore(parent: ParentMap, key: Column, target: Option<Id>, siblings: seq<Id>, id: Id, i: nat)
    requires parent.Keys <= key.Keys && id in parent && parent[id] == target
    requires IsListing(siblings, Children(parent, target), key)
    requires i <= |siblings| && id !in siblings[..i] && (i < |siblings| ==> siblings[i] == id)
    ensures Precedes(parent, key, target, id, if i == 0 then None else Some(siblings[i - 1]))
  {
    assert id in siblings;
    var prev := if i == 0 then None else Some(siblings[i - 1]);
    forall s | s in parent
      ensures ListedAround(parent, key, target, id, prev, s)
    {
      if s != id && parent[s] == target {
        assert s in siblings;
        var j :| 0 <= j < |siblings| && siblings[j] == s;
        assert s in siblings[..i] <==> j < i;
      }
    }
    if i > 0 {
      assert siblings[i - 1] in siblings && siblings[i - 1] in siblings[..i];
      var j :| 0 <= j < |siblings| && siblings[j] == id;
    }
  }

  // The record under which that position really lies, given the forest the columns index.
  ghost function LandsUnder(index: ParentMap, left: Column, target: Option<Id>, prev: Option<Id>): Option<Id>
    requires prev.Some? ==> prev.value in index
  {
    if prev.Some? then index[prev.value] else if target.Some? then target else RowAtZero(left)
  }

  // Position 1 is at the root level unless some row is numbered from 0.
  lemma CutAtOne(index: ParentMap, left: Column, right: Column)
    requires Indexed(index, left, right)
    ensures var zero := RowAtZero(left);
            (zero.Some? ==> zero.value in index && index[zero.value] == None)
            && CutUnder(index.Keys, left, right, 1, zero)
  {
    var zero := RowAtZero(left);
    forall y | y in index
      ensures Straddles(left, right, 1, y) <==> zero.Some? && InRange(left, right, zero.value, y)
    {
      PairFacts(index, left, right, y, y);
      if zero.Some? {
        PairFacts(index, left, right, y, zero.value);
      }
    }
    if zero.Some? && index[zero.value].Some? {
      PairFacts(index, left, right, zero.value, index[zero.value].value);
    }
  }

  // The rows indexed under `owner`, other than id, are children of `target` in the table.
  ghost predicate SiblingsAreChildren(index: ParentMap, parent: ParentMap, id: Id, owner: Option<Id>, target: Option<Id>)
    requires index.Keys == parent.Keys
  {
    owner.Some? ==> forall s :: s in index && s != id && index[s] == owner ==> parent[s] == target
  }

  lemma MovePositionInOrder(index: ParentMap, parent: ParentMap, left: Column, right: Column, key: Column,
                            id: Id, position: int, target: Option<Id>, prev: Option<Id>)
    requires Indexed(index, left, right) && index.Keys == parent.Keys && parent.Keys <= key.Keys
    requires id in parent && parent[id] == target
    requires SiblingsOrdered(index, left, key) && StrictKeys(key)
    requires position >= 1 && Precedes(parent, key, target, id, prev)
    requires prev.Some? ==> position == right[prev.value] + 1
    requires prev.None? && target.Some? ==> target.value in index && position == left[target.value] + 1
    requires prev.None? && target.None? ==> position == 1
    requires var owner := LandsUnder(index, left, target, prev);
             (owner.Some? ==> owner.value in index) && SiblingsAreChildren(index, parent, id, owner, target)
    ensures CutInOrder(index, left, key, id, position, LandsUnder(index, left, target, prev))
  {
    var owner := LandsUnder(index, left, target, prev);
    forall s | owner.Some? && s in index && s != id && index[s] == owner
      ensures RightSide(left, key, id, position, s)
    {
      PairFacts(index, left, right, s, owner.value);
      assert ListedAround(parent, key, target, id, prev, s);
      if prev.Some? {
        PairFacts(index, left, right, s, prev.value);
        PairFacts(index, left, right, prev.value, owner.value);
        assert PairInOrder(index, left, key, s, prev.value) && PairInOrder(index, left, key, prev.value, s);
      }
    }
  }

  // The block of id stands directly after the end of prev, or else directly after the start of target, or at 1.
  ghost predicate StandsAfter(left: Column, right: Column, id: Id, target: Option<Id>, prev: Option<Id>)
  {
    id in left &&
    match prev
    case Some(p) => p in right && left[id] == right[p] + 1
    case None => if target.Some? then target.value in left && left[id] == left[target.value] + 1 else left[id] == 1
  }

  // The block of id has been moved as a whole, and from where it now starts the other rows have made room for it.
  ghost predicate BlockMoved(left: Column, right: Column, left': Column, right': Column, id: Id)
  {
    && id in left && id in right && id in left' && left'.Keys == left.Keys && right'.Keys == right.Keys == left.Keys
    && var w := right[id] - left[id] + 1;
       forall z :: z in left ==> RowMoved(left[z], right[z], left'[z], right'[z], left[id], right[id], left'[id], w)
  }

  // The row at l, r is now at l', r'; the block was at lo, hi and is now at c.
  predicate RowMoved(l: int, r: int, l': int, r': int, lo: int, hi: int, c: int, w: int)
  {
    if lo <= l < hi then l' - c == l - lo && r' - l' == r - l
    else l' == RoomFor(l, c, w) && r' == RoomFor(r, c, w)
  }

  lemma RowPlaced(index: ParentMap, left: Column, right: Column, id: Id, c: int, z: Id)
    requires Indexed(index, left, right) && id in index && z in index && !Straddles(left, right, c, id)
    requires left.Keys == index.Keys && right.Keys == index.Keys
    ensures RowMoved(left[z], right[z], AfterMove(left, left, right, id, c)[z], AfterMove(right, left, right, id, c)[z],
                     left[id], right[id], c, right[id] - left[id] + 1)
  {
    PairFacts(index, left, right, id, z);
    PairFacts(index, left, right, z, id);
  }

  function RoomFor(position: int, c: int, w: int): int
  {
    if position >= c then position + w else position
  }

  lemma BlockPlaced(index: ParentMap, left: Column, right: Column, id: Id, c: int, target: Option<Id>, prev: Option<Id>)
    requires Indexed(index, left, right) && id in index && c >= 1 && !Straddles(left, right, c, id)
    requires left.Keys == index.Keys && right.Keys == index.Keys
    requires prev.Some? ==> prev.value in index && prev.value != id && c == right[prev.value] + 1
    requires prev.None? && target.Some? ==> target.value in index && target.value != id && c == left[target.value] + 1
    requires prev.None? && target.None? ==> c == 1
    ensures var l, r := AfterMove(left, left, right, id, c), AfterMove(right, left, right, id, c);
            StandsAfter(l, r, id, target, prev) && BlockMoved(left, right, l, r, id)
  {
    PairFacts(index, left, right, id, id);
    var l, r := AfterMove(left, left, right, id, c), AfterMove(right, left, right, id, c);
    assert l[id] == c;
    forall z | z in left
      ensures RowMoved(left[z], right[z], l[z], r[z], left[id], right[id], l[id], right[id] - left[id] + 1)
    {
      RowPlaced(index, left, right, id, c, z);
    }
    if prev.Some? {
      PairFacts(index, left, right, id, prev.value);
    } else if target.Some? {
      PairFacts(index, left, right, id, target.value);
    }
  }

  lemma MoveSummary(index: ParentMap, parent: ParentMap, left: Column, right: Column, key: Column,
                    id: Id, position: int, target: Option<Id>, prev: Option<Id>)
    requires Indexed(index, left, right) && index.Keys == parent.Keys && parent.Keys <= key.Keys
    requires id in parent && parent[id] == target
    requires position >= 1 && Precedes(parent, key, target, id, prev)
    requires prev.Some? ==> position == right[prev.value] + 1
    requires prev.None? && target.Some? ==> target.value in index && position == left[target.value] + 1
    requires prev.None? && target.None? ==> position == 1
    requires var owner := LandsUnder(index, left, target, prev);
             (owner.Some? ==> owner.value in index) && CutUnder(index.Keys, left, right, position, owner)
    ensures left[id] < right[id]
    ensures var owner := LandsUnder(index, left, target, prev);
            var l, r := AfterMove(left, left, right, id, position), AfterMove(right, left, right, id, position);
            && (Straddles(left, right, position, id) <==> owner.Some? && Below(index, owner.value, id))
            && (!Straddles(left, right, position, id) ==>
                  && Indexed(index[id := owner], l, r)
                  && (SiblingsOrdered(index, left, key) && StrictKeys(key)
                      && SiblingsAreChildren(index, parent, id, owner, target) ==>
                        SiblingsOrdered(index[id := owner], l, key)))
            && (forall z :: z in left && z != id && left[z] == 0 ==> l[z] == 0)
            && (forall z :: z in left && left[z] > 0 ==> l[z] > 0)
  {
    var owner := LandsUnder(index, left, target, prev);
    if owner.Some? {
      RangeIsAncestry(index, left, right, owner.value, id);
    }
    PairFacts(index, left, right, id, id);
    assert Straddles(left, right, position, id) <==> owner.Some? && InRange(left, right, owner.value, id);
    forall z | z in left
      ensures var l := AfterMove(left, left, right, id, position);
              (z != id && left[z] == 0 ==> l[z] == 0) && (left[z] > 0 ==> l[z] > 0)
    {
      MoveAndRowZero(index, left, right, id, position, z);
    }
    if !Straddles(left, right, position, id) {
      MoveKeepsIndex(index, left, right, id, position, owner);
      if SiblingsOrdered(index, left, key) && StrictKeys(key) && SiblingsAreChildren(index, parent, id, owner, target) {
        MovePositionInOrder(index, parent, left, right, key, id, position, target, prev);
        MoveKeepsOrder(index, left, right, key, id, position, owner);
      }
    }
  }

  // The listing of the records to move leaves no choice: no two of them have the same key.
  ghost predicate Unambiguous(parent: ParentMap, key: Column, ids: set<Id>, target: Option<Id>)
  {
    forall x, y :: x in Moved(parent, ids, target) && y in Moved(parent, ids, target) && x in key && y in key && key[x] == key[y] ==> x == y
  }

  // Every move will land where the new parent says, whatever the listings.
  ghost predicate LandsWell(parent0: ParentMap, left0: Column, key: Column, ids: set<Id>, target: Option<Id>)
    requires parent0.Keys <= key.Keys
  {
    Unambiguous(parent0, key, ids, target) && !MayMoveBeforeRowZero(parent0, left0, key, ids, target)
  }

  // prev, before which nothing is known to have been moved, may be listed directly before the
  // record a: it is not a record that is certainly handled earlier.
  ghost predicate MayFollow(parent0: ParentMap, key: Column, ids: set<Id>, target: Option<Id>, a: Id, prev: Option<Id>)
    requires parent0.Keys <= key.Keys
  {
    && a in Moved(parent0, ids, target)
    && Precedes(Reparent(parent0, ids, target), key, target, a, prev)
    && (prev.Some? && prev.value in Moved(parent0, ids, target) ==> key[prev.value] >= key[a])
  }

  // That condition is exact: it holds if and only if no listing can place a record elsewhere
  // than under the new parent.
  lemma LandsWellExactly(parent0: ParentMap, left0: Column, right0: Column, key: Column, ids: set<Id>, target: Option<Id>)
    requires Indexed(parent0, left0, right0) && parent0.Keys <= key.Keys
    ensures LandsWell(parent0, left0, key, ids, target) <==>
              forall a, prev {:trigger MayFollow(parent0, key, ids, target, a, prev)} ::
                MayFollow(parent0, key, ids, target, a, prev) ==> LandsUnder(parent0, left0, target, prev) == target
  {
    var parent := Reparent(parent0, ids, target);
    if LandsWell(parent0, left0, key, ids, target) {
      forall a, prev | MayFollow(parent0, key, ids, target, a, prev)
        ensures LandsUnder(parent0, left0, target, prev) == target
      {
        if prev == None && target == None && RowAtZero(left0).Some? {
          FirstMayBeAny(parent0, left0, key, ids, a);
        }
      }
    } else if MayMoveBeforeRowZero(parent0, left0, key, ids, target) {
      var a := FirstOfRoots(parent0, left0, key, ids);
      assert MayFollow(parent0, key, ids, target, a, None);
    } else {
      var a, b :| a in Moved(parent0, ids, target) && b in Moved(parent0, ids, target) && a in key && b in key
                  && key[a] == key[b] && a != b;
      TiedMayFollow(parent0, left0, key, ids, target, a, b);
    }
  }

  // Of two records to move with the same key, either may be placed after the other while that
  // still is where it was.
  lemma TiedMayFollow(parent0: ParentMap, left0: Column, key: Column, ids: set<Id>, target: Option<Id>, a: Id, b: Id)
    requires parent0.Keys <= key.Keys && a != b && key.Keys >= {a, b} && key[a] == key[b]
    requires a in Moved(parent0, ids, target) && b in Moved(parent0, ids, target)
    ensures MayFollow(parent0, key, ids, target, a, Some(b))
    ensures LandsUnder(parent0, left0, target, Some(b)) != target
  {
    var parent := Reparent(parent0, ids, target);
    forall s | s in parent
      ensures ListedAround(parent, key, target, a, Some(b), s)
    {
    }
  }

  lemma FirstMayBeAny(parent0: ParentMap, left0: Column, key: Column, ids: set<Id>, a: Id)
    requires parent0.Keys <= key.Keys && RowAtZero(left0).Some? && MayFollow(parent0, key, ids, None, a, None)
    ensures MayMoveBeforeRowZero(parent0, left0, key, ids, None)
  {
    var parent := Reparent(parent0, ids, None);
    forall r | r in parent0 && r != a && (parent0[r] == None || r in ids)
      ensures key[a] <= key[r]
    {
      assert ListedAround(parent, key, None, a, None, r);
    }
  }

  lemma FirstOfRoots(parent0: ParentMap, left0: Column, key: Column, ids: set<Id>) returns (a: Id)
    requires parent0.Keys <= key.Keys && MayMoveBeforeRowZero(parent0, left0, key, ids, None)
    ensures MayFollow(parent0, key, ids, None, a, None) && LandsUnder(parent0, left0, None, None) != None
  {
    a :| a in Moved(parent0, ids, None) &&
         forall r :: r in parent0 && r != a && (parent0[r] == None || r in ids) ==> key[a] <= key[r];
    var parent := Reparent(parent0, ids, None);
    forall s | s in parent
      ensures ListedAround(parent, key, None, a, None, s)
    {
    }
  }

  // What may precede a record is what some listing of its siblings has directly before it.
  lemma PrecedesIsListed(parent: ParentMap, key: Column, target: Option<Id>, id: Id, prev: Option<Id>)
    returns (siblings: seq<Id>, i: nat)
    requires parent.Keys <= key.Keys && id in parent && parent[id] == target && Precedes(parent, key, target, id, prev)
    ensures IsListing(siblings, Children(parent, target), key)
    ensures i < |siblings| && siblings[i] == id && prev == if i == 0 then None else Some(siblings[i - 1])
  {
    var all := Children(parent, target);
    if prev == None {
      forall y | y in all && y != id
        ensures key[id] <= key[y]
      {
        assert ListedAround(parent, key, target, id, prev, y);
      }
      var s, t := ListingAround(all, key, {}, [id], {id});
      siblings, i := s + [id] + t, 0;
    } else {
      var before := set x | x in all && x != prev.value && x != id && key[x] <= key[prev.value];
      forall y | y in all - before && y != prev.value
        ensures key[id] <= key[y]
      {
        assert ListedAround(parent, key, target, id, prev, y);
      }
      var s, t := ListingAround(all, key, before, [prev.value, id], {prev.value, id});
      siblings, i := s + [prev.value, id] + t, |s| + 1;
    }
  }

  // Two records to move with the same key: there are listings in which the first one is moved
  // before the second, which for that move is its previous sibling.
  lemma TiedListings(parent0: ParentMap, key: Column, ids: set<Id>, target: Option<Id>, a: Id, b: Id)
    returns (changed: seq<Id>, k: nat, siblings: seq<Id>, i: nat)
    requires parent0.Keys <= key.Keys && a != b && key.Keys >= {a, b} && key[a] == key[b]
    requires a in Moved(parent0, ids, target) && b in Moved(parent0, ids, target)
    ensures IsListing(changed, Moved(parent0, ids, target), key) && k < |changed| && changed[k] == a && b in changed[k..]
    ensures IsListing(siblings, Children(Reparent(parent0, ids, target), target), key)
    ensures 0 < i < |siblings| && siblings[i] == a && siblings[i - 1] == b
  {
    TiedMayFollow(parent0, map[], key, ids, target, a, b);
    siblings, i := PrecedesIsListed(Reparent(parent0, ids, target), key, target, a, Some(b));
    var moved := Moved(parent0, ids, target);
    var s, t := ListingAround(moved, key, set x | x in moved && key[x] < key[a], [a], {a});
    changed, k := s + [a] + t, |s|;
    assert b in changed && b !in s;
    assert changed == s + changed[k..];
  }

  // The record moved in pass i was placed after prevs[i], and when that had still to be moved,
  // it is under the old parent of that one.
  ghost predicate PlacedAt(parent0: ParentMap, key: Column, ids: set<Id>, target: Option<Id>,
                           changed: seq<Id>, prevs: seq<Option<Id>>, index: ParentMap, i: nat)
    requires parent0.Keys == index.Keys && parent0.Keys <= key.Keys && i < |prevs| <= |changed|
    requires forall j :: 0 <= j < |changed| ==> changed[j] in parent0
  {
    && Precedes(Reparent(parent0, ids, target), key, target, changed[i], prevs[i])
    && (prevs[i].Some? && prevs[i].value in changed[i..] ==> index[changed[i]] == parent0[prevs[i].value])
  }

  ghost predicate Placed(parent0: ParentMap, key: Column, ids: set<Id>, target: Option<Id>,
                         changed: seq<Id>, prevs: seq<Option<Id>>, index: ParentMap)
  {
    && parent0.Keys == index.Keys && parent0.Keys <= key.Keys && |prevs| <= |changed|
    && (forall j :: 0 <= j < |changed| ==> changed[j] in parent0)
    && forall i {:trigger prevs[i]} :: 0 <= i < |prevs| ==> PlacedAt(parent0, key, ids, target, changed, prevs, index, i)
  }

  // One more pass leaves the records placed before where they are.
  lemma PlacedStep(parent0: ParentMap, left0: Column, key: Column, ids: set<Id>, target: Option<Id>,
                   changed: seq<Id>, prevs: seq<Option<Id>>, index: ParentMap, left: Column, prev: Option<Id>)
    requires |prevs| < |changed| && Progress(parent0, left0, key, ids, target, changed, |prevs|, index, left)
    requires Placed(parent0, key, ids, target, changed, prevs, index)
    requires Precedes(Reparent(parent0, ids, target), key, target, changed[|prevs|], prev)
    ensures Placed(parent0, key, ids, target, changed, prevs + [prev],
                   index[changed[|prevs|] := LandsUnder(index, left, target, prev)])
  {
    var k := |prevs|;
    var index' := index[changed[k] := LandsUnder(index, left, target, prev)];
    forall i | 0 <= i < k + 1
      ensures PlacedAt(parent0, key, ids, target, changed, prevs + [prev], index', i)
    {
      if i < k {
        assert PlacedAt(parent0, key, ids, target, changed, prevs, index, i) && (prevs + [prev])[i] == prevs[i];
      } else if prev.Some? && prev.value in changed[k..] {
        var j :| k <= j < |changed| && changed[j] == prev.value;
        assert prev.value !in changed[..k];
      }
    }
  }

  // Once a record has been placed after one still to be moved, the columns in the end do not
  // index the final forest.
  lemma MisplacedForGood(parent0: ParentMap, key: Column, ids: set<Id>, target: Option<Id>, changed: seq<Id>,
                         prevs: seq<Option<Id>>, index: ParentMap, left: Column, right: Column, i: nat)
    requires IsListing(changed, Moved(parent0, ids, target), key)
    requires Placed(parent0, key, ids, target, changed, prevs, index) && Indexed(index, left, right)
    requires i < |prevs| && prevs[i].Some? && prevs[i].value in changed[i..]
    ensures !Indexed(Reparent(parent0, ids, target), left, right)
  {
    assert PlacedAt(parent0, key, ids, target, changed, prevs, index, i);
    var b := prevs[i].value;
    var j :| i <= j < |changed| && changed[j] == b;
    assert b in Moved(parent0, ids, target) && changed[i] in Moved(parent0, ids, target);
    if Indexed(Reparent(parent0, ids, target), left, right) {
      IndexDeterminesForest(index, Reparent(parent0, ids, target), left, right);
    }
  }

  // The forest `index` after the first k of the records `changed` have been moved.
  ghost predicate Progress(parent0: ParentMap, left0: Column, key: Column, ids: set<Id>, target: Option<Id>,
                           changed: seq<Id>, k: nat, index: ParentMap, left: Column)
  {
    && parent0.Keys <= key.Keys && ids <= parent0.Keys && k <= |changed|
    && left.Keys == left0.Keys == parent0.Keys == index.Keys
    && IsListing(changed, Moved(parent0, ids, target), key)
    && IndexProgress(parent0, left0, key, ids, target, changed, k, index)
    && ZeroProgress(parent0, left0, target, k, left)
  }

  ghost predicate IndexProgress(parent0: ParentMap, left0: Column, key: Column, ids: set<Id>, target: Option<Id>,
                                changed: seq<Id>, k: nat, index: ParentMap)
    requires parent0.Keys == index.Keys && parent0.Keys <= key.Keys && k <= |changed|
    requires forall i :: 0 <= i < |changed| ==> changed[i] in parent0
  {
    && (forall x :: x in parent0 && x !in changed[..k] ==> index[x] == parent0[x])
    && (LandsWell(parent0, left0, key, ids, target) ==>
          forall i :: 0 <= i < k ==> index[changed[i]] == target)
    && (target == None && Unambiguous(parent0, key, ids, target) ==>
          forall i :: 0 <= i < k ==> index[changed[i]] == None || index[changed[i]] == RowAtZero(left0))
    && (k > 0 && MovesBeforeRowZero(parent0, left0, key, ids, target) ==>
          index[changed[0]] == RowAtZero(left0))
  }

  // The row numbered from 0 stays put while other rows become roots.
  ghost predicate ZeroProgress(parent0: ParentMap, left0: Column, target: Option<Id>, k: nat, left: Column)
    requires left.Keys == left0.Keys == parent0.Keys
  {
    && (k == 0 ==> left == left0)
    && (target == None && RowAtZero(left0).Some? ==>
          var z := RowAtZero(left0).value; z in parent0 && parent0[z] == None && left[z] == 0)
    && (RowAtZero(left0) == None ==> forall z :: z in left ==> left[z] > 0)
  }

  lemma ProgressStarts(parent0: ParentMap, left0: Column, right0: Column, key: Column, ids: set<Id>, target: Option<Id>,
                       changed: seq<Id>)
    requires Indexed(parent0, left0, right0) && parent0.Keys <= key.Keys && ids <= parent0.Keys
    requires IsListing(changed, Moved(parent0, ids, target), key)
    ensures Progress(parent0, left0, key, ids, target, changed, 0, parent0, left0)
  {
    CutAtOne(parent0, left0, right0);
    forall z | z in left0
      ensures left0[z] >= 0
    {
      PairFacts(parent0, left0, right0, z, z);
    }
  }

  // The sibling a record is placed after already is where it should be.
  lemma PrevIsSettled(parent0: ParentMap, left0: Column, key: Column, ids: set<Id>, target: Option<Id>,
                      changed: seq<Id>, k: nat, index: ParentMap, left: Column, prev: Id)
    requires Progress(parent0, left0, key, ids, target, changed, k, index, left) && k < |changed|
    requires Unambiguous(parent0, key, ids, target)
    requires Precedes(Reparent(parent0, ids, target), key, target, changed[k], Some(prev))
    ensures prev in changed[..k] || index[prev] == target
  {
    if prev in changed && prev !in changed[..k] {
      LaterIsNoSmaller(changed, Moved(parent0, ids, target), key, k, prev);
    }
  }

  lemma LaterIsNoSmaller(changed: seq<Id>, moved: set<Id>, key: Column, k: nat, x: Id)
    requires moved <= key.Keys && IsListing(changed, moved, key) && k < |changed|
    requires x in changed && x !in changed[..k]
    ensures x in moved && changed[k] in moved && key[changed[k]] <= key[x]
  {
    var j :| 0 <= j < |changed| && changed[j] == x;
    assert changed[j] in changed && changed[k] in changed;
  }

  lemma LandsUnderTarget(parent0: ParentMap, left0: Column, key: Column, ids: set<Id>, target: Option<Id>,
                         changed: seq<Id>, k: nat, index: ParentMap, left: Column, prev: Option<Id>)
    requires Progress(parent0, left0, key, ids, target, changed, k, index, left) && k < |changed|
    requires LandsWell(parent0, left0, key, ids, target)
    requires Precedes(Reparent(parent0, ids, target), key, target, changed[k], prev)
    ensures LandsUnder(index, left, target, prev) == target
  {
    if prev.Some? {
      PrevIsSettled(parent0, left0, key, ids, target, changed, k, index, left, prev.value);
    } else if target == None && RowAtZero(left0).Some? {
      assert changed[k] in Moved(parent0, ids, None);
      FirstMayBeAny(parent0, left0, key, ids, changed[k]);
      assert false;
    }
  }

  lemma LandsAtRoot(parent0: ParentMap, left0: Column, key: Column, ids: set<Id>,
                    changed: seq<Id>, k: nat, index: ParentMap, left: Column, right: Column, prev: Option<Id>)
    requires Progress(parent0, left0, key, ids, None, changed, k, index, left) && k < |changed|
    requires Unambiguous(parent0, key, ids, None) && Indexed(index, left, right)
    requires Precedes(Reparent(parent0, ids, None), key, None, changed[k], prev)
    ensures var owner := LandsUnder(index, left, None, prev);
            && (owner == None || owner == RowAtZero(left0))
            && !(owner.Some? && Below(index, owner.value, changed[k]))
  {
    if prev.Some? {
      PrevIsSettled(parent0, left0, key, ids, None, changed, k, index, left, prev.value);
    } else if RowAtZero(left0).Some? && RowAtZero(left).Some? {
      PairFacts(index, left, right, RowAtZero(left0).value, RowAtZero(left).value);
    }
    if RowAtZero(left0).Some? {
      BelowCases(index, RowAtZero(left0).value, changed[k]);
    }
  }

  lemma FirstLandsUnderRowZero(parent0: ParentMap, left0: Column, key: Column, ids: set<Id>,
                               changed: seq<Id>, index: ParentMap, left: Column, prev: Option<Id>)
    requires Progress(parent0, left0, key, ids, None, changed, 0, index, left) && 0 < |changed|
    requires MovesBeforeRowZero(parent0, left0, key, ids, None)
    requires Precedes(Reparent(parent0, ids, None), key, None, changed[0], prev)
    ensures LandsUnder(index, left, None, prev) == RowAtZero(left0)
  {
    var id :| id in Moved(parent0, ids, None) &&
              forall r :: r in parent0 && r != id && (parent0[r] == None || r in ids) ==> key[id] < key[r];
    assert id in changed;
    var j :| 0 <= j < |changed| && changed[j] == id;
    assert id == changed[0];
  }

  // One pass of the loop keeps `Progress` ...
  lemma ProgressStep(parent0: ParentMap, left0: Column, key: Column, ids: set<Id>, target: Option<Id>,
                     changed: seq<Id>, k: nat, index: ParentMap, left: Column, right: Column, left': Column, prev: Option<Id>)
    requires Progress(parent0, left0, key, ids, target, changed, k, index, left) && k < |changed|
    requires Indexed(index, left, right) && (target.Some? ==> target.value in parent0)
    requires Precedes(Reparent(parent0, ids, target), key, target, changed[k], prev)
    requires left'.Keys == left.Keys
    requires forall z :: z in left && z != changed[k] && left[z] == 0 ==> left'[z] == 0
    requires forall z :: z in left && left[z] > 0 ==> left'[z] > 0
    ensures Progress(parent0, left0, key, ids, target, changed, k + 1,
                     index[changed[k] := LandsUnder(index, left, target, prev)], left')
  {
    var id, owner := changed[k], LandsUnder(index, left, target, prev);
    assert id in Moved(parent0, ids, target);
    if LandsWell(parent0, left0, key, ids, target) {
      LandsUnderTarget(parent0, left0, key, ids, target, changed, k, index, left, prev);
    }
    if target == None && Unambiguous(parent0, key, ids, target) {
      LandsAtRoot(parent0, left0, key, ids, changed, k, index, left, right, prev);
    }
    if k == 0 && MovesBeforeRowZero(parent0, left0, key, ids, target) {
      FirstLandsUnderRowZero(parent0, left0, key, ids, changed, index, left, prev);
    }
    IndexStep(parent0, left0, key, ids, target, changed, k, index, owner);
  }

  lemma IndexStep(parent0: ParentMap, left0: Column, key: Column, ids: set<Id>, target: Option<Id>,
                  changed: seq<Id>, k: nat, index: ParentMap, owner: Option<Id>)
    requires parent0.Keys == index.Keys && parent0.Keys <= key.Keys && k < |changed|
    requires forall i :: 0 <= i < |changed| ==> changed[i] in parent0
    requires forall i, j :: 0 <= i < j < |changed| ==> changed[i] != changed[j]
    requires IndexProgress(parent0, left0, key, ids, target, changed, k, index)
    requires LandsWell(parent0, left0, key, ids, target) ==> owner == target
    requires target == None && Unambiguous(parent0, key, ids, target) ==> owner == None || owner == RowAtZero(left0)
    requires k == 0 && MovesBeforeRowZero(parent0, left0, key, ids, target) ==> owner == RowAtZero(left0)
    ensures IndexProgress(parent0, left0, key, ids, target, changed, k + 1, index[changed[k] := owner])
  {
    var index' := index[changed[k] := owner];
    OneMoreTaken(changed, k);
    forall x | x in parent0 && x !in changed[..k + 1]
      ensures index'[x] == parent0[x]
    {
    }
    assert forall i :: 0 <= i < k ==> index'[changed[i]] == index[changed[i]];
  }

  lemma OneMoreTaken(changed: seq<Id>, k: nat)
    requires k < |changed|
    ensures forall x :: x in changed[..k + 1] <==> x in changed[..k] || x == changed[k]
  {
    assert changed[..k + 1] == changed[..k] + [changed[k]];
  }

  // ... puts the record among the children of its new parent ...
  lemma StepAmongSiblings(parent0: ParentMap, left0: Column, key: Column, ids: set<Id>, target: Option<Id>,
                          changed: seq<Id>, k: nat, index: ParentMap, left: Column, prev: Option<Id>)
    requires Progress(parent0, left0, key, ids, target, changed, k, index, left) && k < |changed|
    requires LandsWell(parent0, left0, key, ids, target)
    requires Precedes(Reparent(parent0, ids, target), key, target, changed[k], prev)
    ensures var owner := LandsUnder(index, left, target, prev);
            owner == target && SiblingsAreChildren(index, Reparent(parent0, ids, target), changed[k], owner, target)
  {
    LandsUnderTarget(parent0, left0, key, ids, target, changed, k, index, left, prev);
  }

  // ... and finds the new parent below the record only if there is a cycle.
  lemma StepFindsCycle(parent0: ParentMap, left0: Column, key: Column, ids: set<Id>, target: Option<Id>,
                       changed: seq<Id>, k: nat, index: ParentMap, left: Column, right: Column, prev: Option<Id>)
    requires Progress(parent0, left0, key, ids, target, changed, k, index, left) && k < |changed|
    requires Indexed(index, left, right) && (target.Some? ==> target.value in parent0)
    requires Precedes(Reparent(parent0, ids, target), key, target, changed[k], prev)
    requires Unambiguous(parent0, key, ids, target)
    requires var owner := LandsUnder(index, left, target, prev);
             owner.Some? && Below(index, owner.value, changed[k])
    ensures HasCycle(Reparent(parent0, ids, target))
  {
    if target == None {
      LandsAtRoot(parent0, left0, key, ids, changed, k, index, left, right, prev);
      assert false;
    } else {
      LandsUnderTarget(parent0, left0, key, ids, target, changed, k, index, left, prev);
      var done := set x | x in changed[..k];
      SettledIndex(parent0, left0, key, ids, target, changed, k, index, left);
      assert changed[k] in Moved(parent0, ids, target);
      MovedAboveTargetIsCycle(parent0, done, Moved(parent0, ids, target), target.value, changed[k]);
      assert Reparent(parent0, Moved(parent0, ids, target), target) == Reparent(parent0, ids, target);
    }
  }

  lemma SettledIndex(parent0: ParentMap, left0: Column, key: Column, ids: set<Id>, target: Option<Id>,
                     changed: seq<Id>, k: nat, index: ParentMap, left: Column)
    requires Progress(parent0, left0, key, ids, target, changed, k, index, left)
    requires LandsWell(parent0, left0, key, ids, target)
    ensures var done := set x | x in changed[..k];
            done <= Moved(parent0, ids, target) && index == Reparent(parent0, done, target)
    ensures k == |changed| ==> index == Reparent(parent0, ids, target)
  {
    var done := set x | x in changed[..k];
    forall x | x in changed[..k]
      ensures x in Moved(parent0, ids, target) && index[x] == target
    {
      var i :| 0 <= i < k && changed[i] == x;
      assert changed[i] in Moved(parent0, ids, target);
    }
    forall x | x in parent0
      ensures index[x] == if x in done then target else parent0[x]
    {
      assert x in done <==> x in changed[..k];
    }
    if k == |changed| {
      assert changed[..k] == changed;
      assert forall x :: x in Moved(parent0, ids, target) ==> x in done;
    }
  }

  lemma ProgressDone(parent0: ParentMap, left0: Column, key: Column, ids: set<Id>, target: Option<Id>,
                     changed: seq<Id>, index: ParentMap, left: Column, right: Column)
    requires Progress(parent0, left0, key, ids, target, changed, |changed|, index, left)
    requires Indexed(index, left, right) && !HasCycle(parent0)
    ensures var parent := Reparent(parent0, ids, target);
            && (LandsWell(parent0, left0, key, ids, target) ==> index == parent)
            && (MovesBeforeRowZero(parent0, left0, key, ids, target) ==>
                  !Indexed(parent, left, right))
            && (StrictKeys(key) ==> LandsWell(parent0, left0, key, ids, target) || MovesBeforeRowZero(parent0, left0, key, ids, target))
            && (Unambiguous(parent0, key, ids, target) ==> !HasCycle(parent))
  {
    StrictOrMay(parent0, left0, key, ids, target);
    var parent := Reparent(parent0, ids, target);
    assert changed[..|changed|] == changed;
    if LandsWell(parent0, left0, key, ids, target) {
      SettledIndex(parent0, left0, key, ids, target, changed, |changed|, index, left);
      IndexedIsAcyclic(index, left, right);
    }
    if target == None {
      UprootingKeepsAcyclic(parent0, ids);
    }
    if MovesBeforeRowZero(parent0, left0, key, ids, target) {
      var id :| id in Moved(parent0, ids, None);
      assert id in changed && changed[0] in Moved(parent0, ids, None);
      assert parent[changed[0]] == None && index[changed[0]].Some?;
      if Indexed(parent, left, right) {
        IndexDeterminesForest(parent, index, left, right);
      }
    }
  }

  // ------------------------------------------------------------------
  // Where the write loop goes wrong

  // A table of two rows as _parent_store_compute numbers it: 1 is a root at 0, 2 its child.
  // Making 2 the first root takes position 1, which is inside row 1.
  lemma PositionOneMayBeInsideARoot()
    ensures var parent: ParentMap := map[1 := None, 2 := Some(1)];
            var left: Column, right: Column := map[1 := 0, 2 := 1], map[1 := 3, 2 := 2];
            var l, r := AfterMove(left, left, right, 2, 1), AfterMove(right, left, right, 2, 1);
            && Indexed(parent, left, right)
            && InRange(l, r, 2, 1)
            && !Below(parent[2 := None], 2, 1)
  {
    var parent: ParentMap := map[1 := None, 2 := Some(1)];
    var left: Column, right: Column := map[1 := 0, 2 := 1], map[1 := 3, 2 := 2];
    forall x, y | x in parent && y in parent
      ensures PairOk(parent.Keys, parent, left, right, x, y)
    {
    }
    BelowCases(parent[2 := None], 2, 1);
  }

  // With equal keys a listing may put a record that has not been moved yet first. Here 3 and
  // 4 move from under 2 to under 1 ...
  const TIED_PARENT: ParentMap := map[1 := None, 2 := None, 3 := Some(2), 4 := Some(2)]
  const TIED_LEFT: Column := map[1 := 0, 2 := 2, 3 := 3, 4 := 5]
  const TIED_RIGHT: Column := map[1 := 1, 2 := 7, 3 := 4, 4 := 6]
  const TIED_KEY: Column := map[1 := 0, 2 := 0, 3 := 0, 4 := 0]

  lemma TiedIsIndexed()
    ensures Indexed(TIED_PARENT, TIED_LEFT, TIED_RIGHT)
  {
    forall x, y | x in TIED_PARENT && y in TIED_PARENT
      ensures PairOk(TIED_PARENT.Keys, TIED_PARENT, TIED_LEFT, TIED_RIGHT, x, y)
    {
    }
  }

  // ... their siblings being listed as 4, 3 ...
  lemma TiedListing()
    ensures Indexed(TIED_PARENT, TIED_LEFT, TIED_RIGHT)
    ensures var parent := Reparent(TIED_PARENT, {3, 4}, Some(1));
            Precedes(parent, TIED_KEY, Some(1), 3, Some(4)) && Precedes(parent, TIED_KEY, Some(1), 4, None)
  {
    TiedIsIndexed();
    var parent := Reparent(TIED_PARENT, {3, 4}, Some(1));
    forall s | s in parent
      ensures ListedAround(parent, TIED_KEY, Some(1), 3, Some(4), s) && ListedAround(parent, TIED_KEY, Some(1), 4, None, s)
    {
    }
  }

  // ... so 3, handled first, is placed after 4, still under 2 ...
  const TIED_LEFT_1: Column := map[1 := 0, 2 := 2, 3 := 7, 4 := 5]
  const TIED_RIGHT_1: Column := map[1 := 1, 2 := 9, 3 := 8, 4 := 6]

  lemma FirstTiedMove()
    ensures LandsUnder(TIED_PARENT, TIED_LEFT, Some(1), Some(4)) == Some(2)
    ensures AfterMove(TIED_LEFT, TIED_LEFT, TIED_RIGHT, 3, TIED_RIGHT[4] + 1) == TIED_LEFT_1
    ensures AfterMove(TIED_RIGHT, TIED_LEFT, TIED_RIGHT, 3, TIED_RIGHT[4] + 1) == TIED_RIGHT_1
  {
  }

  // ... and then 4 comes first under 1.
  const TIED_LEFT_2: Column := map[1 := 0, 2 := 4, 3 := 9, 4 := 1]
  const TIED_RIGHT_2: Column := map[1 := 3, 2 := 11, 3 := 10, 4 := 2]

  lemma SecondTiedMoveLeft()
    ensures AfterMove(TIED_LEFT_1, TIED_LEFT_1, TIED_RIGHT_1, 4, TIED_LEFT_1[1] + 1) == TIED_LEFT_2
  {
  }

  lemma SecondTiedMoveRight()
    ensures AfterMove(TIED_RIGHT_1, TIED_LEFT_1, TIED_RIGHT_1, 4, TIED_LEFT_1[1] + 1) == TIED_RIGHT_2
  {
  }

  // In the end 3 is indexed under 2, and the columns do not index the table.
  lemma TiesMayMisplace()
    ensures AfterMove(TIED_LEFT, TIED_LEFT, TIED_RIGHT, 3, TIED_RIGHT[4] + 1) == TIED_LEFT_1
    ensures AfterMove(TIED_RIGHT, TIED_LEFT, TIED_RIGHT, 3, TIED_RIGHT[4] + 1) == TIED_RIGHT_1
    ensures AfterMove(TIED_LEFT_1, TIED_LEFT_1, TIED_RIGHT_1, 4, TIED_LEFT_1[1] + 1) == TIED_LEFT_2
    ensures AfterMove(TIED_RIGHT_1, TIED_LEFT_1, TIED_RIGHT_1, 4, TIED_LEFT_1[1] + 1) == TIED_RIGHT_2
    ensures InRange(TIED_LEFT_2, TIED_RIGHT_2, 3, 2) && !InRange(TIED_LEFT_2, TIED_RIGHT_2, 3, 1)
    ensures !Indexed(Reparent(TIED_PARENT, {3, 4}, Some(1)), TIED_LEFT_2, TIED_RIGHT_2)
  {
    FirstTiedMove();
    SecondTiedMoveLeft();
    SecondTiedMoveRight();
    TiedColumnsMisfit();
  }

  lemma TiedColumnsMisfit()
    ensures InRange(TIED_LEFT_2, TIED_RIGHT_2, 3, 2) && !InRange(TIED_LEFT_2, TIED_RIGHT_2, 3, 1)
    ensures !Indexed(Reparent(TIED_PARENT, {3, 4}, Some(1)), TIED_LEFT_2, TIED_RIGHT_2)
  {
    NotInParent(Reparent(TIED_PARENT, {3, 4}, Some(1)), TIED_LEFT_2, TIED_RIGHT_2, 3, 1);
  }

  lemma NotInParent(parent: ParentMap, left: Column, right: Column, x: Id, p: Id)
    requires x in parent && p in parent && parent[x] == Some(p)
    requires x in left && p in left && p in right && !InRange(left, right, x, p)
    ensures !Indexed(parent, left, right)
  {
    if Indexed(parent, left, right) {
      PairFacts(parent, left, right, x, p);
    }
  }

  // Of 2 and 3 below it, both to move under 1, the first may be placed after the other, inside
  // its own block, although the final forest has no cycle.
  lemma TiesMayLookLikeACycle()
    ensures MayFollow(TIED_PARENT, TIED_KEY, {2, 3}, Some(1), 2, Some(3))
    ensures LandsUnder(TIED_PARENT, TIED_LEFT, Some(1), Some(3)) == Some(2) && Below(TIED_PARENT, 2, 2)
    ensures !HasCycle(Reparent(TIED_PARENT, {2, 3}, Some(1)))
  {
    TiedMayFollow(TIED_PARENT, TIED_LEFT, TIED_KEY, {2, 3}, Some(1), 2, 3);
    assert Up(TIED_PARENT, 2, 0) == Some(2);
    var parent := Reparent(TIED_PARENT, {2, 3}, Some(1));
    forall x, n: nat | n > 0 && x in parent
      ensures Up(parent, x, n) != Some(x)
    {
      assert Up(parent, 1, n) == None;
      assert x == 2 || x == 3 ==> Up(parent, x, n) == Up(parent, 1, n - 1);
      assert x == 4 ==> Up(parent, x, n) == Up(parent, 2, n - 1);
      assert n > 1 ==> Up(parent, 2, n - 1) == Up(parent, 1, n - 2);
    }
  }
}
