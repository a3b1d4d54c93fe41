/** `parent_left` / `parent_right` as an index over the `parent_id` forest: what it means
    for the two columns to describe a forest, and what the bulk UPDATEs do to that. */
module NestedSets {
  import opened Wrappers
  import opened Forests

  // One integer column; a row absent from it holds NULL.
  type Column = map<Id, int>

  // What the index demands of two rows x and y (possibly the same): endpoints are ordered
  // and never repeated; a row starting strictly inside y also ends inside y and its parent
  // is y or starts inside y; and a child starts inside its parent.
  ghost predicate PairOk(rows: set<Id>, parent: ParentMap, left: Column, right: Column, x: Id, y: Id)
  {
    && x in parent && x in left && x in right && y in left && y in right
    && 0 <= left[x] < right[x]
    && left[x] != right[y]
    && (x != y ==> left[x] != left[y] && right[x] != right[y])
    && (left[y] < left[x] < right[y] ==>
          && right[x] < right[y]
          && parent[x].Some? && parent[x].value in rows && parent[x].value in left
          && left[y] <= left[parent[x].value])
    && (parent[x] == Some(y) ==> left[y] < left[x] < right[y])
  }

  // The two columns index the rows `rows` of the forest.
  ghost predicate IndexedOn(rows: set<Id>, parent: ParentMap, left: Column, right: Column)
  {
    && rows <= parent.Keys && rows <= left.Keys && rows <= right.Keys
    && forall x, y {:trigger PairOk(rows, parent, left, right, x, y)} ::
         x in rows && y in rows ==> PairOk(rows, parent, left, right, x, y)
  }

  // The two columns index the whole table.
  ghost predicate Indexed(parent: ParentMap, left: Column, right: Column)
  {
    Closed(parent) && left.Keys == parent.Keys && right.Keys == parent.Keys &&
    IndexedOn(parent.Keys, parent, left, right)
  }

  // The range test of `child_of`.
  predicate InRange(left: Column, right: Column, x: Id, a: Id)
    requires x in left && a in left && a in right
  {
    left[a] <= left[x] < right[a]
  }

  lemma PairFacts(parent: ParentMap, left: Column, right: Column, x: Id, y: Id)
    requires Indexed(parent, left, right)
    requires x in parent && y in parent
    ensures PairOk(parent.Keys, parent, left, right, x, y)
    ensures PairOk(parent.Keys, parent, left, right, y, x)
    ensures parent[x] == Some(y) ==> right[x] < right[y]
    ensures InRange(left, right, x, y) && x != y ==> left[y] < left[x] && right[x] < right[y]
  {
    assert PairOk(parent.Keys, parent, left, right, x, y);
    assert PairOk(parent.Keys, parent, left, right, y, x);
  }

  // ------------------------------------------------------------------
  // What the index promises

  // Interval nesting is ancestry.
  lemma RangeIsAncestry(parent: ParentMap, left: Column, right: Column, x: Id, a: Id)
    requires Indexed(parent, left, right)
    requires x in parent && a in parent
    ensures InRange(left, right, x, a) <==> Below(parent, x, a)
  {
    if Below(parent, x, a) {
      var n: nat :| Up(parent, x, n) == Some(a);
      AncestorEncloses(parent, left, right, x, a, n);
    }
    if InRange(left, right, x, a) {
      EncloserIsAncestor(parent, left, right, x, a);
    }
  }

  lemma {:induction false} AncestorEncloses(parent: ParentMap, left: Column, right: Column, x: Id, a: Id, n: nat)
    requires Indexed(parent, left, right)
    requires x in parent && Up(parent, x, n) == Some(a)
    ensures a in parent && InRange(left, right, x, a)
    ensures n > 0 ==> left[a] < left[x]
    decreases n
  {
    PairFacts(parent, left, right, x, x);
    if n > 0 {
      var p := parent[x].value;
      AncestorEncloses(parent, left, right, p, a, n - 1);
      PairFacts(parent, left, right, x, p);
      PairFacts(parent, left, right, p, a);
    }
  }

  lemma {:induction false} EncloserIsAncestor(parent: ParentMap, left: Column, right: Column, x: Id, a: Id)
    requires Indexed(parent, left, right)
    requires x in parent && a in parent && InRange(left, right, x, a)
    ensures Below(parent, x, a)
    decreases left[x] - left[a]
  {
    PairFacts(parent, left, right, x, a);
    if x == a {
      BelowSelf(parent, x);
    } else {
      var p := parent[x].value;
      PairFacts(parent, left, right, x, p);
      EncloserIsAncestor(parent, left, right, p, a);
      BelowParent(parent, x, p, a);
    }
  }

  lemma IndexedIsAcyclic(parent: ParentMap, left: Column, right: Column)
    requires Indexed(parent, left, right)
    ensures !HasCycle(parent)
  {
    forall x, n: nat | n > 0 && x in parent && Up(parent, x, n) == Some(x)
      ensures false
    {
      AncestorEncloses(parent, left, right, x, x, n);
    }
  }

  // The columns determine the forest: no two parent maps fit the same endpoints.
  lemma IndexDeterminesForest(p: ParentMap, q: ParentMap, left: Column, right: Column)
    requires Indexed(p, left, right) && Indexed(q, left, right)
    ensures p == q
  {
    forall x | x in p
      ensures p[x] == q[x]
    {
      if p[x].Some? {
        PairFacts(p, left, right, x, p[x].value);
        PairFacts(q, left, right, x, p[x].value);
      }
      if q[x].Some? {
        PairFacts(p, left, right, x, q[x].value);
        PairFacts(q, left, right, x, q[x].value);
      }
      if p[x].Some? && q[x].Some? {
        PairFacts(p, left, right, p[x].value, q[x].value);
      }
    }
  }

  // ------------------------------------------------------------------
  // The UPDATE statements

  // Move every number from c on by d; NULL stays.
  function ShiftFrom(col: Column, d: int, c: int): Column
  {
    map x | x in col :: if col[x] >= c then col[x] + d else col[x]
  }

  // Move a column by d on the rows whose left end is in a range.
  function ShiftRows(col: Column, left: Column, d: int, lo: int, hi: int): Column
  {
    map x | x in col :: if x in left && lo <= left[x] < hi then col[x] + d else col[x]
  }

  // Position c lies directly inside `owner` (None: outside every row): the intervals that
  // straddle the cut just before c are those of owner and of its ancestors.
  ghost predicate CutUnder(rows: set<Id>, left: Column, right: Column, c: int, owner: Option<Id>)
    requires rows <= left.Keys && rows <= right.Keys
    requires owner.Some? ==> owner.value in rows
  {
    forall y {:trigger Straddles(left, right, c, y)} :: y in rows ==>
      (Straddles(left, right, c, y) <==> owner.Some? && InRange(left, right, owner.value, y))
  }

  ghost predicate Straddles(left: Column, right: Column, c: int, y: Id)
    requires y in left && y in right
  {
    left[y] < c <= right[y]
  }

  // No endpoint lies in [c, c + d).
  ghost predicate FreeGap(rows: set<Id>, left: Column, right: Column, c: int, d: int)
    requires rows <= left.Keys && rows <= right.Keys
  {
    forall x :: x in rows ==> !(c <= left[x] < c + d) && !(c <= right[x] < c + d)
  }

  // The cut just after the start of a row ...
  lemma CutAfterStart(parent: ParentMap, left: Column, right: Column, x: Id)
    requires Indexed(parent, left, right) && x in parent
    ensures CutUnder(parent.Keys, left, right, left[x] + 1, Some(x))
  {
    forall y | y in parent
      ensures Straddles(left, right, left[x] + 1, y) <==> InRange(left, right, x, y)
    {
      PairFacts(parent, left, right, x, y);
    }
  }

  // ... and the one just after the end of a sibling.
  lemma CutAfterSibling(parent: ParentMap, left: Column, right: Column, s: Id)
    requires Indexed(parent, left, right) && s in parent
    ensures CutUnder(parent.Keys, left, right, right[s] + 1, parent[s])
  {
    forall y | y in parent
      ensures Straddles(left, right, right[s] + 1, y) <==>
              parent[s].Some? && InRange(left, right, parent[s].value, y)
    {
      PairFacts(parent, left, right, s, y);
      if parent[s].Some? {
        PairFacts(parent, left, right, s, parent[s].value);
        PairFacts(parent, left, right, parent[s].value, y);
      }
    }
  }

  // Opening a gap at a cut changes no nesting.
  lemma OpenGapKeepsIndex(parent: ParentMap, left: Column, right: Column, c: int, d: int, owner: Option<Id>)
    requires Indexed(parent, left, right) && d >= 0
    requires owner.Some? ==> owner.value in parent
    requires CutUnder(parent.Keys, left, right, c, owner)
    ensures var l, r := ShiftFrom(left, d, c), ShiftFrom(right, d, c);
            && Indexed(parent, l, r)
            && FreeGap(parent.Keys, l, r, c, d)
            && CutUnder(parent.Keys, l, r, c, owner)
  {
    var l, r := ShiftFrom(left, d, c), ShiftFrom(right, d, c);
    forall x, y | x in parent && y in parent
      ensures PairOk(parent.Keys, parent, l, r, x, y)
    {
      PairFacts(parent, left, right, x, y);
    }
    forall y | y in parent
      ensures Straddles(l, r, c, y) <==> owner.Some? && InRange(l, r, owner.value, y)
    {
      assert Straddles(left, right, c, y) <==> owner.Some? && InRange(left, right, owner.value, y);
    }
  }

  // The rows of id's block move into the gap as they are; the others stay, clear of both.
  lemma RelocatedRow(parent: ParentMap, left: Column, right: Column, id: Id, c: int, x: Id)
    requires Indexed(parent, left, right) && id in parent && x in parent
    requires FreeGap(parent.Keys, left, right, c, right[id] - left[id] + 1)
    requires !Straddles(left, right, c, id)
    ensures var d, w := c - left[id], right[id] - left[id] + 1;
            var l := ShiftRows(left, left, d, left[id], right[id])[x];
            var r := ShiftRows(right, left, d, left[id], right[id])[x];
            if InRange(left, right, x, id) then
              && l == left[x] + d && r == right[x] + d && c <= l < r < c + w
              && (x != id ==> parent[x].Some? && InRange(left, right, parent[x].value, id))
            else
              && l == left[x] && r == right[x] && l < r
              && !(c <= l < c + w) && !(c <= r < c + w)
              && !(left[id] <= l <= right[id]) && !(left[id] <= r <= right[id])
              && (parent[x].Some? ==> !InRange(left, right, parent[x].value, id))
  {
    PairFacts(parent, left, right, x, id);
    if parent[x].Some? {
      PairFacts(parent, left, right, x, parent[x].value);
      PairFacts(parent, left, right, parent[x].value, id);
    }
  }

  // Moving the block of `id` into a free gap under `owner` (and outside the block)
  // reparents id and nothing else.
  lemma RelocateKeepsIndex(parent: ParentMap, left: Column, right: Column, id: Id, c: int, owner: Option<Id>)
    requires Indexed(parent, left, right) && id in parent && c >= 0
    requires owner.Some? ==> owner.value in parent
    requires CutUnder(parent.Keys, left, right, c, owner)
    requires FreeGap(parent.Keys, left, right, c, right[id] - left[id] + 1)
    requires !Straddles(left, right, c, id)
    ensures var d := c - left[id];
            Indexed(parent[id := owner],
                    ShiftRows(left, left, d, left[id], right[id]),
                    ShiftRows(right, left, d, left[id], right[id]))
  {
    var d := c - left[id];
    var after := parent[id := owner];
    var l := ShiftRows(left, left, d, left[id], right[id]);
    var r := ShiftRows(right, left, d, left[id], right[id]);
    assert after.Keys == parent.Keys;
    forall x, y | x in parent && y in parent
      ensures PairOk(after.Keys, after, l, r, x, y)
    {
      RelocatedPair(parent, left, right, id, c, owner, x, y);
    }
  }

  lemma RelocatedPair(parent: ParentMap, left: Column, right: Column, id: Id, c: int, owner: Option<Id>, x: Id, y: Id)
    requires Indexed(parent, left, right) && id in parent && c >= 0
    requires owner.Some? ==> owner.value in parent
    requires CutUnder(parent.Keys, left, right, c, owner)
    requires FreeGap(parent.Keys, left, right, c, right[id] - left[id] + 1)
    requires !Straddles(left, right, c, id)
    requires x in parent && y in parent
    ensures var d := c - left[id];
            var after := parent[id := owner];
            PairOk(parent.Keys, after,
                   ShiftRows(left, left, d, left[id], right[id]),
                   ShiftRows(right, left, d, left[id], right[id]), x, y)
  {
    RelocatedRow(parent, left, right, id, c, x);
    RelocatedRow(parent, left, right, id, c, y);
    PairFacts(parent, left, right, x, y);
    assert Straddles(left, right, c, y) <==> owner.Some? && InRange(left, right, owner.value, y);
    if owner.Some? {
      assert Straddles(left, right, c, id) <==> InRange(left, right, owner.value, id);
      RelocatedRow(parent, left, right, id, c, owner.value);
    }
    if parent[x].Some? {
      RelocatedRow(parent, left, right, id, c, parent[x].value);
    }
    PairFacts(parent, left, right, id, y);
  }

  // A row inserted into a gap of two under `owner`.
  lemma InsertKeepsIndex(parent: ParentMap, left: Column, right: Column, id: Id, c: int, owner: Option<Id>)
    requires Indexed(parent, left, right) && id !in parent && c >= 0
    requires owner.Some? ==> owner.value in parent
    requires CutUnder(parent.Keys, left, right, c, owner)
    requires FreeGap(parent.Keys, left, right, c, 2)
    ensures Indexed(parent[id := owner], left[id := c], right[id := c + 1])
  {
    var after, l, r := parent[id := owner], left[id := c], right[id := c + 1];
    forall x, y | x in after && y in after
      ensures PairOk(after.Keys, after, l, r, x, y)
    {
      if x in parent && y in parent {
        PairFacts(parent, left, right, x, y);
      } else if x in parent {
        PairFacts(parent, left, right, x, x);
        assert Straddles(left, right, c, x) <==> owner.Some? && InRange(left, right, owner.value, x);
      } else if y in parent {
        PairFacts(parent, left, right, y, y);
        assert Straddles(left, right, c, y) <==> owner.Some? && InRange(left, right, owner.value, y);
      }
    }
  }

  // Rows disappear together with everything below them.
  lemma RestrictKeepsIndex(parent: ParentMap, left: Column, right: Column, gone: set<Id>)
    requires Indexed(parent, left, right)
    requires forall x :: x in parent && parent[x].Some? && parent[x].value in gone ==> x in gone
    ensures Indexed(parent - gone, left - gone, right - gone)
  {
    var p, l, r := parent - gone, left - gone, right - gone;
    forall x, y | x in p && y in p
      ensures PairOk(p.Keys, p, l, r, x, y)
    {
      PairFacts(parent, left, right, x, y);
    }
  }

  // ------------------------------------------------------------------
  // Sibling order (`_parent_order`)

  // The children of any one record are laid out in key order.
  ghost predicate SiblingsOrdered(parent: ParentMap, left: Column, key: Column)
    requires parent.Keys <= left.Keys && parent.Keys <= key.Keys
  {
    forall x, y {:trigger PairInOrder(parent, left, key, x, y)} ::
      x in parent && y in parent ==> PairInOrder(parent, left, key, x, y)
  }

  ghost predicate PairInOrder(parent: ParentMap, left: Column, key: Column, x: Id, y: Id)
    requires parent.Keys <= left.Keys && parent.Keys <= key.Keys && x in parent && y in parent
  {
    parent[x].Some? && parent[x] == parent[y] && key[x] < key[y] ==> left[x] < left[y]
  }

  // Position c separates the children of `owner` with smaller keys from those with larger ones.
  ghost predicate CutInOrder(parent: ParentMap, left: Column, key: Column, id: Id, c: int, owner: Option<Id>)
    requires parent.Keys <= left.Keys && parent.Keys <= key.Keys && id in key
  {
    owner.Some? ==> forall s {:trigger RightSide(left, key, id, c, s)} ::
      s in parent && s != id && parent[s] == owner ==> RightSide(left, key, id, c, s)
  }

  ghost predicate RightSide(left: Column, key: Column, id: Id, c: int, s: Id)
    requires s in left && s in key && id in key
  {
    (key[s] < key[id] ==> left[s] < c) && (key[id] < key[s] ==> c <= left[s])
  }

  lemma OpenGapKeepsOrder(parent: ParentMap, left: Column, key: Column, id: Id, c: int, d: int, owner: Option<Id>)
    requires parent.Keys <= left.Keys && parent.Keys <= key.Keys && id in key && d >= 0
    requires SiblingsOrdered(parent, left, key) && CutInOrder(parent, left, key, id, c, owner)
    ensures SiblingsOrdered(parent, ShiftFrom(left, d, c), key)
    ensures CutInOrder(parent, ShiftFrom(left, d, c), key, id, c, owner)
  {
    var l := ShiftFrom(left, d, c);
    forall x, y | x in parent && y in parent
      ensures PairInOrder(parent, l, key, x, y)
    {
      assert PairInOrder(parent, left, key, x, y);
    }
    forall s | s in parent && s != id && parent[s] == owner && owner.Some?
      ensures RightSide(l, key, id, c, s)
    {
      assert RightSide(left, key, id, c, s);
    }
  }

  lemma InsertKeepsOrder(parent: ParentMap, left: Column, key: Column, id: Id, c: int, owner: Option<Id>)
    requires parent.Keys <= left.Keys && parent.Keys <= key.Keys && id in key && id !in parent
    requires SiblingsOrdered(parent, left, key) && CutInOrder(parent, left, key, id, c, owner)
    requires forall x :: x in parent ==> left[x] != c
    ensures SiblingsOrdered(parent[id := owner], left[id := c], key)
  {
    var after, l := parent[id := owner], left[id := c];
    forall x, y | x in after && y in after
      ensures PairInOrder(after, l, key, x, y)
    {
      if x in parent && y in parent {
        assert PairInOrder(parent, left, key, x, y);
      } else if x in parent && after[x] == after[y] && after[x].Some? {
        assert RightSide(left, key, id, c, x);
      } else if y in parent && after[x] == after[y] && after[x].Some? {
        assert RightSide(left, key, id, c, y);
      }
    }
  }

  lemma RelocateKeepsOrder(parent: ParentMap, left: Column, right: Column, key: Column, id: Id, c: int, owner: Option<Id>)
    requires Indexed(parent, left, right) && id in parent && c >= 0 && parent.Keys <= key.Keys
    requires owner.Some? ==> owner.value in parent && CutUnder(parent.Keys, left, right, c, owner)
    requires FreeGap(parent.Keys, left, right, c, right[id] - left[id] + 1)
    requires !Straddles(left, right, c, id)
    requires SiblingsOrdered(parent, left, key) && CutInOrder(parent, left, key, id, c, owner)
    ensures SiblingsOrdered(parent[id := owner], ShiftRows(left, left, c - left[id], left[id], right[id]), key)
  {
    var after := parent[id := owner];
    var l := ShiftRows(left, left, c - left[id], left[id], right[id]);
    forall x, y | x in after && y in after
      ensures PairInOrder(after, l, key, x, y)
    {
      assert PairInOrder(parent, left, key, x, y);
      if x != id && parent[x] == owner && owner.Some? {
        assert RightSide(left, key, id, c, x);
      }
      if y != id && parent[y] == owner && owner.Some? {
        assert RightSide(left, key, id, c, y);
      }
      RelocatedRow(parent, left, right, id, c, x);
      RelocatedRow(parent, left, right, id, c, y);
      if after[x].Some? {
        RelocatedRow(parent, left, right, id, c, after[x].value);
      }
    }
  }

  lemma RestrictKeepsOrder(parent: ParentMap, left: Column, key: Column, gone: set<Id>)
    requires parent.Keys <= left.Keys && parent.Keys <= key.Keys
    ensures SiblingsOrdered(parent, left, key) ==> SiblingsOrdered(parent - gone, left - gone, key - gone)
  {
    if SiblingsOrdered(parent, left, key) {
      forall x, y | x in parent - gone && y in parent - gone
        ensures PairInOrder(parent - gone, left - gone, key - gone, x, y)
      {
        assert PairInOrder(parent, left, key, x, y);
      }
    }
  }
}
