/** Numbering a forest depth-first: the facts behind `_parent_store_compute`. */
module Numbering {
  import opened Wrappers
  import opened Forests
  import opened NestedSets
  import opened Listings

  ghost predicate ChildClosed(parent: ParentMap, rows: set<Id>)
  {
    forall x {:trigger ChildStays(parent, rows, x)} :: ChildStays(parent, rows, x)
  }

  ghost predicate ChildStays(parent: ParentMap, rows: set<Id>, x: Id)
  {
    x in parent && parent[x].Some? && parent[x].value in rows ==> x in rows
  }

  // path leads from a root down to `owner` (and is empty for None), without repetition.
  ghost predicate PathTo(parent: ParentMap, path: seq<Id>, owner: Option<Id>)
  {
    && owner == (if path == [] then None else Some(path[|path| - 1]))
    && (forall i :: 0 <= i < |path| ==> path[i] in parent)
    && (path != [] ==> parent[path[0]] == None)
    && (forall i :: 0 < i < |path| ==> parent[path[i]] == Some(path[i - 1]))
    && (forall i, j :: 0 <= i < j < |path| ==> path[i] != path[j])
  }

  // Upwards, the rows of `done` only leave it for the ancestors on `path`.
  ghost predicate NumberedApart(parent: ParentMap, path: seq<Id>, done: set<Id>)
  {
    forall x {:trigger LeavesUpwards(parent, path, done, x)} :: LeavesUpwards(parent, path, done, x)
  }

  ghost predicate LeavesUpwards(parent: ParentMap, path: seq<Id>, done: set<Id>, x: Id)
  {
    x in done && x in parent && parent[x].Some? ==> parent[x].value in done || parent[x].value in path
  }

  // `rows` are indexed with the numbers pos, ..., next - 1, siblings in key order.
  ghost predicate Numbered(parent: ParentMap, left: Column, right: Column, key: Column, rows: set<Id>, pos: int, next: int)
  {
    && parent.Keys <= key.Keys && pos >= 0
    && IndexedOn(rows, parent, left, right)
    && next == pos + 2 * |rows|
    && (forall x {:trigger InNumbers(left, right, pos, next, x)} :: x in rows ==> InNumbers(left, right, pos, next, x))
    && (forall x, y {:trigger NumberedInOrder(parent, left, key, x, y)} ::
          x in rows && y in rows ==> NumberedInOrder(parent, left, key, x, y))
  }

  ghost predicate InNumbers(left: Column, right: Column, pos: int, next: int, x: Id)
  {
    x in left && x in right && pos <= left[x] && right[x] < next
  }

  ghost predicate NumberedInOrder(parent: ParentMap, left: Column, key: Column, x: Id, y: Id)
  {
    && x in parent && y in parent && x in left && y in left && x in key && y in key
    && (parent[x] == parent[y] && key[x] < key[y] ==> left[x] < left[y])
  }

  // The numbers of one row, spelled out.
  lemma NumberedRow(parent: ParentMap, left: Column, right: Column, key: Column, rows: set<Id>, pos: int, next: int, x: Id)
    requires Numbered(parent, left, right, key, rows, pos, next) && x in rows
    ensures pos <= left[x] < right[x] < next
  {
    assert PairOk(rows, parent, left, right, x, x) && InNumbers(left, right, pos, next, x);
  }

  // What two batches of subtrees have to satisfy to be numbered one after the other.
  ghost predicate Separate(parent: ParentMap, key: Column, rows: set<Id>, more: set<Id>)
  {
    && rows !! more
    && forall x, y {:trigger Unrelated(parent, key, x, y)} :: x in rows && y in more ==> Unrelated(parent, key, x, y)
  }

  ghost predicate Unrelated(parent: ParentMap, key: Column, x: Id, y: Id)
  {
    && x in parent && y in parent && x in key && y in key
    && parent[x] != Some(y) && parent[y] != Some(x) && (parent[x] == parent[y] ==> key[x] <= key[y])
  }

  lemma DisjointSize<T>(a: set<T>, b: set<T>)
    requires a !! b
    ensures |a + b| == |a| + |b|
  {
  }

  // Two batches of subtrees numbered one after the other.
  lemma JoinNumbered(parent: ParentMap, left: Column, right: Column, left': Column, right': Column, key: Column,
                     rows: set<Id>, more: set<Id>, pos: int, mid: int, next: int)
    requires Numbered(parent, left, right, key, rows, pos, mid)
    requires Numbered(parent, left', right', key, more, mid, next)
    requires OthersKept(left, left', more) && OthersKept(right, right', more)
    requires Separate(parent, key, rows, more)
    ensures Numbered(parent, left', right', key, rows + more, pos, next)
  {
    var all := rows + more;
    DisjointSize(rows, more);
    forall x | x in all
      ensures x in parent && x in left' && x in right'
    {
      assert CellKept(left, left', more, x) && CellKept(right, right', more, x);
    }
    forall x, y | x in all && y in all
      ensures PairOk(all, parent, left', right', x, y)
      ensures NumberedInOrder(parent, left', key, x, y)
    {
      JoinedPair(parent, left, right, left', right', key, rows, more, pos, mid, next, x, y);
    }
    forall x | x in all
      ensures InNumbers(left', right', pos, next, x)
    {
      if x in rows {
        assert CellKept(left, left', more, x) && CellKept(right, right', more, x);
        NumberedRow(parent, left, right, key, rows, pos, mid, x);
      } else {
        NumberedRow(parent, left', right', key, more, mid, next, x);
      }
    }
  }

  lemma JoinedPair(parent: ParentMap, left: Column, right: Column, left': Column, right': Column, key: Column,
                   rows: set<Id>, more: set<Id>, pos: int, mid: int, next: int, x: Id, y: Id)
    requires Numbered(parent, left, right, key, rows, pos, mid)
    requires Numbered(parent, left', right', key, more, mid, next)
    requires OthersKept(left, left', more) && OthersKept(right, right', more)
    requires Separate(parent, key, rows, more)
    requires x in rows + more && y in rows + more
    ensures PairOk(rows + more, parent, left', right', x, y) && NumberedInOrder(parent, left', key, x, y)
  {
    if x in rows && y in rows {
      assert PairOk(rows, parent, left, right, x, y) && NumberedInOrder(parent, left, key, x, y);
      assert CellKept(left, left', more, x) && CellKept(right, right', more, x);
      assert CellKept(left, left', more, y) && CellKept(right, right', more, y);
      if parent[x].Some? && parent[x].value in rows {
        assert CellKept(left, left', more, parent[x].value);
      }
    } else if x in more && y in more {
      assert PairOk(more, parent, left', right', x, y) && NumberedInOrder(parent, left', key, x, y);
    } else if x in rows {
      assert Unrelated(parent, key, x, y) && CellKept(left, left', more, x) && CellKept(right, right', more, x);
      NumberedRow(parent, left, right, key, rows, pos, mid, x);
      NumberedRow(parent, left', right', key, more, mid, next, y);
    } else {
      assert Unrelated(parent, key, y, x) && CellKept(left, left', more, y) && CellKept(right, right', more, y);
      NumberedRow(parent, left', right', key, more, mid, next, x);
      NumberedRow(parent, left, right, key, rows, pos, mid, y);
    }
  }

  // A record numbered around everything below it.
  lemma WrapNumbered(parent: ParentMap, left: Column, right: Column, key: Column, root: Id, rows: set<Id>, pos: int, next: int)
    requires Numbered(parent, left, right, key, rows, pos + 1, next) && pos >= 0 && next > pos
    requires root in parent && root !in rows && root in key
    requires forall x :: x in rows ==> parent[x].Some? && (parent[x].value == root || parent[x].value in rows)
    requires parent[root].Some? ==> parent[root].value !in rows && parent[root].value != root
    ensures Numbered(parent, left[root := pos], right[root := next], key, rows + {root}, pos, next + 1)
  {
    var all, l, r := rows + {root}, left[root := pos], right[root := next];
    forall x, y | x in all && y in all
      ensures PairOk(all, parent, l, r, x, y) && NumberedInOrder(parent, l, key, x, y)
    {
      if x in rows && y in rows {
        assert PairOk(rows, parent, left, right, x, y) && NumberedInOrder(parent, left, key, x, y);
      } else if x in rows {
        NumberedRow(parent, left, right, key, rows, pos + 1, next, x);
        if parent[x].value in rows {
          NumberedRow(parent, left, right, key, rows, pos + 1, next, parent[x].value);
        }
      } else if y in rows {
        NumberedRow(parent, left, right, key, rows, pos + 1, next, y);
      }
    }
    forall x | x in all
      ensures InNumbers(l, r, pos, next + 1, x)
    {
      if x in rows {
        NumberedRow(parent, left, right, key, rows, pos + 1, next, x);
      }
    }
  }

  lemma WrapKept(before: Column, after: Column, rows: set<Id>, root: Id, v: int)
    requires OthersKept(before, after, rows)
    ensures OthersKept(before, after[root := v], rows + {root})
  {
    var wrapped := after[root := v];
    forall x
      ensures CellKept(before, wrapped, rows + {root}, x)
    {
      assert CellKept(before, after, rows, x);
    }
  }

  ghost predicate OthersKept(before: Column, after: Column, changed: set<Id>)
  {
    forall x {:trigger CellKept(before, after, changed, x)} :: CellKept(before, after, changed, x)
  }

  ghost predicate CellKept(before: Column, after: Column, changed: set<Id>, x: Id)
  {
    && (x in after <==> x in before || x in changed)
    && (x in before && x !in changed ==> after[x] == before[x])
  }

  lemma ChildOffPath(parent: ParentMap, path: seq<Id>, owner: Option<Id>, c: Id)
    requires PathTo(parent, path, owner) && c in parent && parent[c] == owner
    ensures c !in path
  {
    forall i | 0 <= i < |path|
      ensures path[i] != c
    {
      var last := |path| - 1;
      assert owner == Some(path[last]);
      if i > 0 {
        assert parent[path[i]] == Some(path[i - 1]);
        assert path[i - 1] != path[last];
      }
    }
  }

  lemma PathGrows(parent: ParentMap, path: seq<Id>, owner: Option<Id>, c: Id)
    requires PathTo(parent, path, owner) && c in parent && parent[c] == owner
    ensures PathTo(parent, path + [c], Some(c)) && |path| < |parent|
    ensures (path + [c])[..|path|] == path
  {
    ChildOffPath(parent, path, owner, c);
    forall i | 0 < i < |path + [c]|
      ensures parent[(path + [c])[i]] == Some((path + [c])[i - 1])
    {
    }
    DistinctFit(path + [c], parent.Keys);
  }

  // `seen` holds the records `tops` and everything below them, apart from `done` and from
  // the ancestors `path`.
  ghost predicate Covers(parent: ParentMap, tops: seq<Id>, path: seq<Id>, done: set<Id>, seen: set<Id>)
  {
    && seen !! done
    && (forall x :: x in path ==> x !in seen)
    && (forall i :: 0 <= i < |tops| ==> tops[i] in seen)
    && (forall x {:trigger HangsIn(parent, tops, seen, x)} :: HangsIn(parent, tops, seen, x))
    && ChildClosed(parent, seen)
  }

  ghost predicate HangsIn(parent: ParentMap, tops: seq<Id>, seen: set<Id>, x: Id)
  {
    x in seen ==> x in parent && (x in tops || (parent[x].Some? && parent[x].value in seen))
  }

  // The next record listed has not been numbered yet, and its subtree can be.
  lemma NextIsNew(parent: ParentMap, key: Column, owner: Option<Id>, ids: seq<Id>, i: nat,
                  path: seq<Id>, done: set<Id>, seen: set<Id>)
    requires PathTo(parent, path, owner) && NumberedApart(parent, path, done)
    requires IsListing(ids, Children(parent, owner), key) && i < |ids| && ids[i] !in done
    requires Covers(parent, ids[..i], path, done, seen)
    ensures ids[i] !in done + seen && NumberedApart(parent, path, done + seen)
    ensures PathTo(parent, path + [ids[i]], Some(ids[i])) && |path| < |parent|
    ensures (path + [ids[i]])[..|path|] == path
  {
    var c := ids[i];
    assert c in Children(parent, owner);
    PathGrows(parent, path, owner, c);
    assert c !in ids[..i];
    assert HangsIn(parent, ids[..i], seen, c);
    if owner.Some? {
      assert owner.value == path[|path| - 1] && owner.value in path;
    }
    forall x
      ensures LeavesUpwards(parent, path, done + seen, x)
    {
      assert LeavesUpwards(parent, path, done, x) && HangsIn(parent, ids[..i], seen, x);
      if x in ids[..i] {
        var j :| 0 <= j < i && ids[j] == x;
        assert ids[j] in Children(parent, owner);
      }
    }
  }

  // The subtree of the next record joins what is covered.
  lemma CoverGrows(parent: ParentMap, key: Column, owner: Option<Id>, ids: seq<Id>, i: nat,
                   path: seq<Id>, done: set<Id>, seen: set<Id>, sub: set<Id>)
    requires PathTo(parent, path, owner) && parent.Keys <= key.Keys
    requires IsListing(ids, Children(parent, owner), key) && i < |ids|
    requires Covers(parent, ids[..i], path, done, seen)
    requires Covers(parent, [ids[i]], path, done + seen, sub)
    ensures Covers(parent, ids[..i + 1], path, done, seen + sub)
    ensures Separate(parent, key, seen, sub)
  {
    assert ids[..i + 1] == ids[..i] + [ids[i]];
    assert ids[i] in Children(parent, owner);
    if owner.Some? {
      assert owner.value == path[|path| - 1] && owner.value in path;
    }
    forall x | x in ids[..i]
      ensures x in parent && parent[x] == owner && key[x] <= key[ids[i]]
    {
      var j :| 0 <= j < i && ids[j] == x;
      assert ids[j] in Children(parent, owner);
    }
    forall x, y | x in seen && y in sub
      ensures Unrelated(parent, key, x, y)
    {
      assert HangsIn(parent, ids[..i], seen, x) && HangsIn(parent, [ids[i]], sub, y);
    }
    var before, tops, all := ids[..i], ids[..i + 1], seen + sub;
    forall x
      ensures HangsIn(parent, tops, all, x)
      ensures ChildStays(parent, all, x)
    {
      assert HangsIn(parent, ids[..i], seen, x) && HangsIn(parent, [ids[i]], sub, x);
      assert ChildStays(parent, seen, x) && ChildStays(parent, sub, x);
    }
    assert [ids[i]][0] in sub;
    forall j | 0 <= j < |tops|
      ensures tops[j] in all
    {
      if j < i {
        assert before[j] in seen;
      }
    }
  }

  // A record is numbered around its subtree: everything the recursion has to know again.
  lemma SubtreeDone(parent: ParentMap, key: Column, root: Id, children: seq<Id>, path: seq<Id>, done: set<Id>, seen: set<Id>,
                    left0: Column, left: Column, right0: Column, right: Column, pos: int, next: int)
    requires path != [] && PathTo(parent, path, Some(root)) && root !in done && parent.Keys <= key.Keys
    requires IsListing(children, Children(parent, Some(root)), key)
    requires Covers(parent, children, path, done, seen)
    requires Numbered(parent, left, right, key, seen, pos + 1, next) && pos >= 0
    requires OthersKept(left0, left, seen) && OthersKept(right0, right, seen)
    ensures Covers(parent, [root], path[..|path| - 1], done, seen + {root})
    ensures Numbered(parent, left[root := pos], right[root := next], key, seen + {root}, pos, next + 1)
    ensures OthersKept(left0, left[root := pos], seen + {root}) && OthersKept(right0, right[root := next], seen + {root})
  {
    CoverWraps(parent, key, root, children, path, done, seen);
    WrapNumbered(parent, left, right, key, root, seen, pos, next);
    WrapKept(left0, left, seen, root, pos);
    WrapKept(right0, right, seen, root, next);
  }

  lemma KeptTwice(before: Column, between: Column, after: Column, seen: set<Id>, sub: set<Id>)
    requires OthersKept(before, between, seen) && OthersKept(between, after, sub)
    ensures OthersKept(before, after, seen + sub)
  {
    forall x
      ensures CellKept(before, after, seen + sub, x)
    {
      assert CellKept(before, between, seen, x) && CellKept(between, after, sub, x);
    }
  }

  // The next batch of numbers: everything the loop over a listing has to know again.
  lemma BatchDone(parent: ParentMap, key: Column, owner: Option<Id>, ids: seq<Id>, i: nat,
                  path: seq<Id>, done: set<Id>, seen: set<Id>, sub: set<Id>,
                  left0: Column, left1: Column, left2: Column, right0: Column, right1: Column, right2: Column,
                  pos: int, mid: int, next: int)
    requires PathTo(parent, path, owner)
    requires IsListing(ids, Children(parent, owner), key) && i < |ids|
    requires Covers(parent, ids[..i], path, done, seen) && Covers(parent, [ids[i]], path, done + seen, sub)
    requires Numbered(parent, left1, right1, key, seen, pos, mid) && Numbered(parent, left2, right2, key, sub, mid, next)
    requires OthersKept(left0, left1, seen) && OthersKept(left1, left2, sub)
    requires OthersKept(right0, right1, seen) && OthersKept(right1, right2, sub)
    ensures Covers(parent, ids[..i + 1], path, done, seen + sub)
    ensures Numbered(parent, left2, right2, key, seen + sub, pos, next)
    ensures OthersKept(left0, left2, seen + sub) && OthersKept(right0, right2, seen + sub)
  {
    CoverGrows(parent, key, owner, ids, i, path, done, seen, sub);
    JoinNumbered(parent, left1, right1, left2, right2, key, seen, sub, pos, mid, next);
    KeptTwice(left0, left1, left2, seen, sub);
    KeptTwice(right0, right1, right2, seen, sub);
  }

  lemma ChildrenAreNew(parent: ParentMap, key: Column, root: Id, children: seq<Id>, path: seq<Id>, done: set<Id>)
    requires path != [] && PathTo(parent, path, Some(root)) && root !in done
    requires NumberedApart(parent, path[..|path| - 1], done)
    requires IsListing(children, Children(parent, Some(root)), key)
    ensures NumberedApart(parent, path, done)
    ensures forall i :: 0 <= i < |children| ==> children[i] !in done
  {
    AncestorsApart(parent, path, root);
    assert root !in path[..|path| - 1];
    forall x
      ensures LeavesUpwards(parent, path, done, x)
    {
      assert LeavesUpwards(parent, path[..|path| - 1], done, x);
    }
    forall i | 0 <= i < |children|
      ensures children[i] !in done
    {
      var c := children[i];
      assert c in Children(parent, Some(root));
      assert LeavesUpwards(parent, path[..|path| - 1], done, c);
    }
  }

  lemma AncestorsApart(parent: ParentMap, path: seq<Id>, root: Id)
    requires path != [] && PathTo(parent, path, Some(root))
    ensures root in path && root in parent
    ensures forall x :: x in path[..|path| - 1] ==> x in path && x != root
    ensures parent[root].Some? ==> parent[root].value in path[..|path| - 1]
  {
    assert path[|path| - 1] in path;
    forall x | x in path[..|path| - 1]
      ensures x in path && x != root
    {
      var i :| 0 <= i < |path| - 1 && path[i] == x;
    }
    if |path| > 1 {
      assert path[..|path| - 1][|path| - 2] == path[|path| - 2];
    }
  }

  // A record joins everything below it.
  lemma CoverWraps(parent: ParentMap, key: Column, root: Id, children: seq<Id>, path: seq<Id>, done: set<Id>, seen: set<Id>)
    requires path != [] && PathTo(parent, path, Some(root)) && root !in done
    requires IsListing(children, Children(parent, Some(root)), key)
    requires Covers(parent, children, path, done, seen)
    ensures Covers(parent, [root], path[..|path| - 1], done, seen + {root})
    ensures root !in seen
    ensures forall x :: x in seen ==> x in parent && parent[x].Some? && (parent[x].value == root || parent[x].value in seen)
    ensures parent[root].Some? ==> parent[root].value !in seen && parent[root].value != root
  {
    AncestorsApart(parent, path, root);
    forall x | x in children
      ensures x in parent && parent[x] == Some(root)
    {
      var i :| 0 <= i < |children| && children[i] == x;
      assert children[i] in Children(parent, Some(root));
    }
    forall x | x in parent && parent[x] == Some(root)
      ensures x in children
    {
      assert x in Children(parent, Some(root));
    }
    assert [root][0] == root;
    forall x | x in seen
      ensures x in parent && parent[x].Some? && (parent[x].value == root || parent[x].value in seen)
    {
      assert HangsIn(parent, children, seen, x);
    }
    forall x
      ensures HangsIn(parent, [root], seen + {root}, x) && ChildStays(parent, seen + {root}, x)
    {
      assert ChildStays(parent, seen, x);
    }
  }

  // What is covered from the roots is exactly what ends at a root.
  lemma CoveredIsRooted(parent: ParentMap, left: Column, right: Column, roots: seq<Id>, seen: set<Id>)
    requires Closed(parent) && IndexedOn(seen, parent, left, right)
    requires Covers(parent, roots, [], {}, seen)
    requires forall x :: x in Children(parent, None) ==> x in roots
    requires forall i :: 0 <= i < |roots| ==> roots[i] in Children(parent, None)
    ensures forall x :: x in seen <==> x in parent && Rooted(parent, x)
  {
    forall x, n: nat | x in parent && Up(parent, x, n) == None
      ensures x in seen
    {
      RootedIsCovered(parent, roots, seen, x, n);
    }
    forall x | x in seen
      ensures Rooted(parent, x)
    {
      CoveredEndsAtRoot(parent, left, right, roots, seen, x);
    }
  }

  lemma {:induction false} RootedIsCovered(parent: ParentMap, roots: seq<Id>, seen: set<Id>, x: Id, n: nat)
    requires Closed(parent) && Covers(parent, roots, [], {}, seen)
    requires forall x :: x in Children(parent, None) ==> x in roots
    requires x in parent && Up(parent, x, n) == None
    ensures x in seen
    decreases n
  {
    if parent[x] == None {
      assert x in roots;
    } else {
      RootedIsCovered(parent, roots, seen, parent[x].value, n - 1);
      assert ChildStays(parent, seen, x);
    }
  }

  lemma {:induction false} CoveredEndsAtRoot(parent: ParentMap, left: Column, right: Column, roots: seq<Id>, seen: set<Id>, x: Id)
    requires IndexedOn(seen, parent, left, right) && Covers(parent, roots, [], {}, seen)
    requires forall i :: 0 <= i < |roots| ==> roots[i] in Children(parent, None)
    requires x in seen
    ensures Rooted(parent, x)
    decreases left[x]
  {
    assert HangsIn(parent, roots, seen, x);
    if parent[x] == None {
      assert Up(parent, x, 1) == None;
    } else {
      var p := parent[x].value;
      assert p in seen;
      assert PairOk(seen, parent, left, right, x, p) && PairOk(seen, parent, left, right, p, p);
      CoveredEndsAtRoot(parent, left, right, roots, seen, p);
      var n: nat :| Up(parent, p, n) == None;
      assert Up(parent, x, n + 1) == None;
    }
  }

  // A full recomputation numbers exactly the rows that end at a root; without a parent
  // cycle that is an index of the whole table, with the children of each record in order.
  lemma RecomputeDone(parent: ParentMap, left0: Column, right0: Column, left: Column, right: Column, key: Column,
                      roots: seq<Id>, seen: set<Id>, next: int)
    requires Closed(parent) && key.Keys == parent.Keys && left0.Keys <= parent.Keys && right0.Keys <= parent.Keys
    requires IsListing(roots, Children(parent, None), key)
    requires Covers(parent, roots, [], {}, seen) && Numbered(parent, left, right, key, seen, 0, next)
    requires OthersKept(left0, left, seen) && OthersKept(right0, right, seen)
    ensures forall x :: x in seen <==> x in parent && Rooted(parent, x)
    ensures !HasCycle(parent) ==> seen == parent.Keys && Indexed(parent, left, right) && SiblingsOrdered(parent, left, key)
  {
    CoveredIsRooted(parent, left, right, roots, seen);
    if !HasCycle(parent) {
      AcyclicIsRooted(parent);
      assert forall x :: x in seen <==> x in parent.Keys;
      assert seen == parent.Keys;
      forall x
        ensures x in parent <==> x in left
        ensures x in parent <==> x in right
      {
        assert CellKept(left0, left, seen, x) && CellKept(right0, right, seen, x);
      }
      assert left.Keys == parent.Keys && right.Keys == parent.Keys;
      NumberedIsOrdered(parent, left, right, key, next);
    }
  }

  lemma NumberedIsOrdered(parent: ParentMap, left: Column, right: Column, key: Column, next: int)
    requires Numbered(parent, left, right, key, parent.Keys, 0, next)
    ensures SiblingsOrdered(parent, left, key)
  {
    forall x, y | x in parent && y in parent
      ensures PairInOrder(parent, left, key, x, y)
    {
      assert NumberedInOrder(parent, left, key, x, y);
    }
  }
}
