/** The `parent_id` column of a hierarchical table, read as a forest. */
module Forests {
  import opened Wrappers

  type Id = int

  // A row maps to its parent, or to None when `parent_id` is NULL.
  type ParentMap = map<Id, Option<Id>>

  // The n-th ancestor of x (x itself for n == 0).
  ghost function Up(parent: ParentMap, x: Id, n: nat): Option<Id>
    decreases n
  {
    if n == 0 then Some(x)
    else if x in parent && parent[x].Some? then Up(parent, parent[x].value, n - 1)
    else None
  }

  // x is a, or a descendant of a.
  ghost predicate Below(parent: ParentMap, x: Id, a: Id)
  {
    exists n: nat :: Up(parent, x, n) == Some(a)
  }

  // Every parent reference points to a row (the foreign key).
  ghost predicate Closed(parent: ParentMap)
  {
    forall x :: x in parent && parent[x].Some? ==> parent[x].value in parent
  }

  // The rows under a parent; for None, those whose parent is NULL.
  function Children(parent: ParentMap, target: Option<Id>): set<Id>
  {
    set x | x in parent && parent[x] == target
  }

  ghost predicate HasCycle(parent: ParentMap)
  {
    exists x, n: nat :: n > 0 && x in parent && Up(parent, x, n) == Some(x)
  }

  // Following parents from x ends at a root.
  ghost predicate Rooted(parent: ParentMap, x: Id)
  {
    exists n: nat :: Up(parent, x, n) == None
  }

  lemma {:induction false} UpCompose(parent: ParentMap, x: Id, m: nat, y: Id, n: nat)
    requires Up(parent, x, m) == Some(y)
    ensures Up(parent, x, m + n) == Up(parent, y, n)
    decreases m
  {
    if m > 0 {
      UpCompose(parent, parent[x].value, m - 1, y, n);
    }
  }

  lemma BelowParent(parent: ParentMap, x: Id, p: Id, a: Id)
    requires x in parent && parent[x] == Some(p)
    requires Below(parent, p, a)
    ensures Below(parent, x, a)
  {
    var n: nat :| Up(parent, p, n) == Some(a);
    assert Up(parent, x, n + 1) == Some(a);
  }

  lemma BelowSelf(parent: ParentMap, x: Id)
    ensures Below(parent, x, x)
  {
    assert Up(parent, x, 0) == Some(x);
  }

  // Below, unfolded once at the lower end.
  lemma BelowCases(parent: ParentMap, x: Id, a: Id)
    ensures Below(parent, x, a) <==>
            x == a || (x in parent && parent[x].Some? && Below(parent, parent[x].value, a))
  {
    if Below(parent, x, a) && x != a {
      var n: nat :| Up(parent, x, n) == Some(a);
      assert Up(parent, parent[x].value, n - 1) == Some(a);
    }
    if x == a {
      BelowSelf(parent, x);
    } else if x in parent && parent[x].Some? && Below(parent, parent[x].value, a) {
      BelowParent(parent, x, parent[x].value, a);
    }
  }

  // The map in which every id of `moved` gets the parent `target`.
  function Reparent(parent: ParentMap, moved: set<Id>, target: Option<Id>): ParentMap
  {
    map x | x in parent :: if x in moved then target else parent[x]
  }

  // Making rows roots closes no cycle.
  lemma UprootingKeepsAcyclic(parent: ParentMap, moved: set<Id>)
    requires !HasCycle(parent)
    ensures !HasCycle(Reparent(parent, moved, None))
  {
    var after := Reparent(parent, moved, None);
    forall x, n: nat | n > 0 && x in after && Up(after, x, n) == Some(x)
      ensures false
    {
      UprootedUp(parent, moved, x, n);
    }
  }

  lemma {:induction false} UprootedUp(parent: ParentMap, moved: set<Id>, x: Id, n: nat)
    ensures var after := Reparent(parent, moved, None);
            Up(after, x, n).Some? ==> Up(parent, x, n) == Up(after, x, n)
    decreases n
  {
    var after := Reparent(parent, moved, None);
    if n > 0 && x in after && after[x].Some? {
      UprootedUp(parent, moved, after[x].value, n - 1);
    }
  }

  // Some of the moved rows (`done`) already hang under t. If t then lies below a moved
  // row, moving all of them closes a cycle.
  lemma MovedAboveTargetIsCycle(parent: ParentMap, done: set<Id>, moved: set<Id>, t: Id, id: Id)
    requires done <= moved <= parent.Keys
    requires id in moved && t in parent
    requires Below(Reparent(parent, done, Some(t)), t, id)
    ensures HasCycle(Reparent(parent, moved, Some(t)))
  {
    var partway := Reparent(parent, done, Some(t));
    var after := Reparent(parent, moved, Some(t));
    var n: nat :| Up(partway, t, n) == Some(id);
    var m, d := FirstMovedAbove(parent, done, moved, t, id, t, n);
    assert Up(after, d, 1) == Up(after, t, 0) == Some(t);
    UpCompose(after, t, m, d, 1);
    assert Up(after, t, m + 1) == Some(t);
  }

  lemma {:induction false} FirstMovedAbove(parent: ParentMap, done: set<Id>, moved: set<Id>, t: Id, id: Id, y: Id, n: nat)
    returns (m: nat, d: Id)
    requires done <= moved && id in moved
    requires Up(Reparent(parent, done, Some(t)), y, n) == Some(id)
    ensures d in moved && Up(Reparent(parent, moved, Some(t)), y, m) == Some(d)
    decreases n
  {
    if y in moved {
      m, d := 0, y;
    } else {
      var q := Reparent(parent, done, Some(t))[y].value;
      m, d := FirstMovedAbove(parent, done, moved, t, id, q, n - 1);
      m := m + 1;
    }
  }

  lemma {:induction false} DistinctFit<T>(s: seq<T>, all: set<T>)
    requires forall i :: 0 <= i < |s| ==> s[i] in all
    requires forall i, j :: 0 <= i < j < |s| ==> s[i] != s[j]
    ensures |s| <= |all|
  {
    if s != [] {
      DistinctFit(s[1..], all - {s[0]});
    }
  }

  // Without a cycle, every row ends at a root.
  lemma AcyclicIsRooted(parent: ParentMap)
    requires Closed(parent) && !HasCycle(parent)
    ensures forall x :: x in parent ==> Rooted(parent, x)
  {
    forall x | x in parent
      ensures Rooted(parent, x)
    {
      if Up(parent, x, |parent|).Some? {
        LongClimbIsCycle(parent, x, |parent|);
      }
    }
  }

  // A climb as long as the table has rows repeats one.
  lemma LongClimbIsCycle(parent: ParentMap, x: Id, n: nat)
    requires Closed(parent) && x in parent && Up(parent, x, n).Some?
    ensures n >= |parent| ==> HasCycle(parent)
  {
    if n >= |parent| && !HasCycle(parent) {
      forall i | 0 <= i <= n
        ensures Up(parent, x, i).Some?
      {
        UpPrefix(parent, x, i, n);
      }
      var climb := seq(n + 1, i requires 0 <= i <= n => Up(parent, x, i).value);
      forall i | 0 <= i < |climb|
        ensures climb[i] in parent.Keys
      {
        UpStaysInside(parent, x, i);
      }
      forall i, j | 0 <= i < j < |climb|
        ensures climb[i] != climb[j]
      {
        UpStaysInside(parent, x, i);
        if climb[i] == climb[j] {
          RepeatIsCycle(parent, x, i, j, climb[i]);
        }
      }
      DistinctFit(climb, parent.Keys);
    }
  }

  lemma {:induction false} UpPrefix(parent: ParentMap, x: Id, i: nat, n: nat)
    requires i <= n && Up(parent, x, n).Some?
    ensures Up(parent, x, i).Some?
    decreases i
  {
    if i > 0 {
      UpPrefix(parent, parent[x].value, i - 1, n - 1);
    }
  }

  lemma RepeatIsCycle(parent: ParentMap, x: Id, i: nat, j: nat, y: Id)
    requires i < j && y in parent && Up(parent, x, i) == Some(y) == Up(parent, x, j)
    ensures HasCycle(parent)
  {
    UpCompose(parent, x, i, y, j - i);
    assert Up(parent, y, j - i) == Some(y);
  }

  lemma {:induction false} UpStaysInside(parent: ParentMap, x: Id, n: nat)
    requires Closed(parent) && x in parent
    ensures Up(parent, x, n).Some? ==> Up(parent, x, n).value in parent
    decreases n
  {
    if n > 0 && parent[x].Some? {
      UpStaysInside(parent, parent[x].value, n - 1);
    }
  }

  // What is below a row belongs to every child-closed set that holds the row.
  lemma {:induction false} ClosedSetHoldsSubtree(parent: ParentMap, rows: set<Id>, x: Id, a: Id, n: nat)
    requires forall y :: y in parent && parent[y].Some? && parent[y].value in rows ==> y in rows
    requires a in rows && Up(parent, x, n) == Some(a)
    ensures x in rows
    decreases n
  {
    if n > 0 {
      ClosedSetHoldsSubtree(parent, rows, parent[x].value, a, n - 1);
    }
  }

  // The rows that fall with `ids` when parent_id cascades.
  ghost predicate BelowAny(parent: ParentMap, x: Id, ids: set<Id>)
  {
    exists a :: a in ids && Below(parent, x, a)
  }

  ghost predicate OnCycle(parent: ParentMap, d: Id)
  {
    exists n: nat :: n > 0 && Up(parent, d, n) == Some(d)
  }

  // A record that comes back to itself never ends at a root ...
  lemma {:induction false} CycleNeverEnds(parent: ParentMap, id: Id, n: nat, k: nat)
    requires n > 0 && Up(parent, id, n) == Some(id)
    ensures Up(parent, id, k).Some?
    decreases k
  {
    if k <= n {
      UpPrefix(parent, id, k, n);
    } else {
      CycleNeverEnds(parent, id, n, k - n);
      UpCompose(parent, id, n, id, k - n);
    }
  }

  // ... and comes back again and again.
  lemma {:induction false} BackAgain(parent: ParentMap, id: Id, n: nat, m: nat) returns (t: nat)
    requires n > 0 && Up(parent, id, n) == Some(id)
    ensures t >= m && Up(parent, id, t) == Some(id)
    decreases m
  {
    if m <= n {
      t := n;
    } else {
      t := BackAgain(parent, id, n, m - n);
      UpCompose(parent, id, n, id, t);
      t := n + t;
    }
  }

  // A climb longer than the table comes by some record twice.
  lemma LongClimbRepeats(parent: ParentMap, x: Id, n: nat) returns (i: nat, j: nat, d: Id)
    requires n > |parent| && Up(parent, x, n).Some?
    ensures i < j < n && Up(parent, x, i) == Some(d) == Up(parent, x, j) && Up(parent, d, j - i) == Some(d)
  {
    forall k | 0 <= k < n
      ensures Up(parent, x, k).Some? && Up(parent, x, k).value in parent
    {
      UpPrefix(parent, x, k, n);
      UpPrefix(parent, x, k + 1, n);
      UpCompose(parent, x, k, Up(parent, x, k).value, 1);
    }
    var climb := seq(n, k requires 0 <= k < n => Up(parent, x, k).value);
    if forall k, l :: 0 <= k < l < |climb| ==> climb[k] != climb[l] {
      DistinctFit(climb, parent.Keys);
      assert false;
    }
    i, j :| 0 <= i < j < |climb| && climb[i] == climb[j];
    d := climb[i];
    UpCompose(parent, x, i, d, j - i);
  }
}
