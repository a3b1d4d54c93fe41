/** The constraint check that climbs from records to see whether their parents lead back to them. */
module RecursionChecks {
  import opened Wrappers
  import opened Forests

  // No record above x, x included, is on a cycle.
  ghost predicate NoCycleAbove(parent: ParentMap, x: Id)
  {
    forall d {:trigger OnCycle(parent, d)} :: Below(parent, x, d) ==> !OnCycle(parent, d)
  }

  // Then, and only then, its climb ends, and within the size of the table.
  lemma NoCycleAboveEnds(parent: ParentMap, x: Id)
    ensures NoCycleAbove(parent, x) <==> Rooted(parent, x)
    ensures Rooted(parent, x) ==> Up(parent, x, |parent| + 1) == None
  {
    if Up(parent, x, |parent| + 1).Some? {
      var i, j, d := LongClimbRepeats(parent, x, |parent| + 1);
      assert Below(parent, x, d) && OnCycle(parent, d);
    }
    forall d, n: nat, m: nat | Up(parent, x, n) == None && Up(parent, x, m) == Some(d)
      ensures !OnCycle(parent, d)
    {
      EndsAbove(parent, x, n, m, d);
    }
  }

  lemma EndsAbove(parent: ParentMap, x: Id, n: nat, m: nat, d: Id)
    requires Up(parent, x, n) == None && Up(parent, x, m) == Some(d)
    ensures !OnCycle(parent, d)
  {
    if n <= m {
      UpPrefix(parent, x, n, m);
    } else {
      UpCompose(parent, x, m, d, n - m);
      if OnCycle(parent, d) {
        var lap: nat :| lap > 0 && Up(parent, d, lap) == Some(d);
        CycleNeverEnds(parent, d, lap, n - m);
      }
    }
  }

  // ------------------------------------------------------------------
  // The check

  // One of the ids comes to one of them after n steps.
  ghost predicate Reaches(parent: ParentMap, ids: set<Id>, x: Id, n: nat)
  {
    x in ids && n > 0 && Up(parent, x, n).Some? && Up(parent, x, n).value in ids
  }

  ghost predicate SomeReaches(parent: ParentMap, ids: set<Id>)
  {
    exists x, n: nat :: Reaches(parent, ids, x, n)
  }

  // When the loop stops: one of the ids has come to one of them, or all have ended.
  ghost predicate StopsAt(parent: ParentMap, ids: set<Id>, n: nat)
  {
    (exists x :: Reaches(parent, ids, x, n)) || forall x :: x in ids ==> Up(parent, x, n) == None
  }

  ghost predicate Stops(parent: ParentMap, ids: set<Id>)
  {
    exists n: nat :: StopsAt(parent, ids, n)
  }

  // It does if and only if some id comes to one of them, or none has a cycle above it.
  lemma StopsExactly(parent: ParentMap, ids: set<Id>)
    ensures Stops(parent, ids) <==> SomeReaches(parent, ids) || forall x :: x in ids ==> NoCycleAbove(parent, x)
  {
    if SomeReaches(parent, ids) {
      var x, n: nat :| Reaches(parent, ids, x, n);
      assert StopsAt(parent, ids, n);
    }
    forall x | x in ids
      ensures NoCycleAbove(parent, x) <==> Rooted(parent, x)
      ensures Rooted(parent, x) ==> Up(parent, x, |parent| + 1) == None
    {
      NoCycleAboveEnds(parent, x);
    }
    if forall x :: x in ids ==> NoCycleAbove(parent, x) {
      assert StopsAt(parent, ids, |parent| + 1);
    }
    if Stops(parent, ids) && !SomeReaches(parent, ids) {
      var n: nat :| StopsAt(parent, ids, n);
      forall x | x in ids
        ensures Rooted(parent, x)
      {
      }
    }
  }

  // Every cycle above id has id above it.
  ghost predicate OnlyOwnCycleAbove(parent: ParentMap, id: Id)
  {
    forall d {:trigger OnCycle(parent, d)} :: Below(parent, id, d) && OnCycle(parent, d) ==> Below(parent, d, id)
  }

  // For one record the check stops if and only if each cycle above it leads back to it.
  lemma StopsForOneExactly(parent: ParentMap, id: Id)
    ensures Stops(parent, {id}) <==> OnlyOwnCycleAbove(parent, id)
    ensures SomeReaches(parent, {id}) <==> OnCycle(parent, id)
  {
    StopsExactly(parent, {id});
    forall n: nat
      ensures Reaches(parent, {id}, id, n) <==> n > 0 && Up(parent, id, n) == Some(id)
    {
    }
    if OnCycle(parent, id) {
      OwnCycle(parent, id);
    } else if OnlyOwnCycleAbove(parent, id) {
      forall d | Below(parent, id, d)
        ensures !OnCycle(parent, d)
      {
        if OnCycle(parent, d) {
          BackFromCycle(parent, id, d);
        }
      }
    }
  }

  lemma OwnCycle(parent: ParentMap, id: Id)
    requires OnCycle(parent, id)
    ensures OnlyOwnCycleAbove(parent, id)
  {
    var n: nat :| n > 0 && Up(parent, id, n) == Some(id);
    forall d | Below(parent, id, d)
      ensures Below(parent, d, id)
    {
      var m: nat :| Up(parent, id, m) == Some(d);
      var t := BackAgain(parent, id, n, m);
      UpCompose(parent, id, m, d, t - m);
    }
  }

  lemma BackFromCycle(parent: ParentMap, id: Id, d: Id)
    requires Below(parent, id, d) && OnCycle(parent, d) && Below(parent, d, id)
    ensures OnCycle(parent, id)
  {
    var m: nat, lap: nat, k: nat :| Up(parent, id, m) == Some(d) && lap > 0 && Up(parent, d, lap) == Some(d)
                                    && Up(parent, d, k) == Some(id);
    UpCompose(parent, id, m, d, lap);
    UpCompose(parent, id, m + lap, d, k);
    assert Up(parent, id, m + lap + k) == Some(id);
  }

  // _check_recursion: wherever the loop stops, it answers whether no id comes to one of them.
  method CheckRecursion(parent: ParentMap, ids: set<Id>) returns (ok: bool)
    requires SomeReaches(parent, ids) || forall x :: x in ids ==> NoCycleAbove(parent, x)
    ensures ok <==> !SomeReaches(parent, ids)
  {
    StopsExactly(parent, ids);
    ghost var bound: nat :| StopsAt(parent, ids, bound);
    var idsParent := ids;
    ghost var n := 0;
    LevelZero(parent, ids);
    while idsParent != {}
      invariant n <= bound && idsParent == Level(parent, ids, n) && NoneReachedUpTo(parent, ids, n)
      decreases bound - n
    {
      NotStoppedYet(parent, ids, n, bound);
      NextLevel(parent, ids, n);
      idsParent := set x | x in idsParent && x in parent && parent[x].Some? :: parent[x].value;
      n := n + 1;
      if idsParent * ids != {} {
        var y := Pick(idsParent * ids);
        MetIsReached(parent, ids, n, y);
        return false;
      }
      NoneMetYet(parent, ids, n);
    }
    AllEnded(parent, ids, n);
    ok := true;
  }

  // The distinct ancestors n steps up.
  ghost function Level(parent: ParentMap, ids: set<Id>, n: nat): set<Id>
  {
    set x | x in ids && Up(parent, x, n).Some? :: Up(parent, x, n).value
  }

  ghost predicate NoneReachedUpTo(parent: ParentMap, ids: set<Id>, n: nat)
  {
    forall x, m: nat {:trigger Reaches(parent, ids, x, m)} :: Reaches(parent, ids, x, m) ==> m > n
  }

  lemma LevelZero(parent: ParentMap, ids: set<Id>)
    ensures Level(parent, ids, 0) == ids
  {
    forall x | x in ids
      ensures x in Level(parent, ids, 0)
    {
      assert Up(parent, x, 0) == Some(x);
    }
  }

  lemma LevelEmpty(parent: ParentMap, ids: set<Id>, n: nat)
    ensures Level(parent, ids, n) == {} <==> forall x :: x in ids ==> Up(parent, x, n) == None
  {
    forall x | x in ids && Up(parent, x, n).Some?
      ensures Up(parent, x, n).value in Level(parent, ids, n)
    {
    }
    if forall x :: x in ids ==> Up(parent, x, n) == None {
      assert forall y :: y !in Level(parent, ids, n);
    }
  }

  lemma NotStoppedYet(parent: ParentMap, ids: set<Id>, n: nat, bound: nat)
    requires Level(parent, ids, n) != {} && StopsAt(parent, ids, bound) && n <= bound && NoneReachedUpTo(parent, ids, n)
    ensures n < bound
  {
    LevelEmpty(parent, ids, n);
  }

  lemma NextLevel(parent: ParentMap, ids: set<Id>, n: nat)
    ensures Level(parent, ids, n + 1) ==
            set x | x in Level(parent, ids, n) && x in parent && parent[x].Some? :: parent[x].value
  {
    var above := set x | x in Level(parent, ids, n) && x in parent && parent[x].Some? :: parent[x].value;
    forall x | x in ids
      ensures Up(parent, x, n + 1).Some? ==> Up(parent, x, n + 1).value in above
    {
      StepUp(parent, x, n);
      if Up(parent, x, n + 1).Some? {
        var y := Up(parent, x, n).value;
        assert y in Level(parent, ids, n) && y in parent && parent[y].Some?;
        assert parent[y].value in above;
      }
    }
    forall y | y in Level(parent, ids, n) && y in parent && parent[y].Some?
      ensures parent[y].value in Level(parent, ids, n + 1)
    {
      var x :| x in ids && Up(parent, x, n) == Some(y);
      StepUp(parent, x, n);
    }
  }

  lemma MetIsReached(parent: ParentMap, ids: set<Id>, n: nat, y: Id)
    requires n > 0 && y in Level(parent, ids, n) && y in ids
    ensures SomeReaches(parent, ids)
  {
    var x :| x in ids && Up(parent, x, n) == Some(y);
    assert Reaches(parent, ids, x, n);
  }

  lemma ReachedIsMet(parent: ParentMap, ids: set<Id>, x: Id, n: nat)
    requires Reaches(parent, ids, x, n)
    ensures Up(parent, x, n).value in Level(parent, ids, n) * ids
  {
    assert Up(parent, x, n).value in Level(parent, ids, n);
  }

  lemma NoneMetYet(parent: ParentMap, ids: set<Id>, n: nat)
    requires n > 0 && NoneReachedUpTo(parent, ids, n - 1) && Level(parent, ids, n) * ids == {}
    ensures NoneReachedUpTo(parent, ids, n)
  {
    forall x, m: nat | Reaches(parent, ids, x, m)
      ensures m > n
    {
      if m == n {
        ReachedIsMet(parent, ids, x, n);
      }
    }
  }

  lemma AllEnded(parent: ParentMap, ids: set<Id>, n: nat)
    requires Level(parent, ids, n) == {} && NoneReachedUpTo(parent, ids, n)
    ensures !SomeReaches(parent, ids)
  {
    LevelEmpty(parent, ids, n);
    forall x, m: nat
      ensures !Reaches(parent, ids, x, m)
    {
      if Reaches(parent, ids, x, m) {
        UpPrefix(parent, x, n, m);
      }
    }
  }

  lemma {:induction false} StepUp(parent: ParentMap, x: Id, n: nat)
    ensures Up(parent, x, n + 1) ==
            if Up(parent, x, n).Some? && Up(parent, x, n).value in parent then parent[Up(parent, x, n).value] else None
    decreases n
  {
    if n > 0 && x in parent && parent[x].Some? {
      StepUp(parent, parent[x].value, n - 1);
    }
  }

  // ------------------------------------------------------------------
  // What the answer is worth

  // A climb that does not meet id is the same when id is made a root.
  lemma {:induction false} ClimbWithout(parent: ParentMap, id: Id, x: Id, n: nat)
    requires forall m :: 0 <= m < n ==> Up(parent, x, m) != Some(id)
    ensures Up(Reparent(parent, {id}, None), x, n) == Up(parent, x, n)
    decreases n
  {
    if n > 0 {
      assert Up(parent, x, 0) == Some(x);
      if x in parent && parent[x].Some? {
        forall m | 0 <= m < n - 1
          ensures Up(parent, parent[x].value, m) != Some(id)
        {
          assert Up(parent, x, m + 1) == Up(parent, parent[x].value, m);
        }
        ClimbWithout(parent, id, parent[x].value, n - 1);
      }
    }
  }

  // When only the parent of id has changed in a table without cycles, every cycle goes through id ...
  lemma CycleThrough(parent: ParentMap, id: Id, x: Id)
    requires !HasCycle(Reparent(parent, {id}, None)) && OnCycle(parent, x)
    ensures Below(parent, x, id) && OnCycle(parent, id)
  {
    var n: nat :| n > 0 && Up(parent, x, n) == Some(x);
    assert x in Reparent(parent, {id}, None);
    if m: nat :| m < n && Up(parent, x, m) == Some(id) {
      // round the cycle from id
      UpCompose(parent, x, m, id, n - m);
      UpCompose(parent, id, n - m, x, m);
      assert Up(parent, id, n) == Some(id);
    } else {
      ClimbWithout(parent, id, x, n);
    }
  }

  // ... so the check of that record stops, and answers whether there is a cycle at all.
  lemma OneChangeIsSeen(parent: ParentMap, id: Id)
    requires !HasCycle(Reparent(parent, {id}, None))
    ensures Stops(parent, {id}) && (SomeReaches(parent, {id}) <==> HasCycle(parent))
  {
    forall d | OnCycle(parent, d)
      ensures Below(parent, d, id) && OnCycle(parent, id)
    {
      CycleThrough(parent, id, d);
    }
    StopsForOneExactly(parent, id);
    if OnCycle(parent, id) {
      var n: nat :| n > 0 && Up(parent, id, n) == Some(id);
      assert id in parent;
    }
    if HasCycle(parent) {
      var x, n: nat :| n > 0 && x in parent && Up(parent, x, n) == Some(x);
      assert OnCycle(parent, x);
    }
  }

  // Otherwise it may climb for ever: from 1, below the cycle of 2 and 3, it neither ends nor
  // comes back.
  lemma {:induction false} ClimbsForEver(n: nat)
    ensures var parent := map[1 := Some(2), 2 := Some(3), 3 := Some(2)];
            n > 0 ==> Up(parent, 1, n) in {Some(2), Some(3)}
    decreases n
  {
    var parent := map[1 := Some(2), 2 := Some(3), 3 := Some(2)];
    if n > 1 {
      ClimbsForEver(n - 1);
      UpCompose(parent, 1, n - 1, Up(parent, 1, n - 1).value, 1);
    }
  }

  ghost predicate SomeOnCycle(parent: ParentMap, ids: set<Id>)
  {
    exists x :: x in ids && OnCycle(parent, x)
  }

  ghost predicate NoneAboveAnother(parent: ParentMap, ids: set<Id>)
  {
    forall x, y :: x in ids && y in ids && x != y ==> !Below(parent, x, y)
  }

  // For a batch the answer is about cycles if and only if one of the ids is on a cycle, or none
  // of them is above another.
  lemma BatchExactly(parent: ParentMap, ids: set<Id>)
    ensures (SomeReaches(parent, ids) <==> SomeOnCycle(parent, ids)) <==>
              SomeOnCycle(parent, ids) || NoneAboveAnother(parent, ids)
  {
    if SomeOnCycle(parent, ids) {
      var x :| x in ids && OnCycle(parent, x);
      var n: nat :| n > 0 && Up(parent, x, n) == Some(x);
      assert Reaches(parent, ids, x, n);
    } else if NoneAboveAnother(parent, ids) {
      forall x, n: nat
        ensures !Reaches(parent, ids, x, n)
      {
        if x in ids && n > 0 && Up(parent, x, n).Some? {
          var y := Up(parent, x, n).value;
          assert y == x ==> OnCycle(parent, x);
          assert Below(parent, x, y);
        }
      }
    } else {
      var x, y :| x in ids && y in ids && x != y && Below(parent, x, y);
      var n: nat :| Up(parent, x, n) == Some(y);
      assert Reaches(parent, ids, x, n);
    }
  }

  // A record checked together with its parent is taken for a cycle where there is none.
  lemma ParentAndChild()
    ensures var parent := map[1 := None, 2 := Some(1)]; SomeReaches(parent, {1, 2}) && !HasCycle(parent)
  {
    var parent: ParentMap := map[1 := None, 2 := Some(1)];
    assert Up(parent, 2, 1) == Some(1) && Reaches(parent, {1, 2}, 2, 1);
    forall x, n: nat | n > 0 && x in parent
      ensures Up(parent, x, n) != Some(x)
    {
      assert Up(parent, 1, n) == None;
      assert x == 2 ==> Up(parent, x, n) == Up(parent, 1, n - 1);
    }
  }
}
