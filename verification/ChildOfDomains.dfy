/** child_of_domain(): the two expansions of a `child_of` term, as a range over the
    nested-set columns and as a list of ids, and why they select the same records. */
module ChildOfDomains {
  import opened Wrappers
  import opened Forests
  import opened NestedSets
  import opened Sql
  import opened Domains
  import opened DomainTruth

  const PARENT_LEFT: string := "parent_left"

  // parent_left within the range of record o.
  function RangeOf(o: Id, left: Column, right: Column): Dom
    requires o in left && o in right
  {
    Conj(Atom(Term(PARENT_LEFT, Lt, Scalar(IntItem(right[o])))),
         Atom(Term(PARENT_LEFT, Ge, Scalar(IntItem(left[o])))))
  }

  function RangesOf(ids: seq<Id>, left: Column, right: Column): seq<Dom>
    requires forall i :: 0 <= i < |ids| ==> ids[i] in left && ids[i] in right
  {
    seq(|ids|, i requires 0 <= i < |ids| => RangeOf(ids[i], left, right))
  }

  // The range form: one expression, unless the list is empty, when nothing is left of the term.
  method RangeDomain(ids: seq<Id>, left: Column, right: Column) returns (doms: seq<Token>)
    requires forall i :: 0 <= i < |ids| ==> ids[i] in left && ids[i] in right
    ensures ids == [] ==> doms == []
    ensures ids != [] ==> doms == Flat(Join(Or, RangesOf(ids, left, right)))
    ensures WellFormed(doms) <==> ids != []
    ensures |doms| <= 4 * |ids|
  {
    doms := [];
    var i := 0;
    while i < |ids|
      invariant 0 <= i <= |ids|
      invariant |doms| <= 4 * i
      invariant doms == Repeat(Or, if i == 0 then 0 else i - 1) + Flats(RangesOf(ids, left, right)[..i])
    {
      var o := ids[i];
      ghost var trees := RangesOf(ids, left, right);
      assert trees[..i + 1] == trees[..i] + [RangeOf(o, left, right)];
      FlatsAppend(trees[..i], [RangeOf(o, left, right)]);
      FlatsOne(RangeOf(o, left, right));
      if doms != [] {
        doms := [Or] + doms;
      }
      var lt, ge := Atomic(Term(PARENT_LEFT, Lt, Scalar(IntItem(right[o])))), Atomic(Term(PARENT_LEFT, Ge, Scalar(IntItem(left[o]))));
      assert Flat(RangeOf(o, left, right)) == [And, lt, ge];
      doms := doms + [And, lt, ge];
      i := i + 1;
    }
    assert RangesOf(ids, left, right)[..i] == RangesOf(ids, left, right);
    if ids != [] {
      FlatJoin(Or, RangesOf(ids, left, right));
    } else {
      assert forall d: Dom :: |Flat(d)| > 0;
    }
  }

  // In a list of ids 0, or False, stands for NULL, so that the records without a parent hang under it.
  const NO_ID: Id := 0

  function Hung(parent: ParentMap): (hung: ParentMap)
    ensures hung.Keys == parent.Keys
  {
    map x | x in parent :: if parent[x] == None then Some(NO_ID) else parent[x]
  }

  lemma {:induction false} HungClimb(parent: ParentMap, x: Id, n: nat)
    requires NO_ID !in parent
    ensures forall a :: a != NO_ID ==> (Up(Hung(parent), x, n) == Some(a) <==> Up(parent, x, n) == Some(a))
    ensures n > 0 ==> (Up(Hung(parent), x, n) == Some(NO_ID) <==>
                         Up(parent, x, n) == Some(NO_ID) ||
                         (Up(parent, x, n - 1).Some? && Up(parent, x, n - 1).value in parent && parent[Up(parent, x, n - 1).value] == None))
    decreases n
  {
    if n > 0 && x in parent {
      if parent[x].Some? {
        HungClimb(parent, parent[x].value, n - 1);
      } else {
        assert n > 1 ==> Up(Hung(parent), NO_ID, n - 1) == None;
      }
    }
  }

  // Nothing else changes for that: what is below a record, and which records are on a cycle.
  lemma HungIsAlike(parent: ParentMap, a: Id)
    requires NO_ID !in parent
    ensures a != NO_ID ==> forall x :: Below(Hung(parent), x, a) <==> Below(parent, x, a)
    ensures OnCycle(Hung(parent), a) <==> OnCycle(parent, a)
  {
    forall x, n: nat
      ensures a != NO_ID ==> (Up(Hung(parent), x, n) == Some(a) <==> Up(parent, x, n) == Some(a))
    {
      HungClimb(parent, x, n);
    }
    assert forall n: nat :: n > 0 ==> Up(parent, NO_ID, n) == None && Up(Hung(parent), NO_ID, n) == None;
  }

  // Under 0 hang the records that end at a root.
  lemma HungUnderNone(parent: ParentMap, x: Id)
    requires NO_ID !in parent && Closed(parent) && x in parent
    ensures Below(Hung(parent), x, NO_ID) <==> exists r :: Below(parent, x, r) && r in parent && parent[r] == None
  {
    if Below(Hung(parent), x, NO_ID) {
      var n: nat :| Up(Hung(parent), x, n) == Some(NO_ID);
      HungClimb(parent, x, n);
      if Up(parent, x, n) == Some(NO_ID) {
        UpStaysInside(parent, x, n);
      }
      assert Below(parent, x, Up(parent, x, n - 1).value);
    }
    if exists r :: Below(parent, x, r) && r in parent && parent[r] == None {
      var r :| Below(parent, x, r) && r in parent && parent[r] == None;
      var n: nat :| Up(parent, x, n) == Some(r);
      HungClimb(parent, x, n + 1);
    }
  }

  // The search for the records whose parent is listed.
  method SearchChildren(parent: ParentMap, ids: seq<Id>) returns (found: seq<Id>)
    ensures forall x :: x in found <==> x in Hung(parent) && Hung(parent)[x].Some? && Hung(parent)[x].value in ids
  {
    found := [];
    var rest := set x | x in parent && (if parent[x].Some? then parent[x].value in ids else NO_ID in ids);
    while rest != {}
      invariant forall x :: x in found || x in rest <==> x in Hung(parent) && Hung(parent)[x].Some? && Hung(parent)[x].value in ids
      decreases rest
    {
      var x := Pick(rest);
      found := found + [x];
      rest := rest - {x};
    }
  }

  // Some record is n levels below one of the ids.
  ghost predicate HasLevel(parent: ParentMap, ids: seq<Id>, n: nat)
  {
    exists x, a :: a in ids && Up(parent, x, n) == Some(a)
  }

  // recursive_children(): the ids and everything below them, level by level; None when there are
  // records on more than `limit` levels below them, `limit` being how deep calls may be nested.
  method RecursiveChildren(ids: seq<Id>, parent: ParentMap, limit: nat) returns (all: Option<seq<Id>>)
    ensures all.Some? <==> !HasLevel(Hung(parent), ids, limit)
    ensures all.Some? ==> forall x :: x in all.value <==> exists a :: a in ids && Below(Hung(parent), x, a)
    decreases limit
  {
    if ids == [] {
      return Some([]);
    }
    if limit == 0 {
      assert ids[0] in ids && Up(Hung(parent), ids[0], 0) == Some(ids[0]);
      return None;
    }
    var ids2 := SearchChildren(parent, ids);
    OneLevelUp(Hung(parent), ids, ids2, limit - 1);
    var below := RecursiveChildren(ids2, parent, limit - 1);
    if below == None {
      return None;
    }
    all := Some(ids + below.value);
    forall x
      ensures x in all.value <==> exists a :: a in ids && Below(Hung(parent), x, a)
    {
      LevelByLevel(Hung(parent), ids, ids2, x);
    }
  }

  lemma OneLevelUp(parent: ParentMap, ids: seq<Id>, ids2: seq<Id>, n: nat)
    requires forall x :: x in ids2 <==> x in parent && parent[x].Some? && parent[x].value in ids
    ensures HasLevel(parent, ids, n + 1) <==> HasLevel(parent, ids2, n)
  {
    if HasLevel(parent, ids2, n) {
      var x, c :| c in ids2 && Up(parent, x, n) == Some(c);
      UpCompose(parent, x, n, c, 1);
      assert Up(parent, c, 1) == Up(parent, parent[c].value, 0) == parent[c];
      assert Up(parent, x, n + 1) == Some(parent[c].value);
    }
    if HasLevel(parent, ids, n + 1) {
      var x, a :| a in ids && Up(parent, x, n + 1) == Some(a);
      UpPrefix(parent, x, n, n + 1);
      var c := Up(parent, x, n).value;
      UpCompose(parent, x, n, c, 1);
      assert Up(parent, c, 1) == Up(parent, parent[c].value, 0) == parent[c];
      assert c in ids2;
    }
  }

  // The recursion ends if and only if none of the ids is on a cycle, whatever cycles there are
  // elsewhere, and then with no more than one level for each record.
  lemma RecursionEndsExactly(parent: ParentMap, ids: seq<Id>)
    requires NO_ID !in parent
    ensures (exists n: nat :: !HasLevel(Hung(parent), ids, n)) <==> forall a :: a in ids ==> !OnCycle(parent, a)
    ensures (forall a :: a in ids ==> !OnCycle(parent, a)) ==> forall n: nat :: n > |parent| ==> !HasLevel(Hung(parent), ids, n)
  {
    assert |Hung(parent).Keys| == |parent.Keys|;
    forall a
      ensures OnCycle(Hung(parent), a) <==> OnCycle(parent, a)
    {
      HungIsAlike(parent, a);
    }
    LevelsEndExactly(Hung(parent), ids);
  }

  lemma LevelsEndExactly(parent: ParentMap, ids: seq<Id>)
    ensures (exists n: nat :: !HasLevel(parent, ids, n)) <==> forall a :: a in ids ==> !OnCycle(parent, a)
    ensures (forall a :: a in ids ==> !OnCycle(parent, a)) ==> forall n: nat :: n > |parent| ==> !HasLevel(parent, ids, n)
  {
    forall n: nat | n > |parent| && HasLevel(parent, ids, n)
      ensures exists a :: a in ids && OnCycle(parent, a)
    {
      var x, a :| a in ids && Up(parent, x, n) == Some(a);
      DeepIsOnCycle(parent, x, n, a);
    }
    if forall a :: a in ids ==> !OnCycle(parent, a) {
      assert !HasLevel(parent, ids, |parent| + 1);
    } else {
      var a :| a in ids && OnCycle(parent, a);
      forall n: nat
        ensures HasLevel(parent, ids, n)
      {
        OnCycleHasLevels(parent, a, n);
      }
    }
  }

  lemma DeepIsOnCycle(parent: ParentMap, x: Id, n: nat, a: Id)
    requires n > |parent| && Up(parent, x, n) == Some(a)
    ensures OnCycle(parent, a)
  {
    var i, j, d := LongClimbRepeats(parent, x, n);
    UpCompose(parent, x, i, d, n - i);
    var t := BackAgain(parent, d, j - i, n - i + 1);
    UpCompose(parent, d, n - i, a, t - (n - i));
    UpCompose(parent, a, t - (n - i), d, n - i);
    assert Up(parent, a, t) == Some(a);
  }

  lemma OnCycleHasLevels(parent: ParentMap, a: Id, n: nat)
    requires OnCycle(parent, a)
    ensures exists x :: Up(parent, x, n) == Some(a)
  {
    var lap: nat :| lap > 0 && Up(parent, a, lap) == Some(a);
    var t := BackAgain(parent, a, lap, n);
    UpPrefix(parent, a, t - n, t);
    var x := Up(parent, a, t - n).value;
    UpCompose(parent, a, t - n, x, n);
  }

  // From 1, its own parent, it goes on for ever; from 2 it ends, although 1 is there.
  lemma ListsForEver()
    ensures var parent := map[1 := Some(1), 2 := None];
            && (forall n: nat :: HasLevel(Hung(parent), [1], n)) && !HasLevel(Hung(parent), [2], 3)
  {
    var parent: ParentMap := map[1 := Some(1), 2 := None];
    assert Up(parent, 1, 1) == Up(parent, 1, 0) == Some(1);
    assert OnCycle(parent, 1) && 1 in [1];
    RecursionEndsExactly(parent, [1]);
    forall n: nat | n > 0
      ensures Up(parent, 2, n) != Some(2)
    {
    }
    RecursionEndsExactly(parent, [2]);
  }

  lemma LevelByLevel(parent: ParentMap, ids: seq<Id>, ids2: seq<Id>, x: Id)
    requires forall x :: x in ids2 <==> x in parent && parent[x].Some? && parent[x].value in ids
    ensures (exists a :: a in ids && Below(parent, x, a)) <==>
            x in ids || exists a :: a in ids2 && Below(parent, x, a)
  {
    if exists a :: a in ids && Below(parent, x, a) {
      var a :| a in ids && Below(parent, x, a);
      var n: nat :| Up(parent, x, n) == Some(a);
      if n > 0 {
        var c := StepBefore(parent, x, n, a);
        assert c in ids2;
      }
    }
    if x in ids {
      BelowSelf(parent, x);
    }
    if exists c :: c in ids2 && Below(parent, x, c) {
      var c :| c in ids2 && Below(parent, x, c);
      var n: nat :| Up(parent, x, n) == Some(c);
      UpCompose(parent, x, n, c, 1);
      assert Up(parent, c, 1) == Up(parent, parent[c].value, 0) == parent[c];
      assert Up(parent, x, n + 1) == Some(parent[c].value);
    }
  }

  // The child of a through which x is below it.
  lemma {:induction false} StepBefore(parent: ParentMap, x: Id, n: nat, a: Id) returns (c: Id)
    requires n > 0 && Up(parent, x, n) == Some(a)
    ensures c in parent && parent[c] == Some(a) && Below(parent, x, c)
    decreases n
  {
    if n == 1 {
      c := x;
      BelowSelf(parent, x);
      assert Up(parent, parent[x].value, 0) == Some(a);
    } else {
      c := StepBefore(parent, parent[x].value, n - 1, a);
      BelowParent(parent, x, parent[x].value, c);
    }
  }

  lemma {:induction false} JoinOrTruth(ds: seq<Dom>, t: TriValuation)
    requires ds != [] && forall i :: 0 <= i < |ds| ==> EvalTri(ds[i], t) != U
    ensures EvalTri(Join(Or, ds), t) == Truth(exists i :: 0 <= i < |ds| && EvalTri(ds[i], t) == T)
  {
    if |ds| > 1 {
      var init := ds[..|ds| - 1];
      assert forall i :: 0 <= i < |init| ==> init[i] == ds[i];
      JoinOrTruth(init, t);
      if exists i :: 0 <= i < |ds| && EvalTri(ds[i], t) == T {
        var i :| 0 <= i < |ds| && EvalTri(ds[i], t) == T;
        assert i < |init| ==> EvalTri(init[i], t) == T;
      }
    }
  }

  // The range form, read on record x, says that x is below one of the ids.
  lemma RangeTruth(parent: ParentMap, left: Column, right: Column, ids: seq<Id>, x: Id, t: TriValuation)
    requires Indexed(parent, left, right) && x in parent
    requires ids != [] && forall i :: 0 <= i < |ids| ==> ids[i] in parent
    requires forall n :: t(Term(PARENT_LEFT, Lt, Scalar(IntItem(n)))) == Truth(left[x] < n)
    requires forall n :: t(Term(PARENT_LEFT, Ge, Scalar(IntItem(n)))) == Truth(left[x] >= n)
    ensures EvalTri(Join(Or, RangesOf(ids, left, right)), t) == Truth(exists a :: a in ids && Below(parent, x, a))
  {
    var ds := RangesOf(ids, left, right);
    forall i | 0 <= i < |ds|
      ensures EvalTri(ds[i], t) == Truth(Below(parent, x, ids[i]))
    {
      RangeIsAncestry(parent, left, right, x, ids[i]);
    }
    JoinOrTruth(ds, t);
    if exists i :: 0 <= i < |ds| && EvalTri(ds[i], t) == T {
      var i :| 0 <= i < |ds| && EvalTri(ds[i], t) == T;
      assert ids[i] in ids;
    }
    if exists a :: a in ids && Below(parent, x, a) {
      var a :| a in ids && Below(parent, x, a);
      var i :| 0 <= i < |ids| && ids[i] == a;
      assert EvalTri(ds[i], t) == T;
    }
  }
}
