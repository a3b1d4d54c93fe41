/** SELECT ... ORDER BY: listings of rows by a key. */
module Listings {
  import opened Wrappers
  import opened Forests
  import opened NestedSets

  // A listing of `ids` in ascending key order (ties in any order).
  ghost predicate IsListing(s: seq<Id>, ids: set<Id>, key: Column)
  {
    && ids <= key.Keys
    && (forall i :: 0 <= i < |s| ==> s[i] in ids)
    && (forall x :: x in ids ==> x in s)
    && (forall i, j :: 0 <= i < j < |s| ==> s[i] != s[j] && key[s[i]] <= key[s[j]])
  }

  // Select rows in the order of their keys.
  method SelectOrdered(ids: set<Id>, key: Column) returns (s: seq<Id>)
    requires ids <= key.Keys
    ensures IsListing(s, ids, key)
  {
    s := [];
    var rest := ids;
    while rest != {}
      invariant rest <= ids
      invariant IsListing(s, ids - rest, key)
      invariant forall x, y :: x in s && y in rest ==> key[x] <= key[y]
      decreases rest
    {
      var m := Pick(rest);
      var unseen := rest - {m};
      while unseen != {}
        invariant unseen <= rest && m in rest
        invariant forall y :: y in rest && y !in unseen ==> key[m] <= key[y]
        decreases unseen
      {
        var y := Pick(unseen);
        if key[y] < key[m] {
          m := y;
        }
        unseen := unseen - {y};
      }
      s := s + [m];
      rest := rest - {m};
    }
  }

  lemma {:induction false} SmallestKey(ids: set<Id>, key: Column) returns (m: Id)
    requires ids != {} && ids <= key.Keys
    ensures m in ids && forall x :: x in ids ==> key[m] <= key[x]
    decreases ids
  {
    m := SomeMember(ids);
    if ids != {m} {
      assert ids == {m} + (ids - {m});
      var n := SmallestKey(ids - {m}, key);
      m := if key[n] < key[m] then n else m;
    }
  }

  // Every set has a listing ...
  lemma {:induction false} ListingExists(ids: set<Id>, key: Column) returns (s: seq<Id>)
    requires ids <= key.Keys
    ensures IsListing(s, ids, key) && (ids == {} ==> s == [])
    decreases ids
  {
    s := [];
    if ids != {} {
      var m := SmallestKey(ids, key);
      var rest := ListingExists(ids - {m}, key);
      s := [m] + rest;
      assert forall x :: x in ids ==> x == m || x in rest;
    }
  }

  // ... and listings of smaller and larger keys can be joined.
  lemma ListingsJoin(s: seq<Id>, a: set<Id>, t: seq<Id>, b: set<Id>, key: Column)
    requires IsListing(s, a, key) && IsListing(t, b, key) && a !! b
    requires forall x, y :: x in a && y in b ==> key[x] <= key[y]
    ensures IsListing(s + t, a + b, key)
  {
  }

  // So a listing of all can be made around one of some in the middle.
  lemma ListingAround(all: set<Id>, key: Column, before: set<Id>, middle: seq<Id>, mids: set<Id>) returns (s: seq<Id>, t: seq<Id>)
    requires all <= key.Keys && before + mids <= all && before !! mids && IsListing(middle, mids, key)
    requires forall x, y :: x in before && y in all - before ==> key[x] <= key[y]
    requires forall x, y :: x in mids && y in all - before - mids ==> key[x] <= key[y]
    ensures IsListing(s + middle + t, all, key) && IsListing(s, before, key) && (before == {} ==> s == [])
  {
    s := ListingExists(before, key);
    t := ListingExists(all - before - mids, key);
    ListingsJoin(s, before, middle, mids, key);
    ListingsJoin(s + middle, before + mids, t, all - before - mids, key);
    assert before + mids + (all - before - mids) == all;
  }

  ghost predicate StrictKeys(key: Column)
  {
    forall x, y :: x in key && y in key && x != y ==> key[x] != key[y]
  }
}
