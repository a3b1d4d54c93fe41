/** The keys of the wake-up heap and the heap order, which a flag flipped in place must not break. */
module Wakeups {
  import opened Names

  // A wake-up, as the heap compares it: by timestamp, then database, then flag.
  datatype Key = Key(timestamp: real, db: Name, canceled: bool)

  predicate Less(a: Key, b: Key)
  {
    || a.timestamp < b.timestamp
    || (a.timestamp == b.timestamp && Before(a.db, b.db))
    || (a.timestamp == b.timestamp && a.db == b.db && !a.canceled && b.canceled)
  }

  predicate Le(a: Key, b: Key)
  {
    !Less(b, a)
  }

  lemma LeIsTotal(a: Key, b: Key)
    ensures Le(a, b) || Le(b, a)
    ensures Less(a, b) ==> Le(a, b)
  {
    BeforeIsTotal(a.db, b.db);
  }

  lemma LeIsTransitive(a: Key, b: Key, c: Key)
    requires Le(a, b) && Le(b, c)
    ensures Le(a, c)
  {
    BeforeIsTotal(a.db, b.db);
    BeforeIsTotal(b.db, c.db);
    BeforeIsTotal(a.db, c.db);
    if Before(a.db, b.db) && Before(b.db, c.db) {
      BeforeIsTransitive(a.db, b.db, c.db);
    }
  }

  function Up(i: int): int
  {
    (i - 1) / 2
  }

  // The entry at i is not smaller than the one above it.
  ghost predicate InPlace(keys: seq<Key>, i: int)
  {
    0 < i < |keys| ==> Le(keys[Up(i)], keys[i])
  }

  ghost predicate Heap(keys: seq<Key>)
  {
    forall i {:trigger InPlace(keys, i)} :: InPlace(keys, i)
  }

  lemma {:induction false} RootIsLeast(keys: seq<Key>, i: nat)
    requires Heap(keys) && i < |keys|
    ensures Le(keys[0], keys[i])
    decreases i
  {
    assert InPlace(keys, i);
    if i > 0 {
      RootIsLeast(keys, Up(i));
      LeIsTransitive(keys[0], keys[Up(i)], keys[i]);
    } else {
      LeIsTotal(keys[0], keys[0]);
    }
  }

  // At most one wake-up per database is live.
  ghost predicate OneLive(keys: seq<Key>)
  {
    forall i, j :: 0 <= i < j < |keys| && keys[i].db == keys[j].db ==> keys[i].canceled || keys[j].canceled
  }

  // Then cancelling one in place leaves the heap ordered.
  lemma FlipKeepsHeap(keys: seq<Key>, at: nat)
    requires Heap(keys) && OneLive(keys) && at < |keys|
    ensures Heap(keys[at := keys[at].(canceled := true)])
  {
    var flipped := keys[at := keys[at].(canceled := true)];
    forall i
      ensures InPlace(flipped, i)
    {
      assert InPlace(keys, i);
      if 0 < i < |keys| {
        BeforeIsTotal(keys[i].db, keys[Up(i)].db);
      }
    }
  }

  // With two live wake-ups at the same time for one database it might not.
  lemma TwoLiveMayBreakHeap()
    ensures var k := Key(5.0, "db", false); Heap([k, k]) && !Heap([k.(canceled := true), k])
  {
    var k := Key(5.0, "db", false);
    BeforeIsTotal(k.db, k.db);
    var broken := [k.(canceled := true), k];
    assert !InPlace(broken, 1);
  }

  // ------------------------------------------------------------------
  // Restoring the order: only the entry at i may be smaller than the one above it ...
  ghost predicate HeapButUp(keys: seq<Key>, i: int)
  {
    && (forall j {:trigger InPlace(keys, j)} :: j != i ==> InPlace(keys, j))
    && (forall j {:trigger Bridged(keys, i, j)} :: Bridged(keys, i, j))
  }

  // ... or larger than those below it.
  ghost predicate HeapButDown(keys: seq<Key>, i: int)
  {
    && (forall j {:trigger InPlace(keys, j)} :: Up(j) != i ==> InPlace(keys, j))
    && (forall j {:trigger Bridged(keys, i, j)} :: Bridged(keys, i, j))
  }

  // An entry j below i is not smaller than the one above i.
  ghost predicate Bridged(keys: seq<Key>, i: int, j: int)
  {
    0 < i < |keys| && 0 < j < |keys| && Up(j) == i ==> Le(keys[Up(i)], keys[j])
  }

  function Swapped<T>(s: seq<T>, i: int, j: int): (r: seq<T>)
    requires 0 <= i < |s| && 0 <= j < |s|
    ensures |r| == |s|
  {
    s[i := s[j]][j := s[i]]
  }

  ghost predicate Distinct<T>(s: seq<T>)
  {
    forall i, j :: 0 <= i < j < |s| ==> s[i] != s[j]
  }

  lemma SwappedMembers<T>(s: seq<T>, i: int, j: int)
    requires 0 <= i < |s| && 0 <= j < |s| && Distinct(s)
    ensures Distinct(Swapped(s, i, j)) && forall x :: x in Swapped(s, i, j) <==> x in s
  {
    var r := Swapped(s, i, j);
    assert r[i] == s[j] && r[j] == s[i];
    forall x
      ensures x in r <==> x in s
    {
      if x in s {
        var k :| 0 <= k < |s| && s[k] == x;
        assert r[if k == i then j else if k == j then i else k] == x;
      }
    }
  }

  lemma SwappedUp(keys: seq<Key>, i: nat)
    requires HeapButUp(keys, i) && 0 < i < |keys| && Less(keys[i], keys[Up(i)])
    ensures HeapButUp(Swapped(keys, i, Up(i)), Up(i))
  {
    var p, r := Up(i), Swapped(keys, i, Up(i));
    LeIsTotal(keys[i], keys[p]);
    assert InPlace(keys, p);
    forall j
      ensures j != p ==> InPlace(r, j)
      ensures Bridged(r, p, j)
    {
      assert Bridged(keys, i, j);
      assert j != i ==> InPlace(keys, j);
      if 0 < j < |r| && Up(j) == p && j != i {
        LeIsTransitive(keys[i], keys[p], keys[j]);
        if 0 < p {
          LeIsTransitive(keys[Up(p)], keys[p], keys[j]);
        }
      }
    }
  }

  lemma SwappedDown(keys: seq<Key>, i: nat, c: nat)
    requires HeapButDown(keys, i) && 0 < c < |keys| && Up(c) == i && Less(keys[c], keys[i])
    requires forall j :: 0 < j < |keys| && Up(j) == i ==> Le(keys[c], keys[j])
    ensures HeapButDown(Swapped(keys, i, c), c)
  {
    var r := Swapped(keys, i, c);
    LeIsTotal(keys[c], keys[i]);
    assert Bridged(keys, i, c);
    forall j
      ensures Up(j) != c ==> InPlace(r, j)
      ensures Bridged(r, c, j)
    {
      assert Up(j) != i ==> InPlace(keys, j);
    }
  }
}
