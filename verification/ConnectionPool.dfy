/** The pool of database connections, and the cursors that borrow from it. */
module ConnectionPools {
  import opened Wrappers

  // The settings a connection was opened with.
  type Dsn = map<string, string>

  // dsn_are_equals: the password does not matter.
  predicate SameDatabase(a: Dsn, b: Dsn)
  {
    a - {"password"} == b - {"password"}
  }

  lemma SameDatabaseMeans(a: Dsn, b: Dsn)
    ensures SameDatabase(a, b) <==> forall k :: k != "password" ==> (k in a <==> k in b) && (k in a ==> a[k] == b[k])
  {
    var a', b' := a - {"password"}, b - {"password"};
    assert forall k :: k != "password" ==> (k in a <==> k in a') && (k in b <==> k in b');
  }

  class Cnx {
    const dsn: Dsn
    var closed: bool
    var leaked: bool     // its cursor was collected without being closed

    constructor (dsn: Dsn)
      ensures this.dsn == dsn && !closed && !leaked
    {
      this.dsn, closed, leaked := dsn, false, false;
    }
  }

  class Cursor {
    const cnx: Cnx
    var closed: bool

    constructor (cnx: Cnx)
      ensures this.cnx == cnx && !closed
    {
      this.cnx, closed := cnx, false;
    }
  }

  datatype Entry = Entry(cnx: Cnx, used: bool)

  datatype Failure = PoolFull | ConnectFailed

  // ------------------------------------------------------------------
  // The list of connections

  ghost predicate Distinct(es: seq<Entry>)
  {
    forall i, j :: 0 <= i < j < |es| ==> es[i].cnx != es[j].cnx
  }

  function Without(es: seq<Entry>, i: nat): seq<Entry>
    requires i < |es|
  {
    es[..i] + es[i + 1..]
  }

  lemma WithoutMembers(es: seq<Entry>, i: nat)
    requires i < |es| && Distinct(es)
    ensures Distinct(Without(es, i))
    ensures forall e :: e in Without(es, i) <==> e in es && e.cnx != es[i].cnx
  {
    assert es == es[..i] + [es[i]] + es[i + 1..];
  }

  lemma AppendMembers(es: seq<Entry>, e: Entry)
    requires Distinct(es) && forall d :: d in es ==> d.cnx != e.cnx
    ensures Distinct(es + [e])
    ensures forall d :: d in es + [e] <==> d in es || d == e
  {
  }

  // What purging keeps where it is ...
  function Kept(es: seq<Entry>, closed: set<Cnx>, leaked: set<Cnx>): seq<Entry>
  {
    if es == [] then []
    else (if es[0].cnx in closed + leaked then [] else [es[0]]) + Kept(es[1..], closed, leaked)
  }

  // ... and what it frees, the last one first.
  function Freed(es: seq<Entry>, closed: set<Cnx>, leaked: set<Cnx>): seq<Entry>
  {
    if es == [] then []
    else Freed(es[1..], closed, leaked) + if es[0].cnx in leaked - closed then [Entry(es[0].cnx, false)] else []
  }

  function Purged(es: seq<Entry>, closed: set<Cnx>, leaked: set<Cnx>): seq<Entry>
  {
    Kept(es, closed, leaked) + Freed(es, closed, leaked)
  }

  lemma {:induction false} KeptMembers(es: seq<Entry>, closed: set<Cnx>, leaked: set<Cnx>)
    ensures |Purged(es, closed, leaked)| <= |es|
    ensures forall i :: 0 <= i < |Kept(es, closed, leaked)| ==> Kept(es, closed, leaked)[i].cnx !in closed + leaked
    ensures forall e :: e in Kept(es, closed, leaked) <==> e in es && e.cnx !in closed + leaked
    ensures Distinct(es) ==> Distinct(Kept(es, closed, leaked))
  {
    if es != [] {
      KeptMembers(es[1..], closed, leaked);
      assert es == [es[0]] + es[1..];
    }
  }

  // Whether a connection is in the list.
  ghost predicate Listed(es: seq<Entry>, cnx: Cnx)
  {
    exists e :: e in es && e.cnx == cnx
  }

  lemma {:induction false} FreedMembers(es: seq<Entry>, closed: set<Cnx>, leaked: set<Cnx>)
    ensures forall i :: 0 <= i < |Freed(es, closed, leaked)| ==> Freed(es, closed, leaked)[i].cnx in leaked - closed
    ensures forall e :: e in Freed(es, closed, leaked) <==> !e.used && e.cnx in leaked - closed && Listed(es, e.cnx)
    ensures Distinct(es) ==> Distinct(Freed(es, closed, leaked))
  {
    if es != [] {
      FreedMembers(es[1..], closed, leaked);
      assert es == [es[0]] + es[1..];
      assert forall c :: Listed(es, c) <==> c == es[0].cnx || Listed(es[1..], c);
    }
  }

  lemma ListedOnce(es: seq<Entry>, d: Entry, e: Entry)
    requires Distinct(es) && d in es && e in es
    ensures d.cnx == e.cnx ==> d == e
  {
  }

  lemma ListedStep(es: seq<Entry>, i: nat)
    requires i < |es|
    ensures forall c :: Listed(es[i..], c) <==> c == es[i].cnx || Listed(es[i + 1..], c)
  {
    assert es[i..] == [es[i]] + es[i + 1..];
    assert es[i] in es[i..];
  }

  // Purging removes the closed connections, and frees the leaked ones.
  lemma PurgedMembers(es: seq<Entry>, closed: set<Cnx>, leaked: set<Cnx>)
    requires Distinct(es)
    ensures Distinct(Purged(es, closed, leaked)) && |Purged(es, closed, leaked)| <= |es|
    ensures forall e :: e in Purged(es, closed, leaked) <==>
              e.cnx !in closed && if e.cnx in leaked then !e.used && Listed(es, e.cnx) else e in es
  {
    KeptMembers(es, closed, leaked);
    FreedMembers(es, closed, leaked);
    var kept, freed := Kept(es, closed, leaked), Freed(es, closed, leaked);
  }

  // x stands before y.
  ghost predicate StandsBefore(es: seq<Entry>, x: Cnx, y: Cnx)
  {
    exists k, l :: 0 <= k < l < |es| && es[k].cnx == x && es[l].cnx == y
  }

  lemma StandsBetween(before: seq<Entry>, es: seq<Entry>, after: seq<Entry>, x: Cnx, y: Cnx)
    requires StandsBefore(es, x, y)
    ensures StandsBefore(before + es + after, x, y)
  {
    var k, l :| 0 <= k < l < |es| && es[k].cnx == x && es[l].cnx == y;
    var all := before + es + after;
    assert all[|before| + k] == es[k] && all[|before| + l] == es[l];
  }

  lemma {:induction false} StaysListed(es: seq<Entry>, closed: set<Cnx>, leaked: set<Cnx>, i: nat)
    requires i < |es| && es[i].cnx !in closed
    ensures exists k :: 0 <= k < |Purged(es, closed, leaked)| && Purged(es, closed, leaked)[k].cnx == es[i].cnx
  {
    KeptMembers(es, closed, leaked);
    FreedMembers(es, closed, leaked);
    assert es[i] in es;
    var e := if es[i].cnx in leaked then Entry(es[i].cnx, false) else es[i];
    assert e in Purged(es, closed, leaked);
  }

  // The purge keeps the order of the connections, but puts the leaked ones at the end, the last one first.
  lemma {:induction false} PurgedOrder(es: seq<Entry>, closed: set<Cnx>, leaked: set<Cnx>, i: nat, j: nat)
    requires i < j < |es| && es[i].cnx !in closed && es[j].cnx !in closed
    ensures if es[i].cnx in leaked then StandsBefore(Purged(es, closed, leaked), es[j].cnx, es[i].cnx)
            else StandsBefore(Purged(es, closed, leaked), es[i].cnx, es[j].cnx)
  {
    var rest := Purged(es[1..], closed, leaked);
    var first := if es[0].cnx in closed + leaked then [] else [es[0]];
    var last := if es[0].cnx in leaked - closed then [Entry(es[0].cnx, false)] else [];
    assert Purged(es, closed, leaked) == first + rest + last;
    if i > 0 {
      PurgedOrder(es[1..], closed, leaked, i - 1, j - 1);
      if es[i].cnx in leaked {
        StandsBetween(first, rest, last, es[j].cnx, es[i].cnx);
      } else {
        StandsBetween(first, rest, last, es[i].cnx, es[j].cnx);
      }
    } else {
      StaysListed(es[1..], closed, leaked, j - 1);
      var k :| 0 <= k < |rest| && rest[k].cnx == es[j].cnx;
      var all := first + rest + last;
      assert all[|first| + k] == rest[k];
      assert if es[0].cnx in leaked then all[|all| - 1] == last[0] else all[0] == es[0];
    }
  }

  // One step of the purge, which goes through the list from its end while changing it.
  lemma PurgeStep(es: seq<Entry>, i: nat, closed: set<Cnx>, leaked: set<Cnx>)
    requires i < |es|
    ensures var now := es[..i + 1] + Purged(es[i + 1..], closed, leaked);
            var next := es[..i] + Purged(es[i..], closed, leaked);
            && now[i] == es[i]
            && (es[i].cnx in closed ==> next == Without(now, i))
            && (es[i].cnx !in closed && es[i].cnx in leaked ==> next == Without(now, i) + [Entry(es[i].cnx, false)])
            && (es[i].cnx !in closed && es[i].cnx !in leaked ==> next == now)
  {
    assert es[i..][1..] == es[i + 1..];
    assert es[..i + 1] == es[..i] + [es[i]];
  }

  // The first idle connection to the same database ...
  function FirstReusable(es: seq<Entry>, dsn: Dsn): (i: nat)
    ensures i <= |es| && forall j :: 0 <= j < i ==> es[j].used || !SameDatabase(es[j].cnx.dsn, dsn)
    ensures i < |es| ==> !es[i].used && SameDatabase(es[i].cnx.dsn, dsn)
  {
    if es == [] || (!es[0].used && SameDatabase(es[0].cnx.dsn, dsn)) then 0 else 1 + FirstReusable(es[1..], dsn)
  }

  // ... and the first idle one of all.
  function FirstIdle(es: seq<Entry>): (i: nat)
    ensures i <= |es| && (forall j :: 0 <= j < i ==> es[j].used) && (i < |es| ==> !es[i].used)
  {
    if es == [] || !es[0].used then 0 else 1 + FirstIdle(es[1..])
  }

  // The list with the first idle connection forgotten when it is full.
  function Evicted(es: seq<Entry>, maxconn: nat): seq<Entry>
  {
    if |es| >= maxconn && FirstIdle(es) < |es| then Without(es, FirstIdle(es)) else es
  }

  // Borrowing took the first idle connection to the database, and put it at the end.
  ghost predicate Reused(before: seq<Entry>, dsn: Dsn, cnx: Cnx, after: seq<Entry>)
  {
    exists i :: 0 <= i < |before| && !before[i].used && SameDatabase(before[i].cnx.dsn, dsn) && before[i].cnx == cnx
                && (forall j :: 0 <= j < i ==> before[j].used || !SameDatabase(before[j].cnx.dsn, dsn))
                && after == before[..i] + before[i + 1..] + [Entry(cnx, true)]
  }

  // Nothing has been forgotten while there was room, and the first idle connection when there was none.
  ghost predicate RoomMade(before: seq<Entry>, maxconn: nat, after: seq<Entry>)
  {
    if |before| < maxconn then after == before
    else exists i :: 0 <= i < |before| && !before[i].used && (forall j :: 0 <= j < i ==> before[j].used)
                     && after == before[..i] + before[i + 1..]
  }

  ghost predicate SomeReusable(es: seq<Entry>, dsn: Dsn)
  {
    exists e :: e in es && !e.used && SameDatabase(e.cnx.dsn, dsn)
  }

  ghost predicate SomeIdle(es: seq<Entry>)
  {
    exists e :: e in es && !e.used
  }

  lemma ReuseExactly(es: seq<Entry>, dsn: Dsn)
    ensures FirstReusable(es, dsn) < |es| <==> SomeReusable(es, dsn)
    ensures FirstReusable(es, dsn) < |es| ==>
              var i := FirstReusable(es, dsn);
              Reused(es, dsn, es[i].cnx, Without(es, i) + [Entry(es[i].cnx, true)])
  {
    var i := FirstReusable(es, dsn);
    if i < |es| {
      assert es[i] in es;
    }
  }

  lemma EvictionExactly(es: seq<Entry>, maxconn: nat)
    ensures FirstIdle(es) < |es| <==> SomeIdle(es)
    ensures |es| < maxconn || SomeIdle(es) ==> RoomMade(es, maxconn, Evicted(es, maxconn))
  {
    var i := FirstIdle(es);
    if i < |es| {
      assert es[i] in es;
    }
  }

  ghost predicate Borrowed(purged: seq<Entry>, dsn: Dsn, maxconn: nat, connects: bool, r: Result<Cnx, Failure>, after: seq<Entry>)
  {
    var i := FirstReusable(purged, dsn);
    if i < |purged| then r == Success(purged[i].cnx) && after == Without(purged, i) + [Entry(purged[i].cnx, true)]
    else if |purged| >= maxconn && FirstIdle(purged) == |purged| then r == Failure(PoolFull) && after == purged
    else if !connects then r == Failure(ConnectFailed) && after == Evicted(purged, maxconn)
    else r.Success? && r.value.dsn == dsn && after == Evicted(purged, maxconn) + [Entry(r.value, true)]
  }

  // When a connection can be borrowed, and what becomes of the list.
  ghost predicate Outcome(purged: seq<Entry>, dsn: Dsn, maxconn: nat, connects: bool, r: Result<Cnx, Failure>, after: seq<Entry>)
  {
    var room := |purged| < maxconn || SomeIdle(purged);
    && (r.Success? <==> SomeReusable(purged, dsn) || (room && connects))
    && (r == Failure(PoolFull) <==> !SomeReusable(purged, dsn) && !room)
    && (r == Failure(ConnectFailed) <==> !SomeReusable(purged, dsn) && room && !connects)
    && (SomeReusable(purged, dsn) ==> Reused(purged, dsn, r.value, after))
    && (r == Failure(PoolFull) ==> after == purged)
    && (r == Failure(ConnectFailed) ==> RoomMade(purged, maxconn, after))
    && (!SomeReusable(purged, dsn) && r.Success? ==>
          r.value.dsn == dsn && after != [] && RoomMade(purged, maxconn, after[..|after| - 1]) && after[|after| - 1] == Entry(r.value, true))
  }

  lemma BorrowedMeans(purged: seq<Entry>, dsn: Dsn, maxconn: nat, connects: bool, r: Result<Cnx, Failure>, after: seq<Entry>)
    requires Borrowed(purged, dsn, maxconn, connects, r, after)
    ensures Outcome(purged, dsn, maxconn, connects, r, after)
    ensures r.Success? ==> SameDatabase(r.value.dsn, dsn)
  {
    ReuseExactly(purged, dsn);
    EvictionExactly(purged, maxconn);
    var room := Evicted(purged, maxconn);
    if after != [] && after == room + [after[|after| - 1]] {
      assert after[..|after| - 1] == room;
    }
  }

  // The list without the connections to a database.
  function Others(es: seq<Entry>, dsn: Dsn): seq<Entry>
  {
    if es == [] then []
    else (if SameDatabase(es[0].cnx.dsn, dsn) then [] else [es[0]]) + Others(es[1..], dsn)
  }

  lemma {:induction false} OthersMembers(es: seq<Entry>, dsn: Dsn)
    ensures |Others(es, dsn)| <= |es| && (Distinct(es) ==> Distinct(Others(es, dsn)))
    ensures forall e :: e in Others(es, dsn) <==> e in es && !SameDatabase(e.cnx.dsn, dsn)
  {
    if es != [] {
      OthersMembers(es[1..], dsn);
      assert es == [es[0]] + es[1..];
    }
  }

  lemma OthersStep(es: seq<Entry>, i: nat, dsn: Dsn)
    requires i < |es|
    ensures var now := es[..i + 1] + Others(es[i + 1..], dsn);
            && now[i] == es[i]
            && es[..i] + Others(es[i..], dsn) == if SameDatabase(es[i].cnx.dsn, dsn) then Without(now, i) else now
  {
    var rest := Others(es[i + 1..], dsn);
    assert es[i..][1..] == es[i + 1..];
    assert Others(es[i..], dsn) == if SameDatabase(es[i].cnx.dsn, dsn) then rest else [es[i]] + rest;
    assert es[..i + 1] + rest == es[..i] + [es[i]] + rest;
    WithoutNext(es[..i], es[i], rest);
  }

  lemma WithoutNext(before: seq<Entry>, e: Entry, rest: seq<Entry>)
    ensures Without(before + [e] + rest, |before|) == before + rest
    ensures before + ([e] + rest) == before + [e] + rest
  {
  }

  // `after` is the list once the connection at i has been given back.
  ghost predicate GivenBack(es: seq<Entry>, i: int, cnx: Cnx, keepInPool: bool, after: seq<Entry>)
  {
    && 0 <= i < |es| && es[i].cnx == cnx
    && after == Without(es, i) + if keepInPool then [Entry(cnx, false)] else []
  }

  // ------------------------------------------------------------------
  // What holds between calls: a used connection belongs to an open cursor, or was leaked by one,
  // or is closed; an open cursor holds a used connection that no other cursor has, or a closed
  // one. Connections in `lent` are on their way to a cursor.
  ghost predicate Consistent(cnxs: set<Cnx>, cursors: set<Cursor>, es: seq<Entry>, holder: map<Cnx, Cursor>, lent: set<Cnx>)
    reads cnxs, cursors
  {
    && Distinct(es)
    && (forall e :: e in es ==> e.cnx in cnxs && EntryOk(e, holder, lent))
    && (forall c :: c in holder ==> c in cnxs && holder[c] in cursors && holder[c].cnx == c && !holder[c].closed && !c.leaked)
    && (forall c :: c in holder ==> c.closed || Entry(c, true) in es)
    && (forall r :: r in cursors && !r.closed ==> r.cnx in holder && holder[r.cnx] == r)
  }

  ghost predicate EntryOk(e: Entry, holder: map<Cnx, Cursor>, lent: set<Cnx>)
    reads e.cnx
  {
    if e.used then e.cnx.closed || e.cnx.leaked || e.cnx in holder || e.cnx in lent
    else !e.cnx.leaked && e.cnx !in holder
  }

  // An idle connection is lent ...
  lemma LendKeeps(cnxs: set<Cnx>, cursors: set<Cursor>, es: seq<Entry>, holder: map<Cnx, Cursor>, i: nat)
    requires Consistent(cnxs, cursors, es, holder, {}) && i < |es| && !es[i].used
    ensures Consistent(cnxs, cursors, Without(es, i) + [Entry(es[i].cnx, true)], holder, {es[i].cnx})
    ensures es[i].cnx !in holder && Entry(es[i].cnx, true) in Without(es, i) + [Entry(es[i].cnx, true)]
  {
    assert es[i] in es;
    WithoutMembers(es, i);
    AppendMembers(Without(es, i), Entry(es[i].cnx, true));
  }

  // ... or forgotten, or a new one is lent.
  lemma EvictKeeps(cnxs: set<Cnx>, cursors: set<Cursor>, es: seq<Entry>, holder: map<Cnx, Cursor>, maxconn: nat)
    requires Consistent(cnxs, cursors, es, holder, {})
    ensures Consistent(cnxs, cursors, Evicted(es, maxconn), holder, {})
  {
    var i := FirstIdle(es);
    if i < |es| {
      assert es[i] in es;
      WithoutMembers(es, i);
    }
  }

  lemma NewKeeps(cnxs: set<Cnx>, cursors: set<Cursor>, es: seq<Entry>, holder: map<Cnx, Cursor>, c: Cnx)
    requires Consistent(cnxs, cursors, es, holder, {}) && c !in cnxs && !c.leaked
    ensures Consistent(cnxs + {c}, cursors, es + [Entry(c, true)], holder, {c})
    ensures c !in holder && Entry(c, true) in es + [Entry(c, true)]
  {
    AppendMembers(es, Entry(c, true));
  }

  // A cursor takes the connection lent.
  lemma HoldKeeps(cnxs: set<Cnx>, cursors: set<Cursor>, es: seq<Entry>, holder: map<Cnx, Cursor>, r: Cursor)
    requires Consistent(cnxs, cursors, es, holder, {r.cnx}) && r.cnx !in holder && r.cnx in cnxs
    requires Entry(r.cnx, true) in es && !r.closed && !r.cnx.leaked
    ensures Consistent(cnxs, cursors + {r}, es, holder[r.cnx := r], {})
  {
    var after := holder[r.cnx := r];
    forall e | e in es
      ensures EntryOk(e, after, {})
    {
      assert EntryOk(e, holder, {r.cnx});
      ListedOnce(es, e, Entry(r.cnx, true));
    }
  }

  function ItsConnection(r: Result<Cursor, Failure>): Result<Cnx, Failure>
  {
    if r.Success? then Success(r.value.cnx) else Failure(r.error)
  }

  class ConnectionPool {
    const maxconn: nat
    var entries: seq<Entry>
    ghost var cnxs: set<Cnx>             // every connection made
    ghost var cursors: set<Cursor>       // the cursors that exist
    ghost var holder: map<Cnx, Cursor>   // the open cursor of a connection

    ghost predicate Valid()
      reads this, cnxs, cursors
    {
      Consistent(cnxs, cursors, entries, holder, {}) && |entries| <= maxconn
    }

    constructor (maxconn: int)
      ensures Valid() && this.maxconn == if maxconn < 1 then 1 else maxconn
      ensures entries == [] && cnxs == {} && cursors == {}
    {
      this.maxconn := if maxconn < 1 then 1 else maxconn;
      entries, cnxs, cursors, holder := [], {}, {}, map[];
    }

    ghost function Closed(): set<Cnx>
      reads this, cnxs
    {
      set c | c in cnxs && c.closed
    }

    ghost function Leaked(): set<Cnx>
      reads this, cnxs
    {
      set c | c in cnxs && c.leaked
    }

    // Remove the closed connections and free the leaked ones.
    method Purge()
      requires Valid()
      modifies this`entries, cnxs
      ensures Valid()
      ensures entries == Purged(old(entries), old(Closed()), old(Leaked()))
      ensures forall c :: c in cnxs ==>
                c.closed == old(c.closed) && c.leaked == (old(c.leaked) && (c.closed || !Listed(old(entries), c)))
      ensures forall e :: e in entries ==> !e.cnx.closed && !e.cnx.leaked
    {
      ghost var es, closed, leaked := entries, Closed(), Leaked();
      var i := |entries|;
      while i > 0
        invariant 0 <= i <= |es| && entries == es[..i] + Purged(es[i..], closed, leaked)
        invariant forall c :: c in cnxs ==> c.closed == (c in closed)
        invariant forall c :: c in cnxs ==> c.leaked == (c in leaked && (c in closed || !Listed(es[i..], c)))
      {
        i := i - 1;
        PurgeStep(es, i, closed, leaked);
        ListedStep(es, i);
        var cnx := entries[i].cnx;
        if cnx.closed {
          entries := Without(entries, i);
          continue;
        }
        if cnx.leaked {
          cnx.leaked := false;
          entries := Without(entries, i) + [Entry(cnx, false)];
        }
      }
      PurgedMembers(es, closed, leaked);
    }

    // Where the first idle connection to a database is.
    method FindReusable(dsn: Dsn) returns (i: nat)
      ensures i == FirstReusable(entries, dsn)
    {
      i := 0;
      while i < |entries| && (entries[i].used || !SameDatabase(entries[i].cnx.dsn, dsn))
        invariant i <= |entries| && FirstReusable(entries, dsn) == i + FirstReusable(entries[i..], dsn)
      {
        assert entries[i..][1..] == entries[i + 1..];
        i := i + 1;
      }
    }

    method FindIdle() returns (i: nat)
      ensures i == FirstIdle(entries)
    {
      i := 0;
      while i < |entries| && entries[i].used
        invariant i <= |entries| && FirstIdle(entries) == i + FirstIdle(entries[i..])
      {
        assert entries[i..][1..] == entries[i + 1..];
        i := i + 1;
      }
    }

    // A connection for a cursor: after purging, the first idle one to the same database, else a
    // new one, for which the first idle one is forgotten when the pool is full.
    method Borrow(dsn: Dsn, connects: bool) returns (r: Result<Cnx, Failure>)
      requires Valid()
      modifies this`entries, this`cnxs, cnxs
      ensures Consistent(cnxs, cursors, entries, holder, if r.Success? then {r.value} else {})
      ensures |entries| <= maxconn && old(cnxs) <= cnxs && fresh(cnxs - old(cnxs))
      ensures forall c :: c in old(cnxs) ==> c.closed == old(c.closed)
      ensures r.Success? ==> r.value in cnxs && Entry(r.value, true) in entries && r.value !in holder
      ensures r.Success? ==> !r.value.closed && !r.value.leaked && SameDatabase(r.value.dsn, dsn)
      ensures Borrowed(Purged(old(entries), old(Closed()), old(Leaked())), dsn, maxconn, connects, r, entries)
      ensures r.Success? && !SomeReusable(Purged(old(entries), old(Closed()), old(Leaked())), dsn) ==> fresh(r.value)
    {
      Purge();
      ReuseExactly(entries, dsn);
      var i := FindReusable(dsn);
      if i < |entries| {
        var cnx := entries[i].cnx;
        assert entries[i] in entries;
        LendKeeps(cnxs, cursors, entries, holder, i);
        entries := Without(entries, i) + [Entry(cnx, true)];
        return Success(cnx);
      }
      var full := MakeRoom();
      if full {
        return Failure(PoolFull);
      }
      if !connects {
        return Failure(ConnectFailed);
      }
      var cnx := Connect(dsn);
      r := Success(cnx);
    }

    // When the pool is full, forget the first idle connection; true when there is none.
    method MakeRoom() returns (full: bool)
      requires Valid()
      modifies this`entries
      ensures Valid() && (full <==> |old(entries)| >= maxconn && FirstIdle(old(entries)) == |old(entries)|)
      ensures entries == Evicted(old(entries), maxconn) && (!full ==> |entries| < maxconn)
    {
      full := false;
      EvictKeeps(cnxs, cursors, entries, holder, maxconn);
      if |entries| >= maxconn {
        var j := FindIdle();
        if j == |entries| {
          return true;
        }
        entries := Without(entries, j);
      }
    }

    // A new connection, lent at once.
    method Connect(dsn: Dsn) returns (cnx: Cnx)
      requires Valid() && |entries| < maxconn
      modifies this`entries, this`cnxs
      ensures fresh(cnx) && cnx.dsn == dsn && !cnx.closed && !cnx.leaked && cnx !in holder
      ensures cnxs == old(cnxs) + {cnx} && entries == old(entries) + [Entry(cnx, true)] && |entries| <= maxconn
      ensures Consistent(cnxs, cursors, entries, holder, {cnx})
    {
      cnx := new Cnx(dsn);
      NewKeeps(cnxs, cursors, entries, holder, cnx);
      cnxs, entries := cnxs + {cnx}, entries + [Entry(cnx, true)];
    }

    // A connection given back becomes the last idle one, or is closed. False when it is not in the pool.
    method GiveBack(connection: Cnx, keepInPool: bool) returns (ok: bool)
      requires Distinct(entries)
      modifies this`entries, connection
      ensures ok <==> Listed(old(entries), connection)
      ensures !ok ==> entries == old(entries)
      ensures ok ==> exists i :: 0 <= i < |old(entries)| && GivenBack(old(entries), i, connection, keepInPool, entries)
      ensures connection.closed == (old(connection.closed) || (ok && !keepInPool)) && connection.leaked == old(connection.leaked)
    {
      var i := 0;
      while i < |entries|
        invariant 0 <= i <= |entries| && forall j :: 0 <= j < i ==> entries[j].cnx != connection
      {
        if entries[i].cnx == connection {
          assert entries[i] in entries;
          entries := Without(entries, i);
          if keepInPool {
            entries := entries + [Entry(connection, false)];
          } else {
            connection.closed := true;
          }
          assert GivenBack(old(entries), i, connection, keepInPool, entries);
          return true;
        }
        i := i + 1;
      }
      ok := false;
    }

    // Close and forget all connections to a database, used or not.
    method CloseAll(dsn: Dsn)
      requires Valid()
      modifies this`entries, cnxs
      ensures Valid() && entries == Others(old(entries), dsn)
      ensures forall c :: c in cnxs ==>
                c.closed == (old(c.closed) || (Listed(old(entries), c) && SameDatabase(c.dsn, dsn))) && c.leaked == old(c.leaked)
    {
      CloseEntries(dsn);
      OthersMembers(old(entries), dsn);
    }

    // The loop, going backwards through the list it shortens.
    method CloseEntries(dsn: Dsn)
      requires forall e :: e in entries ==> e.cnx in cnxs
      modifies this`entries, cnxs
      ensures entries == Others(old(entries), dsn)
      ensures forall c :: c in cnxs ==>
                c.closed == (old(c.closed) || (Listed(old(entries), c) && SameDatabase(c.dsn, dsn))) && c.leaked == old(c.leaked)
    {
      ghost var es := entries;
      var i := |entries|;
      while i > 0
        invariant 0 <= i <= |es| && entries == es[..i] + Others(es[i..], dsn)
        invariant forall c :: c in cnxs ==>
                    c.leaked == old(c.leaked) &&
                    c.closed == (old(c.closed) || (Listed(es[i..], c) && SameDatabase(c.dsn, dsn)))
      {
        i := i - 1;
        OthersStep(es, i, dsn);
        ListedStep(es, i);
        if SameDatabase(entries[i].cnx.dsn, dsn) {
          entries[i].cnx.closed := true;
          entries := Without(entries, i);
        }
      }
    }

    // Cursor(pool, dbname): after purging, an idle connection to the same database is used, or else
    // a new one, for which there must be room or an idle connection to forget.
    method OpenCursor(dsn: Dsn, connects: bool) returns (r: Result<Cursor, Failure>)
      requires Valid()
      modifies this, cnxs
      ensures Valid() && old(cnxs) <= cnxs && fresh(cnxs - old(cnxs)) && forall c :: c in old(cnxs) ==> c.closed == old(c.closed)
      ensures r.Success? ==> fresh(r.value) && cursors == old(cursors) + {r.value}
      ensures r.Success? ==> !r.value.closed && !r.value.cnx.closed
      ensures r.Success? ==> forall k :: k != "password" ==>
                (k in r.value.cnx.dsn <==> k in dsn) && (k in dsn ==> r.value.cnx.dsn[k] == dsn[k])
      ensures r.Success? ==> forall c :: c in old(cursors) && !c.closed ==> c.cnx != r.value.cnx
      ensures r.Failure? ==> cursors == old(cursors)
      ensures Outcome(Purged(old(entries), old(Closed()), old(Leaked())), dsn, maxconn, connects, ItsConnection(r), entries)
      ensures r.Success? && !SomeReusable(Purged(old(entries), old(Closed()), old(Leaked())), dsn) ==> fresh(r.value.cnx)
    {
      var b := Borrow(dsn, connects);
      BorrowedMeans(Purged(old(entries), old(Closed()), old(Leaked())), dsn, maxconn, connects, b, entries);
      if b.Failure? {
        return Failure(b.error);
      }
      SameDatabaseMeans(b.value.dsn, dsn);
      var cursor := new Cursor(b.value);
      HoldKeeps(cnxs, cursors, entries, holder, cursor);
      cursors, holder := cursors + {cursor}, holder[b.value := cursor];
      r := Success(cursor);
    }

    // cursor.close(). False when it raises: the cursor is closed already, or its connection is,
    // so that rolling back fails. Giving back the connection never does.
    method CloseCursor(r: Cursor, keepInPool: bool) returns (ok: bool)
      requires Valid() && r in cursors
      modifies this`entries, this`holder, r, r.cnx
      ensures Valid() && r.closed
      ensures ok <==> !old(r.closed) && !old(r.cnx.closed)
      ensures !ok ==> entries == old(entries) && r.cnx.closed == old(r.cnx.closed)
      ensures ok ==> exists i :: GivenBack(old(entries), i, r.cnx, keepInPool, entries)
      ensures ok ==> r.cnx !in holder && Entry(r.cnx, true) !in entries && (Entry(r.cnx, false) in entries <==> keepInPool)
                     && r.cnx.closed == !keepInPool
    {
      if r.closed {
        return false;
      }
      r.closed := true;
      holder := holder - {r.cnx};
      if r.cnx.closed {
        return false;
      }
      ok := GiveBack(r.cnx, keepInPool);
    }

    // __del__: a cursor is collected. When it was open its connection is leaked.
    method Collect(r: Cursor)
      requires Valid() && r in cursors
      modifies this`holder, this`cursors, r, r.cnx
      ensures Valid() && cursors == old(cursors) - {r}
      ensures r.cnx.leaked == (old(r.cnx.leaked) || (!old(r.closed) && !r.cnx.closed)) && r.cnx.closed == old(r.cnx.closed)
      ensures r.closed == (old(r.closed) || !r.cnx.closed)
    {
      cursors := cursors - {r};
      if !r.closed {
        holder := holder - {r.cnx};
        if !r.cnx.closed {
          r.closed := true;
          r.cnx.leaked := true;
        }
      }
    }

    // The server closes a connection.
    method ServerCloses(c: Cnx)
      requires Valid() && c in cnxs
      modifies c`closed
      ensures Valid() && c.closed
    {
      c.closed := true;
    }

    // No two open cursors share a connection, and a used one that is not closed either has its
    // cursor or waits to be reclaimed.
    lemma UsedAreHeld(r: Cursor, e: Entry)
      requires Valid() && r in cursors && !r.closed && e in entries
      ensures forall q :: q in cursors && !q.closed && q.cnx == r.cnx ==> q == r
      ensures r.cnx.closed || (Entry(r.cnx, true) in entries && !r.cnx.leaked)
      ensures e.used && !e.cnx.closed && !e.cnx.leaked ==> exists q :: q in cursors && !q.closed && q.cnx == e.cnx
    {
      if e.used && !e.cnx.closed && !e.cnx.leaked {
        assert EntryOk(e, holder, {});
        assert holder[e.cnx] in cursors;
      }
    }
  }
}
