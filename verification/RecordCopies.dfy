/** Copying a record with the lines it owns: every record that can be reached through one2many
    fields is copied once, however they refer to each other. */
module RecordCopies {
  import opened Wrappers
  import N = Names

  type FieldName = string

  // A record: its model and id.
  datatype Rec = Rec(model: N.Name, id: int)

  // A one2many field of a record: the lines it has, in a model of their own.
  datatype Lines = Lines(field: FieldName, relation: N.Name, ids: set<int>)

  // The existing records, with their one2many fields in the order in which they are read.
  type Database = map<Rec, seq<Lines>>

  // What copy_data returns for a record: for each field copied, the copies of its lines.
  datatype Copy = Copy(rec: Rec, fields: Fields)
  datatype Fields = NoField | Field(before: Fields, field: FieldName, lines: Copies)
  datatype Copies = NoCopy | Added(before: Copies, copy: Copy)

  // The records below one, when the values of some fields are given instead of being copied.
  ghost predicate IsLine(db: Database, given: set<FieldName>, x: Rec, y: Rec)
  {
    x in db && exists i :: 0 <= i < |db[x]| && db[x][i].field !in given && y.model == db[x][i].relation && y.id in db[x][i].ids
  }

  // Only the record asked for is given values.
  function GivenTo(root: Rec, given: set<FieldName>, x: Rec): set<FieldName>
  {
    if x == root then given else {}
  }

  ghost predicate Follows(db: Database, root: Rec, given: set<FieldName>, t: set<Rec>, x: Rec, y: Rec)
  {
    x in t && IsLine(db, GivenTo(root, given, x), x, y) ==> y in t
  }

  // With a record, its lines.
  ghost predicate Closed(db: Database, root: Rec, given: set<FieldName>, t: set<Rec>)
  {
    forall x, y {:trigger Follows(db, root, given, t, x, y)} :: Follows(db, root, given, t, x, y)
  }

  // Every closed set with `from` in it has x: x is reached from there.
  ghost predicate Reached(db: Database, root: Rec, given: set<FieldName>, from: Rec, x: Rec)
  {
    forall t {:trigger Closed(db, root, given, t)} :: Closed(db, root, given, t) && from in t ==> x in t
  }

  lemma ReachedByLine(db: Database, root: Rec, given: set<FieldName>, from: Rec, y: Rec, x: Rec)
    requires IsLine(db, GivenTo(root, given, from), from, y) && Reached(db, root, given, y, x)
    ensures Reached(db, root, given, from, x)
  {
    forall t | Closed(db, root, given, t) && from in t
      ensures x in t
    {
      assert Follows(db, root, given, t, from, y);
    }
  }

  ghost predicate Distinct<T>(s: seq<T>)
  {
    forall i, j :: 0 <= i < j < |s| ==> s[i] != s[j]
  }

  // The records of a copy, each before its lines.
  function Records(copy: Copy): seq<Rec>
  {
    [copy.rec] + FieldsRecords(copy.fields)
  }

  function FieldsRecords(fields: Fields): seq<Rec>
  {
    match fields
    case NoField => []
    case Field(before, _, lines) => FieldsRecords(before) + CopiesRecords(lines)
  }

  function CopiesRecords(copies: Copies): seq<Rec>
  {
    match copies
    case NoCopy => []
    case Added(before, copy) => CopiesRecords(before) + Records(copy)
  }

  lemma RecordsGrow(seen: seq<Rec>, rec: Rec, fields: Fields, field: FieldName, lines: Copies)
    ensures seen + Records(Copy(rec, Field(fields, field, lines))) == seen + Records(Copy(rec, fields)) + CopiesRecords(lines)
  {
  }

  // The ids of the copies in a list, in order.
  function Ids(copies: Copies): seq<int>
  {
    match copies
    case NoCopy => []
    case Added(before, copy) => Ids(before) + [copy.rec.id]
  }

  ghost predicate Ascending(ids: seq<int>)
  {
    forall i, j :: 0 <= i < j < |ids| ==> ids[i] < ids[j]
  }

  function Names(fields: Fields): seq<FieldName>
  {
    match fields
    case NoField => []
    case Field(before, field, _) => Names(before) + [field]
  }

  // The fields copied, in the order in which they are read.
  function CopiedNames(lines: seq<Lines>, given: set<FieldName>): seq<FieldName>
  {
    if lines == [] then []
    else CopiedNames(lines[..|lines| - 1], given) + if lines[|lines| - 1].field in given then [] else [lines[|lines| - 1].field]
  }

  // A copy has all fields of its record that are not given, and the lines of each are copied
  // from its records, in the order of their ids; and so below.
  ghost predicate FromRecords(db: Database, copy: Copy, given: set<FieldName>)
    decreases copy
  {
    && copy.rec in db
    && Names(copy.fields) == CopiedNames(FieldsOf(db, copy.rec), given)
    && FieldsFromRecords(db, copy.rec, copy.fields)
  }

  ghost predicate FieldsFromRecords(db: Database, rec: Rec, fields: Fields)
    decreases fields
  {
    match fields
    case NoField => true
    case Field(before, field, lines) =>
      && FieldsFromRecords(db, rec, before)
      && Ascending(Ids(lines))
      && exists i :: 0 <= i < |FieldsOf(db, rec)| && FieldsOf(db, rec)[i].field == field && CopiesFromRecords(db, FieldsOf(db, rec)[i], lines)
  }

  ghost predicate CopiesFromRecords(db: Database, lines: Lines, copies: Copies)
    decreases copies
  {
    match copies
    case NoCopy => true
    case Added(before, copy) =>
      CopiesFromRecords(db, lines, before) && copy.rec.model == lines.relation && copy.rec.id in lines.ids && FromRecords(db, copy, {})
  }

  function FieldsOf(db: Database, rec: Rec): seq<Lines>
  {
    if rec in db then db[rec] else []
  }

  lemma CopiesGrow(db: Database, lines: Lines, seen: seq<Rec>, copies: Copies, copy: Copy)
    requires CopiesFromRecords(db, lines, copies) && FromRecords(db, copy, {})
    requires copy.rec.model == lines.relation && copy.rec.id in lines.ids
    requires Ascending(Ids(copies)) && forall k :: 0 <= k < |Ids(copies)| ==> Ids(copies)[k] < copy.rec.id
    ensures var more := Added(copies, copy);
            && CopiesFromRecords(db, lines, more)
            && Ids(more) == Ids(copies) + [copy.rec.id] && Ascending(Ids(more))
            && seen + CopiesRecords(more) == seen + CopiesRecords(copies) + Records(copy)
  {
  }

  // sort()
  method SortedIds(ids: set<int>) returns (s: seq<int>)
    ensures Ascending(s) && forall n :: n in s <==> n in ids
  {
    s := [];
    var rest := ids;
    while rest != {}
      invariant rest <= ids && Ascending(s) && forall n :: n in s <==> n in ids - rest
      invariant forall i, n :: 0 <= i < |s| && n in rest ==> s[i] < n
      decreases rest
    {
      var m := Pick(rest);
      var unseen := rest - {m};
      while unseen != {}
        invariant unseen <= rest && m in rest && m !in unseen
        invariant forall n :: n in rest && n !in unseen ==> m <= n
        decreases unseen
      {
        var n := Pick(unseen);
        if n < m {
          m := n;
        }
        unseen := unseen - {n};
      }
      rest := rest - {m};
      s := s + [m];
    }
  }

  // What a call has done: the records it has seen are all there, reached from `rec`, with their
  // lines seen too.
  ghost predicate Seen(db: Database, root: Rec, given: set<FieldName>, rec: Rec, before: seq<Rec>, after: seq<Rec>)
  {
    && before <= after && Distinct(after)
    && (forall x {:trigger SeenOk(db, root, given, rec, before, after, x)} :: SeenOk(db, root, given, rec, before, after, x))
  }

  ghost predicate SeenOk(db: Database, root: Rec, given: set<FieldName>, rec: Rec, before: seq<Rec>, after: seq<Rec>, x: Rec)
  {
    x in after && x !in before ==> x in db && Reached(db, root, given, rec, x)
  }

  // Every line of x has been seen.
  ghost predicate LinesSeen(db: Database, root: Rec, given: set<FieldName>, seen: seq<Rec>, x: Rec)
  {
    forall y {:trigger IsLine(db, GivenTo(root, given, x), x, y)} :: IsLine(db, GivenTo(root, given, x), x, y) ==> y in seen
  }

  // One of the records reached does not exist.
  ghost predicate SomeMissing(db: Database, root: Rec, given: set<FieldName>, rec: Rec)
  {
    exists x :: x !in db && Reached(db, root, given, rec, x)
  }

  lemma SeenOn(db: Database, root: Rec, given: set<FieldName>, rec: Rec, a: seq<Rec>, b: seq<Rec>, c: seq<Rec>)
    requires Seen(db, root, given, rec, a, b) && Seen(db, root, given, rec, b, c)
    ensures Seen(db, root, given, rec, a, c)
  {
    forall x
      ensures SeenOk(db, root, given, rec, a, c, x)
    {
      assert SeenOk(db, root, given, rec, a, b, x) && SeenOk(db, root, given, rec, b, c, x);
    }
  }

  // One call after another, for a line of the same record.
  lemma SeenBoth(db: Database, root: Rec, given: set<FieldName>, rec: Rec, y: Rec, a: seq<Rec>, b: seq<Rec>, c: seq<Rec>)
    requires Seen(db, root, given, rec, a, b) && Seen(db, root, given, y, b, c)
    requires IsLine(db, GivenTo(root, given, rec), rec, y)
    ensures Seen(db, root, given, rec, a, c)
  {
    forall x
      ensures SeenOk(db, root, given, rec, a, c, x)
    {
      assert SeenOk(db, root, given, rec, a, b, x) && SeenOk(db, root, given, y, b, c, x);
      if x in c && x !in b {
        ReachedByLine(db, root, given, rec, y, x);
      }
    }
  }

  // All seen from `before` on have their lines seen, but maybe one.
  ghost predicate AllLinesSeen(db: Database, root: Rec, given: set<FieldName>, before: seq<Rec>, after: seq<Rec>, but: set<Rec>)
  {
    forall x {:trigger LinesSeen(db, root, given, after, x)} :: x in after && x !in before && x !in but ==> LinesSeen(db, root, given, after, x)
  }

  lemma AllLinesSeenBoth(db: Database, root: Rec, given: set<FieldName>, a: seq<Rec>, b: seq<Rec>, c: seq<Rec>, but: set<Rec>)
    requires AllLinesSeen(db, root, given, a, b, but) && AllLinesSeen(db, root, given, b, c, {}) && b <= c
    ensures AllLinesSeen(db, root, given, a, c, but)
  {
    forall x | x in c && x !in a && x !in but
      ensures LinesSeen(db, root, given, c, x)
    {
      if x in b {
        assert LinesSeen(db, root, given, b, x);
      } else {
        assert LinesSeen(db, root, given, c, x);
      }
    }
  }

  lemma MissingBelow(db: Database, root: Rec, given: set<FieldName>, rec: Rec, y: Rec)
    requires IsLine(db, GivenTo(root, given, rec), rec, y) && SomeMissing(db, root, given, y)
    ensures SomeMissing(db, root, given, rec)
  {
    var x :| x !in db && Reached(db, root, given, y, x);
    ReachedByLine(db, root, given, rec, y, x);
  }

  // How far the copy of a record is: its first i fields are read, and their lines seen.
  ghost predicate Copied(db: Database, rec: Rec, given: set<FieldName>, root: Rec, given0: set<FieldName>,
                         seen0: seq<Rec>, seen: seq<Rec>, fields: Fields, i: nat)
    requires rec in db && i <= |db[rec]|
  {
    && rec in seen && Seen(db, root, given0, rec, seen0, seen) && AllLinesSeen(db, root, given0, seen0, seen, {rec})
    && (forall k, n :: 0 <= k < i && db[rec][k].field !in given && n in db[rec][k].ids ==> Rec(db[rec][k].relation, n) in seen)
    && seen == seen0 + Records(Copy(rec, fields)) && FieldsFromRecords(db, rec, fields)
    && Names(fields) == CopiedNames(db[rec][..i], given)
  }

  lemma CopiedNone(db: Database, rec: Rec, given: set<FieldName>, root: Rec, given0: set<FieldName>, seen0: seq<Rec>)
    requires rec in db && rec !in seen0 && Distinct(seen0)
    ensures Copied(db, rec, given, root, given0, seen0, seen0 + [rec], NoField, 0)
  {
    forall x
      ensures SeenOk(db, root, given0, rec, seen0, seen0 + [rec], x)
    {
    }
  }

  lemma CopiedOneMore(db: Database, rec: Rec, given: set<FieldName>, root: Rec, given0: set<FieldName>,
                      seen0: seq<Rec>, before: seq<Rec>, after: seq<Rec>, fields: Fields, i: nat, lines: Copies)
    requires rec in db && i < |db[rec]| && db[rec][i].field !in given
    requires Copied(db, rec, given, root, given0, seen0, before, fields, i)
    requires Seen(db, root, given0, rec, before, after) && AllLinesSeen(db, root, given0, before, after, {})
    requires forall n :: n in db[rec][i].ids ==> Rec(db[rec][i].relation, n) in after
    requires after == before + CopiesRecords(lines)
    requires Ascending(Ids(lines)) && CopiesFromRecords(db, db[rec][i], lines)
    ensures Copied(db, rec, given, root, given0, seen0, after, Field(fields, db[rec][i].field, lines), i + 1)
  {
    assert db[rec][..i + 1][..i] == db[rec][..i];
    SeenOn(db, root, given0, rec, seen0, before, after);
    AllLinesSeenBoth(db, root, given0, seen0, before, after, {rec});
    assert FieldsOf(db, rec)[i].field == db[rec][i].field && CopiesFromRecords(db, FieldsOf(db, rec)[i], lines);
    RecordsGrow(seen0, rec, fields, db[rec][i].field, lines);
  }

  lemma GivenLeftOut(db: Database, rec: Rec, given: set<FieldName>, root: Rec, given0: set<FieldName>,
                     seen0: seq<Rec>, seen: seq<Rec>, fields: Fields, i: nat)
    requires rec in db && i < |db[rec]| && db[rec][i].field in given
    requires Copied(db, rec, given, root, given0, seen0, seen, fields, i)
    ensures Copied(db, rec, given, root, given0, seen0, seen, fields, i + 1)
  {
    assert db[rec][..i + 1][..i] == db[rec][..i];
  }

  // All fields read: the record itself has its lines seen.
  lemma CopiedAll(db: Database, rec: Rec, given: set<FieldName>, root: Rec, given0: set<FieldName>,
                  seen0: seq<Rec>, seen: seq<Rec>, fields: Fields)
    requires rec in db && Copied(db, rec, given, root, given0, seen0, seen, fields, |db[rec]|) && given == GivenTo(root, given0, rec)
    ensures AllLinesSeen(db, root, given0, seen0, seen, {}) && FromRecords(db, Copy(rec, fields), given)
  {
    assert db[rec][..|db[rec]|] == db[rec];
  }

  class Copier {
    const db: Database
    var seen: seq<Rec>                   // the __copy_data_seen of the context

    constructor (db: Database)
      ensures this.db == db && seen == []
    {
      this.db, seen := db, [];
    }

    ghost function Unseen(): set<Rec>
      reads this
    {
      db.Keys - (set x | x in seen)
    }

    // copy_data. Success(None) for a record seen already, Failure when a record does not exist.
    method CopyData(rec: Rec, given: set<FieldName>, ghost root: Rec, ghost given0: set<FieldName>)
      returns (r: Result<Option<Copy>, ()>)
      requires Distinct(seen) && (rec !in seen ==> given == GivenTo(root, given0, rec)) && (rec == root || root in seen)
      modifies this
      ensures r.Success? ==> Seen(db, root, given0, rec, old(seen), seen) && rec in seen
      ensures r.Success? ==> AllLinesSeen(db, root, given0, old(seen), seen, {})
      ensures r.Success? ==> (r.value == None <==> rec in old(seen)) && (r.value == None ==> seen == old(seen))
      ensures r.Success? && r.value.Some? ==>
                r.value.value.rec == rec && seen == old(seen) + Records(r.value.value) && FromRecords(db, r.value.value, given)
      ensures r.Failure? ==> SomeMissing(db, root, given0, rec)
      decreases Unseen(), 0
    {
      if rec in seen {
        return Success(None);
      }
      ghost var seen0 := seen;
      seen := seen + [rec];
      if rec !in db {
        return Failure(());
      }
      CopiedNone(db, rec, given, root, given0, seen0);
      var fields := NoField;
      var i := 0;
      while i < |db[rec]|
        invariant 0 <= i <= |db[rec]| && Copied(db, rec, given, root, given0, seen0, seen, fields, i)
      {
        ghost var before := seen;
        if db[rec][i].field !in given {
          assert rec in old(Unseen()) && rec !in Unseen();
          var lines := CopyLines(rec, i, root, given0);
          if lines.Failure? {
            return Failure(());
          }
          CopiedOneMore(db, rec, given, root, given0, seen0, before, seen, fields, i, lines.value);
          fields := Field(fields, db[rec][i].field, lines.value);
        } else {
          GivenLeftOut(db, rec, given, root, given0, seen0, seen, fields, i);
        }
        i := i + 1;
      }
      CopiedAll(db, rec, given, root, given0, seen0, seen, fields);
      r := Success(Some(Copy(rec, fields)));
    }

    // The lines of one field.
    method CopyLines(rec: Rec, i: nat, ghost root: Rec, ghost given0: set<FieldName>) returns (r: Result<Copies, ()>)
      requires Distinct(seen) && root in seen && rec in seen
      requires rec in db && i < |db[rec]| && db[rec][i].field !in GivenTo(root, given0, rec)
      modifies this
      ensures r.Success? ==> Seen(db, root, given0, rec, old(seen), seen) && AllLinesSeen(db, root, given0, old(seen), seen, {})
      ensures r.Success? ==> forall n :: n in db[rec][i].ids ==> Rec(db[rec][i].relation, n) in seen
      ensures r.Success? ==> seen == old(seen) + CopiesRecords(r.value)
      ensures r.Success? ==> Ascending(Ids(r.value)) && CopiesFromRecords(db, db[rec][i], r.value)
      ensures r.Failure? ==> SomeMissing(db, root, given0, rec)
      decreases Unseen(), 1
    {
      ghost var seen0 := seen;
      var lines := db[rec][i];
      var ids := SortedIds(lines.ids);
      var copies := NoCopy;
      var j := 0;
      while j < |ids|
        invariant 0 <= j <= |ids|
        invariant Seen(db, root, given0, rec, seen0, seen) && AllLinesSeen(db, root, given0, seen0, seen, {})
        invariant forall k :: 0 <= k < j ==> Rec(lines.relation, ids[k]) in seen
        invariant seen == seen0 + CopiesRecords(copies) && CopiesFromRecords(db, lines, copies)
        invariant Ascending(Ids(copies)) && forall k, n :: 0 <= k < |Ids(copies)| && j <= n < |ids| ==> Ids(copies)[k] < ids[n]
      {
        var line := Rec(lines.relation, ids[j]);
        ghost var before := seen;
        assert ids[j] in ids && IsLine(db, GivenTo(root, given0, rec), rec, line);
        var d := CopyData(line, {}, root, given0);
        if d.Failure? {
          MissingBelow(db, root, given0, rec, line);
          return Failure(());
        }
        SeenBoth(db, root, given0, rec, line, seen0, before, seen);
        AllLinesSeenBoth(db, root, given0, seen0, before, seen, {});
        if d.value.Some? {
          CopiesGrow(db, lines, seen0, copies, d.value.value);
          copies := Added(copies, d.value.value);
        }
        j := j + 1;
      }
      r := Success(copies);
    }

    // copy, as far as it reads: with nothing seen yet, exactly the records reached are copied,
    // each once; it fails exactly when one of them does not exist.
    method Duplicate(rec: Rec, given: set<FieldName>) returns (r: Result<Copy, ()>)
      requires seen == []
      modifies this
      ensures r.Success? ==> r.value.rec == rec && Distinct(Records(r.value)) && FromRecords(db, r.value, given)
      ensures r.Success? ==> forall x :: x in Records(r.value) <==> Reached(db, rec, given, rec, x)
      ensures r.Failure? <==> SomeMissing(db, rec, given, rec)
    {
      var d := CopyData(rec, given, rec, given);
      if d.Failure? {
        return Failure(());
      }
      SeenIsReached(db, rec, given, seen);
      assert seen == Records(d.value.value);
      r := Success(d.value.value);
    }
  }

  // When the lines of all that is seen are seen, that is all there is to reach.
  lemma SeenIsReached(db: Database, rec: Rec, given: set<FieldName>, seen: seq<Rec>)
    requires Seen(db, rec, given, rec, [], seen) && AllLinesSeen(db, rec, given, [], seen, {}) && rec in seen
    ensures forall x :: x in seen <==> Reached(db, rec, given, rec, x)
    ensures !SomeMissing(db, rec, given, rec)
  {
    var t := set x | x in seen;
    forall x, y
      ensures Follows(db, rec, given, t, x, y)
    {
      if x in t {
        assert LinesSeen(db, rec, given, seen, x);
      }
    }
    assert Closed(db, rec, given, t);
    forall x
      ensures x in seen <==> Reached(db, rec, given, rec, x)
      ensures x in seen ==> x in db
    {
      assert SeenOk(db, rec, given, rec, [], seen, x);
    }
  }
}
