/** The FROM clause: tables, explicit joins, and the text built from them while the list of
    tables shrinks under the loop that goes through it. */
module QueryBuilder {
  import opened Wrappers
  import FromTexts

  type Table = string

  datatype JoinKind = Inner | LeftOuter

  // A join of some left-hand table to `table`.
  datatype Join = On(table: Table, lhsCol: string, col: string, kind: JoinKind)

  // What the FROM clause is made of: a table after a comma, or a table joined to an earlier one.
  datatype Item = Start(table: Table) | Joined(lhs: Table, join: Join)

  function TableOf(item: Item): Table
  {
    match item
    case Start(table) => table
    case Joined(_, join) => join.table
  }

  function Quote(name: string): Table
  {
    if '"' in name then name else "\"" + name + "\""
  }

  function ColumnText(table: Table, col: string): string
  {
    table + "." + FromTexts.InQuotes(col)
  }

  // The text of a join: its kind, the table it brings in and the two columns it compares.
  function JoinText(lhs: Table, join: Join): string
  {
    (if join.kind == LeftOuter then " LEFT JOIN " else " JOIN ") + join.table
    + " ON (" + ColumnText(lhs, join.lhsCol) + " = " + ColumnText(join.table, join.col) + ")"
  }

  // The text of a FROM clause.
  function Text(items: seq<Item>): string
  {
    if items == [] then ""
    else
      var last := items[|items| - 1];
      Text(items[..|items| - 1]) +
      match last
      case Start(table) => (if |items| == 1 then "" else ",") + table
      case Joined(lhs, join) => JoinText(lhs, join)
  }

  ghost predicate Distinct(s: seq<Table>)
  {
    forall i, j :: 0 <= i < j < |s| ==> s[i] != s[j]
  }

  // Each table named once, a joined one in the same group as its left-hand table and after it:
  // no comma in between.
  ghost predicate WellScoped(items: seq<Item>)
  {
    && (forall i, j :: 0 <= i < j < |items| ==> TableOf(items[i]) != TableOf(items[j]))
    && (forall k {:trigger ScopedAt(items, k)} :: ScopedAt(items, k))
  }

  ghost predicate ScopedAt(items: seq<Item>, k: int)
  {
    0 <= k < |items| && items[k].Joined? ==> InScope(items[..k], items[k].lhs)
  }

  // A table that a join may refer to after these items.
  ghost predicate InScope(items: seq<Item>, table: Table)
  {
    exists m :: 0 <= m < |items| && TableOf(items[m]) == table && forall l :: m < l < |items| ==> items[l].Joined?
  }

  ghost function Named(items: seq<Item>): set<Table>
  {
    set i | 0 <= i < |items| :: TableOf(items[i])
  }

  lemma NamedOneMore(items: seq<Item>, item: Item)
    ensures Named(items + [item]) == Named(items) + {TableOf(item)}
  {
    var more := items + [item];
    forall t
      ensures t in Named(more) <==> t in Named(items) || t == TableOf(item)
    {
      if t in Named(items) {
        var i :| 0 <= i < |items| && TableOf(items[i]) == t;
        assert more[i] == items[i];
      }
      assert more[|items|] == item;
    }
  }

  lemma ScopedOneMore(items: seq<Item>, item: Item)
    requires WellScoped(items) && TableOf(item) !in Named(items)
    requires item.Joined? ==> InScope(items, item.lhs)
    ensures WellScoped(items + [item]) && InScope(items + [item], TableOf(item))
  {
    var more := items + [item];
    forall k
      ensures ScopedAt(more, k)
    {
      assert ScopedAt(items, k);
      if 0 <= k <= |items| {
        assert more[..k] == items[..k];
        assert k == |items| ==> items[..k] == items;
      }
    }
    assert more[|items|] == item;
  }

  // Only joins are added.
  ghost predicate Continues(items: seq<Item>, more: seq<Item>)
  {
    items <= more && forall l :: |items| <= l < |more| ==> more[l].Joined?
  }

  lemma ContinuesOn(a: seq<Item>, b: seq<Item>, lhs: Table, join: Join, c: seq<Item>)
    requires Continues(a, b) && Continues(b + [Joined(lhs, join)], c)
    ensures Continues(a, c)
  {
    forall l | |a| <= l < |c|
      ensures c[l].Joined?
    {
      assert l < |b| ==> c[l] == b[l];
      assert l == |b| ==> c[l] == Joined(lhs, join);
    }
  }

  lemma StillInScope(items: seq<Item>, more: seq<Item>, table: Table)
    requires Continues(items, more) && InScope(items, table)
    ensures InScope(more, table)
  {
    var m :| 0 <= m < |items| && TableOf(items[m]) == table && forall l :: m < l < |items| ==> items[l].Joined?;
    assert more[m] == items[m];
    forall l | m < l < |more|
      ensures more[l].Joined?
    {
      assert l < |items| ==> more[l] == items[l];
    }
  }

  lemma TextOneMore(items: seq<Item>, item: Item)
    ensures Text(items + [item]) == Text(items) +
              match item
              case Start(table) => (if items == [] then "" else ",") + table
              case Joined(lhs, join) => JoinText(lhs, join)
  {
    assert (items + [item])[..|items|] == items;
  }

  // ------------------------------------------------------------------
  // Reading the text again

  predicate Plain(name: string)
  {
    '"' !in name
  }

  // The name of a table without its quotes.
  function Unquoted(table: Table): string
  {
    if |table| >= 2 then table[1..|table| - 1] else table
  }

  predicate PlainTable(table: Table)
  {
    Plain(Unquoted(table)) && table == FromTexts.InQuotes(Unquoted(table))
  }

  predicate PlainItem(item: Item)
  {
    match item
    case Start(table) => PlainTable(table)
    case Joined(lhs, join) => PlainTable(lhs) && PlainTable(join.table) && Plain(join.lhsCol) && Plain(join.col)
  }

  // What a reader of the text is to find for an item.
  function PartOf(item: Item): FromTexts.Part
  {
    match item
    case Start(table) => FromTexts.Listed(Unquoted(table))
    case Joined(lhs, join) => FromTexts.JoinedOn(Unquoted(join.table), Unquoted(lhs), join.lhsCol, join.col, join.kind == LeftOuter)
  }

  function PartsOf(items: seq<Item>): seq<FromTexts.Part>
  {
    seq(|items|, i requires 0 <= i < |items| => PartOf(items[i]))
  }

  // Names given without quotes are the ones read.
  lemma QuoteIsPlain(name: string)
    requires Plain(name)
    ensures PlainTable(Quote(name)) && Unquoted(Quote(name)) == name
  {
  }

  // A name is quoted once: one that has quotes already stays as it is.
  lemma QuotedOnce(name: string)
    ensures '"' in name ==> Quote(name) == name
    ensures Quote(Quote(name)) == Quote(name)
  {
    assert '"' !in name ==> Quote(name)[0] == '"';
  }

  // The text an item adds, and that of several from the front.
  function ItemText(item: Item): string
  {
    match item
    case Start(table) => "," + table
    case Joined(lhs, join) => JoinText(lhs, join)
  }

  function ItemTexts(items: seq<Item>): string
  {
    if items == [] then "" else ItemText(items[0]) + ItemTexts(items[1..])
  }

  lemma {:induction false} ItemTextsOneMore(items: seq<Item>, item: Item)
    ensures ItemTexts(items + [item]) == ItemTexts(items) + ItemText(item)
  {
    if items == [] {
      assert (items + [item])[1..] == [] && ItemText(item) + "" == ItemText(item) == "" + ItemText(item);
    } else {
      assert (items + [item])[1..] == items[1..] + [item];
      ItemTextsOneMore(items[1..], item);
      assert ItemText(items[0]) + (ItemTexts(items[1..]) + ItemText(item)) == ItemTexts(items) + ItemText(item);
    }
  }

  lemma TextGrows(items: seq<Item>, item: Item)
    requires items == [] ==> item.Start?
    ensures Text(items + [item]) == if items == [] then item.table else Text(items) + ItemText(item)
  {
    TextOneMore(items, item);
    if items == [] {
      assert Text([]) + ("" + item.table) == item.table;
    }
  }

  lemma Regrouped(a: string, b: string, c: string)
    ensures a + (b + c) == a + b + c
  {
  }

  lemma {:induction false} TextIsItemTexts(items: seq<Item>)
    requires items != [] && items[0].Start?
    ensures "," + Text(items) == ItemTexts(items)
  {
    var init, last := items[..|items| - 1], items[|items| - 1];
    assert items == init + [last];
    TextGrows(init, last);
    ItemTextsOneMore(init, last);
    if init == [] {
      Regrouped("", ",", last.table);
    } else {
      TextIsItemTexts(init);
      Regrouped(",", Text(init), ItemText(last));
    }
  }

  lemma ItemIsRead(item: Item, rest: string)
    requires PlainItem(item)
    ensures FromTexts.ReadPart(ItemText(item) + rest) == Some((PartOf(item), rest))
  {
    match item
    case Start(table) =>
      FromTexts.ListedRead(Unquoted(table), rest);
      assert ItemText(item) + rest == "," + (table + rest);
    case Joined(lhs, join) =>
      JoinTextIs(lhs, join, rest);
      var text := FromTexts.JoinedText(Unquoted(join.table), Unquoted(lhs), join.lhsCol, join.col, rest);
      FromTexts.JoinedRead(Unquoted(join.table), Unquoted(lhs), join.lhsCol, join.col, join.kind == LeftOuter, rest);
      FromTexts.LeftJoinRead(text);
      FromTexts.InnerJoinRead(text);
  }

  lemma ColumnTextIs(table: Table, col: string, rest: string)
    ensures ColumnText(table, col) + rest == table + ("." + (FromTexts.InQuotes(col) + rest))
  {
    Regrouped(table + ".", FromTexts.InQuotes(col), rest);
    Regrouped(table, ".", FromTexts.InQuotes(col) + rest);
  }

  // Text after a join, taken in from the right.
  lemma JoinTextIs(lhs: Table, join: Join, rest: string)
    requires PlainTable(lhs) && PlainTable(join.table)
    ensures JoinText(lhs, join) + rest ==
            (if join.kind == LeftOuter then " LEFT JOIN " else " JOIN ")
            + FromTexts.JoinedText(Unquoted(join.table), Unquoted(lhs), join.lhsCol, join.col, rest)
  {
    var word := if join.kind == LeftOuter then " LEFT JOIN " else " JOIN ";
    var l, r := ColumnText(lhs, join.lhsCol), ColumnText(join.table, join.col);
    var front := word + join.table + " ON (";
    Regrouped(front + l + " = " + r, ")", rest);
    Regrouped(front + l + " = ", r, ")" + rest);
    Regrouped(front + l, " = ", r + (")" + rest));
    Regrouped(front, l, " = " + (r + (")" + rest)));
    ColumnTextIs(join.table, join.col, ")" + rest);
    ColumnTextIs(lhs, join.lhsCol, " = " + (r + (")" + rest)));
    Regrouped(word + join.table, " ON (", l + (" = " + (r + (")" + rest))));
    Regrouped(word, join.table, " ON (" + (l + (" = " + (r + (")" + rest)))));
  }

  // The text is read as its items.
  lemma {:induction false} ItemsAreRead(items: seq<Item>)
    requires forall i :: 0 <= i < |items| ==> PlainItem(items[i])
    ensures FromTexts.ReadParts(ItemTexts(items)) == Some(PartsOf(items))
  {
    if items == [] {
      assert PartsOf(items) == [];
    } else {
      ItemsAreRead(items[1..]);
      ItemIsRead(items[0], ItemTexts(items[1..]));
      assert PartsOf(items) == [PartOf(items[0])] + PartsOf(items[1..]);
      assert |ItemText(items[0])| > 0;
    }
  }

  lemma TextIsRead(items: seq<Item>)
    requires WellScoped(items) && forall i :: 0 <= i < |items| ==> PlainItem(items[i])
    ensures FromTexts.ReadFrom(Text(items)) == Some(PartsOf(items))
  {
    ItemsAreRead(items);
    if items != [] {
      assert ScopedAt(items, 0);
      TextIsItemTexts(items);
      assert |ItemText(items[0])| > 1;
      assert Text(items) != "";
    }
  }

  // Where a table stands in the list.
  function Position(tables: seq<Table>, table: Table): (p: nat)
    ensures p <= |tables| && (table in tables ==> p < |tables| && tables[p] == table)
  {
    if tables == [] || tables[0] == table then 0 else 1 + Position(tables[1..], table)
  }

  lemma {:induction false} PositionGrows(tables: seq<Table>, more: Table, table: Table)
    requires table in tables
    ensures Position(tables + [more], table) == Position(tables, table)
  {
    if tables[0] != table {
      assert (tables + [more])[1..] == tables[1..] + [more];
      PositionGrows(tables[1..], more, table);
    }
  }

  lemma {:induction false} PositionLast(tables: seq<Table>, more: Table)
    requires more !in tables
    ensures Position(tables + [more], more) == |tables|
  {
    if tables != [] {
      assert (tables + [more])[1..] == tables[1..] + [more];
      PositionLast(tables[1..], more);
    }
  }

  // ------------------------------------------------------------------
  // The joins of each left-hand table, and where the join that brings a table in is.
  type Joins = map<Table, seq<Join>>
  type Places = map<Table, (Table, nat)>

  function JoinsOf(joins: Joins, table: Table): seq<Join>
  {
    if table in joins then joins[table] else []
  }

  // A joined table comes after its left-hand table, and no other join brings it in.
  ghost predicate JoinOk(tables: seq<Table>, joins: Joins, at: Places, lhs: Table, i: int)
  {
    0 <= i < |JoinsOf(joins, lhs)| ==>
      var table := JoinsOf(joins, lhs)[i].table;
      && lhs in tables && table in tables && Position(tables, lhs) < Position(tables, table)
      && table in at && at[table] == (lhs, i)
  }

  ghost predicate PlaceOk(joins: Joins, at: Places, table: Table)
  {
    table in at ==> at[table].1 < |JoinsOf(joins, at[table].0)| && JoinsOf(joins, at[table].0)[at[table].1].table == table
  }

  ghost predicate Consistent(tables: seq<Table>, joins: Joins, at: Places)
  {
    && Distinct(tables)
    && (forall l, i {:trigger JoinOk(tables, joins, at, l, i)} :: JoinOk(tables, joins, at, l, i))
    && (forall t {:trigger PlaceOk(joins, at, t)} :: PlaceOk(joins, at, t))
  }

  // The items name the tables with their own joins.
  ghost predicate ItemOk(joins: Joins, at: Places, item: Item)
  {
    match item
    case Start(table) => table !in at
    case Joined(lhs, join) =>
      join.table in at && at[join.table].0 == lhs && at[join.table].1 < |JoinsOf(joins, lhs)|
      && JoinsOf(joins, lhs)[at[join.table].1] == join
  }

  ghost predicate InOrder(tables: seq<Table>, s: seq<Table>)
  {
    forall i, j :: 0 <= i < j < |s| ==> Position(tables, s[i]) < Position(tables, s[j])
  }

  // The list being gone through: in the order of the query, without the tables joined so far.
  ghost predicate ToDo(tables: seq<Table>, at: Places, named: set<Table>, left: seq<Table>)
  {
    && InOrder(tables, left)
    && (forall t :: t in left <==> t in tables && !(t in named && t in at))
  }

  ghost predicate LhsNamedFirst(tables: seq<Table>, at: Places, named: set<Table>, table: Table)
  {
    table in named ==> table in tables && (table in at ==> at[table].0 in named)
  }

  ghost predicate LhsNamed(tables: seq<Table>, at: Places, named: set<Table>)
  {
    forall t {:trigger LhsNamedFirst(tables, at, named, t)} :: LhsNamedFirst(tables, at, named, t)
  }

  // A part of the FROM clause: no table is named before its left-hand table.
  ghost predicate Part(tables: seq<Table>, joins: Joins, at: Places, items: seq<Item>, left: seq<Table>)
  {
    && WellScoped(items)
    && (forall k :: 0 <= k < |items| ==> ItemOk(joins, at, items[k]))
    && LhsNamed(tables, at, Named(items))
    && ToDo(tables, at, Named(items), left)
  }

  function Without(s: seq<Table>, r: nat): seq<Table>
    requires r < |s|
  {
    s[..r] + s[r + 1..]
  }

  ghost predicate SameUpTo(s: seq<Table>, t: seq<Table>, k: nat)
  {
    k < |t| <= |s| && forall m :: 0 <= m <= k ==> s[m] == t[m]
  }

  lemma WithoutMembers(s: seq<Table>, r: nat)
    requires r < |s| && Distinct(s)
    ensures forall t :: t in Without(s, r) <==> t in s && t != s[r]
  {
    assert s == s[..r] + [s[r]] + s[r + 1..];
  }

  lemma WithoutInOrder(tables: seq<Table>, s: seq<Table>, r: nat)
    requires r < |s| && InOrder(tables, s)
    ensures InOrder(tables, Without(s, r)) && Distinct(s)
  {
    var rest := Without(s, r);
    forall i, j | 0 <= i < j < |rest|
      ensures Position(tables, rest[i]) < Position(tables, rest[j])
    {
      assert rest[i] == s[if i < r then i else i + 1] && rest[j] == s[if j < r then j else j + 1];
    }
    forall i, j | 0 <= i < j < |s|
      ensures s[i] != s[j]
    {
      assert Position(tables, s[i]) < Position(tables, s[j]);
    }
  }

  lemma TakenOff(tables: seq<Table>, at: Places, named: set<Table>, left: seq<Table>, table: Table, k: nat) returns (r: nat)
    requires ToDo(tables, at, named, left) && table in tables && table in at && table !in named
    requires k < |left| && Position(tables, left[k]) < Position(tables, table)
    ensures k < r < |left| && r == Position(left, table)
    ensures ToDo(tables, at, named + {table}, Without(left, r))
  {
    r := Position(left, table);
    WithoutInOrder(tables, left, r);
    WithoutMembers(left, r);
  }

  lemma OneMoreNamed(tables: seq<Table>, at: Places, named: set<Table>, table: Table)
    requires LhsNamed(tables, at, named) && table in tables && (table in at ==> at[table].0 in named)
    ensures LhsNamed(tables, at, named + {table})
  {
    forall t
      ensures LhsNamedFirst(tables, at, named + {table}, t)
    {
      assert LhsNamedFirst(tables, at, named, t);
    }
  }

  // A table not named yet has none of its joins made.
  lemma NotYetJoined(tables: seq<Table>, joins: Joins, at: Places, items: seq<Item>, lhs: Table, i: nat)
    requires Consistent(tables, joins, at) && i < |JoinsOf(joins, lhs)|
    requires LhsNamed(tables, at, Named(items))
    requires JoinsOf(joins, lhs)[i].table !in Named(items)
    ensures var table := JoinsOf(joins, lhs)[i].table;
            && Position(tables, lhs) < Position(tables, table) < |tables|
            && forall j :: 0 <= j < |JoinsOf(joins, table)| ==> JoinsOf(joins, table)[j].table !in Named(items) + {table}
  {
    var table := JoinsOf(joins, lhs)[i].table;
    assert JoinOk(tables, joins, at, lhs, i);
    forall j | 0 <= j < |JoinsOf(joins, table)|
      ensures JoinsOf(joins, table)[j].table !in Named(items) + {table}
    {
      assert JoinOk(tables, joins, at, table, j);
      assert LhsNamedFirst(tables, at, Named(items), JoinsOf(joins, table)[j].table);
    }
  }

  // Joining one more table takes it off the list, behind the place the loop is at.
  lemma JoinedOneMore(tables: seq<Table>, joins: Joins, at: Places, items: seq<Item>, left: seq<Table>,
                      lhs: Table, i: nat, k: nat)
    requires Consistent(tables, joins, at) && Part(tables, joins, at, items, left)
    requires lhs in Named(items) && InScope(items, lhs) && i < |JoinsOf(joins, lhs)|
    requires JoinsOf(joins, lhs)[i].table !in Named(items)
    requires k < |left| && Position(tables, left[k]) <= Position(tables, lhs)
    ensures var join := JoinsOf(joins, lhs)[i];
            var r, more := Position(left, join.table), items + [Joined(lhs, join)];
            && k < r < |left| && Part(tables, joins, at, more, Without(left, r)) && SameUpTo(left, Without(left, r), k)
            && Named(more) == Named(items) + {join.table} && Text(more) == Text(items) + JoinText(lhs, join)
            && InScope(more, lhs) && InScope(more, join.table)
            && Position(tables, lhs) < Position(tables, join.table) < |tables|
            && forall j :: 0 <= j < |JoinsOf(joins, join.table)| ==> JoinsOf(joins, join.table)[j].table !in Named(more)
  {
    var join := JoinsOf(joins, lhs)[i];
    assert JoinOk(tables, joins, at, lhs, i);
    var r := TakenOff(tables, at, Named(items), left, join.table, k);
    ScopedOneMore(items, Joined(lhs, join));
    NamedOneMore(items, Joined(lhs, join));
    TextOneMore(items, Joined(lhs, join));
    StillInScope(items, items + [Joined(lhs, join)], lhs);
    NotYetJoined(tables, joins, at, items, lhs, i);
    OneMoreNamed(tables, at, Named(items), join.table);
  }

  // All joins of a table have been made.
  ghost predicate Complete(joins: Joins, named: set<Table>, table: Table)
  {
    forall i :: 0 <= i < |JoinsOf(joins, table)| ==> JoinsOf(joins, table)[i].table in named
  }

  // What one call adds to the tables named: tables joined to `lhs` or to one added, with all their joins.
  ghost predicate Added(joins: Joins, at: Places, lhs: Table, before: set<Table>, after: set<Table>, table: Table)
  {
    table in after && table !in before ==>
      table in at && (at[table].0 == lhs || (at[table].0 in after && at[table].0 !in before)) && Complete(joins, after, table)
  }

  ghost predicate Adds(joins: Joins, at: Places, lhs: Table, before: set<Table>, after: set<Table>)
  {
    before <= after && forall t {:trigger Added(joins, at, lhs, before, after, t)} :: Added(joins, at, lhs, before, after, t)
  }

  lemma AddsTogether(tables: seq<Table>, joins: Joins, at: Places, lhs: Table, i: nat,
                     first: set<Table>, before: set<Table>, after: set<Table>)
    requires Consistent(tables, joins, at) && i < |JoinsOf(joins, lhs)| && lhs in first
    requires JoinsOf(joins, lhs)[i].table !in before && Adds(joins, at, lhs, first, before)
    requires var table := JoinsOf(joins, lhs)[i].table;
             Adds(joins, at, table, before + {table}, after) && Complete(joins, after, table)
    ensures Adds(joins, at, lhs, first, after)
    ensures forall j :: 0 <= j < |JoinsOf(joins, lhs)| && (j == i || JoinsOf(joins, lhs)[j].table in before) ==>
              JoinsOf(joins, lhs)[j].table in after
    ensures forall j :: i < j < |JoinsOf(joins, lhs)| && JoinsOf(joins, lhs)[j].table !in before ==>
              JoinsOf(joins, lhs)[j].table !in after
  {
    var table := JoinsOf(joins, lhs)[i].table;
    assert JoinOk(tables, joins, at, lhs, i);
    forall j | i < j < |JoinsOf(joins, lhs)| && JoinsOf(joins, lhs)[j].table !in before
      ensures JoinsOf(joins, lhs)[j].table !in after
    {
      assert JoinOk(tables, joins, at, lhs, j);
      assert Added(joins, at, table, before + {table}, after, JoinsOf(joins, lhs)[j].table);
    }
    forall t
      ensures Added(joins, at, lhs, first, after, t)
    {
      assert Added(joins, at, lhs, first, before, t) && Added(joins, at, table, before + {table}, after, t);
    }
  }

  // How far the joins of a table are made: the first i of them, and all below.
  ghost predicate JoinedUpTo(joins: Joins, at: Places, table: Table, items: seq<Item>, items': seq<Item>, i: nat)
  {
    && Adds(joins, at, table, Named(items), Named(items'))
    && (forall j :: 0 <= j < i && j < |JoinsOf(joins, table)| ==> JoinsOf(joins, table)[j].table in Named(items'))
    && (forall j :: i <= j < |JoinsOf(joins, table)| ==> JoinsOf(joins, table)[j].table !in Named(items'))
    && Continues(items, items') && InScope(items', table)
  }

  lemma JoinedFurther(tables: seq<Table>, joins: Joins, at: Places, table: Table,
                      items: seq<Item>, before: seq<Item>, after: seq<Item>, i: nat)
    requires Consistent(tables, joins, at) && i < |JoinsOf(joins, table)| && table in Named(items)
    requires JoinedUpTo(joins, at, table, items, before, i)
    requires var join := JoinsOf(joins, table)[i];
             && Adds(joins, at, join.table, Named(before) + {join.table}, Named(after))
             && Complete(joins, Named(after), join.table)
             && Continues(before + [Joined(table, join)], after) && InScope(after, table)
    ensures JoinedUpTo(joins, at, table, items, after, i + 1)
  {
    AddsTogether(tables, joins, at, table, i, Named(items), Named(before), Named(after));
    ContinuesOn(items, before, table, JoinsOf(joins, table)[i], after);
  }

  // No name in a query has a quote in it.
  ghost predicate AllPlain(tables: seq<Table>, joins: Joins)
  {
    && (forall t :: t in tables ==> PlainTable(t))
    && forall l, join :: join in JoinsOf(joins, l) ==> Plain(join.lhsCol) && Plain(join.col)
  }

  lemma PlainAdded(tables: seq<Table>, joins: Joins, lhs: Table, join: Join)
    requires PlainTable(join.table) && Plain(join.lhsCol) && Plain(join.col) && AllPlain(tables, joins)
    ensures AllPlain(tables + [join.table], joins[lhs := JoinsOf(joins, lhs) + [join]])
  {
    var after := joins[lhs := JoinsOf(joins, lhs) + [join]];
    forall l, j | j in JoinsOf(after, l)
      ensures Plain(j.lhsCol) && Plain(j.col)
    {
      assert j in JoinsOf(joins, l) || j == join;
    }
  }

  class Query {
    var tables: seq<Table>
    var joins: Joins
    ghost var at: Places

    ghost predicate Valid()
      reads this
    {
      Consistent(tables, joins, at)
    }

    constructor (tables: seq<Table>)
      requires Distinct(tables)
      ensures Valid() && this.tables == tables && joins == map[]
    {
      this.tables, joins, at := tables, map[], map[];
    }

    // Join a table; false when the left-hand table is not part of the query. A table that is
    // part of it already is left as it is.
    method Join(lhs: string, table: string, lhsCol: string, col: string, outer: bool) returns (ok: bool)
      requires Valid()
      modifies this
      ensures Valid() && (ok <==> Quote(lhs) in old(tables))
      ensures !ok || Quote(table) in old(tables) ==> tables == old(tables) && joins == old(joins)
      ensures ok && Quote(table) !in old(tables) ==>
                && tables == old(tables) + [Quote(table)]
                && joins == old(joins)[Quote(lhs) := JoinsOf(old(joins), Quote(lhs)) +
                     [On(Quote(table), lhsCol, col, if outer then LeftOuter else Inner)]]
      ensures old(AllPlain(tables, joins)) && PlainTable(Quote(table)) && Plain(lhsCol) && Plain(col) ==> AllPlain(tables, joins)
    {
      var l, t := Quote(lhs), Quote(table);
      if l !in tables {
        return false;
      }
      if t !in tables {
        var join := On(t, lhsCol, col, if outer then LeftOuter else Inner);
        JoinAdded(tables, joins, at, l, join);
        if AllPlain(tables, joins) && PlainTable(t) && Plain(lhsCol) && Plain(col) {
          PlainAdded(tables, joins, l, join);
        }
        at := at[t := (l, |JoinsOf(joins, l)|)];
        tables := tables + [t];
        joins := joins[l := JoinsOf(joins, l) + [join]];
      }
      ok := true;
    }

    // add_joins_for_table: the joins of a table, each followed by those of the table it brings
    // in. The joined tables are taken off `left`, behind position k.
    method AddJoinsForTable(table: Table, queryFrom: string, left: seq<Table>, ghost items: seq<Item>, ghost k: nat)
      returns (queryFrom': string, left': seq<Table>, ghost items': seq<Item>)
      requires Valid() && Part(tables, joins, at, items, left) && queryFrom == Text(items)
      requires table in Named(items) && InScope(items, table)
      requires forall i :: 0 <= i < |JoinsOf(joins, table)| ==> JoinsOf(joins, table)[i].table !in Named(items)
      requires k < |left| && Position(tables, left[k]) <= Position(tables, table)
      ensures Part(tables, joins, at, items', left') && queryFrom' == Text(items')
      ensures Adds(joins, at, table, Named(items), Named(items')) && Complete(joins, Named(items'), table)
      ensures Continues(items, items')
      ensures SameUpTo(left, left', k)
      decreases |tables| - Position(tables, table), 1
    {
      queryFrom', left', items' := queryFrom, left, items;
      var i := 0;
      while i < |JoinsOf(joins, table)|
        invariant 0 <= i <= |JoinsOf(joins, table)|
        invariant Part(tables, joins, at, items', left') && queryFrom' == Text(items')
        invariant JoinedUpTo(joins, at, table, items, items', i) && SameUpTo(left, left', k)
      {
        ghost var already := items';
        queryFrom', left', items' := AddJoin(table, i, queryFrom', left', items', k);
        JoinedFurther(tables, joins, at, table, items, already, items', i);
        i := i + 1;
      }
    }

    // One join of a table, and those of the table it brings in.
    method AddJoin(table: Table, i: nat, queryFrom: string, left: seq<Table>, ghost items: seq<Item>, ghost k: nat)
      returns (queryFrom': string, left': seq<Table>, ghost items': seq<Item>)
      requires Valid() && Part(tables, joins, at, items, left) && queryFrom == Text(items)
      requires table in Named(items) && InScope(items, table)
      requires i < |JoinsOf(joins, table)| && JoinsOf(joins, table)[i].table !in Named(items)
      requires k < |left| && Position(tables, left[k]) <= Position(tables, table)
      ensures Part(tables, joins, at, items', left') && queryFrom' == Text(items')
      ensures var join := JoinsOf(joins, table)[i];
              && Adds(joins, at, join.table, Named(items) + {join.table}, Named(items'))
              && Complete(joins, Named(items'), join.table)
              && Continues(items + [Joined(table, join)], items') && InScope(items', table)
      ensures SameUpTo(left, left', k)
      decreases |tables| - Position(tables, table), 0
    {
      var join := joins[table][i];
      ghost var more := items + [Joined(table, join)];
      JoinedOneMore(tables, joins, at, items, left, table, i, k);
      left' := Without(left, Position(left, join.table));
      queryFrom' := queryFrom + JoinText(table, join);
      queryFrom', left', items' := AddJoinsForTable(join.table, queryFrom', left', more, k);
      StillInScope(more, items', table);
    }

    // The FROM clause: every table of the query once, by its own join if it has one.
    method FromClause() returns (queryFrom: string, ghost items: seq<Item>)
      requires Valid()
      ensures queryFrom == Text(items) && WellScoped(items)
      ensures forall t :: t in Named(items) <==> t in tables
      ensures forall k :: 0 <= k < |items| ==> ItemOk(joins, at, items[k])
    {
      queryFrom, items := "", [];
      var tablesToProcess := tables;
      var k := 0;
      AllToDo(tables, joins, at);
      while k < |tablesToProcess|
        invariant 0 <= k <= |tablesToProcess| && Part(tables, joins, at, items, tablesToProcess)
        invariant UpTo(joins, Named(items), tablesToProcess, k)
        invariant queryFrom == WithComma(items)
      {
        var table := tablesToProcess[k];
        ghost var before, left := Named(items), tablesToProcess;
        StartedOneMore(tables, joins, at, items, left, k);
        items := items + [Start(table)];
        queryFrom := queryFrom + table;
        if table in joins {
          queryFrom, tablesToProcess, items := AddJoinsForTable(table, queryFrom, tablesToProcess, items, k);
        }
        RoundDone(tables, joins, at, before, Named(items), left, tablesToProcess, k);
        queryFrom := queryFrom + ",";
        k := k + 1;
      }
      NothingLeft(tables, at, Named(items), tablesToProcess);
      LastComma(items);
      if queryFrom != "" {
        queryFrom := queryFrom[..|queryFrom| - 1];
      }
    }

    // get_sql, its first part. A reader of the text finds every table once, with the join that
    // brings it in, if any, as it was given.
    method GetSql() returns (queryFrom: string, ghost items: seq<Item>)
      requires Valid()
      ensures queryFrom == Text(items) && WellScoped(items)
      ensures forall t :: t in Named(items) <==> t in tables
      ensures forall k :: 0 <= k < |items| ==> ItemOk(joins, at, items[k])
      ensures forall l, join :: join in JoinsOf(joins, l) ==> Joined(l, join) in items
      ensures AllPlain(tables, joins) ==> FromTexts.ReadFrom(queryFrom) == Some(PartsOf(items))
    {
      queryFrom, items := FromClause();
      JoinsAreItems(tables, joins, at, items);
      if AllPlain(tables, joins) {
        ItemsArePlain(tables, joins, at, items);
        TextIsRead(items);
      }
    }
  }

  // When every table is named, every join is made.
  lemma JoinsAreItems(tables: seq<Table>, joins: Joins, at: Places, items: seq<Item>)
    requires Consistent(tables, joins, at) && (forall t :: t in Named(items) <==> t in tables)
    requires forall k :: 0 <= k < |items| ==> ItemOk(joins, at, items[k])
    ensures forall l, join :: join in JoinsOf(joins, l) ==> Joined(l, join) in items
  {
    forall l, join | join in JoinsOf(joins, l)
      ensures Joined(l, join) in items
    {
      var i :| 0 <= i < |JoinsOf(joins, l)| && JoinsOf(joins, l)[i] == join;
      assert JoinOk(tables, joins, at, l, i);
      var k :| 0 <= k < |items| && TableOf(items[k]) == join.table;
      assert ItemOk(joins, at, items[k]);
    }
  }

  lemma ItemsArePlain(tables: seq<Table>, joins: Joins, at: Places, items: seq<Item>)
    requires Consistent(tables, joins, at) && (forall t :: t in Named(items) <==> t in tables)
    requires forall k :: 0 <= k < |items| ==> ItemOk(joins, at, items[k])
    requires AllPlain(tables, joins)
    ensures forall k :: 0 <= k < |items| ==> PlainItem(items[k])
  {
    forall k | 0 <= k < |items|
      ensures PlainItem(items[k])
    {
      assert TableOf(items[k]) in Named(items) && ItemOk(joins, at, items[k]);
      if items[k].Joined? {
        assert JoinOk(tables, joins, at, items[k].lhs, at[items[k].join.table].1);
        assert items[k].join in JoinsOf(joins, items[k].lhs);
      }
    }
  }

  // When the loop is at k, the tables before it are named, those after are not, and the joins
  // of all that are named are made.
  ghost predicate UpTo(joins: Joins, named: set<Table>, left: seq<Table>, k: int)
  {
    && (forall m {:trigger left[m]} :: 0 <= m < |left| ==> (left[m] in named <==> m < k))
    && forall t {:trigger CompleteIfNamed(joins, named, t)} :: CompleteIfNamed(joins, named, t)
  }

  ghost predicate CompleteIfNamed(joins: Joins, named: set<Table>, table: Table)
  {
    table in named ==> Complete(joins, named, table)
  }

  lemma AllToDo(tables: seq<Table>, joins: Joins, at: Places)
    requires Consistent(tables, joins, at)
    ensures Part(tables, joins, at, [], tables) && UpTo(joins, Named([]), tables, 0)
  {
    assert Named([]) == {};
    forall i | 0 <= i < |tables|
      ensures Position(tables, tables[i]) == i
    {
      var p := Position(tables, tables[i]);
      assert tables[p] == tables[i];
    }
  }

  // The next table has no join of its own: else its left-hand table would have been named, and it with it.
  lemma NextIsFree(tables: seq<Table>, joins: Joins, at: Places, named: set<Table>, left: seq<Table>, k: nat)
    requires Consistent(tables, joins, at) && ToDo(tables, at, named, left) && UpTo(joins, named, left, k) && k < |left|
    ensures left[k] in tables && left[k] !in at && left[k] !in named
  {
    assert left[k] in left;
    if left[k] in at {
      LhsIsLeft(tables, joins, at, named, left, left[k]);
    }
  }

  lemma LhsIsLeft(tables: seq<Table>, joins: Joins, at: Places, named: set<Table>, left: seq<Table>, table: Table)
    requires Consistent(tables, joins, at) && ToDo(tables, at, named, left)
    requires table in at && table !in named && CompleteIfNamed(joins, named, at[table].0)
    ensures exists q :: 0 <= q < |left| && left[q] == at[table].0 && left[q] !in named
    ensures Position(tables, at[table].0) < Position(tables, table)
  {
    assert PlaceOk(joins, at, table) && JoinOk(tables, joins, at, at[table].0, at[table].1);
    assert at[table].0 in left;
  }

  // The text with a comma after each item, as the loop leaves it.
  ghost function WithComma(items: seq<Item>): string
  {
    if items == [] then "" else Text(items) + ","
  }

  lemma LastComma(items: seq<Item>)
    ensures WithComma(items) == "" ==> Text(items) == ""
    ensures WithComma(items) != "" ==> WithComma(items)[..|WithComma(items)| - 1] == Text(items)
  {
  }

  lemma TextStarted(items: seq<Item>, table: Table)
    ensures Text(items + [Start(table)]) == WithComma(items) + table
  {
    TextOneMore(items, Start(table));
    if items != [] {
      assert Text(items) + ("," + table) == WithComma(items) + table;
    }
  }

  lemma StartedOneMore(tables: seq<Table>, joins: Joins, at: Places, items: seq<Item>, left: seq<Table>, k: nat)
    requires Consistent(tables, joins, at) && Part(tables, joins, at, items, left) && UpTo(joins, Named(items), left, k)
    requires k < |left|
    ensures var more := items + [Start(left[k])];
            && Part(tables, joins, at, more, left) && Named(more) == Named(items) + {left[k]} && InScope(more, left[k])
            && Text(more) == WithComma(items) + left[k]
            && forall i :: 0 <= i < |JoinsOf(joins, left[k])| ==> JoinsOf(joins, left[k])[i].table !in Named(more)
  {
    var table, named := left[k], Named(items);
    NextIsFree(tables, joins, at, named, left, k);
    forall i | 0 <= i < |JoinsOf(joins, table)|
      ensures JoinsOf(joins, table)[i].table !in named + {table}
    {
      assert JoinOk(tables, joins, at, table, i);
      assert LhsNamedFirst(tables, at, named, JoinsOf(joins, table)[i].table);
    }
    OneMoreNamed(tables, at, named, table);
    NamedOneMore(items, Start(table));
    ScopedOneMore(items, Start(table));
    TextStarted(items, table);
  }

  lemma RoundDone(tables: seq<Table>, joins: Joins, at: Places, before: set<Table>, named: set<Table>,
                  left: seq<Table>, left': seq<Table>, k: nat)
    requires UpTo(joins, before, left, k) && SameUpTo(left, left', k)
    requires ToDo(tables, at, before + {left[k]}, left) && ToDo(tables, at, named, left')
    requires Adds(joins, at, left[k], before + {left[k]}, named) && Complete(joins, named, left[k])
    ensures UpTo(joins, named, left', k + 1)
  {
    var table := left[k];
    forall m | 0 <= m < |left'|
      ensures left'[m] in named <==> m < k + 1
    {
      var t := left'[m];
      assert t in left';
      assert Added(joins, at, table, before + {table}, named, t);
      if m <= k {
        assert left[m] == t;
      } else {
        assert t in left;
        var q :| 0 <= q < |left| && left[q] == t;
      }
    }
    forall t
      ensures CompleteIfNamed(joins, named, t)
    {
      assert CompleteIfNamed(joins, before, t) && Added(joins, at, table, before + {table}, named, t);
    }
  }

  lemma NothingLeft(tables: seq<Table>, at: Places, named: set<Table>, left: seq<Table>)
    requires LhsNamed(tables, at, named) && ToDo(tables, at, named, left) && forall m :: 0 <= m < |left| ==> left[m] in named
    ensures forall t :: t in named <==> t in tables
  {
    forall t
      ensures t in named <==> t in tables
    {
      assert LhsNamedFirst(tables, at, named, t);
    }
  }

  lemma JoinAdded(tables: seq<Table>, joins: Joins, at: Places, lhs: Table, join: Join)
    requires Consistent(tables, joins, at) && lhs in tables && join.table !in tables
    ensures Consistent(tables + [join.table], joins[lhs := JoinsOf(joins, lhs) + [join]],
                       at[join.table := (lhs, |JoinsOf(joins, lhs)|)])
  {
    var tables', joins' := tables + [join.table], joins[lhs := JoinsOf(joins, lhs) + [join]];
    var at' := at[join.table := (lhs, |JoinsOf(joins, lhs)|)];
    PositionLast(tables, join.table);
    forall l, i
      ensures JoinOk(tables', joins', at', l, i)
    {
      assert JoinOk(tables, joins, at, l, i);
      if 0 <= i < |JoinsOf(joins', l)| {
        PositionGrows(tables, join.table, lhs);
        if l != lhs || i < |JoinsOf(joins, l)| {
          PositionGrows(tables, join.table, l);
          PositionGrows(tables, join.table, JoinsOf(joins, l)[i].table);
        }
      }
    }
    forall t
      ensures PlaceOk(joins', at', t)
    {
      assert PlaceOk(joins, at, t);
      if t != join.table && t in at {
        assert JoinOk(tables, joins, at, at[t].0, at[t].1);
      }
    }
  }
}
