/** Reading the text of a FROM clause, character by character: which tables it names, and how
    each joined one is joined. Names stand between double quotes. */
module FromTexts {
  import opened Wrappers

  // A table after a comma, or one joined on `lhs.lhsCol = table.col`.
  datatype Part = Listed(table: string) | JoinedOn(table: string, lhs: string, lhsCol: string, col: string, outer: bool)

  // What follows a word.
  function Expect(s: string, word: string): Option<string>
  {
    if word <= s then Some(s[|word|..]) else None
  }

  function BeforeQuote(s: string): (n: nat)
    ensures n <= |s|
  {
    if s == "" || s[0] == '"' then 0 else 1 + BeforeQuote(s[1..])
  }

  // A name, and what follows it.
  function ReadName(s: string): (r: Option<(string, string)>)
    ensures r.Some? ==> |r.value.1| < |s|
  {
    if s == "" || s[0] != '"' then None
    else
      var n := BeforeQuote(s[1..]);
      if n + 1 == |s| then None else Some((s[1..n + 1], s[n + 2..]))
  }

  // A table and its column.
  function ReadColumn(s: string): (r: Option<(string, string, string)>)
    ensures r.Some? ==> |r.value.2| < |s|
  {
    match ReadName(s)
    case None => None
    case Some((table, rest)) =>
      match Expect(rest, ".")
      case None => None
      case Some(rest) =>
        match ReadName(rest)
        case None => None
        case Some((col, rest)) => Some((table, col, rest))
  }

  // The condition in parentheses: both columns.
  function ReadCondition(s: string): (r: Option<((string, string), (string, string), string)>)
    ensures r.Some? ==> |r.value.2| < |s|
  {
    match ReadColumn(s)
    case None => None
    case Some((a, ca, rest)) =>
      match Expect(rest, " = ")
      case None => None
      case Some(rest) =>
        match ReadColumn(rest)
        case None => None
        case Some((b, cb, rest)) =>
          match Expect(rest, ")")
          case None => None
          case Some(rest) => Some(((a, ca), (b, cb), rest))
  }

  function ReadJoin(s: string, outer: bool): (r: Option<(Part, string)>)
    ensures r.Some? ==> |r.value.1| < |s|
  {
    match ReadName(s)
    case None => None
    case Some((table, rest)) =>
      match Expect(rest, " ON (")
      case None => None
      case Some(rest) =>
        match ReadCondition(rest)
        case None => None
        case Some((l, r, rest)) => if r.0 == table then Some((JoinedOn(table, l.0, l.1, r.1, outer), rest)) else None
  }

  // One part and what follows it.
  function ReadPart(s: string): (r: Option<(Part, string)>)
    ensures r.Some? ==> |r.value.1| < |s|
  {
    match Expect(s, ",")
    case Some(rest) =>
      (match ReadName(rest)
       case None => None
       case Some((table, rest)) => Some((Listed(table), rest)))
    case None =>
      match Expect(s, " LEFT JOIN ")
      case Some(rest) => ReadJoin(rest, true)
      case None =>
        match Expect(s, " JOIN ")
        case Some(rest) => ReadJoin(rest, false)
        case None => None
  }

  function ReadParts(s: string): Option<seq<Part>>
    decreases |s|
  {
    if s == "" then Some([])
    else
      match ReadPart(s)
      case None => None
      case Some((part, rest)) =>
        match ReadParts(rest)
        case None => None
        case Some(parts) => Some([part] + parts)
  }

  // A whole FROM clause; there is no comma before its first table.
  function ReadFrom(s: string): Option<seq<Part>>
  {
    if s == "" then Some([]) else ReadParts("," + s)
  }

  // ------------------------------------------------------------------
  // Texts that are read back

  function InQuotes(name: string): string
  {
    "\"" + name + "\""
  }

  lemma {:induction false} QuoteIsEnd(name: string, rest: string)
    requires '"' !in name
    ensures BeforeQuote(name + ("\"" + rest)) == |name|
  {
    if name == "" {
      assert name + ("\"" + rest) == "\"" + rest;
    } else {
      assert (name + ("\"" + rest))[1..] == name[1..] + ("\"" + rest);
      QuoteIsEnd(name[1..], rest);
    }
  }

  lemma NameRead(name: string, rest: string)
    requires '"' !in name
    ensures ReadName(InQuotes(name) + rest) == Some((name, rest))
  {
    var s := InQuotes(name) + rest;
    assert s[1..] == name + ("\"" + rest);
    QuoteIsEnd(name, rest);
    assert s[1..|name| + 1] == name && s[|name| + 2..] == rest;
  }

  lemma WordRead(word: string, rest: string)
    ensures Expect(word + rest, word) == Some(rest)
  {
    assert (word + rest)[|word|..] == rest;
  }

  lemma ColumnRead(table: string, col: string, rest: string)
    requires '"' !in table && '"' !in col
    ensures ReadColumn(InQuotes(table) + ("." + (InQuotes(col) + rest))) == Some((table, col, rest))
  {
    NameRead(table, "." + (InQuotes(col) + rest));
    WordRead(".", InQuotes(col) + rest);
    NameRead(col, rest);
  }

  function ConditionText(a: string, ca: string, b: string, cb: string, rest: string): string
  {
    InQuotes(a) + ("." + (InQuotes(ca) + (" = " + (InQuotes(b) + ("." + (InQuotes(cb) + (")" + rest)))))))
  }

  lemma ConditionRead(a: string, ca: string, b: string, cb: string, rest: string)
    requires '"' !in a && '"' !in ca && '"' !in b && '"' !in cb
    ensures ReadCondition(ConditionText(a, ca, b, cb, rest)) == Some(((a, ca), (b, cb), rest))
  {
    var right := InQuotes(b) + ("." + (InQuotes(cb) + (")" + rest)));
    ColumnRead(a, ca, " = " + right);
    WordRead(" = ", right);
    ColumnRead(b, cb, ")" + rest);
    WordRead(")", rest);
  }

  function JoinedText(table: string, lhs: string, lhsCol: string, col: string, rest: string): string
  {
    InQuotes(table) + (" ON (" + ConditionText(lhs, lhsCol, table, col, rest))
  }

  lemma JoinedRead(table: string, lhs: string, lhsCol: string, col: string, outer: bool, rest: string)
    requires '"' !in table && '"' !in lhs && '"' !in lhsCol && '"' !in col
    ensures ReadJoin(JoinedText(table, lhs, lhsCol, col, rest), outer) == Some((JoinedOn(table, lhs, lhsCol, col, outer), rest))
  {
    var condition := ConditionText(lhs, lhsCol, table, col, rest);
    NameRead(table, " ON (" + condition);
    WordRead(" ON (", condition);
    ConditionRead(lhs, lhsCol, table, col, rest);
  }

  lemma NotTheWord(word: string, other: string, rest: string, k: nat)
    requires k < |word| && k < |other| && word[k] != other[k]
    ensures Expect(word + rest, other) == None
  {
    assert (word + rest)[k] == word[k];
  }

  // The word in front tells the kind of join.
  lemma LeftJoinRead(s: string)
    ensures ReadPart(" LEFT JOIN " + s) == ReadJoin(s, true)
  {
    NotTheWord(" LEFT JOIN ", ",", s, 0);
    WordRead(" LEFT JOIN ", s);
  }

  lemma InnerJoinRead(s: string)
    ensures ReadPart(" JOIN " + s) == ReadJoin(s, false)
  {
    NotTheWord(" JOIN ", ",", s, 0);
    NotTheWord(" JOIN ", " LEFT JOIN ", s, 1);
    WordRead(" JOIN ", s);
  }

  lemma ListedRead(table: string, rest: string)
    requires '"' !in table
    ensures ReadPart("," + (InQuotes(table) + rest)) == Some((Listed(table), rest))
  {
    WordRead(",", InQuotes(table) + rest);
    NameRead(table, rest);
  }
}
