/** Writing text markup: commands that set the text state, how each is written, and the proof that
    the reader takes a written list of commands and a quoted text for that text in the state the
    commands give. */
module TextCommands {
  import opened Wrappers
  import opened TextMarkup

  datatype Command =
    | SetFamily(name: string)                     // any family, by its name
    | SetKnownFamily(letter: char, known: string) // one of the families that have a letter
    | SetSize(size: nat)
    | SetLineHeight(height: int)
    | SetGray(whole: nat, hundredths: Option<nat>)
    | Bold | Italic | Oblique
    | SetVertical(valign: char)
    | SetHorizontal(halign: char)
    | SetAngle(angle: int)

  const KNOWN: map<char, string> :=
    map['T' := "Times", 'H' := "Helvetica", 'C' := "Courier", 'N' := "Helvetica-Narrow",
        'B' := "Bookman-Demi", 'A' := "AvantGarde-Book", 'P' := "Palatino", 'S' := "Symbol"]

  predicate WellFormed(command: Command)
  {
    match command
    case SetFamily(name) => '}' !in name
    case SetKnownFamily(letter, known) => letter in KNOWN && KNOWN[letter] == known
    case SetGray(whole, hundredths) => hundredths.Some? ==> hundredths.value < 100
    case SetVertical(valign) => valign in {'B', 'T', 'M'}
    case SetHorizontal(halign) => halign in {'L', 'R', 'C'}
    case _ => true
  }

  function GrayLevel(whole: nat, hundredths: Option<nat>): real
  {
    whole as real + if hundredths.Some? then hundredths.value as real / 100.0 else 0.0
  }

  // What it is to do.
  function Applied(command: Command, ts: State): State
  {
    match command
    case SetFamily(name) => ts.(family := name)
    case SetKnownFamily(letter, known) => ts.(family := known)
    case SetSize(size) => ts.(size := size, lineHeight := size)
    case SetLineHeight(height) => ts.(lineHeight := height)
    case SetGray(whole, hundredths) =>
      ts.(colour := Gray(GrayLevel(whole, hundredths)))
    case Bold => ts.(modifiers := ts.modifiers + ['b'])
    case Italic => ts.(modifiers := ts.modifiers + ['i'])
    case Oblique => ts.(modifiers := ts.modifiers + ['q'])
    case SetVertical(valign) => ts.(valign := valign)
    case SetHorizontal(halign) => ts.(halign := halign)
    case SetAngle(angle) => ts.(angle := angle)
  }

  function AppliedAll(commands: seq<Command>, ts: State): State
  {
    if commands == [] then ts else AppliedAll(commands[1..], Applied(commands[0], ts))
  }

  // The last digit of a number.
  function Digit(n: nat): char
  {
    "0123456789"[n % 10]
  }

  function Digits(n: nat): string
  {
    if n < 10 then [Digit(n)] else Digits(n / 10) + [Digit(n)]
  }

  function Number(n: int): string
  {
    if n < 0 then "-" + Digits(-n) else Digits(n)
  }

  function GrayText(whole: nat, hundredths: Option<nat>): string
  {
    if hundredths == None then Digits(whole) else Digits(whole) + "." + TwoDigits(hundredths.value)
  }

  function TwoDigits(n: nat): string
  {
    [Digit(n / 10), Digit(n)]
  }

  function Written(command: Command): (text: string)
    ensures |text| >= 2 && text[0] == '/'
  {
    match command
    case SetFamily(name) => "/F{" + name + "}"
    case SetKnownFamily(letter, known) => ['/', letter]
    case SetSize(size) => "/" + Digits(size)
    case SetLineHeight(height) => "/l" + Number(height)
    case SetGray(whole, hundredths) =>
      "/c" + GrayText(whole, hundredths)
    case Bold => "/b"
    case Italic => "/i"
    case Oblique => "/o"
    case SetVertical(valign) => ['/', 'v', valign]
    case SetHorizontal(halign) => ['/', 'h', halign]
    case SetAngle(angle) => "/a" + Number(angle)
  }

  ghost predicate AllWellFormed(commands: seq<Command>)
  {
    forall k :: 0 <= k < |commands| ==> WellFormed(commands[k])
  }

  function WrittenAll(commands: seq<Command>): string
  {
    JoinAll(commands, Written)
  }

  function JoinAll<T>(items: seq<T>, write: T -> string): string
  {
    if items == [] then "" else write(items[0]) + JoinAll(items[1..], write)
  }

  // A command that ends with a number would take the digits that follow for its own.
  predicate EndsWithNumber(command: Command)
  {
    command.SetSize? || command.SetLineHeight? || command.SetGray? || command.SetAngle?
  }

  predicate GoesOnNumber(c: char)
  {
    IsDigit(c) || c == '-' || c == '.'
  }

  // ------------------------------------------------------------------
  // Numbers

  lemma {:induction false} DigitsRead(n: nat)
    ensures ToNat(Digits(n)) == Some(n)
    ensures Digits(n) != "" && forall k :: 0 <= k < |Digits(n)| ==> IsDigit(Digits(n)[k])
  {
    var text := Digits(n);
    if n < 10 {
      assert text == [Digit(n)];
    } else {
      DigitsRead(n / 10);
      assert text[..|text| - 1] == Digits(n / 10);
    }
  }

  // A run of digits is a number, and nothing else is; zeros in front do not count.
  lemma {:induction false} NatExactly(text: string)
    ensures ToNat(text).Some? <==> text != "" && forall k :: 0 <= k < |text| ==> IsDigit(text[k])
    ensures ToNat(text).Some? ==> ToNat(text).value >= 0 && ToNat("0" + text) == ToNat(text)
  {
    if text != "" && IsDigit(text[|text| - 1]) {
      var front := text[..|text| - 1];
      NatExactly(front);
      assert ("0" + text)[..|text|] == "0" + front;
      if front == "" {
        assert ToNat("0" + front) == Some(0);
      } else {
        assert (forall k :: 0 <= k < |text| ==> IsDigit(text[k])) <==> forall k :: 0 <= k < |front| ==> IsDigit(front[k]);
      }
    }
  }

  // A text that is read as a whole number, or as the level of a colour.
  ghost predicate IsNumber(text: string, n: int)
  {
    text != "" && ToInt(text) == Some(n) && forall k :: 0 <= k < |text| ==> IsDigit(text[k]) || text[k] == '-'
  }

  ghost predicate IsLevel(text: string, level: real)
  {
    text != "" && ToFloat(text) == Some(level) && forall k :: 0 <= k < |text| ==> IsDigit(text[k]) || text[k] == '.'
  }

  lemma MinusRead(digits: string, n: int)
    requires ToNat(digits) == Some(n) && forall k :: 0 <= k < |digits| ==> IsDigit(digits[k])
    ensures IsNumber("-" + digits, -n)
  {
    assert ("-" + digits)[1..] == digits;
  }

  lemma NumberRead(n: int)
    ensures IsNumber(Number(n), n)
  {
    if n < 0 {
      DigitsRead(-n);
      MinusRead(Digits(-n), -n);
    } else {
      DigitsRead(n);
    }
  }

  lemma {:induction false} NoPoint(text: string, i: nat)
    requires i <= |text| && forall k :: i <= k < |text| ==> text[k] != '.'
    ensures Find(text, '.', i) == |text|
    decreases |text| - i
  {
    if i < |text| {
      NoPoint(text, i + 1);
    }
  }

  lemma {:induction false} PointAt(text: string, i: nat, j: nat)
    requires i <= j < |text| && text[j] == '.' && forall k :: i <= k < j ==> text[k] != '.'
    ensures Find(text, '.', i) == j
    decreases |text| - i
  {
    if i < j {
      PointAt(text, i + 1, j);
    }
  }

  lemma TwoDigitsRead(n: nat)
    requires n < 100
    ensures ToNat(TwoDigits(n)) == Some(n)
  {
    var text := TwoDigits(n);
    assert text[..1] == [Digit(n / 10)];
    assert ToNat(text[..1]) == Some(n / 10);
  }

  lemma PointSplits(text: string, whole: string, fraction: string)
    requires text == whole + "." + fraction && forall k :: 0 <= k < |whole| ==> whole[k] != '.'
    ensures |whole| < |text| && Find(text, '.', 0) == |whole| && text[..|whole|] == whole && text[|whole| + 1..] == fraction
  {
    PointAt(text, 0, |whole|);
  }

  lemma FractionRead(text: string, point: nat, whole: string, fraction: string)
    requires point < |text| && Find(text, '.', 0) == point && text[..point] == whole && text[point + 1..] == fraction
    ensures ToFloat(text) == Decimal(whole, fraction)
  {
  }

  lemma DecimalRead(whole: string, fraction: string)
    requires whole != "" && fraction != "" && ToNat(whole).Some? && ToNat(fraction).Some?
    ensures Decimal(whole, fraction) == Some(ToNat(whole).value as real + ToNat(fraction).value as real / Power10(|fraction|))
  {
  }

  // Digits before the point, after it, or both, make a level, and nothing else does; missing ones are 0.
  lemma DecimalExactly(whole: string, fraction: string)
    ensures Decimal(whole, fraction).Some? <==>
            whole + fraction != "" && (forall k :: 0 <= k < |whole| ==> IsDigit(whole[k])) && forall k :: 0 <= k < |fraction| ==> IsDigit(fraction[k])
    ensures whole == "" && Decimal(whole, fraction).Some? ==> Decimal(whole, fraction) == Decimal("0", fraction)
    ensures fraction == "" && Decimal(whole, fraction).Some? ==> Decimal(whole, fraction) == Some(ToNat(whole).value as real)
  {
    NatExactly(whole);
    NatExactly(fraction);
    assert ToNat("0") == Some(0);
  }

  lemma WholeRead(whole: string)
    requires ToNat(whole).Some? && forall k :: 0 <= k < |whole| ==> whole[k] != '.'
    ensures ToFloat(whole) == Some(ToNat(whole).value as real)
  {
    NoPoint(whole, 0);
  }

  lemma Hundredths(whole: nat, h: nat, n: int, f: int, k: nat)
    requires n == whole && f == h && k == 2
    ensures n as real + f as real / Power10(k) == GrayLevel(whole, Some(h))
  {
    assert Power10(1) == 10.0 * Power10(0) && Power10(2) == 100.0;
  }

  lemma GrayRead(whole: nat, hundredths: Option<nat>)
    requires hundredths.Some? ==> hundredths.value < 100
    ensures IsLevel(GrayText(whole, hundredths), GrayLevel(whole, hundredths))
  {
    var text := Digits(whole);
    DigitsRead(whole);
    match hundredths
    case None =>
      WholeRead(text);
    case Some(h) =>
      var fraction := TwoDigits(h);
      TwoDigitsRead(h);
      PointSplits(text + "." + fraction, text, fraction);
      FractionRead(text + "." + fraction, |text|, text, fraction);
      DecimalRead(text, fraction);
      Hundredths(whole, h, ToNat(text).value, ToNat(fraction).value, |fraction|);
  }

  // A run ends where it is followed by something else.
  lemma {:induction false} NumberRun(s: string, i: nat, j: nat)
    requires i <= j <= |s| && forall k :: i <= k < j ==> IsDigit(s[k]) || s[k] == '-'
    requires j == |s| || !GoesOnNumber(s[j])
    ensures NumberEnd(s, i) == j
    decreases j - i
  {
    if i < j {
      NumberRun(s, i + 1, j);
    }
  }

  lemma {:induction false} FloatRun(s: string, i: nat, j: nat)
    requires i <= j <= |s| && forall k :: i <= k < j ==> IsDigit(s[k]) || s[k] == '.'
    requires j == |s| || !GoesOnNumber(s[j])
    ensures FloatEnd(s, i) == j
    decreases j - i
  {
    if i < j {
      FloatRun(s, i + 1, j);
    }
  }

  lemma {:induction false} BraceAt(s: string, i: nat, j: nat)
    requires i <= j < |s| && s[j] == '}' && forall k :: i <= k < j ==> s[k] != '}'
    ensures Find(s, '}', i) == j
    decreases |s| - i
  {
    if i < j {
      BraceAt(s, i + 1, j);
    }
  }

  // ------------------------------------------------------------------
  // Reading a command

  // `text` stands at i.
  ghost predicate StandsAt(s: string, i: nat, text: string)
  {
    i + |text| <= |s| && forall k {:trigger text[k]} :: 0 <= k < |text| ==> s[i + k] == text[k]
  }

  lemma StandsWithin(s: string, i: nat, front: string, text: string)
    requires StandsAt(s, i, front + text)
    ensures StandsAt(s, i, front) && StandsAt(s, i + |front|, text) && s[i + |front|..i + |front| + |text|] == text
  {
    var all := front + text;
    forall k | 0 <= k < |front|
      ensures s[i + k] == front[k]
    {
      assert s[i + k] == all[k];
    }
    forall k | 0 <= k < |text|
      ensures s[i + |front| + k] == text[k]
    {
      assert s[i + (|front| + k)] == all[|front| + k];
    }
  }

  // What is written there for one command is read in one step, and does what the command is to do.
  ghost predicate ReadsAs(s: string, c: Config, command: Command)
    requires c.i < |s|
  {
    var next := c.(i := c.i + |Written(command)|, ts := Applied(command, c.ts));
    ReadStep(s, c) == if command.SetGray? then Recolours(next) else Changes(next)
  }

  ghost predicate Follows(s: string, i: nat, command: Command)
  {
    StandsAt(s, i, Written(command)) && (EndsWithNumber(command) ==> NumberEnds(s, i, Written(command)))
  }

  lemma FamilyNamed(s: string, i: nat, name: string)
    requires StandsAt(s, i, "/F{" + name + "}") && '}' !in name
    ensures var k := i + 3; s[i + 2] == '{' && Find(s, '}', k) == k + |name| < |s| && s[k..k + |name|] == name
  {
    var all := "/F{" + name + "}";
    StandsWithin(s, i, "/F{" + name, "}");
    StandsWithin(s, i, "/F{", name);
    assert s[i + 2] == all[2] && s[i + (3 + |name|)] == all[3 + |name|];
    forall k | i + 3 <= k < i + 3 + |name|
      ensures s[k] != '}'
    {
      assert s[i + 3 + (k - i - 3)] == name[k - i - 3];
    }
    BraceAt(s, i + 3, i + 3 + |name|);
  }

  lemma NamedReads(s: string, c: Config, name: string)
    requires StandsAt(s, c.i, "/F{" + name + "}") && '}' !in name
    ensures ReadStep(s, c) == Changes(c.(i := c.i + 4 + |name|, ts := c.ts.(family := name)))
  {
    FamilyNamed(s, c.i, name);
    var all := "/F{" + name + "}";
    assert s[c.i] == all[0] && s[c.i + 1] == all[1];
  }

  // The letters of families, and no others.
  lemma KnownFamilies(letter: char)
    ensures FontFamily(letter) == if letter in KNOWN then Some(KNOWN[letter]) else None
    ensures letter in KNOWN ==> letter !in {'/', '{', '}'}
  {
  }

  lemma KnownReads(s: string, c: Config, letter: char)
    requires c.i + 1 < |s| && s[c.i] == '/' && s[c.i + 1] == letter && letter in KNOWN
    ensures ReadStep(s, c) == Changes(c.(i := c.i + 2, ts := c.ts.(family := KNOWN[letter])))
  {
    KnownFamilies(letter);
  }

  lemma FamilyReads(s: string, c: Config, command: Command)
    requires WellFormed(command) && Follows(s, c.i, command) && (command.SetFamily? || command.SetKnownFamily?)
    ensures ReadsAs(s, c, command)
  {
    match command
    case SetFamily(name) =>
      NamedReads(s, c, name);
    case SetKnownFamily(letter, known) =>
      assert s[c.i] == Written(command)[0] && s[c.i + 1] == Written(command)[1];
      KnownReads(s, c, letter);
  }

  // `text` stands at i, and the character after it does not go on with a number.
  ghost predicate NumberEnds(s: string, i: nat, text: string)
  {
    StandsAt(s, i, text) && i + |text| < |s| && !GoesOnNumber(s[i + |text|])
  }

  // A number that stands after a front is read.
  lemma NumberStands(s: string, i: nat, front: string, text: string, number: int)
    requires IsNumber(text, number) && NumberEnds(s, i, front + text)
    ensures var k := i + |front|; NumberEnd(s, k) == k + |text| && s[k..k + |text|] == text
  {
    StandsWithin(s, i, front, text);
    var k := i + |front|;
    forall m | k <= m < k + |text|
      ensures IsDigit(s[m]) || s[m] == '-'
    {
      assert s[k + (m - k)] == text[m - k];
    }
    NumberRun(s, k, k + |text|);
  }

  lemma SizeReads(s: string, c: Config, text: string, size: int)
    requires IsNumber(text, size) && IsDigit(text[0]) && NumberEnds(s, c.i, "/" + text)
    ensures ReadStep(s, c) == Changes(c.(i := c.i + 1 + |text|, ts := c.ts.(size := size, lineHeight := size)))
  {
    NumberStands(s, c.i, "/", text, size);
    var all := "/" + text;
    assert s[c.i] == all[0] && s[c.i + 1] == all[1];
  }

  lemma HeightReads(s: string, c: Config, text: string, height: int)
    requires IsNumber(text, height) && NumberEnds(s, c.i, "/l" + text)
    ensures ReadStep(s, c) == Changes(c.(i := c.i + 2 + |text|, ts := c.ts.(lineHeight := height)))
  {
    NumberStands(s, c.i, "/l", text, height);
    var all := "/l" + text;
    assert s[c.i] == all[0] && s[c.i + 1] == all[1];
  }

  lemma AngleReads(s: string, c: Config, text: string, angle: int)
    requires IsNumber(text, angle) && NumberEnds(s, c.i, "/a" + text)
    ensures ReadStep(s, c) == Changes(c.(i := c.i + 2 + |text|, ts := c.ts.(angle := angle)))
  {
    NumberStands(s, c.i, "/a", text, angle);
    var all := "/a" + text;
    assert s[c.i] == all[0] && s[c.i + 1] == all[1];
  }

  lemma GrayReads(s: string, c: Config, text: string, level: real)
    requires IsLevel(text, level) && NumberEnds(s, c.i, "/c" + text)
    ensures ReadStep(s, c) == Recolours(c.(i := c.i + 2 + |text|, ts := c.ts.(colour := Gray(level))))
  {
    StandsWithin(s, c.i, "/c", text);
    var k := c.i + 2;
    forall m | k <= m < k + |text|
      ensures IsDigit(s[m]) || s[m] == '.'
    {
      assert s[k + (m - k)] == text[m - k];
    }
    FloatRun(s, k, k + |text|);
    var all := "/c" + text;
    assert s[c.i] == all[0] && s[c.i + 1] == all[1];
  }

  lemma NumbersRead(s: string, c: Config, command: Command)
    requires WellFormed(command) && Follows(s, c.i, command) && EndsWithNumber(command)
    ensures ReadsAs(s, c, command)
  {
    match command
    case SetSize(size) =>
      NumberRead(size);
      DigitsRead(size);
      SizeReads(s, c, Digits(size), size);
    case SetLineHeight(height) =>
      NumberRead(height);
      HeightReads(s, c, Number(height), height);
    case SetAngle(angle) =>
      NumberRead(angle);
      AngleReads(s, c, Number(angle), angle);
    case SetGray(whole, hundredths) =>
      GrayRead(whole, hundredths);
      GrayReads(s, c, GrayText(whole, hundredths), GrayLevel(whole, hundredths));
  }

  lemma LetterReads(s: string, c: Config, command: Command)
    requires WellFormed(command) && Follows(s, c.i, command)
    requires !EndsWithNumber(command) && !command.SetFamily? && !command.SetKnownFamily?
    ensures ReadsAs(s, c, command)
  {
    var text := Written(command);
    assert s[c.i] == text[0] && s[c.i + 1] == text[1] && (|text| == 3 ==> s[c.i + 2] == text[2]);
  }

  lemma StepSkips(s: string, c: Config)
    requires c.i < |s| && (ReadStep(s, c).Changes? || ReadStep(s, c).Recolours?)
    ensures NextSegment(s, c) == NextSegment(s, ReadStep(s, c).next)
  {
  }

  lemma CommandReads(s: string, c: Config, command: Command)
    requires WellFormed(command) && Follows(s, c.i, command)
    ensures ReadsAs(s, c, command)
  {
    if command.SetFamily? || command.SetKnownFamily? {
      FamilyReads(s, c, command);
    } else if EndsWithNumber(command) {
      NumbersRead(s, c, command);
    } else {
      LetterReads(s, c, command);
    }
  }

  // With nothing collected before it, the next segment is the one after the command.
  lemma CommandSkips(s: string, c: Config, command: Command)
    requires WellFormed(command) && Follows(s, c.i, command)
    ensures var next := c.(i := c.i + |Written(command)|, ts := Applied(command, c.ts));
            next.i <= |s| && NextSegment(s, c) == NextSegment(s, next)
  {
    CommandReads(s, c, command);
    StepSkips(s, c);
  }

  // The text that follows the commands does not go on with the number of the last one.
  ghost predicate Separated(commands: seq<Command>, text: string)
  {
    commands != [] && EndsWithNumber(commands[|commands| - 1]) ==> text != "" && !GoesOnNumber(text[0])
  }

  lemma StandsFirst(s: string, i: nat, first: string, rest: string)
    requires i <= |s| && s[i..] == first + rest
    ensures StandsAt(s, i, first) && i + |first| <= |s| && s[i + |first|..] == rest
    ensures rest != "" ==> i + |first| < |s| && s[i + |first|] == rest[0]
  {
    assert forall k :: 0 <= k < |first| ==> s[i + k] == s[i..][k];
    assert s[i + |first|..] == s[i..][|first|..];
  }

  lemma Joined<T>(a: seq<T>, b: seq<T>, c: seq<T>)
    ensures a + (b + c) == a + b + c
  {
  }

  // After a command comes another, or the text.
  lemma NextCharacter(commands: seq<Command>, text: string)
    requires text != ""
    ensures var rest := WrittenAll(commands) + Quoted(text);
            rest != "" && rest[0] == if commands == [] && text[0] !in "/{}" then text[0] else '/'
  {
  }

  lemma CommandFirst(s: string, c: Config, command: Command, others: seq<Command>, text: string)
    requires WellFormed(command) && text != "" && (others == [] && EndsWithNumber(command) ==> !GoesOnNumber(text[0]))
    requires c.i <= |s| && s[c.i..] == Written(command) + (WrittenAll(others) + Quoted(text))
    ensures var next := c.(i := c.i + |Written(command)|, ts := Applied(command, c.ts));
            next.i <= |s| && s[next.i..] == WrittenAll(others) + Quoted(text) && NextSegment(s, c) == NextSegment(s, next)
  {
    StandsFirst(s, c.i, Written(command), WrittenAll(others) + Quoted(text));
    NextCharacter(others, text);
    CommandSkips(s, c, command);
  }

  lemma NoCommandRead(s: string, c: Config, text: string)
    requires c.i <= |s| && s[c.i..] == WrittenAll([]) + Quoted(text) && text != ""
    ensures NextSegment(s, c) == Segment(c.ts, text, c.(i := |s|))
  {
    assert s[c.i..] == Quoted(text);
    QuotedReads(s, c, text);
  }

  lemma OneCommandRead(s: string, c: Config, commands: seq<Command>, text: string) returns (next: Config)
    requires AllWellFormed(commands) && commands != [] && text != "" && Separated(commands, text)
    requires c.i <= |s| && s[c.i..] == WrittenAll(commands) + Quoted(text)
    ensures next.i <= |s| && next.ts == Applied(commands[0], c.ts) && next.stack == c.stack
    ensures s[next.i..] == WrittenAll(commands[1..]) + Quoted(text) && NextSegment(s, c) == NextSegment(s, next)
    ensures AllWellFormed(commands[1..]) && Separated(commands[1..], text)
  {
    var command, others := commands[0], commands[1..];
    Joined(Written(command), WrittenAll(others), Quoted(text));
    CommandFirst(s, c, command, others, text);
    next := c.(i := c.i + |Written(command)|, ts := Applied(command, c.ts));
  }

  lemma {:induction false} CommandsRead(s: string, c: Config, commands: seq<Command>, text: string)
    requires AllWellFormed(commands) && text != "" && Separated(commands, text)
    requires c.i <= |s| && s[c.i..] == WrittenAll(commands) + Quoted(text)
    ensures var end := c.(i := |s|, ts := AppliedAll(commands, c.ts));
            NextSegment(s, c) == Segment(end.ts, text, end)
    decreases commands
  {
    if commands == [] {
      NoCommandRead(s, c, text);
    } else {
      var next := OneCommandRead(s, c, commands, text);
      CommandsRead(s, next, commands[1..], text);
    }
  }

  // Commands and a quoted text, from any state: one segment, in the state the commands give.
  lemma WrittenIsRead(commands: seq<Command>, text: string, ts: State)
    requires AllWellFormed(commands) && text != "" && Separated(commands, text)
    ensures var s, end := WrittenAll(commands) + QuoteMeta(text), AppliedAll(commands, ts);
            NextSegment(s, Config(0, ts, [])) == Segment(end, text, Config(|s|, end, []))
  {
    QuoteMetaIsQuoted(text);
    var s := WrittenAll(commands) + QuoteMeta(text);
    assert s[0..] == s;
    CommandsRead(s, Config(0, ts, []), commands, text);
  }

  // ------------------------------------------------------------------
  // Writing a state

  predicate Writable(ts: State)
  {
    && '}' !in ts.family && ts.size >= 0
    && ts.valign in {'B', 'T', 'M'} && ts.halign in {'L', 'R', 'C'}
    && forall k :: 0 <= k < |ts.modifiers| ==> ts.modifiers[k] in {'b', 'i', 'q'}
  }

  function ModifierText(modifiers: seq<char>): string
  {
    if modifiers == [] then ""
    else (if modifiers[0] == 'b' then "/b" else if modifiers[0] == 'i' then "/i" else "/o") + ModifierText(modifiers[1..])
  }

  // A text that sets everything but the colour.
  function StateText(ts: State): string
  {
    "/F{" + ts.family + "}" + ("/" + Number(ts.size) + ("/l" + Number(ts.lineHeight) + ("/a" + Number(ts.angle) +
    (ModifierText(ts.modifiers) + (['/', 'v', ts.valign] + ['/', 'h', ts.halign])))))
  }

  function ModifierCommands(modifiers: seq<char>): (commands: seq<Command>)
    ensures AllWellFormed(commands)
  {
    if modifiers == [] then []
    else [if modifiers[0] == 'b' then Bold else if modifiers[0] == 'i' then Italic else Oblique] + ModifierCommands(modifiers[1..])
  }

  lemma {:induction false} JoinTogether<T>(a: seq<T>, b: seq<T>, write: T -> string)
    ensures JoinAll(a + b, write) == JoinAll(a, write) + JoinAll(b, write)
  {
    if a == [] {
      assert a + b == b;
    } else {
      JoinTogether(a[1..], b, write);
      assert (a + b)[1..] == a[1..] + b;
      Joined(write(a[0]), JoinAll(a[1..], write), JoinAll(b, write));
    }
  }

  lemma {:induction false} AppliedTogether(a: seq<Command>, b: seq<Command>, ts: State)
    ensures AppliedAll(a + b, ts) == AppliedAll(b, AppliedAll(a, ts))
  {
    if a == [] {
      assert a + b == b;
    } else {
      AppliedTogether(a[1..], b, Applied(a[0], ts));
      assert (a + b)[1..] == a[1..] + b;
    }
  }

  lemma WellFormedTogether(a: seq<Command>, b: seq<Command>)
    requires AllWellFormed(a) && AllWellFormed(b)
    ensures AllWellFormed(a + b)
  {
  }

  // One command before others.
  lemma First(command: Command, others: seq<Command>, ts: State)
    ensures WrittenAll([command] + others) == Written(command) + WrittenAll(others)
    ensures AppliedAll([command] + others, ts) == AppliedAll(others, Applied(command, ts))
  {
    assert ([command] + others)[1..] == others;
  }

  lemma {:induction false} ModifiersWritten(modifiers: seq<char>, ts: State)
    requires forall k :: 0 <= k < |modifiers| ==> modifiers[k] in {'b', 'i', 'q'}
    ensures WrittenAll(ModifierCommands(modifiers)) == ModifierText(modifiers)
    ensures AppliedAll(ModifierCommands(modifiers), ts) == ts.(modifiers := ts.modifiers + modifiers)
  {
    if modifiers != [] {
      var after := ts.(modifiers := ts.modifiers + [modifiers[0]]);
      ModifiersWritten(modifiers[1..], after);
      assert ts.modifiers + modifiers == after.modifiers + modifiers[1..];
    }
  }

  function Alignment(goal: State): (commands: seq<Command>)
  {
    [SetVertical(goal.valign), SetHorizontal(goal.halign)]
  }

  lemma AlignmentWritten(goal: State, ts: State)
    ensures WrittenAll(Alignment(goal)) == ['/', 'v', goal.valign] + ['/', 'h', goal.halign]
    ensures AppliedAll(Alignment(goal), ts) == ts.(valign := goal.valign, halign := goal.halign)
  {
    First(SetVertical(goal.valign), [SetHorizontal(goal.halign)], ts);
    First(SetHorizontal(goal.halign), [], ts.(valign := goal.valign));
    assert [SetVertical(goal.valign)] + [SetHorizontal(goal.halign)] == Alignment(goal);
    assert [SetHorizontal(goal.halign)] + [] == [SetHorizontal(goal.halign)];
  }

  // The commands that give a state.
  function StateCommands(goal: State): seq<Command>
    requires goal.size >= 0
  {
    [SetFamily(goal.family)] + ([SetSize(goal.size)] + ([SetLineHeight(goal.lineHeight)] + ([SetAngle(goal.angle)] +
    (ModifierCommands(goal.modifiers) + Alignment(goal)))))
  }

  lemma StateWellFormed(goal: State)
    requires Writable(goal)
    ensures var commands := StateCommands(goal);
            AllWellFormed(commands) && commands != [] && commands[|commands| - 1] == SetHorizontal(goal.halign)
  {
    WellFormedTogether(ModifierCommands(goal.modifiers), Alignment(goal));
    var tail := ModifierCommands(goal.modifiers) + Alignment(goal);
    WellFormedTogether([SetAngle(goal.angle)], tail);
    WellFormedTogether([SetLineHeight(goal.lineHeight)], [SetAngle(goal.angle)] + tail);
    WellFormedTogether([SetSize(goal.size)], [SetLineHeight(goal.lineHeight)] + ([SetAngle(goal.angle)] + tail));
  }

  lemma StateWritten(goal: State, ts: State)
    requires Writable(goal) && ts.modifiers == [] && ts.colour == goal.colour
    ensures WrittenAll(StateCommands(goal)) == StateText(goal) && AppliedAll(StateCommands(goal), ts) == goal
  {
    var ts1 := ts.(family := goal.family);
    var ts2 := ts1.(size := goal.size, lineHeight := goal.size);
    var ts3 := ts2.(lineHeight := goal.lineHeight);
    var ts4 := ts3.(angle := goal.angle);
    var tail := ModifierCommands(goal.modifiers) + Alignment(goal);
    JoinTogether(ModifierCommands(goal.modifiers), Alignment(goal), Written);
    AppliedTogether(ModifierCommands(goal.modifiers), Alignment(goal), ts4);
    ModifiersWritten(goal.modifiers, ts4);
    AlignmentWritten(goal, ts4.(modifiers := goal.modifiers));
    assert ts4.(modifiers := ts4.modifiers + goal.modifiers, valign := goal.valign, halign := goal.halign) == goal;
    First(SetAngle(goal.angle), tail, ts3);
    var angled := [SetAngle(goal.angle)] + tail;
    First(SetLineHeight(goal.lineHeight), angled, ts2);
    var spaced := [SetLineHeight(goal.lineHeight)] + angled;
    First(SetSize(goal.size), spaced, ts1);
    First(SetFamily(goal.family), [SetSize(goal.size)] + spaced, ts);
  }

  // Any state can be written, and is read back, whatever the state before was but for its modifiers
  // and its colour.
  lemma StateIsRead(goal: State, ts: State, text: string)
    requires Writable(goal) && ts.modifiers == [] && ts.colour == goal.colour && text != ""
    ensures var s := StateText(goal) + QuoteMeta(text);
            NextSegment(s, Config(0, ts, [])) == Segment(goal, text, Config(|s|, goal, []))
  {
    StateWellFormed(goal);
    StateWritten(goal, ts);
    WrittenIsRead(StateCommands(goal), text, ts);
  }

  // ------------------------------------------------------------------
  // What is not a command fails

  lemma UnknownFails(s: string, c: Config)
    requires c.i + 1 < |s| && s[c.i] == '/' && !IsDigit(s[c.i + 1])
    requires s[c.i + 1] !in "/{}THCNBAPSFlbiocvha"
    ensures ReadStep(s, c).Fails?
  {
  }

  lemma UnmatchedFails(s: string, c: Config)
    requires c.i < |s| && s[c.i] == '}' && c.stack == []
    ensures ReadStep(s, c).Fails? && NextSegment(s, c).Error?
  {
  }

  lemma MalformedFails(s: string, c: Config)
    requires c.i < |s| && s[c.i] == '/'
    requires
      var ch := if c.i + 1 < |s| then s[c.i + 1] else ' ';
      var after := if c.i + 2 < |s| then s[c.i + 2] else ' ';
      || c.i + 1 == |s|
      || (ch == 'v' && after !in {'B', 'T', 'M'})
      || (ch == 'h' && after !in {'L', 'R', 'C'})
      || (ch == 'F' && (after != '{' || '}' !in s[c.i + 3..]))
      || (ch in {'l', 'a'} && !IsDigit(after) && after != '-')
      || (ch == 'c' && !IsDigit(after) && after != '.')
    ensures ReadStep(s, c).Fails?
  {
  }
}
