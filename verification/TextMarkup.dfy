/** The text markup of charts: what an escape does to the text state, the reader that cuts a
    text into segments of one state each, and the quoting that it undoes. */
module TextMarkup {
  import opened Wrappers

  datatype Colour = Preset | Gray(level: real)

  datatype State = State(family: string, modifiers: seq<char>, size: int, lineHeight: int, colour: Colour,
                         halign: char, valign: char, angle: int)

  // Where the reader is, the state in force there, and those to go back to.
  datatype Config = Config(i: nat, ts: State, stack: seq<State>)

  function FontFamily(ch: char): Option<string>
  {
    match ch
    case 'T' => Some("Times")
    case 'H' => Some("Helvetica")
    case 'C' => Some("Courier")
    case 'N' => Some("Helvetica-Narrow")
    case 'B' => Some("Bookman-Demi")
    case 'A' => Some("AvantGarde-Book")
    case 'P' => Some("Palatino")
    case 'S' => Some("Symbol")
    case _ => None
  }

  predicate IsDigit(c: char)
  {
    '0' <= c <= '9'
  }

  // Where a run of digits and minus signs ends.
  function NumberEnd(s: string, i: nat): (j: nat)
    requires i <= |s|
    ensures i <= j <= |s|
    decreases |s| - i
  {
    if i < |s| && (IsDigit(s[i]) || s[i] == '-') then NumberEnd(s, i + 1) else i
  }

  // int(text): None when it raises.
  function ToInt(text: string): Option<int>
  {
    if text != [] && text[0] == '-' then
      match ToNat(text[1..])
      case None => None
      case Some(n) => Some(-n)
    else ToNat(text)
  }

  function ToNat(text: string): Option<int>
  {
    if text == [] || !IsDigit(text[|text| - 1]) then None
    else
      var d := text[|text| - 1] as int - '0' as int;
      if |text| == 1 then Some(d)
      else match ToNat(text[..|text| - 1])
           case None => None
           case Some(n) => Some(10 * n + d)
  }

  // Where a run of digits and points ends. It must be followed by something: at the end of the
  // string the reader fails.
  function FloatEnd(s: string, i: nat): (j: nat)
    requires i <= |s|
    ensures i <= j <= |s|
    decreases |s| - i
  {
    if i < |s| && (IsDigit(s[i]) || s[i] == '.') then FloatEnd(s, i + 1) else i
  }

  // float(text) for digits and points: None when it raises.
  function ToFloat(text: string): Option<real>
  {
    var point := Find(text, '.', 0);
    if point == |text| then
      match ToNat(text)
      case None => None
      case Some(n) => Some(n as real)
    else Decimal(text[..point], text[point + 1..])
  }

  // The number with these digits before and after the point, some of which may be missing.
  function Decimal(whole: string, fraction: string): Option<real>
  {
    if (whole == "" && fraction == "") || (whole != "" && ToNat(whole) == None) || (fraction != "" && ToNat(fraction) == None)
    then None
    else
      Some((if whole == "" then 0.0 else ToNat(whole).value as real)
           + if fraction == "" then 0.0 else ToNat(fraction).value as real / Power10(|fraction|))
  }

  function Power10(n: nat): (r: real)
    ensures r >= 1.0
  {
    if n == 0 then 1.0 else 10.0 * Power10(n - 1)
  }

  // Where a character first stands, or the end of the string.
  function Find(s: string, c: char, i: nat): (j: nat)
    requires i <= |s|
    ensures i <= j <= |s| && (j < |s| ==> s[j] == c) && forall k :: i <= k < j ==> s[k] != c
    decreases |s| - i
  {
    if i < |s| && s[i] != c then Find(s, c, i + 1) else i
  }

  // What reading on does: show a character, open a brace, set the colour, change the state otherwise, or fail.
  datatype Step = Shows(c: char, next: Config) | Opens(next: Config) | Recolours(next: Config) | Changes(next: Config) | Fails

  // The escape whose letter stands at c.i.
  function Escape(s: string, c: Config): (r: Step)
    requires c.i <= |s|
    ensures !r.Fails? ==> c.i < r.next.i <= |s|
  {
    if c.i == |s| then Fails
    else
      var ch, ts := s[c.i], c.ts;
      var i := c.i + 1;
      var number := ToInt(s[i..NumberEnd(s, i)]);
      if ch == '/' || ch == '{' || ch == '}' then Shows(ch, c.(i := i))
      else if FontFamily(ch).Some? then Changes(c.(i := i, ts := ts.(family := FontFamily(ch).value)))
      else if ch == 'F' then
        if i == |s| || s[i] != '{' || Find(s, '}', i + 1) == |s| then Fails
        else
          var j := Find(s, '}', i + 1);
          Changes(c.(i := j + 1, ts := ts.(family := s[i + 1..j])))
      else if IsDigit(ch) then
        var size := ToInt(s[c.i..NumberEnd(s, c.i)]);
        if size == None then Fails
        else Changes(c.(i := NumberEnd(s, c.i), ts := ts.(size := size.value, lineHeight := size.value)))
      else if ch == 'l' then
        if number == None then Fails
        else Changes(c.(i := NumberEnd(s, i), ts := ts.(lineHeight := number.value)))
      else if ch == 'b' then Changes(c.(i := i, ts := ts.(modifiers := ts.modifiers + ['b'])))
      else if ch == 'i' then Changes(c.(i := i, ts := ts.(modifiers := ts.modifiers + ['i'])))
      else if ch == 'o' then Changes(c.(i := i, ts := ts.(modifiers := ts.modifiers + ['q'])))
      else if ch == 'c' then
        var j := FloatEnd(s, i);
        var level := ToFloat(s[i..j]);
        if j == |s| || level == None then Fails
        else Recolours(c.(i := j, ts := ts.(colour := Gray(level.value))))
      else if ch == 'v' then
        if i == |s| || s[i] !in "BTM" then Fails else Changes(c.(i := i + 1, ts := ts.(valign := s[i])))
      else if ch == 'h' then
        if i == |s| || s[i] !in "LRC" then Fails else Changes(c.(i := i + 1, ts := ts.(halign := s[i])))
      else if ch == 'a' then
        if number == None then Fails
        else Changes(c.(i := NumberEnd(s, i), ts := ts.(angle := number.value)))
      else Fails
  }

  // One step of reading.
  function ReadStep(s: string, c: Config): (r: Step)
    requires c.i < |s|
    ensures !r.Fails? ==> c.i < r.next.i <= |s|
  {
    if s[c.i] == '/' then Escape(s, c.(i := c.i + 1))
    else if s[c.i] == '{' then Opens(c.(i := c.i + 1, stack := c.stack + [c.ts]))
    else if s[c.i] == '}' then
      if c.stack == [] then Fails
      else Changes(Config(c.i + 1, c.stack[|c.stack| - 1], c.stack[..|c.stack| - 1]))
    else Shows(s[c.i], c.(i := c.i + 1))
  }

  // ------------------------------------------------------------------
  // What a text shows

  datatype Shown = Shown(c: char, state: State)

  // The characters shown, and where reading ends unless it fails.
  datatype Display = Display(out: seq<Shown>, end: Option<Config>)

  // Up to the next change of state: the characters shown, and how it ends. `before` is the
  // state just before the change.
  datatype Ending = AtEnd(next: Config) | AtChange(before: State, next: Config) | AtError

  function Stretch(s: string, c: Config): (r: (string, Ending))
    requires c.i <= |s|
    ensures r.1.AtEnd? ==> r.1.next.i == |s|
    ensures r.1.AtChange? ==> c.i < r.1.next.i <= |s|
    decreases |s| - c.i
  {
    if c.i == |s| then ("", AtEnd(c))
    else
      match ReadStep(s, c)
      case Shows(ch, next) => var (text, e) := Stretch(s, next); ([ch] + text, e)
      case Opens(next) => Stretch(s, next)
      case Recolours(next) => Stretch(s, next)
      case Changes(next) => ("", AtChange(c.ts, next))
      case Fails => ("", AtError)
  }

  // The colour when the stretch ends.
  function EndColour(s: string, c: Config): Colour
    requires c.i <= |s|
    decreases |s| - c.i
  {
    if c.i == |s| then c.ts.colour
    else
      var step := ReadStep(s, c);
      if step.Changes? || step.Fails? then c.ts.colour else EndColour(s, step.next)
  }

  // Each character under the state in force where it stands; when `late`, in the colour that
  // is in force where its stretch ends.
  function Scan(s: string, c: Config, late: bool): Display
    requires c.i <= |s|
    decreases |s| - c.i
  {
    if c.i == |s| then Display([], Some(c))
    else
      match ReadStep(s, c)
      case Shows(ch, next) =>
        var rest := Scan(s, next, late);
        Display([Shown(ch, if late then c.ts.(colour := EndColour(s, c)) else c.ts)] + rest.out, rest.end)
      case Opens(next) => Scan(s, next, late)
      case Recolours(next) => Scan(s, next, late)
      case Changes(next) => Scan(s, next, late)
      case Fails => Display([], None)
  }

  // ------------------------------------------------------------------
  // What the reader returns next

  datatype Next = Segment(state: State, text: string, next: Config) | NoMore(next: Config) | Error

  function NextSegment(s: string, c: Config): (r: Next)
    requires c.i <= |s|
    ensures r.Segment? ==> r.text != "" && c.i < r.next.i <= |s|
    ensures r.NoMore? ==> r.next.i == |s|
    decreases |s| - c.i
  {
    var (text, e) := Stretch(s, c);
    match e
    case AtError => Error
    case AtEnd(next) => if text == "" then NoMore(next) else Segment(next.ts, text, next)
    case AtChange(before, next) => if text == "" then NextSegment(s, next) else Segment(before, text, next)
  }

  function Under(state: State, text: string): seq<Shown>
  {
    if text == "" then [] else [Shown(text[0], state)] + Under(state, text[1..])
  }

  // From c on, the text of the stretch is shown under the state at its end.
  ghost predicate ShownAsStretch(s: string, c: Config)
    requires c.i <= |s|
  {
    var (text, e) := Stretch(s, c);
    var d, state := Scan(s, c, true), c.ts.(colour := EndColour(s, c));
    match e
    case AtError => d == Display(Under(state, text), None)
    case AtEnd(next) => next.ts == state && d == Display(Under(state, text), Some(next))
    case AtChange(before, next) => before == state && d == Display(Under(state, text) + Scan(s, next, true).out, Scan(s, next, true).end)
  }

  lemma UnderMore(state: State, c: char, text: string, out: seq<Shown>)
    ensures Under(state, [c] + text) == [Shown(c, state)] + Under(state, text)
    ensures Under(state, [c] + text) + out == [Shown(c, state)] + (Under(state, text) + out)
  {
    assert ([c] + text)[1..] == text;
  }

  lemma ShownOneMore(s: string, c: Config)
    requires c.i < |s| && ReadStep(s, c).Shows? && ShownAsStretch(s, ReadStep(s, c).next)
    ensures ShownAsStretch(s, c)
  {
    var step := ReadStep(s, c);
    EscapeKeeps(s, c);
    var (text, e) := Stretch(s, step.next);
    var state := c.ts.(colour := EndColour(s, c));
    UnderMore(state, step.c, text, if e.AtChange? then Scan(s, e.next, true).out else []);
  }

  // A stretch shows its text under the state at its end.
  lemma {:induction false} StretchShows(s: string, c: Config)
    requires c.i <= |s|
    ensures ShownAsStretch(s, c)
    decreases |s| - c.i
  {
    if c.i < |s| && !ReadStep(s, c).Fails? && !ReadStep(s, c).Changes? {
      StretchShows(s, ReadStep(s, c).next);
      if ReadStep(s, c).Shows? {
        ShownOneMore(s, c);
      } else {
        EscapeKeeps(s, c);
      }
    }
  }

  lemma EscapeKeeps(s: string, c: Config)
    requires c.i < |s|
    ensures var step := ReadStep(s, c);
            && (step.Shows? || step.Opens? ==> step.next.ts == c.ts)
            && (step.Recolours? ==> step.next.ts == c.ts.(colour := step.next.ts.colour))
  {
  }

  // What it returns is what the text shows next, in the colour at the end of the stretch.
  lemma {:induction false} NextShows(s: string, c: Config)
    requires c.i <= |s|
    ensures match NextSegment(s, c)
            case Error => Scan(s, c, true).end == None
            case NoMore(next) => Scan(s, c, true) == Display([], Some(next))
            case Segment(state, text, next) =>
              var rest := Scan(s, next, true);
              Scan(s, c, true) == Display(Under(state, text) + rest.out, rest.end)
    decreases |s| - c.i
  {
    StretchShows(s, c);
    var (text, e) := Stretch(s, c);
    if e.AtChange? && text == "" {
      NextShows(s, e.next);
      Regrouped(Under(e.before, text), [], Scan(s, e.next, true).out);
    }
    if e.AtEnd? {
      Regrouped(Under(e.next.ts, text), [], []);
    }
  }

  // The colour escape does not end a segment, so the characters before it take its colour:
  // every character has the colour in force where it stands exactly when none is followed, in
  // its stretch, by a colour that stays.
  predicate NoLateColour(s: string, c: Config)
    requires c.i <= |s|
    decreases |s| - c.i
  {
    c.i == |s| ||
    var step := ReadStep(s, c);
    step.Fails? || ((step.Shows? ==> EndColour(s, c) == c.ts.colour) && NoLateColour(s, step.next))
  }

  lemma {:induction false} LateColours(s: string, c: Config)
    requires c.i <= |s|
    ensures Scan(s, c, true) == Scan(s, c, false) <==> NoLateColour(s, c)
    ensures |Scan(s, c, true).out| == |Scan(s, c, false).out| && Scan(s, c, true).end == Scan(s, c, false).end
    decreases |s| - c.i
  {
    if c.i < |s| && !ReadStep(s, c).Fails? {
      var step := ReadStep(s, c);
      LateColours(s, step.next);
      if step.Shows? {
        var late, now := Scan(s, c, true).out, Scan(s, c, false).out;
        assert late[1..] == Scan(s, step.next, true).out && now[1..] == Scan(s, step.next, false).out;
        assert late == now ==> late[0] == now[0] && late[1..] == now[1..];
      }
    }
  }

  // So it is for a text without the colour escape.
  lemma {:induction false} NoColourEscape(s: string, c: Config)
    requires c.i <= |s| && forall k :: 0 <= k < |s| - 1 ==> s[k] != '/' || s[k + 1] != 'c'
    ensures NoLateColour(s, c) && EndColour(s, c) == c.ts.colour
    decreases |s| - c.i
  {
    if c.i < |s| && !ReadStep(s, c).Fails? {
      NoColourEscape(s, ReadStep(s, c).next);
    }
  }

  // A text it is not so for: the first letter is shown in gray.
  lemma ColourComesLate(ts: State)
    requires ts.colour == Preset
    ensures NextSegment("a/c1 b", Config(0, ts, [])) == Segment(ts.(colour := Gray(1.0)), "a b", Config(6, ts.(colour := Gray(1.0)), []))
  {
    var s, gray := "a/c1 b", ts.(colour := Gray(1.0));
    assert s[3..4] == "1";
    assert ReadStep(s, Config(1, ts, [])) == Recolours(Config(4, gray, []));
    assert Stretch(s, Config(6, gray, [])) == ("", AtEnd(Config(6, gray, [])));
    assert ReadStep(s, Config(5, gray, [])) == Shows('b', Config(6, gray, [])) && ['b'] + "" == "b";
    assert Stretch(s, Config(5, gray, [])) == ("b", AtEnd(Config(6, gray, [])));
    assert ReadStep(s, Config(4, gray, [])) == Shows(' ', Config(5, gray, [])) && [' '] + "b" == " b";
    assert Stretch(s, Config(4, gray, [])) == (" b", AtEnd(Config(6, gray, [])));
    assert Stretch(s, Config(1, ts, [])) == (" b", AtEnd(Config(6, gray, [])));
  }

  // What the reader returns when it has collected l already.
  ghost function NextAfter(s: string, l: string, c: Config): Next
    requires c.i <= |s|
  {
    var (text, e) := Stretch(s, c);
    match e
    case AtError => Error
    case AtEnd(next) => if l + text == "" then NoMore(next) else Segment(next.ts, l + text, next)
    case AtChange(before, next) => if l + text == "" then NextSegment(s, next) else Segment(before, l + text, next)
  }

  lemma NextAfterStep(s: string, l: string, c: Config)
    requires c.i <= |s|
    ensures NextAfter(s, "", c) == NextSegment(s, c)
    ensures c.i == |s| ==> NextAfter(s, l, c) == if l == "" then NoMore(c) else Segment(c.ts, l, c)
    ensures c.i < |s| ==>
              var step := ReadStep(s, c);
              && (step.Shows? ==> NextAfter(s, l, c) == NextAfter(s, l + [step.c], step.next))
              && (step.Opens? || step.Recolours? ==> NextAfter(s, l, c) == NextAfter(s, l, step.next))
              && (step.Changes? ==>
                    NextAfter(s, l, c) == if l == "" then NextSegment(s, step.next) else Segment(c.ts, l, step.next))
              && (step.Fails? ==> NextAfter(s, l, c) == Error)
  {
    var text := Stretch(s, c).0;
    assert "" + text == text && l + "" == l;
    if c.i < |s| {
      var step := ReadStep(s, c);
      if step.Shows? {
        assert l + ([step.c] + Stretch(s, step.next).0) == (l + [step.c]) + Stretch(s, step.next).0;
      }
    }
  }

  class TextIterator {
    const str: string
    var i: nat
    var ts: State
    var stack: seq<State>
    var oldState: State

    function Here(): Config
      reads this
    {
      Config(i, ts, stack)
    }

    constructor (str: string, ts: State)
      ensures this.str == str && Here() == Config(0, ts, [])
    {
      this.str, i, this.ts, stack, oldState := str, 0, ts, [], ts;
    }

    method ParseInt() returns (n: Option<int>)
      requires i <= |str|
      modifies this`i
      ensures i == NumberEnd(str, old(i)) && n == ToInt(str[old(i)..i])
    {
      var start := i;
      while i < |str| && (IsDigit(str[i]) || str[i] == '-')
        invariant start <= i <= |str| && NumberEnd(str, start) == NumberEnd(str, i)
      {
        i := i + 1;
      }
      n := ToInt(str[start..i]);
    }

    method ParseFloat() returns (x: Option<real>)
      requires i <= |str|
      modifies this`i
      ensures i == FloatEnd(str, old(i)) && x == if i == |str| then None else ToFloat(str[old(i)..i])
    {
      var start := i;
      while i < |str| && (IsDigit(str[i]) || str[i] == '.')
        invariant start <= i <= |str| && FloatEnd(str, start) == FloatEnd(str, i)
      {
        i := i + 1;
      }
      if i == |str| {
        return None;
      }
      x := ToFloat(str[start..i]);
    }

    // The family in /F{...}; false when a brace is missing.
    method ParseFamily() returns (ok: bool)
      requires i <= |str|
      modifies this`i, this`ts
      ensures var k := old(i);
              && (ok <==> k < |str| && str[k] == '{' && Find(str, '}', k + 1) < |str|)
              && (ok ==> i == Find(str, '}', k + 1) + 1 && ts == old(ts).(family := str[k + 1..Find(str, '}', k + 1)]))
    {
      if i == |str| || str[i] != '{' {
        return false;
      }
      i := i + 1;
      var start := i;
      while i < |str| && str[i] != '}'
        invariant start <= i <= |str| && Find(str, '}', start) == Find(str, '}', i) && ts == old(ts)
      {
        i := i + 1;
      }
      if i == |str| {
        return false;
      }
      ts := ts.(family := str[start..i]);
      i := i + 1;
      ok := true;
    }

    // The escape whose letter comes next: the character it shows, if any, and whether it
    // changes the state in a way that ends a segment.
    method TakeEscape() returns (ok: bool, shown: Option<char>, changed: bool)
      requires i <= |str|
      modifies this`i, this`ts
      ensures var step := Escape(str, old(Here()));
              && (ok <==> !step.Fails?)
              && (ok ==> Here() == step.next && changed == step.Changes? && !step.Opens?
                         && shown == if step.Shows? then Some(step.c) else None)
    {
      ok, shown, changed := false, None, false;
      if i == |str| {
        return;
      }
      var ch := str[i];
      i := i + 1;
      if ch == '/' || ch == '{' || ch == '}' {
        return true, Some(ch), false;
      } else if FontFamily(ch).Some? {
        ts := ts.(family := FontFamily(ch).value);
      } else if ch == 'F' {
        var family := ParseFamily();
        if !family {
          return;
        }
      } else if IsDigit(ch) {
        i := i - 1;
        var size := ParseInt();
        if size == None {
          return;
        }
        ts := ts.(size := size.value, lineHeight := size.value);
      } else if ch == 'l' {
        var height := ParseInt();
        if height == None {
          return;
        }
        ts := ts.(lineHeight := height.value);
      } else if ch == 'b' {
        ts := ts.(modifiers := ts.modifiers + ['b']);
      } else if ch == 'i' {
        ts := ts.(modifiers := ts.modifiers + ['i']);
      } else if ch == 'o' {
        ts := ts.(modifiers := ts.modifiers + ['q']);
      } else if ch == 'c' {
        var level := ParseFloat();
        if level == None {
          return;
        }
        ts := ts.(colour := Gray(level.value));
        return true, None, false;
      } else if ch == 'v' {
        if i == |str| || str[i] !in "BTM" {
          return;
        }
        ts := ts.(valign := str[i]);
        i := i + 1;
      } else if ch == 'h' {
        if i == |str| || str[i] !in "LRC" {
          return;
        }
        ts := ts.(halign := str[i]);
        i := i + 1;
      } else if ch == 'a' {
        var angle := ParseInt();
        if angle == None {
          return;
        }
        ts := ts.(angle := angle.value);
      } else {
        return;
      }
      ok, changed := true, true;
    }

    // One step of the loop: as for an escape.
    method Advance() returns (ok: bool, shown: Option<char>, changed: bool)
      requires i < |str| && oldState == ts
      modifies this
      ensures var step := ReadStep(str, old(Here()));
              && (ok <==> !step.Fails?)
              && (ok ==> Here() == step.next && changed == step.Changes? && oldState == old(ts)
                         && shown == if step.Shows? then Some(step.c) else None)
    {
      ok, shown, changed := true, None, false;
      if str[i] == '/' {
        i := i + 1;
        oldState := ts;
        ok, shown, changed := TakeEscape();
      } else if str[i] == '{' {
        stack := stack + [ts];
        i := i + 1;
      } else if str[i] == '}' {
        if stack == [] {
          return false, None, false;
        }
        ts, stack := stack[|stack| - 1], stack[..|stack| - 1];
        i := i + 1;
        changed := true;
      } else {
        shown := Some(str[i]);
        i := i + 1;
      }
    }

    // The next segment: Success(None) when there is none, Failure when reading raises.
    method Next() returns (r: Result<Option<(State, string)>, ()>)
      requires i <= |str|
      modifies this
      ensures match NextSegment(str, old(Here()))
              case Error => r.Failure?
              case NoMore(next) => r == Success(None) && Here() == next
              case Segment(state, text, next) => r == Success(Some((state, text))) && Here() == next
    {
      ghost var all := NextSegment(str, Here());
      var l := "";
      oldState := ts;
      NextAfterStep(str, "", Here());
      while i < |str|
        invariant i <= |str| && oldState == ts
        invariant NextAfter(str, l, Here()) == all
        decreases |str| - i
      {
        NextAfterStep(str, l, Here());
        var ok, shown, changed := Advance();
        if !ok {
          return Failure(());
        }
        if shown.Some? {
          l := l + [shown.value];
        }
        if changed && |l| > 0 {
          return Success(Some((oldState, l)));
        } else {
          // a change before the first character does not count
          oldState := ts;
        }
        NextAfterStep(str, l, Here());
      }
      NextAfterStep(str, l, Here());
      if |l| > 0 {
        return Success(Some((oldState, l)));
      }
      return Success(None);
    }

    // Segment after segment, as the users of a reader do: together they show the text.
    method ReadAll() returns (segments: seq<(State, string)>, ok: bool)
      requires i <= |str|
      modifies this
      ensures forall k :: 0 <= k < |segments| ==> segments[k].1 != ""
      ensures var d := Scan(str, old(Here()), true);
              if ok then d == Display(Flat(segments), Some(Here())) else d.end == None && Flat(segments) <= d.out
    {
      ghost var d := Scan(str, Here(), true);
      segments := [];
      while true
        invariant i <= |str| && forall k :: 0 <= k < |segments| ==> segments[k].1 != ""
        invariant ShownSoFar(str, d, segments, Here())
        decreases |str| - i
      {
        OneMoreShown(str, d, segments, Here());
        var r := Next();
        if r.Failure? {
          return segments, false;
        }
        if r.value == None {
          return segments, true;
        }
        segments := segments + [r.value.value];
      }
    }
  }

  function Flat(segments: seq<(State, string)>): seq<Shown>
  {
    if segments == [] then []
    else Flat(segments[..|segments| - 1]) + Under(segments[|segments| - 1].0, segments[|segments| - 1].1)
  }

  // Of what there is to show, the segments come first, and what is shown from c on follows.
  ghost predicate ShownSoFar(s: string, d: Display, segments: seq<(State, string)>, c: Config)
  {
    c.i <= |s| && d == Display(Flat(segments) + Scan(s, c, true).out, Scan(s, c, true).end)
  }

  lemma OneMoreShown(s: string, d: Display, segments: seq<(State, string)>, c: Config)
    requires ShownSoFar(s, d, segments, c)
    ensures var next := NextSegment(s, c);
            && (next.Error? ==> d.end == None && Flat(segments) <= d.out)
            && (next.NoMore? ==> d == Display(Flat(segments), Some(next.next)))
            && (next.Segment? ==> ShownSoFar(s, d, segments + [(next.state, next.text)], next.next))
  {
    NextShows(s, c);
    var next, shown := NextSegment(s, c), Flat(segments);
    Regrouped(shown, [], Scan(s, c, true).out);
    if next.Segment? {
      FlatOneMore(segments, (next.state, next.text));
      Regrouped(shown, Under(next.state, next.text), Scan(s, next.next, true).out);
    }
  }

  lemma Regrouped(a: seq<Shown>, b: seq<Shown>, c: seq<Shown>)
    ensures a + (b + c) == a + b + c && a + [] == a && a <= a + c && [] + c == c
  {
  }

  lemma FlatOneMore(segments: seq<(State, string)>, segment: (State, string))
    ensures Flat(segments + [segment]) == Flat(segments) + Under(segment.0, segment.1)
  {
    assert (segments + [segment])[..|segments|] == segments;
  }

  // ------------------------------------------------------------------
  // Braces

  // The state after n steps, none of which leaves fewer than `floor` states to go back to; None
  // when reading fails, ends or goes below.
  function Walk(s: string, c: Config, n: nat, floor: nat): (r: Option<Config>)
    requires c.i <= |s|
    ensures r.Some? ==> r.value.i <= |s|
    decreases n
  {
    if |c.stack| < floor then None
    else if n == 0 then Some(c)
    else if c.i == |s| || ReadStep(s, c).Fails? then None
    else Walk(s, ReadStep(s, c).next, n - 1, floor)
  }

  lemma {:induction false} WalkKeepsBelow(s: string, c: Config, n: nat, floor: nat)
    requires c.i <= |s| && Walk(s, c, n, floor).Some?
    ensures floor <= |c.stack| && floor <= |Walk(s, c, n, floor).value.stack|
    ensures Walk(s, c, n, floor).value.stack[..floor] == c.stack[..floor]
    decreases n
  {
    if n > 0 {
      var next := ReadStep(s, c).next;
      WalkKeepsBelow(s, next, n - 1, floor);
      StackStep(s, c, floor);
    }
  }

  lemma StackStep(s: string, c: Config, floor: nat)
    requires c.i < |s| && !ReadStep(s, c).Fails?
    requires floor <= |c.stack| && floor <= |ReadStep(s, c).next.stack|
    ensures ReadStep(s, c).next.stack[..floor] == c.stack[..floor]
  {
  }

  // Plain characters are walked over one by one.
  lemma {:induction false} PlainWalk(s: string, c: Config, n: nat, floor: nat)
    requires c.i + n <= |s| && floor <= |c.stack| && forall k :: c.i <= k < c.i + n ==> s[k] !in "/{}"
    ensures Walk(s, c, n, floor) == Some(c.(i := c.i + n))
    decreases n
  {
    if n > 0 {
      PlainWalk(s, c.(i := c.i + 1), n - 1, floor);
    }
  }

  // Whatever is between a brace and the one that matches it, the state after them is the state before.
  lemma BracesRestore(s: string, c: Config, n: nat)
    requires c.i < |s| && s[c.i] == '{'
    requires var within := ReadStep(s, c).next;
             var inner := Walk(s, within, n, |within.stack|);
             inner.Some? && |inner.value.stack| == |within.stack| && inner.value.i < |s| && s[inner.value.i] == '}'
    ensures var within := ReadStep(s, c).next;
            var inner := Walk(s, within, n, |within.stack|).value;
            ReadStep(s, inner) == Changes(Config(inner.i + 1, c.ts, c.stack))
  {
    var within := ReadStep(s, c).next;
    WalkKeepsBelow(s, within, n, |within.stack|);
    var inner := Walk(s, within, n, |within.stack|).value;
    assert inner.stack == within.stack == c.stack + [c.ts];
  }

  // ------------------------------------------------------------------
  // Quoting

  // re.sub of one character.
  function Sub(text: string, c: char, with: string): string
  {
    if text == "" then "" else (if text[0] == c then with else [text[0]]) + Sub(text[1..], c, with)
  }

  // quotemeta
  function QuoteMeta(text: string): string
  {
    Sub(Sub(Sub(text, '/', "//"), '{', "/{"), '}', "/}")
  }

  // Character by character.
  function Quoted(text: string): string
  {
    if text == "" then ""
    else (if text[0] in "/{}" then ['/', text[0]] else [text[0]]) + Quoted(text[1..])
  }

  lemma {:induction false} SubJoin(a: string, b: string, c: char, with: string)
    ensures Sub(a + b, c, with) == Sub(a, c, with) + Sub(b, c, with)
  {
    if a == "" {
      assert a + b == b;
    } else {
      assert (a + b)[1..] == a[1..] + b;
      SubJoin(a[1..], b, c, with);
    }
  }

  // The three passes do not disturb each other.
  lemma {:induction false} QuoteMetaIsQuoted(text: string)
    ensures QuoteMeta(text) == Quoted(text)
  {
    if text != "" {
      var first := if text[0] == '/' then "//" else [text[0]];
      var second := Sub(first, '{', "/{");
      QuoteMetaIsQuoted(text[1..]);
      SubJoin(first, Sub(text[1..], '/', "//"), '{', "/{");
      SubJoin(second, Sub(Sub(text[1..], '/', "//"), '{', "/{"), '}', "/}");
      assert |first| == 2 ==> first[1..] == "/";
      assert Sub(second, '}', "/}") == if text[0] in "/{}" then ['/', text[0]] else [text[0]];
    }
  }

  // Reading back the rest of a quoted text.
  lemma {:induction false} QuotedReads(q: string, c: Config, text: string)
    requires c.i <= |q| && q[c.i..] == Quoted(text)
    ensures Stretch(q, c) == (text, AtEnd(c.(i := |q|)))
    decreases |text|
  {
    if text == "" {
      assert c.i == |q|;
    } else {
      var k := if text[0] in "/{}" then 2 else 1;
      assert q[c.i] == q[c.i..][0] && (k == 2 ==> q[c.i + 1] == q[c.i..][1]);
      assert q[c.i + k..] == q[c.i..][k..] == Quoted(text[1..]);
      QuotedReads(q, c.(i := c.i + k), text[1..]);
      assert [text[0]] + text[1..] == text;
    }
  }

  // A quoted text is read as one segment: the text itself, in the state the reader starts with.
  lemma QuoteMetaRoundTrip(text: string, ts: State)
    requires text != ""
    ensures var q := QuoteMeta(text);
            NextSegment(q, Config(0, ts, [])) == Segment(ts, text, Config(|q|, ts, []))
  {
    var q := QuoteMeta(text);
    QuoteMetaIsQuoted(text);
    assert q[0..] == q;
    QuotedReads(q, Config(0, ts, []), text);
  }

  // ------------------------------------------------------------------
  // Fonts

  // The font name in the first field of a segment.
  function FontName(ts: State): string
  {
    if ts.modifiers != [] then
      var bold := 'b' in ts.modifiers;
      ts.family + (if bold then "-Bold" else "") +
      (if 'o' in ts.modifiers then (if bold then "" else "-") + "Oblique"
       else if 'i' in ts.modifiers then (if bold then "" else "-") + "Italic"
       else "")
    else if ts.family in ["Palatino", "Times", "NewCenturySchlbk"] then ts.family + "-Roman"
    else ts.family
  }

  // The font of each combination of modifiers.
  lemma FontNames(ts: State)
    ensures var bold, italic, oblique := 'b' in ts.modifiers, 'i' in ts.modifiers, 'o' in ts.modifiers;
            && (bold && oblique ==> FontName(ts) == ts.family + "-BoldOblique")
            && (!bold && oblique ==> FontName(ts) == ts.family + "-Oblique")
            && (bold && italic && !oblique ==> FontName(ts) == ts.family + "-BoldItalic")
            && (!bold && italic && !oblique ==> FontName(ts) == ts.family + "-Italic")
            && (bold && !italic && !oblique ==> FontName(ts) == ts.family + "-Bold")
            && (!bold && !italic && !oblique && ts.modifiers != [] ==> FontName(ts) == ts.family)
            && (ts.modifiers == [] ==>
                  FontName(ts) == ts.family + if ts.family in {"Palatino", "Times", "NewCenturySchlbk"} then "-Roman" else "")
  {
    assert ts.family + "-Bold" + ("" + "Oblique") == ts.family + "-BoldOblique";
    assert ts.family + "" + ("-" + "Oblique") == ts.family + "-Oblique";
    assert ts.family + "-Bold" + ("" + "Italic") == ts.family + "-BoldItalic";
    assert ts.family + "" + ("-" + "Italic") == ts.family + "-Italic";
    assert ts.family + "-Bold" + "" == ts.family + "-Bold" && ts.family + "" + "" == ts.family;
  }

  // The oblique escape adds a 'q', so no text is shown in an oblique font: the font named is the
  // family itself, or that with one of four endings.
  ghost predicate NotOblique(ts: State)
  {
    FontName(ts) in {ts.family, ts.family + "-Roman", ts.family + "-Bold", ts.family + "-BoldItalic", ts.family + "-Italic"}
  }

  lemma {:induction false} NeverOblique(s: string, c: Config, late: bool)
    requires c.i <= |s| && 'o' !in c.ts.modifiers && forall k :: 0 <= k < |c.stack| ==> 'o' !in c.stack[k].modifiers
    ensures forall k :: 0 <= k < |Scan(s, c, late).out| ==> NotOblique(Scan(s, c, late).out[k].state)
    decreases |s| - c.i
  {
    if c.i < |s| && !ReadStep(s, c).Fails? {
      NeverOblique(s, ReadStep(s, c).next, late);
      if ReadStep(s, c).Shows? {
        var shown := if late then c.ts.(colour := EndColour(s, c)) else c.ts;
        PlainFont(shown);
      }
    }
  }

  lemma PlainFont(ts: State)
    requires 'o' !in ts.modifiers
    ensures NotOblique(ts)
  {
    assert ts.family + "" + "" == ts.family && ts.family + "-Bold" + "" == ts.family + "-Bold";
    assert ts.family + "-Bold" + ("" + "Italic") == ts.family + "-BoldItalic";
    assert ts.family + "" + ("-" + "Italic") == ts.family + "-Italic";
  }
}
