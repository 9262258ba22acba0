/** ZyloFiles as programs: printing one and parsing the text gives back its meaning. */
module Grammar {
  import opened Text
  import opened Wrappers

  import opened Environment
  import Global

  datatype Instruction =
    | UseImage(image: string) | Name(name: string) | SetWorkdir(dir: string) | Copy(dirs: string)
    | Network(network: string) | Execute(command: string) | Volume(dirs: string) | SetEnv(key: string, val: string)
    | OpenPort(mapping: string) | StartWith(list: string)

  function Keyword(i: Instruction): string {
    match i
    case UseImage(_) => "USE_IMAGE"
    case Name(_) => "NAME"
    case SetWorkdir(_) => "SET_WORKDIR"
    case Copy(_) => "COPY"
    case Network(_) => "NETWORK"
    case Execute(_) => "EXECUTE"
    case Volume(_) => "VOLUME"
    case SetEnv(_, _) => "SET_ENV"
    case OpenPort(_) => "OPEN_PORT"
    case StartWith(_) => "START_WITH"
  }

  function Argument(i: Instruction): string {
    match i
    case UseImage(image) => image
    case Name(name) => name
    case SetWorkdir(dir) => dir
    case Copy(dirs) => dirs
    case Network(network) => network
    case Execute(command) => command
    case Volume(dirs) => dirs
    case SetEnv(key, val) => key + [':'] + val
    case OpenPort(mapping) => mapping
    case StartWith(list) => list
  }

  /** What an instruction means, or nothing when it is refused. */
  function Meaning(c: Config, i: Instruction, outside: Outside): Option<Config> {
    match i
    case UseImage(image) => Some(c.(image := image))
    case Name(name) => Some(c.(name := name))
    case SetWorkdir(_) => Some(c)
    case Copy(_) => Some(c)
    case Network(network) => if network == Global.MAIN_NET then None else Some(c.(network := network))
    case Execute(command) => Some(c.(commands := c.commands + [command]))
    case Volume(dirs) => if outside.volumeOk(dirs) then Some(c) else None
    case SetEnv(key, val) => Some(c.(env := c.env[key := val]))
    case OpenPort(mapping) => Some(c.(ports := c.ports + [mapping]))
    case StartWith(list) =>
      match outside.json(list) case None => None case Some(commands) => Some(c.(commands := commands))
  }

  const KEYWORDS := ["USE_IMAGE", "NAME", "SET_WORKDIR", "COPY", "NETWORK", "EXECUTE", "VOLUME", "SET_ENV", "OPEN_PORT",
                     "START_WITH"]

  /** A line of a ZyloFile, with its spaces. */
  datatype Line =
    | Blank(spaces: string)
    | Comment(indent: string, text: string)
    | Does(indent: string, instruction: Instruction, gap: string, trail: string)
    | Unknown(indent: string, text: string, trail: string)

  /** An instruction without the spaces around it. */
  function Core(i: Instruction, gap: string): string {
    Keyword(i) + [' '] + (gap + Argument(i))
  }

  function Printed(line: Line): string {
    match line
    case Blank(spaces) => spaces
    case Comment(indent, text) => indent + "!!" + text
    case Does(indent, i, gap, trail) => indent + Core(i, gap) + trail
    case Unknown(indent, text, trail) => indent + text + trail
  }

  /** Blank lines and comments mean nothing, and an unknown line is refused. */
  function LineMeaning(c: Config, line: Line, outside: Outside): Option<Config> {
    match line
    case Blank(_) => Some(c)
    case Comment(_, _) => Some(c)
    case Does(_, i, _, _) => Meaning(c, i, outside)
    case Unknown(_, _, _) => None
  }

  /** Each line in turn, until one is refused. */
  function MeaningOfAll(program: seq<Line>, outside: Outside): Option<Config> {
    if program == [] then Some(EMPTY)
    else match MeaningOfAll(program[..|program| - 1], outside)
      case None => None
      case Some(c) => LineMeaning(c, program[|program| - 1], outside)
  }

  /** Each line ended by a newline. */
  function Ended(lines: seq<string>): string {
    if lines == [] then "" else lines[0] + ['\n'] + Ended(lines[1..])
  }

  predicate Spaces(s: string) {
    forall c | c in s :: IsSpace(c)
  }

  /** Not empty, and without a space at either end. */
  predicate Trimmed(s: string) {
    s != "" && !IsSpace(s[0]) && !IsSpace(s[|s| - 1])
  }

  /** No argument, no known instruction, or no colon where one is needed. */
  predicate Refused(text: string) {
    var i := IndexOf(text, ' ');
    i == |text| || text[..i] !in KEYWORDS || (text[..i] == "SET_ENV" && ':' !in text)
  }

  /** An argument is trimmed and a key holds no colon; every line is shorter than the scanner's limit. */
  predicate Printable(line: Line) {
    && OneLine(Printed(line)) && |Printed(line)| < MAX_LINE
    && match line
       case Blank(spaces) => Spaces(spaces)
       case Comment(indent, _) => Spaces(indent)
       case Does(indent, i, gap, trail) =>
         Spaces(indent) && Spaces(gap) && Spaces(trail) && Trimmed(Argument(i)) && (i.SetEnv? ==> ':' !in i.key)
       case Unknown(indent, text, trail) =>
         && Spaces(indent) && Spaces(trail) && Trimmed(text) && !HasPrefix(text, "!!")
         && Refused(text)
  }

  predicate AllPrintable(program: seq<Line>) {
    forall line | line in program :: Printable(line)
  }

  // ---------- Lines of a text ----------

  lemma FirstRawLine(line: string, rest: string)
    requires OneLine(line)
    ensures RawLines(line + ['\n'] + rest) == [line] + RawLines(rest)
  {
    var text := line + ['\n'] + rest;
    IndexOfAppend(line, rest, '\n');
    assert text[..|line|] == line && text[|line| + 1..] == rest;
  }

  lemma FirstAndRest(lines: seq<string>, more: seq<string>)
    requires lines != []
    ensures [lines[0]] + (lines[1..] + more) == lines + more
  {
  }

  /** No line of a text is lost, and none is added: also an unended last line counts, unless it is empty. */
  lemma {:induction false} RawLinesOfEnded(lines: seq<string>, last: string)
    requires (forall l | l in lines :: OneLine(l)) && OneLine(last)
    ensures RawLines(Ended(lines) + last) == lines + if last == "" then [] else [last]
  {
    if lines == [] {
      assert Ended(lines) + last == last;
      assert RawLines(last) == if last == "" then [] else [last];
    } else {
      assert lines[0] in lines;
      RawLinesOfEnded(lines[1..], last);
      FirstRawLine(lines[0], Ended(lines[1..]) + last);
      assert Ended(lines) + last == lines[0] + ['\n'] + (Ended(lines[1..]) + last);
      FirstAndRest(lines, if last == "" then [] else [last]);
    }
  }

  // ---------- Trimming ----------

  lemma OneMoreSpace(c: char, front: string, middle: string, back: string)
    requires IsSpace(c) && Spaces(front) && Spaces(back)
    ensures Spaces([c] + front) && Spaces(back + [c])
    ensures [c] + (front + middle + back) == [c] + front + middle + back
    ensures front + middle + back + [c] == front + middle + (back + [c])
  {
  }

  /** A text is trimmed of spaces at both ends. */
  lemma {:induction false} TrimmedOfSpaces(s: string) returns (front: string, back: string)
    ensures s == front + TrimSpace(s) + back && Spaces(front) && Spaces(back)
    decreases |s|
  {
    front, back := "", "";
    if s != "" {
      if IsSpace(s[0]) {
        front, back := TrimmedOfSpaces(s[1..]);
        OneMoreSpace(s[0], front, TrimSpace(s[1..]), back);
        front := [s[0]] + front;
      } else if IsSpace(s[|s| - 1]) {
        front, back := TrimmedOfSpaces(s[..|s| - 1]);
        OneMoreSpace(s[|s| - 1], front, TrimSpace(s[..|s| - 1]), back);
        back := back + [s[|s| - 1]];
      }
    }
  }

  lemma {:induction false} TrimSpaceTrims(s: string)
    ensures TrimSpace(s) == "" || Trimmed(TrimSpace(s))
    decreases |s|
  {
    if s != "" {
      if IsSpace(s[0]) {
        TrimSpaceTrims(s[1..]);
      } else if IsSpace(s[|s| - 1]) {
        TrimSpaceTrims(s[..|s| - 1]);
      }
    }
  }

  lemma {:induction false} TrimIndent(indent: string, s: string)
    requires Spaces(indent)
    ensures TrimSpace(indent + s) == TrimSpace(s)
  {
    if indent == "" {
      assert indent + s == s;
    } else {
      TrimIndent(indent[1..], s);
      assert (indent + s)[1..] == indent[1..] + s;
    }
  }

  lemma {:induction false} TrimTrail(s: string, trail: string)
    requires Trimmed(s) && Spaces(trail)
    ensures TrimSpace(s + trail) == s
    decreases |trail|
  {
    if trail == "" {
      assert s + trail == s;
    } else {
      TrimTrail(s, trail[..|trail| - 1]);
      assert (s + trail)[..|s + trail| - 1] == s + trail[..|trail| - 1];
    }
  }

  /** Trimming finds the trimmed text between the spaces. */
  lemma TrimBoth(indent: string, s: string, trail: string)
    requires Spaces(indent) && Trimmed(s) && Spaces(trail)
    ensures TrimSpace(indent + s + trail) == s
  {
    TrimIndent(indent, s + trail);
    TrimTrail(s, trail);
    assert indent + s + trail == indent + (s + trail);
  }

  /** A carriage return at the end of a line is one of its spaces. */
  lemma DropCRInTrail(line: string, trail: string)
    requires line != "" && !IsSpace(line[|line| - 1]) && Spaces(trail)
    ensures exists rest :: Spaces(rest) && DropCR(line + trail) == line + rest
  {
    var all := line + trail;
    if trail != "" && trail[|trail| - 1] == '\r' {
      assert DropCR(all) == line + trail[..|trail| - 1];
    } else {
      assert DropCR(all) == all;
    }
  }

  lemma ReadsTrimmed(indent: string, s: string, trail: string)
    requires Spaces(indent) && Trimmed(s) && Spaces(trail)
    ensures TrimSpace(DropCR(indent + s + trail)) == s
  {
    assert (indent + s)[|indent + s| - 1] == s[|s| - 1];
    DropCRInTrail(indent + s, trail);
    var rest :| Spaces(rest) && DropCR(indent + s + trail) == indent + s + rest;
    TrimBoth(indent, s, rest);
  }

  lemma ReadsBlank(spaces: string)
    requires Spaces(spaces)
    ensures TrimSpace(DropCR(spaces)) == ""
  {
    assert TrimSpace(DropCR(spaces)) == "" by {
      TrimIndent(DropCR(spaces), "");
      assert DropCR(spaces) + "" == DropCR(spaces);
    }
  }

  /** Trimming stops at the first character that is no space. */
  lemma {:induction false} TrimKeepsStart(s: string)
    requires HasPrefix(s, "!!")
    ensures HasPrefix(TrimSpace(s), "!!")
    decreases |s|
  {
    assert s[0] == '!' && s[1] == '!';
    if IsSpace(s[|s| - 1]) {
      assert s[..|s| - 1][..2] == s[..2];
      TrimKeepsStart(s[..|s| - 1]);
    }
  }

  lemma ReadsComment(indent: string, text: string)
    requires Spaces(indent)
    ensures HasPrefix(TrimSpace(DropCR(indent + "!!" + text)), "!!")
  {
    var all := indent + "!!" + text;
    var rest := if text != "" && text[|text| - 1] == '\r' then text[..|text| - 1] else text;
    assert DropCR(all) == indent + ("!!" + rest);
    TrimIndent(indent, "!!" + rest);
    TrimKeepsStart("!!" + rest);
  }

  // ---------- Reading an instruction ----------

  lemma KeyValueOf(key: string, val: string)
    requires ':' !in key
    ensures KeyValue(key + [':'] + val) == Some((key, val))
  {
    var arg := key + [':'] + val;
    IndexOfAppend(key, val, ':');
    assert arg[..|key|] == key && arg[|key| + 1..] == val;
  }

  lemma KeywordIsWord(i: Instruction)
    ensures ' ' !in Keyword(i) && Keyword(i) != "" && OneLine(Keyword(i))
  {
  }

  lemma KeywordStarts(i: Instruction)
    ensures Keyword(i) != "" && 'A' <= Keyword(i)[0] <= 'Z'
  {
  }

  lemma SetEnvKeyword(c: Config, i: Instruction, outside: Outside)
    requires i.SetEnv? && ':' !in i.key
    ensures Instruct(c, Keyword(i), Argument(i), outside) == Meaning(c, i, outside)
  {
    KeyValueOf(i.key, i.val);
  }

  lemma KeywordMeans(c: Config, i: Instruction, outside: Outside)
    requires i.SetEnv? ==> ':' !in i.key
    ensures Instruct(c, Keyword(i), Argument(i), outside) == Meaning(c, i, outside)
  {
    if i.SetEnv? {
      SetEnvKeyword(c, i, outside);
    } else if i.Execute? || i.Volume? || i.OpenPort? || i.StartWith? {
      assert Instruct(c, Keyword(i), Argument(i), outside) == Meaning(c, i, outside);
    } else {
      assert Instruct(c, Keyword(i), Argument(i), outside) == Meaning(c, i, outside);
    }
  }

  lemma CoreIsTrimmed(i: Instruction, gap: string)
    requires Trimmed(Argument(i))
    ensures Trimmed(Core(i, gap)) && !Skipped(Core(i, gap))
  {
    KeywordStarts(i);
    var core := Core(i, gap);
    assert core[0] == Keyword(i)[0];
    assert core[|core| - 1] == Argument(i)[|Argument(i)| - 1];
  }

  /** A line is taken apart at its first space. */
  lemma TakenApart(keyword: string, gap: string, arg: string)
    requires ' ' !in keyword && Spaces(gap) && Trimmed(arg)
    ensures var line := keyword + [' '] + (gap + arg);
            var i := IndexOf(line, ' ');
            i < |line| && line[..i] == keyword && TrimSpace(line[i + 1..]) == arg
  {
    var line := keyword + [' '] + (gap + arg);
    IndexOfAppend(keyword, gap + arg, ' ');
    assert line[..|keyword|] == keyword && line[|keyword| + 1..] == gap + arg;
    TrimBoth(gap, arg, "");
    assert gap + arg + "" == gap + arg;
  }

  lemma ParseCore(c: Config, i: Instruction, gap: string, outside: Outside)
    requires Spaces(gap) && Trimmed(Argument(i)) && (i.SetEnv? ==> ':' !in i.key)
    ensures ParseLine(c, Core(i, gap), outside) == Meaning(c, i, outside)
  {
    KeywordIsWord(i);
    TakenApart(Keyword(i), gap, Argument(i));
    KeywordMeans(c, i, outside);
  }

  lemma ParseUnknown(c: Config, text: string, outside: Outside)
    requires Refused(text)
    ensures ParseLine(c, text, outside) == None
  {
    var i := IndexOf(text, ' ');
    if i < |text| {
      var arg := TrimSpace(text[i + 1..]);
      if text[..i] !in KEYWORDS {
        assert Instruct(c, text[..i], arg, outside) == None;
      } else {
        assert Instruct(c, "SET_ENV", arg, outside) == None;
      }
    }
  }

  // ---------- Programs ----------

  lemma ParsePrintedLine(c: Config, line: Line, outside: Outside)
    requires Printable(line)
    ensures ParseRaw(c, Printed(line), outside) == LineMeaning(c, line, outside)
  {
    match line
    case Blank(spaces) => ReadsBlank(spaces);
    case Comment(indent, text) => ReadsComment(indent, text);
    case Does(indent, i, gap, trail) =>
      CoreIsTrimmed(i, gap);
      ReadsTrimmed(indent, Core(i, gap), trail);
      ParseCore(c, i, gap, outside);
    case Unknown(indent, text, trail) =>
      ReadsTrimmed(indent, text, trail);
      ParseUnknown(c, text, outside);
  }

  function Lines(program: seq<Line>): (lines: seq<string>)
    ensures |lines| == |program| && forall k | 0 <= k < |program| :: lines[k] == Printed(program[k])
  {
    seq(|program|, k requires 0 <= k < |program| => Printed(program[k]))
  }

  lemma OneMoreLine(front: seq<Line>, last: Line)
    ensures Lines(front + [last]) == Lines(front) + [Printed(last)]
    ensures AllPrintable(front) && Printable(last) ==> AllPrintable(front + [last])
  {
  }

  lemma {:induction false} ParseLinesPrinted(program: seq<Line>, outside: Outside)
    requires AllPrintable(program)
    ensures ParseLines(Lines(program), outside) == MeaningOfAll(program, outside)
  {
    if program != [] {
      var front, last := program[..|program| - 1], program[|program| - 1];
      ParseLinesPrinted(front, outside);
      assert Lines(program)[..|program| - 1] == Lines(front);
      assert last in program;
      if MeaningOfAll(front, outside).Some? {
        ParsePrintedLine(MeaningOfAll(front, outside).value, last, outside);
      }
    }
  }

  lemma PrintedIsOneLine(program: seq<Line>)
    requires AllPrintable(program)
    ensures forall l | l in Lines(program) :: OneLine(l)
  {
    forall l | l in Lines(program)
      ensures OneLine(l)
    {
      var k :| 0 <= k < |program| && Lines(program)[k] == l;
      assert Printable(program[k]);
    }
  }

  /** Parsing the text of a printed program gives its meaning, with or without a newline after the last line: no line is
   *  lost, every argument reaches its own field, and an error comes from a refused line only. */
  lemma ParsePrintedProgram(program: seq<Line>, last: Line, outside: Outside)
    requires Printable(last) && Printed(last) != "" && AllPrintable(program)
    ensures Parse(Ended(Lines(program)), outside) == MeaningOfAll(program, outside)
    ensures Parse(Ended(Lines(program)) + Printed(last), outside) == MeaningOfAll(program + [last], outside)
  {
    PrintedIsOneLine(program);
    RawLinesOfEnded(Lines(program), "");
    assert Ended(Lines(program)) + "" == Ended(Lines(program));
    assert Lines(program) + [] == Lines(program);
    ParseLinesPrinted(program, outside);
    RawLinesOfEnded(Lines(program), Printed(last));
    ParseLinesPrinted(program + [last], outside);
    OneMoreLine(program, last);
  }

  // ---------- Every text is a program ----------

  function InstructionOf(keyword: string, arg: string): Instruction {
    if keyword == "USE_IMAGE" then UseImage(arg)
    else if keyword == "NAME" then Name(arg)
    else if keyword == "SET_WORKDIR" then SetWorkdir(arg)
    else if keyword == "COPY" then Copy(arg)
    else if keyword == "NETWORK" then Network(arg)
    else if keyword == "EXECUTE" then Execute(arg)
    else if keyword == "VOLUME" then Volume(arg)
    else if keyword == "OPEN_PORT" then OpenPort(arg)
    else if keyword == "START_WITH" then StartWith(arg)
    else var i := IndexOf(arg, ':'); SetEnv(arg[..i], if i < |arg| then arg[i + 1..] else "")
  }

  lemma InstructionIsPrinted(keyword: string, arg: string)
    requires keyword in KEYWORDS && (keyword == "SET_ENV" ==> ':' in arg)
    ensures var i := InstructionOf(keyword, arg);
            Keyword(i) == keyword && Argument(i) == arg && (i.SetEnv? ==> ':' !in i.key)
  {
    if keyword == "SET_ENV" {
      var i := IndexOf(arg, ':');
      assert i < |arg| && arg == arg[..i] + [':'] + arg[i + 1..];
    }
  }

  lemma {:induction false} GapBefore(rest: string) returns (gap: string)
    requires rest != "" && !IsSpace(rest[|rest| - 1])
    ensures Spaces(gap) && rest == gap + TrimSpace(rest) && Trimmed(TrimSpace(rest))
  {
    gap := "";
    if IsSpace(rest[0]) {
      gap := GapBefore(rest[1..]);
      gap := [rest[0]] + gap;
    }
  }

  lemma AfterFirstSpace(text: string) returns (rest: string)
    requires Trimmed(text) && IndexOf(text, ' ') < |text|
    ensures text == text[..IndexOf(text, ' ')] + [' '] + rest
    ensures rest != "" && !IsSpace(rest[|rest| - 1])
  {
    var i := IndexOf(text, ' ');
    assert text[i] == ' ' && IsSpace(' ');
    rest := text[i + 1..];
  }

  /** What follows the first space of a trimmed text: spaces, and a trimmed argument. */
  lemma GapAndArgument(text: string) returns (gap: string, arg: string)
    requires Trimmed(text) && IndexOf(text, ' ') < |text|
    ensures text == text[..IndexOf(text, ' ')] + [' '] + (gap + arg) && Spaces(gap) && Trimmed(arg)
  {
    var rest := AfterFirstSpace(text);
    gap := GapBefore(rest);
    arg := TrimSpace(rest);
  }

  lemma TrimmedLine(indent: string, text: string, trail: string) returns (line: Line)
    requires Spaces(indent) && Trimmed(text) && !HasPrefix(text, "!!") && Spaces(trail)
    requires OneLine(indent + text + trail) && |indent + text + trail| < MAX_LINE
    ensures Printable(line) && Printed(line) == indent + text + trail
  {
    if Refused(text) {
      line := Unknown(indent, text, trail);
    } else {
      var gap, arg := GapAndArgument(text);
      var keyword := text[..IndexOf(text, ' ')];
      assert keyword == "SET_ENV" && ':' !in arg ==> ':' !in text;
      InstructionIsPrinted(keyword, arg);
      line := Does(indent, InstructionOf(keyword, arg), gap, trail);
    }
  }

  /** Every line that the scanner accepts is a line of the grammar. */
  lemma EveryLineIsPrinted(raw: string) returns (line: Line)
    requires OneLine(raw) && |raw| < MAX_LINE
    ensures Printable(line) && Printed(line) == raw
  {
    var indent, trail := TrimmedOfSpaces(raw);
    var text := TrimSpace(raw);
    TrimSpaceTrims(raw);
    if text == "" {
      line := Blank(raw);
    } else if HasPrefix(text, "!!") {
      line := Comment(indent, text[2..] + trail);
      assert text == "!!" + text[2..];
    } else {
      line := TrimmedLine(indent, text, trail);
    }
  }

  predicate Scanned(raws: seq<string>) {
    forall raw | raw in raws :: OneLine(raw) && |raw| < MAX_LINE
  }

  lemma LastScanned(raws: seq<string>) returns (front: seq<string>, last: string)
    requires Scanned(raws) && raws != []
    ensures raws == front + [last] && Scanned(front) && OneLine(last) && |last| < MAX_LINE
  {
    front, last := raws[..|raws| - 1], raws[|raws| - 1];
    assert last in raws;
  }

  lemma {:induction false} LinesArePrinted(raws: seq<string>) returns (program: seq<Line>)
    requires Scanned(raws)
    ensures AllPrintable(program) && Lines(program) == raws
    decreases |raws|
  {
    program := [];
    if raws != [] {
      var front, last := LastScanned(raws);
      program := LinesArePrinted(front);
      var line := EveryLineIsPrinted(last);
      OneMoreLine(program, line);
      program := program + [line];
    }
  }

  /** So every text whose lines the scanner accepts is a program, and parses to that program's meaning. */
  lemma EveryTextIsProgram(text: string, outside: Outside) returns (program: seq<Line>)
    requires forall raw | raw in RawLines(text) :: |raw| < MAX_LINE
    ensures AllPrintable(program) && Lines(program) == RawLines(text)
    ensures Parse(text, outside) == MeaningOfAll(program, outside)
  {
    program := LinesArePrinted(RawLines(text));
    ParseLinesPrinted(program, outside);
  }
}
