/** The hosts files: edited line by line for each container, or rebuilt for all of them. */
module Hosts {
  import opened Text
  import opened Wrappers

  import opened Resolver

  datatype Info = Info(id: string, name: string, ip: string)

  // A long text is written in parts, each short enough for the verifier to look into.
  const LOCAL4 := "127.0.0.1       localhost"
  const LOCAL6 := "::1             " + "localhost ip6-localhost " + "ip6-loopback"
  const MARK := "# containers zylo-net"
  const BASE_LINES := [LOCAL4, LOCAL6, "", MARK]
  /** The text of a file without containers: the base lines, each ended by a newline. */
  const BASE_CONTENT := Join(BASE_LINES + [""], '\n')

  function EntryLine(ip: string, name: string): string {
    ip + "       " + name
  }

  // ---------- The edits on lines ----------

  function LacksName(name: string): string -> bool {
    line => !Contains(line, name)
  }

  function LacksBoth(ip: string, name: string): string -> bool {
    line => !(Contains(line, ip) || Contains(line, name))
  }

  function WithoutName(lines: seq<string>, name: string): seq<string> {
    Filter(LacksName(name), lines)
  }

  function RemoveLines(lines: seq<string>, ip: string, name: string): seq<string> {
    Filter(LacksBoth(ip, name), lines)
  }

  /** The index of the first line that holds the section comment, or the number of lines. */
  function MarkIndex(lines: seq<string>): (i: nat)
    ensures i <= |lines|
    ensures i < |lines| ==> Contains(lines[i], MARK)
    ensures forall j | 0 <= j < i :: !Contains(lines[j], MARK)
  {
    if lines == [] || Contains(lines[0], MARK) then 0
    else
      var i := 1 + MarkIndex(lines[1..]);
      assert forall j | 1 <= j < |lines| :: lines[j] == lines[1..][j - 1];
      i
  }

  function Insert(lines: seq<string>, entry: string): seq<string> {
    var i := MarkIndex(lines);
    if i == |lines| then lines + [entry] else lines[..i + 1] + [entry] + lines[i + 1..]
  }

  function Added(content: string, ip: string, name: string): string {
    Join(Insert(WithoutName(Split(content, '\n'), name), EntryLine(ip, name)), '\n')
  }

  function Removed(content: string, ip: string, name: string): string {
    Join(RemoveLines(Split(content, '\n'), ip, name), '\n')
  }

  // ---------- Agreement with a network config ----------

  const NOT_BLANK: string -> bool := line => line != ""

  function NonBlank(lines: seq<string>): seq<string> {
    Filter(NOT_BLANK, lines)
  }

  /** How often each non-blank line stands in a file. */
  function Lines(content: string): multiset<string> {
    multiset(NonBlank(Split(content, '\n')))
  }

  function EntryIds(m: map<string, Info>, line: string): set<string> {
    set id | id in m && EntryLine(m[id].ip, m[id].name) == line
  }

  /** How often a line should stand in a file: as a base line, and once per container that has it as entry. */
  function Wanted(m: map<string, Info>, line: string): nat {
    multiset(NonBlank(BASE_LINES))[line] + |EntryIds(m, line)|
  }

  /** Apart from blank lines, the file has the base lines and exactly one entry per container. */
  ghost predicate Agrees(content: string, m: map<string, Info>) {
    forall line :: Lines(content)[line] == Wanted(m, line)
  }

  /** Files that agree with the same containers have the same non-blank lines, in whatever order. */
  lemma AgreementDeterminesLines(content: string, content': string, m: map<string, Info>)
    requires Agrees(content, m) && Agrees(content', m)
    ensures Lines(content) == Lines(content')
  {
    forall line
      ensures Lines(content)[line] == Lines(content')[line]
    {
      assert Lines(content)[line] == Wanted(m, line);
    }
  }

  lemma LinesOfJoin(lines: seq<string>)
    requires forall line | line in lines :: '\n' !in line
    ensures Lines(Join(lines, '\n')) == multiset(NonBlank(lines))
  {
    if lines == [] {
      assert NonBlank([""]) == [];
    } else {
      SplitJoin(lines, '\n');
    }
  }

  lemma {:induction false} NonBlankOne(line: string)
    ensures NonBlank([line]) == if line == "" then [] else [line]
  {
    assert [line][1..] == [];
  }

  /** One more line between two others. */
  lemma {:induction false} MiddleCounts(a: seq<string>, entry: string, b: seq<string>)
    requires entry != ""
    ensures multiset(NonBlank(a + [entry] + b)) == multiset(NonBlank(a + b)) + multiset{entry}
  {
    FilterConcat(NOT_BLANK, a, b);
    FilterConcat(NOT_BLANK, a + [entry], b);
    FilterConcat(NOT_BLANK, a, [entry]);
    NonBlankOne(entry);
  }

  lemma {:induction false} InsertCounts(lines: seq<string>, entry: string)
    requires entry != ""
    ensures multiset(NonBlank(Insert(lines, entry))) == multiset(NonBlank(lines)) + multiset{entry}
    ensures forall line | line in Insert(lines, entry) :: line in lines || line == entry
  {
    var i := MarkIndex(lines);
    var k := if i == |lines| then i else i + 1;
    var a, b := lines[..k], lines[k..];
    assert lines == a + b;
    assert Insert(lines, entry) == a + [entry] + b;
    MiddleCounts(a, entry, b);
  }

  lemma KeptCounts(lines: seq<string>, keep: string -> bool, line: string)
    ensures multiset(NonBlank(Filter(keep, lines)))[line] == if keep(line) then multiset(NonBlank(lines))[line] else 0
  {
    var p := NOT_BLANK;
    FilterCounts(p, Filter(keep, lines), line);
    FilterCounts(keep, lines, line);
    FilterCounts(p, lines, line);
  }

  lemma LinesAdded(content: string, ip: string, name: string, line: string)
    requires OneLine(ip) && OneLine(name)
    ensures Lines(Added(content, ip, name))[line] ==
            (if Contains(line, name) then 0 else Lines(content)[line]) + (if line == EntryLine(ip, name) then 1 else 0)
  {
    var lines := Split(content, '\n');
    var entry := EntryLine(ip, name);
    var kept := WithoutName(lines, name);
    InsertCounts(kept, entry);
    LinesOfJoin(Insert(kept, entry));
    KeptCounts(lines, LacksName(name), line);
  }

  lemma LinesRemoved(content: string, ip: string, name: string, line: string)
    ensures Lines(Removed(content, ip, name))[line] ==
            if Contains(line, ip) || Contains(line, name) then 0 else Lines(content)[line]
  {
    var lines := Split(content, '\n');
    LinesOfJoin(RemoveLines(lines, ip, name));
    KeptCounts(lines, LacksBoth(ip, name), line);
  }

  lemma ContainsParts(ip: string, name: string)
    ensures Contains(EntryLine(ip, name), ip) && Contains(EntryLine(ip, name), name)
  {
    var line := EntryLine(ip, name);
    assert line[0..][..|ip|] == ip;
    assert OccursAt(line, ip, 0);
    assert line[|ip| + 7..] == name;
    assert OccursAt(line, name, |ip| + 7);
  }

  lemma {:induction false} NonBlankFirst(line: string, rest: seq<string>)
    ensures NonBlank([line] + rest) == (if line == "" then [] else [line]) + NonBlank(rest)
  {
    assert ([line] + rest)[1..] == rest;
  }

  lemma {:induction false} NonBlankThree(a: string, b: string, c: string)
    requires a != "" && b != "" && c != ""
    ensures NonBlank([a, b, "", c]) == [a, b, c]
  {
    var last := [c];
    var more := [""] + last;
    var most := [b] + more;
    NonBlankOne(c);
    NonBlankFirst("", last);
    NonBlankFirst(b, more);
    NonBlankFirst(a, most);
    assert [a, b, "", c] == [a] + most;
  }

  /** A line that should stand in the file: a base line or some container's entry. */
  predicate Expected(m: map<string, Info>, line: string) {
    line in [LOCAL4, LOCAL6, MARK] || exists id | id in m :: EntryLine(m[id].ip, m[id].name) == line
  }

  lemma ExpectedIffWanted(m: map<string, Info>, line: string)
    ensures Expected(m, line) <==> Wanted(m, line) > 0
  {
    assert NonBlank(BASE_LINES) == [LOCAL4, LOCAL6, MARK] by {
      NonBlankThree(LOCAL4, LOCAL6, MARK);
    }
    assert line in multiset([LOCAL4, LOCAL6, MARK]) <==> line in [LOCAL4, LOCAL6, MARK];
    if exists id | id in m :: EntryLine(m[id].ip, m[id].name) == line {
      var id :| id in m && EntryLine(m[id].ip, m[id].name) == line;
      assert id in EntryIds(m, line);
    } else {
      assert EntryIds(m, line) == {};
    }
  }

  lemma EntryIdsGrow(m: map<string, Info>, id: string, info: Info, line: string)
    requires id !in m
    ensures |EntryIds(m[id := info], line)| ==
            |EntryIds(m, line)| + if EntryLine(info.ip, info.name) == line then 1 else 0
  {
    var m' := m[id := info];
    if EntryLine(info.ip, info.name) == line {
      assert EntryIds(m', line) == EntryIds(m, line) + {id};
    } else {
      assert EntryIds(m', line) == EntryIds(m, line);
    }
  }

  // ---------- Allocate and release ----------

  predicate AllOneLine(m: map<string, Info>) {
    forall id | id in m :: OneLine(EntryLine(m[id].ip, m[id].name))
  }

  /** An entry that is not a single line cannot stand in any file. */
  lemma EntryMustBeLine(content: string, m: map<string, Info>, id: string)
    requires id in m && !OneLine(EntryLine(m[id].ip, m[id].name))
    ensures !Agrees(content, m)
  {
    var line := EntryLine(m[id].ip, m[id].name);
    assert Lines(content)[line] == 0;
    assert id in EntryIds(m, line);
    assert Lines(content)[line] != Wanted(m, line);
  }

  /** Putting a container in place of what its id held: one entry more, and the old one less. */
  lemma WantedAfterPut(m: map<string, Info>, id: string, info: Info, line: string)
    ensures Wanted(m[id := info], line) ==
            Wanted(m - {id}, line) + if line == EntryLine(info.ip, info.name) then 1 else 0
    ensures id in m ==>
              Wanted(m, line) == Wanted(m - {id}, line) + if line == EntryLine(m[id].ip, m[id].name) then 1 else 0
    ensures id !in m ==> Wanted(m, line) == Wanted(m - {id}, line)
  {
    var rest := m - {id};
    EntryIdsGrow(rest, id, info, line);
    assert rest[id := info] == m[id := info];
    if id in m {
      EntryIdsGrow(rest, id, m[id], line);
      assert rest[id := m[id]] == m;
    } else {
      assert rest == m;
    }
  }

  /** The new entry is a single line, no base line and no other container's entry holds its name, and an entry that the
   *  container has already does. */
  ghost predicate AddIsClear(m: map<string, Info>, id: string, info: Info) {
    && OneLine(EntryLine(info.ip, info.name))
    && (forall line | Expected(m - {id}, line) :: !Contains(line, info.name))
    && (id in m ==> Contains(EntryLine(m[id].ip, m[id].name), info.name))
  }

  /** One line of the file after an addition. */
  lemma AddAt(content: string, m: map<string, Info>, id: string, info: Info, line: string)
    requires Agrees(content, m) && OneLine(info.ip) && OneLine(info.name)
    ensures Lines(Added(content, info.ip, info.name))[line] == Wanted(m[id := info], line) <==>
            if Contains(line, info.name) then !Expected(m - {id}, line)
            else id in m ==> line != EntryLine(m[id].ip, m[id].name)
  {
    LinesAdded(content, info.ip, info.name, line);
    WantedAfterPut(m, id, info, line);
    ExpectedIffWanted(m - {id}, line);
    assert Lines(content)[line] == Wanted(m, line);
  }

  /** Adding a container, new or not, keeps the agreement exactly when the addition is clear. */
  lemma AddKeepsAgreement(content: string, m: map<string, Info>, id: string, info: Info)
    requires Agrees(content, m)
    ensures Agrees(Added(content, info.ip, info.name), m[id := info]) <==> AddIsClear(m, id, info)
  {
    if OneLine(EntryLine(info.ip, info.name)) {
      assert OneLine(info.ip) && OneLine(info.name) by {
        var line := EntryLine(info.ip, info.name);
        assert info.ip == line[..|info.ip|] && info.name == line[|info.ip| + 7..];
      }
      forall line
        ensures Lines(Added(content, info.ip, info.name))[line] == Wanted(m[id := info], line) <==>
                if Contains(line, info.name) then !Expected(m - {id}, line)
                else id in m ==> line != EntryLine(m[id].ip, m[id].name)
      {
        AddAt(content, m, id, info, line);
      }
    } else {
      EntryMustBeLine(Added(content, info.ip, info.name), m[id := info], id);
    }
  }

  /** No base line and no other container's entry holds the address or the name. */
  ghost predicate ReleaseIsClear(m: map<string, Info>, id: string)
    requires id in m
  {
    forall line | Expected(m - {id}, line) :: !Contains(line, m[id].ip) && !Contains(line, m[id].name)
  }

  /** One line of the file after a removal. */
  lemma RemoveAt(content: string, m: map<string, Info>, id: string, line: string)
    requires Agrees(content, m) && id in m
    ensures Lines(Removed(content, m[id].ip, m[id].name))[line] == Wanted(m - {id}, line) <==>
            (Expected(m - {id}, line) ==> !Contains(line, m[id].ip) && !Contains(line, m[id].name))
  {
    LinesRemoved(content, m[id].ip, m[id].name, line);
    WantedAfterPut(m, id, m[id], line);
    ExpectedIffWanted(m - {id}, line);
    ContainsParts(m[id].ip, m[id].name);
    assert Lines(content)[line] == Wanted(m, line);
  }

  /** Removing a container keeps the agreement exactly when no line that must stay holds its address or name. */
  lemma RemoveKeepsAgreement(content: string, m: map<string, Info>, id: string)
    requires Agrees(content, m) && id in m
    ensures Agrees(Removed(content, m[id].ip, m[id].name), m - {id}) <==> ReleaseIsClear(m, id)
  {
    forall line
      ensures Lines(Removed(content, m[id].ip, m[id].name))[line] == Wanted(m - {id}, line) <==>
              (Expected(m - {id}, line) ==> !Contains(line, m[id].ip) && !Contains(line, m[id].name))
    {
      RemoveAt(content, m, id, line);
    }
  }

  /** For arbitrary names, the survivors of a removal are the lines that hold neither string, every copy of them. */
  lemma SurvivorsOfRemoval(lines: seq<string>, ip: string, name: string, line: string)
    ensures multiset(RemoveLines(lines, ip, name))[line] ==
            if Contains(line, ip) || Contains(line, name) then 0 else multiset(lines)[line]
  {
    FilterCounts(LacksBoth(ip, name), lines, line);
  }

  lemma {:induction false} JoinEndsLine(lines: seq<string>)
    requires lines != []
    ensures Join(lines + [""], '\n') == Join(lines, '\n') + ['\n']
  {
    if |lines| == 1 {
      assert (lines + [""])[1..] == [""];
    } else {
      assert (lines + [""])[1..] == lines[1..] + [""];
      JoinEndsLine(lines[1..]);
    }
  }

  lemma Local6IsOneLine()
    ensures OneLine(LOCAL6)
  {
    assert OneLine("::1             ") && OneLine("localhost ip6-localhost ") && OneLine("ip6-loopback");
  }

  lemma BaseLinesAreLines()
    ensures forall line | line in BASE_LINES :: OneLine(line)
  {
    assert OneLine(LOCAL4);
    Local6IsOneLine();
    assert OneLine(MARK);
  }

  lemma BlankLine()
    ensures NonBlank([""]) == []
    ensures Lines("") == multiset{}
  {
    assert [""][1..] == [];
    assert Split("", '\n') == [""];
  }

  lemma LinesOfText(lines: seq<string>)
    requires forall line | line in lines :: OneLine(line)
    ensures Lines(Join(lines + [""], '\n')) == multiset(NonBlank(lines))
  {
    LinesOfJoin(lines + [""]);
    FilterConcat(NOT_BLANK, lines, [""]);
    BlankLine();
  }

  lemma BaseAgrees()
    ensures Agrees(BASE_CONTENT, map[])
  {
    BaseLinesAreLines();
    LinesOfText(BASE_LINES);
    forall line
      ensures EntryIds(map[], line) == {}
    {
    }
  }

  lemma Associate<T>(a: seq<T>, b: seq<T>, c: seq<T>, d: seq<T>)
    ensures a + b + c + d == a + (b + c + d)
    ensures a + b + c == a + (b + c)
  {
  }

  lemma SplitMoved(a: string, p: string, rest: string, b: string)
    requires OneLine(p) && a == p + ['\n'] + rest
    requires Split(rest + ['\n'] + b, '\n') == Split(rest, '\n') + Split(b, '\n')
    ensures Split(a + ['\n'] + b, '\n') == Split(a, '\n') + Split(b, '\n')
  {
    SplitFirst(p, rest, '\n');
    SplitFirst(p, rest + ['\n'] + b, '\n');
    Associate(p + ['\n'], rest, ['\n'], b);
    Associate([p], Split(rest, '\n'), Split(b, '\n'), []);
  }

  lemma {:induction false} SplitConcat(a: string, b: string)
    ensures Split(a + ['\n'] + b, '\n') == Split(a, '\n') + Split(b, '\n')
    decreases |a|
  {
    var i := IndexOf(a, '\n');
    if i == |a| {
      SplitFirst(a, b, '\n');
      SplitSingle(a, '\n');
    } else {
      var p, rest := a[..i], a[i + 1..];
      SplitConcat(rest, b);
      SplitMoved(a, p, rest, b);
    }
  }

  lemma LinesConcat(a: string, b: string)
    ensures Lines(a + ['\n'] + b) == Lines(a) + Lines(b)
  {
    SplitConcat(a, b);
    FilterConcat(NOT_BLANK, Split(a, '\n'), Split(b, '\n'));
  }

  lemma LastNewline(content: string)
    ensures Lines(content + ['\n']) == Lines(content)
  {
    LinesConcat(content, "");
    assert content + ['\n'] + "" == content + ['\n'];
    BlankLine();
  }

  /** A file that ends with a newline grows by one more line. */
  lemma AppendLine(content: string, line: string)
    requires OneLine(line) && line != ""
    ensures Lines(content + ['\n'] + line + ['\n']) == Lines(content + ['\n']) + multiset{line}
  {
    LastNewline(content);
    LastNewline(content + ['\n'] + line);
    LinesConcat(content, line);
    assert Lines(line) == multiset{line};
  }

  lemma WantedGrows(content: string, done: map<string, Info>, id: string, info: Info, line: string)
    requires Agrees(content, done) && id !in done
    ensures (Lines(content) + multiset{EntryLine(info.ip, info.name)})[line] == Wanted(done[id := info], line)
  {
    assert Lines(content)[line] == Wanted(done, line);
    EntryIdsGrow(done, id, info, line);
  }

  lemma RebuildStep(content: string, done: map<string, Info>, id: string, info: Info)
    requires content != "" && content[|content| - 1] == '\n'
    requires Agrees(content, done) && id !in done && OneLine(EntryLine(info.ip, info.name))
    ensures Agrees(content + EntryLine(info.ip, info.name) + ['\n'], done[id := info])
  {
    var line := EntryLine(info.ip, info.name);
    var body := content[..|content| - 1];
    assert content == body + ['\n'];
    AppendLine(body, line);
    forall l
      ensures (Lines(content) + multiset{line})[l] == Wanted(done[id := info], l)
    {
      WantedGrows(content, done, id, info, l);
    }
  }

  /** The base lines, then the entries of the containers in the given order. */
  function Written(m: map<string, Info>, order: seq<string>): string
    requires forall id | id in order :: id in m
  {
    if order == [] then BASE_CONTENT
    else
      var id := order[|order| - 1];
      Written(m, order[..|order| - 1]) + EntryLine(m[id].ip, m[id].name) + ['\n']
  }

  ghost predicate IsOrder(m: map<string, Info>, order: seq<string>) {
    Distinct(order) && forall id :: id in order <==> id in m
  }

  function Part(m: map<string, Info>, order: seq<string>): map<string, Info>
    requires forall id | id in order :: id in m
  {
    map id | id in order :: m[id]
  }

  lemma PartOneMore(m: map<string, Info>, order: seq<string>)
    requires order != [] && Distinct(order) && forall id | id in order :: id in m
    ensures var front, id := order[..|order| - 1], order[|order| - 1];
            Distinct(front) && id !in Part(m, front) && Part(m, order) == Part(m, front)[id := m[id]]
  {
    var front, id := order[..|order| - 1], order[|order| - 1];
    assert order == front + [id];
  }

  lemma {:induction false} WrittenAgrees(m: map<string, Info>, order: seq<string>)
    requires Distinct(order) && (forall id | id in order :: id in m) && AllOneLine(m)
    ensures Agrees(Written(m, order), Part(m, order))
    ensures Written(m, order) != "" && Written(m, order)[|Written(m, order)| - 1] == '\n'
  {
    if order == [] {
      BaseAgrees();
      JoinEndsLine(BASE_LINES);
      assert Part(m, order) == map[];
    } else {
      var front, id := order[..|order| - 1], order[|order| - 1];
      WrittenAgrees(m, front);
      PartOneMore(m, order);
      RebuildStep(Written(m, front), Part(m, front), id, m[id]);
    }
  }

  /** A rebuilt file agrees with the containers, whatever their order, exactly when their entries are single lines. */
  lemma RebuiltAgreesExactly(m: map<string, Info>, order: seq<string>)
    requires IsOrder(m, order)
    ensures Agrees(Written(m, order), m) <==> AllOneLine(m)
  {
    if AllOneLine(m) {
      WrittenAgrees(m, order);
      assert Part(m, order) == m;
    } else {
      var id :| id in m && !OneLine(EntryLine(m[id].ip, m[id].name));
      EntryMustBeLine(Written(m, order), m, id);
    }
  }

  // ---------- What a resolver finds ----------

  const BASE_NAMES := {"localhost", "ip6-localhost", "ip6-loopback"}

  /** What a name resolves to in a file without containers. */
  function Loopback(name: string): Option<string> {
    if name == "localhost" then Some("127.0.0.1")
    else if name == "ip6-localhost" || name == "ip6-loopback" then Some("::1")
    else None
  }

  /** What a name resolves to. */
  function Resolved(content: string, name: string): Option<string> {
    Resolve(Split(content, '\n'), name)
  }

  lemma TwoAreRead(a: string, x: string, b: string)
    requires Word(a) && Word(b) && x != "" && forall c | c in x :: IsBlank(c)
    ensures Fields(a + x + b) == [a, b]
  {
    LastField(b);
    NextField(a, x, b);
  }

  /** An entry is read as its address and its one name. */
  lemma EntryIsRead(ip: string, name: string)
    requires Word(ip) && Word(name)
    ensures Fields(EntryLine(ip, name)) == [ip, name]
    ensures forall other :: Gives(EntryLine(ip, name), other) <==> other == name
  {
    TwoAreRead(ip, "       ", name);
    assert [ip, name][1..] == [name];
  }

  lemma LoopbackWords()
    ensures Word("localhost") && Word("ip6-localhost") && Word("ip6-loopback")
    ensures Word("127.0.0.1") && Word("::1")
  {
  }

  lemma Local4IsRead()
    ensures Fields(LOCAL4) == ["127.0.0.1", "localhost"]
  {
    LoopbackWords();
    assert LOCAL4 == EntryLine("127.0.0.1", "localhost");
    EntryIsRead("127.0.0.1", "localhost");
  }

  lemma Local6Parts()
    ensures LOCAL6 == "::1" + "             " + ("localhost" + " " + ("ip6-localhost" + " " + "ip6-loopback"))
  {
  }

  lemma Local6IsRead()
    ensures Fields(LOCAL6) == ["::1", "localhost", "ip6-localhost", "ip6-loopback"]
  {
    LoopbackWords();
    Local6Parts();
    assert Fields("::1" + "             " + ("localhost" + " " + ("ip6-localhost" + " " + "ip6-loopback"))) ==
      ["::1", "localhost", "ip6-localhost", "ip6-loopback"] by {
      TwoAreRead("ip6-localhost", " ", "ip6-loopback");
      NextField("localhost", " ", "ip6-localhost" + " " + "ip6-loopback");
      NextField("::1", "             ", "localhost" + " " + ("ip6-localhost" + " " + "ip6-loopback"));
    }
  }

  lemma OthersAreNotRead()
    ensures Fields("") == [] && Fields(MARK) == []
  {
  }

  /** The names that the base lines give. */
  lemma BaseGives(name: string)
    ensures Gives(LOCAL4, name) <==> name == "localhost"
    ensures Gives(LOCAL6, name) <==> name in BASE_NAMES
    ensures !Gives("", name) && !Gives(MARK, name)
  {
    Local4IsRead();
    Local6IsRead();
    OthersAreNotRead();
    assert ["127.0.0.1", "localhost"][1..] == ["localhost"];
    assert ["::1", "localhost", "ip6-localhost", "ip6-loopback"][1..] == ["localhost", "ip6-localhost", "ip6-loopback"];
  }

  lemma BaseResolves(name: string)
    ensures Resolve(BASE_LINES, name) == Loopback(name)
  {
    BaseGives(name);
    assert Gives(LOCAL4, name) ==> Resolve(BASE_LINES, name) == Some(Fields(LOCAL4)[0]);
    assert !Gives(LOCAL4, name) && Gives(LOCAL6, name) ==> Resolve(BASE_LINES, name) == Some(Fields(LOCAL6)[0]);
    Local4IsRead();
    Local6IsRead();
    if name !in BASE_NAMES {
      assert Resolve(BASE_LINES, name) == None by {
        BaseGives(name);
        NothingGives(BASE_LINES, name);
      }
    }
  }

  // ---------- Files that edits leave ----------

  lemma InsertResolves(lines: seq<string>, entry: string, name: string)
    requires Gives(entry, name) ==> Resolve(lines, name) == None
    ensures Resolve(Insert(lines, entry), name) ==
            if Gives(entry, name) then Some(Fields(entry)[0]) else Resolve(lines, name)
  {
    var i := MarkIndex(lines);
    var k := if i == |lines| then i else i + 1;
    var a, b := lines[..k], lines[k..];
    assert lines == a + b;
    assert Insert(lines, entry) == a + [entry] + b;
    ResolveConcat(a, b, name);
    ResolveConcat(a + [entry], b, name);
    ResolveConcat(a, [entry], name);
    assert [entry][1..] == [];
  }

  lemma NoLineGives(keep: string -> bool, lines: seq<string>, name: string)
    requires forall line | line in lines && keep(line) :: !Contains(line, name)
    ensures Resolve(Filter(keep, lines), name) == None
  {
    forall line | line in Filter(keep, lines)
      ensures !Gives(line, name)
    {
      if Gives(line, name) {
        FieldsAreParts(line, name);
      }
    }
    NothingGives(Filter(keep, lines), name);
  }

  /** A line that gives the name and holds the other string. */
  predicate GivenWith(content: string, name: string, part: string) {
    exists line | line in Split(content, '\n') :: Gives(line, name) && Contains(line, part)
  }

  /** In whatever file a container is added, its name then resolves to its address; and every other name resolves as
   *  before, unless a line that gives it holds the container's name. */
  lemma AddedResolves(content: string, ip: string, name: string)
    requires Word(ip) && Word(name)
    ensures Resolved(Added(content, ip, name), name) == Some(ip)
    ensures forall other | other != name && !GivenWith(content, other, name) ::
              Resolved(Added(content, ip, name), other) == Resolved(content, other)
  {
    var lines, entry := Split(content, '\n'), EntryLine(ip, name);
    EntryIsRead(ip, name);
    var kept := WithoutName(lines, name);
    assert Split(Added(content, ip, name), '\n') == Insert(kept, entry) by {
      InsertCounts(kept, entry);
      SplitJoin(Insert(kept, entry), '\n');
    }
    NoLineGives(LacksName(name), lines, name);
    InsertResolves(WithoutName(lines, name), entry, name);
    forall other | other != name && !GivenWith(content, other, name)
      ensures Resolved(Added(content, ip, name), other) == Resolved(content, other)
    {
      ResolveFiltered(LacksName(name), lines, other);
      InsertResolves(WithoutName(lines, name), entry, other);
    }
  }

  lemma LinesOfRemoved(content: string, ip: string, name: string, other: string)
    ensures Resolved(Removed(content, ip, name), other) == Resolve(RemoveLines(Split(content, '\n'), ip, name), other)
  {
    var kept := RemoveLines(Split(content, '\n'), ip, name);
    if kept != [] {
      SplitJoin(kept, '\n');
    } else {
      OthersAreNotRead();
      assert Split("", '\n') == [""] && [""][1..] == [];
    }
  }

  /** After a removal the name resolves to nothing, whatever the file; and every other name resolves as before, unless
   *  a line that gives it holds one of the strings. */
  lemma RemovedResolves(content: string, ip: string, name: string)
    ensures Resolved(Removed(content, ip, name), name) == None
    ensures forall other | !GivenWith(content, other, ip) && !GivenWith(content, other, name) ::
              Resolved(Removed(content, ip, name), other) == Resolved(content, other)
  {
    var lines := Split(content, '\n');
    LinesOfRemoved(content, ip, name, name);
    NoLineGives(LacksBoth(ip, name), lines, name);
    forall other | !GivenWith(content, other, ip) && !GivenWith(content, other, name)
      ensures Resolved(Removed(content, ip, name), other) == Resolved(content, other)
    {
      LinesOfRemoved(content, ip, name, other);
      ResolveFiltered(LacksBoth(ip, name), lines, other);
    }
  }

  // ---------- Files that agree ----------

  /** Addresses and names are words, and no name is given twice. */
  ghost predicate Readable(m: map<string, Info>) {
    && (forall id | id in m :: Word(m[id].ip) && Word(m[id].name) && m[id].name !in BASE_NAMES)
    && (forall id, id' | id in m && id' in m && id != id' :: m[id].name != m[id'].name)
  }

  /** A line of an agreeing file is a base line or the entry of a container. */
  lemma LinesAreExpected(content: string, m: map<string, Info>, line: string)
    requires Agrees(content, m) && line != ""
    ensures line in Split(content, '\n') <==> Expected(m, line)
  {
    assert Lines(content)[line] == Wanted(m, line);
    ExpectedIffWanted(m, line);
    assert line in NonBlank(Split(content, '\n')) <==> Lines(content)[line] > 0;
  }

  /** Which expected lines give a name. */
  lemma ExpectedGives(m: map<string, Info>, line: string, name: string)
    requires Readable(m) && Expected(m, line) && Gives(line, name) && name !in BASE_NAMES
    ensures exists id | id in m :: m[id].name == name && line == EntryLine(m[id].ip, name)
  {
    BaseGives(name);
    var id :| id in m && EntryLine(m[id].ip, m[id].name) == line;
    EntryIsRead(m[id].ip, m[id].name);
  }

  /** In a file that agrees with the containers, in whatever order, the name of each resolves to its address. */
  lemma AgreementResolves(content: string, m: map<string, Info>, id: string)
    requires Agrees(content, m) && Readable(m) && id in m
    ensures Resolved(content, m[id].name) == Some(m[id].ip)
  {
    var entry, name := EntryLine(m[id].ip, m[id].name), m[id].name;
    EntryIsRead(m[id].ip, name);
    LinesAreExpected(content, m, entry);
    forall line | line in Split(content, '\n') && Gives(line, name)
      ensures line == entry
    {
      LinesAreExpected(content, m, line);
      ExpectedGives(m, line, name);
    }
    AllGive(Split(content, '\n'), name, m[id].ip);
  }

  /** And every other name, but for the loopback names, to nothing. */
  lemma AgreementResolvesNoOther(content: string, m: map<string, Info>, name: string)
    requires Agrees(content, m) && Readable(m)
    requires name !in BASE_NAMES && forall id | id in m :: m[id].name != name
    ensures Resolved(content, name) == None
  {
    forall line | line in Split(content, '\n')
      ensures !Gives(line, name)
    {
      if Gives(line, name) {
        LinesAreExpected(content, m, line);
        ExpectedGives(m, line, name);
      }
    }
    NothingGives(Split(content, '\n'), name);
  }

  // ---------- Files that are rebuilt ----------

  lemma LinesOfEnded(body: string)
    ensures Split(body + ['\n'], '\n') == Split(body, '\n') + [""]
  {
    SplitConcat(body, "");
    SplitSingle("", '\n');
    assert body + ['\n'] + "" == body + ['\n'];
  }

  lemma StartsAfterMore(start: seq<string>, body: string, line: string)
    requires OneLine(line) && (start != [] ==> start[|start| - 1] != "")
    requires start <= Split(body + ['\n'], '\n')
    ensures start <= Split(body + ['\n'] + line + ['\n'], '\n')
  {
    LinesOfEnded(body);
    assert Split(body + ['\n'] + line + ['\n'], '\n') == Split(body, '\n') + [line] + [""] by {
      LinesOfEnded(body + ['\n'] + line);
      SplitConcat(body, line);
      SplitSingle(line, '\n');
    }
    assert start <= Split(body, '\n') + [line] + [""];
  }

  lemma Ended(content: string)
    requires content != "" && content[|content| - 1] == '\n'
    ensures content == content[..|content| - 1] + ['\n']
  {
  }

  /** A rebuilt file starts with the base lines. */
  lemma {:induction false} WrittenStarts(m: map<string, Info>, order: seq<string>)
    requires Distinct(order) && (forall id | id in order :: id in m) && AllOneLine(m)
    ensures BASE_LINES <= Split(Written(m, order), '\n')
  {
    if order == [] {
      BaseLinesAreLines();
      SplitJoin(BASE_LINES + [""], '\n');
    } else {
      var front, id := order[..|order| - 1], order[|order| - 1];
      var content := Written(m, front);
      WrittenStarts(m, front);
      WrittenAgrees(m, front);
      Ended(content);
      StartsAfterMore(BASE_LINES, content[..|content| - 1], EntryLine(m[id].ip, m[id].name));
    }
  }

  /** In a rebuilt file every loopback name resolves to its address. */
  lemma WrittenResolvesBase(m: map<string, Info>, order: seq<string>, name: string)
    requires IsOrder(m, order) && AllOneLine(m) && name in BASE_NAMES
    ensures Resolved(Written(m, order), name) == Loopback(name)
  {
    WrittenStarts(m, order);
    BaseResolves(name);
    ResolveStart(BASE_LINES, Split(Written(m, order), '\n'), name);
  }

  /** A rebuilt file resolves the name of each container to its address, the loopback names as a new file does, and no
   *  other name. */
  lemma RebuiltResolves(m: map<string, Info>, order: seq<string>)
    requires IsOrder(m, order) && Readable(m)
    ensures forall id | id in m :: Resolved(Written(m, order), m[id].name) == Some(m[id].ip)
    ensures forall name | forall id | id in m :: m[id].name != name ::
              Resolved(Written(m, order), name) == Loopback(name)
  {
    var content := Written(m, order);
    forall id | id in m
      ensures OneLine(EntryLine(m[id].ip, m[id].name))
    {
    }
    RebuiltAgreesExactly(m, order);
    forall id | id in m
      ensures Resolved(content, m[id].name) == Some(m[id].ip)
    {
      AgreementResolves(content, m, id);
    }
    forall name | forall id | id in m :: m[id].name != name
      ensures Resolved(content, name) == Loopback(name)
    {
      if name in BASE_NAMES {
        WrittenResolvesBase(m, order, name);
      } else {
        AgreementResolvesNoOther(content, m, name);
      }
    }
  }

  // ---------- The files ----------

  /** The first loop of AddContainer. */
  method LinesWithoutName(lines: seq<string>, name: string) returns (newLines: seq<string>)
    ensures newLines == WithoutName(lines, name)
  {
    newLines := [];
    for i := 0 to |lines|
      invariant newLines == WithoutName(lines[..i], name)
    {
      FilterStep(LacksName(name), lines, i);
      if !Contains(lines[i], name) {
        newLines := newLines + [lines[i]];
      }
    }
    assert lines[..|lines|] == lines;
  }

  /** The second loop of AddContainer. */
  method InsertEntry(lines: seq<string>, entry: string) returns (newLines: seq<string>)
    ensures newLines == Insert(lines, entry)
  {
    for i := 0 to |lines|
      invariant forall k | 0 <= k < i :: !Contains(lines[k], MARK)
    {
      if Contains(lines[i], MARK) {
        return lines[..i + 1] + [entry] + lines[i + 1..];
      }
    }
    return lines + [entry];
  }

  /** The loop of RemoveContainer. */
  method LinesWithoutBoth(lines: seq<string>, ip: string, name: string) returns (newLines: seq<string>)
    ensures newLines == RemoveLines(lines, ip, name)
  {
    newLines := [];
    for i := 0 to |lines|
      invariant newLines == RemoveLines(lines[..i], ip, name)
    {
      FilterStep(LacksBoth(ip, name), lines, i);
      if Contains(lines[i], ip) || Contains(lines[i], name) {
        continue;
      }
      newLines := newLines + [lines[i]];
    }
    assert lines[..|lines|] == lines;
  }

  /** The loop of UpdateAllContainers: the base lines and one entry per container, visited in any order. */
  method Rebuild(containers: map<string, Info>) returns (content: string)
    ensures exists order: seq<string> :: IsOrder(containers, order) && content == Written(containers, order)
    ensures Agrees(content, containers) <==> AllOneLine(containers)
    ensures Readable(containers) ==>
              forall id | id in containers :: Resolved(content, containers[id].name) == Some(containers[id].ip)
    ensures Readable(containers) ==>
              forall name | forall id | id in containers :: containers[id].name != name ::
                Resolved(content, name) == Loopback(name)
  {
    content := BASE_CONTENT;
    ghost var order: seq<string> := [];
    var todo := containers.Keys;
    while todo != {}
      invariant todo <= containers.Keys && Distinct(order)
      invariant forall id :: id in order <==> id in containers && id !in todo
      invariant content == Written(containers, order)
      decreases |todo|
    {
      var id :| id in todo;
      content := content + EntryLine(containers[id].ip, containers[id].name) + ['\n'];
      assert (order + [id])[..|order|] == order;
      order := order + [id];
      todo := todo - {id};
    }
    RebuiltAgreesExactly(containers, order);
    if Readable(containers) {
      RebuiltResolves(containers, order);
    }
  }

  /** One hosts file per network; a missing key is a missing file. The flags say which calls of the file system work. */
  class HostsManager {
    var files: map<string, string>

    constructor ()
      ensures files == map[]
    {
      files := map[];
    }

    function Content(network: string): string
      reads this
    {
      if network in files then files[network] else BASE_CONTENT
    }

    /** NewHostsManager: a missing file is created with the base lines. */
    method Open(network: string, canCreate: bool) returns (ok: bool)
      modifies this
      ensures ok <==> canCreate
      ensures files == if ok then old(files)[network := old(Content(network))] else old(files)
    {
      if !canCreate {
        return false;
      }
      if network !in files {
        files := files[network := BASE_CONTENT];
      }
      assert files == old(files)[network := old(Content(network))];
      return true;
    }

    method AddContainer(network: string, ip: string, name: string, canRead: bool, canWrite: bool) returns (ok: bool)
      modifies this
      ensures ok <==> network in old(files) && canRead && canWrite
      ensures files == if ok then old(files)[network := Added(old(Content(network)), ip, name)] else old(files)
      ensures ok && Word(ip) && Word(name) ==> Resolved(files[network], name) == Some(ip)
      ensures ok && Word(ip) && Word(name) ==>
                forall other | other != name && !GivenWith(old(files)[network], other, name) ::
                  Resolved(files[network], other) == Resolved(old(files)[network], other)
    {
      if network !in files || !canRead {
        return false;
      }
      var newLines := LinesWithoutName(Split(files[network], '\n'), name);
      newLines := InsertEntry(newLines, EntryLine(ip, name));
      if canWrite {
        files := files[network := Join(newLines, '\n')];
        if Word(ip) && Word(name) {
          AddedResolves(old(files)[network], ip, name);
        }
      }
      return canWrite;
    }

    method RemoveContainer(network: string, ip: string, name: string, canRead: bool, canWrite: bool) returns (ok: bool)
      modifies this
      ensures ok <==> network in old(files) && canRead && canWrite
      ensures files == if ok then old(files)[network := Removed(old(Content(network)), ip, name)] else old(files)
      ensures ok ==> Resolved(files[network], name) == None
      ensures ok ==>
                forall other |
                  !GivenWith(old(files)[network], other, ip) && !GivenWith(old(files)[network], other, name) ::
                  Resolved(files[network], other) == Resolved(old(files)[network], other)
    {
      if network !in files || !canRead {
        return false;
      }
      var newLines := LinesWithoutBoth(Split(files[network], '\n'), ip, name);
      if canWrite {
        files := files[network := Join(newLines, '\n')];
        RemovedResolves(old(files)[network], ip, name);
      }
      return canWrite;
    }

    method UpdateAllContainers(network: string, containers: map<string, Info>, canWrite: bool) returns (ok: bool)
      modifies this
      ensures ok <==> canWrite
      ensures !ok ==> files == old(files)
      ensures ok ==> network in files && files == old(files)[network := files[network]]
      ensures ok ==> exists order: seq<string> ::
                       IsOrder(containers, order) && files[network] == Written(containers, order)
      ensures ok ==> (Agrees(files[network], containers) <==> AllOneLine(containers))
      ensures ok && Readable(containers) ==>
                forall id | id in containers :: Resolved(files[network], containers[id].name) == Some(containers[id].ip)
      ensures ok && Readable(containers) ==>
                forall name | forall id | id in containers :: containers[id].name != name ::
                  Resolved(files[network], name) ==
                  Loopback(name)
    {
      var content := Rebuild(containers);
      if canWrite {
        files := files[network := content];
      }
      return canWrite;
    }
  }
}
