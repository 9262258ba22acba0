/** From the text of a ZyloFile to the environment of the container's first process. */
module Environment {
  import opened Text
  import opened Wrappers

  import Global

  const MAX_LINE := 65536
  // In parts, each short enough for the verifier to look into.
  const BUILD_PATH := "PATH=/sbin:/bin:" + "/usr/sbin:/usr/bin:" + "/usr/local/bin"
  const INIT_PATH := "PATH=/usr/local/sbin:/usr/local/bin:/usr/sbin:/usr/bin:/sbin:/bin"

  // ---------- Lines ----------

  function DropCR(line: string): string {
    if line != "" && line[|line| - 1] == '\r' then line[..|line| - 1] else line
  }

  /** bufio.ScanLines: the raw lines of a text, without the newlines. */
  function RawLines(text: string): (lines: seq<string>)
    ensures forall l | l in lines :: '\n' !in l
    decreases |text|
  {
    if text == "" then []
    else
      var i := IndexOf(text, '\n');
      if i == |text| then [text] else [text[..i]] + RawLines(text[i + 1..])
  }

  /** unicode.IsSpace */
  predicate IsSpace(c: char) {
    || '\t' <= c <= '\r' || c == ' ' || c == '\U{85}' || c == '\U{A0}' || c == '\U{1680}'
    || '\U{2000}' <= c <= '\U{200A}' || c == '\U{2028}' || c == '\U{2029}' || c == '\U{202F}'
    || c == '\U{205F}' || c == '\U{3000}'
  }

  function TrimSpace(s: string): (r: string)
    ensures forall c | c in r :: c in s
  {
    if s == "" then ""
    else if IsSpace(s[0]) then TrimSpace(s[1..])
    else if IsSpace(s[|s| - 1]) then TrimSpace(s[..|s| - 1])
    else s
  }

  // ---------- Instructions ----------

  datatype Config = Config(image: string, name: string, network: string, commands: seq<string>,
                           env: map<string, string>, ports: seq<string>)

  const EMPTY := Config("", "", "", [], map[], [])

  /** What the parser asks outside: whether a volume's directory could be made, and how a JSON list reads. */
  datatype Outside = Outside(volumeOk: string -> bool, json: string -> Option<seq<string>>)

  /** The key and value of a SET_ENV argument. */
  function KeyValue(arg: string): (r: Option<(string, string)>)
    ensures r.None? <==> ':' !in arg
    ensures r.Some? ==> arg == r.value.0 + [':'] + r.value.1 && ':' !in r.value.0
  {
    var i := IndexOf(arg, ':');
    if i == |arg| then None else Some((arg[..i], arg[i + 1..]))
  }

  /** The switch of parseLine, or nothing when it returns an error. */
  function Instruct(c: Config, instruction: string, arg: string, outside: Outside): Option<Config> {
    if instruction == "USE_IMAGE" then Some(c.(image := arg))
    else if instruction == "NAME" then Some(c.(name := arg))
    else if instruction == "SET_WORKDIR" || instruction == "COPY" then Some(c)
    else if instruction == "NETWORK" then if arg == Global.MAIN_NET then None else Some(c.(network := arg))
    else if instruction == "EXECUTE" then Some(c.(commands := c.commands + [arg]))
    else if instruction == "VOLUME" then if outside.volumeOk(arg) then Some(c) else None
    else if instruction == "SET_ENV" then
      if KeyValue(arg).None? then None
      else Some(c.(env := c.env[KeyValue(arg).value.0 := KeyValue(arg).value.1]))
    else if instruction == "OPEN_PORT" then Some(c.(ports := c.ports + [arg]))
    else if instruction == "START_WITH" then
      if outside.json(arg).None? then None else Some(c.(commands := outside.json(arg).value))
    else None
  }

  /** parseLine on a trimmed line. */
  function ParseLine(c: Config, line: string, outside: Outside): Option<Config> {
    var i := IndexOf(line, ' ');
    if i == |line| then None else Instruct(c, line[..i], TrimSpace(line[i + 1..]), outside)
  }

  predicate Skipped(line: string) {
    line == "" || HasPrefix(line, "!!")
  }

  function ParseRaw(c: Config, raw: string, outside: Outside): Option<Config> {
    var line := TrimSpace(DropCR(raw));
    if |raw| >= MAX_LINE then None
    else if Skipped(line) then Some(c)
    else ParseLine(c, line, outside)
  }

  function ParseLines(lines: seq<string>, outside: Outside): Option<Config> {
    if lines == [] then Some(EMPTY)
    else
      var before := ParseLines(lines[..|lines| - 1], outside);
      if before.None? then None else ParseRaw(before.value, lines[|lines| - 1], outside)
  }

  function Parse(text: string, outside: Outside): Option<Config> {
    ParseLines(RawLines(text), outside)
  }

  // ---------- What the environment holds ----------

  /** The key and value that an instruction sets. */
  function SetByLine(line: string): Option<(string, string)> {
    var i := IndexOf(line, ' ');
    if i == |line| || line[..i] != "SET_ENV" then None else KeyValue(TrimSpace(line[i + 1..]))
  }

  /** The key and value that a raw line sets, if it is a SET_ENV line. */
  function SetBy(raw: string): Option<(string, string)> {
    var line := TrimSpace(DropCR(raw));
    if Skipped(line) then None else SetByLine(line)
  }

  /** The value that the last SET_ENV line for a key gives it. */
  function LastValue(lines: seq<string>, key: string): Option<string> {
    if lines == [] then None
    else
      var last := SetBy(lines[|lines| - 1]);
      if last.Some? && last.value.0 == key then Some(last.value.1) else LastValue(lines[..|lines| - 1], key)
  }

  function Put(env: map<string, string>, pair: Option<(string, string)>): map<string, string> {
    if pair.Some? then env[pair.value.0 := pair.value.1] else env
  }

  lemma ParseLineEnv(c: Config, line: string, outside: Outside)
    requires ParseLine(c, line, outside).Some?
    ensures ParseLine(c, line, outside).value.env == Put(c.env, SetByLine(line))
  {
  }

  lemma ParseRawEnv(c: Config, raw: string, outside: Outside)
    ensures ParseRaw(c, raw, outside).Some? ==> ParseRaw(c, raw, outside).value.env == Put(c.env, SetBy(raw))
  {
    var line := TrimSpace(DropCR(raw));
    if !Skipped(line) && ParseLine(c, line, outside).Some? {
      ParseLineEnv(c, line, outside);
    }
  }

  /** Every key has the value of its last SET_ENV line, and no other key is set. */
  lemma {:induction false} EnvHoldsLastValues(lines: seq<string>, outside: Outside, key: string)
    requires ParseLines(lines, outside).Some?
    ensures var env := ParseLines(lines, outside).value.env;
            LastValue(lines, key) == if key in env then Some(env[key]) else None
  {
    if lines != [] {
      EnvHoldsLastValues(lines[..|lines| - 1], outside, key);
      ParseRawEnv(ParseLines(lines[..|lines| - 1], outside).value, lines[|lines| - 1], outside);
    }
  }

  /** The environment, and the name that the hosts files rely on, hold no newline. */
  ghost predicate NoNewlines(c: Config) {
    && OneLine(c.name)
    && forall k | k in c.env :: OneLine(k) && OneLine(c.env[k])
  }

  lemma ParseLineNoNewlines(c: Config, line: string, outside: Outside)
    requires OneLine(line) && NoNewlines(c) && ParseLine(c, line, outside).Some?
    ensures NoNewlines(ParseLine(c, line, outside).value)
  {
    var arg := TrimSpace(line[IndexOf(line, ' ') + 1..]);
    assert OneLine(line[IndexOf(line, ' ') + 1..]) && OneLine(arg);
    assert ParseLine(c, line, outside).value.name in {c.name, arg};
    ParseLineEnv(c, line, outside);
  }

  lemma {:induction false} ParsedHasNoNewlines(lines: seq<string>, outside: Outside)
    requires forall l | l in lines :: OneLine(l)
    ensures ParseLines(lines, outside).Some? ==> NoNewlines(ParseLines(lines, outside).value)
  {
    if lines != [] && ParseLines(lines, outside).Some? {
      ParsedHasNoNewlines(lines[..|lines| - 1], outside);
      assert lines[|lines| - 1] in lines;
      var raw := lines[|lines| - 1];
      var line := TrimSpace(DropCR(raw));
      assert OneLine(DropCR(raw)) && OneLine(line);
      if !Skipped(line) {
        ParseLineNoNewlines(ParseLines(lines[..|lines| - 1], outside).value, line, outside);
      }
    }
  }

  lemma ParseLineNotMain(c: Config, line: string, outside: Outside)
    requires c.network != Global.MAIN_NET && ParseLine(c, line, outside).Some?
    ensures ParseLine(c, line, outside).value.network != Global.MAIN_NET
  {
  }

  /** No ZyloFile can choose the main network: its name is refused, and otherwise the network stays empty. */
  lemma {:induction false} ParsedIsNotMain(lines: seq<string>, outside: Outside)
    ensures ParseLines(lines, outside).Some? ==> ParseLines(lines, outside).value.network != Global.MAIN_NET
  {
    if lines != [] && ParseLines(lines, outside).Some? {
      var front, raw := lines[..|lines| - 1], lines[|lines| - 1];
      ParsedIsNotMain(front, outside);
      if !Skipped(TrimSpace(DropCR(raw))) {
        ParseLineNotMain(ParseLines(front, outside).value, TrimSpace(DropCR(raw)), outside);
      }
    }
  }

  // ---------- The environment list ----------

  function Assignment(env: map<string, string>, key: string): string
    requires key in env
  {
    key + ['='] + env[key]
  }

  ghost predicate BuiltInOrder(list: seq<string>, env: map<string, string>, order: seq<string>) {
    && Distinct(order) && (forall k :: k in order <==> k in env)
    && |list| == |order| + 1 && list[0] == BUILD_PATH
    && forall i | 0 <= i < |order| :: order[i] in env && list[i + 1] == Assignment(env, order[i])
  }

  /** The PATH entry, then one assignment per key, in some order of the keys. */
  ghost predicate BuiltFrom(list: seq<string>, env: map<string, string>) {
    exists order: seq<string> :: BuiltInOrder(list, env, order)
  }

  /** What the container's init runs the program with. */
  function InitEnv(envStr: string, environ: seq<string>): seq<string> {
    (if envStr != "" then Split(envStr, '\n') else environ) + [INIT_PATH]
  }

  lemma AssignmentIsOneLine(env: map<string, string>, key: string)
    requires key in env && OneLine(key) && OneLine(env[key])
    ensures OneLine(Assignment(env, key))
  {
  }

  lemma ListIsLines(list: seq<string>, env: map<string, string>)
    requires BuiltFrom(list, env)
    requires forall k | k in env :: OneLine(k) && OneLine(env[k])
    ensures list != [] && list[0] == BUILD_PATH
    ensures forall entry | entry in list :: OneLine(entry)
  {
    var order :| BuiltInOrder(list, env, order);
    assert OneLine(BUILD_PATH);
    forall i | 0 <= i < |list|
      ensures OneLine(list[i])
    {
      if i > 0 {
        AssignmentIsOneLine(env, order[i - 1]);
      }
    }
  }

  /** For every text that parses and every order of the map: the list split out in the container is the list that was
   *  built, followed by the init's own PATH. */
  lemma EnvironmentRoundTrip(text: string, outside: Outside, list: seq<string>, environ: seq<string>)
    requires Parse(text, outside).Some? && BuiltFrom(list, Parse(text, outside).value.env)
    ensures InitEnv(Join(list, '\n'), environ) == list + [INIT_PATH]
    ensures InitEnv("", environ) == environ + [INIT_PATH]
  {
    ParsedHasNoNewlines(RawLines(text), outside);
    ListIsLines(list, Parse(text, outside).value.env);
    SplitJoin(list, '\n');
    assert Join(list, '\n') != "";
  }

  /** The built list holds the last value of every key that a line sets. */
  lemma LastValueIsListed(text: string, outside: Outside, list: seq<string>, key: string)
    requires Parse(text, outside).Some? && BuiltFrom(list, Parse(text, outside).value.env)
    ensures LastValue(RawLines(text), key).Some? ==> key + ['='] + LastValue(RawLines(text), key).value in list
  {
    var env := Parse(text, outside).value.env;
    EnvHoldsLastValues(RawLines(text), outside, key);
    var order :| BuiltInOrder(list, env, order);
    if key in env {
      var i :| 0 <= i < |order| && order[i] == key;
      assert list[i + 1] == Assignment(env, key);
    }
  }

  /** And apart from the PATH entry nothing else: each entry is some key with its last value. */
  lemma ListedIsLastValue(text: string, outside: Outside, list: seq<string>, i: nat) returns (key: string)
    requires Parse(text, outside).Some? && BuiltFrom(list, Parse(text, outside).value.env)
    requires 1 <= i < |list|
    ensures LastValue(RawLines(text), key).Some?
    ensures list[i] == key + ['='] + LastValue(RawLines(text), key).value
  {
    var env := Parse(text, outside).value.env;
    var order :| BuiltInOrder(list, env, order);
    key := order[i - 1];
    EnvHoldsLastValues(RawLines(text), outside, key);
    assert list[i - 1 + 1] == Assignment(env, key);
  }

  // ---------- The parser and the builder ----------

  lemma ParseStep(lines: seq<string>, k: nat, outside: Outside)
    requires k < |lines|
    ensures ParseLines(lines[..k + 1], outside) ==
            match ParseLines(lines[..k], outside) case None => None case Some(c) => ParseRaw(c, lines[k], outside)
  {
    assert lines[..k + 1][..k] == lines[..k];
  }

  lemma {:induction false} ErrorIsFinal(lines: seq<string>, k: nat, outside: Outside)
    requires k <= |lines| && ParseLines(lines[..k], outside).None?
    ensures ParseLines(lines, outside).None?
    decreases |lines| - k
  {
    if k == |lines| {
      assert lines[..k] == lines;
    } else {
      ParseStep(lines, k, outside);
      ErrorIsFinal(lines, k + 1, outside);
    }
  }

  class ZyloFile {
    var image: string
    var name: string
    var network: string
    var commands: seq<string>
    var env: map<string, string>
    var ports: seq<string>

    constructor ()
      ensures View() == EMPTY
    {
      image, name, network, commands, env, ports := "", "", "", [], map[], [];
    }

    function View(): Config
      reads this
    {
      Config(image, name, network, commands, env, ports)
    }

    method SetEnv(arg: string) returns (ok: bool)
      modifies `env
      ensures ok <==> KeyValue(arg).Some?
      ensures env == if ok then old(env)[KeyValue(arg).value.0 := KeyValue(arg).value.1] else old(env)
    {
      var i := IndexOf(arg, ':');
      if i == |arg| {
        return false;
      }
      env := env[arg[..i] := arg[i + 1..]];
      return true;
    }

    method ReadLine(line: string, outside: Outside) returns (ok: bool)
      modifies this
      ensures ok <==> ParseLine(old(View()), line, outside).Some?
      ensures ok ==> View() == ParseLine(old(View()), line, outside).value
    {
      var i := IndexOf(line, ' ');
      if i == |line| {
        return false;
      }
      var instruction, arg := line[..i], TrimSpace(line[i + 1..]);
      if instruction == "USE_IMAGE" {
        image := arg;
      } else if instruction == "NAME" {
        name := arg;
      } else if instruction == "SET_WORKDIR" || instruction == "COPY" {
      } else if instruction == "NETWORK" {
        if arg == Global.MAIN_NET {
          return false;
        }
        network := arg;
      } else if instruction == "EXECUTE" {
        commands := commands + [arg];
      } else if instruction == "VOLUME" {
        return outside.volumeOk(arg);
      } else if instruction == "SET_ENV" {
        ok := SetEnv(arg);
        return;
      } else if instruction == "OPEN_PORT" {
        ports := ports + [arg];
      } else if instruction == "START_WITH" {
        var cmd := outside.json(arg);
        if cmd.None? {
          return false;
        }
        commands := cmd.value;
      } else {
        return false;
      }
      return true;
    }

    /** One turn of the scanner loop. */
    method ReadRaw(raw: string, outside: Outside) returns (ok: bool)
      modifies this
      ensures ok <==> ParseRaw(old(View()), raw, outside).Some?
      ensures ok ==> View() == ParseRaw(old(View()), raw, outside).value
    {
      if |raw| >= MAX_LINE {
        return false;
      }
      var line := TrimSpace(DropCR(raw));
      if Skipped(line) {
        return true;
      }
      ok := ReadLine(line, outside);
    }

    method ParseZyFile(text: string, outside: Outside) returns (ok: bool)
      requires View() == EMPTY
      modifies this
      ensures ok <==> Parse(text, outside).Some?
      ensures ok ==> View() == Parse(text, outside).value
    {
      var lines := RawLines(text);
      for k := 0 to |lines|
        invariant ParseLines(lines[..k], outside) == Some(View())
      {
        ParseStep(lines, k, outside);
        ok := ReadRaw(lines[k], outside);
        if !ok {
          ErrorIsFinal(lines, k + 1, outside);
          return false;
        }
      }
      assert lines[..|lines|] == lines;
      return true;
    }
  }

  /** buildEnv: the keys come in any order. */
  method BuildEnv(env: map<string, string>) returns (list: seq<string>)
    ensures BuiltFrom(list, env)
  {
    list := [BUILD_PATH];
    ghost var order: seq<string> := [];
    var todo := env.Keys;
    while todo != {}
      invariant todo <= env.Keys && Distinct(order)
      invariant forall k :: k in order <==> k in env && k !in todo
      invariant |list| == |order| + 1 && list[0] == BUILD_PATH
      invariant forall i | 0 <= i < |order| :: order[i] in env && list[i + 1] == Assignment(env, order[i])
      decreases |todo|
    {
      var key :| key in todo;
      list := list + [Assignment(env, key)];
      order := order + [key];
      todo := todo - {key};
    }
    assert BuiltInOrder(list, env, order);
  }
}
