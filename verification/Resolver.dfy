/** How a resolver reads a hosts file: on each line an address, and then the names it stands for. */
module Resolver {
  import opened Text
  import opened Wrappers

  predicate IsBlank(c: char) {
    c == ' ' || c == '\t'
  }

  /** A word ends at a blank, at a comment, or with the line. */
  predicate InWord(c: char) {
    !IsBlank(c) && c != '#'
  }

  predicate Word(s: string) {
    s != "" && OneLine(s) && forall c | c in s :: InWord(c)
  }

  function WordLength(s: string): (n: nat)
    ensures n <= |s|
    ensures forall i | 0 <= i < n :: InWord(s[i])
    ensures n < |s| ==> !InWord(s[n])
  {
    if s == "" || !InWord(s[0]) then 0 else 1 + WordLength(s[1..])
  }

  /** The words of a line before its comment. */
  function Fields(line: string): seq<string>
    decreases |line|
  {
    if line == "" || line[0] == '#' then []
    else if IsBlank(line[0]) then Fields(line[1..])
    else
      var n := WordLength(line);
      [line[..n]] + Fields(line[n..])
  }

  /** The words after the first one are names. */
  predicate Gives(line: string, name: string) {
    var fields := Fields(line);
    fields != [] && name in fields[1..]
  }

  /** The address on the first line that gives the name. */
  function Resolve(lines: seq<string>, name: string): Option<string> {
    if lines == [] then None
    else if Gives(lines[0], name) then Some(Fields(lines[0])[0])
    else Resolve(lines[1..], name)
  }

  // ---------- Reading a line ----------

  lemma BlankIsSkipped(c: char, rest: string)
    requires IsBlank(c)
    ensures Fields([c] + rest) == Fields(rest)
  {
    assert ([c] + rest)[1..] == rest;
  }

  lemma {:induction false} BlanksAreSkipped(blanks: string, rest: string)
    requires forall c | c in blanks :: IsBlank(c)
    ensures Fields(blanks + rest) == Fields(rest)
    decreases |blanks|
  {
    if blanks == "" {
      assert blanks + rest == rest;
    } else {
      BlanksAreSkipped(blanks[1..], rest);
      BlankIsSkipped(blanks[0], blanks[1..] + rest);
      assert blanks + rest == [blanks[0]] + (blanks[1..] + rest);
    }
  }

  lemma {:induction false} LengthOfWord(word: string, rest: string)
    requires forall c | c in word :: InWord(c)
    requires rest == "" || !InWord(rest[0])
    ensures WordLength(word + rest) == |word|
  {
    if word == "" {
      assert word + rest == rest;
    } else {
      LengthOfWord(word[1..], rest);
      assert (word + rest)[1..] == word[1..] + rest;
    }
  }

  lemma FirstField(word: string, rest: string)
    requires Word(word) && (rest == "" || !InWord(rest[0]))
    ensures Fields(word + rest) == [word] + Fields(rest)
  {
    LengthOfWord(word, rest);
    var line := word + rest;
    assert InWord(line[0]);
    assert line[..|word|] == word && line[|word|..] == rest;
  }

  lemma LastField(word: string)
    requires Word(word)
    ensures Fields(word) == [word]
  {
    FirstField(word, "");
    assert word + "" == word;
  }

  /** A word, blanks, and what is read next. */
  lemma NextField(word: string, blanks: string, rest: string)
    requires Word(word) && blanks != "" && forall c | c in blanks :: IsBlank(c)
    ensures Fields(word + blanks + rest) == [word] + Fields(rest)
  {
    FirstField(word, blanks + rest);
    BlanksAreSkipped(blanks, rest);
    assert word + blanks + rest == word + (blanks + rest);
  }

  lemma ContainsInRest(line: string, n: nat, s: string)
    requires n <= |line| && Contains(line[n..], s)
    ensures Contains(line, s)
  {
    var i :| 0 <= i <= |line[n..]| && OccursAt(line[n..], s, i);
    assert line[n..][i..] == line[n + i..];
    assert OccursAt(line, s, n + i);
  }

  /** How a nonempty line is read: its first blank or word, and the rest. */
  lemma FieldsStep(line: string) returns (n: nat)
    requires Fields(line) != []
    ensures 0 < n <= |line|
    ensures Fields(line) == Fields(line[n..]) || Fields(line) == [line[..n]] + Fields(line[n..])
  {
    n := if IsBlank(line[0]) then 1 else WordLength(line);
  }

  /** Every word that is read stands in the line. */
  lemma {:induction false} FieldsAreParts(line: string, s: string)
    requires s in Fields(line)
    ensures Contains(line, s)
    decreases |line|
  {
    var n := FieldsStep(line);
    if s in Fields(line[n..]) {
      FieldsAreParts(line[n..], s);
      ContainsInRest(line, n, s);
    } else {
      assert Contains(line, line[..n]) by {
        assert line[0..] == line;
        assert OccursAt(line, line[..n], 0);
      }
    }
  }

  // ---------- Reading a file ----------

  lemma {:induction false} ResolveConcat(a: seq<string>, b: seq<string>, name: string)
    ensures Resolve(a + b, name) == if Resolve(a, name).Some? then Resolve(a, name) else Resolve(b, name)
  {
    if a == [] {
      assert a + b == b;
    } else {
      ResolveConcat(a[1..], b, name);
      assert (a + b)[1..] == a[1..] + b;
    }
  }

  /** What the first lines resolve stays so. */
  lemma ResolveStart(start: seq<string>, lines: seq<string>, name: string)
    requires start <= lines && Resolve(start, name).Some?
    ensures Resolve(lines, name) == Resolve(start, name)
  {
    ResolveConcat(start, lines[|start|..], name);
    assert lines == start + lines[|start|..];
  }

  lemma {:induction false} NothingGives(lines: seq<string>, name: string)
    requires forall line | line in lines :: !Gives(line, name)
    ensures Resolve(lines, name) == None
  {
    if lines != [] {
      assert lines[0] in lines;
      NothingGives(lines[1..], name);
    }
  }

  /** When all lines that give a name have the same address, their order does not matter. */
  lemma {:induction false} AllGive(lines: seq<string>, name: string, ip: string)
    requires exists line | line in lines :: Gives(line, name)
    requires forall line | line in lines && Gives(line, name) :: Fields(line)[0] == ip
    ensures Resolve(lines, name) == Some(ip)
  {
    assert lines[0] in lines;
    if !Gives(lines[0], name) {
      var line :| line in lines && Gives(line, name);
      assert line in lines[1..];
      AllGive(lines[1..], name, ip);
    }
  }

  /** A filter that keeps the lines that give a name keeps what it resolves to. */
  lemma {:induction false} ResolveFiltered(keep: string -> bool, lines: seq<string>, name: string)
    requires forall line | line in lines && Gives(line, name) :: keep(line)
    ensures Resolve(Filter(keep, lines), name) == Resolve(lines, name)
  {
    if lines != [] {
      assert lines[0] in lines;
      ResolveFiltered(keep, lines[1..], name);
      ResolveConcat(if keep(lines[0]) then [lines[0]] else [], Filter(keep, lines[1..]), name);
      assert [lines[0]][1..] == [];
    }
  }
}
