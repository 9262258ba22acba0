/** Port mappings and the DNAT rules they add to the chain. */
module Ports {
  import opened Text

  const INT_MAX := 0x7FFF_FFFF_FFFF_FFFF
  const INT_MIN := -0x8000_0000_0000_0000

  predicate AllDigits(s: string) {
    s != "" && forall c | c in s :: '0' <= c <= '9'
  }

  /** strconv.Atoi: the value, clamped when out of range and 0 on a syntax error, and whether there was no error. */
  function Atoi(s: string): (int, bool) {
    var negative := s != "" && s[0] == '-';
    var digits := if s != "" && (s[0] == '-' || s[0] == '+') then s[1..] else s;
    if !AllDigits(digits) then (0, false)
    else
      var v := if negative then -Value(digits) else Value(digits);
      if v > INT_MAX then (INT_MAX, false) else if v < INT_MIN then (INT_MIN, false) else (v, true)
  }

  datatype Rule = Rule(hostPort: int, ip: string, containerPort: int)

  /** The rule of one mapping "host:container"; another number of parts gives none. */
  function RuleOf(ip: string, mapping: string): seq<Rule> {
    var parts := Split(mapping, ':');
    if |parts| != 2 then [] else [Rule(Atoi(parts[0]).0, ip, Atoi(parts[1]).0)]
  }

  function RulesOf(ip: string, mappings: seq<string>): seq<Rule> {
    if mappings == [] then [] else RulesOf(ip, mappings[..|mappings| - 1]) + RuleOf(ip, mappings[|mappings| - 1])
  }

  predicate MapsPort(mapping: string, port: int) {
    var parts := Split(mapping, ':');
    |parts| == 2 && Atoi(parts[0]).0 == port
  }

  predicate Maps(mappings: seq<string>, port: int) {
    exists m | m in mappings :: MapsPort(m, port)
  }

  lemma AtoiOfDigits(n: nat)
    requires n <= INT_MAX
    ensures Atoi(Digits(n)) == (n, true)
  {
    ValueOfDigits(n);
    assert Digits(n)[0] in Digits(n);
  }

  /** A printed mapping reads back as the rule from its host port to its container port. */
  lemma RuleOfMapping(ip: string, hostPort: nat, containerPort: nat)
    requires hostPort <= INT_MAX && containerPort <= INT_MAX
    ensures RuleOf(ip, Digits(hostPort) + [':'] + Digits(containerPort)) == [Rule(hostPort, ip, containerPort)]
  {
    SplitFirst(Digits(hostPort), Digits(containerPort), ':');
    SplitSingle(Digits(containerPort), ':');
    AtoiOfDigits(hostPort);
    AtoiOfDigits(containerPort);
  }

  lemma PrintedDigits(n: nat)
    ensures AllDigits(Digits(n)) && Digits(n)[0] != '-' && Digits(n)[0] != '+'
  {
    assert Digits(n)[0] in Digits(n);
  }

  /** A sign is read, and a number out of range is clamped. */
  lemma AtoiOfSigned(n: nat)
    ensures Atoi(['-'] + Digits(n)) == if n > 0x8000_0000_0000_0000 then (INT_MIN, false) else (-(n as int), true)
    ensures Atoi(['+'] + Digits(n)) == Atoi(Digits(n))
    ensures n > 0x7FFF_FFFF_FFFF_FFFF ==> Atoi(Digits(n)) == (INT_MAX, false)
  {
    var digits := Digits(n);
    ValueOfDigits(n);
    PrintedDigits(n);
    assert (['-'] + digits)[1..] == digits && (['+'] + digits)[1..] == digits;
  }

  /** Anything else is an error and reads as 0. */
  lemma AtoiOfOthers(sign: string, rest: string)
    requires sign == "" || sign == "+" || sign == "-"
    requires rest == "" || (rest[0] != '+' && rest[0] != '-' && exists c | c in rest :: !('0' <= c <= '9'))
    ensures Atoi(sign + rest) == (0, false)
  {
    assert sign == "" ==> sign + rest == rest;
    assert sign != "" ==> (sign + rest)[1..] == rest;
  }

  /** A mapping of one part, or of more than two, has no rule. */
  lemma RuleOfParts(ip: string, parts: seq<string>)
    requires parts != [] && |parts| != 2 && forall p | p in parts :: ':' !in p
    ensures RuleOf(ip, Join(parts, ':')) == []
  {
    SplitJoin(parts, ':');
  }

  lemma MapsOneMore(mappings: seq<string>, m: string, port: int)
    ensures Maps(mappings + [m], port) <==> Maps(mappings, port) || MapsPort(m, port)
  {
    assert (mappings + [m])[|mappings|] == m;
  }

  /** The rules of a container carry its address, and their host ports are the ports it maps. */
  lemma {:induction false} RulesAreMappings(ip: string, mappings: seq<string>, port: int)
    ensures forall r | r in RulesOf(ip, mappings) :: r.ip == ip
    ensures Maps(mappings, port) <==> exists r | r in RulesOf(ip, mappings) :: r.hostPort == port
  {
    if mappings != [] {
      var front, last := mappings[..|mappings| - 1], mappings[|mappings| - 1];
      RulesAreMappings(ip, front, port);
      assert mappings == front + [last];
      MapsOneMore(front, last, port);
      var rules, more := RulesOf(ip, front), RuleOf(ip, last);
      assert forall r | r in rules + more :: r in rules || r in more;
      assert forall r | r in rules || r in more :: r in rules + more;
      if MapsPort(last, port) {
        assert more[0] in more && more[0].hostPort == port;
      }
    }
  }

  // ---------- Containers and the chain ----------

  datatype Live = Live(id: string, ip: string, ports: seq<string>)

  datatype State = State(live: seq<Live>, rules: multiset<Rule>)

  predicate PortAcceptable(live: seq<Live>, busy: set<int>, mapping: string) {
    var parts := Split(mapping, ':');
    && |parts| == 2 && Atoi(parts[0]).1
    && Atoi(parts[0]).0 !in busy
    && forall c | c in live :: !Maps(c.ports, Atoi(parts[0]).0)
  }

  predicate PortsFree(live: seq<Live>, busy: set<int>, mappings: seq<string>) {
    forall m | m in mappings :: PortAcceptable(live, busy, m)
  }

  function Share(c: Live): multiset<Rule> {
    multiset(RulesOf(c.ip, c.ports))
  }

  /** The sum of the live containers' port mappings. */
  function Total(live: seq<Live>): multiset<Rule> {
    if live == [] then multiset{} else Share(live[0]) + Total(live[1..])
  }

  datatype Op = Start(c: Live, busy: set<int>) | Stop(id: string)

  function IndexOfId(live: seq<Live>, id: string): (i: nat)
    ensures i <= |live| && (i < |live| ==> live[i].id == id)
  {
    if live == [] || live[0].id == id then 0 else 1 + IndexOfId(live[1..], id)
  }

  function Without(s: State, i: nat): State
    requires i < |s.live|
  {
    State(s.live[..i] + s.live[i + 1..], s.rules - Share(s.live[i]))
  }

  /** An atomic start that reaches persistence, or an atomic stop. */
  function Next(s: State, op: Op): State {
    match op
    case Start(c, busy) =>
      if PortsFree(s.live, busy, c.ports) then State(s.live + [c], s.rules + Share(c)) else s
    case Stop(id) =>
      var i := IndexOfId(s.live, id);
      if i == |s.live| then s else Without(s, i)
  }

  function Run(s: State, ops: seq<Op>): State {
    if ops == [] then s else Next(Run(s, ops[..|ops| - 1]), ops[|ops| - 1])
  }

  ghost predicate Apart(a: Live, b: Live) {
    forall port: int :: !(Maps(a.ports, port) && Maps(b.ports, port))
  }

  /** No host port is mapped by two live containers. */
  ghost predicate PortsApart(live: seq<Live>) {
    forall i, j | 0 <= i < j < |live| :: Apart(live[i], live[j])
  }

  lemma {:induction false} TotalConcat(a: seq<Live>, b: seq<Live>)
    ensures Total(a + b) == Total(a) + Total(b)
  {
    if a == [] {
      assert a + b == b;
    } else {
      assert (a + b)[1..] == a[1..] + b;
      TotalConcat(a[1..], b);
    }
  }

  lemma Regroup(a: multiset<Rule>, b: multiset<Rule>, c: multiset<Rule>)
    ensures a + (b + c) == (a + c) + b
  {
  }

  lemma {:induction false} TotalWithout(live: seq<Live>, i: nat)
    requires i < |live|
    ensures Total(live) == Total(live[..i] + live[i + 1..]) + Share(live[i])
  {
    assert live == live[..i] + ([live[i]] + live[i + 1..]);
    var a, b := live[..i], live[i + 1..];
    assert Total(a + ([live[i]] + b)) == Total(a + b) + Share(live[i]) by {
      TotalConcat(a, [live[i]] + b);
      TotalConcat(a, b);
      assert ([live[i]] + b)[1..] == b;
      Regroup(Total(a), Share(live[i]), Total(b));
    }
  }

  /** The rules are those from before and those of the live containers together. */
  ghost predicate Summed(before: multiset<Rule>, s: State) {
    s.rules == before + Total(s.live)
  }

  function Launched(s: State, c: Live): State {
    State(s.live + [c], s.rules + Share(c))
  }

  lemma {:induction false} LaunchSums(before: multiset<Rule>, s: State, c: Live)
    requires Summed(before, s)
    ensures Summed(before, Launched(s, c))
  {
    TotalConcat(s.live, [c]);
    assert Total([c]) == Share(c) by { assert [c][1..] == []; }
    assert before + Total(s.live) + Share(c) == before + (Total(s.live) + Share(c));
  }

  lemma {:induction false} WithoutSums(before: multiset<Rule>, s: State, i: nat)
    requires i < |s.live| && Summed(before, s)
    ensures Summed(before, Without(s, i))
  {
    TotalWithout(s.live, i);
    assert s.rules - Share(s.live[i]) == before + Total(s.live[..i] + s.live[i + 1..]);
  }

  lemma {:induction false} StopSums(before: multiset<Rule>, s: State, id: string)
    requires Summed(before, s)
    ensures Summed(before, Next(s, Stop(id)))
  {
    if IndexOfId(s.live, id) < |s.live| {
      WithoutSums(before, s, IndexOfId(s.live, id));
    }
  }

  lemma StopKeepsApart(live: seq<Live>, i: nat)
    requires PortsApart(live) && i < |live|
    ensures PortsApart(live[..i] + live[i + 1..])
  {
    var rest := live[..i] + live[i + 1..];
    forall a, b | 0 <= a < b < |rest|
      ensures Apart(rest[a], rest[b])
    {
      var a', b' := if a < i then a else a + 1, if b < i then b else b + 1;
      assert rest[a] == live[a'] && rest[b] == live[b'];
    }
  }

  lemma NextKeepsApart(s: State, op: Op)
    requires PortsApart(s.live)
    ensures PortsApart(Next(s, op).live)
  {
    match op
    case Start(c, busy) =>
      if PortsFree(s.live, busy, c.ports) {
        assert PortsApart(s.live + [c]);
      }
    case Stop(id) =>
      if IndexOfId(s.live, id) < |s.live| {
        StopKeepsApart(s.live, IndexOfId(s.live, id));
      }
  }

  /** Over every run: the rules added are the sum of the live containers' mappings, and no host port is mapped twice. */
  lemma {:induction false} NatIsConserved(before: multiset<Rule>, ops: seq<Op>)
    ensures var s := Run(State([], before), ops); s.rules == before + Total(s.live) && PortsApart(s.live)
  {
    if ops == [] {
      assert before + multiset{} == before;
    } else {
      NatIsConserved(before, ops[..|ops| - 1]);
      var s := Run(State([], before), ops[..|ops| - 1]);
      match ops[|ops| - 1] {
        case Start(c, _) => LaunchSums(before, s, c);
        case Stop(id) => StopSums(before, s, id);
      }
      NextKeepsApart(s, ops[|ops| - 1]);
    }
  }

  predicate HasRule(c: Live, r: Rule) {
    r in RulesOf(c.ip, c.ports)
  }

  predicate InSum(live: seq<Live>, r: Rule) {
    r in Total(live)
  }

  /** A rule of the sum is a rule of the first container or of the others. */
  lemma InFirstOrRest(live: seq<Live>, r: Rule)
    requires InSum(live, r)
    ensures live != [] && (HasRule(live[0], r) || InSum(live[1..], r))
  {
  }

  lemma {:induction false} InTotal(live: seq<Live>, r: Rule) returns (i: nat)
    requires InSum(live, r)
    ensures i < |live| && HasRule(live[i], r)
    decreases |live|
  {
    InFirstOrRest(live, r);
    i := 0;
    if !HasRule(live[0], r) {
      var rest := live[1..];
      var k := InTotal(rest, r);
      i := k + 1;
    }
  }

  /** In every chain that a run builds from an empty one, a host port leads to one address. */
  lemma OneTargetPerPort(ops: seq<Op>, r: Rule, q: Rule)
    requires r in Run(State([], multiset{}), ops).rules && q in Run(State([], multiset{}), ops).rules
    requires r.hostPort == q.hostPort
    ensures r.ip == q.ip
  {
    NatIsConserved(multiset{}, ops);
    var live := Run(State([], multiset{}), ops).live;
    var i := InTotal(live, r);
    var j := InTotal(live, q);
    RulesAreMappings(live[i].ip, live[i].ports, r.hostPort);
    RulesAreMappings(live[j].ip, live[j].ports, r.hostPort);
    assert Maps(live[i].ports, r.hostPort) && Maps(live[j].ports, r.hostPort);
    assert !Apart(live[i], live[j]) && !Apart(live[j], live[i]);
    assert i == j;
  }

  // ---------- Checks and launches apart ----------

  /** The port check of a start, and later the launch that adds its rules; other commands may come between the two. */
  datatype Event = Check(t: nat, c: Live, busy: set<int>) | Launch(t: nat) | Halt(id: string)

  /** `cleared` holds the starts that have passed the check and not launched. */
  datatype Open = Open(state: State, cleared: map<nat, Live>)

  function StepApart(s: Open, e: Event): Open {
    match e
    case Check(t, c, busy) =>
      if PortsFree(s.state.live, busy, c.ports) then s.(cleared := s.cleared[t := c]) else s
    case Launch(t) =>
      if t in s.cleared then Open(Launched(s.state, s.cleared[t]), s.cleared - {t}) else s
    case Halt(id) => s.(state := Next(s.state, Stop(id)))
  }

  function RunApart(before: multiset<Rule>, events: seq<Event>): Open {
    if events == [] then Open(State([], before), map[])
    else StepApart(RunApart(before, events[..|events| - 1]), events[|events| - 1])
  }

  /** Over every interleaving of checks, launches and stops, the rules added are the sum of the live containers'
   *  mappings. */
  lemma {:induction false} RulesAlwaysSum(before: multiset<Rule>, events: seq<Event>)
    ensures var s := RunApart(before, events).state; s.rules == before + Total(s.live)
  {
    if events != [] {
      var s := RunApart(before, events[..|events| - 1]);
      RulesAlwaysSum(before, events[..|events| - 1]);
      match events[|events| - 1]
      case Check(_, _, _) =>
      case Launch(t) =>
        if t in s.cleared {
          LaunchSums(before, s.state, s.cleared[t]);
        }
      case Halt(id) => StopSums(before, s.state, id);
    }
  }

  /** A container that is launched maps no port of a container that is live by then. */
  ghost predicate LaunchesFree(s: Open, e: Event) {
    e.Launch? && e.t in s.cleared ==> forall x | x in s.state.live :: Apart(x, s.cleared[e.t])
  }

  lemma LaunchKeepsApart(live: seq<Live>, c: Live)
    requires PortsApart(live)
    ensures PortsApart(live + [c]) <==> forall x | x in live :: Apart(x, c)
  {
    var after := live + [c];
    if PortsApart(after) {
      forall x | x in live
        ensures Apart(x, c)
      {
        var i :| 0 <= i < |live| && live[i] == x;
        assert Apart(after[i], after[|live|]);
      }
    }
  }

  lemma StepKeepsApart(s: Open, e: Event)
    requires PortsApart(s.state.live)
    ensures PortsApart(StepApart(s, e).state.live) <==> LaunchesFree(s, e)
  {
    match e
    case Check(_, _, _) =>
    case Launch(t) =>
      if t in s.cleared {
        LaunchKeepsApart(s.state.live, s.cleared[t]);
      }
    case Halt(id) =>
      var i := IndexOfId(s.state.live, id);
      if i < |s.state.live| {
        StopKeepsApart(s.state.live, i);
      }
  }

  lemma {:induction false} FreeLaunchesKeepApart(before: multiset<Rule>, events: seq<Event>, k: nat)
    requires k <= |events| && forall j | 0 <= j < k :: LaunchesFree(RunApart(before, events[..j]), events[j])
    ensures PortsApart(RunApart(before, events[..k]).state.live)
  {
    if k > 0 {
      FreeLaunchesKeepApart(before, events, k - 1);
      assert events[..k][..k - 1] == events[..k - 1];
      StepKeepsApart(RunApart(before, events[..k - 1]), events[k - 1]);
    }
  }

  /** Over every interleaving no host port is ever mapped twice exactly when every launch still finds its ports free:
   *  the check before does not ensure it. */
  lemma {:induction false} PortsStayApartExactly(before: multiset<Rule>, events: seq<Event>)
    ensures (forall k | 0 <= k <= |events| :: PortsApart(RunApart(before, events[..k]).state.live)) <==>
            (forall k | 0 <= k < |events| :: LaunchesFree(RunApart(before, events[..k]), events[k]))
  {
    if forall k | 0 <= k <= |events| :: PortsApart(RunApart(before, events[..k]).state.live) {
      forall k | 0 <= k < |events|
        ensures LaunchesFree(RunApart(before, events[..k]), events[k])
      {
        assert PortsApart(RunApart(before, events[..k]).state.live);
        assert PortsApart(RunApart(before, events[..k + 1]).state.live);
        assert events[..k + 1][..k] == events[..k];
        StepKeepsApart(RunApart(before, events[..k]), events[k]);
      }
    }
    if forall k | 0 <= k < |events| :: LaunchesFree(RunApart(before, events[..k]), events[k]) {
      forall k | 0 <= k <= |events|
        ensures PortsApart(RunApart(before, events[..k]).state.live)
      {
        FreeLaunchesKeepApart(before, events, k);
      }
    }
  }

  lemma ApartSnoc(before: multiset<Rule>, events: seq<Event>, e: Event)
    ensures RunApart(before, events + [e]) == StepApart(RunApart(before, events), e)
  {
    assert (events + [e])[..|events|] == events;
  }

  lemma BothMap(a: Live, b: Live, port: int)
    requires Maps(a.ports, port) && Maps(b.ports, port)
    ensures !PortsApart([a, b])
  {
    assert !Apart([a, b][0], [a, b][1]);
  }

  lemma {:induction false} TwoChecks(before: multiset<Rule>, a: Live, b: Live)
    requires PortsFree([], {}, a.ports) && PortsFree([], {}, b.ports)
    ensures RunApart(before, [Check(0, a, {}), Check(1, b, {})]) == Open(State([], before), map[0 := a, 1 := b])
  {
    ApartSnoc(before, [], Check(0, a, {}));
    ApartSnoc(before, [Check(0, a, {})], Check(1, b, {}));
    assert [] + [Check(0, a, {})] == [Check(0, a, {})];
    assert [Check(0, a, {})] + [Check(1, b, {})] == [Check(0, a, {}), Check(1, b, {})];
  }

  /** Two starts that both check first can map the same port. */
  lemma {:induction false} PortsCanBeMappedTwice(before: multiset<Rule>, a: Live, b: Live, port: int)
    requires PortsFree([], {}, a.ports) && PortsFree([], {}, b.ports) && Maps(a.ports, port) && Maps(b.ports, port)
    ensures var s := RunApart(before, [Check(0, a, {}), Check(1, b, {})] + [Launch(0)] + [Launch(1)]).state;
            s.live == [a, b] && !PortsApart(s.live)
  {
    var checks := [Check(0, a, {}), Check(1, b, {})];
    TwoChecks(before, a, b);
    ApartSnoc(before, checks, Launch(0));
    ApartSnoc(before, checks + [Launch(0)], Launch(1));
    assert StepApart(StepApart(RunApart(before, checks), Launch(0)), Launch(1)).state.live == [a, b];
    BothMap(a, b, port);
  }

  // ---------- The loops ----------

  method AddPorts(before: map<int, string>, c: Live) returns (used: map<int, string>)
    ensures forall port :: port in used <==> port in before || Maps(c.ports, port)
  {
    used := before;
    for j := 0 to |c.ports|
      invariant forall port :: port in used <==> port in before || Maps(c.ports[..j], port)
    {
      assert c.ports[..j + 1] == c.ports[..j] + [c.ports[j]];
      var parts := Split(c.ports[j], ':');
      if |parts| == 2 {
        used := used[Atoi(parts[0]).0 := c.id];
      }
      forall port
        ensures Maps(c.ports[..j + 1], port) <==> Maps(c.ports[..j], port) || (|parts| == 2 && port == Atoi(parts[0]).0)
      {
        MapsOneMore(c.ports[..j], c.ports[j], port);
      }
    }
    assert c.ports[..|c.ports|] == c.ports;
  }

  /** The host ports of the listed containers. */
  method UsedPorts(live: seq<Live>) returns (used: map<int, string>)
    ensures forall port :: port in used <==> exists c | c in live :: Maps(c.ports, port)
  {
    used := map[];
    for i := 0 to |live|
      invariant forall port :: port in used <==> exists c | c in live[..i] :: Maps(c.ports, port)
    {
      used := AddPorts(used, live[i]);
      assert live[..i + 1] == live[..i] + [live[i]];
    }
    assert live[..|live|] == live;
  }

  method ArePortsFree(live: seq<Live>, mappings: seq<string>, busy: set<int>) returns (ok: bool)
    ensures ok <==> PortsFree(live, busy, mappings)
    ensures ok <==> forall m | m in mappings ::
                      var parts := Split(m, ':');
                      && |parts| == 2 && Atoi(parts[0]).1 && Atoi(parts[0]).0 !in busy
                      && forall c | c in live :: !Maps(c.ports, Atoi(parts[0]).0)
  {
    var used := UsedPorts(live);
    for i := 0 to |mappings|
      invariant forall j | 0 <= j < i :: PortAcceptable(live, busy, mappings[j])
    {
      assert mappings[i] in mappings;
      var parts := Split(mappings[i], ':');
      if |parts| != 2 || !Atoi(parts[0]).1 {
        return false;
      }
      var hostPort := Atoi(parts[0]).0;
      if hostPort in busy || hostPort in used {
        return false;
      }
    }
    return true;
  }

  lemma MinusTwice(a: multiset<Rule>, b: multiset<Rule>, c: multiset<Rule>)
    ensures a - b - c == a - (b + c)
  {
  }

  lemma RulesOfOneMore(ip: string, mappings: seq<string>, i: nat)
    requires i < |mappings|
    ensures var parts := Split(mappings[i], ':');
            multiset(RulesOf(ip, mappings[..i + 1])) ==
            multiset(RulesOf(ip, mappings[..i])) +
            if |parts| == 2 then multiset{Rule(Atoi(parts[0]).0, ip, Atoi(parts[1]).0)} else multiset{}
  {
    assert mappings[..i + 1][..i] == mappings[..i];
  }

  function Min(a: nat, b: nat): nat {
    if a < b then a else b
  }

  /** The rules of the first n mappings. */
  function RulesUpTo(ip: string, mappings: seq<string>, n: nat): multiset<Rule>
    requires n <= |mappings|
  {
    if n == 0 then multiset{} else RulesUpTo(ip, mappings, n - 1) + multiset(RuleOf(ip, mappings[n - 1]))
  }

  lemma RulesOfLast(ip: string, mappings: seq<string>, n: nat)
    requires 0 < n <= |mappings|
    ensures RulesOf(ip, mappings[..n]) == RulesOf(ip, mappings[..n - 1]) + RuleOf(ip, mappings[n - 1])
  {
    assert mappings[..n][..n - 1] == mappings[..n - 1];
  }

  lemma {:induction false} RulesUpToAreRules(ip: string, mappings: seq<string>, n: nat)
    requires n <= |mappings|
    ensures RulesUpTo(ip, mappings, n) == multiset(RulesOf(ip, mappings[..n]))
  {
    if n > 0 {
      RulesUpToAreRules(ip, mappings, n - 1);
      RulesOfLast(ip, mappings, n);
      var rules, more := RulesOf(ip, mappings[..n - 1]), RuleOf(ip, mappings[n - 1]);
      assert multiset(rules + more) == multiset(rules) + multiset(more);
    }
  }

  /** The turn for one mapping can only fail when the mapping has a rule. */
  predicate Accepts(mapping: string, canAdd: bool) {
    |Split(mapping, ':')| != 2 || canAdd
  }

  /** The first mapping from i on that has a rule which iptables does not take. */
  function FirstRefused(mappings: seq<string>, refused: nat, i: nat): nat
    requires i <= |mappings|
    decreases |mappings| - i
  {
    if i == |mappings| || !Accepts(mappings[i], i < refused) then i else FirstRefused(mappings, refused, i + 1)
  }

  /** What the first i turns of the port loop add, when iptables takes no rule from mapping `refused` on. */
  function AddedRules(ip: string, mappings: seq<string>, refused: nat, i: nat): multiset<Rule>
    requires i <= |mappings|
  {
    RulesUpTo(ip, mappings, Min(i, refused))
  }

  lemma AddedNext(start: multiset<Rule>, ip: string, mappings: seq<string>, refused: nat, i: nat)
    requires i < |mappings|
    ensures var before := start + AddedRules(ip, mappings, refused, i);
            if Accepts(mappings[i], i < refused)
            then start + AddedRules(ip, mappings, refused, i + 1) == before + multiset(RuleOf(ip, mappings[i]))
            else start + AddedRules(ip, mappings, refused, |mappings|) == before
  {
  }

  lemma {:induction false} NoneRefused(mappings: seq<string>, refused: nat, i: nat)
    requires i <= |mappings|
    ensures FirstRefused(mappings, refused, i) == |mappings| <==>
            forall k | i <= k < |mappings| && refused <= k :: |Split(mappings[k], ':')| != 2
    decreases |mappings| - i
  {
    if i < |mappings| {
      NoneRefused(mappings, refused, i + 1);
    }
  }

  /** Only mappings without a rule come after those that iptables takes rules for. */
  predicate NoneIsRefused(mappings: seq<string>, refused: nat) {
    forall k | refused <= k < |mappings| :: |Split(mappings[k], ':')| != 2
  }

  /** The rules of the mappings that iptables takes rules for. */
  function RulesOfTaken(ip: string, mappings: seq<string>, refused: nat): multiset<Rule> {
    multiset(RulesOf(ip, if refused < |mappings| then mappings[..refused] else mappings))
  }

  lemma AddedInAll(ip: string, mappings: seq<string>, refused: nat)
    ensures AddedRules(ip, mappings, refused, |mappings|) == RulesOfTaken(ip, mappings, refused)
    ensures FirstRefused(mappings, refused, 0) == |mappings| <==> NoneIsRefused(mappings, refused)
  {
    RulesUpToAreRules(ip, mappings, Min(|mappings|, refused));
    assert mappings[..|mappings|] == mappings;
    NoneRefused(mappings, refused, 0);
  }

  /** The DNAT chain. */
  class Chain {
    var rules: multiset<Rule>

    constructor ()
      ensures rules == multiset{}
    {
      rules := multiset{};
    }

    method AddPortForward(hostPort: int, ip: string, containerPort: int)
      modifies this
      ensures rules == old(rules) + multiset{Rule(hostPort, ip, containerPort)}
    {
      rules := rules + multiset{Rule(hostPort, ip, containerPort)};
    }

    /** Deletes one matching rule, if there is one. */
    method RemovePortForward(hostPort: int, ip: string, containerPort: int)
      modifies this
      ensures rules == old(rules) - multiset{Rule(hostPort, ip, containerPort)}
    {
      rules := rules - multiset{Rule(hostPort, ip, containerPort)};
    }

    /** One turn of the port loop of SetupNetwork. */
    method SetupForward(ip: string, mapping: string, canAdd: bool) returns (ok: bool)
      modifies this
      ensures ok <==> Accepts(mapping, canAdd)
      ensures rules == if ok then old(rules) + multiset(RuleOf(ip, mapping)) else old(rules)
    {
      var parts := Split(mapping, ':');
      if |parts| != 2 {
        return true;
      }
      if canAdd {
        AddPortForward(Atoi(parts[0]).0, ip, Atoi(parts[1]).0);
      }
      return canAdd;
    }

    /** The port loop of SetupNetwork; from mapping `refused` on, iptables takes no rule. */
    method SetupForwards(ip: string, mappings: seq<string>, refused: nat) returns (ok: bool)
      modifies this
      ensures ok <==> NoneIsRefused(mappings, refused)
      ensures rules == old(rules) + RulesOfTaken(ip, mappings, refused)
    {
      for i := 0 to |mappings|
        invariant FirstRefused(mappings, refused, 0) == FirstRefused(mappings, refused, i)
        invariant rules == old(rules) + AddedRules(ip, mappings, refused, i)
      {
        AddedNext(old(rules), ip, mappings, refused, i);
        ok := SetupForward(ip, mappings[i], i < refused);
        if !ok {
          AddedInAll(ip, mappings, refused);
          return;
        }
      }
      AddedInAll(ip, mappings, refused);
      return true;
    }

    /** The port loop of CleanupNetwork. */
    method RemoveForwards(ip: string, mappings: seq<string>)
      modifies this
      ensures rules == old(rules) - multiset(RulesOf(ip, mappings))
    {
      for i := 0 to |mappings|
        invariant rules == old(rules) - multiset(RulesOf(ip, mappings[..i]))
      {
        RulesOfOneMore(ip, mappings, i);
        var parts := Split(mappings[i], ':');
        if |parts| != 2 {
          continue;
        }
        RemovePortForward(Atoi(parts[0]).0, ip, Atoi(parts[1]).0);
        var rule := Rule(Atoi(parts[0]).0, ip, Atoi(parts[1]).0);
        MinusTwice(old(rules), multiset(RulesOf(ip, mappings[..i])), multiset{rule});
      }
      assert mappings[..|mappings|] == mappings;
    }
  }
}
