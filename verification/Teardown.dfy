/** Stopping a container: the steps of an explicit `down` and of the deferred cleanup of `run`, in any interleaving. */
module Teardown {
  import opened Text

  import Global
  import Names
  import Ports
  import Volumes

  datatype VolumeRef = VolumeRef(name: string, hostPath: string)

  datatype Container = Container(id: string, name: string, volumes: seq<VolumeRef>, network: string, ip: string,
                                 ports: seq<string>)

  /** A container's place in the config of a network. */
  datatype Slot = Slot(network: string, id: string)

  /** The stores that a teardown changes. `addresses` are those that the network configs hold, and `persisted` holds the
   *  runtime directories. */
  datatype World = World(volumes: Volumes.Registry, names: Names.Registry, addresses: map<Slot, string>,
                         rules: multiset<Ports.Rule>, persisted: map<string, Container>)

  // ---------- Steps ----------

  datatype Act =
    | Unmark(name: string, path: string)
    | ReleaseMain
    | Unforward(rule: Ports.Rule)
    | Unregister(id: string)
    | Forget

  /** A volume is selected by its name if it has one, else by its path. */
  function UnmarkOf(v: VolumeRef): Act {
    if v.name != "" then Unmark(v.name, "") else Unmark("", v.hostPath)
  }

  function UnmarkAll(vs: seq<VolumeRef>): seq<Act> {
    seq(|vs|, i requires 0 <= i < |vs| => UnmarkOf(vs[i]))
  }

  function UnforwardAll(rules: seq<Ports.Rule>): seq<Act> {
    seq(|rules|, i requires 0 <= i < |rules| => Unforward(rules[i]))
  }

  function Rules(c: Container): seq<Ports.Rule> {
    if c.ip == "" then [] else Ports.RulesOf(c.ip, c.ports)
  }

  /** What `down` does after it has read the container's state. */
  function Body(c: Container): seq<Act> {
    UnmarkAll(c.volumes)
    + (if c.ip == "" then [] else [ReleaseMain])
    + UnforwardAll(Rules(c))
    + (if c.name == "" then [] else [Unregister(c.id)])
    + [Forget]
  }

  /** What the deferred cleanup does before it calls `down`: it unregisters the name where an id is expected. */
  function Preamble(c: Container): seq<Act> {
    UnmarkAll(c.volumes) + if c.name == "" then [] else [Unregister(c.name)]
  }

  /** Where every release looks, whatever the container's network. */
  function MainSlot(id: string): Slot {
    Slot(Global.MAIN_NET, id)
  }

  function Do(w: World, a: Act, id: string): World {
    match a
    case Unmark(name, path) => w.(volumes := Volumes.MarkedUnused(w.volumes, name, path, id))
    case ReleaseMain => w.(addresses := w.addresses - {MainSlot(id)})
    case Unforward(rule) => w.(rules := w.rules - multiset{rule})
    case Unregister(x) => w.(names := Names.Unregistered(w.names, x))
    case Forget => w.(persisted := w.persisted - {id})
  }

  function DoAll(w: World, acts: seq<Act>, id: string): World {
    if acts == [] then w else Do(DoAll(w, acts[..|acts| - 1], id), acts[|acts| - 1], id)
  }

  // ---------- The result of one teardown ----------

  predicate Chosen(reg: Volumes.Registry, c: Container, i: nat) {
    exists a | a in UnmarkAll(c.volumes) :: a.Unmark? && Volumes.MatchIndex(reg, a.name, a.path) == i
  }

  function Cleared(rules: multiset<Ports.Rule>, gone: seq<Ports.Rule>): multiset<Ports.Rule> {
    if gone == [] then rules else Cleared(rules, gone[1..])[gone[0] := 0]
  }

  /** No volume of the container lists it, its address in the main network, its rules and its state are gone, and so
   *  are the names registered for the dropped ids. */
  function Torn(w: World, c: Container, dropped: set<string>): World {
    World(seq(|w.volumes|, i requires 0 <= i < |w.volumes| =>
              if Chosen(w.volumes, c, i) then Volumes.WithoutUsers(w.volumes[i], {c.id}) else w.volumes[i]),
          Filter(Names.NotFrom(dropped), w.names),
          if c.ip == "" then w.addresses else w.addresses - {MainSlot(c.id)},
          Cleared(w.rules, Rules(c)),
          w.persisted - {c.id})
  }

  /** The ids whose names a teardown drops. */
  function Dropped(c: Container, withCleanup: bool): set<string> {
    if c.name == "" then {} else if withCleanup then {c.id, c.name} else {c.id}
  }

  // ---------- Threads ----------

  /** Before it reads the state, after it has read it, or after the state was already gone. */
  datatype Thread = Before(acts: seq<Act>) | Running(acts: seq<Act>) | Aborted

  predicate Finished(t: Thread) {
    t.Aborted? || (t.Running? && t.acts == [])
  }

  datatype State = State(w: World, first: Thread, second: Thread)

  function Advance(w: World, t: Thread, c: Container): (World, Thread) {
    match t
    case Aborted => (w, t)
    case Before(acts) =>
      if acts != [] then (Do(w, acts[0], c.id), Before(acts[1..]))
      else (w, if c.id in w.persisted then Running(Body(c)) else Aborted)
    case Running(acts) => if acts == [] then (w, t) else (Do(w, acts[0], c.id), Running(acts[1..]))
  }

  /** One step of the first thread or of the second. */
  function Step(s: State, firstMoves: bool, c: Container): State {
    if firstMoves then
      var r := Advance(s.w, s.first, c);
      State(r.0, r.1, s.second)
    else
      var r := Advance(s.w, s.second, c);
      State(r.0, s.first, r.1)
  }

  function Run(s: State, schedule: seq<bool>, c: Container): State {
    if schedule == [] then s else Step(Run(s, schedule[..|schedule| - 1], c), schedule[|schedule| - 1], c)
  }

  /** Explicit `down` and, when there is one, the deferred cleanup. */
  function Init(w: World, c: Container, withCleanup: bool): State {
    State(w, Before([]), if withCleanup then Before(Preamble(c)) else Aborted)
  }

  // ---------- Settled steps ----------

  /** The step has nothing left to do. */
  predicate Settled(w: World, a: Act, id: string) {
    match a
    case Unmark(name, path) =>
      var i := Volumes.MatchIndex(w.volumes, name, path);
      i < |w.volumes| ==> id !in w.volumes[i].usedBy
    case ReleaseMain => MainSlot(id) !in w.addresses
    case Unforward(rule) => rule !in w.rules
    case Unregister(x) => forall n | n in w.names :: n.container != x
    case Forget => id !in w.persisted
  }

  lemma UnmarkAt(reg: Volumes.Registry, name: string, path: string, id: string, j: nat)
    requires j < |reg|
    ensures var reg' := Volumes.MarkedUnused(reg, name, path, id);
            |reg'| == |reg| &&
            reg'[j] == if j == Volumes.MatchIndex(reg, name, path) then Volumes.WithoutUsers(reg[j], {id}) else reg[j]
  {
  }

  lemma UnmarkKeepsIndex(reg: Volumes.Registry, name: string, path: string, id: string, name': string, path': string)
    ensures Volumes.MatchIndex(Volumes.MarkedUnused(reg, name, path, id), name', path') ==
            Volumes.MatchIndex(reg, name', path')
  {
    var i := Volumes.MatchIndex(reg, name, path);
    if i < |reg| {
      var reg' := Volumes.MarkedUnused(reg, name, path, id);
      var m, m' := Volumes.MatchIndex(reg, name', path'), Volumes.MatchIndex(reg', name', path');
      assert forall j | 0 <= j < |reg| ::
               Volumes.Matches(reg'[j], name', path') <==> Volumes.Matches(reg[j], name', path');
      assert m < |reg| ==> m' <= m;
      assert m' < |reg| ==> m <= m';
    }
  }

  lemma FilterUserTwice(v: Volumes.Volume, id: string)
    ensures Volumes.WithoutUsers(Volumes.WithoutUsers(v, {id}), {id}) == Volumes.WithoutUsers(v, {id})
    ensures id !in v.usedBy ==> Volumes.WithoutUsers(v, {id}) == v
  {
    FilterAll(Volumes.NotAmong({id}), Filter(Volumes.NotAmong({id}), v.usedBy));
    if id !in v.usedBy {
      FilterAll(Volumes.NotAmong({id}), v.usedBy);
    }
  }

  /** A step settles itself, except that a rule with several copies loses one. */
  lemma DoSettles(w: World, a: Act, id: string)
    requires !a.Unforward?
    ensures Settled(Do(w, a, id), a, id)
  {
    if a.Unmark? {
      UnmarkKeepsIndex(w.volumes, a.name, a.path, id, a.name, a.path);
    }
  }

  /** No step of a teardown unsettles another. */
  lemma DoKeepsSettled(w: World, a: Act, b: Act, id: string)
    requires Settled(w, b, id)
    ensures Settled(Do(w, a, id), b, id)
  {
    if a.Unmark? && b.Unmark? {
      UnmarkKeepsIndex(w.volumes, a.name, a.path, id, b.name, b.path);
      var i := Volumes.MatchIndex(w.volumes, b.name, b.path);
      if i < |w.volumes| {
        UnmarkAt(w.volumes, a.name, a.path, id, i);
      }
    }
  }

  // ---------- Every step is part of the result ----------

  lemma ClearedCounts(rules: multiset<Ports.Rule>, gone: seq<Ports.Rule>, rule: Ports.Rule)
    ensures Cleared(rules, gone)[rule] == if rule in gone then 0 else rules[rule]
  {
    if gone != [] {
      ClearedCounts(rules, gone[1..], rule);
    }
  }

  lemma RuleAbsorbed(rules: multiset<Ports.Rule>, gone: seq<Ports.Rule>, rule: Ports.Rule)
    requires rule in gone
    ensures Cleared(rules - multiset{rule}, gone) == Cleared(rules, gone)
  {
    forall r
      ensures Cleared(rules - multiset{rule}, gone)[r] == Cleared(rules, gone)[r]
    {
      ClearedCounts(rules - multiset{rule}, gone, r);
      ClearedCounts(rules, gone, r);
    }
  }

  lemma UnmarkAbsorbed(w: World, c: Container, dropped: set<string>, a: Act)
    requires a.Unmark? && a in UnmarkAll(c.volumes)
    ensures Torn(Do(w, a, c.id), c, dropped).volumes == Torn(w, c, dropped).volumes
  {
    var w' := Do(w, a, c.id);
    forall j | 0 <= j < |w.volumes|
      ensures Torn(w', c, dropped).volumes[j] == Torn(w, c, dropped).volumes[j]
    {
      UnmarkAt(w.volumes, a.name, a.path, c.id, j);
      FilterUserTwice(w.volumes[j], c.id);
      assert Chosen(w'.volumes, c, j) <==> Chosen(w.volumes, c, j) by {
        forall b | b in UnmarkAll(c.volumes) && b.Unmark?
          ensures Volumes.MatchIndex(w'.volumes, b.name, b.path) == Volumes.MatchIndex(w.volumes, b.name, b.path)
        {
          UnmarkKeepsIndex(w.volumes, a.name, a.path, c.id, b.name, b.path);
        }
      }
    }
  }

  /** The steps of the body, by kind. */
  lemma BodyActs(c: Container, a: Act)
    ensures a in Body(c) <==>
            match a
            case Unmark(_, _) => a in UnmarkAll(c.volumes)
            case ReleaseMain => c.ip != ""
            case Unforward(rule) => rule in Rules(c)
            case Unregister(x) => c.name != "" && x == c.id
            case Forget => true
  {
    var release := if c.ip == "" then [] else [ReleaseMain];
    var unregister := if c.name == "" then [] else [Unregister(c.id)];
    var forwards := UnforwardAll(Rules(c));
    assert a in Body(c) <==>
           a in UnmarkAll(c.volumes) || a in release || a in forwards || a in unregister || a == Forget;
    assert forall b | b in UnmarkAll(c.volumes) :: b.Unmark?;
    assert forall b | b in forwards :: b.Unforward?;
    if a.Unforward? {
      if a in forwards {
        var i :| 0 <= i < |forwards| && forwards[i] == a;
        assert Rules(c)[i] == a.rule;
      }
      if a.rule in Rules(c) {
        var i :| 0 <= i < |Rules(c)| && Rules(c)[i] == a.rule;
        assert forwards[i] == a;
      }
    }
  }

  /** Doing a step early does not change the result. */
  lemma StepAbsorbed(w: World, c: Container, dropped: set<string>, a: Act)
    requires a.Unregister? ==> a.id in dropped
    requires a.Unregister? || a in Body(c)
    ensures Torn(Do(w, a, c.id), c, dropped) == Torn(w, c, dropped)
  {
    BodyActs(c, a);
    match a
    case Unmark(name, path) => UnmarkAbsorbed(w, c, dropped, a);
    case Unforward(rule) => RuleAbsorbed(w.rules, Rules(c), rule);
    case Unregister(x) =>
      FilterTwice(Names.NotFrom({x}), Names.NotFrom(dropped), Names.NotFrom(dropped), w.names);
    case _ =>
  }

  lemma SettledVolumes(w: World, c: Container, dropped: set<string>)
    requires forall a | a in Body(c) :: Settled(w, a, c.id)
    ensures Torn(w, c, dropped).volumes == w.volumes
  {
    forall j | 0 <= j < |w.volumes|
      ensures Torn(w, c, dropped).volumes[j] == w.volumes[j]
    {
      if Chosen(w.volumes, c, j) {
        var a :| a in UnmarkAll(c.volumes) && a.Unmark? && Volumes.MatchIndex(w.volumes, a.name, a.path) == j;
        BodyActs(c, a);
        assert Settled(w, a, c.id);
        FilterUserTwice(w.volumes[j], c.id);
      }
    }
  }

  lemma SettledRules(w: World, c: Container)
    requires forall a | a in Body(c) :: Settled(w, a, c.id)
    ensures Cleared(w.rules, Rules(c)) == w.rules
  {
    forall r
      ensures Cleared(w.rules, Rules(c))[r] == w.rules[r]
    {
      ClearedCounts(w.rules, Rules(c), r);
      if r in Rules(c) {
        BodyActs(c, Unforward(r));
        assert Settled(w, Unforward(r), c.id);
      }
    }
  }

  lemma SettledNames(w: World, dropped: set<string>, id: string)
    requires forall x | x in dropped :: Settled(w, Unregister(x), id)
    ensures Filter(Names.NotFrom(dropped), w.names) == w.names
  {
    forall n | n in w.names
      ensures n.container !in dropped
    {
      assert n.container in dropped ==> Settled(w, Unregister(n.container), id);
    }
    FilterAll(Names.NotFrom(dropped), w.names);
  }

  /** When every step is settled the world is its own result. */
  lemma SettledIsTorn(w: World, c: Container, dropped: set<string>)
    requires forall a | a in Body(c) :: Settled(w, a, c.id)
    requires forall x | x in dropped :: Settled(w, Unregister(x), c.id)
    ensures Torn(w, c, dropped) == w
  {
    SettledVolumes(w, c, dropped);
    SettledNames(w, dropped, c.id);
    SettledRules(w, c);
    BodyActs(c, ReleaseMain);
    BodyActs(c, Forget);
    assert Settled(w, Forget, c.id);
    assert c.ip != "" ==> Settled(w, ReleaseMain, c.id);
    assert Torn(w, c, dropped).addresses == w.addresses;
  }

  // ---------- Confluence ----------

  /** The chain holds no more copies of the container's rules than its ports added. */
  ghost predicate RulesBounded(w: World, c: Container) {
    forall r | r in Rules(c) :: w.rules[r] <= multiset(Rules(c))[r]
  }

  /** Each step is settled or still to come in the thread. */
  ghost predicate Covers(t: Thread, w: World, c: Container) {
    && t.Running?
    && (forall a | a in Body(c) && !a.Unforward? :: a in t.acts || Settled(w, a, c.id))
    && (forall r | r in Rules(c) :: w.rules[r] <= multiset(t.acts)[Unforward(r)])
  }

  predicate Belongs(a: Act, c: Container, dropped: set<string>) {
    if a.Unregister? then a.id in dropped else a in Body(c)
  }

  /** All remaining steps of a thread belong to the teardown, and none before reading forgets the state. */
  ghost predicate Within(t: Thread, c: Container, dropped: set<string>) {
    t.Aborted? || forall a | a in t.acts :: Belongs(a, c, dropped) && (t.Before? ==> !a.Forget?)
  }

  /** What both threads work towards, and what they may still remove. */
  ghost predicate OnTheWay(w0: World, w: World, c: Container, dropped: set<string>) {
    Torn(w, c, dropped) == Torn(w0, c, dropped) && RulesBounded(w, c)
  }

  /** Some thread has read the state and will finish the work, or no thread has read it yet. */
  ghost predicate Covered(w: World, t: Thread, u: Thread, c: Container) {
    Covers(t, w, c) || Covers(u, w, c) || (c.id in w.persisted && !t.Running? && !u.Running?)
  }

  ghost predicate Invariant(w0: World, s: State, c: Container, withCleanup: bool) {
    var dropped := Dropped(c, withCleanup);
    && OnTheWay(w0, s.w, c, dropped)
    && Within(s.first, c, dropped) && Within(s.second, c, dropped)
    && Covered(s.w, s.first, s.second, c)
    && (s.first.Aborted? ==> c.id !in s.w.persisted)
    && (withCleanup && c.name != "" ==>
          Settled(s.w, Unregister(c.name), c.id) || (s.second.Before? && Unregister(c.name) in s.second.acts))
  }

  lemma {:induction false} UnforwardAllCounts(rules: seq<Ports.Rule>, r: Ports.Rule)
    ensures multiset(UnforwardAll(rules))[Unforward(r)] == multiset(rules)[r]
  {
    if rules != [] {
      UnforwardAllCounts(rules[1..], r);
      assert rules == [rules[0]] + rules[1..];
      assert UnforwardAll(rules) == [Unforward(rules[0])] + UnforwardAll(rules[1..]);
    }
  }

  /** A step of another thread. */
  lemma CoversKept(t: Thread, w: World, a: Act, c: Container)
    requires Covers(t, w, c)
    ensures Covers(t, Do(w, a, c.id), c)
  {
    forall b | b in Body(c) && !b.Unforward? && b !in t.acts
      ensures Settled(Do(w, a, c.id), b, c.id)
    {
      DoKeepsSettled(w, a, b, c.id);
    }
  }

  /** A step of the thread itself. */
  lemma CoversAdvances(acts: seq<Act>, w: World, c: Container)
    requires Covers(Running(acts), w, c) && acts != []
    ensures Covers(Running(acts[1..]), Do(w, acts[0], c.id), c)
  {
    var a, rest, w' := acts[0], acts[1..], Do(w, acts[0], c.id);
    assert acts == [a] + rest;
    forall b | b in Body(c) && !b.Unforward? && b !in rest
      ensures Settled(w', b, c.id)
    {
      if b == a {
        DoSettles(w, a, c.id);
      } else {
        DoKeepsSettled(w, a, b, c.id);
      }
    }
    forall r | r in Rules(c)
      ensures w'.rules[r] <= multiset(rest)[Unforward(r)]
    {
      assert multiset(acts)[Unforward(r)] == multiset(rest)[Unforward(r)] + if a == Unforward(r) then 1 else 0;
    }
  }

  lemma StartCovers(w: World, c: Container)
    requires RulesBounded(w, c)
    ensures Covers(Running(Body(c)), w, c)
  {
    forall r | r in Rules(c)
      ensures w.rules[r] <= multiset(Body(c))[Unforward(r)]
    {
      assert multiset(Body(c))[Unforward(r)] == multiset(Rules(c))[r] by {
        var a, b := UnmarkAll(c.volumes), UnforwardAll(Rules(c));
        assert forall x | x in a :: x.Unmark?;
        assert Unforward(r) !in a;
        UnforwardAllCounts(Rules(c), r);
      }
    }
  }

  lemma BodyIsWithin(c: Container, withCleanup: bool)
    ensures Within(Running(Body(c)), c, Dropped(c, withCleanup))
    ensures withCleanup ==> Within(Before(Preamble(c)), c, Dropped(c, withCleanup))
  {
    forall a | a in Body(c)
      ensures Belongs(a, c, Dropped(c, withCleanup))
    {
      BodyActs(c, a);
    }
    forall a | a in Preamble(c)
      ensures withCleanup ==> Belongs(a, c, Dropped(c, withCleanup)) && !a.Forget?
    {
      BodyActs(c, a);
      assert forall b | b in UnmarkAll(c.volumes) :: b.Unmark?;
    }
  }

  /** What any step keeps. */
  lemma ActKeeps(w0: World, w: World, a: Act, c: Container, dropped: set<string>)
    requires OnTheWay(w0, w, c, dropped) && Belongs(a, c, dropped)
    ensures OnTheWay(w0, Do(w, a, c.id), c, dropped)
    ensures c.id in Do(w, a, c.id).persisted ==> c.id in w.persisted
    ensures !a.Forget? ==> (c.id in Do(w, a, c.id).persisted <==> c.id in w.persisted)
  {
    StepAbsorbed(w, c, dropped, a);
    assert RulesBounded(Do(w, a, c.id), c);
    assert forall r :: Do(w, a, c.id).rules[r] <= w.rules[r];
  }

  lemma WithinTail(t: Thread, t': Thread, c: Container, dropped: set<string>)
    requires Within(t, c, dropped) && !t.Aborted? && t.acts != []
    requires t' == if t.Before? then Before(t.acts[1..]) else Running(t.acts[1..])
    ensures Within(t', c, dropped)
  {
  }

  lemma AdvanceBefore(w0: World, w: World, acts: seq<Act>, u: Thread, c: Container, dropped: set<string>)
    requires OnTheWay(w0, w, c, dropped) && acts != []
    requires Within(Before(acts), c, dropped) && Covered(w, Before(acts), u, c)
    ensures var w' := Do(w, acts[0], c.id);
            && OnTheWay(w0, w', c, dropped)
            && Within(Before(acts[1..]), c, dropped) && Covered(w', Before(acts[1..]), u, c)
  {
    ActKeeps(w0, w, acts[0], c, dropped);
    WithinTail(Before(acts), Before(acts[1..]), c, dropped);
    if Covers(u, w, c) {
      CoversKept(u, w, acts[0], c);
    }
  }

  lemma AdvanceRunning(w0: World, w: World, acts: seq<Act>, u: Thread, c: Container, dropped: set<string>)
    requires OnTheWay(w0, w, c, dropped) && acts != []
    requires Within(Running(acts), c, dropped) && Covered(w, Running(acts), u, c)
    ensures var w' := Do(w, acts[0], c.id);
            && OnTheWay(w0, w', c, dropped)
            && Within(Running(acts[1..]), c, dropped) && Covered(w', Running(acts[1..]), u, c)
  {
    ActKeeps(w0, w, acts[0], c, dropped);
    WithinTail(Running(acts), Running(acts[1..]), c, dropped);
    if Covers(Running(acts), w, c) {
      CoversAdvances(acts, w, c);
    } else {
      CoversKept(u, w, acts[0], c);
    }
  }

  lemma AdvanceKeeps(w0: World, w: World, t: Thread, u: Thread, c: Container, withCleanup: bool)
    requires OnTheWay(w0, w, c, Dropped(c, withCleanup))
    requires Within(t, c, Dropped(c, withCleanup)) && Covered(w, t, u, c)
    ensures var r := Advance(w, t, c);
            && OnTheWay(w0, r.0, c, Dropped(c, withCleanup))
            && Within(r.1, c, Dropped(c, withCleanup)) && Covered(r.0, r.1, u, c)
            && (c.id in r.0.persisted ==> c.id in w.persisted)
            && (r.1.Aborted? && !t.Aborted? ==> c.id !in w.persisted)
  {
    match t
    case Aborted =>
    case Before(acts) =>
      if acts == [] {
        StartCovers(w, c);
        BodyIsWithin(c, withCleanup);
      } else {
        AdvanceBefore(w0, w, acts, u, c, Dropped(c, withCleanup));
        ActKeeps(w0, w, acts[0], c, Dropped(c, withCleanup));
      }
    case Running(acts) =>
      if acts != [] {
        AdvanceRunning(w0, w, acts, u, c, Dropped(c, withCleanup));
        ActKeeps(w0, w, acts[0], c, Dropped(c, withCleanup));
      }
  }

  /** The name, once unregistered, stays so; a thread that takes the step unregisters it. */
  lemma AdvanceUnregisters(w: World, t: Thread, c: Container, x: string)
    ensures var r := Advance(w, t, c);
            && (Settled(w, Unregister(x), c.id) ==> Settled(r.0, Unregister(x), c.id))
            && (t.Before? && Unregister(x) in t.acts ==>
                  Settled(r.0, Unregister(x), c.id) || (r.1.Before? && Unregister(x) in r.1.acts))
  {
    if !t.Aborted? && t.acts != [] {
      var a := t.acts[0];
      if Settled(w, Unregister(x), c.id) {
        DoKeepsSettled(w, a, Unregister(x), c.id);
      }
      DoSettles(w, Unregister(x), c.id);
    }
  }

  lemma StepKeepsInvariant(w0: World, s: State, firstMoves: bool, c: Container, withCleanup: bool)
    requires Invariant(w0, s, c, withCleanup)
    ensures Invariant(w0, Step(s, firstMoves, c), c, withCleanup)
  {
    if firstMoves {
      AdvanceKeeps(w0, s.w, s.first, s.second, c, withCleanup);
      AdvanceUnregisters(s.w, s.first, c, c.name);
    } else {
      AdvanceKeeps(w0, s.w, s.second, s.first, c, withCleanup);
      AdvanceUnregisters(s.w, s.second, c, c.name);
    }
  }

  lemma {:induction false} RunKeepsInvariant(w0: World, schedule: seq<bool>, c: Container, withCleanup: bool)
    requires c.id in w0.persisted && RulesBounded(w0, c)
    ensures Invariant(w0, Run(Init(w0, c, withCleanup), schedule, c), c, withCleanup)
  {
    if schedule == [] {
      BodyIsWithin(c, withCleanup);
    } else {
      RunKeepsInvariant(w0, schedule[..|schedule| - 1], c, withCleanup);
      var s := Run(Init(w0, c, withCleanup), schedule[..|schedule| - 1], c);
      StepKeepsInvariant(w0, s, schedule[|schedule| - 1], c, withCleanup);
    }
  }

  /** Every complete interleaving of a stop with the deferred cleanup, or of a stop alone, ends in the same world. */
  lemma TeardownConfluence(w0: World, schedule: seq<bool>, c: Container, withCleanup: bool)
    requires c.id in w0.persisted && RulesBounded(w0, c)
    requires var s := Run(Init(w0, c, withCleanup), schedule, c); Finished(s.first) && Finished(s.second)
    ensures Run(Init(w0, c, withCleanup), schedule, c).w == Torn(w0, c, Dropped(c, withCleanup))
  {
    var dropped := Dropped(c, withCleanup);
    var s := Run(Init(w0, c, withCleanup), schedule, c);
    RunKeepsInvariant(w0, schedule, c, withCleanup);
    forall a | a in Body(c)
      ensures Settled(s.w, a, c.id)
    {
      BodyActs(c, a);
      if a.Unforward? {
        assert s.w.rules[a.rule] <= 0;
      }
    }
    forall x | x in dropped
      ensures Settled(s.w, Unregister(x), c.id)
    {
      BodyActs(c, Unregister(c.id));
    }
    SettledIsTorn(s.w, c, dropped);
  }

  /** No name is registered for a container whose id is this container's name. */
  ghost predicate NameIsNoId(w: World, c: Container) {
    c.name != "" && c.name != c.id ==> forall n | n in w.names :: n.container != c.name
  }

  /** The cleanup adds nothing to a stop alone exactly when no other container has this container's name as its id. */
  lemma CleanupAddsNothingExactly(w0: World, c: Container)
    ensures Torn(w0, c, Dropped(c, true)) == Torn(w0, c, Dropped(c, false)) <==> NameIsNoId(w0, c)
  {
    if c.name != "" && c.name != c.id {
      if NameIsNoId(w0, c) {
        FilterAgree(Names.NotFrom({c.id, c.name}), Names.NotFrom({c.id}), w0.names);
      } else {
        var n :| n in w0.names && n.container == c.name;
        assert n in Filter(Names.NotFrom({c.id}), w0.names);
        assert n !in Filter(Names.NotFrom({c.id, c.name}), w0.names);
      }
    } else if c.name != "" {
      FilterAgree(Names.NotFrom({c.id, c.name}), Names.NotFrom({c.id}), w0.names);
    }
  }

  /** The other containers keep what they have. */
  lemma OthersUntouched(w: World, c: Container, dropped: set<string>, other: string, slot: Slot, j: nat,
                        rule: Ports.Rule)
    requires other != c.id && slot != MainSlot(c.id) && j < |w.volumes|
    ensures var t := Torn(w, c, dropped);
            && (other in t.volumes[j].usedBy <==> other in w.volumes[j].usedBy)
            && (slot in t.addresses <==> slot in w.addresses)
            && (slot in t.addresses ==> t.addresses[slot] == w.addresses[slot])
            && (rule !in Rules(c) ==> t.rules[rule] == w.rules[rule])
    ensures forall n | n in w.names && n.container !in dropped :: n in Torn(w, c, dropped).names
  {
    ClearedCounts(w.rules, Rules(c), rule);
  }

  /** The schedule of a stop without any cleanup. */
  function Always(k: nat): seq<bool> {
    if k == 0 then [] else Always(k - 1) + [true]
  }

  lemma RunSnoc(s: State, schedule: seq<bool>, move: bool, c: Container)
    ensures Run(s, schedule + [move], c) == Step(Run(s, schedule, c), move, c)
  {
    assert (schedule + [move])[..|schedule|] == schedule;
  }

  /** One `down` alone, after it has read the state and taken k steps. */
  function Progress(w: World, c: Container, acts: seq<Act>, k: nat): State
    requires k <= |acts|
  {
    State(DoAll(w, acts[..k], c.id), Running(acts[k..]), Aborted)
  }

  lemma {:induction false} FirstTurn(w: World, c: Container, acts: seq<Act>)
    requires c.id in w.persisted && acts == Body(c)
    ensures Run(Init(w, c, false), Always(1), c) == Progress(w, c, acts, 0)
  {
    RunSnoc(Init(w, c, false), [], true, c);
    assert Always(1) == [] + [true];
    assert acts[0..] == acts && acts[..0] == [];
  }

  lemma OneMoreTurn(w0: World, c: Container, acts: seq<Act>, k: nat)
    requires k < |acts| && Run(Init(w0, c, false), Always(k + 1), c) == Progress(w0, c, acts, k)
    ensures Run(Init(w0, c, false), Always(k + 2), c) == Progress(w0, c, acts, k + 1)
  {
    RunSnoc(Init(w0, c, false), Always(k + 1), true, c);
    assert Step(Progress(w0, c, acts, k), true, c) == Progress(w0, c, acts, k + 1) by {
      assert acts[..k + 1][..k] == acts[..k];
      assert acts[k..][1..] == acts[k + 1..];
    }
  }

  /** After the first turn and k more. */
  function TurnAt(w: World, c: Container, k: nat): State {
    Run(Init(w, c, false), Always(k + 1), c)
  }

  /** The states of one `down` alone, turn by turn. */
  function Turns(w: World, c: Container, n: nat): (states: seq<State>)
    ensures |states| == n + 1
    ensures forall k | 0 <= k <= n :: states[k] == TurnAt(w, c, k)
  {
    seq(n + 1, k requires 0 <= k <= n => TurnAt(w, c, k))
  }

  function Steps(w: World, c: Container, acts: seq<Act>): (states: seq<State>)
    ensures |states| == |acts| + 1
    ensures forall k | 0 <= k <= |acts| :: states[k] == Progress(w, c, acts, k)
  {
    seq(|acts| + 1, k requires 0 <= k <= |acts| => Progress(w, c, acts, k))
  }

  lemma {:induction false} SameStates(a: seq<State>, b: seq<State>, k: nat)
    requires k < |a| == |b| && a[0] == b[0]
    requires forall j | 0 <= j < |a| - 1 :: a[j] == b[j] ==> a[j + 1] == b[j + 1]
    ensures a[k] == b[k]
  {
    if k > 0 {
      SameStates(a, b, k - 1);
      assert a[k - 1 + 1] == b[k - 1 + 1];
    }
  }

  lemma RunAlone(w0: World, c: Container, acts: seq<Act>)
    requires c.id in w0.persisted && acts == Body(c)
    ensures Run(Init(w0, c, false), Always(|acts| + 1), c) == Progress(w0, c, acts, |acts|)
  {
    var turns, steps := Turns(w0, c, |acts|), Steps(w0, c, acts);
    FirstTurn(w0, c, acts);
    forall k | 0 <= k < |acts| && turns[k] == steps[k]
      ensures turns[k + 1] == steps[k + 1]
    {
      OneMoreTurn(w0, c, acts, k);
    }
    SameStates(turns, steps, |acts|);
  }

  /** One `down` from start to end has the result that every interleaving has. */
  lemma StopAlone(w0: World, c: Container)
    requires c.id in w0.persisted && RulesBounded(w0, c)
    ensures DoAll(w0, Body(c), c.id) == Torn(w0, c, Dropped(c, false))
  {
    var acts := Body(c);
    RunAlone(w0, c, acts);
    assert acts[..|acts|] == acts && acts[|acts|..] == [];
    TeardownConfluence(w0, Always(|acts| + 1), c, false);
  }
}
