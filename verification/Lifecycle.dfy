/** A container's run from the first volume mark to the deferred cleanup, and `down`, over the stores they change. */
module Lifecycle {
  import opened Text
  import opened Wrappers

  import Environment
  import Global
  import Ipam
  import opened Teardown
  import Names
  import Ports
  import Volumes

  /** Where `run` returns, once it has its log manager. */
  datatype Exit =
    | NoAddress                 // SetupNetwork allocates nothing
    | ForwardFails(added: nat)  // an address is allocated, and so many mappings are added
    | StartFails                // the process does not start, or is dead after 200 ms
    | PersistFails(wrote: bool) // with container.json written or not
    | AttachFails
    | Waited

  predicate Persists(exit: Exit) {
    exit.AttachFails? || exit.Waited? || (exit.PersistFails? && exit.wrote)
  }

  /** How many mappings iptables takes rules for. */
  function Accepted(c: Container, exit: Exit): nat {
    if exit.ForwardFails? then exit.added else |c.ports|
  }

  function MappedPorts(c: Container, exit: Exit): seq<string> {
    c.ports[..Ports.Min(|c.ports|, Accepted(c, exit))]
  }

  /** SetupNetwork allocates from the container's network, and from the main one only if it has none. */
  function OwnSlot(c: Container): Slot {
    Slot(if c.network == "" then Global.MAIN_NET else c.network, c.id)
  }

  function MarkedUsed(reg: Volumes.Registry, v: VolumeRef, id: string): Volumes.Registry {
    if v.name != "" then Volumes.MarkedUsed(reg, v.name, "", id) else Volumes.MarkedUsed(reg, "", v.hostPath, id)
  }

  function AllMarkedUsed(reg: Volumes.Registry, vs: seq<VolumeRef>, id: string): Volumes.Registry {
    if vs == [] then reg else MarkedUsed(AllMarkedUsed(reg, vs[..|vs| - 1], id), vs[|vs| - 1], id)
  }

  /** The world when the deferred cleanup starts; `ip` is the address that is allocated, if one is. */
  function BeforeCleanup(w: World, c: Container, exit: Exit, ip: string): World {
    var marked := w.(volumes := AllMarkedUsed(w.volumes, c.volumes, c.id));
    if exit.NoAddress? then marked
    else
      var up := marked.(addresses := w.addresses[OwnSlot(c) := ip],
                        rules := w.rules + multiset(Ports.RulesOf(ip, MappedPorts(c, exit))));
      if Persists(exit) then up.(persisted := w.persisted[c.id := c.(ip := ip)]) else up
  }

  function CleanedUp(w: World, c: Container): World {
    var w' := DoAll(w, Preamble(c), c.id);
    if c.id in w'.persisted then DoAll(w', Body(w'.persisted[c.id]), c.id) else w'
  }

  function AfterRun(w: World, c: Container, exit: Exit, ip: string): World {
    CleanedUp(BeforeCleanup(w, c, exit, ip), c)
  }

  lemma {:induction false} DoAllConcat(w: World, a: seq<Act>, b: seq<Act>, id: string)
    ensures DoAll(w, a + b, id) == DoAll(DoAll(w, a, id), b, id)
  {
    if b == [] {
      assert a + b == a;
    } else {
      assert (a + b)[..|a + b| - 1] == a + b[..|b| - 1];
      DoAllConcat(w, a, b[..|b| - 1], id);
    }
  }

  lemma DoOne(w: World, a: Act, id: string)
    ensures DoAll(w, [a], id) == Do(w, a, id)
    ensures DoAll(w, [], id) == w
  {
    assert [a][..0] == [];
  }

  lemma {:induction false} DoAllSettles(w: World, acts: seq<Act>, id: string, a: Act)
    requires !a.Unforward? && (a in acts || Settled(w, a, id))
    ensures Settled(DoAll(w, acts, id), a, id)
  {
    if acts != [] {
      var front, last := acts[..|acts| - 1], acts[|acts| - 1];
      if a == last {
        DoSettles(DoAll(w, front, id), a, id);
      } else {
        assert a in acts ==> a in front;
        DoAllSettles(w, front, id, a);
        DoKeepsSettled(DoAll(w, front, id), last, a, id);
      }
    }
  }

  lemma {:induction false} DoAllKeeps(w: World, acts: seq<Act>, id: string)
    requires forall a | a in acts :: a.Unmark? || a.Unregister?
    ensures var w' := DoAll(w, acts, id);
            w'.addresses == w.addresses && w'.persisted == w.persisted && w'.rules == w.rules
  {
    if acts != [] {
      assert acts[|acts| - 1] in acts;
      DoAllKeeps(w, acts[..|acts| - 1], id);
    }
  }

  lemma PreambleActs(c: Container)
    ensures forall a | a in Preamble(c) :: a.Unmark? || a.Unregister?
  {
    assert forall a | a in UnmarkAll(c.volumes) :: a.Unmark?;
  }

  // ---------- The body of `down` in stages ----------

  lemma UnforwardOne(w: World, rules: seq<Ports.Rule>, last: Ports.Rule, id: string)
    ensures Do(w.(rules := w.rules - multiset(rules)), Unforward(last), id) ==
            w.(rules := w.rules - multiset(rules + [last]))
  {
    Ports.MinusTwice(w.rules, multiset(rules), multiset{last});
  }

  lemma {:induction false} UnforwardAllDone(w: World, rules: seq<Ports.Rule>, id: string)
    ensures DoAll(w, UnforwardAll(rules), id) == w.(rules := w.rules - multiset(rules))
  {
    if rules == [] {
      assert UnforwardAll(rules) == [] && w.rules - multiset(rules) == w.rules;
    } else {
      var front, last := rules[..|rules| - 1], rules[|rules| - 1];
      assert rules == front + [last];
      UnforwardAllDone(w, front, id);
      var acts := UnforwardAll(rules);
      assert acts[..|acts| - 1] == UnforwardAll(front);
      UnforwardOne(w, front, last, id);
    }
  }

  lemma LastStages(w: World, c: Container)
    ensures DoAll(DoAll(w, if c.name == "" then [] else [Unregister(c.id)], c.id), [Forget], c.id) ==
            w.(names := if c.name == "" then w.names else Names.Unregistered(w.names, c.id),
               persisted := w.persisted - {c.id})
  {
    DoOne(w, Unregister(c.id), c.id);
    DoOne(DoAll(w, if c.name == "" then [] else [Unregister(c.id)], c.id), Forget, c.id);
  }

  /** What `down` does after its unmark loop. */
  function AfterUnmarks(w: World, c: Container): World {
    World(w.volumes,
          if c.name == "" then w.names else Names.Unregistered(w.names, c.id),
          if c.ip == "" then w.addresses else w.addresses - {MainSlot(c.id)},
          w.rules - multiset(Rules(c)),
          w.persisted - {c.id})
  }

  /** The body of `down`, group by group. */
  lemma BodyInStages(w: World, c: Container)
    ensures DoAll(w, Body(c), c.id) == AfterUnmarks(DoAll(w, UnmarkAll(c.volumes), c.id), c)
  {
    var id := c.id;
    var release := if c.ip == "" then [] else [ReleaseMain];
    var forwards := UnforwardAll(Rules(c));
    var unregister := if c.name == "" then [] else [Unregister(id)];
    var a1 := UnmarkAll(c.volumes);
    var w1 := DoAll(w, a1, id);
    DoAllConcat(w, a1, release, id);
    DoOne(w1, ReleaseMain, id);
    var w2 := DoAll(w1, release, id);
    DoAllConcat(w, a1 + release, forwards, id);
    UnforwardAllDone(w2, Rules(c), id);
    var w3 := DoAll(w2, forwards, id);
    DoAllConcat(w, a1 + release + forwards, unregister, id);
    DoAllConcat(w, a1 + release + forwards + unregister, [Forget], id);
    LastStages(w3, c);
  }

  // ---------- The unmark loop ----------

  function Unmarked(reg: Volumes.Registry, v: VolumeRef, id: string): Volumes.Registry {
    Volumes.Next(reg, if v.name != "" then Volumes.MarkUnused(v.name, "", id)
                      else Volumes.MarkUnused("", v.hostPath, id))
  }

  function AllUnmarked(reg: Volumes.Registry, vs: seq<VolumeRef>, id: string): Volumes.Registry {
    if vs == [] then reg else Unmarked(AllUnmarked(reg, vs[..|vs| - 1], id), vs[|vs| - 1], id)
  }

  lemma UnmarkIsAct(w: World, v: VolumeRef, id: string)
    ensures Do(w, UnmarkOf(v), id) == w.(volumes := Unmarked(w.volumes, v, id))
  {
  }

  /** The unmark loop is the unmark steps, which change the volumes only. */
  lemma {:induction false} UnmarksAreActs(w: World, vs: seq<VolumeRef>, id: string)
    ensures DoAll(w, UnmarkAll(vs), id) == w.(volumes := AllUnmarked(w.volumes, vs, id))
  {
    if vs != [] {
      var front, last := vs[..|vs| - 1], vs[|vs| - 1];
      UnmarksAreActs(w, front, id);
      DoAllConcat(w, UnmarkAll(front), [UnmarkOf(last)], id);
      assert UnmarkAll(vs) == UnmarkAll(front) + [UnmarkOf(last)];
      DoOne(DoAll(w, UnmarkAll(front), id), UnmarkOf(last), id);
      UnmarkIsAct(DoAll(w, UnmarkAll(front), id), last, id);
    } else {
      assert UnmarkAll(vs) == [];
    }
  }

  // ---------- Who uses which volume ----------

  /** The volume that a reference means: by name if it has one, else by path. */
  predicate Picks(v: VolumeRef, u: Volumes.Volume) {
    if v.name != "" then u.name == v.name else v.hostPath != "" && u.path == v.hostPath
  }

  /** The same volumes; of user `id`, exactly those that a reference means change, to `used`. */
  ghost predicate UsersChanged(before: Volumes.Registry, after: Volumes.Registry, vs: seq<VolumeRef>, id: string,
                               used: bool)
  {
    && |after| == |before|
    && forall j | 0 <= j < |before| ::
         && after[j] == before[j].(usedBy := after[j].usedBy)
         && (forall x | x != id :: x in after[j].usedBy <==> x in before[j].usedBy)
         && (id in after[j].usedBy <==>
             if exists v | v in vs :: Picks(v, before[j]) then used else id in before[j].usedBy)
  }

  ghost predicate NotUsed(reg: Volumes.Registry, vs: seq<VolumeRef>, id: string) {
    forall v, u | v in vs && u in reg && Picks(v, u) :: id !in u.usedBy
  }

  /** In a registry that keeps its invariant a reference means the first volume that its selector selects. */
  lemma PickIsFirst(reg: Volumes.Registry, v: VolumeRef, j: nat)
    requires Volumes.RegistryOk(reg) && j < |reg|
    ensures Picks(v, reg[j]) <==>
            j == if v.name != "" then Volumes.MatchIndex(reg, v.name, "") else Volumes.MatchIndex(reg, "", v.hostPath)
  {
  }

  lemma OneMoreReference(front: seq<VolumeRef>, last: VolumeRef, u: Volumes.Volume)
    ensures (exists v | v in front + [last] :: Picks(v, u)) <==>
            (exists v | v in front :: Picks(v, u)) || Picks(last, u)
  {
    assert last in front + [last];
  }

  /** What a registry looks like that changes at one volume only, which is the one that the reference means. */
  lemma OneUserChanged(reg: Volumes.Registry, after: Volumes.Registry, v: VolumeRef, i: nat, id: string, used: bool)
    requires |after| == |reg| && i <= |reg|
    requires forall j | 0 <= j < |reg| :: Picks(v, reg[j]) <==> j == i
    requires forall j | 0 <= j < |reg| && j != i :: after[j] == reg[j]
    requires i < |reg| ==>
               && after[i] == reg[i].(usedBy := after[i].usedBy)
               && (id in after[i].usedBy <==> used)
               && forall x | x != id :: x in after[i].usedBy <==> x in reg[i].usedBy
    ensures UsersChanged(reg, after, [v], id, used)
  {
    assert v in [v];
  }

  lemma UsersAfterMark(reg: Volumes.Registry, v: VolumeRef, id: string)
    requires Volumes.RegistryOk(reg)
    ensures Volumes.RegistryOk(MarkedUsed(reg, v, id)) && UsersChanged(reg, MarkedUsed(reg, v, id), [v], id, true)
  {
    var name, path := v.name, if v.name != "" then "" else v.hostPath;
    Volumes.MarkKeepsOk(reg, name, path, id);
    forall j | 0 <= j < |reg|
      ensures Picks(v, reg[j]) <==> j == Volumes.MatchIndex(reg, name, path)
    {
      PickIsFirst(reg, v, j);
    }
    OneUserChanged(reg, MarkedUsed(reg, v, id), v, Volumes.MatchIndex(reg, name, path), id, true);
  }

  lemma UsersAfterUnmark(reg: Volumes.Registry, v: VolumeRef, id: string)
    requires Volumes.RegistryOk(reg)
    ensures Volumes.RegistryOk(Unmarked(reg, v, id)) && UsersChanged(reg, Unmarked(reg, v, id), [v], id, false)
  {
    var name, path := v.name, if v.name != "" then "" else v.hostPath;
    Volumes.MarkKeepsOk(reg, name, path, id);
    forall j | 0 <= j < |reg|
      ensures Picks(v, reg[j]) <==> j == Volumes.MatchIndex(reg, name, path)
    {
      PickIsFirst(reg, v, j);
    }
    OneUserChanged(reg, Unmarked(reg, v, id), v, Volumes.MatchIndex(reg, name, path), id, false);
  }

  /** One more reference. */
  lemma UsersChangedMore(before: Volumes.Registry, mid: Volumes.Registry, after: Volumes.Registry,
                         front: seq<VolumeRef>, last: VolumeRef, id: string, used: bool)
    requires UsersChanged(before, mid, front, id, used) && UsersChanged(mid, after, [last], id, used)
    ensures UsersChanged(before, after, front + [last], id, used)
  {
    forall j | 0 <= j < |before|
      ensures id in after[j].usedBy <==>
              if exists v | v in front + [last] :: Picks(v, before[j]) then used else id in before[j].usedBy
    {
      OneMoreReference(front, last, before[j]);
      OneMoreReference([], last, mid[j]);
      assert [] + [last] == [last];
      assert forall v :: Picks(v, mid[j]) <==> Picks(v, before[j]);
    }
  }

  /** Marking or unmarking all references of a container changes exactly their volumes' use by it. */
  lemma {:induction false} UsersAfterAll(reg: Volumes.Registry, vs: seq<VolumeRef>, id: string)
    requires Volumes.RegistryOk(reg)
    ensures Volumes.RegistryOk(AllMarkedUsed(reg, vs, id))
    ensures UsersChanged(reg, AllMarkedUsed(reg, vs, id), vs, id, true)
    ensures Volumes.RegistryOk(AllUnmarked(reg, vs, id))
    ensures UsersChanged(reg, AllUnmarked(reg, vs, id), vs, id, false)
  {
    if vs != [] {
      var front, last := vs[..|vs| - 1], vs[|vs| - 1];
      assert vs == front + [last];
      UsersAfterAll(reg, front, id);
      UsersAfterMark(AllMarkedUsed(reg, front, id), last, id);
      UsersAfterUnmark(AllUnmarked(reg, front, id), last, id);
      UsersChangedMore(reg, AllMarkedUsed(reg, front, id), AllMarkedUsed(reg, vs, id), front, last, id, true);
      UsersChangedMore(reg, AllUnmarked(reg, front, id), AllUnmarked(reg, vs, id), front, last, id, false);
    }
  }

  lemma LoopsChangeUsers(reg: Volumes.Registry, vs: seq<VolumeRef>, id: string)
    ensures Volumes.RegistryOk(reg) ==>
              UsersChanged(reg, AllMarkedUsed(reg, vs, id), vs, id, true) &&
              UsersChanged(reg, AllUnmarked(reg, vs, id), vs, id, false)
  {
    if Volumes.RegistryOk(reg) {
      UsersAfterAll(reg, vs, id);
    }
  }

  /** A second loop over the same references, now unmarking them. */
  lemma UsersChangedTwice(before: Volumes.Registry, mid: Volumes.Registry, after: Volumes.Registry,
                          vs: seq<VolumeRef>, id: string, used: bool)
    requires UsersChanged(before, mid, vs, id, used) && UsersChanged(mid, after, vs, id, false)
    ensures UsersChanged(before, after, vs, id, false)
  {
    forall j | 0 <= j < |before|
      ensures (exists v | v in vs :: Picks(v, before[j])) <==> (exists v | v in vs :: Picks(v, mid[j]))
    {
      assert forall v :: Picks(v, mid[j]) <==> Picks(v, before[j]);
    }
  }

  /** Exactly the container's use of exactly its volumes is gone. */
  ghost predicate VolumesReleased(before: Volumes.Registry, after: Volumes.Registry, c: Container) {
    Volumes.RegistryOk(before) ==>
      UsersChanged(before, after, c.volumes, c.id, false) && NotUsed(after, c.volumes, c.id)
  }

  lemma UnmarksRelease(reg: Volumes.Registry, c: Container)
    ensures VolumesReleased(reg, AllUnmarked(reg, c.volumes, c.id), c)
  {
    LoopsChangeUsers(reg, c.volumes, c.id);
    if Volumes.RegistryOk(reg) {
      assert NotUsed(AllUnmarked(reg, c.volumes, c.id), c.volumes, c.id);
    }
  }

  /** What `down` does to each store, said without its steps. */
  ghost predicate TakenDown(before: World, after: World, c: Container) {
    && VolumesReleased(before.volumes, after.volumes, c)
    && (forall n :: n in after.names <==> n in before.names && (c.name == "" || n.container != c.id))
    && after.addresses == before.addresses - (if c.ip == "" then {} else {Slot(Global.MAIN_NET, c.id)})
    && after.rules == before.rules - (if c.ip == "" then multiset{} else multiset(Ports.RulesOf(c.ip, c.ports)))
    && after.persisted == before.persisted - {c.id}
  }

  lemma RestTakesDown(w: World, reg: Volumes.Registry, c: Container)
    requires VolumesReleased(w.volumes, reg, c)
    ensures TakenDown(w, AfterUnmarks(w.(volumes := reg), c), c)
  {
  }

  lemma BodyTakesDown(w: World, c: Container, after: World)
    requires after == DoAll(w, Body(c), c.id)
    ensures TakenDown(w, after, c)
  {
    BodyInStages(w, c);
    UnmarksAreActs(w, c.volumes, c.id);
    UnmarksRelease(w.volumes, c);
    RestTakesDown(w, AllUnmarked(w.volumes, c.volumes, c.id), c);
  }

  /** After every complete interleaving of a stop, with or without the deferred cleanup: no volume that the container
   *  means lists it, it has no slot in the main network, no rule, no name and no state. */
  lemma EveryStopIsClean(w0: World, schedule: seq<bool>, c: Container, withCleanup: bool)
    requires c.id in w0.persisted && RulesBounded(w0, c) && Volumes.RegistryOk(w0.volumes)
    requires var s := Teardown.Run(Init(w0, c, withCleanup), schedule, c); Finished(s.first) && Finished(s.second)
    ensures var w := Teardown.Run(Init(w0, c, withCleanup), schedule, c).w;
            && UsersChanged(w0.volumes, w.volumes, c.volumes, c.id, false)
            && (c.ip != "" ==> Slot(Global.MAIN_NET, c.id) !in w.addresses)
            && (c.ip != "" ==> forall r | r in Ports.RulesOf(c.ip, c.ports) :: r !in w.rules)
            && (c.name != "" ==> forall n | n in w.names :: n.container != c.id)
            && c.id !in w.persisted
  {
    TeardownConfluence(w0, schedule, c, withCleanup);
    StopAlone(w0, c);
    BodyTakesDown(w0, c, Torn(w0, c, Dropped(c, false)));
    if c.ip != "" {
      forall r | r in Rules(c)
        ensures r !in Torn(w0, c, Dropped(c, withCleanup)).rules
      {
        assert r !in w0.rules - multiset(Rules(c));
      }
    }
  }

  // ---------- What a run leaves behind ----------

  lemma {:induction false} PreambleOnNetwork(w: World, c: Container)
    ensures var w' := DoAll(w, Preamble(c), c.id);
            w'.addresses == w.addresses && w'.persisted == w.persisted && w'.rules == w.rules
  {
    PreambleActs(c);
    DoAllKeeps(w, Preamble(c), c.id);
  }

  /** No step of a teardown adds a user. */
  lemma {:induction false} NoActAddsUsers(w: World, acts: seq<Act>, id: string, j: nat)
    requires j < |w.volumes|
    ensures var after := DoAll(w, acts, id).volumes;
            && |after| == |w.volumes|
            && after[j] == w.volumes[j].(usedBy := after[j].usedBy)
            && forall x | x in after[j].usedBy :: x in w.volumes[j].usedBy
  {
    if acts != [] {
      NoActAddsUsers(w, acts[..|acts| - 1], id, j);
      var mid, last := DoAll(w, acts[..|acts| - 1], id), acts[|acts| - 1];
      if last.Unmark? {
        UnmarkAt(mid.volumes, last.name, last.path, id, j);
      }
    }
  }

  lemma {:induction false} NoActAddsVolumes(w: World, acts: seq<Act>, id: string)
    ensures |DoAll(w, acts, id).volumes| == |w.volumes|
  {
    if acts != [] {
      NoActAddsVolumes(w, acts[..|acts| - 1], id);
    }
  }

  /** The users after the cleanup's own unmark loop. */
  lemma {:induction false} UsersAfterPreamble(w: World, c: Container, exit: Exit, ip: string)
    requires Volumes.RegistryOk(w.volumes)
    ensures var mid := DoAll(BeforeCleanup(w, c, exit, ip), Preamble(c), c.id).volumes;
            Volumes.RegistryOk(mid) && UsersChanged(w.volumes, mid, c.volumes, c.id, false)
  {
    var start := BeforeCleanup(w, c, exit, ip);
    assert DoAll(start, Preamble(c), c.id).volumes == AllUnmarked(start.volumes, c.volumes, c.id) by {
      UnmarksAreActs(start, c.volumes, c.id);
      DoAllConcat(start, UnmarkAll(c.volumes), if c.name == "" then [] else [Unregister(c.name)], c.id);
      DoOne(DoAll(start, UnmarkAll(c.volumes), c.id), Unregister(c.name), c.id);
    }
    UsersAfterAll(w.volumes, c.volumes, c.id);
    UsersAfterAll(start.volumes, c.volumes, c.id);
    UsersChangedTwice(w.volumes, start.volumes, AllUnmarked(start.volumes, c.volumes, c.id), c.volumes, c.id, true);
  }

  /** After every exit path the container uses none of its volumes, whether it means them by name or by path. */
  lemma NoExitLeavesUsers(w: World, c: Container, exit: Exit, ip: string, v: VolumeRef, u: Volumes.Volume)
    requires Volumes.RegistryOk(w.volumes) && v in c.volumes && u in AfterRun(w, c, exit, ip).volumes
    requires if v.name != "" then u.name == v.name else v.hostPath != "" && u.path == v.hostPath
    ensures c.id !in u.usedBy
  {
    var mid := DoAll(BeforeCleanup(w, c, exit, ip), Preamble(c), c.id);
    var after := AfterRun(w, c, exit, ip).volumes;
    UsersAfterPreamble(w, c, exit, ip);
    var j :| 0 <= j < |after| && after[j] == u;
    if c.id in mid.persisted {
      NoActAddsVolumes(mid, Body(mid.persisted[c.id]), c.id);
      NoActAddsUsers(mid, Body(mid.persisted[c.id]), c.id, j);
    }
    assert Picks(v, w.volumes[j]);
  }

  /** And a run changes nothing else about who uses what. */
  lemma {:induction false} VolumesAfterRun(w: World, c: Container, exit: Exit, ip: string)
    requires Volumes.RegistryOk(w.volumes) && c.id !in w.persisted
    ensures UsersChanged(w.volumes, AfterRun(w, c, exit, ip).volumes, c.volumes, c.id, false)
  {
    var start := BeforeCleanup(w, c, exit, ip);
    var mid := DoAll(start, Preamble(c), c.id);
    UsersAfterPreamble(w, c, exit, ip);
    PreambleOnNetwork(start, c);
    if c.id in mid.persisted {
      var stored := mid.persisted[c.id];
      BodyInStages(mid, stored);
      UnmarksAreActs(mid, c.volumes, c.id);
      UsersAfterAll(mid.volumes, c.volumes, c.id);
      UsersChangedTwice(w.volumes, mid.volumes, AllUnmarked(mid.volumes, c.volumes, c.id), c.volumes, c.id, false);
    }
  }

  /** What `down` does to the addresses and rules. */
  lemma {:induction false} BodyOnNetwork(w: World, c: Container)
    ensures var w' := DoAll(w, Body(c), c.id);
            && w'.addresses == (if c.ip == "" then w.addresses else w.addresses - {MainSlot(c.id)})
            && w'.rules == w.rules - multiset(Rules(c))
  {
    BodyInStages(w, c);
    assert forall a | a in UnmarkAll(c.volumes) :: a.Unmark?;
    DoAllKeeps(w, UnmarkAll(c.volumes), c.id);
  }

  /** The cleanup of a run: it reaches `down` exactly when the state was persisted. */
  lemma {:induction false} CleanupOnNetwork(w: World, c: Container)
    requires c.id in w.persisted ==> w.persisted[c.id].id == c.id
    ensures var w' := CleanedUp(w, c);
            if c.id !in w.persisted then w'.addresses == w.addresses && w'.rules == w.rules
            else var stored := w.persisted[c.id];
                 && w'.addresses == (if stored.ip == "" then w.addresses else w.addresses - {MainSlot(c.id)})
                 && w'.rules == w.rules - multiset(Rules(stored))
  {
    PreambleOnNetwork(w, c);
    if c.id in w.persisted {
      BodyOnNetwork(DoAll(w, Preamble(c), c.id), w.persisted[c.id]);
    }
  }

  /** What a run allocated, less the container's slot in the main network if its state was persisted. */
  function AddressesLeft(before: map<Slot, string>, c: Container, exit: Exit, ip: string): map<Slot, string> {
    if exit.NoAddress? then before
    else if Persists(exit) then before[OwnSlot(c) := ip] - {MainSlot(c.id)}
    else before[OwnSlot(c) := ip]
  }

  lemma AddressesAfterRun(w: World, c: Container, exit: Exit, ip: string)
    requires c.id !in w.persisted && ip != ""
    ensures AfterRun(w, c, exit, ip).addresses == AddressesLeft(w.addresses, c, exit, ip)
  {
    CleanupOnNetwork(BeforeCleanup(w, c, exit, ip), c);
  }

  predicate HoldsAddress(w: World, id: string) {
    exists slot | slot in w.addresses :: slot.id == id
  }

  /** A run gives its address back exactly when it got none, or when it reached persistence and had it from the main
   *  network: `down` cannot undo an earlier exit, and releases from the main network only. */
  lemma AddressIsReleasedExactly(w: World, c: Container, exit: Exit, ip: string)
    requires !HoldsAddress(w, c.id) && c.id !in w.persisted && ip != ""
    ensures !HoldsAddress(AfterRun(w, c, exit, ip), c.id) <==>
            || exit.NoAddress?
            || ((exit.AttachFails? || exit.Waited? || exit == PersistFails(true)) &&
                (c.network == "" || c.network == Global.MAIN_NET))
  {
    AddressesAfterRun(w, c, exit, ip);
    var w' := AfterRun(w, c, exit, ip);
    if !exit.NoAddress? && !(Persists(exit) && OwnSlot(c) == MainSlot(c.id)) {
      assert OwnSlot(c) in w'.addresses;
    }
  }

  /** The rules that a run leaves: those it added, unless its state was persisted. */
  function RulesLeft(before: multiset<Ports.Rule>, c: Container, exit: Exit, ip: string): multiset<Ports.Rule> {
    if exit.NoAddress? || Persists(exit) then before
    else before + multiset(Ports.RulesOf(ip, MappedPorts(c, exit)))
  }

  lemma RulesBeforeCleanup(w: World, c: Container, exit: Exit, ip: string)
    ensures BeforeCleanup(w, c, exit, ip).rules ==
            if exit.NoAddress? then w.rules else w.rules + multiset(Ports.RulesOf(ip, MappedPorts(c, exit)))
    ensures var start := BeforeCleanup(w, c, exit, ip);
            if Persists(exit) then c.id in start.persisted && start.persisted[c.id] == c.(ip := ip)
            else start.persisted == w.persisted
    ensures Persists(exit) ==> MappedPorts(c, exit) == c.ports
  {
  }

  lemma {:induction false} RulesAfterRun(w: World, c: Container, exit: Exit, ip: string)
    requires c.id !in w.persisted && ip != ""
    ensures AfterRun(w, c, exit, ip).rules == RulesLeft(w.rules, c, exit, ip)
  {
    RulesBeforeCleanup(w, c, exit, ip);
    CleanupOnNetwork(BeforeCleanup(w, c, exit, ip), c);
    assert w.rules + multiset(Ports.RulesOf(ip, c.ports)) - multiset(Ports.RulesOf(ip, c.ports)) == w.rules;
  }

  lemma AddedRulesShow(before: multiset<Ports.Rule>, added: seq<Ports.Rule>)
    ensures before + multiset(added) == before <==> added == []
  {
    if added != [] {
      assert (before + multiset(added))[added[0]] > before[added[0]];
    }
  }

  /** The rules that a run added go exactly when it got no address, or reached persistence, or its mappings have
   *  none. */
  lemma RulesAreRemovedExactly(w: World, c: Container, exit: Exit, ip: string)
    requires c.id !in w.persisted && ip != ""
    ensures AfterRun(w, c, exit, ip).rules == w.rules <==>
            || exit.NoAddress? || exit.AttachFails? || exit.Waited? || exit == PersistFails(true)
            || (if exit.ForwardFails? && exit.added < |c.ports| then Ports.RulesOf(ip, c.ports[..exit.added]) == []
                else Ports.RulesOf(ip, c.ports) == [])
  {
    RulesAfterRun(w, c, exit, ip);
    assert MappedPorts(c, exit) ==
           if exit.ForwardFails? && exit.added < |c.ports| then c.ports[..exit.added] else c.ports;
    AddedRulesShow(w.rules, Ports.RulesOf(ip, MappedPorts(c, exit)));
  }

  // ---------- The containers that reach `run` ----------

  /** checkNetwork creates a network only for a container that names one, and EnsureDefaultNetwork the main one. */
  predicate NamedCreates(ops: seq<Ipam.NetOp>) {
    forall op | op in ops && op.Create? :: op.name != ""
  }

  lemma {:induction false} NoUnnamedNetwork(ops: seq<Ipam.NetOp>)
    requires NamedCreates(ops)
    ensures "" !in Ipam.Stored(ops).configs
  {
    if ops != [] {
      var front, last := ops[..|ops| - 1], ops[|ops| - 1];
      NoUnnamedNetwork(front);
      Ipam.RunIsSafe(map[], front);
      assert last in ops;
    }
  }

  lemma OwnAddressStays(before: map<Slot, string>, c: Container, exit: Exit, ip: string)
    requires c.network != "" && c.network != Global.MAIN_NET && !exit.NoAddress?
    ensures var slot, after := Slot(c.network, c.id), AddressesLeft(before, c, exit, ip);
            slot in after && after[slot] == ip
  {
  }

  /** Setting up a container looks up its network by name before `run`, and the parser refuses the main network's name:
   *  so every container that reaches `run` has a network of its own, and whatever exit it takes after it got an
   *  address, it keeps this address there. */
  lemma {:induction false} NoRunGivesItsAddressBack(text: string, outside: Environment.Outside,
                                                    ops: seq<Ipam.NetOp>, w: World, c: Container, exit: Exit,
                                                    ip: string)
    requires Environment.Parse(text, outside).Some? && Environment.Parse(text, outside).value.network == c.network
    requires NamedCreates(ops) && c.network in Ipam.Stored(ops).configs
    requires c.id !in w.persisted && ip != "" && !exit.NoAddress?
    ensures var slot, after := Slot(c.network, c.id), AfterRun(w, c, exit, ip).addresses;
            slot in after && after[slot] == ip
  {
    NoUnnamedNetwork(ops);
    Environment.ParsedIsNotMain(Environment.RawLines(text), outside);
    AddressesAfterRun(w, c, exit, ip);
    OwnAddressStays(w.addresses, c, exit, ip);
  }

  // ---------- The sweep before each command ----------

  /** CleanupNetwork, on the stores. */
  function NetworkCleaned(w: World, c: Container): World {
    w.(addresses := if c.ip == "" then w.addresses else w.addresses - {MainSlot(c.id)},
       rules := w.rules - multiset(Rules(c)))
  }

  /** RuntimeCleanup on one runtime directory. */
  function SweptOne(w: World, id: string, alive: set<string>): World {
    if id !in w.persisted || id in alive then w
    else NetworkCleaned(w, w.persisted[id]).(persisted := w.persisted - {id})
  }

  function Swept(w: World, entries: seq<string>, alive: set<string>): World {
    if entries == [] then w else SweptOne(Swept(w, entries[..|entries| - 1], alive), entries[|entries| - 1], alive)
  }

  /** The sweep finds the container's state and no live process. */
  predicate Goes(w: World, entries: seq<string>, alive: set<string>, id: string) {
    id in entries && id in w.persisted && id !in alive
  }

  predicate ReleasedBySweep(w: World, entries: seq<string>, alive: set<string>, slot: Slot) {
    slot.network == Global.MAIN_NET && Goes(w, entries, alive, slot.id) && w.persisted[slot.id].ip != ""
  }

  ghost predicate IdsMatch(w: World) {
    forall id | id in w.persisted :: w.persisted[id].id == id
  }

  /** Exactly the dead containers that are listed lose their state, and of their addresses only one in the main network;
   *  all volumes and names stay. */
  lemma {:induction false} SweepIsExact(w: World, entries: seq<string>, alive: set<string>, id: string, network: string)
    requires IdsMatch(w)
    ensures var w', slot := Swept(w, entries, alive), Slot(network, id);
            && IdsMatch(w')
            && w'.volumes == w.volumes && w'.names == w.names
            && (id in w'.persisted <==> id in w.persisted && !Goes(w, entries, alive, id))
            && (id in w'.persisted ==> w'.persisted[id] == w.persisted[id])
            && (slot in w'.addresses <==>
                slot in w.addresses && !ReleasedBySweep(w, entries, alive, slot))
            && (slot in w'.addresses ==> w'.addresses[slot] == w.addresses[slot])
  {
    if entries != [] {
      var front, last := entries[..|entries| - 1], entries[|entries| - 1];
      assert entries == front + [last];
      SweepIsExact(w, front, alive, id, network);
      SweepIsExact(w, front, alive, last, network);
    }
  }

  /** A rule goes when a swept container has it, and stays as often as it was when none does. */
  lemma {:induction false} SweptRules(w: World, entries: seq<string>, alive: set<string>, rule: Ports.Rule)
    requires IdsMatch(w)
    ensures var w' := Swept(w, entries, alive);
            && w'.rules[rule] <= w.rules[rule]
            && ((forall id | Goes(w, entries, alive, id) :: rule !in Rules(w.persisted[id])) ==>
                  w'.rules[rule] == w.rules[rule])
            && ((exists id | Goes(w, entries, alive, id) :: w.rules[rule] <= multiset(Rules(w.persisted[id]))[rule]) ==>
                  rule !in w'.rules)
  {
    if entries != [] {
      var front, last := entries[..|entries| - 1], entries[|entries| - 1];
      assert entries == front + [last];
      assert forall id :: Goes(w, entries, alive, id) <==>
                          Goes(w, front, alive, id) || (id == last && Goes(w, [last], alive, id));
      SweptRules(w, front, alive, rule);
      SweepIsExact(w, front, alive, last, "");
    }
  }

  predicate HasName(names: Names.Registry, id: string) {
    exists n | n in names :: n.container == id
  }

  lemma {:induction false} UnmarksKeepNames(w: World, acts: seq<Act>, id: string)
    requires forall a | a in acts :: a.Unmark?
    ensures DoAll(w, acts, id).names == w.names
  {
    if acts != [] {
      assert acts[|acts| - 1] in acts;
      UnmarksKeepNames(w, acts[..|acts| - 1], id);
    }
  }

  lemma {:induction false} PreambleNames(w: World, c: Container)
    ensures DoAll(w, Preamble(c), c.id).names == if c.name == "" then w.names else Names.Unregistered(w.names, c.name)
  {
    var unmarks := UnmarkAll(c.volumes);
    assert forall a | a in unmarks :: a.Unmark?;
    UnmarksKeepNames(w, unmarks, c.id);
    var w1 := DoAll(w, unmarks, c.id);
    if c.name == "" {
      assert Preamble(c) == unmarks;
    } else {
      DoAllConcat(w, unmarks, [Unregister(c.name)], c.id);
      DoOne(w1, Unregister(c.name), c.id);
      assert Preamble(c) == unmarks + [Unregister(c.name)];
    }
  }

  /** When a sweep finds a container dead before its deferred cleanup runs, `down` finds no state. A name of the
   *  container then stays registered, unless the cleanup's mistaken unregistration happens to hit its id; without the
   *  sweep the cleanup drops the names of every named container. */
  lemma NameOutlivesSweepExactly(w: World, c: Container, entries: seq<string>, alive: set<string>)
    requires IdsMatch(w) && c.id in w.persisted && w.persisted[c.id] == c && Goes(w, entries, alive, c.id)
    ensures HasName(CleanedUp(Swept(w, entries, alive), c).names, c.id) <==>
            HasName(w.names, c.id) && (c.name == "" || c.name != c.id)
    ensures c.name != "" ==> !HasName(CleanedUp(w, c).names, c.id)
  {
    var w1 := Swept(w, entries, alive);
    SweepIsExact(w, entries, alive, c.id, "");
    PreambleActs(c);
    DoAllKeeps(w1, Preamble(c), c.id);
    DoAllKeeps(w, Preamble(c), c.id);
    PreambleNames(w1, c);
    if c.name != "" {
      BodyActs(c, Unregister(c.id));
      DoAllSettles(DoAll(w, Preamble(c), c.id), Body(c), c.id, Unregister(c.id));
    }
  }

  // ---------- The stores ----------

  class Host {
    const volumes: Volumes.VolumeRegistry
    const names: Names.NameRegistry
    const chain: Ports.Chain
    var addresses: map<Slot, string>
    var persisted: map<string, Container>

    constructor (volumes: Volumes.VolumeRegistry, names: Names.NameRegistry, chain: Ports.Chain)
      ensures this.volumes == volumes && this.names == names && this.chain == chain
      ensures addresses == map[] && persisted == map[]
    {
      this.volumes, this.names, this.chain := volumes, names, chain;
      addresses, persisted := map[], map[];
    }

    function View(): World
      reads this, volumes, names, chain
    {
      World(volumes.volumes, names.names, addresses, chain.rules, persisted)
    }

    ghost predicate Valid()
      reads this
    {
      forall id | id in persisted :: persisted[id].id == id
    }

    method MarkAll(c: Container)
      modifies volumes
      ensures volumes.volumes == AllMarkedUsed(old(volumes.volumes), c.volumes, c.id)
      ensures Volumes.RegistryOk(old(volumes.volumes)) ==>
                UsersChanged(old(volumes.volumes), volumes.volumes, c.volumes, c.id, true)
    {
      for i := 0 to |c.volumes|
        invariant volumes.volumes == AllMarkedUsed(old(volumes.volumes), c.volumes[..i], c.id)
      {
        assert c.volumes[..i + 1][..i] == c.volumes[..i];
        if c.volumes[i].name != "" {
          volumes.MarkVolumeUsed(c.volumes[i].name, "", c.id);
        } else {
          volumes.MarkVolumeUsed("", c.volumes[i].hostPath, c.id);
        }
      }
      assert c.volumes[..|c.volumes|] == c.volumes;
      LoopsChangeUsers(old(volumes.volumes), c.volumes, c.id);
    }

    method UnmarkVolumes(c: Container)
      modifies volumes
      ensures View() == DoAll(old(View()), UnmarkAll(c.volumes), c.id)
      ensures Volumes.RegistryOk(old(volumes.volumes)) ==>
                UsersChanged(old(volumes.volumes), volumes.volumes, c.volumes, c.id, false)
    {
      for i := 0 to |c.volumes|
        invariant volumes.volumes == AllUnmarked(old(volumes.volumes), c.volumes[..i], c.id)
      {
        assert c.volumes[..i + 1][..i] == c.volumes[..i];
        if c.volumes[i].name != "" {
          volumes.MarkVolumeUnused(c.volumes[i].name, "", c.id);
        } else {
          volumes.MarkVolumeUnused("", c.volumes[i].hostPath, c.id);
        }
      }
      assert c.volumes[..|c.volumes|] == c.volumes;
      UnmarksAreActs(old(View()), c.volumes, c.id);
      LoopsChangeUsers(old(volumes.volumes), c.volumes, c.id);
    }

    /** CleanupNetwork: an address in the main network is released, whatever the container's network; then the rules. */
    method CleanupNetwork(c: Container)
      modifies this`addresses, chain
      ensures addresses == if c.ip == "" then old(addresses) else old(addresses) - {MainSlot(c.id)}
      ensures chain.rules == old(chain.rules) - multiset(Rules(c))
    {
      if c.ip == "" {
        return;
      }
      addresses := addresses - {MainSlot(c.id)};
      chain.RemoveForwards(c.ip, c.ports);
    }

    /** `down` after its unmark loop. */
    method TakeDown(c: Container)
      requires Valid()
      modifies this, names, chain
      ensures Valid()
      ensures View() == AfterUnmarks(old(View()), c)
    {
      CleanupNetwork(c);
      if c.name != "" {
        names.UnregisterName(c.id);
      }
      persisted := persisted - {c.id};
    }

    method Down(id: string) returns (ok: bool)
      requires Valid()
      modifies this, volumes, names, chain
      ensures Valid()
      ensures ok <==> id in old(persisted)
      ensures View() == if ok then DoAll(old(View()), Body(old(persisted)[id]), id) else old(View())
      ensures ok ==> TakenDown(old(View()), View(), old(persisted)[id])
    {
      if id !in persisted {
        return false;
      }
      var c := persisted[id];
      UnmarkVolumes(c);
      TakeDown(c);
      BodyInStages(old(View()), c);
      BodyTakesDown(old(View()), c, View());
      return true;
    }

    /** RuntimeCleanup: `entries` lists the runtime directories, and `alive` holds the containers with a live
     *  process. */
    method RuntimeCleanup(entries: seq<string>, alive: set<string>)
      requires Valid()
      modifies this, chain
      ensures Valid()
      ensures View() == Swept(old(View()), entries, alive)
    {
      for i := 0 to |entries|
        invariant Valid()
        invariant View() == Swept(old(View()), entries[..i], alive)
      {
        assert entries[..i + 1][..i] == entries[..i];
        var id := entries[i];
        if id in persisted && id !in alive {
          CleanupNetwork(persisted[id]);
          persisted := persisted - {id};
        }
      }
      assert entries[..|entries|] == entries;
    }

    method Cleanup(c: Container)
      requires Valid()
      modifies this, volumes, names, chain
      ensures Valid()
      ensures View() == CleanedUp(old(View()), c)
    {
      UnmarkVolumes(c);
      if c.name != "" {
        names.UnregisterName(c.name);
      }
      DoAllConcat(old(View()), UnmarkAll(c.volumes), if c.name == "" then [] else [Unregister(c.name)], c.id);
      DoOne(DoAll(old(View()), UnmarkAll(c.volumes), c.id), Unregister(c.name), c.id);
      assert View() == DoAll(old(View()), Preamble(c), c.id);
      var _ := Down(c.id);
    }

    /** The rules of the mappings that iptables accepts. */
    method AddForwards(c: Container, exit: Exit, ip: string)
      modifies chain
      ensures chain.rules == old(chain.rules) + multiset(Ports.RulesOf(ip, MappedPorts(c, exit)))
    {
      var _ := chain.SetupForwards(ip, c.ports, Accepted(c, exit));
      assert c.ports[..|c.ports|] == c.ports;
    }

    /** `run` up to its return: the marks, the network and the state. */
    method SetUp(c: Container, exit: Exit, ip: string)
      requires Valid()
      modifies this, volumes, chain
      ensures Valid()
      ensures View() == BeforeCleanup(old(View()), c, exit, ip)
    {
      MarkAll(c);
      if !exit.NoAddress? {
        addresses := addresses[OwnSlot(c) := ip];
        AddForwards(c, exit, ip);
        if Persists(exit) {
          persisted := persisted[c.id := c.(ip := ip)];
        }
      }
    }

    /** `run` after its log manager exists, with the exit it takes and the address it is given. */
    method Run(c: Container, exit: Exit, ip: string)
      requires Valid()
      modifies this, volumes, names, chain
      ensures Valid()
      ensures View() == AfterRun(old(View()), c, exit, ip)
      ensures Volumes.RegistryOk(old(volumes.volumes)) ==> NotUsed(volumes.volumes, c.volumes, c.id)
    {
      SetUp(c, exit, ip);
      Cleanup(c);
      assert Volumes.RegistryOk(old(View()).volumes) ==> NotUsed(volumes.volumes, c.volumes, c.id) by {
        forall v, u | Volumes.RegistryOk(old(View()).volumes) && v in c.volumes && u in volumes.volumes && Picks(v, u)
          ensures c.id !in u.usedBy
        {
          NoExitLeavesUsers(old(View()), c, exit, ip, v, u);
        }
      }
    }
  }
}
