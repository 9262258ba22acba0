/** The daemon's cleanup at start: what a restart leaves of containers that are gone. */
module Recovery {
  import opened Text
  import opened Wrappers

  import Global
  import Ipam
  import Names
  import Volumes

  /** `runtime` maps each runtime directory to the number in its pid file, if that can be read; `lib` holds the
   *  container directories. */
  datatype Stores = Stores(runtime: map<string, Option<int>>, lib: set<string>, volumes: Volumes.Registry,
                           names: Names.Registry, nets: Ipam.Configs)

  predicate IsLive(pid: Option<int>, alive: set<int>) {
    pid.Some? && pid.value != 0 && pid.value in alive
  }

  // ---------- What the cleanup does ----------

  function ForgetUsers(reg: Volumes.Registry, gone: set<string>): (r: Volumes.Registry)
    ensures |r| == |reg|
    ensures forall i | 0 <= i < |reg| :: r[i] == Volumes.WithoutUsers(reg[i], gone)
  {
    seq(|reg|, i requires 0 <= i < |reg| => Volumes.WithoutUsers(reg[i], gone))
  }

  function ForgetNames(reg: Names.Registry, gone: set<string>): Names.Registry {
    Filter(Names.NotFrom(gone), reg)
  }

  function Without(net: Ipam.Net, gone: set<string>): Ipam.Net {
    net.(containers := net.containers - gone)
  }

  function ForgetAddresses(nets: Ipam.Configs, gone: set<string>): Ipam.Configs {
    map name | name in nets :: Without(nets[name], gone)
  }

  /** Containers with a runtime directory but no live process. */
  function Dead(s: Stores, alive: set<int>): set<string> {
    set h | h in s.runtime && !IsLive(s.runtime[h], alive)
  }

  /** Container directories without a runtime directory. */
  function Orphans(s: Stores): set<string> {
    s.lib - s.runtime.Keys
  }

  function Forgotten(s: Stores, gone: set<string>): Stores {
    s.(volumes := ForgetUsers(s.volumes, gone), names := ForgetNames(s.names, gone))
  }

  /** Dead containers lose both directories. */
  function Purged(s: Stores, gone: set<string>): Stores {
    Forgotten(s, gone).(runtime := s.runtime - gone, lib := s.lib - gone)
  }

  /** Orphans lose their directory and their addresses. */
  function Evicted(s: Stores, gone: set<string>): Stores {
    Forgotten(s, gone).(lib := s.lib - gone, nets := ForgetAddresses(s.nets, gone))
  }

  function CleanedRuntime(s: Stores, alive: set<int>): Stores {
    Purged(s, Dead(s, alive))
  }

  function CleanedLib(s: Stores): Stores {
    Evicted(s, Orphans(s))
  }

  function CleanedNetworks(s: Stores): Stores {
    s.(nets := Ipam.WithoutUnused(s.nets))
  }

  function Recovered(s: Stores, alive: set<int>): Stores {
    CleanedNetworks(CleanedLib(CleanedRuntime(s, alive)))
  }

  // ---------- What it establishes ----------

  /** The containers that a recovery removes. */
  function Removed(s: Stores, alive: set<int>): set<string> {
    Dead(s, alive) + Orphans(s)
  }

  lemma ForgetTwice(s: Stores, a: set<string>, b: set<string>)
    ensures ForgetUsers(ForgetUsers(s.volumes, a), b) == ForgetUsers(s.volumes, a + b)
    ensures ForgetNames(ForgetNames(s.names, a), b) == ForgetNames(s.names, a + b)
  {
    FilterTwice(Names.NotFrom(a), Names.NotFrom(b), Names.NotFrom(a + b), s.names);
    forall i | 0 <= i < |s.volumes|
      ensures ForgetUsers(ForgetUsers(s.volumes, a), b)[i] == ForgetUsers(s.volumes, a + b)[i]
    {
      FilterTwice(Volumes.NotAmong(a), Volumes.NotAmong(b), Volumes.NotAmong(a + b), s.volumes[i].usedBy);
    }
  }

  /** The recovery in one piece. */
  lemma RecoveredStores(s: Stores, alive: set<int>)
    ensures var r := Recovered(s, alive);
            && r.runtime == s.runtime - Dead(s, alive)
            && r.lib == s.lib * r.runtime.Keys
            && r.volumes == ForgetUsers(s.volumes, Removed(s, alive))
            && r.names == ForgetNames(s.names, Removed(s, alive))
            && r.nets == Ipam.WithoutUnused(ForgetAddresses(s.nets, Orphans(s)))
  {
    assert Orphans(CleanedRuntime(s, alive)) == Orphans(s);
    ForgetTwice(s, Dead(s, alive), Orphans(s));
  }

  /** What makes the daemon remove a container: a runtime directory without a live process, or a container directory
   *  without a runtime directory. */
  lemma RemovedExactly(s: Stores, alive: set<int>, h: string)
    ensures h in Removed(s, alive) <==>
            if h in s.runtime then s.runtime[h].None? || s.runtime[h].value == 0 || s.runtime[h].value !in alive
            else h in s.lib
  {
  }

  /** After a recovery exactly the containers with a live process have a runtime directory, exactly those of them that
   *  had a container directory have one, and no removed container uses a volume or has a name. */
  lemma RecoveryIsClean(s: Stores, alive: set<int>, h: string)
    ensures var r := Recovered(s, alive);
            var live := h in s.runtime && s.runtime[h].Some? && s.runtime[h].value != 0 && s.runtime[h].value in alive;
            && (h in r.runtime <==> live)
            && (live ==> r.runtime[h] == s.runtime[h])
            && (h in r.lib <==> h in s.lib && live)
            && ((h in s.runtime || h in s.lib) && !live ==>
                 (forall v | v in r.volumes :: h !in v.usedBy) && (forall n | n in r.names :: n.container != h))
  {
    RecoveredStores(s, alive);
    RemovedExactly(s, alive, h);
    var r := Recovered(s, alive);
    forall v | v in r.volumes && h in Removed(s, alive)
      ensures h !in v.usedBy
    {
      var i :| 0 <= i < |r.volumes| && r.volumes[i] == v;
      assert v == Volumes.WithoutUsers(s.volumes[i], Removed(s, alive));
    }
  }

  /** The containers that are not removed keep their marks, their names and their addresses. */
  lemma RecoveryKeepsLive(s: Stores, alive: set<int>, h: string, i: nat, network: string)
    requires i < |s.volumes|
    requires if h in s.runtime then s.runtime[h].Some? && s.runtime[h].value != 0 && s.runtime[h].value in alive
             else h !in s.lib
    ensures var r := Recovered(s, alive);
            && (h in r.volumes[i].usedBy <==> h in s.volumes[i].usedBy)
            && (forall n | n in s.names && n.container == h :: n in r.names)
            && (network in s.nets && h in s.nets[network].containers ==>
                  network in r.nets && h in r.nets[network].containers &&
                  r.nets[network].containers[h] == s.nets[network].containers[h])
  {
    RecoveredStores(s, alive);
    RemovedExactly(s, alive, h);
    if network in s.nets && h in s.nets[network].containers {
      assert h in Without(s.nets[network], Orphans(s)).containers;
    }
  }

  /** Exactly those networks stay that hold a container which is not an orphan, and the main one. */
  lemma NetworksAfterRecovery(s: Stores, alive: set<int>, network: string)
    ensures network in Recovered(s, alive).nets <==>
            && network in s.nets
            && (|| s.nets[network].name == Global.MAIN_NET
                || exists h | h in s.nets[network].containers :: h in s.runtime || h !in s.lib)
  {
    RecoveredStores(s, alive);
    if network in s.nets {
      var left := Without(s.nets[network], Orphans(s)).containers;
      if h :| h in s.nets[network].containers && (h in s.runtime || h !in s.lib) {
        assert h in left;
      } else {
        assert left == map[];
      }
    }
  }

  predicate HoldsAddress(nets: Ipam.Configs, h: string) {
    exists network | network in nets :: h in nets[network].containers
  }

  /** A removed container is gone from all networks exactly when it was an orphan or held no address: a dead container
   *  that still has its runtime directory loses its directory before the pass that releases addresses. */
  lemma AddressesAreReleasedExactly(s: Stores, alive: set<int>, h: string)
    requires h in Removed(s, alive)
    ensures !HoldsAddress(Recovered(s, alive).nets, h) <==> h !in s.runtime || !HoldsAddress(s.nets, h)
  {
    RecoveredStores(s, alive);
    var r := Recovered(s, alive);
    if HoldsAddress(s.nets, h) && h !in Orphans(s) {
      var network :| network in s.nets && h in s.nets[network].containers;
      assert h in Without(s.nets[network], Orphans(s)).containers;
      assert network in r.nets;
    }
  }

  lemma NothingToForget(s: Stores)
    ensures ForgetUsers(s.volumes, {}) == s.volumes
    ensures ForgetNames(s.names, {}) == s.names
    ensures ForgetAddresses(s.nets, {}) == s.nets
  {
    FilterAll(Names.NotFrom({}), s.names);
    forall i | 0 <= i < |s.volumes|
      ensures ForgetUsers(s.volumes, {})[i] == s.volumes[i]
    {
      FilterAll(Volumes.NotAmong({}), s.volumes[i].usedBy);
    }
    forall name | name in s.nets
      ensures Without(s.nets[name], {}) == s.nets[name]
    {
      assert s.nets[name].containers - {} == s.nets[name].containers;
    }
  }

  lemma UnusedGoneOnce(nets: Ipam.Configs)
    ensures Ipam.WithoutUnused(Ipam.WithoutUnused(nets)) == Ipam.WithoutUnused(nets)
  {
  }

  /** A second recovery with the same live processes changes nothing. */
  lemma RecoveryIsIdempotent(s: Stores, alive: set<int>)
    ensures Recovered(Recovered(s, alive), alive) == Recovered(s, alive)
  {
    var r := Recovered(s, alive);
    RecoveredStores(s, alive);
    assert Dead(r, alive) == {};
    assert Orphans(r) == {};
    RecoveredStores(r, alive);
    NothingToForget(r);
    UnusedGoneOnce(ForgetAddresses(s.nets, Orphans(s)));
    assert Removed(r, alive) == {};
    assert r.runtime - {} == r.runtime;
    assert Recovered(r, alive).lib == r.lib;
  }

  // ---------- The passes ----------

  lemma NobodyGone(s: Stores)
    ensures Purged(s, {}) == s && Evicted(s, {}) == s
  {
    NothingToForget(s);
    assert s.runtime - {} == s.runtime;
  }

  lemma ForgetOneMoreAddress(nets: Ipam.Configs, gone: set<string>, h: string)
    ensures ForgetAddresses(ForgetAddresses(nets, gone), {h}) == ForgetAddresses(nets, gone + {h})
  {
    forall name | name in nets
      ensures Without(Without(nets[name], gone), {h}) == Without(nets[name], gone + {h})
    {
      assert Without(Without(nets[name], gone), {h}) == Without(nets[name], gone + {h});
    }
  }

  /** The dead containers that are not still to do are purged. */
  function PurgedBut(s: Stores, alive: set<int>, todo: set<string>): Stores {
    Purged(s, Dead(s, alive) - todo)
  }

  lemma OneLess(all: set<string>, todo: set<string>, h: string)
    requires h in todo
    ensures all - (todo - {h}) == if h in all then (all - todo) + {h} else all - todo
  {
  }

  /** A dead container that is visited is purged; a live one is left alone. */
  lemma RuntimeVisited(s: Stores, alive: set<int>, todo: set<string>, h: string, after: Stores)
    requires h in todo && h in s.runtime
    requires after == if IsLive(s.runtime[h], alive) then PurgedBut(s, alive, todo)
                      else Purged(PurgedBut(s, alive, todo), {h})
    ensures after == PurgedBut(s, alive, todo - {h})
  {
    OneLess(Dead(s, alive), todo, h);
    if !IsLive(s.runtime[h], alive) {
      var gone := Dead(s, alive) - todo;
      ForgetTwice(s, gone, {h});
      assert s.runtime - gone - {h} == s.runtime - (gone + {h});
      assert s.lib - gone - {h} == s.lib - (gone + {h});
    }
  }

  /** The orphans that are not still to do are evicted. */
  function EvictedBut(s: Stores, todo: set<string>): Stores {
    Evicted(s, Orphans(s) - todo)
  }

  lemma AllDone(s: Stores, todo: set<string>)
    requires todo == {}
    ensures EvictedBut(s, todo) == CleanedLib(s)
  {
    assert Orphans(s) - todo == Orphans(s);
  }

  /** An orphan that is visited is evicted; another container is left alone. */
  lemma Visited(s: Stores, todo: set<string>, h: string, after: Stores)
    requires h in todo && h in s.lib
    requires after == if h in s.runtime then EvictedBut(s, todo) else Evicted(EvictedBut(s, todo), {h})
    ensures after == EvictedBut(s, todo - {h})
  {
    OneLess(Orphans(s), todo, h);
    if h !in s.runtime {
      var gone := Orphans(s) - todo;
      ForgetTwice(s, gone, {h});
      ForgetOneMoreAddress(s.nets, gone, h);
      assert s.lib - gone - {h} == s.lib - (gone + {h});
    }
  }

  /** The first i volumes are done. */
  function ForgottenUpTo(reg: Volumes.Registry, i: nat, h: string): (r: Volumes.Registry)
    requires i <= |reg|
    ensures |r| == |reg|
    ensures forall j | 0 <= j < |reg| :: r[j] == if j < i then Volumes.WithoutUsers(reg[j], {h}) else reg[j]
  {
    seq(|reg|, j requires 0 <= j < |reg| => if j < i then Volumes.WithoutUsers(reg[j], {h}) else reg[j])
  }

  /** Unmarking volume i by its own name and path changes that volume only. */
  lemma UnmarkByOwn(reg: Volumes.Registry, i: nat, h: string)
    requires Volumes.RegistryOk(reg) && i < |reg|
    ensures Volumes.MarkedUnused(reg, reg[i].name, reg[i].path, h) == reg[i := Volumes.WithoutUsers(reg[i], {h})]
  {
    var v := reg[i];
    assert v in reg;
    if v.name == "" && v.path == "" {
      assert Volumes.MatchIndex(reg, v.name, v.path) == |reg|;
      assert Volumes.WithoutUsers(v, {h}) == v;
    } else {
      assert Volumes.Matches(v, v.name, v.path);
      assert Volumes.MatchIndex(reg, v.name, v.path) == i;
    }
  }

  lemma ForgetNext(reg: Volumes.Registry, before: Volumes.Registry, i: nat, h: string)
    requires i < |reg| && before == ForgottenUpTo(reg, i, h) && Volumes.RegistryOk(before)
    ensures Volumes.Next(before, Volumes.MarkUnused(reg[i].name, reg[i].path, h)) == ForgottenUpTo(reg, i + 1, h)
  {
    UnmarkByOwn(before, i, h);
    assert before[i := Volumes.WithoutUsers(before[i], {h})] == ForgottenUpTo(reg, i + 1, h);
  }

  lemma ForgetKeepsOk(reg: Volumes.Registry, gone: set<string>)
    requires Volumes.RegistryOk(reg)
    ensures Volumes.RegistryOk(ForgetUsers(reg, gone))
  {
    var r := ForgetUsers(reg, gone);
    forall v | v in r
      ensures Distinct(v.usedBy) && (v.name == "" && v.path == "" ==> v.usedBy == [])
    {
      var i :| 0 <= i < |r| && r[i] == v;
      assert reg[i] in reg;
      FilterDistinct(Volumes.NotAmong(gone), reg[i].usedBy);
    }
  }

  /** The volume registry keeps its invariant, and the configs are readable and stored under their own names. */
  ghost predicate StoresOk(s: Stores) {
    Volumes.RegistryOk(s.volumes) && forall name | name in s.nets :: s.nets[name].name == name
  }

  lemma CleanupKeepsOk(s: Stores, gone: set<string>)
    requires StoresOk(s)
    ensures StoresOk(Purged(s, gone)) && StoresOk(Evicted(s, gone)) && StoresOk(CleanedNetworks(s))
  {
    ForgetKeepsOk(s.volumes, gone);
  }

  class Daemon {
    const volumes: Volumes.VolumeRegistry
    const names: Names.NameRegistry
    var runtime: map<string, Option<int>>
    var lib: set<string>
    var nets: Ipam.Configs

    constructor (volumes: Volumes.VolumeRegistry, names: Names.NameRegistry, s: Stores)
      requires volumes.volumes == s.volumes && names.names == s.names
      ensures View() == s && this.volumes == volumes && this.names == names
    {
      this.volumes, this.names := volumes, names;
      runtime, lib, nets := s.runtime, s.lib, s.nets;
    }

    function View(): Stores
      reads this, volumes, names
    {
      Stores(runtime, lib, volumes.volumes, names.names, nets)
    }

    method UnmarkEverywhere(h: string)
      requires Volumes.RegistryOk(volumes.volumes)
      modifies volumes
      ensures volumes.volumes == ForgetUsers(old(volumes.volumes), {h})
      ensures Volumes.RegistryOk(volumes.volumes)
    {
      var listed := volumes.volumes;
      assert ForgottenUpTo(listed, 0, h) == listed;
      for i := 0 to |listed|
        invariant Volumes.RegistryOk(volumes.volumes)
        invariant volumes.volumes == ForgottenUpTo(listed, i, h)
      {
        ForgetNext(listed, volumes.volumes, i, h);
        Volumes.NextKeepsOk(volumes.volumes, Volumes.MarkUnused(listed[i].name, listed[i].path, h));
        volumes.MarkVolumeUnused(listed[i].name, listed[i].path, h);
      }
      assert ForgottenUpTo(listed, |listed|, h) == ForgetUsers(listed, {h});
    }

    /** cleanContainerResources, without the links and mounts. */
    method CleanContainerResources(h: string)
      requires Volumes.RegistryOk(volumes.volumes)
      modifies volumes, names
      ensures volumes.volumes == ForgetUsers(old(volumes.volumes), {h})
      ensures names.names == ForgetNames(old(names.names), {h})
      ensures Volumes.RegistryOk(volumes.volumes)
    {
      UnmarkEverywhere(h);
      names.UnregisterName(h);
    }

    /** A dead container: its resources and both directories. */
    method Purge(h: string)
      requires StoresOk(View())
      modifies this`runtime, this`lib, volumes, names
      ensures View() == Purged(old(View()), {h})
    {
      CleanContainerResources(h);
      runtime := runtime - {h};
      lib := lib - {h};
    }

    /** One turn of the loop over the runtime directories. */
    method VisitRuntime(h: string, alive: set<int>, ghost start: Stores, ghost todo: set<string>)
      requires StoresOk(start) && h in todo && h in start.runtime && View() == PurgedBut(start, alive, todo)
      modifies this`runtime, this`lib, volumes, names
      ensures View() == PurgedBut(start, alive, todo - {h})
    {
      CleanupKeepsOk(start, Dead(start, alive) - todo);
      if !IsLive(runtime[h], alive) {
        Purge(h);
      }
      RuntimeVisited(start, alive, todo, h, View());
    }

    method CleanRuntimeContainers(alive: set<int>)
      requires StoresOk(View())
      modifies this`runtime, this`lib, volumes, names
      ensures View() == CleanedRuntime(old(View()), alive)
    {
      ghost var start := View();
      var todo := runtime.Keys;
      assert PurgedBut(start, alive, todo) == start by {
        NobodyGone(start);
        assert Dead(start, alive) - todo == {};
      }
      while todo != {}
        invariant todo <= start.runtime.Keys
        invariant View() == PurgedBut(start, alive, todo)
        decreases |todo|
      {
        var h :| h in todo;
        VisitRuntime(h, alive, start, todo);
        todo := todo - {h};
      }
      assert Dead(start, alive) - todo == Dead(start, alive);
    }

    method ReleaseFromAllNetworks(h: string)
      requires forall name | name in nets :: nets[name].name == name
      modifies this`nets
      ensures nets == ForgetAddresses(old(nets), {h})
    {
      var todo := nets.Keys;
      while todo != {}
        invariant todo <= old(nets).Keys && nets.Keys == old(nets).Keys
        invariant forall name | name in nets ::
                    nets[name] == if name in todo then old(nets)[name] else Without(old(nets)[name], {h})
        decreases |todo|
      {
        var name :| name in todo;
        if h in nets[name].containers {
          nets := Ipam.Released(nets, name, h);
        }
        assert nets[name] == Without(old(nets)[name], {h});
        todo := todo - {name};
      }
    }

    /** An orphan: its addresses, its resources and its directory. */
    method Evict(h: string)
      requires StoresOk(View())
      modifies this`lib, this`nets, volumes, names
      ensures View() == Evicted(old(View()), {h})
    {
      ReleaseFromAllNetworks(h);
      CleanContainerResources(h);
      lib := lib - {h};
    }

    /** One turn of the loop over the container directories. */
    method VisitLib(h: string, ghost start: Stores, ghost todo: set<string>)
      requires StoresOk(start) && h in todo && h in start.lib && View() == EvictedBut(start, todo)
      modifies this, volumes, names
      ensures View() == EvictedBut(start, todo - {h})
    {
      CleanupKeepsOk(start, Orphans(start) - todo);
      if h !in runtime {
        Evict(h);
      }
      Visited(start, todo, h, View());
    }

    method CleanLibContainers()
      requires StoresOk(View())
      modifies this, volumes, names
      ensures View() == CleanedLib(old(View()))
    {
      ghost var start := View();
      var todo := lib;
      assert EvictedBut(start, todo) == start by {
        NobodyGone(start);
        assert Orphans(start) - todo == {};
      }
      while todo != {}
        invariant todo <= start.lib
        invariant View() == EvictedBut(start, todo)
        decreases |todo|
      {
        var h :| h in todo;
        VisitLib(h, start, todo);
        todo := todo - {h};
      }
      AllDone(start, todo);
    }

    /** cleanNetworks: the config files of unused networks are removed. */
    method CleanNetworks()
      requires StoresOk(View())
      modifies this`nets
      ensures View() == CleanedNetworks(old(View()))
      ensures forall name :: name in nets <==>
                && name in old(nets)
                && (old(nets)[name].containers != map[] || old(nets)[name].name == Global.MAIN_NET)
    {
      var todo := nets.Keys;
      while todo != {}
        invariant todo <= nets.Keys <= old(nets).Keys
        invariant forall name | name in nets :: nets[name] == old(nets)[name]
        invariant forall name | name in old(nets) ::
                    name in nets <==> name in todo || !Ipam.Unused(old(nets)[name])
        decreases |todo|
      {
        var name :| name in todo;
        todo := todo - {name};
        if Ipam.Unused(nets[name]) {
          nets := nets - {name};
        }
      }
      assert nets == Ipam.WithoutUnused(old(nets));
    }

    method InitCleanUp(alive: set<int>)
      requires StoresOk(View())
      modifies this, volumes, names
      ensures View() == Recovered(old(View()), alive)
    {
      CleanupKeepsOk(View(), Dead(View(), alive));
      CleanRuntimeContainers(alive);
      CleanupKeepsOk(View(), Orphans(View()));
      CleanLibContainers();
      CleanNetworks();
    }
  }
}
