/** Load, change, save: the registries are read under a lock and written under a lock, but not under the same hold of
 *  it, so any number of operations may run between an operation's load and its save. A network config is read and
 *  written without any lock, so the file may also be read, or left behind, in the middle of a save. */
module Interleaving {
  import opened Wrappers

  import Hosts
  import Ipam
  import Names
  import Volumes

  /** The stored value, and what each operation under way has loaded. */
  datatype File<S> = File(stored: S, loaded: map<nat, S>)

  datatype Event<O> = Load(t: nat) | Save(t: nat, op: O)

  function Step<S, O>(f: File<S>, e: Event<O>, apply: (O, S) -> Option<S>): File<S> {
    match e
    case Load(t) => f.(loaded := f.loaded[t := f.stored])
    case Save(t, op) =>
      if t !in f.loaded then f
      else
        var result := apply(op, f.loaded[t]);
        File(if result.Some? then result.value else f.stored, f.loaded - {t})
  }

  function Run<S, O>(init: S, events: seq<Event<O>>, apply: (O, S) -> Option<S>): File<S> {
    if events == [] then File(init, map[])
    else Step(Run(init, events[..|events| - 1], apply), events[|events| - 1], apply)
  }

  lemma Snoc<S, O>(init: S, events: seq<Event<O>>, e: Event<O>, apply: (O, S) -> Option<S>)
    ensures Run(init, events + [e], apply) == Step(Run(init, events, apply), e, apply)
  {
    assert (events + [e])[..|events|] == events;
  }

  /** An invariant that every operation keeps on what it loaded survives every interleaving of loads and saves. */
  lemma {:induction false} EveryInterleavingKeeps<S(!new), O(!new)>(init: S, events: seq<Event<O>>,
                                                                  apply: (O, S) -> Option<S>, ok: S -> bool)
    requires ok(init)
    requires forall op, s | ok(s) && apply(op, s).Some? :: ok(apply(op, s).value)
    ensures ok(Run(init, events, apply).stored)
    ensures forall t | t in Run(init, events, apply).loaded :: ok(Run(init, events, apply).loaded[t])
  {
    if events != [] {
      EveryInterleavingKeeps(init, events[..|events| - 1], apply, ok);
    }
  }

  // ---------- Runs that are sequential ----------

  /** The operations one after the other, each on what the one before left. */
  function Sequential<S, O>(init: S, ops: seq<O>, apply: (O, S) -> Option<S>): S {
    if ops == [] then init
    else
      var s := Sequential(init, ops[..|ops| - 1], apply);
      var result := apply(ops[|ops| - 1], s);
      if result.Some? then result.value else s
  }

  /** The operations that reach their save, in save order. */
  function Saved<S, O>(init: S, events: seq<Event<O>>, apply: (O, S) -> Option<S>): seq<O> {
    if events == [] then []
    else
      var front, last := events[..|events| - 1], events[|events| - 1];
      Saved(init, front, apply) +
      if last.Save? && last.t in Run(init, front, apply).loaded then [last.op] else []
  }

  /** Event k, if it is a save, finds the stored value as its operation has loaded it. */
  predicate SavesOnCurrent<S(==), O>(init: S, events: seq<Event<O>>, k: nat, apply: (O, S) -> Option<S>)
    requires k < |events|
  {
    var f := Run(init, events[..k], apply);
    events[k].Save? && events[k].t in f.loaded ==> f.loaded[events[k].t] == f.stored
  }

  /** Event i is the load whose copy event j saves. */
  predicate LoadsFor<O>(events: seq<Event<O>>, i: nat, j: nat)
    requires i < j < |events|
  {
    && events[i].Load? && events[j].Save? && events[i].t == events[j].t
    && forall k | i < k < j :: events[k].t != events[i].t
  }

  /** Event k leaves the stored value as it is. */
  predicate Idle<S(==), O>(init: S, events: seq<Event<O>>, k: nat, apply: (O, S) -> Option<S>)
    requires k < |events|
  {
    Run(init, events[..k + 1], apply).stored == Run(init, events[..k], apply).stored
  }

  /** No save that changes the file falls between any load and its save. */
  predicate Undisturbed<S(==), O>(init: S, events: seq<Event<O>>, apply: (O, S) -> Option<S>) {
    forall i, j, k | 0 <= i < k < j < |events| && LoadsFor(events, i, j) :: Idle(init, events, k, apply)
  }

  lemma RunStep<S, O>(init: S, events: seq<Event<O>>, k: nat, apply: (O, S) -> Option<S>)
    requires k < |events|
    ensures Run(init, events[..k + 1], apply) == Step(Run(init, events[..k], apply), events[k], apply)
  {
    assert events[..k + 1][..k] == events[..k];
  }

  /** What an operation holds is what was stored at its last load. */
  lemma {:induction false} LastLoad<S, O>(init: S, events: seq<Event<O>>, j: nat, t: nat, apply: (O, S) -> Option<S>)
    returns (i: nat)
    requires j <= |events| && t in Run(init, events[..j], apply).loaded
    ensures i < j && events[i] == Load(t) && forall k | i < k < j :: events[k].t != t
    ensures Run(init, events[..j], apply).loaded[t] == Run(init, events[..i], apply).stored
  {
    assert j > 0;
    RunStep(init, events, j - 1, apply);
    if events[j - 1].t == t {
      i := j - 1;
    } else {
      i := LastLoad(init, events, j - 1, t, apply);
    }
  }

  lemma {:induction false} IdleBetween<S, O>(init: S, events: seq<Event<O>>, i: nat, j: nat, apply: (O, S) -> Option<S>)
    requires i <= j <= |events| && forall k | i <= k < j :: Idle(init, events, k, apply)
    ensures Run(init, events[..j], apply).stored == Run(init, events[..i], apply).stored
    decreases j
  {
    if i < j {
      IdleBetween(init, events, i, j - 1, apply);
      assert Idle(init, events, j - 1, apply);
    }
  }

  lemma UndisturbedIsCurrent<S, O>(init: S, events: seq<Event<O>>, k: nat, apply: (O, S) -> Option<S>)
    requires Undisturbed(init, events, apply) && k < |events|
    ensures SavesOnCurrent(init, events, k, apply)
  {
    if events[k].Save? && events[k].t in Run(init, events[..k], apply).loaded {
      var i := LastLoad(init, events, k, events[k].t, apply);
      RunStep(init, events, i, apply);
      assert LoadsFor(events, i, k);
      IdleBetween(init, events, i, k, apply);
    }
  }

  lemma SavedStep<S, O>(init: S, events: seq<Event<O>>, k: nat, apply: (O, S) -> Option<S>)
    requires k < |events|
    ensures var saves := events[k].Save? && events[k].t in Run(init, events[..k], apply).loaded;
            Sequential(init, Saved(init, events[..k + 1], apply), apply) ==
            var s := Sequential(init, Saved(init, events[..k], apply), apply);
            if saves && apply(events[k].op, s).Some? then apply(events[k].op, s).value else s
  {
    assert events[..k + 1][..k] == events[..k];
    var before, after := Saved(init, events[..k], apply), Saved(init, events[..k + 1], apply);
    if events[k].Save? && events[k].t in Run(init, events[..k], apply).loaded {
      assert after[..|after| - 1] == before;
    } else {
      assert after == before;
    }
  }

  /** When every save works on what is stored, the file is as if the operations had run one after the other. */
  lemma {:induction false} CurrentIsSequential<S, O>(init: S, events: seq<Event<O>>, k: nat,
                                                     apply: (O, S) -> Option<S>)
    requires k <= |events| && forall j | 0 <= j < k :: SavesOnCurrent(init, events, j, apply)
    ensures Run(init, events[..k], apply).stored == Sequential(init, Saved(init, events[..k], apply), apply)
  {
    if k > 0 {
      var j := k - 1;
      CurrentIsSequential(init, events, j, apply);
      RunStep(init, events, j, apply);
      SavedStep(init, events, j, apply);
      assert SavesOnCurrent(init, events, j, apply);
    }
  }

  /** If no save that changes the file falls between any load and its save, the stored value is the sequential run of
   *  the operations in save order. */
  lemma UndisturbedIsSequential<S, O>(init: S, events: seq<Event<O>>, apply: (O, S) -> Option<S>)
    requires Undisturbed(init, events, apply)
    ensures Run(init, events, apply).stored == Sequential(init, Saved(init, events, apply), apply)
  {
    forall k | 0 <= k < |events|
      ensures SavesOnCurrent(init, events, k, apply)
    {
      UndisturbedIsCurrent(init, events, k, apply);
    }
    CurrentIsSequential(init, events, |events|, apply);
    assert events[..|events|] == events;
  }

  // ---------- The volume registry ----------

  lemma VolumeFileIsOk(events: seq<Event<Volumes.Op>>)
    ensures Volumes.RegistryOk(Run([], events, Volumes.Apply).stored)
  {
    forall op, reg | Volumes.RegistryOk(reg) && Volumes.Apply(op, reg).Some?
      ensures Volumes.RegistryOk(Volumes.Apply(op, reg).value)
    {
      Volumes.NextKeepsOk(reg, op);
    }
    EveryInterleavingKeeps([], events, Volumes.Apply, reg => Volumes.RegistryOk(reg));
  }

  /** The record that a registration adds. */
  function Added(op: Volumes.Op): Volumes.Volume
    requires op.Register?
  {
    Volumes.Volume(op.name, op.path, op.created, [])
  }

  lemma {:induction false} LoadedKept<S, O>(init: S, pre: seq<Event<O>>, t: nat, mid: seq<Event<O>>,
                                            apply: (O, S) -> Option<S>)
    requires forall e | e in mid :: e.t != t
    ensures var f := Run(init, pre + [Load(t)] + mid, apply);
            t in f.loaded && f.loaded[t] == Run(init, pre, apply).stored
  {
    if mid == [] {
      assert pre + [Load(t)] + mid == pre + [Load(t)];
      Snoc(init, pre, Load(t), apply);
    } else {
      var front, last := mid[..|mid| - 1], mid[|mid| - 1];
      assert last in mid;
      LoadedKept(init, pre, t, front, apply);
      assert pre + [Load(t)] + mid == pre + [Load(t)] + front + [last];
      Snoc(init, pre + [Load(t)] + front, last, apply);
    }
  }

  /** A registration that is accepted on what it loaded keeps every stored volume exactly when each volume that is
   *  stored at its save was stored at its load already, or is its own record. */
  lemma RegistrationKeepsAllExactly(pre: seq<Event<Volumes.Op>>, t: nat, mid: seq<Event<Volumes.Op>>, op: Volumes.Op)
    requires op.Register? && forall e | e in mid :: e.t != t
    requires !Volumes.Clashes(Run([], pre, Volumes.Apply).stored, op.name, op.path)
    ensures var loaded := Run([], pre, Volumes.Apply).stored;
            var before := Run([], pre + [Load(t)] + mid, Volumes.Apply).stored;
            var after := Run([], pre + [Load(t)] + mid + [Save(t, op)], Volumes.Apply).stored;
            (forall v | v in before :: v in after) <==> (forall v | v in before :: v in loaded || v == Added(op))
  {
    LoadedKept([], pre, t, mid, Volumes.Apply);
    Snoc([], pre + [Load(t)] + mid, Save(t, op), Volumes.Apply);
    assert forall v :: v in Run([], pre, Volumes.Apply).stored + [Added(op)] <==>
                       v in Run([], pre, Volumes.Apply).stored || v == Added(op);
  }

  predicate OnlyRegisters(events: seq<Event<Volumes.Op>>) {
    forall e | e in events :: e.Save? ==> e.op.Register?
  }

  /** Event k drops no stored volume. */
  predicate DropsNothing(events: seq<Event<Volumes.Op>>, k: nat)
    requires k < |events|
  {
    forall v | v in Run([], events[..k], Volumes.Apply).stored :: v in Run([], events[..k + 1], Volumes.Apply).stored
  }

  /** An accepted registration finds the list as it loaded it, or with its own record already added. */
  predicate RegistersOnCurrent(events: seq<Event<Volumes.Op>>, k: nat)
    requires k < |events|
  {
    var f, e := Run([], events[..k], Volumes.Apply), events[k];
    e.Save? && e.op.Register? && e.t in f.loaded && !Volumes.Clashes(f.loaded[e.t], e.op.name, e.op.path) ==>
      f.stored == f.loaded[e.t] || f.stored == f.loaded[e.t] + [Added(e.op)]
  }

  /** A list that only adds one record to a prefix of its own. */
  lemma OneMoreAtMost(loaded: Volumes.Registry, stored: Volumes.Registry, v: Volumes.Volume)
    requires loaded <= stored && Volumes.RegistryOk(stored)
    requires forall x | x in stored :: x in loaded || x == v
    ensures stored == loaded || stored == loaded + [v]
  {
    forall i | |loaded| <= i < |stored|
      ensures stored[i] == v
    {
      forall j | 0 <= j < |loaded|
        ensures loaded[j] != stored[i]
      {
        assert stored[j].name != stored[i].name;
      }
    }
    var n := |loaded|;
    assert n + 1 < |stored| ==> stored[n].name != stored[n + 1].name;
  }

  /** In a run of registrations without losses so far, everything loaded is a prefix of what is stored. */
  ghost predicate LoadedArePrefixes(f: File<Volumes.Registry>) {
    Volumes.RegistryOk(f.stored) && forall t | t in f.loaded :: f.loaded[t] <= f.stored
  }

  lemma RegistrationStep(f: File<Volumes.Registry>, e: Event<Volumes.Op>)
    requires LoadedArePrefixes(f) && (e.Save? ==> e.op.Register?)
    requires forall v | v in f.stored :: v in Step(f, e, Volumes.Apply).stored
    ensures LoadedArePrefixes(Step(f, e, Volumes.Apply))
    ensures e.Save? && e.t in f.loaded && !Volumes.Clashes(f.loaded[e.t], e.op.name, e.op.path) ==>
              f.stored == f.loaded[e.t] || f.stored == f.loaded[e.t] + [Added(e.op)]
  {
    if e.Save? && e.t in f.loaded && !Volumes.Clashes(f.loaded[e.t], e.op.name, e.op.path) {
      var after := f.loaded[e.t] + [Added(e.op)];
      assert Step(f, e, Volumes.Apply).stored == after;
      OneMoreAtMost(f.loaded[e.t], f.stored, Added(e.op));
      assert f.stored <= after;
      Volumes.NextKeepsOk(f.loaded[e.t], e.op);
    }
  }

  lemma {:induction false} LosslessKeepsPrefixes(events: seq<Event<Volumes.Op>>, k: nat)
    requires OnlyRegisters(events) && k <= |events| && forall j | 0 <= j < |events| :: DropsNothing(events, j)
    ensures LoadedArePrefixes(Run([], events[..k], Volumes.Apply))
  {
    if k > 0 {
      LosslessKeepsPrefixes(events, k - 1);
      RunStep([], events, k - 1, Volumes.Apply);
      assert DropsNothing(events, k - 1) && events[k - 1] in events;
      RegistrationStep(Run([], events[..k - 1], Volumes.Apply), events[k - 1]);
    }
  }

  /** Over every interleaving of registrations: no volume is ever lost exactly when every accepted registration finds
   *  the list as it loaded it, or with its own record already added. */
  lemma {:induction false} NothingIsLostExactly(events: seq<Event<Volumes.Op>>)
    requires OnlyRegisters(events)
    ensures (forall k | 0 <= k < |events| :: DropsNothing(events, k)) <==>
            (forall k | 0 <= k < |events| :: RegistersOnCurrent(events, k))
  {
    if forall k | 0 <= k < |events| :: DropsNothing(events, k) {
      forall k | 0 <= k < |events|
        ensures RegistersOnCurrent(events, k)
      {
        LosslessKeepsPrefixes(events, k);
        RunStep([], events, k, Volumes.Apply);
        assert DropsNothing(events, k) && events[k] in events;
        RegistrationStep(Run([], events[..k], Volumes.Apply), events[k]);
      }
    }
    if forall k | 0 <= k < |events| :: RegistersOnCurrent(events, k) {
      forall k | 0 <= k < |events|
        ensures DropsNothing(events, k)
      {
        RunStep([], events, k, Volumes.Apply);
        assert RegistersOnCurrent(events, k) && events[k] in events;
      }
    }
  }

  /** Two registrations that both load first: the second save drops the first volume. */
  lemma RegistrationsCanBeLost(a: Volumes.Op, b: Volumes.Op)
    requires a.Register? && b.Register? && a.name != b.name && a.path != b.path
    ensures var interleaved := Run([], [Load(0), Load(1), Save(0, a), Save(1, b)], Volumes.Apply).stored;
            var one := Run([], [Load(0), Save(0, a), Load(1), Save(1, b)], Volumes.Apply).stored;
            |one| == 2 && interleaved == [Volumes.Volume(b.name, b.path, b.created, [])]
  {
    var va := Volumes.Volume(a.name, a.path, a.created, []);
    var vb := Volumes.Volume(b.name, b.path, b.created, []);
    var none: seq<Event<Volumes.Op>> := [];
    var load0: Event<Volumes.Op>, load1: Event<Volumes.Op> := Load(0), Load(1);
    Snoc([], none, load0, Volumes.Apply);
    Snoc([], none + [load0], load1, Volumes.Apply);
    Snoc([], none + [load0] + [load1], Save(0, a), Volumes.Apply);
    Snoc([], none + [load0] + [load1] + [Save(0, a)], Save(1, b), Volumes.Apply);
    assert none + [load0] + [load1] + [Save(0, a)] + [Save(1, b)] == [Load(0), Load(1), Save(0, a), Save(1, b)];
    Snoc([], none + [load0], Save(0, a), Volumes.Apply);
    Snoc([], none + [load0] + [Save(0, a)], load1, Volumes.Apply);
    Snoc([], none + [load0] + [Save(0, a)] + [load1], Save(1, b), Volumes.Apply);
    assert none + [load0] + [Save(0, a)] + [load1] + [Save(1, b)] == [Load(0), Save(0, a), Load(1), Save(1, b)];
    assert !Volumes.Clashes([va], b.name, b.path);
  }

  // ---------- The name registry ----------

  lemma NameFileIsOk(events: seq<Event<Names.Op>>)
    ensures Names.NamesOk(Run([], events, Names.Apply).stored)
  {
    forall op, reg | Names.NamesOk(reg) && Names.Apply(op, reg).Some?
      ensures Names.NamesOk(Names.Apply(op, reg).value)
    {
      Names.ApplyKeepsOk(op, reg);
    }
    EveryInterleavingKeeps([], events, Names.Apply, reg => Names.NamesOk(reg));
  }

  // ---------- A network config ----------

  datatype AddressOp = Allocate(id: string, name: string) | Release(id: string)

  /** AllocateIP and ReleaseIP on one loaded config. */
  function ApplyAddress(op: AddressOp, net: Ipam.Net): Option<Ipam.Net> {
    match op
    case Allocate(id, name) =>
      var r := Ipam.AllocateResult(map[net.name := net], net.name);
      if r.Err? then None else Some(net.(containers := net.containers[id := Hosts.Info(id, name, r.value)]))
    case Release(id) => Some(net.(containers := net.containers - {id}))
  }

  /** A file whose saves are not atomic: it is truncated first, and cannot be read until it is written. */
  datatype TornFile<S> = TornFile(stored: Option<S>, loaded: map<nat, S>, writing: map<nat, S>)

  /** A write that meets the rest of another one leaves a file that is not intact, which cannot be read either. */
  datatype TornEvent<O> = Read(t: nat) | Truncate(t: nat, op: O) | Write(t: nat, intact: bool)

  function TornStep<S, O>(f: TornFile<S>, e: TornEvent<O>, apply: (O, S) -> Option<S>): TornFile<S> {
    match e
    case Read(t) => if f.stored.Some? then f.(loaded := f.loaded[t := f.stored.value]) else f
    case Truncate(t, op) =>
      if t !in f.loaded then f
      else
        var result := apply(op, f.loaded[t]);
        if result.None? then f.(loaded := f.loaded - {t})
        else TornFile(None, f.loaded - {t}, f.writing[t := result.value])
    case Write(t, intact) =>
      if t !in f.writing then f
      else f.(stored := if intact then Some(f.writing[t]) else None, writing := f.writing - {t})
  }

  function TornRun<S, O>(init: S, events: seq<TornEvent<O>>, apply: (O, S) -> Option<S>): TornFile<S> {
    if events == [] then TornFile(Some(init), map[], map[])
    else TornStep(TornRun(init, events[..|events| - 1], apply), events[|events| - 1], apply)
  }

  /** What every operation keeps on its loaded copy holds of all that can ever be read. */
  lemma {:induction false} EveryTornRunKeeps<S(!new), O(!new)>(init: S, events: seq<TornEvent<O>>,
                                                               apply: (O, S) -> Option<S>, ok: S -> bool)
    requires ok(init)
    requires forall op, s | ok(s) && apply(op, s).Some? :: ok(apply(op, s).value)
    ensures var f := TornRun(init, events, apply);
            && (f.stored.Some? ==> ok(f.stored.value))
            && (forall t | t in f.loaded :: ok(f.loaded[t]))
            && (forall t | t in f.writing :: ok(f.writing[t]))
  {
    if events != [] {
      EveryTornRunKeeps(init, events[..|events| - 1], apply, ok);
    }
  }

  /** Under every interleaving, and after every crash, a stored config that can be read is in order. */
  lemma ConfigFileIsOk(init: Ipam.Net, n: nat, events: seq<TornEvent<AddressOp>>)
    requires Ipam.NetOk(init, n)
    ensures var stored := TornRun(init, events, ApplyAddress).stored;
            stored.Some? ==> Ipam.NetOk(stored.value, n)
  {
    forall op, net | Ipam.NetOk(net, n) && ApplyAddress(op, net).Some?
      ensures Ipam.NetOk(ApplyAddress(op, net).value, n)
    {
      if op.Allocate? {
        var configs := map[net.name := net];
        var r := Ipam.AllocateResult(configs, net.name);
        Ipam.AllocatedAddress(configs, net.name, n, Hosts.Info(op.id, op.name, r.value));
      }
    }
    EveryTornRunKeeps(init, events, ApplyAddress, net => Ipam.NetOk(net, n));
  }
}
