/** PullImage as a protocol: any number of pullers share a lock file, a temp directory and the final
 *  directory, and each may fail or crash between any two steps.
 *
 *  The empty tree stands for an absent directory. Both directories are trees of module Layers, and
 *  `items` is the list of all entries of all layers of the image, in order.
 */
module Install {
  import opened Wrappers

  import opened Layers

  /** Where one puller stands in PullImage. */
  datatype Phase =
    | Start
    | Checked                     // the final directory was absent
    | Looked                      // the lock file was absent, and is not written yet
    | Entered                     // the lock is written
    | Cleared                     // the temp directory is removed
    | Extracting(k: nat)          // k entries are extracted
    | Leaving(failed: bool)       // the deferred function is next
    | Sweeping                    // the lock is removed, the temp directory not yet
    | Done(ok: bool)
    | Dead

  datatype State = State(final: Tree, tmp: Tree, lock: bool, phases: seq<Phase>)

  /** Which pairs of calls happen without another puller in between. The code as written has neither. */
  datatype Policy = Policy(atomicAcquire: bool, atomicLeave: bool)

  /** The deferred removals as they are, but the lock check and write in one step. */
  const LEAVE_AS_WRITTEN := Policy(true, false)

  datatype Action =
    | Check(i: nat) | Acquire(i: nat) | Write(i: nat) | Clear(i: nat) | Make(i: nat)
    | Extract(i: nat) | Rename(i: nat) | Fail(i: nat) | Unlock(i: nat) | Sweep(i: nat) | Crash(i: nat)

  predicate Working(p: Phase) {
    p.Entered? || p.Cleared? || p.Extracting? || p.Leaving?
  }

  function Init(n: nat): State {
    State(map[], map[], false, seq(n, _ => Start))
  }

  function To(s: State, i: nat, p: Phase): State
    requires i < |s.phases|
  {
    s.(phases := s.phases[i := p])
  }

  /** One step of puller `a.i`; an action that the puller is not ready for changes nothing. */
  function Do(s: State, a: Action, items: seq<Entry>, policy: Policy): State {
    if a.i >= |s.phases| then s
    else
      var i, p := a.i, s.phases[a.i];
      match a
      case Check(_) =>
        if !p.Start? then s
        else if s.final != map[] then To(s, i, Done(true))
        else To(s, i, Checked)
      case Acquire(_) =>
        if !p.Checked? then s
        else if s.lock then To(s, i, Done(false))
        else if policy.atomicAcquire then To(s.(lock := true), i, Entered)
        else To(s, i, Looked)
      case Write(_) =>
        if !p.Looked? then s else To(s.(lock := true), i, Entered)
      case Clear(_) =>
        if !p.Entered? then s else To(s.(tmp := map[]), i, Cleared)
      case Make(_) =>
        if !p.Cleared? then s
        else (match MkdirAll(s.tmp, [])
              case None => To(s, i, Leaving(true))
              case Some(t) => To(s.(tmp := t), i, Extracting(0)))
      case Extract(_) =>
        if !p.Extracting? || p.k >= |items| then s
        else (match Apply(s.tmp, items[p.k])
              case None => To(s, i, Leaving(true))
              case Some(t) => To(s.(tmp := t), i, Extracting(p.k + 1)))
      case Rename(_) =>
        if !p.Extracting? || p.k != |items| then s
        else if s.tmp == map[] || s.final != map[] then To(s, i, Leaving(true))
        else To(s.(final := s.tmp, tmp := map[]), i, Leaving(false))
      case Fail(_) =>
        if p.Checked? || p.Looked? then To(s, i, Done(false))
        else if p.Entered? || p.Cleared? || p.Extracting? then To(s, i, Leaving(true))
        else s
      case Unlock(_) =>
        if !p.Leaving? then s
        else if !p.failed then To(s.(lock := false), i, Done(true))
        else if policy.atomicLeave then To(s.(lock := false, tmp := map[]), i, Done(false))
        else To(s.(lock := false), i, Sweeping)
      case Sweep(_) =>
        if !p.Sweeping? then s else To(s.(tmp := map[]), i, Done(false))
      case Crash(_) =>
        if p.Done? then s else To(s, i, Dead)
  }

  function Run(s: State, acts: seq<Action>, items: seq<Entry>, policy: Policy): State {
    if acts == [] then s
    else Do(Run(s, acts[..|acts| - 1], items, policy), acts[|acts| - 1], items, policy)
  }

  lemma {:induction false} RunConcat(s: State, a: seq<Action>, b: seq<Action>, items: seq<Entry>, policy: Policy)
    ensures Run(s, a + b, items, policy) == Run(Run(s, a, items, policy), b, items, policy)
  {
    if b == [] {
      assert a + b == a;
    } else {
      assert (a + b)[..|a + b| - 1] == a + b[..|b| - 1];
      RunConcat(s, a, b[..|b| - 1], items, policy);
    }
  }

  // ---------- Safety ----------

  /** The final directory is absent or holds the complete image. */
  predicate Complete(final: Tree, items: seq<Entry>) {
    final == map[] || ApplyAll(ROOT, items) == Some(final)
  }

  /** At most one puller is between writing the lock and removing it. */
  ghost predicate Exclusive(s: State) {
    forall i, j | 0 <= i < j < |s.phases| :: !(Working(s.phases[i]) && Working(s.phases[j]))
  }

  /** The temp directory of a puller that has extracted k entries: from a fresh directory, or from one
   *  that another puller swept away after `lo` of them. */
  ghost predicate Extracted(tmp: Tree, items: seq<Entry>, k: nat, policy: Policy) {
    k <= |items| &&
    (ApplyAll(ROOT, items[..k]) == Some(tmp) ||
     (!policy.atomicLeave && exists lo | 0 <= lo <= k :: ApplyAll(map[], items[lo..k]) == Some(tmp)))
  }

  /** What a puller's phase says about the lock and the temp directory. */
  ghost predicate PhaseOk(p: Phase, tmp: Tree, lock: bool, items: seq<Entry>, policy: Policy) {
    && (Working(p) ==> lock)
    && !p.Looked?
    && (policy.atomicLeave ==> !p.Sweeping?)
    && (p.Cleared? ==> tmp == map[])
    && (p.Extracting? ==> Extracted(tmp, items, p.k, policy))
  }

  ghost predicate Invariant(s: State, items: seq<Entry>, policy: Policy) {
    && Exclusive(s)
    && (forall i | 0 <= i < |s.phases| :: PhaseOk(s.phases[i], s.tmp, s.lock, items, policy))
    && (s.final == map[] || Extracted(s.final, items, |items|, policy))
  }

  /** The puller with the lock, or one that takes it, may change the shared state. */
  lemma HolderMoves(s: State, s': State, i: nat, p: Phase, items: seq<Entry>, policy: Policy)
    requires Invariant(s, items, policy) && i < |s.phases|
    requires Working(s.phases[i]) || !s.lock
    requires s'.phases == s.phases[i := p]
    requires PhaseOk(p, s'.tmp, s'.lock, items, policy)
    requires s'.final == map[] || Extracted(s'.final, items, |items|, policy)
    ensures Invariant(s', items, policy)
  {
    forall j | 0 <= j < |s.phases| && j != i
      ensures !Working(s.phases[j])
    {
      assert PhaseOk(s.phases[j], s.tmp, s.lock, items, policy);
      assert !(Working(s.phases[i]) && Working(s.phases[j]));
    }
    forall j | 0 <= j < |s'.phases|
      ensures PhaseOk(s'.phases[j], s'.tmp, s'.lock, items, policy)
    {
      assert PhaseOk(s.phases[j], s.tmp, s.lock, items, policy);
    }
  }

  lemma Swept(items: seq<Entry>, k: nat, policy: Policy)
    requires k <= |items| && !policy.atomicLeave
    ensures Extracted(map[], items, k, policy)
  {
    assert ApplyAll(map[], items[k..k]) == Some(map[]);
  }

  /** A puller outside changes nothing the holder relies on. */
  lemma OutsiderMoves(s: State, s': State, i: nat, p: Phase, items: seq<Entry>, policy: Policy)
    requires Invariant(s, items, policy) && i < |s.phases|
    requires s' == To(s, i, p) || (!policy.atomicLeave && s' == To(s.(tmp := map[]), i, p))
    requires !Working(p) && !p.Looked? && !p.Sweeping?
    ensures Invariant(s', items, policy)
  {
    forall j | 0 <= j < |s'.phases|
      ensures PhaseOk(s'.phases[j], s'.tmp, s'.lock, items, policy)
    {
      assert PhaseOk(s.phases[j], s.tmp, s.lock, items, policy);
      if s'.tmp != s.tmp && s.phases[j].Extracting? {
        Swept(items, s.phases[j].k, policy);
      }
    }
    forall j, k | 0 <= j < k < |s'.phases|
      ensures !(Working(s'.phases[j]) && Working(s'.phases[k]))
    {
      assert !(Working(s.phases[j]) && Working(s.phases[k]));
    }
  }

  lemma SliceApplies(t: Tree, items: seq<Entry>, lo: nat, k: nat)
    requires lo <= k < |items|
    ensures ApplyAll(t, items[lo..k + 1]) == Then(ApplyAll(t, items[lo..k]), items[k])
  {
    assert items[lo..k + 1] == items[lo..k] + [items[k]];
    Snoc(t, items[lo..k], items[k]);
  }

  lemma ExtractOne(tmp: Tree, items: seq<Entry>, k: nat, policy: Policy)
    requires k < |items| && Extracted(tmp, items, k, policy) && Apply(tmp, items[k]).Some?
    ensures Extracted(Apply(tmp, items[k]).value, items, k + 1, policy)
  {
    var u := Apply(tmp, items[k]).value;
    if ApplyAll(ROOT, items[..k]) == Some(tmp) {
      SliceApplies(ROOT, items, 0, k);
      assert items[0..k] == items[..k] && items[0..k + 1] == items[..k + 1];
    } else {
      var lo :| 0 <= lo <= k && ApplyAll(map[], items[lo..k]) == Some(tmp);
      SliceApplies(map[], items, lo, k);
      assert ApplyAll(map[], items[lo..k + 1]) == Some(u);
    }
  }

  lemma FreshDirectory(items: seq<Entry>, policy: Policy)
    ensures MkdirAll(map[], []) == Some(ROOT)
    ensures Extracted(ROOT, items, 0, policy)
  {
    assert items[..0] == [];
    var made := MkdirAll(map[], []).value;
    assert made == ROOT;
  }

  lemma ExtractKeepsInvariant(s: State, i: nat, items: seq<Entry>, policy: Policy)
    requires Invariant(s, items, policy) && i < |s.phases|
    requires s.phases[i].Extracting? && s.phases[i].k < |items|
    ensures Invariant(Do(s, Extract(i), items, policy), items, policy)
  {
    var k := s.phases[i].k;
    var s' := Do(s, Extract(i), items, policy);
    assert PhaseOk(s.phases[i], s.tmp, s.lock, items, policy);
    if Apply(s.tmp, items[k]).Some? {
      ExtractOne(s.tmp, items, k, policy);
    }
    HolderMoves(s, s', i, s'.phases[i], items, policy);
  }

  lemma MakeKeepsInvariant(s: State, i: nat, items: seq<Entry>, policy: Policy)
    requires Invariant(s, items, policy) && i < |s.phases| && s.phases[i].Cleared?
    ensures Invariant(Do(s, Make(i), items, policy), items, policy)
  {
    var s' := Do(s, Make(i), items, policy);
    assert PhaseOk(s.phases[i], s.tmp, s.lock, items, policy);
    FreshDirectory(items, policy);
    HolderMoves(s, s', i, s'.phases[i], items, policy);
  }

  /** A step of the puller with the lock, other than making the directory or extracting. */
  lemma HolderKeepsInvariant(s: State, a: Action, items: seq<Entry>, policy: Policy)
    requires Invariant(s, items, policy) && a.i < |s.phases| && Working(s.phases[a.i])
    requires a.Clear? || a.Rename? || a.Unlock? || a.Fail?
    ensures Invariant(Do(s, a, items, policy), items, policy)
  {
    var s' := Do(s, a, items, policy);
    if s' != s {
      assert PhaseOk(s.phases[a.i], s.tmp, s.lock, items, policy);
      HolderMoves(s, s', a.i, s'.phases[a.i], items, policy);
    }
  }

  lemma AcquireKeepsInvariant(s: State, a: Action, items: seq<Entry>, policy: Policy)
    requires policy.atomicAcquire && Invariant(s, items, policy) && a.i < |s.phases| && a.Acquire?
    ensures Invariant(Do(s, a, items, policy), items, policy)
  {
    var s' := Do(s, a, items, policy);
    if s' != s {
      assert s.phases[a.i].Checked?;
      if s.lock {
        OutsiderMoves(s, s', a.i, s'.phases[a.i], items, policy);
      } else {
        HolderMoves(s, s', a.i, s'.phases[a.i], items, policy);
      }
    }
  }

  /** A step of a puller without the lock, or a crash. */
  lemma OutsiderKeepsInvariant(s: State, a: Action, items: seq<Entry>, policy: Policy)
    requires Invariant(s, items, policy) && a.i < |s.phases|
    requires a.Crash? || ((a.Check? || a.Fail? || a.Sweep?) && !Working(s.phases[a.i]))
    ensures Invariant(Do(s, a, items, policy), items, policy)
  {
    var s' := Do(s, a, items, policy);
    if s' != s {
      assert PhaseOk(s.phases[a.i], s.tmp, s.lock, items, policy);
      OutsiderMoves(s, s', a.i, s'.phases[a.i], items, policy);
    }
  }

  /** An action whose puller is not in the right phase does nothing. */
  lemma IdleUnless(s: State, a: Action, items: seq<Entry>, policy: Policy)
    requires a.i < |s.phases| && Do(s, a, items, policy) != s
    ensures a.Make? ==> s.phases[a.i].Cleared?
    ensures a.Extract? ==> s.phases[a.i].Extracting? && s.phases[a.i].k < |items|
    ensures a.Clear? || a.Rename? || a.Unlock? ==> Working(s.phases[a.i])
    ensures a.Check? || a.Sweep? ==> !Working(s.phases[a.i])
    ensures a.Write? ==> s.phases[a.i].Looked?
  {
  }

  lemma {:induction false} StepKeepsInvariant(s: State, a: Action, items: seq<Entry>, policy: Policy)
    requires policy.atomicAcquire && Invariant(s, items, policy)
    ensures Invariant(Do(s, a, items, policy), items, policy)
  {
    if a.i < |s.phases| && Do(s, a, items, policy) != s {
      IdleUnless(s, a, items, policy);
      assert PhaseOk(s.phases[a.i], s.tmp, s.lock, items, policy);
      match a
      case Make(i) => MakeKeepsInvariant(s, i, items, policy);
      case Extract(i) => ExtractKeepsInvariant(s, i, items, policy);
      case Acquire(_) => AcquireKeepsInvariant(s, a, items, policy);
      case _ =>
        if Working(s.phases[a.i]) && !a.Crash? {
          HolderKeepsInvariant(s, a, items, policy);
        } else {
          OutsiderKeepsInvariant(s, a, items, policy);
        }
    }
  }

  lemma {:induction false} RunKeepsInvariant(n: nat, acts: seq<Action>, items: seq<Entry>, policy: Policy)
    requires policy.atomicAcquire
    ensures Invariant(Run(Init(n), acts, items, policy), items, policy)
  {
    if acts != [] {
      RunKeepsInvariant(n, acts[..|acts| - 1], items, policy);
      StepKeepsInvariant(Run(Init(n), acts[..|acts| - 1], items, policy), acts[|acts| - 1], items, policy);
    }
  }

  /** With the lock check and write in one step, and the lock and the temp directory removed in one step,
   *  every run keeps the pullers apart and the final directory absent or complete. */
  lemma InstallSafety(n: nat, acts: seq<Action>, items: seq<Entry>)
    ensures var s := Run(Init(n), acts, items, Policy(true, true));
            Exclusive(s) && Complete(s.final, items)
  {
    RunKeepsInvariant(n, acts, items, Policy(true, true));
    assert items[..|items|] == items;
  }

  // ---------- The final directory over a run ----------

  lemma FinalStays(s: State, a: Action, items: seq<Entry>, policy: Policy)
    requires s.final != map[]
    ensures Do(s, a, items, policy).final == s.final
  {
  }

  /** Once installed, the image is never touched again. */
  lemma {:induction false} WrittenOnce(s: State, acts: seq<Action>, items: seq<Entry>, policy: Policy)
    requires s.final != map[]
    ensures Run(s, acts, items, policy).final == s.final
  {
    if acts != [] {
      WrittenOnce(s, acts[..|acts| - 1], items, policy);
      FinalStays(Run(s, acts[..|acts| - 1], items, policy), acts[|acts| - 1], items, policy);
    }
  }

  predicate Succeeds(s: State, i: nat) {
    i < |s.phases| && s.phases[i] in {Leaving(false), Done(true), Dead}
  }

  lemma OneStepSucceeds(s: State, a: Action, i: nat, items: seq<Entry>, policy: Policy)
    requires Succeeds(s, i)
    ensures Succeeds(Do(s, a, items, policy), i)
  {
    if a.i == i {
      match a {
        case Unlock(_) =>
        case Crash(_) =>
        case _ => assert Do(s, a, items, policy) == s;
      }
    }
  }

  /** The puller whose step changes the final directory never returns an error afterwards. */
  lemma {:induction false} ErrorLeavesFinalUnchanged(s: State, a: Action, acts: seq<Action>, items: seq<Entry>,
                                                     policy: Policy)
    requires Do(s, a, items, policy).final != s.final
    ensures Succeeds(Run(Do(s, a, items, policy), acts, items, policy), a.i)
  {
    var s' := Do(s, a, items, policy);
    if acts != [] {
      ErrorLeavesFinalUnchanged(s, a, acts[..|acts| - 1], items, policy);
      OneStepSucceeds(Run(s', acts[..|acts| - 1], items, policy), acts[|acts| - 1], a.i, items, policy);
    } else {
      assert a.Rename?;
    }
  }

  // ---------- One puller alone ----------

  /** The image store of one image name, as PullImage changes it. */
  class Store {
    var final: Tree
    var tmp: Tree
    var lock: bool

    constructor ()
      ensures final == map[] && tmp == map[] && !lock
    {
      final, tmp, lock := map[], map[], false;
    }

    /** PullImage without other pullers: whether the lock can be written, whether the temp directory can be made and
     *  the registry answers, and whether the last rename works. */
    method PullImage(layers: seq<seq<Header>>, canLock: bool, fetched: bool, canRename: bool) returns (ok: bool)
      modifies this
      ensures old(final) != map[] ==> ok && final == old(final) && tmp == old(tmp) && lock == old(lock)
      ensures old(final) == map[] && old(lock) ==> !ok && final == old(final) && tmp == old(tmp) && lock
      ensures old(final) == map[] && !old(lock) && !canLock ==> !ok && final == old(final) && tmp == old(tmp) && !lock
      ensures old(final) == map[] && !old(lock) && canLock ==>
                var image := ApplyLayers(ROOT, AllDecoded(layers));
                && !lock && tmp == map[]
                && (ok <==> fetched && image.Some? && image.value != map[] && canRename)
                && final == (if ok then image.value else map[])
      ensures old(final) == map[] && AnyUnreadable(layers) ==> !ok && final == map[]
    {
      if final != map[] {
        return true;
      }
      if lock || !canLock {
        return false;
      }
      lock := true;
      tmp := map[];
      var destination := new Destination();
      tmp := destination.tree;
      ok := fetched;
      if ok {
        assert PrefixClosed(ROOT);
        ok := destination.ExtractLayers(layers);
        tmp := destination.tree;
      }
      if ok && tmp != map[] && canRename {
        final, tmp := tmp, map[];
      } else {
        ok := false;
      }
      lock := false;
      if !ok {
        tmp := map[];
      }
    }
  }
}
