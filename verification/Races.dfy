/** Which images PullImage installs safely, whatever its pullers do: the exact conditions, and the runs that go
 *  wrong. */
module Races {
  import opened Text
  import opened Wrappers

  import opened Install
  import opened Layers

  // ---------- Images by shape ----------

  ghost predicate AlwaysComplete(items: seq<Entry>, policy: Policy) {
    forall n: nat, acts: seq<Action> :: Complete(Run(Init(n), acts, items, policy).final, items)
  }

  /** Entry m is the last one that adds something. */
  predicate LastAdds(items: seq<Entry>, m: nat) {
    m < |items| && Adds(items[m]) && forall k | m < k < |items| :: !Adds(items[k])
  }

  /** Nothing is added, or every path of the image is at or above the path that is added last. */
  predicate OneBranch(items: seq<Entry>, image: Tree) {
    || (forall e | e in items :: !Adds(e))
    || exists m | 0 <= m < |items| && LastAdds(items, m) :: forall p | p in image :: p <= items[m].path
  }

  /** The image is an empty directory, and no entry adds anything else. */
  predicate Inert(items: seq<Entry>, image: Tree) {
    image == ROOT && forall e | e in items :: e.Whiteout? || e == AddDir([])
  }

  /** Every node of the one tree is in the other. */
  predicate Within(t: Tree, u: Tree) {
    forall p | p in t :: p in u && u[p] == t[p]
  }

  /** On less of a tree an entry has less to fail on, and leaves less. */
  lemma ApplyWithin(t: Tree, u: Tree, e: Entry)
    requires Within(t, u) && Apply(u, e).Some?
    ensures Apply(t, e).Some? && Within(Apply(t, e).value, Apply(u, e).value)
  {
    RejectsIffNone(t, e);
    RejectsIffNone(u, e);
    var t', u' := Apply(t, e).value, Apply(u, e).value;
    forall p | p in t'
      ensures p in u' && u'[p] == t'[p]
    {
      ApplyAt(t, e, p);
      ApplyAt(u, e, p);
      assert Lookup(t', p).Some?;
    }
  }

  lemma {:induction false} ApplyAllWithin(t: Tree, u: Tree, es: seq<Entry>)
    requires Within(t, u) && ApplyAll(u, es).Some?
    ensures ApplyAll(t, es).Some? && Within(ApplyAll(t, es).value, ApplyAll(u, es).value)
  {
    if es != [] {
      var front := es[..|es| - 1];
      ApplyAllWithin(t, u, front);
      ApplyWithin(ApplyAll(t, front).value, ApplyAll(u, front).value, es[|es| - 1]);
    }
  }

  lemma {:induction false} PrefixExtracts(t: Tree, items: seq<Entry>, k: nat)
    requires k <= |items| && ApplyAll(t, items).Some?
    ensures ApplyAll(t, items[..k]).Some?
    ensures ApplyAll(ApplyAll(t, items[..k]).value, items[k..]) == ApplyAll(t, items)
  {
    ApplyAllConcat(t, items[..k], items[k..]);
    assert items == items[..k] + items[k..];
  }

  /** No tail of an image that extracts can fail in a swept-away directory, and it gives a part of the image. */
  lemma TailExtracts(items: seq<Entry>, k: nat)
    requires k <= |items| && ApplyAll(ROOT, items).Some?
    ensures ApplyAll(map[], items[k..]).Some?
    ensures Within(ApplyAll(map[], items[k..]).value, ApplyAll(ROOT, items).value)
  {
    PrefixExtracts(ROOT, items, k);
    ApplyAllWithin(map[], ApplyAll(ROOT, items[..k]).value, items[k..]);
  }

  /** What a list leaves at a path where nothing was, some entry of it has added. */
  lemma AddedBySome(es: seq<Entry>, t: Tree, p: Path)
    requires ApplyAll(map[], es) == Some(t) && p in t
    ensures exists i | 0 <= i < |es| :: AddsUnder(es[i], p)
  {
    ApplyAllAt(map[], es, p);
    assert Lookup(t, p).Some?;
    var _ := LastAtCases(es, p);
    HeldIffAdded(es, p);
  }

  /** An entry of a tail that concerns a path makes the tail decide there. */
  lemma {:induction false} TailDecides(es: seq<Entry>, k: nat, i: nat, p: Path)
    requires k <= i < |es| && At(es[i], p) != Keep
    ensures LastAt(es[k..], p) == LastAt(es, p) != Keep
    decreases |es|
  {
    var front := es[..|es| - 1];
    assert es[k..][|es| - k - 1] == es[|es| - 1];
    if At(es[|es| - 1], p) == Keep {
      assert es[k..][..|es| - k - 1] == front[k..];
      TailDecides(front, k, i, p);
    }
  }

  lemma TailAgrees(items: seq<Entry>, k: nat, i: nat, p: Path)
    requires k <= i < |items| && At(items[i], p) != Keep && ApplyAll(ROOT, items).Some?
    ensures ApplyAll(map[], items[k..]).Some?
    ensures Lookup(ApplyAll(map[], items[k..]).value, p) == Lookup(ApplyAll(ROOT, items).value, p)
  {
    TailExtracts(items, k);
    TailDecides(items, k, i, p);
    ApplyAllAt(map[], items[k..], p);
    ApplyAllAt(ROOT, items, p);
  }

  /** Extracting the tail from k on into a swept-away directory leaves nothing, or the complete image. */
  predicate TailComplete(items: seq<Entry>, k: nat)
    requires k <= |items|
  {
    ApplyAll(map[], items[k..]) == Some(map[]) || ApplyAll(map[], items[k..]) == ApplyAll(ROOT, items)
  }

  /** A tail that leaves something in a swept-away directory has added it. */
  lemma TailHasAddition(items: seq<Entry>, k: nat, tail: Tree) returns (i: nat)
    requires k <= |items| && ApplyAll(map[], items[k..]) == Some(tail) && tail != map[]
    ensures k <= i < |items| && Adds(items[i])
  {
    var q :| q in tail;
    AddedBySome(items[k..], tail, q);
    var j :| 0 <= j < |items[k..]| && AddsUnder(items[k..][j], q);
    i := k + j;
  }

  lemma BranchInTail(items: seq<Entry>, image: Tree, k: nat, m: nat, tail: Tree)
    requires ApplyAll(ROOT, items) == Some(image) && k <= m && LastAdds(items, m)
    requires ApplyAll(map[], items[k..]) == Some(tail) && Within(tail, image)
    requires forall p | p in image :: p <= items[m].path
    ensures tail == image
  {
    forall p | p in image
      ensures p in tail
    {
      TailAgrees(items, k, m, p);
      assert Lookup(tail, p) == Lookup(image, p);
    }
  }

  lemma OneBranchTails(items: seq<Entry>, image: Tree, k: nat)
    requires ApplyAll(ROOT, items) == Some(image) && OneBranch(items, image) && k <= |items|
    ensures TailComplete(items, k)
  {
    TailExtracts(items, k);
    var tail := ApplyAll(map[], items[k..]).value;
    if tail != map[] {
      var i := TailHasAddition(items, k, tail);
      assert items[i] in items;
      var m :| 0 <= m < |items| && LastAdds(items, m) && forall p | p in image :: p <= items[m].path;
      BranchInTail(items, image, k, m, tail);
    }
  }

  /** The tail from the last addition on leaves nothing off the branch of that addition, but it leaves something. */
  lemma LastTail(items: seq<Entry>, image: Tree, m: nat, p: Path)
    requires ApplyAll(ROOT, items) == Some(image) && LastAdds(items, m)
    requires p in image && !(p <= items[m].path)
    ensures !TailComplete(items, m)
  {
    TailExtracts(items, m);
    var tail := ApplyAll(map[], items[m..]).value;
    forall i | 0 <= i < |items[m..]|
      ensures !AddsUnder(items[m..][i], p)
    {
      assert items[m..][i] == items[m + i];
    }
    if p in tail {
      AddedBySome(items[m..], tail, p);
      assert false;
    }
    assert PrefixClosed(ROOT);
    assert items[..|items|] == items;
    ExtractionKeepsPrefixClosed(ROOT, items, |items|);
    assert [] < p;
    TailAgrees(items, m, m, []);
    assert Lookup(tail, []) == Lookup(image, []);
  }

  lemma {:induction false} SomeLastAdds(items: seq<Entry>, i: nat) returns (m: nat)
    requires i < |items| && Adds(items[i])
    ensures LastAdds(items, m)
    decreases |items| - i
  {
    m := i;
    if !LastAdds(items, m) {
      var k :| i < k < |items| && Adds(items[k]);
      m := SomeLastAdds(items, k);
    }
  }

  /** Every tail of an image is complete or empty exactly when the image is one branch. */
  lemma TailsCompleteExactly(items: seq<Entry>, image: Tree)
    requires ApplyAll(ROOT, items) == Some(image)
    ensures (forall k | 0 <= k <= |items| :: TailComplete(items, k)) <==> OneBranch(items, image)
  {
    if OneBranch(items, image) {
      forall k | 0 <= k <= |items|
        ensures TailComplete(items, k)
      {
        OneBranchTails(items, image, k);
      }
    } else {
      var e :| e in items && Adds(e);
      var i :| 0 <= i < |items| && items[i] == e;
      var m := SomeLastAdds(items, i);
      var p :| p in image && !(p <= items[m].path);
      LastTail(items, image, m, p);
    }
  }

  // ---------- Runs that go wrong ----------

  lemma RunSnoc(s: State, acts: seq<Action>, a: Action, items: seq<Entry>, policy: Policy)
    ensures Run(s, acts + [a], items, policy) == Do(Run(s, acts, items, policy), a, items, policy)
  {
    assert (acts + [a])[..|acts|] == acts;
  }

  /** Puller i, having extracted the entries from lo to k with no one else in the directory. */
  function Unpacked(s: State, i: nat, items: seq<Entry>, lo: nat, k: nat): State
    requires i < |s.phases| && lo <= k <= |items| && ApplyAll(s.tmp, items[lo..k]).Some?
  {
    To(s.(tmp := ApplyAll(s.tmp, items[lo..k]).value), i, Extracting(k))
  }

  lemma SliceExtracts(t: Tree, items: seq<Entry>, lo: nat, k: nat)
    requires lo <= k < |items| && ApplyAll(t, items[lo..k + 1]).Some?
    ensures ApplyAll(t, items[lo..k]).Some?
    ensures Apply(ApplyAll(t, items[lo..k]).value, items[k]) == ApplyAll(t, items[lo..k + 1])
  {
    SliceApplies(t, items, lo, k);
  }

  lemma UnpackOne(s: State, i: nat, items: seq<Entry>, policy: Policy, lo: nat, k: nat)
    requires i < |s.phases| && lo <= k < |items|
    requires ApplyAll(s.tmp, items[lo..k]).Some? && ApplyAll(s.tmp, items[lo..k + 1]).Some?
    ensures Do(Unpacked(s, i, items, lo, k), Extract(i), items, policy) == Unpacked(s, i, items, lo, k + 1)
  {
    SliceExtracts(s.tmp, items, lo, k);
    var u, t := ApplyAll(s.tmp, items[lo..k]).value, ApplyAll(s.tmp, items[lo..k + 1]).value;
    assert Do(To(s.(tmp := u), i, Extracting(k)), Extract(i), items, policy) ==
           To(To(s.(tmp := u), i, Extracting(k)).(tmp := t), i, Extracting(k + 1));
    assert To(To(s.(tmp := u), i, Extracting(k)).(tmp := t), i, Extracting(k + 1)) ==
           To(s.(tmp := t), i, Extracting(k + 1));
  }

  lemma {:induction false} ExtractNext(s: State, i: nat, items: seq<Entry>, policy: Policy, lo: nat, k: nat,
                                       before: seq<Action>)
    requires i < |s.phases| && lo <= k < |items|
    requires ApplyAll(s.tmp, items[lo..k]).Some? && ApplyAll(s.tmp, items[lo..k + 1]).Some?
    requires Run(s, before, items, policy) == Unpacked(s, i, items, lo, k)
    ensures Run(s, before + [Extract(i)], items, policy) == Unpacked(s, i, items, lo, k + 1)
  {
    UnpackOne(s, i, items, policy, lo, k);
    RunSnoc(s, before, Extract(i), items, policy);
  }

  /** A puller extracts the next entries in peace. */
  lemma {:induction false} ExtractRun(s: State, i: nat, items: seq<Entry>, policy: Policy, lo: nat, k: nat)
    returns (acts: seq<Action>)
    requires lo <= k <= |items| && i < |s.phases| && s.phases[i] == Extracting(lo)
    requires ApplyAll(s.tmp, items[lo..k]).Some?
    ensures Run(s, acts, items, policy) == Unpacked(s, i, items, lo, k)
    decreases k
  {
    if lo == k {
      assert ApplyAll(s.tmp, items[lo..lo]) == Some(s.tmp) && Unpacked(s, i, items, lo, lo) == s;
      acts := [];
    } else {
      var j := k - 1;
      SliceExtracts(s.tmp, items, lo, j);
      var before := ExtractRun(s, i, items, policy, lo, j);
      ExtractNext(s, i, items, policy, lo, j, before);
      acts := before + [Extract(i)];
    }
  }

  /** A run given by its states. */
  lemma {:induction false} RunSteps(s: State, acts: seq<Action>, states: seq<State>, items: seq<Entry>,
                                    policy: Policy, k: nat)
    requires k <= |acts| && |states| == |acts| + 1 && states[0] == s
    requires forall j | 0 <= j < |acts| :: states[j + 1] == Do(states[j], acts[j], items, policy)
    ensures Run(s, acts[..k], items, policy) == states[k]
  {
    if k > 0 {
      assert acts[..k][..k - 1] == acts[..k - 1];
      RunSteps(s, acts, states, items, policy, k - 1);
    }
  }

  /** Puller 0 takes the lock, fails and releases it. */
  lemma FailedPuller(items: seq<Entry>) returns (acts: seq<Action>)
    ensures Run(Init(2), acts, items, LEAVE_AS_WRITTEN) == State(map[], map[], false, [Sweeping, Checked])
  {
    acts := [Check(0), Check(1), Acquire(0), Fail(0), Unlock(0)];
    var s0 := State(map[], map[], false, [Start, Start]);
    assert Init(2) == s0;
    var s1 := State(map[], map[], false, [Checked, Start]);
    var s2 := State(map[], map[], false, [Checked, Checked]);
    var s3 := State(map[], map[], true, [Entered, Checked]);
    var s4 := State(map[], map[], true, [Leaving(true), Checked]);
    var s5 := State(map[], map[], false, [Sweeping, Checked]);
    RunSteps(s0, acts, [s0, s1, s2, s3, s4, s5], items, LEAVE_AS_WRITTEN, 5);
    assert acts[..5] == acts;
  }

  /** Then puller 1 takes the lock and has a fresh directory. */
  lemma SweepOpening(items: seq<Entry>) returns (acts: seq<Action>)
    ensures Run(Init(2), acts, items, LEAVE_AS_WRITTEN) == State(map[], ROOT, true, [Sweeping, Extracting(0)])
  {
    var failed := FailedPuller(items);
    var next := [Acquire(1), Clear(1), Make(1)];
    FreshDirectory(items, LEAVE_AS_WRITTEN);
    var s0 := State(map[], map[], false, [Sweeping, Checked]);
    var s1 := State(map[], map[], true, [Sweeping, Entered]);
    var s2 := State(map[], map[], true, [Sweeping, Cleared]);
    var s3 := State(map[], ROOT, true, [Sweeping, Extracting(0)]);
    RunSteps(s0, next, [s0, s1, s2, s3], items, LEAVE_AS_WRITTEN, 3);
    assert next[..3] == next;
    RunConcat(Init(2), failed, next, items, LEAVE_AS_WRITTEN);
    acts := failed + next;
  }

  /** Two pullers find no lock; puller 0 goes ahead. */
  lemma LockOpening(items: seq<Entry>, policy: Policy) returns (acts: seq<Action>)
    requires !policy.atomicAcquire
    ensures Run(Init(2), acts, items, policy) == State(map[], ROOT, true, [Extracting(0), Looked])
  {
    acts := [Check(0), Check(1), Acquire(0), Acquire(1), Write(0), Clear(0), Make(0)];
    FreshDirectory(items, policy);
    var s0 := State(map[], map[], false, [Start, Start]);
    assert Init(2) == s0;
    var s1 := State(map[], map[], false, [Checked, Start]);
    var s2 := State(map[], map[], false, [Checked, Checked]);
    var s3 := State(map[], map[], false, [Looked, Checked]);
    var s4 := State(map[], map[], false, [Looked, Looked]);
    var s5 := State(map[], map[], true, [Entered, Looked]);
    var s6 := State(map[], map[], true, [Cleared, Looked]);
    var s7 := State(map[], ROOT, true, [Extracting(0), Looked]);
    RunSteps(s0, acts, [s0, s1, s2, s3, s4, s5, s6, s7], items, policy, 7);
    assert acts[..7] == acts;
  }

  lemma RunsInARow(s0: State, a: seq<Action>, s1: State, b: seq<Action>, s2: State, c: seq<Action>, s3: State,
                   d: seq<Action>, s4: State, e: Action, items: seq<Entry>, policy: Policy)
    requires Run(s0, a, items, policy) == s1 && Run(s1, b, items, policy) == s2
    requires Run(s2, c, items, policy) == s3 && Run(s3, d, items, policy) == s4
    ensures Run(s0, a + b + c + d + [e], items, policy) == Do(s4, e, items, policy)
  {
    RunConcat(s0, a, b, items, policy);
    RunConcat(s0, a + b, c, items, policy);
    RunConcat(s0, a + b + c, d, items, policy);
    RunSnoc(s0, a + b + c + d, e, items, policy);
  }

  lemma OneRename(s: State, i: nat, items: seq<Entry>, policy: Policy)
    requires i < |s.phases| && s.phases[i] == Extracting(|items|)
    requires s.final == map[]
    ensures s.tmp != map[] ==> Do(s, Rename(i), items, policy).final == s.tmp
    ensures s.tmp == map[] ==> Do(s, Rename(i), items, policy).final == map[]
  {
  }

  /** Puller 0, having failed and unlocked, sweeps the temp directory of puller 1 after k entries. */
  lemma SweepRace(items: seq<Entry>, k: nat) returns (acts: seq<Action>)
    requires ApplyAll(ROOT, items).Some? && k <= |items|
    ensures Some(Run(Init(2), acts, items, LEAVE_AS_WRITTEN).final) == ApplyAll(map[], items[k..])
  {
    var n := |items|;
    var opening := SweepOpening(items);
    var s1 := State(map[], ROOT, true, [Sweeping, Extracting(0)]);
    PrefixExtracts(ROOT, items, k);
    TailExtracts(items, k);
    assert items[0..k] == items[..k] && items[k..n] == items[k..];
    var first := ExtractRun(s1, 1, items, LEAVE_AS_WRITTEN, 0, k);
    var s2 := State(map[], ApplyAll(ROOT, items[..k]).value, true, [Sweeping, Extracting(k)]);
    assert Unpacked(s1, 1, items, 0, k) == s2;
    var s3 := State(map[], map[], true, [Done(false), Extracting(k)]);
    assert Run(s2, [Sweep(0)], items, LEAVE_AS_WRITTEN) == s3;
    var rest := ExtractRun(s3, 1, items, LEAVE_AS_WRITTEN, k, n);
    acts := opening + first + [Sweep(0)] + rest + [Rename(1)];
    RunsInARow(Init(2), opening, s1, first, s2, [Sweep(0)], s3, rest, Unpacked(s3, 1, items, k, n), Rename(1), items,
               LEAVE_AS_WRITTEN);
    OneRename(Unpacked(s3, 1, items, k, n), 1, items, LEAVE_AS_WRITTEN);
  }

  /** Puller 1 writes the lock a second time and makes the directory anew. */
  lemma StartOver(s: State, items: seq<Entry>, policy: Policy, s': State) returns (acts: seq<Action>)
    requires |s.phases| == 2 && s.phases[1] == Looked
    requires s' == State(s.final, ROOT, true, [s.phases[0], Extracting(0)])
    ensures Run(s, acts, items, policy) == s'
  {
    acts := [Write(1), Clear(1), Make(1)];
    FreshDirectory(items, policy);
    var s1 := State(s.final, s.tmp, true, [s.phases[0], Entered]);
    var s2 := State(s.final, map[], true, [s.phases[0], Cleared]);
    RunSteps(s, acts, [s, s1, s2, s'], items, policy, 3);
    assert acts[..3] == acts;
  }

  /** Puller 1, having seen no lock, starts over in the directory that puller 0 has filled, and puller 0 renames it
   *  after k entries. */
  lemma LockRace(items: seq<Entry>, k: nat, policy: Policy) returns (acts: seq<Action>)
    requires !policy.atomicAcquire && ApplyAll(ROOT, items).Some? && k <= |items|
    requires ApplyAll(ROOT, items[..k]) != Some(map[])
    ensures Some(Run(Init(2), acts, items, policy).final) == ApplyAll(ROOT, items[..k])
  {
    var n := |items|;
    var opening := LockOpening(items, policy);
    var s1 := State(map[], ROOT, true, [Extracting(0), Looked]);
    PrefixExtracts(ROOT, items, k);
    assert items[0..k] == items[..k] && items[0..n] == items;
    var all := ExtractRun(s1, 0, items, policy, 0, n);
    var s2 := State(map[], ApplyAll(ROOT, items).value, true, [Extracting(n), Looked]);
    assert Unpacked(s1, 0, items, 0, n) == s2;
    var s3 := State(map[], ROOT, true, [Extracting(n), Extracting(0)]);
    var restart := StartOver(s2, items, policy, s3);
    var some := ExtractRun(s3, 1, items, policy, 0, k);
    var s4 := State(map[], ApplyAll(ROOT, items[..k]).value, true, [Extracting(n), Extracting(k)]);
    assert Unpacked(s3, 1, items, 0, k) == s4;
    acts := opening + all + restart + some + [Rename(0)];
    RunsInARow(Init(2), opening, s1, all, s2, restart, s3, some, s4, Rename(0), items, policy);
    OneRename(s4, 0, items, policy);
  }

  // ---------- Images that do not extract ----------

  /** An entry removes everything, and nothing is added after it. */
  predicate EndsBare(items: seq<Entry>) {
    exists i | 0 <= i < |items| && items[i] == Whiteout([]) :: forall k | i < k < |items| :: !Adds(items[k])
  }

  lemma OthersStay(s: State, a: Action, items: seq<Entry>, policy: Policy)
    ensures var s' := Do(s, a, items, policy);
            |s'.phases| == |s.phases| && forall j | 0 <= j < |s.phases| && j != a.i :: s'.phases[j] == s.phases[j]
  {
  }

  /** How a puller comes to have extracted some entries. */
  lemma ExtractingFrom(s: State, a: Action, items: seq<Entry>, policy: Policy)
    requires a.i < |s.phases|
    ensures var p, p' := s.phases[a.i], Do(s, a, items, policy).phases[a.i];
            p'.Extracting? ==>
              || p' == p || p' == Extracting(0)
              || (p.Extracting? && p.k < |items| && items[p.k] != Broken && p' == Extracting(p.k + 1))
  {
  }

  lemma FinalByRename(s: State, a: Action, items: seq<Entry>, policy: Policy)
    requires Do(s, a, items, policy).final != s.final
    ensures a.i < |s.phases| && s.phases[a.i] == Extracting(|items|)
  {
  }

  /** No puller has passed an entry that cannot be read, and so none has installed anything. */
  ghost predicate NonePasses(s: State, items: seq<Entry>) {
    s.final == map[] &&
    forall i | 0 <= i < |s.phases| && s.phases[i].Extracting? ::
      s.phases[i].k <= |items| && Broken !in items[..s.phases[i].k]
  }

  lemma {:induction false} BrokenStep(s: State, a: Action, items: seq<Entry>, policy: Policy)
    requires Broken in items && NonePasses(s, items)
    ensures NonePasses(Do(s, a, items, policy), items)
  {
    assert items[..|items|] == items;
    if Do(s, a, items, policy).final != s.final {
      FinalByRename(s, a, items, policy);
      assert false;
    }
    OthersStay(s, a, items, policy);
    if a.i < |s.phases| {
      ExtractingFrom(s, a, items, policy);
      var p := s.phases[a.i];
      if p.Extracting? && p.k < |items| {
        assert items[..p.k + 1] == items[..p.k] + [items[p.k]];
      }
    }
  }

  lemma {:induction false} BrokenRun(n: nat, acts: seq<Action>, items: seq<Entry>, policy: Policy)
    requires Broken in items
    ensures NonePasses(Run(Init(n), acts, items, policy), items)
  {
    if acts != [] {
      BrokenRun(n, acts[..|acts| - 1], items, policy);
      BrokenStep(Run(Init(n), acts[..|acts| - 1], items, policy), acts[|acts| - 1], items, policy);
    }
  }

  lemma {:induction false} NoAddsOnNothing(es: seq<Entry>)
    requires forall e | e in es :: e.Whiteout?
    ensures ApplyAll(map[], es) == Some(map[])
  {
    if es != [] {
      assert es[|es| - 1] in es;
      NoAddsOnNothing(es[..|es| - 1]);
      assert RemoveAll(map[], es[|es| - 1].path) == map[];
    }
  }

  /** Entries from i on that add nothing leave nothing of nothing. */
  lemma WhiteoutsOnNothing(items: seq<Entry>, j: nat)
    requires j <= |items| && Broken !in items && forall k | j <= k < |items| :: !Adds(items[k])
    ensures ApplyAll(map[], items[j..]) == Some(map[])
  {
    forall e | e in items[j..]
      ensures e.Whiteout?
    {
      var k :| 0 <= k < |items[j..]| && items[j..][k] == e;
      assert items[j + k] == e && e in items;
    }
    NoAddsOnNothing(items[j..]);
  }

  /** A tail of an image that ends bare leaves nothing. */
  lemma {:induction false} BareTail(items: seq<Entry>, lo: nat)
    requires EndsBare(items) && Broken !in items && lo <= |items| && ApplyAll(map[], items[lo..]).Some?
    ensures ApplyAll(map[], items[lo..]) == Some(map[])
  {
    var i :| 0 <= i < |items| && items[i] == Whiteout([]) && forall k | i < k < |items| :: !Adds(items[k]);
    if lo <= i {
      var front, rest := items[lo..i + 1], items[i + 1..];
      assert items[lo..] == front + rest;
      ApplyAllConcat(map[], front, rest);
      assert ApplyAll(map[], items[lo..i + 1]) == Some(map[]) by {
        SliceApplies(map[], items, lo, i);
        assert Apply(ApplyAll(map[], items[lo..i]).value, Whiteout([])) == Some(map[]);
      }
      WhiteoutsOnNothing(items, i + 1);
    } else {
      WhiteoutsOnNothing(items, lo);
    }
  }

  /** The phase of a puller that can empty the temp directory under another one. */
  function Idler(policy: Policy): Phase {
    if policy.atomicAcquire then Sweeping else Looked
  }

  /** How puller j gets there, and how it empties the directory then. */
  function Preparing(j: nat, policy: Policy): seq<Action> {
    if policy.atomicAcquire then [Check(j), Acquire(j), Fail(j), Unlock(j)] else [Check(j), Acquire(j)]
  }

  function Emptying(j: nat, policy: Policy): seq<Action> {
    if policy.atomicAcquire then [Sweep(j)] else [Write(j), Clear(j)]
  }

  /** Pullers 1 to j - 1 are prepared, and the others have not started. */
  ghost predicate Prepared(s: State, j: nat, policy: Policy) {
    && s.final == map[] && !s.lock && 1 <= j <= |s.phases|
    && s.phases[0] == Start
    && (forall i | 1 <= i < j :: s.phases[i] == Idler(policy))
    && forall i | j <= i < |s.phases| :: s.phases[i] == Start
  }

  /** Puller 0 has extracted k entries, and the pullers after number k are prepared. */
  ghost predicate Exposed(s: State, k: nat, policy: Policy) {
    && s.final == map[] && |s.phases| > 0 && s.phases[0] == Extracting(k)
    && forall j | k < j < |s.phases| :: s.phases[j] == Idler(policy)
  }

  lemma {:induction false} RunTwo(s: State, a: Action, b: Action, items: seq<Entry>, policy: Policy)
    ensures Run(s, [a, b], items, policy) == Do(Do(s, a, items, policy), b, items, policy)
  {
    RunSnoc(s, [], a, items, policy);
    RunSnoc(s, [a], b, items, policy);
    assert [] + [a] == [a] && [a] + [b] == [a, b];
  }

  lemma {:induction false} RunFour(s: State, a: Action, b: Action, c: Action, d: Action, items: seq<Entry>,
                                   policy: Policy)
    ensures Run(s, [a, b, c, d], items, policy) ==
            Do(Do(Do(Do(s, a, items, policy), b, items, policy), c, items, policy), d, items, policy)
  {
    RunTwo(s, a, b, items, policy);
    RunTwo(Run(s, [a, b], items, policy), c, d, items, policy);
    RunConcat(s, [a, b], [c, d], items, policy);
    assert [a, b] + [c, d] == [a, b, c, d];
  }

  lemma {:induction false} PrepareOne(s: State, j: nat, items: seq<Entry>, policy: Policy)
    requires policy != Policy(true, true) && Prepared(s, j, policy) && j < |s.phases|
    ensures Prepared(Run(s, Preparing(j, policy), items, policy), j + 1, policy)
  {
    if policy.atomicAcquire {
      var acquired := Do(Do(s, Check(j), items, LEAVE_AS_WRITTEN), Acquire(j), items, LEAVE_AS_WRITTEN);
      assert Do(Do(acquired, Fail(j), items, LEAVE_AS_WRITTEN), Unlock(j), items, LEAVE_AS_WRITTEN) ==
             To(s, j, Sweeping);
      RunFour(s, Check(j), Acquire(j), Fail(j), Unlock(j), items, policy);
    } else {
      assert Do(Do(s, Check(j), items, policy), Acquire(j), items, policy) == To(s, j, Looked);
      RunTwo(s, Check(j), Acquire(j), items, policy);
    }
    assert Run(s, Preparing(j, policy), items, policy) == To(s, j, Idler(policy));
  }

  lemma {:induction false} RunKeepsCount(s: State, acts: seq<Action>, items: seq<Entry>, policy: Policy)
    ensures |Run(s, acts, items, policy).phases| == |s.phases|
  {
    if acts != [] {
      RunKeepsCount(s, acts[..|acts| - 1], items, policy);
      OthersStay(Run(s, acts[..|acts| - 1], items, policy), acts[|acts| - 1], items, policy);
    }
  }

  lemma {:induction false} PrepareAll(n: nat, j: nat, items: seq<Entry>, policy: Policy) returns (acts: seq<Action>)
    requires policy != Policy(true, true) && 1 <= j <= n
    ensures Prepared(Run(Init(n), acts, items, policy), j, policy) && |Run(Init(n), acts, items, policy).phases| == n
    decreases j
  {
    if j == 1 {
      acts := [];
    } else {
      var before := PrepareAll(n, j - 1, items, policy);
      PrepareOne(Run(Init(n), before, items, policy), j - 1, items, policy);
      RunConcat(Init(n), before, Preparing(j - 1, policy), items, policy);
      RunKeepsCount(Run(Init(n), before, items, policy), Preparing(j - 1, policy), items, policy);
      acts := before + Preparing(j - 1, policy);
    }
  }

  /** When all others are prepared, puller 0 takes the lock and makes the directory. */
  lemma {:induction false} ExposeFirst(s: State, items: seq<Entry>, policy: Policy) returns (acts: seq<Action>)
    requires policy != Policy(true, true) && Prepared(s, |s.phases|, policy)
    ensures Exposed(Run(s, acts, items, policy), 0, policy)
    ensures |Run(s, acts, items, policy).phases| == |s.phases|
  {
    FreshDirectory(items, policy);
    if policy.atomicAcquire {
      acts := [Check(0), Acquire(0), Clear(0), Make(0)];
      RunFour(s, Check(0), Acquire(0), Clear(0), Make(0), items, policy);
    } else {
      var s1 := Run(s, [Check(0), Acquire(0)], items, policy);
      RunTwo(s, Check(0), Acquire(0), items, policy);
      var s2 := Run(s1, [Write(0), Clear(0)], items, policy);
      RunTwo(s1, Write(0), Clear(0), items, policy);
      acts := [Check(0), Acquire(0)] + [Write(0), Clear(0)] + [Make(0)];
      RunConcat(s, [Check(0), Acquire(0)], [Write(0), Clear(0)], items, policy);
      RunSnoc(s, [Check(0), Acquire(0)] + [Write(0), Clear(0)], Make(0), items, policy);
    }
    RunKeepsCount(s, acts, items, policy);
  }

  /** The directory is empty before entry k, and only the pullers after the next one are still prepared. */
  ghost predicate Emptied(s: State, k: nat, policy: Policy) {
    && s.final == map[] && s.tmp == map[] && |s.phases| > 0 && s.phases[0] == Extracting(k)
    && forall j | k + 1 < j < |s.phases| :: s.phases[j] == Idler(policy)
  }

  lemma {:induction false} EmptyOnce(s: State, k: nat, items: seq<Entry>, policy: Policy)
    requires policy != Policy(true, true) && Exposed(s, k, policy) && k + 1 < |s.phases|
    ensures Emptied(Run(s, Emptying(k + 1, policy), items, policy), k, policy)
  {
    var j := k + 1;
    if policy.atomicAcquire {
      var swept := Do(s, Sweep(j), items, policy);
      assert swept.tmp == map[] && swept.final == s.final;
      OthersStay(s, Sweep(j), items, policy);
      RunSnoc(s, [], Sweep(j), items, policy);
      assert [] + [Sweep(j)] == [Sweep(j)];
    } else {
      var cleared := Do(Do(s, Write(j), items, policy), Clear(j), items, policy);
      assert cleared.tmp == map[] && cleared.final == s.final;
      assert |cleared.phases| == |s.phases| && cleared.phases[j] == Cleared;
      OthersStay(s, Write(j), items, policy);
      OthersStay(Do(s, Write(j), items, policy), Clear(j), items, policy);
      RunTwo(s, Write(j), Clear(j), items, policy);
    }
  }

  /** The directory is emptied, and then the next entry extracted. */
  lemma {:induction false} EmptiedTurn(s: State, k: nat, items: seq<Entry>, policy: Policy)
    requires policy != Policy(true, true) && Exposed(s, k, policy)
    requires k < |items| && k + 1 < |s.phases| && items[k] != Broken
    ensures var s' := Run(s, Emptying(k + 1, policy) + [Extract(0)], items, policy);
            Exposed(s', k + 1, policy) && |s'.phases| == |s.phases| && (Adds(items[k]) ==> [] in s'.tmp)
  {
    EmptyOnce(s, k, items, policy);
    var end := Do(Run(s, Emptying(k + 1, policy), items, policy), Extract(0), items, policy);
    assert Exposed(end, k + 1, policy) && (Adds(items[k]) ==> [] in end.tmp);
    RunSnoc(s, Emptying(k + 1, policy), Extract(0), items, policy);
    RunKeepsCount(s, Emptying(k + 1, policy) + [Extract(0)], items, policy);
  }

  lemma {:induction false} EmptiedNext(s: State, before: seq<Action>, k: nat, items: seq<Entry>, policy: Policy)
    requires policy != Policy(true, true) && Exposed(Run(s, before, items, policy), k, policy)
    requires |Run(s, before, items, policy).phases| == |s.phases|
    requires k < |items| && k + 1 < |s.phases| && items[k] != Broken
    ensures var s' := Run(s, before + (Emptying(k + 1, policy) + [Extract(0)]), items, policy);
            Exposed(s', k + 1, policy) && |s'.phases| == |s.phases| && (Adds(items[k]) ==> [] in s'.tmp)
  {
    EmptiedTurn(Run(s, before, items, policy), k, items, policy);
    RunConcat(s, before, Emptying(k + 1, policy) + [Extract(0)], items, policy);
  }

  lemma {:induction false} EmptiedTurns(s: State, k: nat, items: seq<Entry>, policy: Policy) returns (acts: seq<Action>)
    requires policy != Policy(true, true) && Exposed(s, 0, policy)
    requires k <= |items| && k < |s.phases| && Broken !in items
    ensures var s' := Run(s, acts, items, policy);
            Exposed(s', k, policy) && |s'.phases| == |s.phases| && (k > 0 && Adds(items[k - 1]) ==> [] in s'.tmp)
    decreases k
  {
    if k == 0 {
      acts := [];
    } else {
      var j := k - 1;
      var before := EmptiedTurns(s, j, items, policy);
      assert items[j] in items;
      EmptiedNext(s, before, j, items, policy);
      acts := before + (Emptying(j + 1, policy) + [Extract(0)]);
    }
  }

  /** The whiteouts at the end leave the root. */
  lemma {:induction false} LastTurns(s: State, m: nat, k: nat, items: seq<Entry>, policy: Policy)
    returns (acts: seq<Action>)
    requires Exposed(s, m, policy) && m <= k <= |items| && [] in s.tmp
    requires forall j | m <= j < |items| :: items[j].Whiteout? && items[j].path != []
    ensures var s' := Run(s, acts, items, policy); Exposed(s', k, policy) && [] in s'.tmp
    decreases k
  {
    if k == m {
      acts := [];
    } else {
      var before := LastTurns(s, m, k - 1, items, policy);
      RunSnoc(s, before, Extract(0), items, policy);
      acts := before + [Extract(0)];
    }
  }

  lemma {:induction false} NoAdditionsExtract(t: Tree, items: seq<Entry>)
    requires forall e | e in items :: e.Whiteout?
    ensures ApplyAll(t, items).Some?
  {
    if items != [] {
      assert items[|items| - 1] in items;
      NoAdditionsExtract(t, items[..|items| - 1]);
    }
  }

  /** An image that can be read but does not extract adds something. */
  lemma UnextractedAdds(items: seq<Entry>) returns (m: nat)
    requires ApplyAll(ROOT, items).None? && Broken !in items
    ensures LastAdds(items, m)
  {
    if forall i | 0 <= i < |items| :: !Adds(items[i]) {
      forall e | e in items
        ensures e.Whiteout?
      {
        assert e != Broken;
      }
      NoAdditionsExtract(ROOT, items);
      assert false;
    }
    var i :| 0 <= i < |items| && Adds(items[i]);
    m := SomeLastAdds(items, i);
  }

  /** From the start, the first k entries are extracted, each into an empty directory. */
  lemma {:induction false} EachOnNothing(items: seq<Entry>, k: nat, n: nat, policy: Policy) returns (acts: seq<Action>)
    requires policy != Policy(true, true) && Broken !in items && k <= |items| && k < n
    ensures var s := Run(Init(n), acts, items, policy);
            Exposed(s, k, policy) && |s.phases| == n && (k > 0 && Adds(items[k - 1]) ==> [] in s.tmp)
  {
    var a := PrepareAll(n, n, items, policy);
    var s1 := Run(Init(n), a, items, policy);
    var b := ExposeFirst(s1, items, policy);
    var s2 := Run(s1, b, items, policy);
    var c := EmptiedTurns(s2, k, items, policy);
    RunConcat(Init(n), a, b, items, policy);
    RunConcat(Init(n), a + b, c, items, policy);
    acts := a + b + c;
  }

  /** With an atomic lock, pullers that failed sweep before each entry up to the last addition. */
  lemma {:induction false} UnextractedSweep(items: seq<Entry>) returns (n: nat, acts: seq<Action>)
    requires ApplyAll(ROOT, items).None? && Broken !in items && !EndsBare(items)
    ensures Run(Init(n), acts, items, LEAVE_AS_WRITTEN).final != map[]
  {
    var policy := LEAVE_AS_WRITTEN;
    var m := UnextractedAdds(items);
    n := m + 2;
    var a := EachOnNothing(items, m + 1, n, policy);
    var s := Run(Init(n), a, items, policy);
    assert forall j | m < j < |items| :: items[j].Whiteout? && items[j].path != [];
    var b := LastTurns(s, m + 1, |items|, items, policy);
    var t := Run(s, b, items, policy);
    RunConcat(Init(n), a, b, items, policy);
    RunSnoc(Init(n), a + b, Rename(0), items, policy);
    OneRename(t, 0, items, policy);
    acts := a + b + [Rename(0)];
  }

  /** With the lock check and write apart, pullers that saw no lock clear the directory before each entry, and the last
   *  one makes it anew. */
  lemma {:induction false} UnextractedRace(items: seq<Entry>, policy: Policy) returns (n: nat, acts: seq<Action>)
    requires !policy.atomicAcquire && Broken !in items
    ensures Run(Init(n), acts, items, policy).final == ROOT
  {
    n := |items| + 2;
    var a := EachOnNothing(items, |items|, n, policy);
    var s := Run(Init(n), a, items, policy);
    var j := |items| + 1;
    EmptyOnce(s, |items|, items, policy);
    var t := Run(s, [Write(j), Clear(j)], items, policy);
    FreshDirectory(items, policy);
    RunTwo(s, Write(j), Clear(j), items, policy);
    var u := Do(t, Make(j), items, policy);
    assert u.tmp == ROOT && u.phases[0] == Extracting(|items|) && u.final == map[];
    RunConcat(Init(n), a, [Write(j), Clear(j)], items, policy);
    RunSnoc(Init(n), a + [Write(j), Clear(j)], Make(j), items, policy);
    RunSnoc(Init(n), a + [Write(j), Clear(j)] + [Make(j)], Rename(0), items, policy);
    assert [] in ROOT;
    OneRename(u, 0, items, policy);
    acts := a + [Write(j), Clear(j)] + [Make(j)] + [Rename(0)];
  }

  // ---------- Which images are safe ----------

  lemma TailsAreComplete(final: Tree, items: seq<Entry>)
    requires final == map[] || Extracted(final, items, |items|, LEAVE_AS_WRITTEN)
    requires forall k | 0 <= k <= |items| :: TailComplete(items, k)
    ensures Complete(final, items)
  {
    assert items[..|items|] == items;
    forall lo | 0 <= lo <= |items|
      ensures ApplyAll(map[], items[lo..|items|]) == Some(final) ==> Complete(final, items)
    {
      assert items[lo..|items|] == items[lo..];
      assert TailComplete(items, lo);
    }
  }

  lemma OneBranchIsSafe(items: seq<Entry>, image: Tree)
    requires ApplyAll(ROOT, items) == Some(image)
    ensures AlwaysComplete(items, LEAVE_AS_WRITTEN) <==> OneBranch(items, image)
  {
    TailsCompleteExactly(items, image);
    if OneBranch(items, image) {
      forall n: nat, acts: seq<Action>
        ensures Complete(Run(Init(n), acts, items, LEAVE_AS_WRITTEN).final, items)
      {
        RunKeepsInvariant(n, acts, items, LEAVE_AS_WRITTEN);
        TailsAreComplete(Run(Init(n), acts, items, LEAVE_AS_WRITTEN).final, items);
      }
    } else {
      var k :| 0 <= k <= |items| && !TailComplete(items, k);
      TailExtracts(items, k);
      var acts := SweepRace(items, k);
      assert !Complete(Run(Init(2), acts, items, LEAVE_AS_WRITTEN).final, items);
    }
  }

  lemma BrokenIsSafe(items: seq<Entry>, policy: Policy)
    requires Broken in items
    ensures AlwaysComplete(items, policy)
  {
    forall n: nat, acts: seq<Action>
      ensures Complete(Run(Init(n), acts, items, policy).final, items)
    {
      BrokenRun(n, acts, items, policy);
    }
  }

  lemma EndsBareIsSafe(items: seq<Entry>, final: Tree)
    requires ApplyAll(ROOT, items).None? && EndsBare(items) && Broken !in items
    requires final == map[] || Extracted(final, items, |items|, LEAVE_AS_WRITTEN)
    ensures final == map[]
  {
    assert items[..|items|] == items;
    forall lo | 0 <= lo <= |items| && ApplyAll(map[], items[lo..|items|]) == Some(final)
      ensures final == map[]
    {
      assert items[lo..|items|] == items[lo..];
      BareTail(items, lo);
    }
  }

  lemma UnextractedIsSafe(items: seq<Entry>)
    requires ApplyAll(ROOT, items).None? && Broken !in items
    ensures AlwaysComplete(items, LEAVE_AS_WRITTEN) <==> EndsBare(items)
  {
    if EndsBare(items) {
      forall n: nat, acts: seq<Action>
        ensures Complete(Run(Init(n), acts, items, LEAVE_AS_WRITTEN).final, items)
      {
        RunKeepsInvariant(n, acts, items, LEAVE_AS_WRITTEN);
        EndsBareIsSafe(items, Run(Init(n), acts, items, LEAVE_AS_WRITTEN).final);
      }
    } else {
      var n, acts := UnextractedSweep(items);
      assert !Complete(Run(Init(n), acts, items, LEAVE_AS_WRITTEN).final, items);
    }
  }

  /** An image that extracts is one branch; another one cannot be read, or leaves nothing whatever is swept. */
  predicate SafeFromSweeps(items: seq<Entry>) {
    match ApplyAll(ROOT, items)
    case Some(image) => OneBranch(items, image)
    case None => Broken in items || EndsBare(items)
  }

  /** PullImage removes the lock before it removes the temp directory of a failed pull. Even with an atomic lock check
   *  and write, exactly these images are safe over all runs. */
  lemma SafeExactly(items: seq<Entry>)
    ensures AlwaysComplete(items, LEAVE_AS_WRITTEN) <==> SafeFromSweeps(items)
  {
    if ApplyAll(ROOT, items).Some? {
      OneBranchIsSafe(items, ApplyAll(ROOT, items).value);
    } else if Broken in items {
      BrokenIsSafe(items, LEAVE_AS_WRITTEN);
    } else {
      UnextractedIsSafe(items);
    }
  }

  predicate Bare(t: Tree) {
    t == map[] || t == ROOT
  }

  lemma BareApply(t: Tree, e: Entry)
    requires Bare(t) && (e.Whiteout? || e == AddDir([]))
    ensures Apply(t, e).Some? && Bare(Apply(t, e).value)
  {
    if e.Whiteout? {
      assert RemoveAll(t, e.path) == if [] in t && e.path != [] then ROOT else map[];
    } else {
      assert MkdirAll(t, []).Some? && MkdirAll(t, []).value == ROOT;
    }
  }

  lemma {:induction false} BareStep(s: State, a: Action, items: seq<Entry>, policy: Policy)
    requires forall e | e in items :: e.Whiteout? || e == AddDir([])
    requires Bare(s.tmp) && Bare(s.final)
    ensures Bare(Do(s, a, items, policy).tmp) && Bare(Do(s, a, items, policy).final)
  {
    if a.Make? {
      BareApply(s.tmp, AddDir([]));
    } else if a.Extract? && a.i < |s.phases| && s.phases[a.i].Extracting? && s.phases[a.i].k < |items| {
      assert items[s.phases[a.i].k] in items;
      BareApply(s.tmp, items[s.phases[a.i].k]);
    }
  }

  lemma {:induction false} BareRun(n: nat, acts: seq<Action>, items: seq<Entry>, policy: Policy)
    requires forall e | e in items :: e.Whiteout? || e == AddDir([])
    ensures var s := Run(Init(n), acts, items, policy); Bare(s.tmp) && Bare(s.final)
  {
    if acts != [] {
      BareRun(n, acts[..|acts| - 1], items, policy);
      BareStep(Run(Init(n), acts[..|acts| - 1], items, policy), acts[|acts| - 1], items, policy);
    }
  }

  /** An entry that adds something else than the root shows in the tree right after it. */
  lemma AdditionShows(items: seq<Entry>, i: nat, t: Tree)
    requires i < |items| && !(items[i].Whiteout? || items[i] == AddDir([]))
    requires ApplyAll(ROOT, items[..i + 1]) == Some(t)
    ensures t != map[] && t != ROOT
  {
    var e := items[i];
    assert items[..i + 1] == items[..i] + [e];
    Snoc(ROOT, items[..i], e);
    ApplyAt(ApplyAll(ROOT, items[..i]).value, e, e.path);
    assert Lookup(t, e.path) == Over(At(e, e.path), Lookup(ApplyAll(ROOT, items[..i]).value, e.path));
    assert Lookup(t, e.path).Some? && Lookup(t, e.path) != Lookup(ROOT, e.path);
  }

  /** An image that is not inert has a stage that is neither nothing nor the whole. */
  lemma {:induction false} StageOf(items: seq<Entry>, image: Tree) returns (k: nat)
    requires ApplyAll(ROOT, items) == Some(image) && !Inert(items, image)
    ensures k <= |items| && ApplyAll(ROOT, items[..k]).Some?
    ensures ApplyAll(ROOT, items[..k]).value != map[] && ApplyAll(ROOT, items[..k]).value != image
  {
    if image != ROOT {
      k := 0;
      assert items[..0] == [] && [] in ROOT;
    } else {
      var i :| 0 <= i < |items| && !(items[i].Whiteout? || items[i] == AddDir([]));
      k := i + 1;
      PrefixExtracts(ROOT, items, k);
      AdditionShows(items, i, ApplyAll(ROOT, items[..k]).value);
    }
  }

  lemma InertIsSafe(items: seq<Entry>, image: Tree, policy: Policy)
    requires ApplyAll(ROOT, items) == Some(image) && !policy.atomicAcquire
    ensures AlwaysComplete(items, policy) <==> Inert(items, image)
  {
    if Inert(items, image) {
      forall n: nat, acts: seq<Action>
        ensures Complete(Run(Init(n), acts, items, policy).final, items)
      {
        BareRun(n, acts, items, policy);
      }
    } else {
      var k := StageOf(items, image);
      var acts := LockRace(items, k, policy);
      assert !Complete(Run(Init(2), acts, items, policy).final, items);
    }
  }

  /** An image that extracts is inert; another one cannot be read. */
  predicate SafeFromRaces(items: seq<Entry>) {
    match ApplyAll(ROOT, items)
    case Some(image) => Inert(items, image)
    case None => Broken in items
  }

  /** With the lock check and write apart, as they are, exactly these images are safe over all runs, whatever the
   *  deferred function does. */
  lemma LockRaceExactly(items: seq<Entry>, atomicLeave: bool)
    ensures AlwaysComplete(items, Policy(false, atomicLeave)) <==> SafeFromRaces(items)
  {
    var policy := Policy(false, atomicLeave);
    if ApplyAll(ROOT, items).Some? {
      InertIsSafe(items, ApplyAll(ROOT, items).value, policy);
    } else if Broken in items {
      BrokenIsSafe(items, policy);
    } else {
      var n, acts := UnextractedRace(items, policy);
      assert [] in ROOT;
      assert !Complete(Run(Init(n), acts, items, policy).final, items);
    }
  }

  /** Which images are safe over all runs and crashes, for each way to take the two steps of the lock; the code as it is
   *  written takes neither of them at once. */
  lemma InstallExactly(items: seq<Entry>, policy: Policy)
    ensures AlwaysComplete(items, policy) <==>
            if !policy.atomicAcquire then SafeFromRaces(items) else policy.atomicLeave || SafeFromSweeps(items)
  {
    if !policy.atomicAcquire {
      LockRaceExactly(items, policy.atomicLeave);
    } else if !policy.atomicLeave {
      SafeExactly(items);
    } else {
      forall n: nat, acts: seq<Action>
        ensures Complete(Run(Init(n), acts, items, policy).final, items)
      {
        InstallSafety(n, acts, items);
      }
    }
  }

  lemma OneBranchCompares(items: seq<Entry>, image: Tree, a: Path, b: Path)
    requires ApplyAll(ROOT, items) == Some(image) && OneBranch(items, image) && a in image && b in image
    ensures a <= b || b <= a
  {
    if forall e | e in items :: !Adds(e) {
      ApplyAllAt(ROOT, items, a);
      assert Lookup(image, a).Some?;
      var _ := LastAtCases(items, a);
      HeldIffAdded(items, a);
      assert a == [];
    } else {
      var m :| 0 <= m < |items| && LastAdds(items, m) && forall p | p in image :: p <= items[m].path;
      PrefixesCompare(a, b, items[m].path);
    }
  }

  /** An image with two paths on different branches is safe only if both steps are atomic. */
  lemma BranchingIsUnsafe(items: seq<Entry>, image: Tree, a: Path, b: Path, policy: Policy)
    requires ApplyAll(ROOT, items) == Some(image) && a in image && b in image
    requires !(a <= b) && !(b <= a) && policy != Policy(true, true)
    ensures !AlwaysComplete(items, policy)
  {
    InstallExactly(items, policy);
    if OneBranch(items, image) {
      OneBranchCompares(items, image, a, b);
    }
  }
}
