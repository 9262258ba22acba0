/** The mount list of a container and the kernel's mount table. */
module Mounts {
  import opened Text
  import opened Wrappers

  type Path = seq<string>

  /** Where a bind mount takes its tree from: a relative source is joined to the root file system. */
  datatype Source = Source(absolute: bool, path: Path)

  /** A recursive bind mount, or one of a new file system: sysfs or tmpfs. */
  datatype Mount = Bind(source: Source, target: Path) | Plain(target: Path)

  /** Mount points, oldest first. */
  type Table = seq<Path>

  function Resolved(rootfs: Path, s: Source): Path {
    if s.absolute then s.path else rootfs + s.path
  }

  function Target(rootfs: Path, m: Mount): Path {
    rootfs + m.target
  }

  // ---------- What a recursive bind brings ----------

  /** A newer mount at or above the source covers the mounts that were below it. */
  predicate Covered(t: Table, i: nat, source: Path)
    requires i < |t|
  {
    exists j | i < j < |t| :: t[j] <= source
  }

  /** Mount i of the table is part of the tree at the source. */
  predicate IsBelow(t: Table, i: nat, source: Path)
    requires i < |t|
  {
    source < t[i] && !Covered(t, i, source)
  }

  /** The mounts below the source, from index i on, moved to the target. */
  function BroughtFrom(t: Table, i: nat, source: Path, target: Path): Table
    requires i <= |t|
    decreases |t| - i
  {
    if i == |t| then []
    else (if IsBelow(t, i, source) then [target + t[i][|source|..]] else []) + BroughtFrom(t, i + 1, source, target)
  }

  function Brought(t: Table, rootfs: Path, m: Mount): Table {
    if m.Plain? then [] else BroughtFrom(t, 0, Resolved(rootfs, m.source), Target(rootfs, m))
  }

  /** Nothing is mounted below the source of a bind. */
  predicate NothingBelow(t: Table, rootfs: Path, m: Mount) {
    m.Bind? ==> forall i | 0 <= i < |t| :: !IsBelow(t, i, Resolved(rootfs, m.source))
  }

  lemma {:induction false} BringsFrom(t: Table, i: nat, source: Path, target: Path)
    requires i <= |t|
    ensures BroughtFrom(t, i, source, target) == [] <==> forall j | i <= j < |t| :: !IsBelow(t, j, source)
    decreases |t| - i
  {
    if i < |t| {
      BringsFrom(t, i + 1, source, target);
    }
  }

  lemma BringsNothing(t: Table, rootfs: Path, m: Mount)
    ensures Brought(t, rootfs, m) == [] <==> NothingBelow(t, rootfs, m)
  {
    if m.Bind? {
      BringsFrom(t, 0, Resolved(rootfs, m.source), Target(rootfs, m));
    }
  }

  // ---------- Mounting and unmounting ----------

  function Mounted(t: Table, rootfs: Path, m: Mount): Table {
    t + [Target(rootfs, m)] + Brought(t, rootfs, m)
  }

  function AllMounted(t: Table, rootfs: Path, ms: seq<Mount>): Table {
    if ms == [] then t else Mounted(AllMounted(t, rootfs, ms[..|ms| - 1]), rootfs, ms[|ms| - 1])
  }

  /** The index of the newest mount at a path, or the size of the table. */
  function Newest(t: Table, p: Path): (i: nat)
    ensures i <= |t|
    ensures i < |t| ==> t[i] == p && forall j | i < j < |t| :: t[j] != p
    ensures i == |t| ==> p !in t
  {
    if t == [] then 0
    else if t[|t| - 1] == p then |t| - 1
    else
      var i := Newest(t[..|t| - 1], p);
      if i == |t| - 1 then |t| else i
  }

  /** A newer mount above the path hides it; a newer mount below it keeps it busy. */
  predicate Blocked(t: Table, p: Path, i: nat)
    requires i < |t|
  {
    exists j | i < j < |t| :: t[j] < p || p < t[j]
  }

  /** umount without flags: a blocked or missing mount stays as it is. */
  function Unmounted(t: Table, p: Path): (t': Table)
    ensures |t'| >= |t| - 1
  {
    var i := Newest(t, p);
    if i == |t| || Blocked(t, p, i) then t else t[..i] + t[i + 1..]
  }

  /** The table after the targets of the last mounts, down to number k, are unmounted in reverse order. */
  function UnmountedDownTo(t: Table, rootfs: Path, ms: seq<Mount>, k: nat): Table
    requires k <= |ms|
    decreases |ms| - k
  {
    if k == |ms| then t else Unmounted(UnmountedDownTo(t, rootfs, ms, k + 1), Target(rootfs, ms[k]))
  }

  function AllUnmounted(t: Table, rootfs: Path, ms: seq<Mount>): Table {
    UnmountedDownTo(t, rootfs, ms, 0)
  }

  /** Mount i of the list is made when nothing is mounted below its source, by the host or by an earlier mount. */
  predicate BringsNone(t: Table, rootfs: Path, ms: seq<Mount>, i: nat)
    requires i < |ms|
  {
    NothingBelow(AllMounted(t, rootfs, ms[..i]), rootfs, ms[i])
  }

  predicate NoBindBrings(t: Table, rootfs: Path, ms: seq<Mount>) {
    forall i | 0 <= i < |ms| :: BringsNone(t, rootfs, ms, i)
  }

  /** The newest mount is neither hidden nor busy. */
  lemma NewestUnmounts(t: Table, p: Path)
    ensures Newest(t + [p], p) == |t| && !Blocked(t + [p], p, |t|)
    ensures Unmounted(t + [p], p) == t
  {
  }

  lemma MountedAt(t: Table, rootfs: Path, ms: seq<Mount>, k: nat)
    requires k < |ms|
    ensures AllMounted(t, rootfs, ms[..k + 1]) == Mounted(AllMounted(t, rootfs, ms[..k]), rootfs, ms[k])
  {
    assert ms[..k + 1][..k] == ms[..k];
  }

  /** A mount that brings nothing is clear to unmount, and its unmount undoes it; another leaves more behind. */
  lemma OneMount(before: Table, rootfs: Path, m: Mount, after: Table)
    requires after == Mounted(before, rootfs, m)
    ensures NothingBelow(before, rootfs, m) ==>
              var i := Newest(after, Target(rootfs, m));
              i < |after| && !Blocked(after, Target(rootfs, m), i) && Unmounted(after, Target(rootfs, m)) == before
    ensures |after| > |before| && (!NothingBelow(before, rootfs, m) ==> |after| > |before| + 1)
  {
    BringsNothing(before, rootfs, m);
    NewestUnmounts(before, Target(rootfs, m));
  }

  /** Unmounting the last targets gives back the table from before their mounts. */
  lemma {:induction false} UnmountUndoes(t: Table, rootfs: Path, ms: seq<Mount>, k: nat)
    requires NoBindBrings(t, rootfs, ms) && k <= |ms|
    ensures UnmountedDownTo(AllMounted(t, rootfs, ms), rootfs, ms, k) == AllMounted(t, rootfs, ms[..k])
    decreases |ms| - k
  {
    if k == |ms| {
      assert ms[..k] == ms;
    } else {
      UnmountUndoes(t, rootfs, ms, k + 1);
      MountedAt(t, rootfs, ms, k);
      assert BringsNone(t, rootfs, ms, k);
      OneMount(AllMounted(t, rootfs, ms[..k]), rootfs, ms[k], AllMounted(t, rootfs, ms[..k + 1]));
    }
  }

  /** When its turn comes, each target is mounted, and neither hidden nor kept busy by another mount. */
  lemma {:induction false} EachTurnIsClear(t: Table, rootfs: Path, ms: seq<Mount>, k: nat)
    requires NoBindBrings(t, rootfs, ms) && k < |ms|
    ensures var now := UnmountedDownTo(AllMounted(t, rootfs, ms), rootfs, ms, k + 1);
            var i := Newest(now, Target(rootfs, ms[k]));
            i < |now| && !Blocked(now, Target(rootfs, ms[k]), i)
  {
    UnmountUndoes(t, rootfs, ms, k + 1);
    MountedAt(t, rootfs, ms, k);
    assert BringsNone(t, rootfs, ms, k);
    OneMount(AllMounted(t, rootfs, ms[..k]), rootfs, ms[k], AllMounted(t, rootfs, ms[..k + 1]));
  }

  /** The table sizes along the mounts. */
  function Sizes(t: Table, rootfs: Path, ms: seq<Mount>): (sizes: seq<nat>)
    ensures |sizes| == |ms| + 1
    ensures forall k | 0 <= k <= |ms| :: sizes[k] == |AllMounted(t, rootfs, ms[..k])|
  {
    seq(|ms| + 1, k requires 0 <= k <= |ms| => |AllMounted(t, rootfs, ms[..k])|)
  }

  /** One more mount adds an entry, and more when it brings some. */
  lemma {:induction false} SizesGrow(t: Table, rootfs: Path, ms: seq<Mount>, k: nat)
    requires k < |ms|
    ensures var sizes := Sizes(t, rootfs, ms);
            sizes[k + 1] > sizes[k] && (!BringsNone(t, rootfs, ms, k) ==> sizes[k + 1] > sizes[k] + 1)
  {
    MountedAt(t, rootfs, ms, k);
    OneMount(AllMounted(t, rootfs, ms[..k]), rootfs, ms[k], AllMounted(t, rootfs, ms[..k + 1]));
  }

  lemma {:induction false} Growth(sizes: seq<nat>, lo: nat, hi: nat)
    requires lo <= hi < |sizes| && forall k | 0 <= k < |sizes| - 1 :: sizes[k + 1] > sizes[k]
    ensures sizes[hi] >= sizes[lo] + (hi - lo)
    decreases hi
  {
    if lo < hi {
      Growth(sizes, lo, hi - 1);
      assert sizes[hi - 1 + 1] > sizes[hi - 1];
    }
  }

  /** The table grows by at least one entry for each mount, and by more when one of them brings some. */
  lemma MountedGrowth(t: Table, rootfs: Path, ms: seq<Mount>)
    requires !NoBindBrings(t, rootfs, ms)
    ensures |AllMounted(t, rootfs, ms)| > |t| + |ms|
  {
    var sizes := Sizes(t, rootfs, ms);
    forall k | 0 <= k < |sizes| - 1
      ensures sizes[k + 1] > sizes[k]
    {
      SizesGrow(t, rootfs, ms, k);
    }
    var i :| 0 <= i < |ms| && !BringsNone(t, rootfs, ms, i);
    Growth(sizes, 0, i);
    SizesGrow(t, rootfs, ms, i);
    Growth(sizes, i + 1, |ms|);
    assert ms[..0] == [] && ms[..|ms|] == ms;
  }

  lemma {:induction false} UnmountedShrinkage(t: Table, rootfs: Path, ms: seq<Mount>, k: nat)
    requires k <= |ms|
    ensures |UnmountedDownTo(t, rootfs, ms, k)| >= |t| - (|ms| - k)
    decreases |ms| - k
  {
    if k < |ms| {
      UnmountedShrinkage(t, rootfs, ms, k + 1);
    }
  }

  /** For every list of mounts, nested and repeated targets included, the reverse-order unmount restores the table
   *  exactly when nothing is mounted below the source of any bind at the time of its mount. */
  lemma UnmountRestoresExactly(t: Table, rootfs: Path, ms: seq<Mount>)
    ensures AllUnmounted(AllMounted(t, rootfs, ms), rootfs, ms) == t <==> NoBindBrings(t, rootfs, ms)
  {
    assert ms[..|ms|] == ms;
    if NoBindBrings(t, rootfs, ms) {
      UnmountUndoes(t, rootfs, ms, 0);
    } else {
      MountedGrowth(t, rootfs, ms);
      UnmountedShrinkage(AllMounted(t, rootfs, ms), rootfs, ms, 0);
    }
  }

  lemma SamePath(target: Path, a: Path, b: Path)
    ensures target + a == target + b <==> a == b
  {
    assert (target + a)[|target|..] == a && (target + b)[|target|..] == b;
  }

  lemma {:induction false} BroughtFromExactly(t: Table, i: nat, source: Path, target: Path, rest: Path)
    requires i <= |t| && rest != []
    ensures target + rest in BroughtFrom(t, i, source, target) <==>
            exists j | i <= j < |t| :: t[j] == source + rest && !Covered(t, j, source)
    decreases |t| - i
  {
    if i < |t| {
      BroughtFromExactly(t, i + 1, source, target, rest);
      assert source < t[i] && t[i][|source|..] == rest <==> t[i] == source + rest;
      if IsBelow(t, i, source) {
        SamePath(target, t[i][|source|..], rest);
      }
    }
  }

  /** A bind brings along exactly the visible mounts below its source: the path itself if it is absolute, else below the
   *  root file system. They appear at the same place below the target. */
  lemma BroughtExactly(t: Table, rootfs: Path, s: Source, target: Path, rest: Path)
    requires rest != []
    ensures var source := if s.absolute then s.path else rootfs + s.path;
            rootfs + target + rest in Brought(t, rootfs, Bind(s, target)) <==>
            exists j | 0 <= j < |t| :: t[j] == source + rest && forall k | j < k < |t| :: !(t[k] <= source)
  {
    var source := if s.absolute then s.path else rootfs + s.path;
    BroughtFromExactly(t, 0, source, rootfs + target, rest);
    assert forall j | 0 <= j < |t| :: Covered(t, j, source) <==> exists k | j < k < |t| :: t[k] <= source;
  }

  /** Of two nested mounts only the newer one can be unmounted: the one below keeps the other busy, the one above hides
   *  it. So the first mount of the list does not go before the last. */
  lemma OlderOneStays(t: Table, p: Path, rest: Path)
    requires rest != []
    ensures Unmounted(t + [p] + [p + rest], p) == t + [p] + [p + rest]
    ensures Unmounted(t + [p + rest] + [p], p + rest) == t + [p + rest] + [p]
    ensures Unmounted(t + [p] + [p], p) == t + [p]
  {
    assert p < p + rest;
    NewestUnmounts(t + [p], p);
    var busy, hidden := t + [p] + [p + rest], t + [p + rest] + [p];
    assert busy[|t|] == p && busy[|t| + 1] == p + rest;
    assert hidden[|t|] == p + rest && hidden[|t| + 1] == p;
    assert Blocked(busy, p, |t|);
    assert Blocked(hidden, p + rest, |t|);
  }

  // ---------- The mounts of a container ----------

  datatype Volume = Volume(hostPath: Source, containerPath: Path)

  /** What addMounts reads of a container; an empty string of the program is None. */
  datatype Config = Config(workdir: Option<Path>, copyDir: Option<Source>, cmdPath: Option<Source>,
                           volumes: seq<Volume>)

  const SYS := Plain(["sys"])
  const SHM := Plain(["dev", "shm"])

  function VolumeMounts(vs: seq<Volume>): (ms: seq<Mount>)
    ensures |ms| == |vs| && forall i | 0 <= i < |vs| :: ms[i] == Bind(vs[i].hostPath, vs[i].containerPath)
  {
    seq(|vs|, i requires 0 <= i < |vs| => Bind(vs[i].hostPath, vs[i].containerPath))
  }

  /** The directory that is bound to the working directory. */
  function CopiedFrom(c: Config): Option<Source> {
    if c.copyDir.Some? then c.copyDir else c.cmdPath
  }

  function ContainerMounts(c: Config): seq<Mount> {
    [SYS, SHM]
    + (if c.workdir.Some? && CopiedFrom(c).Some? then [Bind(CopiedFrom(c).value, c.workdir.value)] else [])
    + VolumeMounts(c.volumes)
  }

  /** The host has nothing mounted below the source, which lies neither above nor below the root file system. */
  predicate IsolatedSource(t: Table, rootfs: Path, s: Source) {
    && s.absolute && !(s.path <= rootfs) && !(rootfs <= s.path)
    && forall i | 0 <= i < |t| :: !IsBelow(t, i, s.path)
  }

  lemma {:induction false} MountsKeepIsolation(t: Table, rootfs: Path, ms: seq<Mount>, s: Source)
    requires IsolatedSource(t, rootfs, s)
    requires forall m | m in ms && m.Bind? :: IsolatedSource(t, rootfs, m.source)
    ensures var t' := AllMounted(t, rootfs, ms);
            t <= t' && (forall j | |t| <= j < |t'| :: rootfs <= t'[j]) && NothingBelow(t', rootfs, Bind(s, []))
  {
    if ms != [] {
      var front, m := ms[..|ms| - 1], ms[|ms| - 1];
      assert m in ms;
      MountsKeepIsolation(t, rootfs, front, if m.Bind? then m.source else s);
      BringsNothing(AllMounted(t, rootfs, front), rootfs, m);
    }
    var t' := AllMounted(t, rootfs, ms);
    forall i | 0 <= i < |t'|
      ensures !IsBelow(t', i, s.path)
    {
      if i < |t| {
        assert t'[i] == t[i] && !IsBelow(t, i, s.path);
        if Covered(t, i, s.path) {
          var j :| i < j < |t| && t[j] <= s.path;
          assert t'[j] == t[j];
        }
      } else if s.path < t'[i] {
        PrefixesCompare(s.path, rootfs, t'[i]);
        assert false;
      }
    }
  }

  /** For a container whose directories on the host are isolated, MountAll and then UnmountAll leave the mount table as
   *  it was. No stop takes this way: `down` reads the container from its state file, which has no mount manager, and
   *  unmounts lazily instead. */
  lemma IsolatedContainerRestores(t: Table, rootfs: Path, c: Config)
    requires forall v | v in c.volumes :: IsolatedSource(t, rootfs, v.hostPath)
    requires CopiedFrom(c).Some? ==> IsolatedSource(t, rootfs, CopiedFrom(c).value)
    ensures AllUnmounted(AllMounted(t, rootfs, ContainerMounts(c)), rootfs, ContainerMounts(c)) == t
  {
    var ms := ContainerMounts(c);
    forall m | m in ms && m.Bind?
      ensures IsolatedSource(t, rootfs, m.source)
    {
      if m in VolumeMounts(c.volumes) {
        var i :| 0 <= i < |c.volumes| && VolumeMounts(c.volumes)[i] == m;
        assert c.volumes[i] in c.volumes;
      }
    }
    forall i | 0 <= i < |ms| && ms[i].Bind?
      ensures NothingBelow(AllMounted(t, rootfs, ms[..i]), rootfs, ms[i])
    {
      MountsKeepIsolation(t, rootfs, ms[..i], ms[i].source);
    }
    UnmountRestoresExactly(t, rootfs, ms);
  }

  // ---------- The mount manager ----------

  class MountManager {
    const rootfs: Path
    var mounts: seq<Mount>
    var table: Table

    constructor (rootfs: Path, table: Table)
      ensures mounts == [] && this.table == table && this.rootfs == rootfs
    {
      this.rootfs := rootfs;
      mounts := [];
      this.table := table;
    }

    method Add(m: Mount)
      modifies `mounts
      ensures mounts == old(mounts) + [m]
    {
      mounts := mounts + [m];
    }

    method AddMounts(c: Config)
      requires mounts == []
      modifies `mounts
      ensures mounts == ContainerMounts(c)
      ensures |mounts| == |c.volumes| +
                          if c.workdir.Some? && (c.copyDir.Some? || c.cmdPath.Some?) then 3 else 2
      ensures mounts[0] == Plain(["sys"]) && mounts[1] == Plain(["dev", "shm"])
      ensures c.workdir.Some? && c.copyDir.Some? ==> mounts[2] == Bind(c.copyDir.value, c.workdir.value)
      ensures c.workdir.Some? && c.copyDir.None? && c.cmdPath.Some? ==>
                mounts[2] == Bind(c.cmdPath.value, c.workdir.value)
      ensures forall i | 0 <= i < |c.volumes| ::
                mounts[|mounts| - |c.volumes| + i] == Bind(c.volumes[i].hostPath, c.volumes[i].containerPath)
    {
      Add(SYS);
      Add(SHM);
      if c.workdir.Some? {
        var sourceDir := c.copyDir;
        if sourceDir.None? {
          sourceDir := c.cmdPath;
        }
        if sourceDir.Some? {
          Add(Bind(sourceDir.value, c.workdir.value));
        }
      }
      ghost var before := mounts;
      for i := 0 to |c.volumes|
        invariant mounts == before + VolumeMounts(c.volumes)[..i]
      {
        Add(Bind(c.volumes[i].hostPath, c.volumes[i].containerPath));
      }
    }

    /** `accepted` is the number of mounts that the kernel accepts before it refuses one. */
    method MountAll(accepted: nat) returns (ok: bool)
      modifies `table
      ensures ok <==> accepted >= |mounts|
      ensures table == AllMounted(old(table), rootfs, if ok then mounts else mounts[..accepted])
    {
      for i := 0 to |mounts|
        invariant i <= accepted
        invariant table == AllMounted(old(table), rootfs, mounts[..i])
      {
        if i == accepted {
          return false;
        }
        MountedAt(old(table), rootfs, mounts, i);
        table := Mounted(table, rootfs, mounts[i]);
      }
      assert mounts[..|mounts|] == mounts;
      return true;
    }

    method UnmountAll()
      modifies `table
      ensures table == AllUnmounted(old(table), rootfs, mounts)
    {
      for i := |mounts| downto 0
        invariant table == UnmountedDownTo(old(table), rootfs, mounts, i)
      {
        table := Unmounted(table, Target(rootfs, mounts[i]));
      }
    }
  }
}
