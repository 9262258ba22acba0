/** The volume registry: a list of volumes with the containers that use them. */
module Volumes {
  import opened Text
  import opened Wrappers

  datatype Volume = Volume(name: string, path: string, created: string, usedBy: seq<string>)

  type Registry = seq<Volume>

  datatype Error = Exists | NotFound | InUse | BadSelector | RemoveFailed

  datatype Result<T> = Ok(value: T) | Err(error: Error)

  /** A volume is selected by a nonempty name or a nonempty path. */
  predicate Matches(v: Volume, name: string, path: string) {
    (name != "" && v.name == name) || (path != "" && v.path == path)
  }

  /** The index of the first selected volume, or the length of the list. */
  function MatchIndex(reg: Registry, name: string, path: string): (i: nat)
    ensures i <= |reg|
    ensures i < |reg| ==> Matches(reg[i], name, path)
    ensures forall j | 0 <= j < i :: !Matches(reg[j], name, path)
  {
    if reg == [] || Matches(reg[0], name, path) then 0
    else
      var i := 1 + MatchIndex(reg[1..], name, path);
      assert forall j | 1 <= j < |reg| :: reg[j] == reg[1..][j - 1];
      i
  }

  // ---------- The operations on a loaded registry ----------

  predicate Clashes(reg: Registry, name: string, path: string) {
    exists v | v in reg :: v.name == name || v.path == path
  }

  function Registered(reg: Registry, name: string, path: string, created: string): Registry {
    reg + [Volume(name, path, created, [])]
  }

  predicate AnyMatch(reg: Registry, name: string, path: string) {
    exists v | v in reg :: Matches(v, name, path)
  }

  predicate UsedMatch(v: Volume, name: string, path: string) {
    Matches(v, name, path) && v.usedBy != []
  }

  predicate AnyUsedMatch(reg: Registry, name: string, path: string) {
    exists v | v in reg :: UsedMatch(v, name, path)
  }

  function NotSelected(name: string, path: string): Volume -> bool {
    v => !Matches(v, name, path)
  }

  function Unregistered(reg: Registry, name: string, path: string): Registry {
    Filter(NotSelected(name, path), reg)
  }

  function MarkedUsed(reg: Registry, name: string, path: string, c: string): Registry {
    var i := MatchIndex(reg, name, path);
    if i == |reg| || c in reg[i].usedBy then reg
    else reg[i := reg[i].(usedBy := reg[i].usedBy + [c])]
  }

  function NotAmong(ids: set<string>): string -> bool {
    id => id !in ids
  }

  function WithoutUsers(v: Volume, ids: set<string>): Volume {
    v.(usedBy := Filter(NotAmong(ids), v.usedBy))
  }

  function MarkedUnused(reg: Registry, name: string, path: string, c: string): Registry {
    var i := MatchIndex(reg, name, path);
    if i == |reg| then reg
    else reg[i := WithoutUsers(reg[i], {c})]
  }

  // ---------- The invariant of the registry ----------

  ghost predicate RegistryOk(reg: Registry) {
    && (forall i, j | 0 <= i < j < |reg| :: reg[i].name != reg[j].name && reg[i].path != reg[j].path)
    && (forall v | v in reg :: Distinct(v.usedBy))
    && (forall v | v in reg && v.name == "" && v.path == "" :: v.usedBy == [])
  }

  datatype Op =
    | Register(name: string, path: string, created: string)
    | Unregister(name: string, path: string)
    | MarkUsed(name: string, path: string, c: string)
    | MarkUnused(name: string, path: string, c: string)

  /** What an operation saves, or nothing when it returns an error or finds nothing to change. */
  function Apply(op: Op, reg: Registry): Option<Registry> {
    match op
    case Register(name, path, created) =>
      if Clashes(reg, name, path) then None else Some(Registered(reg, name, path, created))
    case Unregister(name, path) =>
      if !AnyMatch(reg, name, path) || AnyUsedMatch(reg, name, path) then None else Some(Unregistered(reg, name, path))
    case MarkUsed(name, path, c) =>
      var i := MatchIndex(reg, name, path);
      if i == |reg| || c in reg[i].usedBy then None else Some(MarkedUsed(reg, name, path, c))
    case MarkUnused(name, path, c) =>
      if MatchIndex(reg, name, path) == |reg| then None else Some(MarkedUnused(reg, name, path, c))
  }

  function Next(reg: Registry, op: Op): Registry {
    if Apply(op, reg).Some? then Apply(op, reg).value else reg
  }

  function Run(ops: seq<Op>): Registry {
    if ops == [] then [] else Next(Run(ops[..|ops| - 1]), ops[|ops| - 1])
  }

  lemma {:induction false} FilterKeepsOk(keep: Volume -> bool, reg: Registry)
    requires RegistryOk(reg)
    ensures RegistryOk(Filter(keep, reg))
  {
    if reg != [] {
      FilterKeepsOk(keep, reg[1..]);
      var kept := Filter(keep, reg[1..]);
      forall v | v in kept
        ensures v.name != reg[0].name && v.path != reg[0].path
      {
        var j :| 0 <= j < |reg[1..]| && reg[1..][j] == v;
        assert reg[j + 1] == v;
      }
    }
  }

  lemma ReplaceKeepsOk(reg: Registry, i: nat, users: seq<string>)
    requires RegistryOk(reg) && i < |reg| && Distinct(users)
    requires reg[i].name == "" && reg[i].path == "" ==> users == []
    ensures RegistryOk(reg[i := reg[i].(usedBy := users)])
  {
    var reg' := reg[i := reg[i].(usedBy := users)];
    forall v | v in reg'
      ensures Distinct(v.usedBy) && (v.name == "" && v.path == "" ==> v.usedBy == [])
    {
      assert v in reg || v == reg'[i];
    }
  }

  lemma RegisterKeepsOk(reg: Registry, name: string, path: string, created: string)
    requires RegistryOk(reg) && !Clashes(reg, name, path)
    ensures RegistryOk(Registered(reg, name, path, created))
  {
    forall i | 0 <= i < |reg|
      ensures reg[i].name != name && reg[i].path != path
    {
      assert reg[i] in reg;
    }
  }

  lemma MarkKeepsOk(reg: Registry, name: string, path: string, c: string)
    requires RegistryOk(reg)
    ensures RegistryOk(MarkedUsed(reg, name, path, c)) && RegistryOk(MarkedUnused(reg, name, path, c))
  {
    var i := MatchIndex(reg, name, path);
    if i < |reg| {
      FilterDistinct(NotAmong({c}), reg[i].usedBy);
      ReplaceKeepsOk(reg, i, Filter(NotAmong({c}), reg[i].usedBy));
      if c !in reg[i].usedBy {
        ReplaceKeepsOk(reg, i, reg[i].usedBy + [c]);
      }
    }
  }

  lemma {:induction false} NextKeepsOk(reg: Registry, op: Op)
    requires RegistryOk(reg)
    ensures RegistryOk(Next(reg, op))
  {
    match op
    case Register(name, path, created) =>
      if !Clashes(reg, name, path) {
        RegisterKeepsOk(reg, name, path, created);
      }
    case Unregister(name, path) => FilterKeepsOk(NotSelected(name, path), reg);
    case MarkUsed(name, path, c) => MarkKeepsOk(reg, name, path, c);
    case MarkUnused(name, path, c) => MarkKeepsOk(reg, name, path, c);
  }

  lemma {:induction false} RunIsOk(ops: seq<Op>)
    ensures RegistryOk(Run(ops))
  {
    if ops != [] {
      RunIsOk(ops[..|ops| - 1]);
      NextKeepsOk(Run(ops[..|ops| - 1]), ops[|ops| - 1]);
    }
  }

  // ---------- The registry as a relation ----------

  datatype Key = Key(name: string, path: string)

  /** The registered volumes, and which container uses which, without lists and orders. */
  datatype Usage = Usage(volumes: set<Key>, users: set<(Key, string)>)

  function KeyOf(v: Volume): Key {
    Key(v.name, v.path)
  }

  predicate Selected(k: Key, name: string, path: string) {
    (name != "" && k.name == name) || (path != "" && k.path == path)
  }

  function Abstract(reg: Registry): Usage {
    Usage(set v | v in reg :: KeyOf(v), set v, c | v in reg && c in v.usedBy :: (KeyOf(v), c))
  }

  function AbstractNext(u: Usage, op: Op): Usage {
    match op
    case Register(name, path, _) =>
      if exists k | k in u.volumes :: k.name == name || k.path == path then u
      else u.(volumes := u.volumes + {Key(name, path)})
    case Unregister(name, path) =>
      if exists p | p in u.users :: Selected(p.0, name, path) then u
      else u.(volumes := set k | k in u.volumes && !Selected(k, name, path))
    case MarkUsed(name, path, c) =>
      u.(users := u.users + set k | k in u.volumes && Selected(k, name, path) :: (k, c))
    case MarkUnused(name, path, c) =>
      u.(users := set p | p in u.users && !(Selected(p.0, name, path) && p.1 == c))
  }

  /** A mark reaches the first selected volume only: every other selected one is as the mark would leave it. */
  predicate FirstIsEnough(reg: Registry, op: Op) {
    match op
    case MarkUsed(name, path, c) =>
      forall j | MatchIndex(reg, name, path) < j < |reg| && Matches(reg[j], name, path) :: c in reg[j].usedBy
    case MarkUnused(name, path, c) =>
      forall j | MatchIndex(reg, name, path) < j < |reg| && Matches(reg[j], name, path) :: c !in reg[j].usedBy
    case _ => true
  }

  /** The selectors of the callers: a name or a path alone, or the own name and path of a registered volume. */
  predicate OneSelected(reg: Registry, op: Op) {
    op.name == "" || op.path == "" || exists v | v in reg :: v.name == op.name && v.path == op.path
  }

  lemma CallersSelectOne(reg: Registry, op: Op)
    requires RegistryOk(reg) && OneSelected(reg, op)
    ensures FirstIsEnough(reg, op)
  {
    forall i, j | 0 <= i < j < |reg|
      ensures !(Matches(reg[i], op.name, op.path) && Matches(reg[j], op.name, op.path))
    {
      if op.name != "" && op.path != "" {
        var v :| v in reg && v.name == op.name && v.path == op.path;
        var k :| 0 <= k < |reg| && reg[k] == v;
      }
    }
  }

  lemma InUsers(reg: Registry, k: Key, c: string)
    ensures (k, c) in Abstract(reg).users <==> exists j | 0 <= j < |reg| :: KeyOf(reg[j]) == k && c in reg[j].usedBy
  {
    if (k, c) in Abstract(reg).users {
      var v :| v in reg && c in v.usedBy && KeyOf(v) == k;
      var j :| 0 <= j < |reg| && reg[j] == v;
    }
  }

  /** A changed list of users at one index, seen in the relation. */
  lemma ReplaceUsers(reg: Registry, i: nat, users: seq<string>, k: Key, c: string)
    requires RegistryOk(reg) && i < |reg|
    ensures var reg' := reg[i := reg[i].(usedBy := users)];
            && Abstract(reg').volumes == Abstract(reg).volumes
            && ((k, c) in Abstract(reg').users <==>
                if k == KeyOf(reg[i]) then c in users else (k, c) in Abstract(reg).users)
  {
    var reg' := reg[i := reg[i].(usedBy := users)];
    InUsers(reg, k, c);
    InUsers(reg', k, c);
    forall x
      ensures x in Abstract(reg').volumes <==> x in Abstract(reg).volumes
    {
      if x in Abstract(reg').volumes {
        var j :| 0 <= j < |reg'| && KeyOf(reg'[j]) == x;
        assert KeyOf(reg[j]) == x && reg[j] in reg;
      }
      if x in Abstract(reg).volumes {
        var j :| 0 <= j < |reg| && KeyOf(reg[j]) == x;
        assert KeyOf(reg'[j]) == x && reg'[j] in reg';
      }
    }
    assert k == KeyOf(reg[i]) && c in users ==> KeyOf(reg'[i]) == k && c in reg'[i].usedBy;
    if k != KeyOf(reg[i]) && (k, c) in Abstract(reg).users {
      var j :| 0 <= j < |reg| && KeyOf(reg[j]) == k && c in reg[j].usedBy;
      assert KeyOf(reg'[j]) == k && c in reg'[j].usedBy;
    }
  }

  lemma UsersAt(reg: Registry, i: nat, x: string)
    requires RegistryOk(reg) && i < |reg|
    ensures (KeyOf(reg[i]), x) in Abstract(reg).users <==> x in reg[i].usedBy
  {
    InUsers(reg, KeyOf(reg[i]), x);
  }

  /** Every selected key belongs to a selected volume, and the other way round. */
  lemma SelectedMatches(reg: Registry, name: string, path: string, k: Key)
    ensures k in Abstract(reg).volumes && Selected(k, name, path) <==>
            exists j | 0 <= j < |reg| :: KeyOf(reg[j]) == k && Matches(reg[j], name, path)
  {
    if k in Abstract(reg).volumes {
      var v :| v in reg && KeyOf(v) == k;
      var j :| 0 <= j < |reg| && reg[j] == v;
    }
  }

  /** What a mark does to the relation: one pair more, for the first selected volume. */
  lemma MarkUsedUsers(reg: Registry, name: string, path: string, c: string, k: Key, x: string)
    requires RegistryOk(reg)
    ensures var i, u := MatchIndex(reg, name, path), Abstract(MarkedUsed(reg, name, path, c));
            && u.volumes == Abstract(reg).volumes
            && ((k, x) in u.users <==> (k, x) in Abstract(reg).users || (i < |reg| && k == KeyOf(reg[i]) && x == c))
  {
    var i := MatchIndex(reg, name, path);
    if i < |reg| {
      ReplaceUsers(reg, i, reg[i].usedBy + [c], k, x);
      UsersAt(reg, i, x);
    }
  }

  /** And an unmark: that pair is gone. */
  lemma MarkUnusedUsers(reg: Registry, name: string, path: string, c: string, k: Key, x: string)
    requires RegistryOk(reg)
    ensures var i, u := MatchIndex(reg, name, path), Abstract(MarkedUnused(reg, name, path, c));
            && u.volumes == Abstract(reg).volumes
            && ((k, x) in u.users <==> (k, x) in Abstract(reg).users && !(i < |reg| && k == KeyOf(reg[i]) && x == c))
  {
    var i := MatchIndex(reg, name, path);
    if i < |reg| {
      ReplaceUsers(reg, i, Filter(NotAmong({c}), reg[i].usedBy), k, x);
      UsersAt(reg, i, x);
    }
  }

  /** The pair of a volume and a container, on the list after a mark and in the relation. */
  lemma MarkUsedAt(reg: Registry, name: string, path: string, c: string, j: nat)
    requires RegistryOk(reg) && j < |reg|
    ensures var k, i := KeyOf(reg[j]), MatchIndex(reg, name, path);
            && ((k, c) in Abstract(MarkedUsed(reg, name, path, c)).users <==> c in reg[j].usedBy || j == i)
            && ((k, c) in AbstractNext(Abstract(reg), MarkUsed(name, path, c)).users <==>
                c in reg[j].usedBy || Matches(reg[j], name, path))
  {
    var k := KeyOf(reg[j]);
    MarkUsedUsers(reg, name, path, c, k, c);
    UsersAt(reg, j, c);
    SelectedMatches(reg, name, path, k);
    assert k in Abstract(reg).volumes;
  }

  lemma MarkUnusedAt(reg: Registry, name: string, path: string, c: string, j: nat)
    requires RegistryOk(reg) && j < |reg|
    ensures var k, i := KeyOf(reg[j]), MatchIndex(reg, name, path);
            && ((k, c) in Abstract(MarkedUnused(reg, name, path, c)).users <==> c in reg[j].usedBy && j != i)
            && ((k, c) in AbstractNext(Abstract(reg), MarkUnused(name, path, c)).users <==>
                c in reg[j].usedBy && !Matches(reg[j], name, path))
  {
    MarkUnusedUsers(reg, name, path, c, KeyOf(reg[j]), c);
    UsersAt(reg, j, c);
  }

  /** A mark does to the list what it does to the relation exactly when the first selected volume is enough. */
  lemma {:induction false} MarkUsedRefines(reg: Registry, name: string, path: string, c: string)
    requires RegistryOk(reg)
    ensures Abstract(MarkedUsed(reg, name, path, c)) == AbstractNext(Abstract(reg), MarkUsed(name, path, c)) <==>
            FirstIsEnough(reg, MarkUsed(name, path, c))
  {
    var i := MatchIndex(reg, name, path);
    var got, want := Abstract(MarkedUsed(reg, name, path, c)), AbstractNext(Abstract(reg), MarkUsed(name, path, c));
    if FirstIsEnough(reg, MarkUsed(name, path, c)) {
      MarkUsedUsers(reg, name, path, c, Key("", ""), c);
      forall k, x
        ensures (k, x) in got.users <==> (k, x) in want.users
      {
        MarkUsedUsers(reg, name, path, c, k, x);
        SelectedMatches(reg, name, path, k);
        if x == c && k in Abstract(reg).volumes && Selected(k, name, path) {
          var j :| 0 <= j < |reg| && KeyOf(reg[j]) == k && Matches(reg[j], name, path);
          MarkUsedAt(reg, name, path, c, j);
        }
      }
      assert got.users == want.users;
    } else {
      var j :| i < j < |reg| && Matches(reg[j], name, path) && c !in reg[j].usedBy;
      MarkUsedAt(reg, name, path, c, j);
    }
  }

  lemma {:induction false} MarkUnusedRefines(reg: Registry, name: string, path: string, c: string)
    requires RegistryOk(reg)
    ensures Abstract(MarkedUnused(reg, name, path, c)) == AbstractNext(Abstract(reg), MarkUnused(name, path, c)) <==>
            FirstIsEnough(reg, MarkUnused(name, path, c))
  {
    var i := MatchIndex(reg, name, path);
    var got, want := Abstract(MarkedUnused(reg, name, path, c)), AbstractNext(Abstract(reg), MarkUnused(name, path, c));
    if FirstIsEnough(reg, MarkUnused(name, path, c)) {
      MarkUnusedUsers(reg, name, path, c, Key("", ""), c);
      forall k, x
        ensures (k, x) in got.users <==> (k, x) in want.users
      {
        MarkUnusedUsers(reg, name, path, c, k, x);
        InUsers(reg, k, x);
        if x == c && (k, x) in Abstract(reg).users && Selected(k, name, path) {
          var j :| 0 <= j < |reg| && KeyOf(reg[j]) == k && c in reg[j].usedBy;
          MarkUnusedAt(reg, name, path, c, j);
        }
      }
      assert got.users == want.users;
    } else {
      var j :| i < j < |reg| && Matches(reg[j], name, path) && c in reg[j].usedBy;
      MarkUnusedAt(reg, name, path, c, j);
    }
  }

  lemma UsedIsNotUnregistered(reg: Registry, name: string, path: string)
    requires AnyUsedMatch(reg, name, path)
    ensures exists p | p in Abstract(reg).users :: Selected(p.0, name, path)
  {
    var v :| v in reg && UsedMatch(v, name, path);
    assert (KeyOf(v), v.usedBy[0]) in Abstract(reg).users;
  }

  /** When no selected volume is used, exactly the selected ones go and all users stay. */
  lemma {:induction false} UnusedIsUnregistered(reg: Registry, name: string, path: string)
    requires !AnyUsedMatch(reg, name, path)
    ensures Abstract(Unregistered(reg, name, path)) == AbstractNext(Abstract(reg), Unregister(name, path))
  {
    var u, reg' := Abstract(reg), Unregistered(reg, name, path);
    assert forall p | p in u.users :: !Selected(p.0, name, path);
    forall k
      ensures k in Abstract(reg').volumes <==> k in u.volumes && !Selected(k, name, path)
    {
      if k in u.volumes && !Selected(k, name, path) {
        var v :| v in reg && KeyOf(v) == k;
        assert v in reg';
      }
    }
    forall p
      ensures p in Abstract(reg').users <==> p in u.users
    {
      if p in u.users {
        var v :| v in reg && KeyOf(v) == p.0 && p.1 in v.usedBy;
        assert v in reg';
      }
    }
    assert Abstract(reg').volumes == set k | k in u.volumes && !Selected(k, name, path);
    assert Abstract(reg').users == u.users;
  }

  lemma {:induction false} UnregisterRefines(reg: Registry, name: string, path: string)
    ensures Abstract(Next(reg, Unregister(name, path))) == AbstractNext(Abstract(reg), Unregister(name, path))
  {
    if AnyUsedMatch(reg, name, path) {
      UsedIsNotUnregistered(reg, name, path);
    } else {
      UnusedIsUnregistered(reg, name, path);
      if !AnyMatch(reg, name, path) {
        FilterAll(NotSelected(name, path), reg);
      }
    }
  }

  lemma RegisterRefines(reg: Registry, name: string, path: string, created: string)
    requires RegistryOk(reg)
    ensures Abstract(Next(reg, Register(name, path, created))) ==
            AbstractNext(Abstract(reg), Register(name, path, created))
  {
    var u := Abstract(reg);
    if Clashes(reg, name, path) {
      var v :| v in reg && (v.name == name || v.path == path);
      assert KeyOf(v) in u.volumes;
    } else {
      var added := Volume(name, path, created, []);
      var reg' := Registered(reg, name, path, created);
      assert forall v :: v in reg' <==> v in reg || v == added;
      assert Abstract(reg').volumes == u.volumes + {Key(name, path)};
      assert Abstract(reg').users == u.users;
    }
  }

  /** The list refines the relation: an operation does to the list what it does to the relation exactly when the first
   *  selected volume is enough for it. */
  lemma NextRefines(reg: Registry, op: Op)
    requires RegistryOk(reg)
    ensures Abstract(Next(reg, op)) == AbstractNext(Abstract(reg), op) <==> FirstIsEnough(reg, op)
  {
    match op
    case Register(name, path, created) => RegisterRefines(reg, name, path, created);
    case Unregister(name, path) => UnregisterRefines(reg, name, path);
    case MarkUsed(name, path, c) => MarkUsedRefines(reg, name, path, c);
    case MarkUnused(name, path, c) => MarkUnusedRefines(reg, name, path, c);
  }

  // ---------- Usage over runs ----------

  predicate Marks(op: Op, k: Key, c: string) {
    op.MarkUsed? && op.c == c && Selected(k, op.name, op.path)
  }

  predicate Unmarks(op: Op, k: Key, c: string) {
    op.MarkUnused? && op.c == c && Selected(k, op.name, op.path)
  }

  /** Operation i marked the volume, which was registered then, and no later operation unmarked it. */
  predicate MarkedAt(ops: seq<Op>, k: Key, c: string, i: nat)
    requires i < |ops|
  {
    && Marks(ops[i], k, c)
    && k in Abstract(Run(ops[..i])).volumes
    && forall j | i < j < |ops| :: !Unmarks(ops[j], k, c)
  }

  ghost predicate MarkedSince(ops: seq<Op>, k: Key, c: string) {
    exists i | 0 <= i < |ops| :: MarkedAt(ops, k, c, i)
  }

  /** How the last operation changes what is marked. */
  lemma MarkedSinceStep(ops: seq<Op>, k: Key, c: string)
    requires ops != []
    ensures var front, op := ops[..|ops| - 1], ops[|ops| - 1];
            MarkedSince(ops, k, c) <==>
              (Marks(op, k, c) && k in Abstract(Run(front)).volumes) || (!Unmarks(op, k, c) && MarkedSince(front, k, c))
  {
    var front, op := ops[..|ops| - 1], ops[|ops| - 1];
    if !Unmarks(op, k, c) {
      forall i | 0 <= i < |front|
        ensures MarkedAt(ops, k, c, i) <==> MarkedAt(front, k, c, i)
      {
        assert MarkedAt(ops, k, c, i) <==> MarkedAt(ops[..|ops| - 1], k, c, i) by {
          var front := ops[..|ops| - 1];
          assert front[..i] == ops[..i];
          assert forall j | 0 <= j < |front| :: front[j] == ops[j];
        }
      }
      assert MarkedAt(ops, k, c, |front|) <==> Marks(op, k, c) && k in Abstract(Run(front)).volumes;
      if MarkedSince(front, k, c) {
        var i :| 0 <= i < |front| && MarkedAt(front, k, c, i);
        assert MarkedAt(ops, k, c, i);
      }
    }
  }

  /** What an operation does to one pair of the relation. */
  lemma PairAfter(u: Usage, op: Op, k: Key, c: string)
    requires (k, c) in u.users ==> k in u.volumes
    ensures (k, c) in AbstractNext(u, op).users <==>
            (Marks(op, k, c) && k in u.volumes) || (!Unmarks(op, k, c) && (k, c) in u.users)
  {
  }

  /** Over every run of such operations from an empty registry: a container is a user of a volume exactly when it was
   *  marked while the volume was registered and has not been unmarked since. */
  lemma {:induction false} UsageIsExact(ops: seq<Op>, k: Key, c: string)
    requires forall i | 0 <= i < |ops| :: FirstIsEnough(Run(ops[..i]), ops[i])
    ensures (k, c) in Abstract(Run(ops)).users <==> MarkedSince(ops, k, c)
  {
    if ops != [] {
      var front, op := ops[..|ops| - 1], ops[|ops| - 1];
      RunIsOk(front);
      forall i | 0 <= i < |front|
        ensures front[..i] == ops[..i] && front[i] == ops[i]
      {
      }
      UsageIsExact(front, k, c);
      NextRefines(Run(front), op);
      PairAfter(Abstract(Run(front)), op, k, c);
      MarkedSinceStep(ops, k, c);
    }
  }

  /** A used volume is never unregistered, by any operation. */
  lemma UsedStaysRegistered(reg: Registry, op: Op, k: Key, c: string)
    requires RegistryOk(reg) && (k, c) in Abstract(reg).users
    ensures k in Abstract(Next(reg, op)).volumes
  {
    assert k in Abstract(reg).volumes;
    match op
    case Register(name, path, created) => RegisterRefines(reg, name, path, created);
    case Unregister(name, path) => UnregisterRefines(reg, name, path);
    case MarkUsed(name, path, x) => MarkUsedUsers(reg, name, path, x, k, c);
    case MarkUnused(name, path, x) => MarkUnusedUsers(reg, name, path, x, k, c);
  }

  // ---------- The registry file ----------

  lemma MatchFound(reg: Registry, name: string, path: string, j: nat)
    requires j < |reg| && Matches(reg[j], name, path)
    ensures AnyMatch(reg, name, path) && (reg[j].usedBy != [] ==> AnyUsedMatch(reg, name, path))
  {
    assert reg[j] in reg;
  }

  /** The loop of UnregisterVolume: what stays, whether a volume is selected, and whether it stops at one in use. */
  method Survivors(reg: Registry, name: string, path: string) returns (kept: Registry, found: bool, used: bool)
    ensures used <==> AnyUsedMatch(reg, name, path)
    ensures !used ==> kept == Unregistered(reg, name, path) && (found <==> AnyMatch(reg, name, path))
  {
    kept, found, used := [], false, false;
    ghost var at := 0;
    for i := 0 to |reg|
      invariant !used
      invariant kept == Unregistered(reg[..i], name, path)
      invariant found ==> 0 <= at < |reg| && Matches(reg[at], name, path)
      invariant forall j | 0 <= j < i :: Matches(reg[j], name, path) ==> found && reg[j].usedBy == []
    {
      FilterStep(NotSelected(name, path), reg, i);
      if Matches(reg[i], name, path) {
        found, at := true, i;
        if reg[i].usedBy != [] {
          MatchFound(reg, name, path, i);
          used := true;
          return;
        }
        continue;
      }
      kept := kept + [reg[i]];
    }
    assert !AnyUsedMatch(reg, name, path) && (AnyMatch(reg, name, path) ==> found);
    if found {
      MatchFound(reg, name, path, at);
    }
    assert reg[..|reg|] == reg;
  }

  /** The inner loop of MarkVolumeUnused. */
  method UsersWithout(users: seq<string>, c: string) returns (newUsed: seq<string>)
    ensures newUsed == Filter(NotAmong({c}), users)
  {
    newUsed := [];
    for k := 0 to |users|
      invariant newUsed == Filter(NotAmong({c}), users[..k])
    {
      FilterStep(NotAmong({c}), users, k);
      if users[k] != c {
        newUsed := newUsed + [users[k]];
      }
    }
    assert users[..|users|] == users;
  }

  class VolumeRegistry {
    var volumes: Registry

    constructor ()
      ensures volumes == []
    {
      volumes := [];
    }

    method RegisterVolume(name: string, path: string, now: string) returns (r: Result<()>)
      modifies this
      ensures volumes == Next(old(volumes), Register(name, path, now))
      ensures r == if Clashes(old(volumes), name, path) then Err(Exists) else Ok(())
    {
      for i := 0 to |volumes|
        invariant volumes == old(volumes)
        invariant forall j | 0 <= j < i :: volumes[j].name != name && volumes[j].path != path
      {
        if volumes[i].name == name || volumes[i].path == path {
          assert volumes[i] in volumes;
          return Err(Exists);
        }
      }
      volumes := volumes + [Volume(name, path, now, [])];
      return Ok(());
    }

    method UnregisterVolume(name: string, path: string) returns (r: Result<()>)
      modifies this
      ensures volumes == Next(old(volumes), Unregister(name, path))
      ensures r == if AnyUsedMatch(old(volumes), name, path) then Err(InUse)
                   else if AnyMatch(old(volumes), name, path) then Ok(()) else Err(NotFound)
    {
      var newVolumes, found, used := Survivors(volumes, name, path);
      if used {
        return Err(InUse);
      }
      if !found {
        return Err(NotFound);
      }
      volumes := newVolumes;
      return Ok(());
    }

    method MarkVolumeUsed(name: string, path: string, c: string)
      modifies this
      ensures volumes == Next(old(volumes), MarkUsed(name, path, c))
    {
      for i := 0 to |volumes|
        invariant volumes == old(volumes)
        invariant forall j | 0 <= j < i :: !Matches(volumes[j], name, path)
      {
        if Matches(volumes[i], name, path) {
          for k := 0 to |volumes[i].usedBy|
            invariant volumes == old(volumes)
            invariant c !in volumes[i].usedBy[..k]
          {
            if volumes[i].usedBy[k] == c {
              return;
            }
          }
          volumes := volumes[i := volumes[i].(usedBy := volumes[i].usedBy + [c])];
          return;
        }
      }
    }

    method MarkVolumeUnused(name: string, path: string, c: string)
      modifies this
      ensures volumes == Next(old(volumes), MarkUnused(name, path, c))
    {
      for i := 0 to |volumes|
        invariant volumes == old(volumes)
        invariant forall j | 0 <= j < i :: !Matches(volumes[j], name, path)
      {
        if Matches(volumes[i], name, path) {
          var newUsed := UsersWithout(volumes[i].usedBy, c);
          volumes := volumes[i := volumes[i].(usedBy := newUsed)];
          return;
        }
      }
    }

    method FindVolume(name: string, path: string) returns (r: Option<Volume>)
      ensures var i := MatchIndex(volumes, name, path);
              r == if i < |volumes| then Some(volumes[i]) else None
    {
      for i := 0 to |volumes|
        invariant forall j | 0 <= j < i :: !Matches(volumes[j], name, path)
      {
        if Matches(volumes[i], name, path) {
          return Some(volumes[i]);
        }
      }
      return None;
    }
  }

  // ---------- Deleting a volume ----------

  lemma OneIsUnregistered(reg: Registry, name: string, path: string, i: nat)
    requires RegistryOk(reg) && (name == "" || path == "")
    requires i == MatchIndex(reg, name, path) && i < |reg| && reg[i].usedBy == []
    ensures !AnyUsedMatch(reg, name, path) && AnyMatch(reg, name, path)
    ensures Unregistered(reg, name, path) == reg[..i] + reg[i + 1..]
  {
    assert reg[i] in reg;
    forall j | 0 <= j < |reg| && j != i
      ensures !Matches(reg[j], name, path)
    {
    }
    FilterAllBut(NotSelected(name, path), reg, i);
  }

  lemma SameUsage(reg: Registry, i: nat, now: string)
    requires RegistryOk(reg) && i < |reg| && reg[i].usedBy == []
    ensures Abstract(reg[..i] + reg[i + 1..] + [reg[i].(created := now)]) == Abstract(reg)
  {
    var again := reg[i].(created := now);
    var reg' := reg[..i] + reg[i + 1..] + [again];
    assert reg == reg[..i] + [reg[i]] + reg[i + 1..];
    assert forall v | v in reg' :: v in reg || v == again;
    assert forall v | v in reg :: v in reg' || v == reg[i];
    assert again in reg' && reg[i] in reg;
    assert KeyOf(again) == KeyOf(reg[i]);
    forall k
      ensures k in Abstract(reg').volumes <==> k in Abstract(reg).volumes
    {
    }
    forall p
      ensures p in Abstract(reg').users <==> p in Abstract(reg).users
    {
    }
  }

  /** An unused selected volume is taken out, and can be put back. */
  lemma DeleteSteps(reg: Registry, name: string, path: string, i: nat, now: string)
    requires RegistryOk(reg) && (name == "" || path == "")
    requires i == MatchIndex(reg, name, path) && i < |reg| && reg[i].usedBy == []
    ensures !AnyUsedMatch(reg, name, path) && AnyMatch(reg, name, path)
    ensures var without := reg[..i] + reg[i + 1..];
            && Next(reg, Unregister(name, path)) == without && RegistryOk(without)
            && !Clashes(without, reg[i].name, reg[i].path)
            && RegistryOk(without + [reg[i].(created := now)])
            && Abstract(without + [reg[i].(created := now)]) == Abstract(reg)
  {
    OneIsUnregistered(reg, name, path, i);
    NextKeepsOk(reg, Unregister(name, path));
    assert !Clashes(reg[..i] + reg[i + 1..], reg[i].name, reg[i].path);
    NextKeepsOk(reg[..i] + reg[i + 1..], Register(reg[i].name, reg[i].path, now));
    SameUsage(reg, i, now);
  }

  /** volumeDelete; `removed` says whether the directory could be removed. A failed removal puts the volume back. */
  method VolumeDelete(registry: VolumeRegistry, name: string, path: string, removed: bool, now: string)
    returns (r: Result<()>)
    requires RegistryOk(registry.volumes)
    modifies registry
    ensures RegistryOk(registry.volumes)
    ensures r.Err? && r.error != RemoveFailed ==> registry.volumes == old(registry.volumes)
    ensures r == Err(BadSelector) <==> (name == "") == (path == "")
    ensures (name == "") != (path == "") ==>
              var i := MatchIndex(old(registry.volumes), name, path);
              if i == |old(registry.volumes)| then r == Err(NotFound)
              else if old(registry.volumes)[i].usedBy != [] then r == Err(InUse)
              else
                && r == (if removed then Ok(()) else Err(RemoveFailed))
                && registry.volumes == old(registry.volumes)[..i] + old(registry.volumes)[i + 1..] +
                                       (if removed then [] else [old(registry.volumes)[i].(created := now)])
    ensures r == Err(RemoveFailed) ==> Abstract(registry.volumes) == Abstract(old(registry.volumes))
  {
    if (name != "" && path != "") || (name == "" && path == "") {
      return Err(BadSelector);
    }
    var vol := registry.FindVolume(name, path);
    if vol.None? {
      return Err(NotFound);
    }
    if vol.value.usedBy != [] {
      return Err(InUse);
    }
    ghost var before := registry.volumes;
    DeleteSteps(before, name, path, MatchIndex(before, name, path), now);
    var gone := registry.UnregisterVolume(name, path);
    assert gone.Ok?;
    if !removed {
      var again := registry.RegisterVolume(vol.value.name, vol.value.path, now);
      assert again.Ok?;
      return Err(RemoveFailed);
    }
    return Ok(());
  }
}
