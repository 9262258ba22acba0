/** The name registry: which container registered which name. */
module Names {
  import opened Text
  import opened Wrappers

  datatype NameEntry = NameEntry(name: string, container: string, created: string)

  type Registry = seq<NameEntry>

  predicate NameTaken(reg: Registry, name: string) {
    exists n | n in reg :: n.name == name
  }

  function NotFrom(ids: set<string>): NameEntry -> bool {
    (n: NameEntry) => n.container !in ids
  }

  function Unregistered(reg: Registry, id: string): Registry {
    Filter(NotFrom({id}), reg)
  }

  datatype Op = Register(name: string, container: string, created: string) | Unregister(container: string)

  /** What an operation saves, or nothing when it returns an error. */
  function Apply(op: Op, reg: Registry): Option<Registry> {
    match op
    case Register(name, id, created) =>
      if NameTaken(reg, name) then None else Some(reg + [NameEntry(name, id, created)])
    case Unregister(id) => Some(Unregistered(reg, id))
  }

  ghost predicate NamesOk(reg: Registry) {
    forall i, j | 0 <= i < j < |reg| :: reg[i].name != reg[j].name
  }

  lemma {:induction false} FilterKeepsOk(keep: NameEntry -> bool, reg: Registry)
    requires NamesOk(reg)
    ensures NamesOk(Filter(keep, reg))
  {
    if reg != [] {
      assert forall n | n in reg[1..] :: n.name != reg[0].name;
      FilterKeepsOk(keep, reg[1..]);
    }
  }

  lemma ApplyKeepsOk(op: Op, reg: Registry)
    requires NamesOk(reg) && Apply(op, reg).Some?
    ensures NamesOk(Apply(op, reg).value)
  {
    if op.Unregister? {
      FilterKeepsOk(NotFrom({op.container}), reg);
    }
  }

  // ---------- The lookups ----------

  /** The container of the first entry with a name. */
  function HolderOf(reg: Registry, name: string): Option<string> {
    if reg == [] then None
    else if reg[0].name == name then Some(reg[0].container)
    else HolderOf(reg[1..], name)
  }

  /** The name in the first entry of a container. */
  function NameOf(reg: Registry, id: string): Option<string> {
    if reg == [] then None
    else if reg[0].container == id then Some(reg[0].name)
    else NameOf(reg[1..], id)
  }

  lemma {:induction false} HolderIsEntry(reg: Registry, name: string)
    ensures HolderOf(reg, name).Some? <==> NameTaken(reg, name)
    ensures HolderOf(reg, name).Some? ==>
              exists n | n in reg :: n.name == name && n.container == HolderOf(reg, name).value
  {
    if reg != [] {
      HolderIsEntry(reg[1..], name);
      assert reg == [reg[0]] + reg[1..];
    }
  }

  lemma {:induction false} NameIsEntry(reg: Registry, id: string)
    ensures NameOf(reg, id).None? ==> forall n | n in reg :: n.container != id
    ensures NameOf(reg, id).Some? ==> exists n | n in reg :: n.container == id && n.name == NameOf(reg, id).value
  {
    if reg != [] {
      NameIsEntry(reg[1..], id);
      assert reg == [reg[0]] + reg[1..];
    }
  }

  /** With distinct names, every entry is what the lookup of its name finds. */
  lemma EntryIsHolder(reg: Registry, n: NameEntry)
    requires NamesOk(reg) && n in reg
    ensures HolderOf(reg, n.name) == Some(n.container)
  {
    HolderIsEntry(reg, n.name);
    var m :| m in reg && m.name == n.name && m.container == HolderOf(reg, n.name).value;
    var i :| 0 <= i < |reg| && reg[i] == m;
    var j :| 0 <= j < |reg| && reg[j] == n;
    assert i == j;
  }

  /** The name that is found for a container leads back to this container. */
  lemma NameLeadsBack(reg: Registry, id: string)
    requires NamesOk(reg) && NameOf(reg, id).Some?
    ensures HolderOf(reg, NameOf(reg, id).value) == Some(id)
  {
    NameIsEntry(reg, id);
    var n :| n in reg && n.container == id && n.name == NameOf(reg, id).value;
    EntryIsHolder(reg, n);
  }

  lemma {:induction false} LookupsInConcat(a: Registry, b: Registry, key: string)
    ensures HolderOf(a + b, key) == if HolderOf(a, key).Some? then HolderOf(a, key) else HolderOf(b, key)
    ensures NameOf(a + b, key) == if NameOf(a, key).Some? then NameOf(a, key) else NameOf(b, key)
  {
    if a == [] {
      assert a + b == b;
    } else {
      assert (a + b)[1..] == a[1..] + b;
      LookupsInConcat(a[1..], b, key);
    }
  }

  /** A registration is found under its name, and gives its container a name if it had none. */
  lemma LookupsAfterRegister(reg: Registry, n: NameEntry, key: string)
    requires !NameTaken(reg, n.name)
    ensures HolderOf(reg + [n], key) == if key == n.name then Some(n.container) else HolderOf(reg, key)
    ensures NameOf(reg + [n], key) ==
            if key == n.container && NameOf(reg, key).None? then Some(n.name) else NameOf(reg, key)
  {
    LookupsInConcat(reg, [n], key);
    HolderIsEntry(reg, key);
    assert [n][1..] == [];
  }

  lemma {:induction false} NameAfterUnregister(reg: Registry, id: string, key: string)
    ensures NameOf(Unregistered(reg, id), key) == if key == id then None else NameOf(reg, key)
  {
    if reg != [] {
      NameAfterUnregister(reg[1..], id, key);
      LookupsInConcat(if reg[0].container == id then [] else [reg[0]], Unregistered(reg[1..], id), key);
      assert [reg[0]][1..] == [];
    }
  }

  /** After an unregistration the names of the container lead nowhere, and all others where they led before. */
  lemma HolderAfterUnregister(reg: Registry, id: string, key: string)
    requires NamesOk(reg)
    ensures HolderOf(Unregistered(reg, id), key) == if HolderOf(reg, key) == Some(id) then None else HolderOf(reg, key)
  {
    HolderIsEntry(reg, key);
    HolderIsEntry(Unregistered(reg, id), key);
    FilterKeepsOk(NotFrom({id}), reg);
    if NameTaken(Unregistered(reg, id), key) {
      var n :| n in Unregistered(reg, id) && n.name == key;
      EntryIsHolder(reg, n);
      EntryIsHolder(Unregistered(reg, id), n);
    } else if NameTaken(reg, key) {
      var n :| n in reg && n.name == key;
      EntryIsHolder(reg, n);
    }
  }

  class NameRegistry {
    var names: Registry

    constructor ()
      ensures names == []
    {
      names := [];
    }

    method NameExists(name: string) returns (found: bool)
      ensures found <==> NameTaken(names, name)
    {
      for i := 0 to |names|
        invariant forall j | 0 <= j < i :: names[j].name != name
      {
        if names[i].name == name {
          assert names[i] in names;
          return true;
        }
      }
      return false;
    }

    method RegisterName(name: string, id: string, now: string) returns (ok: bool)
      modifies this
      ensures ok <==> !NameTaken(old(names), name)
      ensures names == if ok then old(names) + [NameEntry(name, id, now)] else old(names)
    {
      var taken := NameExists(name);
      if taken {
        return false;
      }
      names := names + [NameEntry(name, id, now)];
      return true;
    }

    method UnregisterName(id: string)
      modifies this
      ensures names == Unregistered(old(names), id)
    {
      var updated: Registry := [];
      for i := 0 to |names|
        invariant names == old(names)
        invariant updated == Unregistered(names[..i], id)
      {
        FilterStep(NotFrom({id}), names, i);
        if names[i].container != id {
          updated := updated + [names[i]];
        }
      }
      assert names[..|names|] == names;
      names := updated;
    }

    method GetName(id: string) returns (r: Option<string>)
      ensures r == NameOf(names, id)
    {
      for i := 0 to |names|
        invariant NameOf(names, id) == NameOf(names[i..], id)
      {
        assert names[i..][1..] == names[i + 1..];
        if names[i].container == id {
          return Some(names[i].name);
        }
      }
      return None;
    }

    method GetContainerIDByName(name: string) returns (r: Option<string>)
      ensures r == HolderOf(names, name)
    {
      for i := 0 to |names|
        invariant HolderOf(names, name) == HolderOf(names[i..], name)
      {
        assert names[i..][1..] == names[i + 1..];
        if names[i].name == name {
          return Some(names[i].container);
        }
      }
      return None;
    }
  }
}
