/** Networks and their addresses: free subnets, free hosts, and the hosts files that follow. */
module Ipam {
  import opened Text

  import opened Addresses
  import Global
  import opened Hosts
  import opened Resolver
  import opened Wrappers

  datatype Net = Net(name: string, subnet: string, gateway: string, containers: map<string, Info>)

  /** The stored network configs, one file per name. */
  type Configs = map<string, Net>

  datatype Error = NotFound | BadGateway | NoFreeAddress | NoFreeSubnet | SaveFailed

  datatype Result<T> = Ok(value: T) | Err(error: Error)

  // ---------- Allocation in one network ----------

  predicate Taken(containers: map<string, Info>, ip: string) {
    exists id | id in containers :: containers[id].ip == ip
  }

  /** The smallest free host number from `i` on, or 255. */
  function FreeFrom(containers: map<string, Info>, base: string, i: nat): (host: nat)
    requires i <= LAST_HOST + 1
    ensures i <= host <= LAST_HOST + 1
    ensures forall j | i <= j < host :: Taken(containers, Address(base, j))
    ensures host <= LAST_HOST ==> !Taken(containers, Address(base, host))
    decreases LAST_HOST + 1 - i
  {
    if i == LAST_HOST + 1 || !Taken(containers, Address(base, i)) then i
    else FreeFrom(containers, base, i + 1)
  }

  function AllocateResult(configs: Configs, network: string): Result<string> {
    if network !in configs then Err(NotFound)
    else
      var net := configs[network];
      var base := BaseOf(net.gateway);
      if base == [] then Err(BadGateway)
      else
        var host := FreeFrom(net.containers, base[0], FIRST_HOST);
        if host > LAST_HOST then Err(NoFreeAddress) else Ok(Address(base[0], host))
  }

  /** GetContainerIP: the stored address of a container. */
  function AddressOf(configs: Configs, network: string, id: string): Result<string> {
    if network in configs && id in configs[network].containers then Ok(configs[network].containers[id].ip)
    else Err(NotFound)
  }

  function Save(configs: Configs, net: Net): Configs {
    configs[net.name := net]
  }

  function Allocated(configs: Configs, network: string, info: Info): Configs
    requires network in configs
  {
    var net := configs[network];
    Save(configs, net.(containers := net.containers[info.id := info]))
  }

  function Released(configs: Configs, network: string, id: string): Configs {
    if network !in configs then configs
    else
      var net := configs[network];
      Save(configs, net.(containers := net.containers - {id}))
  }

  // ---------- Subnets ----------

  predicate SubnetUsed(configs: Configs, external: seq<string>, subnet: string) {
    (exists name | name in configs :: configs[name].subnet == subnet) || subnet in external
  }

  /** The smallest free subnet number from `i` on, or 255. */
  function FreeSubnetFrom(configs: Configs, external: seq<string>, i: nat): (n: nat)
    requires i <= MAX_SUBNET + 1
    ensures i <= n <= MAX_SUBNET + 1
    ensures forall j | i <= j < n ::
              SubnetOf(j) in external || exists name | name in configs :: configs[name].subnet == SubnetOf(j)
    ensures n <= MAX_SUBNET ==>
              SubnetOf(n) !in external && forall name | name in configs :: configs[name].subnet != SubnetOf(n)
    decreases MAX_SUBNET + 1 - i
  {
    if i == MAX_SUBNET + 1 || !SubnetUsed(configs, external, SubnetOf(i)) then i
    else FreeSubnetFrom(configs, external, i + 1)
  }

  function Created(configs: Configs, name: string, external: seq<string>): Configs {
    var n := FreeSubnetFrom(configs, external, MIN_SUBNET);
    if n > MAX_SUBNET then configs else Save(configs, Net(name, SubnetOf(n), GatewayOf(n), map[]))
  }

  predicate Unused(net: Net) {
    net.containers == map[] && net.name != Global.MAIN_NET
  }

  /** cleanNetworks: what stays has containers or is the main network. */
  function WithoutUnused(configs: Configs): Configs {
    map name | name in configs && !Unused(configs[name]) :: configs[name]
  }

  // ---------- Address safety ----------

  predicate IsHost(base: string, ip: string) {
    exists h | FIRST_HOST <= h <= LAST_HOST :: ip == Address(base, h)
  }

  /** The containers of a network have distinct addresses in its host range. */
  ghost predicate AddressesOk(containers: map<string, Info>, base: string) {
    && (forall id | id in containers :: IsHost(base, containers[id].ip))
    && (forall id, id' | id in containers && id' in containers && id != id' :: containers[id].ip != containers[id'].ip)
  }

  ghost predicate NetOk(net: Net, n: nat) {
    && MIN_SUBNET <= n <= MAX_SUBNET
    && net.subnet == SubnetOf(n) && net.gateway == GatewayOf(n)
    && AddressesOk(net.containers, NetworkBase(n))
  }

  ghost predicate Safe(configs: Configs) {
    && (forall name | name in configs :: configs[name].name == name && exists n :: NetOk(configs[name], n))
    && (forall a, b | a in configs && b in configs && a != b :: configs[a].subnet != configs[b].subnet)
  }

  /** In a safe store no address string is held twice, or is a gateway, across all networks. */
  lemma AddressesAreGlobal(configs: Configs, a: string, id: string, b: string, id': string)
    requires Safe(configs) && a in configs && b in configs
    requires id in configs[a].containers
    ensures configs[a].containers[id].ip != configs[b].gateway
    ensures id' in configs[b].containers && (a != b || id != id') ==>
              configs[a].containers[id].ip != configs[b].containers[id'].ip
  {
    var m :| NetOk(configs[a], m);
    var n :| NetOk(configs[b], n);
    var ip := configs[a].containers[id].ip;
    var h :| FIRST_HOST <= h <= LAST_HOST && ip == Address(NetworkBase(m), h);
    if ip == configs[b].gateway {
      AddressInjective(NetworkBase(m), h, NetworkBase(n), 1);
    }
    if id' in configs[b].containers && a != b && ip == configs[b].containers[id'].ip {
      var h' :| FIRST_HOST <= h' <= LAST_HOST && ip == Address(NetworkBase(n), h');
      AddressInjective(NetworkBase(m), h, NetworkBase(n), h');
      NetworkBaseInjective(m, n);
    }
  }

  // ---------- Completeness of allocation ----------

  function HostStrings(base: string, count: nat): set<string> {
    set h: nat | FIRST_HOST <= h < FIRST_HOST + count :: Address(base, h)
  }

  lemma LastHostIsNew(base: string, count: nat)
    ensures Address(base, FIRST_HOST + count) !in HostStrings(base, count)
  {
    forall h: nat | FIRST_HOST <= h < FIRST_HOST + count
      ensures Address(base, h) != Address(base, FIRST_HOST + count)
    {
      if Address(base, h) == Address(base, FIRST_HOST + count) {
        AddressInjective(base, h, base, FIRST_HOST + count);
      }
    }
  }

  lemma {:induction false} HostStringsCount(base: string, count: nat)
    ensures |HostStrings(base, count)| == count
  {
    if count == 0 {
      assert HostStrings(base, count) == {};
    } else {
      var s, last := HostStrings(base, count - 1), Address(base, FIRST_HOST + count - 1);
      HostStringsCount(base, count - 1);
      LastHostIsNew(base, count - 1);
      assert HostStrings(base, count) == s + {last};
    }
  }

  function HeldAddresses(containers: map<string, Info>): set<string> {
    set id | id in containers :: containers[id].ip
  }

  lemma {:induction false} HeldCount(containers: map<string, Info>)
    requires forall id, id' | id in containers && id' in containers && id != id' ::
               containers[id].ip != containers[id'].ip
    ensures |HeldAddresses(containers)| == |containers|
    decreases |containers|
  {
    if containers != map[] {
      var id :| id in containers;
      var rest := containers - {id};
      HeldCount(rest);
      assert containers.Keys == rest.Keys + {id};
      assert HeldAddresses(containers) == HeldAddresses(rest) + {containers[id].ip};
    } else {
      assert HeldAddresses(containers) == {};
    }
  }

  /** The held addresses are as many as the containers, among the 253 of the network. */
  lemma HeldAmongAll(containers: map<string, Info>, base: string)
    requires AddressesOk(containers, base)
    ensures |HeldAddresses(containers)| == |containers| && |HostStrings(base, 253)| == 253
    ensures HeldAddresses(containers) <= HostStrings(base, 253)
  {
    HeldCount(containers);
    HostStringsCount(base, 253);
    forall id | id in containers
      ensures containers[id].ip in HostStrings(base, 253)
    {
      assert IsHost(base, containers[id].ip);
    }
  }

  lemma FreeMeansRoom(containers: map<string, Info>, base: string, host: nat)
    requires AddressesOk(containers, base)
    requires FIRST_HOST <= host <= LAST_HOST && !Taken(containers, Address(base, host))
    ensures |containers| < 253
  {
    var ip := Address(base, host);
    HeldAmongAll(containers, base);
    assert ip in HostStrings(base, 253) && ip !in HeldAddresses(containers);
    var others := HostStrings(base, 253) - {ip};
    assert others == HeldAddresses(containers) + (others - HeldAddresses(containers));
  }

  lemma AllTakenMeansFull(containers: map<string, Info>, base: string)
    requires AddressesOk(containers, base)
    requires forall h | FIRST_HOST <= h <= LAST_HOST :: Taken(containers, Address(base, h))
    ensures |containers| == 253
  {
    HeldAmongAll(containers, base);
    forall ip | ip in HostStrings(base, 253)
      ensures ip in HeldAddresses(containers)
    {
      var h :| FIRST_HOST <= h < FIRST_HOST + 253 && ip == Address(base, h);
      assert Taken(containers, Address(base, h));
    }
    assert HeldAddresses(containers) == HostStrings(base, 253);
  }

  /** Pigeonhole: no host number is free exactly when 253 containers hold the 253 addresses. */
  lemma {:induction false} FullExactly(containers: map<string, Info>, base: string)
    requires AddressesOk(containers, base)
    ensures |containers| <= 253
    ensures FreeFrom(containers, base, FIRST_HOST) > LAST_HOST <==> |containers| == 253
  {
    var host := FreeFrom(containers, base, FIRST_HOST);
    if host > LAST_HOST {
      AllTakenMeansFull(containers, base);
    } else {
      FreeMeansRoom(containers, base, host);
    }
  }

  predicate SmallestFree(containers: map<string, Info>, base: string, host: nat, ip: string) {
    && ip == Address(base, host)
    && (forall id | id in containers :: containers[id].ip != ip)
    && forall j | 2 <= j < host :: exists id | id in containers :: containers[id].ip == Address(base, j)
  }

  /** An allocation in a well-formed network fails exactly when it holds 253 containers, and otherwise gives the
   *  smallest host number that no container holds. */
  lemma AllocationIsComplete(configs: Configs, network: string, n: nat)
    requires network in configs && NetOk(configs[network], n)
    ensures var containers := configs[network].containers;
            match AllocateResult(configs, network)
            case Err(e) => e == NoFreeAddress && |containers| == 253
            case Ok(ip) =>
              |containers| < 253 &&
              exists host | 2 <= host <= 254 :: SmallestFree(containers, NetworkBase(n), host, ip)
  {
    var containers, base := configs[network].containers, NetworkBase(n);
    BaseOfGateway(n);
    FullExactly(containers, base);
    var host := FreeFrom(containers, base, FIRST_HOST);
    if host <= LAST_HOST {
      assert SmallestFree(containers, base, host, Address(base, host));
    }
  }

  // ---------- Runs ----------

  /** Which calls of the file system work: saving the config, opening the hosts file, and editing it. */
  datatype IO = IO(canSave: bool, opens: bool, edits: bool)

  datatype NetOp =
    | Create(name: string, external: seq<string>, canSave: bool)
    | Allocate(network: string, id: string, container: string, io: IO)
    | Release(network: string, id: string, io: IO)
    | RemoveUnused

  /** The config files and the hosts files. */
  datatype Store = Store(configs: Configs, files: map<string, string>)

  function HostsText(files: map<string, string>, network: string): string {
    if network in files then files[network] else BASE_CONTENT
  }

  /** The container has an address and a name, and so a line in the hosts file. */
  predicate Listed(configs: Configs, network: string, id: string) {
    network in configs && id in configs[network].containers && configs[network].containers[id].name != ""
  }

  predicate Edits(io: IO) {
    io.opens && io.edits
  }

  /** A hosts file that is opened, which creates it, and then edited, unless one of the two fails. */
  function Edited(files: map<string, string>, network: string, io: IO, text: string): map<string, string> {
    if !io.opens then files
    else if !io.edits then files[network := HostsText(files, network)]
    else files[network := text]
  }

  /** A release edits the hosts file only for a container with a name. */
  function ReleasedFiles(configs: Configs, files: map<string, string>, network: string, id: string, io: IO):
    map<string, string>
  {
    if Listed(configs, network, id) then
      var info := configs[network].containers[id];
      Edited(files, network, io, Removed(HostsText(files, network), info.ip, info.name))
    else files
  }

  function Perform(s: Store, op: NetOp): Store {
    match op
    case Create(name, external, canSave) => if canSave then s.(configs := Created(s.configs, name, external)) else s
    case Allocate(network, id, container, io) =>
      (match AllocateResult(s.configs, network)
       case Err(_) => s
       case Ok(ip) =>
         if !io.canSave then s
         else Store(Allocated(s.configs, network, Info(id, container, ip)),
                    Edited(s.files, network, io, Added(HostsText(s.files, network), ip, container))))
    case Release(network, id, io) =>
      Store(if io.canSave then Released(s.configs, network, id) else s.configs,
            ReleasedFiles(s.configs, s.files, network, id, io))
    case RemoveUnused => s.(configs := WithoutUnused(s.configs))
  }

  function PerformAll(s: Store, ops: seq<NetOp>): Store {
    if ops == [] then s else Perform(PerformAll(s, ops[..|ops| - 1]), ops[|ops| - 1])
  }

  function Stored(ops: seq<NetOp>): Store {
    PerformAll(Store(map[], map[]), ops)
  }

  lemma SaveKeepsSafe(configs: Configs, net: Net, n: nat)
    requires Safe(configs) && NetOk(net, n)
    requires forall a | a in configs && a != net.name :: configs[a].subnet != net.subnet
    ensures Safe(Save(configs, net))
  {
    var configs' := Save(configs, net);
    forall a | a in configs'
      ensures configs'[a].name == a && exists k :: NetOk(configs'[a], k)
    {
      if a != net.name {
        assert configs'[a] == configs[a];
      }
    }
  }

  lemma CreateKeepsSafe(configs: Configs, name: string, external: seq<string>)
    requires Safe(configs)
    ensures Safe(Created(configs, name, external))
  {
    var n := FreeSubnetFrom(configs, external, MIN_SUBNET);
    if n <= MAX_SUBNET {
      SaveKeepsSafe(configs, Net(name, SubnetOf(n), GatewayOf(n), map[]), n);
    }
  }

  lemma ReplaceKeepsSafe(configs: Configs, network: string, containers: map<string, Info>, n: nat)
    requires Safe(configs) && network in configs && NetOk(configs[network], n)
    requires AddressesOk(containers, NetworkBase(n))
    ensures Safe(Save(configs, configs[network].(containers := containers)))
  {
    SaveKeepsSafe(configs, configs[network].(containers := containers), n);
  }

  lemma {:induction false} AllocatedAddress(configs: Configs, network: string, n: nat, info: Info)
    requires network in configs && NetOk(configs[network], n)
    requires AllocateResult(configs, network) == Ok(info.ip)
    ensures AddressesOk(configs[network].containers[info.id := info], NetworkBase(n))
  {
    AllocationIsComplete(configs, network, n);
    var host :| FIRST_HOST <= host <= LAST_HOST &&
                SmallestFree(configs[network].containers, NetworkBase(n), host, info.ip);
    assert IsHost(NetworkBase(n), info.ip);
  }

  lemma {:induction false} StepKeepsSafe(s: Store, op: NetOp)
    requires Safe(s.configs)
    ensures Safe(Perform(s, op).configs)
  {
    match op
    case Create(name, external, _) => CreateKeepsSafe(s.configs, name, external);
    case Allocate(network, id, container, _) =>
      if AllocateResult(s.configs, network).Ok? {
        var info := Info(id, container, AllocateResult(s.configs, network).value);
        var n :| NetOk(s.configs[network], n);
        AllocatedAddress(s.configs, network, n, info);
        ReplaceKeepsSafe(s.configs, network, s.configs[network].containers[id := info], n);
      }
    case Release(network, id, _) =>
      if network in s.configs {
        var n :| NetOk(s.configs[network], n);
        ReplaceKeepsSafe(s.configs, network, s.configs[network].containers - {id}, n);
      }
    case RemoveUnused =>
  }

  /** Over every run, the store is safe: distinct subnets, and addresses distinct across all networks. */
  lemma {:induction false} RunIsSafe(files: map<string, string>, ops: seq<NetOp>)
    ensures Safe(PerformAll(Store(map[], files), ops).configs)
  {
    if ops != [] {
      RunIsSafe(files, ops[..|ops| - 1]);
      StepKeepsSafe(PerformAll(Store(map[], files), ops[..|ops| - 1]), ops[|ops| - 1]);
    }
  }

  lemma AddressAfterSave(configs: Configs, network: string, containers: map<string, Info>, network': string,
                         id': string)
    requires Safe(configs) && network in configs
    ensures AddressOf(Save(configs, configs[network].(containers := containers)), network', id') ==
            if network' != network then AddressOf(configs, network', id')
            else if id' in containers then Ok(containers[id'].ip) else Err(NotFound)
  {
  }

  /** What is allocated and saved is found; every other container keeps its address, in every network. */
  lemma FoundAfterAllocate(s: Store, network: string, id: string, container: string, io: IO, network': string,
                           id': string)
    requires Safe(s.configs)
    ensures AddressOf(Perform(s, Allocate(network, id, container, io)).configs, network', id') ==
            if network' == network && id' == id && io.canSave && AllocateResult(s.configs, network).Ok?
            then AllocateResult(s.configs, network) else AddressOf(s.configs, network', id')
  {
    if AllocateResult(s.configs, network).Ok? {
      var ip := AllocateResult(s.configs, network).value;
      var containers := s.configs[network].containers[id := Info(id, container, ip)];
      AddressAfterSave(s.configs, network, containers, network', id');
    }
  }

  /** What is released and saved is found no longer; every other container keeps its address, in every network. */
  lemma LostAfterRelease(s: Store, network: string, id: string, io: IO, network': string, id': string)
    requires Safe(s.configs)
    ensures AddressOf(Perform(s, Release(network, id, io)).configs, network', id') ==
            if network' == network && id' == id && io.canSave then Err(NotFound)
            else AddressOf(s.configs, network', id')
  {
    if network in s.configs {
      AddressAfterSave(s.configs, network, s.configs[network].containers - {id}, network', id');
    }
  }

  // ---------- The main network ----------

  /** Once it is there, the main network stays over every run, with or without containers. */
  lemma {:induction false} MainNetworkStays(before: seq<NetOp>, ops: seq<NetOp>)
    requires Global.MAIN_NET in Stored(before).configs
    ensures Global.MAIN_NET in PerformAll(Stored(before), ops).configs
    ensures Safe(PerformAll(Stored(before), ops).configs)
  {
    if ops == [] {
      RunIsSafe(map[], before);
    } else {
      MainNetworkStays(before, ops[..|ops| - 1]);
      assert Global.MAIN_NET in Perform(PerformAll(Stored(before), ops[..|ops| - 1]), ops[|ops| - 1]).configs;
      StepKeepsSafe(PerformAll(Stored(before), ops[..|ops| - 1]), ops[|ops| - 1]);
    }
  }

  /** Of the other networks exactly those without containers are removed as unused. */
  lemma UnusedGoExactly(configs: Configs, name: string)
    requires Safe(configs)
    ensures name in WithoutUnused(configs) <==>
            name in configs && (configs[name].containers != map[] || name == Global.MAIN_NET)
    ensures name in WithoutUnused(configs) ==> WithoutUnused(configs)[name] == configs[name]
  {
  }

  // ---------- The hosts files follow ----------

  function ContainersOf(configs: Configs, network: string): map<string, Info> {
    if network in configs then configs[network].containers else map[]
  }

  ghost predicate HostsFollow(s: Store) {
    forall network :: Agrees(HostsText(s.files, network), ContainersOf(s.configs, network))
  }

  /** The container has the entry already. */
  predicate SameEntry(m: map<string, Info>, id: string, info: Info) {
    id in m && EntryLine(m[id].ip, m[id].name) == EntryLine(info.ip, info.name)
  }

  /** The config and the hosts file are changed both or not at all, and only lines that are meant. */
  ghost predicate Clear(s: Store, op: NetOp) {
    match op
    case Create(name, external, canSave) =>
      || !canSave || FreeSubnetFrom(s.configs, external, MIN_SUBNET) > MAX_SUBNET
      || ContainersOf(s.configs, name) == map[]
    case Allocate(network, id, container, io) =>
      (match AllocateResult(s.configs, network)
       case Err(_) => true
       case Ok(ip) =>
         var m, info := ContainersOf(s.configs, network), Info(id, container, ip);
         io.canSave ==> if Edits(io) then AddIsClear(m, id, info) else SameEntry(m, id, info))
    case Release(network, id, io) =>
      var m := ContainersOf(s.configs, network);
      id in m ==>
        var edited := m[id].name != "" && Edits(io);
        if io.canSave then edited && ReleaseIsClear(m, id) else !edited
    case RemoveUnused => true
  }

  /** Without an edit, a file agrees with one more container exactly when the entry is there already. */
  lemma UneditedAdd(content: string, m: map<string, Info>, id: string, info: Info)
    requires Agrees(content, m)
    ensures Agrees(content, m[id := info]) <==> SameEntry(m, id, info)
  {
    forall line
      ensures Lines(content)[line] == Wanted(m, line)
      ensures Wanted(m[id := info], line) == Wanted(m, line) <==>
              (line == EntryLine(info.ip, info.name) <==> id in m && line == EntryLine(m[id].ip, m[id].name))
    {
      WantedAfterPut(m, id, info, line);
    }
    var entry := EntryLine(info.ip, info.name);
    assert Lines(content)[entry] == Wanted(m, entry);
  }

  /** After an edit, a file does not agree with a container that stays in the config. */
  lemma RemovedIsWanted(content: string, m: map<string, Info>, id: string)
    requires id in m
    ensures !Agrees(Removed(content, m[id].ip, m[id].name), m)
  {
    var entry := EntryLine(m[id].ip, m[id].name);
    LinesRemoved(content, m[id].ip, m[id].name, entry);
    ContainsParts(m[id].ip, m[id].name);
    assert id in EntryIds(m, entry);
    assert Lines(Removed(content, m[id].ip, m[id].name))[entry] != Wanted(m, entry);
  }

  lemma OnlyEmptyAgreesWithBoth(content: string, m: map<string, Info>, id: string)
    requires Agrees(content, m) && id in m
    ensures !Agrees(content, m - {id}) && !Agrees(content, map[])
  {
    var line := EntryLine(m[id].ip, m[id].name);
    assert (m - {id})[id := m[id]] == m;
    EntryIdsGrow(m - {id}, id, m[id], line);
    assert Lines(content)[line] == Wanted(m, line);
    assert EntryIds(map[], line) == {};
    assert Wanted(m - {id}, line) < Wanted(m, line) && Wanted(map[], line) < Wanted(m, line);
  }

  /** A file agrees with containers and with none exactly when there are none. */
  lemma AgreesWithNone(content: string, m: map<string, Info>)
    requires Agrees(content, m)
    ensures Agrees(content, map[]) <==> m == map[]
  {
    if m != map[] {
      var id :| id in m;
      OnlyEmptyAgreesWithBoth(content, m, id);
    }
  }

  /** Only the network of the operation matters. */
  lemma FollowsByOne(s: Store, s': Store, network: string)
    requires HostsFollow(s)
    requires forall other | other != network ::
               HostsText(s'.files, other) == HostsText(s.files, other) &&
               ContainersOf(s'.configs, other) == ContainersOf(s.configs, other)
    ensures HostsFollow(s') <==> Agrees(HostsText(s'.files, network), ContainersOf(s'.configs, network))
  {
    forall other | other != network
      ensures Agrees(HostsText(s'.files, other), ContainersOf(s'.configs, other))
    {
      assert Agrees(HostsText(s.files, other), ContainersOf(s.configs, other));
    }
  }

  lemma CreateFollowsExactly(s: Store, name: string, external: seq<string>, canSave: bool)
    requires HostsFollow(s)
    ensures HostsFollow(Perform(s, Create(name, external, canSave))) <==> Clear(s, Create(name, external, canSave))
  {
    if canSave {
      var s' := s.(configs := Created(s.configs, name, external));
      forall other
        ensures ContainersOf(s'.configs, other) ==
                if other == name && FreeSubnetFrom(s.configs, external, MIN_SUBNET) <= MAX_SUBNET then map[]
                else ContainersOf(s.configs, other)
      {
      }
      FollowsByOne(s, s', name);
      assert Agrees(HostsText(s.files, name), ContainersOf(s.configs, name));
      AgreesWithNone(HostsText(s.files, name), ContainersOf(s.configs, name));
    }
  }

  /** What the files show after an edit that may fail. */
  lemma EditedShows(files: map<string, string>, network: string, io: IO, text: string, other: string)
    ensures HostsText(Edited(files, network, io, text), other) ==
            if other == network && Edits(io) then text else HostsText(files, other)
  {
  }

  /** New containers and a new text for one network. */
  lemma PutFollows(s: Store, s': Store, network: string, containers: map<string, Info>, text: string)
    requires Safe(s.configs) && HostsFollow(s) && network in s.configs
    requires || s'.configs == Save(s.configs, s.configs[network].(containers := containers))
             || (s'.configs == s.configs && containers == s.configs[network].containers)
    requires forall other :: HostsText(s'.files, other) == if other == network then text else HostsText(s.files, other)
    ensures HostsFollow(s') <==> Agrees(text, containers)
  {
    FollowsByOne(s, s', network);
  }

  lemma PerformAllocate(s: Store, network: string, id: string, container: string, io: IO)
    requires AllocateResult(s.configs, network).Ok? && io.canSave
    ensures network in s.configs
    ensures var ip := AllocateResult(s.configs, network).value;
            var net := s.configs[network];
            Perform(s, Allocate(network, id, container, io)) ==
            Store(Save(s.configs, net.(containers := net.containers[id := Info(id, container, ip)])),
                  Edited(s.files, network, io, Added(HostsText(s.files, network), ip, container)))
  {
  }

  lemma AllocateFollowsExactly(s: Store, network: string, id: string, container: string, io: IO)
    requires Safe(s.configs) && HostsFollow(s)
    ensures HostsFollow(Perform(s, Allocate(network, id, container, io))) <==>
            Clear(s, Allocate(network, id, container, io))
  {
    if AllocateResult(s.configs, network).Ok? && io.canSave {
      var ip := AllocateResult(s.configs, network).value;
      var info := Info(id, container, ip);
      var content, containers := HostsText(s.files, network), s.configs[network].containers;
      var added := Added(content, ip, container);
      assert Agrees(content, ContainersOf(s.configs, network));
      AddKeepsAgreement(content, containers, id, info);
      UneditedAdd(content, containers, id, info);
      PerformAllocate(s, network, id, container, io);
      forall other
        ensures HostsText(Edited(s.files, network, io, added), other) ==
                if other == network then if Edits(io) then added else content else HostsText(s.files, other)
      {
        EditedShows(s.files, network, io, added, other);
      }
      PutFollows(s, Perform(s, Allocate(network, id, container, io)), network, containers[id := info],
                 if Edits(io) then added else content);
    }
  }

  /** What a release leaves in the config and shows in the files. */
  lemma PerformRelease(s: Store, network: string, id: string, io: IO, other: string)
    requires network in s.configs
    ensures var m, s' := s.configs[network].containers, Perform(s, Release(network, id, io));
            && s'.configs == (if io.canSave then Save(s.configs, s.configs[network].(containers := m - {id}))
                              else s.configs)
            && HostsText(s'.files, other) ==
               if other == network && Listed(s.configs, network, id) && Edits(io)
               then Removed(HostsText(s.files, network), m[id].ip, m[id].name) else HostsText(s.files, other)
  {
    if Listed(s.configs, network, id) {
      var info := s.configs[network].containers[id];
      EditedShows(s.files, network, io, Removed(HostsText(s.files, network), info.ip, info.name), other);
    }
  }

  lemma ReleaseFollowsExactly(s: Store, network: string, id: string, io: IO)
    requires Safe(s.configs) && HostsFollow(s)
    ensures HostsFollow(Perform(s, Release(network, id, io))) <==> Clear(s, Release(network, id, io))
  {
    if network in s.configs {
      var content, m := HostsText(s.files, network), s.configs[network].containers;
      var s' := Perform(s, Release(network, id, io));
      assert Agrees(content, ContainersOf(s.configs, network));
      var edited := Listed(s.configs, network, id) && Edits(io);
      var text := if edited then Removed(content, m[id].ip, m[id].name) else content;
      var left := if io.canSave then m - {id} else m;
      forall other
        ensures HostsText(s'.files, other) == if other == network then text else HostsText(s.files, other)
      {
        PerformRelease(s, network, id, io, other);
      }
      PerformRelease(s, network, id, io, network);
      PutFollows(s, s', network, left, text);
      if id !in m {
        assert m - {id} == m;
      } else {
        RemoveKeepsAgreement(content, m, id);
        RemovedIsWanted(content, m, id);
        OnlyEmptyAgreesWithBoth(content, m, id);
      }
    }
  }

  /** One operation keeps every hosts file in agreement with its config exactly when it is clear. */
  lemma {:induction false} StepFollowsExactly(s: Store, op: NetOp)
    requires Safe(s.configs) && HostsFollow(s)
    ensures HostsFollow(Perform(s, op)) <==> Clear(s, op)
  {
    match op
    case Create(name, external, canSave) => CreateFollowsExactly(s, name, external, canSave);
    case Allocate(network, id, container, io) => AllocateFollowsExactly(s, network, id, container, io);
    case Release(network, id, io) => ReleaseFollowsExactly(s, network, id, io);
    case RemoveUnused =>
      forall network
        ensures ContainersOf(WithoutUnused(s.configs), network) == ContainersOf(s.configs, network)
      {
      }
      FollowsByOne(s, Perform(s, op), "");
      assert Agrees(HostsText(s.files, ""), ContainersOf(s.configs, ""));
  }

  lemma OneOpFollows(ops: seq<NetOp>, k: nat)
    requires k < |ops| && HostsFollow(Stored(ops[..k]))
    ensures HostsFollow(Stored(ops[..k + 1])) <==> Clear(Stored(ops[..k]), ops[k])
  {
    assert ops[..k + 1][..k] == ops[..k];
    RunIsSafe(map[], ops[..k]);
    StepFollowsExactly(Stored(ops[..k]), ops[k]);
  }

  lemma {:induction false} ClearRunFollows(ops: seq<NetOp>, k: nat)
    requires k <= |ops| && forall j | 0 <= j < k :: Clear(Stored(ops[..j]), ops[j])
    ensures HostsFollow(Stored(ops[..k]))
  {
    if k == 0 {
      BaseAgrees();
    } else {
      ClearRunFollows(ops, k - 1);
      OneOpFollows(ops, k - 1);
    }
  }

  /** Over every run the hosts files follow all the time exactly when every operation is clear. Then each has the base
   *  lines and one entry per container: by AgreementDeterminesLines the same non-blank lines as the rebuild. */
  lemma {:induction false} RunFollowsExactly(ops: seq<NetOp>)
    ensures (forall k | 0 <= k <= |ops| :: HostsFollow(Stored(ops[..k]))) <==>
            (forall k | 0 <= k < |ops| :: Clear(Stored(ops[..k]), ops[k]))
  {
    if forall k | 0 <= k <= |ops| :: HostsFollow(Stored(ops[..k])) {
      forall k | 0 <= k < |ops|
        ensures Clear(Stored(ops[..k]), ops[k])
      {
        assert HostsFollow(Stored(ops[..k])) && HostsFollow(Stored(ops[..k + 1]));
        OneOpFollows(ops, k);
      }
    }
    if forall k | 0 <= k < |ops| :: Clear(Stored(ops[..k]), ops[k]) {
      forall k | 0 <= k <= |ops|
        ensures HostsFollow(Stored(ops[..k]))
      {
        ClearRunFollows(ops, k);
      }
    }
  }

  lemma AddressIsWord(n: nat, host: nat)
    ensures Word(Address(NetworkBase(n), host))
  {
    assert forall c | c in Digits(n) + ['.'] + Digits(host) :: c == '.' || '0' <= c <= '9';
    assert forall c | c in BASE_IP :: c == '.' || '0' <= c <= '9';
    assert Address(NetworkBase(n), host) == BASE_IP + ['.'] + (Digits(n) + ['.'] + Digits(host));
  }

  /** In a safe store every address is read as one word. */
  lemma SafeAddressIsWord(configs: Configs, network: string, id: string)
    requires Safe(configs) && network in configs && id in configs[network].containers
    ensures Word(configs[network].containers[id].ip)
  {
    var n :| NetOk(configs[network], n);
    var ip := configs[network].containers[id].ip;
    assert IsHost(NetworkBase(n), ip);
    var h :| FIRST_HOST <= h <= LAST_HOST && ip == Address(NetworkBase(n), h);
    AddressIsWord(n, h);
  }

  /** A container that is allocated an address is found by its name, when its config and its line can be written. */
  lemma ResolvedAfterAllocate(s: Store, network: string, id: string, container: string, io: IO)
    requires Safe(s.configs) && Word(container) && io.canSave && Edits(io)
    ensures AllocateResult(s.configs, network).Ok? ==>
              var s' := Perform(s, Allocate(network, id, container, io));
              Resolved(HostsText(s'.files, network), container) == Some(AllocateResult(s.configs, network).value)
  {
    if AllocateResult(s.configs, network).Ok? {
      var ip := AllocateResult(s.configs, network).value;
      var op := Allocate(network, id, container, io);
      StepKeepsSafe(s, op);
      PerformAllocate(s, network, id, container, io);
      SafeAddressIsWord(Perform(s, op).configs, network, id);
      EditedShows(s.files, network, io, Added(HostsText(s.files, network), ip, container), network);
      AddedResolves(HostsText(s.files, network), ip, container);
    }
  }

  /** The names of a network are words, none is given twice, and none is a loopback name. */
  ghost predicate PlainNames(m: map<string, Info>) {
    && (forall id | id in m :: Word(m[id].name) && m[id].name !in BASE_NAMES)
    && (forall id, id' | id in m && id' in m && id != id' :: m[id].name != m[id'].name)
  }

  /** After every run of clear operations the resolver finds each container by its name, at its own address, and no
   *  container by any other name. */
  lemma {:induction false} RunResolves(ops: seq<NetOp>, network: string, name: string)
    requires forall k | 0 <= k < |ops| :: Clear(Stored(ops[..k]), ops[k])
    requires PlainNames(ContainersOf(Stored(ops).configs, network)) && name !in BASE_NAMES
    ensures var s := Stored(ops);
            var m := ContainersOf(s.configs, network);
            && (forall id | id in m :: Resolved(HostsText(s.files, network), m[id].name) == Some(m[id].ip))
            && ((forall id | id in m :: m[id].name != name) ==> Resolved(HostsText(s.files, network), name) == None)
  {
    var s := Stored(ops);
    var content, m := HostsText(s.files, network), ContainersOf(s.configs, network);
    RunIsSafe(map[], ops);
    ClearRunFollows(ops, |ops|);
    assert ops[..|ops|] == ops;
    assert Agrees(content, m);
    forall id | id in m
      ensures Word(m[id].ip)
    {
      SafeAddressIsWord(s.configs, network, id);
    }
    forall id | id in m
      ensures Resolved(content, m[id].name) == Some(m[id].ip)
    {
      AgreementResolves(content, m, id);
    }
    if forall id | id in m :: m[id].name != name {
      AgreementResolvesNoOther(content, m, name);
    }
  }

  /** A release that removes another container's line: its name then resolves to nothing. */
  lemma SpoiledNameIsLost(content: string, m: map<string, Info>, id: string, id': string)
    requires Agrees(content, m) && Readable(m) && id in m && id' in m
    requires Contains(EntryLine(m[id'].ip, m[id'].name), m[id].ip)
    ensures Resolved(Removed(content, m[id].ip, m[id].name), m[id'].name) == None
  {
    var ip, name, other := m[id].ip, m[id].name, m[id'].name;
    var kept := RemoveLines(Split(content, '\n'), ip, name);
    forall line | line in kept
      ensures !Gives(line, other)
    {
      if Gives(line, other) {
        LinesAreExpected(content, m, line);
        ExpectedGives(m, line, other);
      }
    }
    NothingGives(kept, other);
    LinesOfRemoved(content, ip, name, other);
  }

  /** Releasing host h spoils the file of its network whenever another container holds a host number whose decimal
   *  digits start with those of h: the address then occurs in that container's line. */
  lemma SharedDigitsSpoilRelease(containers: map<string, Info>, id: string, id': string, n: nat, host: nat, host': nat)
    requires id in containers && id' in containers && id != id'
    requires containers[id].ip == Address(NetworkBase(n), host)
    requires containers[id'].ip == Address(NetworkBase(n), host')
    requires HasPrefix(Digits(host'), Digits(host))
    ensures !ReleaseIsClear(containers, id)
  {
    var line := EntryLine(containers[id'].ip, containers[id'].name);
    AddressOccurs(NetworkBase(n), host, host', "       " + containers[id'].name);
    assert line == Address(NetworkBase(n), host') + ("       " + containers[id'].name);
    assert id' in containers - {id};
    assert Expected(containers - {id}, line);
  }

  // ---------- The managers ----------

  /** A rebuilt file agrees with the containers exactly when their entries are single lines; else its text stays. */
  ghost predicate Synced(before: map<string, string>, after: map<string, string>, network: string,
                         containers: map<string, Info>, works: bool)
  {
    if works then network in after && (Agrees(after[network], containers) <==> AllOneLine(containers))
    else HostsText(after, network) == HostsText(before, network)
  }

  /** The two differ at most in one file. */
  ghost predicate SameElsewhere(before: map<string, string>, after: map<string, string>, network: string) {
    forall other | other != network ::
      (other in before <==> other in after) && (other in before ==> before[other] == after[other])
  }

  /** The networks that are not still to do are synced, and the others as before. */
  ghost predicate AllSynced(before: map<string, string>, files: map<string, string>, configs: Configs,
                            todo: set<string>, works: set<string>)
  {
    && (forall name | name in todo :: HostsText(files, name) == HostsText(before, name))
    && (forall name | name in configs && name !in todo ::
          Synced(before, files, name, configs[name].containers, name in works))
  }

  lemma SyncedOneMore(before: map<string, string>, mid: map<string, string>, after: map<string, string>,
                      configs: Configs, todo: set<string>, name: string, works: set<string>)
    requires name in todo && name in configs && AllSynced(before, mid, configs, todo, works)
    requires SameElsewhere(mid, after, name) && Synced(mid, after, name, configs[name].containers, name in works)
    ensures AllSynced(before, after, configs, todo - {name}, works)
  {
    forall other | other in configs && other !in todo
      ensures Synced(before, after, other, configs[other].containers, other in works)
    {
      assert Synced(before, mid, other, configs[other].containers, other in works);
    }
  }

  class NetManager {
    var configs: Configs
    const hosts: HostsManager

    constructor (hosts: HostsManager)
      ensures configs == map[] && this.hosts == hosts
    {
      this.hosts := hosts;
      configs := map[];
    }

    /** The subnets of the stored networks, and those that interfaces and routes list. */
    method UsedSubnets(external: seq<string>) returns (used: map<string, bool>)
      ensures forall s :: s in used <==> s in external || exists name | name in configs :: configs[name].subnet == s
    {
      used := map[];
      var todo := configs.Keys;
      while todo != {}
        invariant todo <= configs.Keys
        invariant forall name | name in configs && name !in todo :: configs[name].subnet in used
        invariant forall s | s in used :: exists name | name in configs :: configs[name].subnet == s
        decreases |todo|
      {
        var name :| name in todo;
        used := used[configs[name].subnet := true];
        todo := todo - {name};
      }
      for k := 0 to |external|
        invariant forall s :: s in used <==> SubnetUsed(configs, external[..k], s)
      {
        assert external[..k + 1] == external[..k] + [external[k]];
        used := used[external[k] := true];
      }
      assert external[..|external|] == external;
    }

    method FindFreeSubnet(external: seq<string>) returns (r: Result<(string, string)>)
      ensures var n := FreeSubnetFrom(configs, external, MIN_SUBNET);
              r == if n > MAX_SUBNET then Err(NoFreeSubnet) else Ok((SubnetOf(n), GatewayOf(n)))
      ensures r.Ok? ==>
                && r.value.0 !in external
                && (forall name | name in configs :: configs[name].subnet != r.value.0)
                && exists n | 1 <= n <= 254 ::
                     && r.value == (SubnetOf(n), GatewayOf(n))
                     && forall j | 1 <= j < n ::
                          || SubnetOf(j) in external
                          || exists name | name in configs :: configs[name].subnet == SubnetOf(j)
      ensures r.Err? <==>
                forall j | 1 <= j <= 254 ::
                  SubnetOf(j) in external || exists name | name in configs :: configs[name].subnet == SubnetOf(j)
    {
      var used := UsedSubnets(external);
      for i := MIN_SUBNET to MAX_SUBNET + 1
        invariant FreeSubnetFrom(configs, external, MIN_SUBNET) == FreeSubnetFrom(configs, external, i)
      {
        if SubnetOf(i) !in used {
          return Ok((SubnetOf(i), GatewayOf(i)));
        }
      }
      return Err(NoFreeSubnet);
    }

    /** `restored` says whether the bridge and the DNS server came up; a saved config stays stored either way. */
    method CreateNetwork(name: string, external: seq<string>, canSave: bool, restored: bool) returns (ok: bool)
      modifies this
      ensures configs == if canSave then Created(old(configs), name, external) else old(configs)
      ensures ok <==> canSave && restored && FreeSubnetFrom(old(configs), external, MIN_SUBNET) <= MAX_SUBNET
      ensures ok ==>
                && name in configs && configs == old(configs)[name := configs[name]]
                && configs[name].name == name && configs[name].containers == map[]
                && configs[name].subnet !in external
                && (forall other | other in old(configs) :: old(configs)[other].subnet != configs[name].subnet)
                && exists n | 1 <= n <= 254 ::
                     && configs[name].subnet == SubnetOf(n) && configs[name].gateway == GatewayOf(n)
                     && forall j | 1 <= j < n ::
                          || SubnetOf(j) in external
                          || exists other | other in old(configs) :: old(configs)[other].subnet == SubnetOf(j)
    {
      var free := FindFreeSubnet(external);
      if free.Err? || !canSave {
        return false;
      }
      configs := Save(configs, Net(name, free.value.0, free.value.1, map[]));
      return restored;
    }

    method EnsureDefaultNetwork(external: seq<string>, canSave: bool, restored: bool) returns (ok: bool)
      modifies this
      ensures configs == if Global.MAIN_NET in old(configs) || !canSave then old(configs)
                         else Created(old(configs), Global.MAIN_NET, external)
      ensures ok <==> restored && Global.MAIN_NET in configs
    {
      if Global.MAIN_NET !in configs {
        ok := CreateNetwork(Global.MAIN_NET, external, canSave, restored);
        return;
      }
      return restored;
    }

    method IsTaken(containers: map<string, Info>, ip: string) returns (taken: bool)
      ensures taken == Taken(containers, ip)
    {
      taken := false;
      var todo := containers.Keys;
      while todo != {}
        invariant todo <= containers.Keys
        invariant !taken && forall id | id in containers && id !in todo :: containers[id].ip != ip
        decreases |todo|
      {
        var id :| id in todo;
        if containers[id].ip == ip {
          return true;
        }
        todo := todo - {id};
      }
    }

    method AllocateIP(network: string, id: string, container: string, io: IO) returns (r: Result<string>)
      modifies this, hosts
      ensures var promised := AllocateResult(old(configs), network);
              r == if promised.Ok? && !io.canSave then Err(SaveFailed) else promised
      ensures Store(configs, hosts.files) ==
              Perform(Store(old(configs), old(hosts.files)), Allocate(network, id, container, io))
    {
      if network !in configs {
        return Err(NotFound);
      }
      var config := configs[network];
      var base := BaseOf(config.gateway);
      if base == [] {
        return Err(BadGateway);
      }
      for i := FIRST_HOST to LAST_HOST + 1
        invariant configs == old(configs) && hosts.files == old(hosts.files)
        invariant FreeFrom(config.containers, base[0], FIRST_HOST) == FreeFrom(config.containers, base[0], i)
      {
        var ip := Address(base[0], i);
        var taken := IsTaken(config.containers, ip);
        if !taken {
          if !io.canSave {
            return Err(SaveFailed);
          }
          configs := Save(configs, config.(containers := config.containers[id := Info(id, container, ip)]));
          EnterHost(network, ip, container, io);
          return Ok(ip);
        }
      }
      return Err(NoFreeAddress);
    }

    /** The hosts file after an allocation; a failure is only a warning. */
    method EnterHost(network: string, ip: string, container: string, io: IO)
      modifies hosts
      ensures hosts.files == Edited(old(hosts.files), network, io,
                                    Added(HostsText(old(hosts.files), network), ip, container))
    {
      var isOpen := hosts.Open(network, io.opens);
      if isOpen {
        var _ := hosts.AddContainer(network, ip, container, true, io.edits);
      }
    }

    method GetContainerIP(network: string, id: string) returns (r: Result<string>)
      ensures r == AddressOf(configs, network, id)
    {
      if network !in configs || id !in configs[network].containers {
        return Err(NotFound);
      }
      return Ok(configs[network].containers[id].ip);
    }

    /** The hosts file after a release; a failure is only a warning. */
    method Unlist(network: string, info: Info, io: IO)
      modifies hosts
      ensures hosts.files == Edited(old(hosts.files), network, io,
                                    Removed(HostsText(old(hosts.files), network), info.ip, info.name))
    {
      var isOpen := hosts.Open(network, io.opens);
      if isOpen {
        var _ := hosts.RemoveContainer(network, info.ip, info.name, true, io.edits);
      }
    }

    /** The hosts file is edited first: when the config cannot be saved, the line is gone all the same. */
    method ReleaseIP(network: string, id: string, io: IO) returns (ok: bool)
      modifies this, hosts
      ensures ok <==> network in old(configs) && io.canSave
      ensures Store(configs, hosts.files) == Perform(Store(old(configs), old(hosts.files)), Release(network, id, io))
    {
      if network !in configs {
        return false;
      }
      var config := configs[network];
      if id in config.containers {
        var info := config.containers[id];
        if info.name != "" {
          Unlist(network, info, io);
        }
      }
      if io.canSave {
        configs := Save(configs, config.(containers := config.containers - {id}));
      }
      return io.canSave;
    }

    /** One turn of the loop of SyncAllHosts. */
    method SyncOne(name: string, opens: bool, writes: bool)
      requires name in configs
      modifies hosts
      ensures Synced(old(hosts.files), hosts.files, name, configs[name].containers, opens && writes)
      ensures SameElsewhere(old(hosts.files), hosts.files, name)
    {
      ghost var before := hosts.files;
      var isOpen := hosts.Open(name, opens);
      ghost var mid := hosts.files;
      assert SameElsewhere(before, mid, name) && HostsText(mid, name) == HostsText(before, name);
      if isOpen {
        var _ := hosts.UpdateAllContainers(name, configs[name].containers, writes);
        assert SameElsewhere(mid, hosts.files, name);
      }
    }

    /** SyncAllHosts: rebuild every hosts file that can be opened and written. */
    method SyncAllHosts(opens: set<string>, writes: set<string>)
      modifies hosts
      ensures forall name | name in configs ::
                Synced(old(hosts.files), hosts.files, name, configs[name].containers, name in opens * writes)
    {
      ghost var before := hosts.files;
      var todo := configs.Keys;
      while todo != {}
        invariant todo <= configs.Keys
        invariant AllSynced(before, hosts.files, configs, todo, opens * writes)
        decreases |todo|
      {
        var name :| name in todo;
        ghost var mid := hosts.files;
        SyncOne(name, name in opens, name in writes);
        SyncedOneMore(before, mid, hosts.files, configs, todo, name, opens * writes);
        todo := todo - {name};
      }
    }
  }
}
