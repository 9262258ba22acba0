# Zylo: a verified model

A Dafny 4.11 model of Zylo, a container engine written in Go, with proofs about the parts of it where several
stores, several callers or several steps have to agree. `dafny verify dfyconfig.toml` checks everything.

| file | what it models |
|---|---|
| `Text.dfy` | the string functions of Go that the program relies on: split, join, contains, decimal printing |
| `Wrappers.dfy`, `Global.dfy` | an optional value, and the constants of `global/global.go` |
| `Layers.dfy` | `api/image.go`: tar headers, whiteouts, one directory tree, and what a stack of layers means |
| `Install.dfy` | `api/image.go`: `PullImage` as a protocol of many pullers with crashes, and one puller alone |
| `Races.dfy` | which images that protocol installs safely, and the runs in which it does not |
| `Addresses.dfy`, `Ipam.dfy` | `network/ipam.go`, `network/manager.go`, `network/sync.go`: subnets and addresses over runs |
| `Hosts.dfy`, `Resolver.dfy` | `hosts/manager.go`: the hosts file, edited or rebuilt, and how a resolver reads it |
| `DnsCache.dfy` | `network/dns`: the answer cache with delayed deletes, under every interleaving |
| `Volumes.dfy`, `Names.dfy` | the volume and name registries |
| `Interleaving.dfy` | interleaved loads and saves: of the registries, which lock each, and of the network configs, which lock neither |
| `Ports.dfy` | port mappings and the DNAT chain |
| `Teardown.dfy`, `Lifecycle.dfy` | `run`, its deferred cleanup, and `down` |
| `Recovery.dfy` | the daemon's cleanup at start |
| `Environment.dfy`, `Grammar.dfy` | from a ZyloFile, and the program that its text is, to the environment of the container's first process |
| `Mounts.dfy`, `Sizes.dfy` | the mount stack, and the unit of a printed size |

Files, directories, the kernel's mount table and the DNAT chain are values. What the program asks outside (the
registry server, the resolver, the upstream DNS server, process liveness, whether a file can be written or removed)
is a parameter. Objects that the program updates in place are classes, and each of their methods is proved to compute
a function about which the lemmas then speak.

## What the proofs found

Some of what one would expect of the program does not hold. Each time the model keeps the program's behaviour, and the
exact condition under which the expectation holds is proved.

- **The final image directory can be incomplete.** Two pairs of calls in `PullImage` are apart: the lock check and the
  lock write (`api/image.go:40-46`), and the deferred removals of the lock and of the temp directory of a failed pull
  (`api/image.go:48-53`). `Races.InstallExactly` says for every list of entries when all runs are safe:
  - as the code stands, for an image that extracts, exactly when it is an empty directory and adds nothing else; for one
    that does not, exactly when an entry cannot be read. So an image that no puller alone could extract, such as a file
    in one layer with a directory over it in the next, can be installed in part, and its pull returns success;
  - with the lock check and write in one step, for an image that extracts, exactly when it is one branch: every path
    lies at or above the path added last; for one that does not, exactly when an entry cannot be read or the last
    addition is followed by a removal of everything;
  - with both pairs in one step each, always.

  An image with two paths on different branches is safe only in the last case (`Races.BranchingIsUnsafe`).
- **Layer order.** A layer agrees with the overlay reading exactly when no addition is followed by a whiteout that
  covers it without being added again (`Layers.LayerMeaning`), and a whole stack reads correctly exactly when above
  every such loss another layer decides (`Layers.FlattenExactly`). The order of entries inside a layer that extracts is
  irrelevant exactly when no whiteout covers an addition and no path gets two contents (`Layers.OrderIndependence`).
  Opaque whiteouts are skipped because their name holds ".." (`Layers.OpaqueWhiteoutIsSkipped`).
- **Releasing an address can remove another container's hosts line**, because lines are matched by substring: host 2
  and host 20 of one network suffice (`Ipam.SharedDigitsSpoilRelease`), and the other container is then found by its
  name no longer (`Ipam.SpoiledNameIsLost`). Each operation keeps a hosts file in agreement
  with its config exactly when it is clear of such matches (`Ipam.StepFollowsExactly`). After every run of clear
  operations a resolver finds each container by its name at its own address (`Ipam.RunResolves`).
- **The deferred cleanup passes a name where an id is expected.** It adds nothing to an explicit stop exactly when no
  name is registered for a container whose id is this name (`Teardown.CleanupAddsNothingExactly`).
- **No stop gives an address back.** `SetupNetwork` allocates from the container's own network
  (`internal/container/network.go:64-81`; the network name that `run` passes is never read), and `CleanupNetwork`
  releases from the main network only (`internal/container/network.go:219`). A run gives its address back exactly when
  it got none, or reached persistence with an address of the main network (`Lifecycle.AddressIsReleasedExactly`). But no
  container of the main network reaches `run`: setting it up looks its network up by name
  (`internal/container/setup.go:138`), which fails for an empty name, and the main network's name is refused. So every
  container that gets an address keeps it (`Lifecycle.NoRunGivesItsAddressBack`). After a stop its directories are gone,
  so no restart releases the address either (`Recovery.RecoveryKeepsLive`).
- **A start that fails before its state is persisted keeps its rules** (`Lifecycle.RulesAreRemovedExactly`), and a dead
  container whose runtime directory is still there at restart keeps its address
  (`Recovery.AddressesAreReleasedExactly`).
- **One host port can be mapped twice.** A start checks its ports long before it adds its rules. Two starts that both
  check first can map the same port (`Ports.PortsCanBeMappedTwice`). Over every interleaving no port is mapped twice
  exactly when every launch still finds its ports free (`Ports.PortsStayApartExactly`).
- **A sweep can strand a name.** Every command first removes the state of dead containers. When that comes before the
  deferred cleanup of `run`, the cleanup finds no state to stop and the container's name stays registered
  (`Lifecycle.NameOutlivesSweepExactly`).
- **Unmounting in reverse restores the mount table** exactly when, at the mount of each bind, nothing is mounted below
  its source, by the host or by an earlier mount of the list: a recursive bind brings such mounts along, and nobody
  unmounts them (`Mounts.UnmountRestoresExactly`).
- **A mark with two selectors reaches one volume.** It does to the list what it does to the relation exactly when no
  other selected volume would change (`Volumes.NextRefines`); all callers select one volume
  (`Volumes.CallersSelectOne`).
- **Concurrent registrations can be lost**, although every store file keeps its invariant
  (`Interleaving.RegistrationsCanBeLost`). Over every interleaving of registrations none is lost exactly when every
  accepted one finds the list as it loaded it, or with its own record already added
  (`Interleaving.NothingIsLostExactly`). For any store and any operations, a run in which no save that changes the file
  falls between a load and its save is the sequential run in save order (`Interleaving.UndisturbedIsSequential`).

## Model

| member | source | states |
|---|---|---|
| Layers.DecodeOfPath | api/image.go:107-141 | a name of plain segments, with `./`, `//` and a closing `/` anywhere, decodes to the directory or file entry at its path, a `.wh.` name to a whiteout of the path it marks, and a bare `.wh.` to its parent |
| Layers.DecodeOfComponents | api/image.go:107-141 | a list of plain components, joined, decodes to the entry at exactly that path; a last component that starts with `.wh.` to a whiteout without this prefix |
| Layers.PaddingDoesNotMatter | api/image.go:112-116 | an empty segment anywhere, or a `.` before a named one, does not change what a name decodes to |
| Layers.DottedNamesAreSkipped | api/image.go:107-110 | a header whose name holds `..` can be left out of its layer |
| Layers.OpaqueWhiteoutIsSkipped | api/image.go:107-110 | an opaque whiteout is skipped, whatever its directory |
| Layers.ApplyKeepsPrefixClosed | api/image.go:115-139 | after an entry every ancestor of a node is still a directory of the tree |
| Layers.ExtractionKeepsPrefixClosed | api/image.go:98-149 | the tree is prefix-closed after every number of entries |
| Layers.ApplyAt | api/image.go:115-139 | one applied entry at one path: added, made a directory, erased, or left as it was |
| Layers.ApplyAllAt | api/image.go:98-149 | after a successful extraction the last entry that concerns a path decides what is there |
| Layers.ExtractsExactly | api/image.go:115-139 | an extraction succeeds exactly when every entry fits what the entries before it leave: no file where it needs a directory, no directory where it needs a file |
| Layers.UnreadableFails | api/image.go:99-105 | a layer with an unreadable header does not extract |
| Layers.UnreadableLayerFails | api/image.go:76-80 | nor does an image with such a layer |
| Layers.LayerMeaning | api/image.go:89-152 | an extracted layer reads like its overlay at every path exactly when no addition is lost to a later whiteout of the layer |
| Layers.FlattenMeaning | api/image.go:76-80 | flattening preserves meaning: at every path the tree gives what a top-down lookup through the layers gives |
| Layers.FlattenExactly | api/image.go:76-80 | every stack reads correctly at all paths exactly when above each layer that loses its own addition another layer decides |
| Layers.WellFormedIsSettled | api/image.go:115-119 | a layer without a whiteout over its own additions is settled, so flattening applies to it |
| Layers.LayersAreOneList | api/image.go:76-80 | extracting layer by layer is extracting the list of all entries |
| Layers.Commute | api/image.go:115-139 | two compatible entries have the same outcome and tree in either order, on every tree |
| Layers.AnyOrder | api/image.go:98-149 | every permutation of a well-formed layer has the same outcome and the same tree |
| Layers.OrderIndependence | api/image.go:98-149 | for a layer that extracts, all permutations agree exactly when it is well-formed |
| Layers.Destination.ExtractLayer | api/image.go:89-152 | the loop succeeds exactly when applying the entries does, with that tree, keeps it prefix-closed, and fails on an unreadable header |
| Layers.Destination.ExtractLayers | api/image.go:76-80 | the same for all layers |
| Install.StepKeepsInvariant | api/image.go:36-86 | with an atomic lock, every step of every puller keeps the pullers apart and the temp directory accounted for |
| Races.InstallExactly | api/image.go:36-86 | for every list of entries and each way to take the lock steps, including the code as written: when all runs with crashes are safe |
| Install.InstallSafety | api/image.go:36-86 | over all runs and crashes, with both lock steps atomic: at most one puller works and the final directory is absent or complete |
| Races.SafeExactly | api/image.go:48-53 | with an atomic lock and the deferred removals in their order, which images are safe, those that do not extract included |
| Races.BranchingIsUnsafe | api/image.go:40-53 | an image with two paths on different branches is unsafe unless both pairs of steps are atomic |
| Races.LockRaceExactly | api/image.go:40-46 | with the lock check and write apart, exactly the images that are and stay an empty directory, or cannot be read, are safe |
| Races.TailsCompleteExactly | api/image.go:48-53 | extracting each tail of an image into a swept directory gives nothing or the image exactly when it is one branch |
| Install.WrittenOnce | api/image.go:36-38 | once the final directory is there no step of any puller changes it |
| Install.ErrorLeavesFinalUnchanged | api/image.go:82-86 | the puller whose step installs the image never returns an error, in whatever run follows |
| Install.Store.PullImage | api/image.go:24-87 | one pull alone: the final directory, temp directory, lock and result in every case; with an unreadable header nothing is installed |
| Addresses.AddressInjective | network/ipam.go:24-27 | equal address strings have the same base and the same host number |
| Addresses.SubnetInjective | network/manager.go:142-143 | different subnet numbers give different subnet strings |
| Addresses.PartsOf | network/manager.go:142-144 | the dotted parts of a subnet, a gateway and an address: 10, 20, the subnet number, and `0/24`, 1 or the host number |
| Addresses.BaseOfParts | network/ipam.go:19-24 | a gateway of four parts gives its first three with dots, any other none |
| Addresses.BaseOfGateway | network/ipam.go:19-24 | splitting a gateway made by the manager gives back its network base |
| Addresses.AddressOccurs | hosts/manager.go:100-105 | the address of host h occurs in every line whose host number starts with the digits of h |
| Ipam.FreeFrom | network/ipam.go:26-63 | the first free host number: all before it are taken, it is not |
| Ipam.FreeSubnetFrom | network/manager.go:142-148 | the first free subnet number: the strings of all before it are outside or in a config, its own is in neither |
| Ipam.AllocationIsComplete | network/ipam.go:13-66 | in a well-formed network allocation fails exactly with 253 containers, and otherwise gives the smallest free host |
| Ipam.FullExactly | network/ipam.go:26-65 | pigeonhole: no host is free exactly when 253 containers hold addresses |
| Ipam.AddressesAreGlobal | network/ipam.go:13-66 | in a safe store no address string is held twice or is a gateway, across all networks |
| Ipam.StepKeepsSafe | network/ipam.go:13-106 | creating, allocating, releasing and removing keep the store safe |
| Ipam.RunIsSafe | network/manager.go:85-151 | over every run: distinct subnets, distinct addresses in the host range of their network |
| Ipam.MainNetworkStays | daemon/cleanup.go:168-193 | over every run the main network, once stored, stays, with or without containers |
| Ipam.UnusedGoExactly | daemon/cleanup.go:168-193 | of the others exactly those without containers are removed as unused |
| Ipam.StepFollowsExactly | network/ipam.go:42-105 | an operation, whichever files it can write, keeps every hosts file in agreement with its config exactly when it is clear: both or neither are changed, and no unintended line |
| Ipam.RunFollowsExactly | network/ipam.go:42-105 | over every run the hosts files hold the base lines and one entry per container all the time exactly when every operation is clear |
| Ipam.RunResolves | network/ipam.go:42-105 | after every run of clear operations a resolver that reads the hosts file finds each container by its name at its own address, and no container by another name |
| Ipam.ResolvedAfterAllocate | network/ipam.go:42-61 | whatever was in the hosts file, the name of a container that is allocated an address then resolves to it |
| Ipam.SharedDigitsSpoilRelease | hosts/manager.go:100-105 | a release is not clear when another host number starts with the digits of the released one |
| Ipam.SpoiledNameIsLost | hosts/manager.go:100-105 | and the name of the container whose line holds the released address then resolves to nothing |
| Ipam.NetManager.UsedSubnets | network/manager.go:85-138 | a subnet is collected exactly when it is the subnet of a config or one from outside |
| Ipam.NetManager.FindFreeSubnet | network/manager.go:85-151 | a subnet that is neither outside nor in a config, with its gateway and the smallest such number of 1 to 254, or an error exactly when there is none |
| Ipam.NetManager.CreateNetwork | network/methods.go:11-55 | a network with the first subnet that is neither outside nor in a config, and no containers, is stored, and stays stored when its bridge or DNS server fails |
| Ipam.NetManager.EnsureDefaultNetwork | network/manager.go:24-67 | an existing main network is left alone, a missing one is created |
| Ipam.NetManager.IsTaken | network/ipam.go:30-35 | finds a holder of the address exactly when there is one |
| Ipam.NetManager.AllocateIP | network/ipam.go:13-66 | the address, the stored config and the hosts file after allocation, whichever of config and hosts file can be written |
| Ipam.NetManager.ReleaseIP | network/ipam.go:82-106 | the stored config and the hosts file after a release, whichever can be written; the hosts line goes even when the config cannot be saved |
| Ipam.FoundAfterAllocate | network/ipam.go:68-80 | GetContainerIP finds what AllocateIP gave, and for every other container what it found before |
| Ipam.LostAfterRelease | network/ipam.go:68-80 | it finds nothing for a released container, and for every other what it found before |
| Ipam.NetManager.SyncAllHosts | network/sync.go:8-40 | afterwards every hosts file that could be written agrees with its config exactly when all entries are single lines; the others keep their text |
| Hosts.MarkIndex | hosts/manager.go:68-74 | the first line that holds the section comment |
| Hosts.AddKeepsAgreement | hosts/manager.go:45-86 | adding a container, new or known, keeps the file in agreement exactly when its entry is one line, no other expected line holds its name, and its old entry does; an empty name never does |
| Hosts.RemoveKeepsAgreement | hosts/manager.go:88-113 | removing one keeps it exactly when no line that must stay holds the address or the name |
| Hosts.SurvivorsOfRemoval | hosts/manager.go:100-105 | for arbitrary names, exactly the lines holding neither string survive, every copy of them |
| Hosts.AgreementDeterminesLines | hosts/manager.go:115-134 | a file edited step by step and a rebuilt one have the same non-blank lines |
| Hosts.EntryIsRead | hosts/manager.go:64 | a resolver reads an entry as its address, and as giving its name and no other |
| Hosts.AddedResolves | hosts/manager.go:45-86 | in whatever file a container is added, its name then resolves to its address, and every other name as before, unless a line that gives it holds the container's name |
| Hosts.RemovedResolves | hosts/manager.go:88-113 | after a removal the name resolves to nothing, and every other name as before, unless a line that gives it holds the address or the name |
| Hosts.AgreementResolves | hosts/manager.go:45-134 | in a file that agrees with the containers, in whatever order, each name resolves to its container's address |
| Hosts.AgreementResolvesNoOther | hosts/manager.go:45-134 | and no name resolves that is neither a container's nor a loopback name |
| Hosts.BaseAgrees | hosts/manager.go:21-37 | a new file agrees with a network without containers |
| Hosts.LinesWithoutName | hosts/manager.go:57-62 | the lines without the name, in order |
| Hosts.InsertEntry | hosts/manager.go:66-78 | the entry stands after the first section comment, or at the end |
| Hosts.LinesWithoutBoth | hosts/manager.go:97-105 | the lines with neither string, in order |
| Hosts.Rebuild | hosts/manager.go:119-128 | the base lines and the entries in some order of the containers; the text agrees with them exactly when the entries are single lines; each name resolves to its container's address, every other as in a new file |
| Hosts.RebuiltAgreesExactly | hosts/manager.go:115-134 | so it is for every order of the containers |
| Hosts.RebuiltResolves | hosts/manager.go:115-134 | a rebuilt file, in every order, resolves each container's name to its address, the loopback names to theirs, and no other name |
| Hosts.HostsManager.AddContainer | hosts/manager.go:45-86 | the network's file after the edit, or no change when it cannot be read or written; no other file changes; the name resolves to the address, and names whose lines do not hold it as before |
| Hosts.HostsManager.RemoveContainer | hosts/manager.go:88-113 | the network's file after the edit, or no change when it cannot be read or written; no other file changes; the name resolves to nothing, and names whose lines hold neither string as before |
| Hosts.HostsManager.UpdateAllContainers | hosts/manager.go:115-134 | the network's file is the rebuilt text, with what it resolves, or unchanged when it cannot be written; no other file changes |
| DnsCache.CacheKeyInjective | network/dns/resolver.go:30 | different questions never share a cache key |
| DnsCache.StepKeepsInvariant | network/dns/cache.go:9-40 | every step keeps each entry justified by a store for its question |
| DnsCache.ServedIsFresh | network/dns/cache.go:9-34 | under every interleaving, an answer served from the cache is the last one stored for the same A question by then, at most a TTL before |
| DnsCache.AfterLateDelete | network/dns/cache.go:36-40 | after a late delete, whatever the handlers do, a lookup misses, finds another key's old entry, or what was stored since |
| DnsCache.LiveAnswerIsServed | network/dns/cache.go:9-34 | over every run: a lookup at most a TTL after an answer to its question was stored, with no other store for it and no delete of its key in between, is replied to with that answer |
| DnsCache.SetIsFound | network/dns/cache.go:9-34 | what is set under a key is found until its TTL is over, and not after, unless the key is set again or removed |
| DnsCache.HandlerAlone | network/dns/resolver.go:11-66 | the steps of one handler, with no other in between, have the reply, cache and deletes of one call of HandleDNS |
| DnsCache.LateDeleteOnlyMisses | network/dns/cache.go:36-40 | against the same stores and deletes without it, a late delete can only turn a hit into a miss |
| DnsCache.Dns.GetCache | network/dns/cache.go:9-24 | the message of an entry that has not expired; nothing for a missing entry; nothing and a spawned delete for an expired one |
| DnsCache.Dns.SetCache | network/dns/cache.go:26-34 | the entry expires a TTL later; others are untouched |
| DnsCache.Dns.HandleDNS | network/dns/resolver.go:11-50 | the reply, the cache and the spawned deletes in every case of a query: a live entry is served, else the resolver's address or the upstream response is stored and passed on, else a failure |
| DnsCache.Dns.ForwardOrFail | network/dns/resolver.go:52-66 | an upstream response is stored and passed on, a failure is not stored |
| Volumes.NextKeepsOk | volume/volume.go:8-103 | every operation keeps names distinct, paths distinct and users without duplicates |
| Volumes.NextRefines | volume/volume.go:8-103 | each operation does to the list what it does to the (volume, container) relation exactly when the first selected volume is enough for it |
| Volumes.CallersSelectOne | daemon/cleanup.go:124-127 | it is, for a name or a path alone and for the own name and path of a registered volume |
| Volumes.UsageIsExact | volume/volume.go:64-103 | over every run of such operations a container is a user exactly when it was marked while the volume was registered and not unmarked since |
| Volumes.UsedStaysRegistered | volume/volume.go:42-49 | no operation unregisters a volume that has a user |
| Volumes.MatchIndex | volume/volume.go:113-125 | the first selected volume |
| Volumes.Survivors | volume/volume.go:39-51 | what the unregister loop keeps, and whether it found a volume or stopped at one in use |
| Volumes.VolumeRegistry.RegisterVolume | volume/volume.go:8-31 | the registry and the result after a registration |
| Volumes.VolumeRegistry.UnregisterVolume | volume/volume.go:33-62 | the registry and which of the three results |
| Volumes.VolumeRegistry.MarkVolumeUsed | volume/volume.go:64-82 | the registry after a mark |
| Volumes.VolumeRegistry.MarkVolumeUnused | volume/volume.go:84-103 | the registry after an unmark |
| Volumes.VolumeRegistry.FindVolume | volume/volume.go:113-125 | the first selected volume, or none |
| Volumes.VolumeDelete | internal/container/volumes.go:47-82 | at most the one selected unused volume goes; when its directory cannot be removed the volumes and users are as before |
| Names.ApplyKeepsOk | name/name.go:80-117 | registering and unregistering keep names distinct |
| Names.LookupsAfterRegister | name/name.go:80-99 | a registration is found under its name, and names its container if it had no name; all other lookups stay |
| Names.HolderAfterUnregister | name/name.go:101-117 | after an unregistration the container's names lead nowhere, and all others where they led before |
| Names.NameAfterUnregister | name/name.go:101-117 | and it has no name, while all others keep theirs |
| Names.NameLeadsBack | name/name.go:119-147 | the name found for a container leads back to this container |
| Names.NameRegistry.RegisterName | name/name.go:80-99 | refused exactly for a taken name, else appended |
| Names.NameRegistry.UnregisterName | name/name.go:101-117 | the entries of other containers, in order |
| Names.NameRegistry.NameExists | name/name.go:65-78 | found exactly when registered |
| Names.NameRegistry.GetName | name/name.go:119-132 | the name in the container's first entry, or none |
| Names.NameRegistry.GetContainerIDByName | name/name.go:134-147 | the container of the name's first entry, or none |
| Interleaving.EveryInterleavingKeeps | volume/registry.go:16-50 | what every operation keeps on its loaded copy survives all interleavings of loads and saves |
| Interleaving.VolumeFileIsOk | volume/volume.go:8-103 | the stored volume registry keeps its invariant under every interleaving |
| Interleaving.NameFileIsOk | name/name.go:28-117 | the stored names stay distinct under every interleaving |
| Interleaving.EveryTornRunKeeps | network/config.go:17-26 | the same for a file without locks, which is truncated before it is written: of all that can be read |
| Interleaving.ConfigFileIsOk | network/ipam.go:13-106 | a stored network config that can be read keeps distinct addresses in its range under every interleaving of reads, truncations and writes |
| Interleaving.UndisturbedIsSequential | volume/registry.go:16-50 | when no save that changes the file falls between a load and its save, the stored value is the sequential run in save order |
| Interleaving.RegistrationsCanBeLost | volume/volume.go:8-31 | two registrations that both load first leave only the second |
| Interleaving.RegistrationKeepsAllExactly | volume/volume.go:8-31 | a registration drops nothing exactly when all that is stored at its save was stored at its load or is its own record |
| Interleaving.NothingIsLostExactly | volume/volume.go:8-31 | over every interleaving of registrations nothing is lost exactly when each accepted one finds the list as it loaded it, or with its own record |
| Ports.AtoiOfDigits | internal/container/network.go:227-231 | a printed port number reads back as itself |
| Ports.AtoiOfSigned | internal/container/network.go:227-231 | a sign is read, and a number out of range is an error and clamped |
| Ports.AtoiOfOthers | internal/container/network.go:227-231 | anything else is an error and reads as 0 |
| Ports.RuleOfMapping | internal/container/network.go:114-122 | a printed mapping gives the rule from its host port to its container port |
| Ports.RuleOfParts | internal/container/network.go:222-226 | a mapping of one part, or of more than two, has no rule |
| Ports.RulesAreMappings | internal/container/network.go:114-122 | the host ports of a container's rules are the ports it maps, to its own address |
| Ports.NatIsConserved | internal/container/network.go:114-125 | over every run of atomic starts and stops the rules added are the sum of the live containers' mappings, and no host port is mapped by two of them |
| Ports.RulesAlwaysSum | internal/container/network.go:114-125 | the sum holds over every interleaving of port checks, launches and stops |
| Ports.PortsStayApartExactly | internal/container/ports.go:24-45 | over every interleaving no host port is mapped twice exactly when every launch finds its ports free |
| Ports.PortsCanBeMappedTwice | internal/container/ports.go:24-45 | two starts that both check first map the same port |
| Ports.OneTargetPerPort | internal/container/ports.go:10-45 | in a chain built from an empty one a host port leads to one address |
| Ports.UsedPorts | internal/container/ports.go:11-22 | collects exactly the host ports of the listed containers |
| Ports.ArePortsFree | internal/container/ports.go:24-45 | accepts exactly well-formed mappings to ports that neither the system nor a container uses |
| Ports.Chain.AddPortForward | network/iptables.go:48-52 | one more copy of the rule |
| Ports.Chain.RemovePortForward | network/iptables.go:54-59 | one copy fewer, if there is one |
| Ports.Chain.SetupForwards | internal/container/network.go:114-125 | the rules of all mappings are added, or those before the first that iptables refuses and an error |
| Ports.Chain.RemoveForwards | internal/container/network.go:222-235 | one copy of the rule of each mapping is removed |
| Teardown.StepKeepsInvariant | internal/container/runtime_cleanup.go:66-140 | each step of either thread works towards the same result, and some thread will finish it |
| Teardown.TeardownConfluence | internal/container/lifecycle.go:236-266 | every complete interleaving of a stop with the deferred cleanup ends in the same volumes, names, addresses and rules |
| Teardown.StopAlone | internal/container/runtime_cleanup.go:66-140 | one `down` from start to end has that result |
| Teardown.CleanupAddsNothingExactly | internal/container/lifecycle.go:251-257 | the cleanup changes the result of a stop exactly when the container's name is the id of a named container |
| Teardown.OthersUntouched | internal/container/runtime_cleanup.go:105-122 | other containers keep their marks, rules and names, and everything but the container's slot in the main network its address |
| Lifecycle.NoExitLeavesUsers | internal/container/lifecycle.go:115-123 | after every exit path of `run`, no volume that a reference of the container means, by name if it has one or else by path, lists the container |
| Lifecycle.VolumesAfterRun | internal/container/lifecycle.go:115-123 | and nothing else about who uses which volume differs from before the run |
| Lifecycle.UsersAfterAll | internal/container/lifecycle.go:117-123 | the mark loop makes the container a user of exactly the volumes that its references mean, and the unmark loop takes it out of exactly these |
| Lifecycle.EveryStopIsClean | internal/container/runtime_cleanup.go:66-140 | after every complete interleaving of a stop with the deferred cleanup no volume that the container means lists it, and it has no slot in the main network, no rule, no name and no state |
| Lifecycle.AddressIsReleasedExactly | internal/container/network.go:205-220 | a run gives its address back exactly when it got none, or reached persistence with an address of the main network |
| Lifecycle.NoRunGivesItsAddressBack | internal/container/setup.go:130-141 | every container that can be set up and gets an address keeps it in its own network after whatever exit |
| Lifecycle.RulesAreRemovedExactly | internal/container/runtime_cleanup.go:71-77 | the rules of a run go exactly when it got no address, reached persistence, or added none |
| Environment.ParsedIsNotMain | internal/container/zylo_file.go:207-215 | no ZyloFile can name the main network |
| Lifecycle.Host.MarkAll | internal/container/lifecycle.go:117-123 | each volume is marked, by name if it has one, else by path; the container uses exactly these and those it used before |
| Lifecycle.Host.UnmarkVolumes | internal/container/lifecycle.go:243-249 | the unmark steps of a teardown, in order; exactly the container's use of the volumes that its references mean is gone |
| Lifecycle.Host.CleanupNetwork | internal/container/network.go:205-242 | a slot in the main network and one copy of each rule go, whatever the container's network; nothing happens without an address |
| Lifecycle.Host.Down | internal/container/runtime_cleanup.go:66-140 | all steps in order for a persisted container, an error and no change otherwise; what is then gone from volumes, names, addresses, rules and states, and that nothing else is |
| Lifecycle.Host.Cleanup | internal/container/lifecycle.go:236-266 | the preamble, then `down` if the state is still there |
| Lifecycle.Host.Run | internal/container/lifecycle.go:108-234 | the stores after each exit path of `run`, with the address in the container's own network; no volume that the container means lists it |
| Lifecycle.SweepIsExact | internal/container/runtime_cleanup.go:21-64 | the sweep before each command takes the state, and an address in the main network, from exactly the listed dead containers; addresses in other networks, volumes and names stay |
| Lifecycle.SweptRules | internal/container/runtime_cleanup.go:59-62 | the rules of swept containers go, all others stay as often as they were |
| Lifecycle.NameOutlivesSweepExactly | internal/container/lifecycle.go:251-260 | after a sweep the deferred cleanup leaves a name of the container registered, unless the container's name is its own id |
| Lifecycle.Host.RuntimeCleanup | internal/container/runtime_cleanup.go:21-64 | the stores after the sweep |
| Recovery.RecoveryIsClean | daemon/cleanup.go:18-86 | afterwards exactly the containers with a live process have a runtime directory, exactly those of them that had a container directory have one, and no removed container uses a volume or has a name |
| Recovery.NetworksAfterRecovery | daemon/cleanup.go:168-193 | exactly the main network stays and those that hold a container which is not an orphan |
| Recovery.RecoveryKeepsLive | daemon/cleanup.go:18-105 | the remaining containers keep marks, names and addresses |
| Recovery.AddressesAreReleasedExactly | daemon/cleanup.go:49-84 | a removed container is gone from all networks exactly when it had no runtime directory or held no address |
| Recovery.RecoveryIsIdempotent | daemon/cleanup.go:18-24 | a second recovery with the same live processes changes nothing |
| Recovery.Daemon.CleanContainerResources | daemon/cleanup.go:107-130 | the container is in no volume's users and has no name; nothing else changes |
| Recovery.Daemon.CleanRuntimeContainers | daemon/cleanup.go:26-58 | exactly the dead containers are purged, in whatever order they are visited |
| Recovery.Daemon.ReleaseFromAllNetworks | daemon/cleanup.go:88-105 | the container is removed from every config |
| Recovery.Daemon.CleanLibContainers | daemon/cleanup.go:60-86 | exactly the orphans are evicted, in whatever order they are visited |
| Recovery.Daemon.CleanNetworks | daemon/cleanup.go:168-193 | exactly the empty networks other than the main one are removed |
| Recovery.Daemon.InitCleanUp | daemon/cleanup.go:18-24 | the stores after all passes |
| Environment.EnvHoldsLastValues | internal/container/zylo_file.go:217-225 | each key has the value of its last SET_ENV line, and no other key is set |
| Environment.ParsedHasNoNewlines | internal/container/zylo_file.go:47-57 | no parsed name, key or value holds a newline |
| Environment.EnvironmentRoundTrip | internal/container/exec.go:39-46 | the list split out in the container is the list that was built, then the init's own PATH |
| Environment.LastValueIsListed | internal/container/setup.go:202-212 | the list holds the last value of every key that a line sets |
| Environment.ListedIsLastValue | internal/container/setup.go:202-212 | and apart from the PATH entry nothing else |
| Grammar.RawLinesOfEnded | internal/container/zylo_file.go:47-48 | the scanner loses no line and adds none |
| Grammar.TrimmedOfSpaces | internal/container/zylo_file.go:49 | a line is trimmed of spaces at both ends only |
| Grammar.EveryLineIsPrinted | internal/container/zylo_file.go:66-99 | every line within the scanner's limit is blank, a comment, an instruction or refused |
| Grammar.ParsePrintedProgram | internal/container/zylo_file.go:47-99 | parsing a printed program gives its meaning: each argument in the field of its instruction, and an error exactly from a refused line |
| Grammar.EveryTextIsProgram | internal/container/zylo_file.go:47-99 | every text with lines within the limit is the print of a program, and parses to that program's meaning |
| Environment.BuildEnv | internal/container/setup.go:202-212 | the PATH entry, then one assignment per key in some order |
| Environment.ZyloFile.SetEnv | internal/container/zylo_file.go:217-225 | splits at the first colon, an error without one |
| Environment.ZyloFile.ReadLine | internal/container/zylo_file.go:66-99 | the configuration after one instruction, or an error |
| Environment.ZyloFile.ParseZyFile | internal/container/zylo_file.go:35-64 | the configuration of the text, or an error exactly when a line has one |
| Mounts.UnmountRestoresExactly | internal/container/resources/mount.go:35-73 | the reverse-order unmount restores the table exactly when nothing is mounted below the source of any bind at its mount |
| Mounts.EachTurnIsClear | internal/container/resources/mount.go:67-73 | then each target is mounted, not hidden and not busy when its turn comes, nested and repeated targets included |
| Mounts.UnmountUndoes | internal/container/resources/mount.go:67-73 | and after each turn the table is the one from before the mount |
| Mounts.BroughtExactly | internal/container/resources/mount.go:35-65 | a bind brings along exactly the visible mounts below its source, which is relative to the root file system unless it is absolute |
| Mounts.OlderOneStays | internal/container/resources/mount.go:67-73 | of two nested mounts the older one cannot be unmounted first, so the order of the unmounts matters |
| Mounts.IsolatedContainerRestores | internal/container/setup.go:106-128 | MountAll and then UnmountAll leave the table as it was, for host directories that have no mounts below and lie apart from the root |
| Mounts.MountManager.AddMounts | internal/container/setup.go:106-128 | sysfs, shared memory, the working directory if there is one to copy, then the volumes in order |
| Mounts.MountManager.MountAll | internal/container/resources/mount.go:35-42 | all mounts in order, or those before the first refusal and an error |
| Mounts.MountManager.UnmountAll | internal/container/resources/mount.go:67-73 | the table after unmounting the targets in reverse |
| Sizes.ChooseUnit | image/utils.go:16-27 | the loop ends with the power of 1024 that leaves 1 to 1023 units, no overflow, and a suffix within the six letters |

## Left out

- Symbolic and hard links, file modes and the registry download: kernel and library behaviour. One entry is one step,
  so a removal of a directory tree is not interrupted halfway.
- Install.InstallSafety: both pairs of lock steps in one step each; Races.InstallExactly says what holds without.
- Install.StepKeepsInvariant: the lock check and write in one step, because the invariant is false without.
- Races.SafeExactly: an atomic lock; Races.LockRaceExactly has the other case, and Races.InstallExactly both.
- Removing an image (`ImageRemove`, `image/delete.go`) is not a step of the install protocol.
- Hosts.AgreementResolves: names and addresses that are words, with no name given twice; names that a resolver cannot
  read, such as one with a space, resolve to nothing of their own.
- Hosts.EntryIsRead: the same words; a resolver compares names as they are written, without regard to case or a
  closing dot.
- Ipam.RunFollowsExactly: each operation runs alone; for the config of one network, interleavings are in
  Interleaving.ConfigFileIsOk.
- Ipam.NetManager.UsedSubnets: the subnets of interfaces and routes come as one list; parsing the output of `ip route`
  is not modelled. Config files are taken as readable and hold their own name.
- Recovery.Daemon.CleanContainerResources: without removing links and mounts, which are outside the modelled stores.
- Recovery.Daemon.ReleaseFromAllNetworks: without the hosts edit of each release, which Ipam.NetManager.ReleaseIP has.
- Recovery.Daemon.InitCleanUp: without the pass that unmounts what is left below `/var/lib/zylo`.
- DnsCache.ServedIsFresh: speaks of question and answer, not of the header id; the resolver is an oracle, because its
  closure does not see later allocations.
- DnsCache.LateDeleteOnlyMisses: the operations on the cache are given; for handlers that store again after a miss see
  DnsCache.AfterLateDelete.
- Ports.Chain.RemovePortForward: also deletes a rule from POSTROUTING that the program never adds.
- Ports.NatIsConserved: a start checks its ports and adds its rules in one step; Ports.RulesAlwaysSum and
  Ports.PortsStayApartExactly take them apart.
- Teardown.TeardownConfluence: one step is atomic, and the chain holds no more copies of the container's rules than its
  ports added (by Ports.NatIsConserved).
- Lifecycle.Host.Run: the process, its logs and its veth pair appear only through the exit that `run` takes.
- Lifecycle.Host.CleanupNetwork: the network manager can always be made.
- Lifecycle.Host.RuntimeCleanup: only over the runtime directories, since no `container.json` is written in the others.
- Install.Store.PullImage: the removals of the lock and of the temp directory always work.
- Mounts.UnmountRestoresExactly: mount propagation, and mounts that others make in the meantime.
- Mounts.IsolatedContainerRestores: no stop takes this way. `down` reads the container from its state file, which has no
  mount manager (`internal/container/container.go:30`), and unmounts lazily
  (`internal/container/runtime_cleanup.go:127-128`).
- `findContainer`, `isVolumeInUse` and the check sequence of `Up`: filters over listed containers that
  would only add easy members.
- Environment.ZyloFile.ReadLine: a VOLUME line's directory and registration, SET_WORKDIR, COPY and the JSON of
  START_WITH are oracles or leave the modelled fields alone.
- Grammar.EveryTextIsProgram: texts with a longer line; Environment.ZyloFile.ParseZyFile refuses them.
- Environment.ZyloFile.ParseZyFile: the same oracles; and the line limit of the scanner counts characters, not bytes.
- Sizes.ChooseUnit: the printed decimal is floating point and not modelled, nor are counts below one unit.
- JSON files hold the records they are given. The command line, the daemon's socket, printing and the heartbeat are
  plumbing.
