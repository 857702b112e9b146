# Verified model of the Proxmox VE SDN configuration

A Dafny model of the SDN part of `proxmox-ve-config` with the parts of `proxmox-frr` and
`proxmox-sdn-types` it builds on. The centre is the fabric subsystem: a validator for fabric
configurations, and two compilers that turn a valid configuration into one node's FRR and WireGuard
configuration. What the validator establishes is the precondition of what is proved about the
compilers: they do not fail, they lose nothing, and the route-maps they write mean what the fabrics
say. Around them stand the stores that are edited in place: the fabric configuration and its file,
private keys, prefix lists, route-maps, zones with VNets and subnets, and the IPAM database.

`dafny verify dfyconfig.toml` checks everything.

| file | contents |
|---|---|
| `Wrappers`, `Collections`, `Text`, `Addresses` | options and results; duplicate-free lists, map insertion, key order; splitting and number printing; CIDR blocks (section 3.1 of RFC 4632) |
| `Identifiers`, `NetworkEntityTitle` | ids of sections, NETs (section 7.1 of ISO/IEC 10589) |
| `RouterId`, `RouterIdCollisions`, `RouterIdExample`, `CollidingFabric` | FNV-1a router-ids, when they cannot collide, and a fabric in which they do |
| `FabricModel`, `FabricRules`, `FabricValidation` | the fabric configuration, what makes it valid, and the validator |
| `FabricConfiguration`, `NodeDeletion`, `FabricSections` | editing the configuration; deleting nodes; reading and writing its file |
| `BgpRouters`, `FrrModel`, `FrrCompiler` | FRR router sections, the target language with the meaning of route-maps, and the compiler |
| `FrrMeaning`, `FrrExactness`, `FrrNumbering`, `FrrWrapExample` | meaning of the route-maps, when exactly it is kept, their numbers, and configurations that are large enough to break both |
| `FrrIdentity`, `FrrInterfaces`, `FrrNets`, `BgpUnderlay`, `LinkSharing`, `FrrExamples` | router-ids and interfaces; what the interfaces are told; NETs; the merged BGP router; interfaces shared by protocols; small configurations with clashes |
| `WireGuardCompiler`, `WireGuardGuarantees`, `WireGuardContents`, `WireGuardKeys` | the WireGuard compiler, what it guarantees, what its interfaces say, and the key store |
| `PrefixLists`, `RouteMaps` | prefix lists with rollback; route-map assembly |
| `SdnModel`, `SdnConfiguration`, `Ipsets`, `Ipam` | zones, VNets and subnets; their ipsets; allocated addresses |

How the model is made:

* An imperative method works the way the source does (same branches, same order of checks) and is
  proved against a function or predicate; the theorems are then about that function or predicate.
* Addresses are unsigned integers, identifiers are strings with format predicates, a BTreeMap is a map
  enumerated in key order. HashMaps and HashSets are enumerated by arbitrary choice, and so are BTreeMaps
  whose order no result may depend on (subnets by CIDR, IPAM addresses, stored keys).
* Values that a type of the source restricts (`Valid<FabricConfig>`, `FabricId`, `NodeId`, interface
  names, subnet and zone records made by their constructors) come with the matching `requires`.
* The `u16` route-map counter and the `u32` prefix-list number wrap around, as in a release build. A
  build with overflow checks would stop instead; `FrrMeaning.NumberAfterExact` and
  `PrefixLists.NextSeqFresh` give the ranges in which neither happens.

Results that are false in general, with their exact conditions:

* A generated route-map may treat a route otherwise than the rule that the first fabric in id order
  decides. It never does if and only if the numbers of competing entries are in the order of the fabrics
  (`FrrExactness.MeaningKeptExactly`): entries of one kind compete if one of them has a route filter and
  no earlier entry has the route filter of either. Without route filters nothing competes, and up to 6544
  entries all numbers are in order (`FrrMeaning.OrderKeptIf`). `FrrWrapExample.LastFabricWins` is a valid
  configuration of 6545 fabrics in which the last fabric decides.
* The numbers of a generated route-map may not ascend, because the counter, which all kinds share, wraps.
  They do if and only if any two entries of the map are far enough apart for the wraps between them
  (`FrrNumbering.CompiledMapAscends`): always up to 6544 entries of all kinds together
  (`FrrNumbering.SmallMapsAscend`), and with a single wrap exactly if no entry before it meets one of its
  kind less than 6554 entries later (`FrrNumbering.OneWrap`). `FrrWrapExample.MapDescends` is a valid
  configuration whose map does not ascend.
* A number may come twice in a generated route-map. It does not if and only if no two entries of the map
  are a multiple of 32768 positions apart among the entries of all kinds
  (`FrrNumbering.CompiledNumbersDistinct`). `FrrWrapExample.NumberRepeats` is a valid configuration of
  32769 fabrics with a repeated number.
* The router-ids of an IPv6-only BGP fabric may collide, although its addresses are distinct, and the
  validator then rejects it: exactly if the addresses of two internal nodes have the same hash
  (`FabricValidation.CollisionsFromIpv6`). Never in a prefix of length 103 or more
  (`RouterIdCollisions.NoCollisionInLongPrefix`); with length 102 it happens
  (`CollidingFabric.ShortPrefixCollides`).
* Two OpenFabric nodes may get the same NET (`FrrNets.SharedNets`): never if both derive it from IPv4
  addresses; if both derive it from IPv6 addresses, exactly if the last three segments agree; and if one
  is IPv4, exactly if its decimal digits, regrouped by four and read as hexadecimal, are the last three
  segments of the other. `FrrExamples.SharedFromIpv6` and `FrrExamples.SharedFromBoth` are valid
  configurations of both kinds.
* The interface map of OpenFabric or OSPF may lose an entry: exactly if an interface of the protocol is
  named like the dummy of one of the node's fabrics of that protocol (`FrrIdentity.InterfacesConserved`,
  for each protocol on its own; `FrrIdentity.OpenfabricInterfaceLost`, `FrrIdentity.OspfInterfaceLost`).
  `FrrExamples.DummiesLost` is a valid configuration in which both maps do.
* Two routing protocols may run on the same interface, although no link is configured for both: exactly
  if a link of the one is named like a dummy of the other (`LinkSharing.SharedInterfaces`).
  `FrrExamples.DummyInBothMaps` and `FrrExamples.DummyInGroup` are valid configurations in which OSPF and
  BGP run on an OpenFabric dummy. Two neighbor groups never share one (`LinkSharing.GroupsShareNothing`).
* Deleting a node may make a valid configuration invalid: exactly if another node of the fabric names it
  as its WireGuard peer (`NodeDeletion.DeletingNodeKeepsValid`; `NodeDeletion.DeletingPeerBreaks` is such
  a configuration).
* A generated prefix-list number may be taken. It is not up to a largest number of 2^32 - 6; beyond, it
  is exactly if a number below 5 is in use that is as far above 0 as the largest one is above 2^32 - 5
  (`PrefixLists.NextSeqFresh`, `PrefixLists.NextSeqTaken`).
* The ipsets of two guests may share an address: exactly if two different subnets have allocated it, one
  to each (`Ipam.SharedAddress`, `Ipam.AllocateTwice`).
* A failed key generation may leave a node without keys in the key store: exactly if the node is new
  (`WireGuardKeys.PrivateKeys.Upsert`).

## Model

| member | source | states |
|---|---|---|
| FabricValidation.Validate | proxmox-ve-config/src/sdn/fabric/mod.rs:778-877 | Accepts exactly the configurations that satisfy the declarative rules (disjoint prefixes, distinct areas, unclaimed interfaces and ports, valid entries); an error names the rule that is broken, and each error has a rule of its own; never rejects a configuration for a router-id collision if each BGP fabric has an IPv4 prefix or an IPv6 prefix of length 103 or more |
| FabricValidation.CheckPrefixes | proxmox-ve-config/src/sdn/fabric/mod.rs:784-812 | Passes exactly if no two fabrics have overlapping prefixes of a family |
| FabricValidation.ClaimArea | proxmox-ve-config/src/sdn/fabric/mod.rs:816-828 | OSPF areas are compared by 32-bit value; a repeated one means the whole list of areas has a duplicate |
| FabricValidation.ClaimEntry | proxmox-ve-config/src/sdn/fabric/mod.rs:828-870 | The hash sets hold exactly what the nodes have claimed so far; a claim is rejected exactly if some node claims something twice: a port if the error says so, otherwise a name |
| FabricValidation.ClaimNode | proxmox-ve-config/src/sdn/fabric/mod.rs:832-868 | One node's claims are entered exactly if none is made twice and none was made before; a port error means a port, an interface error a name |
| FabricValidation.ValidateEntry | proxmox-ve-config/src/sdn/fabric/mod.rs:570-748 | Accepts exactly the entries that satisfy the rules within a fabric; an error names the rule that is broken; a BGP fabric with an IPv4 prefix is never rejected for a router-id collision, and for an invalid router-id exactly if its nodes are in order and an internal one has the address 0.0.0.0; nor is one with an IPv6 prefix of length 103 or more ever rejected for a collision |
| FabricValidation.CheckAddresses | proxmox-ve-config/src/sdn/fabric/mod.rs:663-711 | Passes exactly if each family has an address where the fabric has a prefix, inside it; an error tells a missing prefix, a missing address and an address outside apart |
| FabricValidation.VisitRouterId | proxmox-ve-config/src/sdn/fabric/mod.rs:728-744 | A router-id is rejected for being zero or for being another node's, and the error says which |
| FabricValidation.LongPrefixIdsUnique | proxmox-ve-config/src/sdn/fabric/mod.rs:717-745 | In a fabric with nothing but an IPv6 prefix of length 103 or more, nodes with valid addresses have different router-ids |
| FabricValidation.ConfigNeverRejectedForCollision | proxmox-ve-config/src/sdn/fabric/mod.rs:717-745 | A configuration whose BGP fabrics all have an IPv4 prefix, or an IPv6 prefix of length 103 or more, never breaks the rule behind a router-id collision |
| FabricValidation.RouterIdsFromIpv4 | proxmox-ve-config/src/sdn/fabric/mod.rs:721-745 | In a BGP fabric with an IPv4 prefix the router-ids are the IPv4 addresses, whatever IPv6 addresses there are: they never collide, and one is invalid exactly if an internal node has the address 0.0.0.0 |
| FabricValidation.CollisionsFromIpv6 | proxmox-ve-config/src/sdn/fabric/mod.rs:721-745 | In one without IPv4 prefix they collide exactly if the IPv6 addresses of two internal nodes have the same FNV-1a hash |
| FabricValidation.InvalidIdsFromIpv6 | proxmox-ve-config/src/sdn/fabric/mod.rs:721-745 | And one is invalid exactly if such a hash is 0 |
| CollidingFabric.ShortPrefixCollides | proxmox-ve-config/src/sdn/fabric/mod.rs:717-745 | A fabric with the prefix fd00::400:0/102 whose nodes fd00::470:e200 and fd00::6ee:1df9 are in order, but that is rejected because their router-ids collide |
| FabricValidation.CheckWireGuard | proxmox-ve-config/src/sdn/fabric/mod.rs:576-647 | Passes exactly if interface addresses are distinct and every peer names an existing interface or external node |
| FabricValidation.GatheredPeersResolve | proxmox-ve-config/src/sdn/fabric/mod.rs:633-646 | The two set differences are empty exactly if every single peer resolves |
| FabricValidation.ValidateNodes | proxmox-ve-config/src/sdn/fabric/mod.rs:649-715 | Passes exactly if node addresses are unique, present exactly when the fabric has a prefix, and inside it |
| FabricValidation.ValidateRouterIds | proxmox-ve-config/src/sdn/fabric/mod.rs:721-745 | Passes exactly if BGP router-ids are non-zero and distinct (section 2.1 of RFC 6286); for nodes in order in a fabric with an IPv4 prefix, exactly if no internal node has the address 0.0.0.0 |
| FabricValidation.ValidateWireGuardNode | proxmox-ve-config/src/sdn/fabric/section_config/protocol/wireguard.rs:322-351 | Passes exactly if interface names and ports are distinct and peers attach to existing interfaces |
| FabricValidation.ValidateFabric | proxmox-ve-config/src/sdn/fabric/section_config/fabric.rs:248-260 | Passes exactly if the fabric has the prefixes that its protocol needs and none that it cannot use |
| FabricValidation.ValidateNode | proxmox-ve-config/src/sdn/fabric/section_config/node.rs:230-241 | Passes exactly if the node has the addresses that its protocol needs and none that it cannot use; the error tells which |
| Addresses.OverlapIsSharedAddress4 | proxmox-ve-config/src/sdn/fabric/mod.rs:791-800 | Two IPv4 prefixes overlap exactly if some address lies in both |
| Addresses.OverlapIsSharedAddress6 | proxmox-ve-config/src/sdn/fabric/mod.rs:801-810 | The same for IPv6 |
| Addresses.BlockIsRun4 | proxmox-ve-config/src/sdn/fabric/mod.rs:663-711 | An IPv4 prefix of length m contains exactly the 2^(32 - m) addresses from its network address on, which is a multiple of their number |
| Addresses.BlockIsRun6 | proxmox-ve-config/src/sdn/fabric/mod.rs:663-711 | The same for IPv6 |
| FabricConfiguration.FabricConfig.AddFabric | proxmox-ve-config/src/sdn/fabric/mod.rs:884-899 | Refuses a known id, otherwise adds the fabric without nodes and with canonical prefixes, which contain the same addresses and start at the lowest of them; nothing else changes |
| FabricConfiguration.FabricConfig.AddNode | proxmox-ve-config/src/sdn/fabric/mod.rs:231-243 | Adds the node to its fabric, or reports the first of missing fabric, other protocol, known id, other fabric id and changes nothing |
| FabricConfiguration.FabricConfig.DeleteFabric | proxmox-ve-config/src/sdn/fabric/mod.rs:926-930 | Removes and returns exactly the named fabric |
| FabricConfiguration.FabricConfig.DeleteNode | proxmox-ve-config/src/sdn/fabric/mod.rs:503-510 | Removes and returns exactly the named node |
| FabricConfiguration.EditsKeepWellFormed | proxmox-ve-config/src/sdn/fabric/mod.rs:139-154 | After any run of edits every node sits under its own id in its own fabric, with the fabric's protocol, and prefixes are canonical |
| FabricConfiguration.CanonicalPrefix4 | proxmox-ve-config/src/sdn/fabric/mod.rs:889-894 | Canonical prefixes contain and overlap the same as before, and are canonical once and for all |
| FabricConfiguration.CanonicalPrefix6 | proxmox-ve-config/src/sdn/fabric/mod.rs:892-894 | The same for IPv6 |
| FabricConfiguration.DeletingFabricKeepsValid | proxmox-ve-config/src/sdn/fabric/mod.rs:926-930 | Deleting a fabric from a valid configuration leaves a valid one |
| NodeDeletion.DeletingNodeKeepsValid | proxmox-ve-config/src/sdn/fabric/mod.rs:503-510 | Deleting a node from a valid configuration leaves a valid one exactly if no other node of the fabric names it as its WireGuard peer |
| NodeDeletion.DeletingPeerBreaks | proxmox-ve-config/src/sdn/fabric/mod.rs:503-510 | A valid configuration that deleting a node makes invalid |
| FabricSections.FromSectionConfig | proxmox-ve-config/src/sdn/fabric/mod.rs:1179-1209 | Accepts exactly the sections that assemble to a valid configuration and returns it; otherwise reports the first node that cannot be placed or a broken rule |
| FabricSections.PlaceNodesHolds | proxmox-ve-config/src/sdn/fabric/mod.rs:1198-1205 | Placing succeeds exactly if every node finds its fabric, speaks its protocol and has an id of its own; then each fabric has exactly its nodes |
| FabricSections.AssembledSections | proxmox-ve-config/src/sdn/fabric/mod.rs:1179-1209 | The sections are exactly the parts of the configuration they assemble to |
| FabricSections.SectionsAssemble | proxmox-ve-config/src/sdn/fabric/mod.rs:1179-1209 | The parts of a well-formed configuration, in any order, assemble to it |
| FabricSections.OrderOfSectionsIrrelevant | proxmox-ve-config/src/sdn/fabric/mod.rs:1185-1205 | Reading does not depend on the order of the sections, nodes before fabrics included |
| FabricSections.IntoSectionConfig | proxmox-ve-config/src/sdn/fabric/mod.rs:1234-1250 | Writes each fabric followed by its nodes, each section under its own id, and overwrites none |
| FabricSections.SectionsRoundTrip | proxmox-ve-config/src/sdn/fabric/mod.rs:1234-1250 | What is written reads back, in any order, as the same configuration |
| Identifiers.NodeSectionIdRoundTrip | proxmox-ve-config/src/sdn/fabric/section_config/node.rs:80-99 | Parsing a printed node section id returns it |
| Identifiers.NodeSectionIdParsed | proxmox-ve-config/src/sdn/fabric/section_config/node.rs:80-99 | Parsing accepts exactly a fabric id and a node id with an underscore between them |
| Identifiers.SectionIdsDistinct | proxmox-ve-config/src/sdn/fabric/section_config/node.rs:80-99 | A node section id is never a fabric id, and different ids print differently |
| Identifiers.RouteMapEntryIdRoundTrip | proxmox-ve-config/src/sdn/route_map.rs:115-133 | Parsing a printed entry id returns it, also when the name contains underscores |
| Identifiers.RouteMapEntryIdParsed | proxmox-ve-config/src/sdn/route_map.rs:123-136 | Parsing accepts exactly a name and a 16-bit number with an underscore between them, split at the last one |
| RouterId.RouterIdFromIpv6 | proxmox-ve-config/src/sdn/fabric/section_config/protocol/bgp.rs:273-280 | The loop computes the FNV-1a hash of the sixteen octets |
| RouterId.KnownHashes | proxmox-ve-config/src/sdn/fabric/section_config/protocol/bgp.rs:273-280 | The hashes of the empty string, of "a" and of "fo" are the published FNV-1a values |
| Addresses.OctetsInOrder | proxmox-ve-config/src/sdn/fabric/section_config/protocol/bgp.rs:275-275 | The octets that are hashed make up the address, most significant first |
| RouterId.StepInjective | proxmox-ve-config/src/sdn/fabric/section_config/protocol/bgp.rs:275-278 | A step of the hash is injective in the state and in the octet |
| RouterId.OneOctetApart | proxmox-ve-config/src/sdn/fabric/section_config/protocol/bgp.rs:273-280 | Octet strings that differ in exactly one place have different hashes |
| RouterIdCollisions.NoCollisionInLongPrefix | proxmox-ve-config/src/sdn/fabric/mod.rs:717-745 | Different addresses of a prefix of length 103 or more never share a router-id |
| RouterIdExample.CollisionInPrefix | proxmox-ve-config/src/sdn/fabric/section_config/protocol/bgp.rs:273-280 | Two addresses of a prefix of length 102 have the same router-id, so the bound cannot be lowered |
| NetworkEntityTitle.RoundTrip | proxmox-sdn-types/src/net.rs:157-217 | Parsing the printed form of a valid NET returns it, for areas of 0 to 13 bytes |
| NetworkEntityTitle.DerivedNetsValid | proxmox-sdn-types/src/net.rs:221-245 | NETs derived from addresses have the required shape |
| NetworkEntityTitle.DerivedTitles | proxmox-sdn-types/src/net.rs:221-245 | They are printed with AFI 49, area 0001 and selector 00 around the system id |
| NetworkEntityTitle.KnownSystemIds | proxmox-sdn-types/src/net.rs:320-346 | The system ids of 192.168.1.100 and fe80::1234:5678:abcd are 1921.6800.1100 and 1234.5678.abcd |
| NetworkEntityTitle.SystemIdFromIpv4Injective | proxmox-sdn-types/src/net.rs:79-95 | Different IPv4 addresses get different system ids |
| NetworkEntityTitle.SystemIdFromIpv6Collision | proxmox-sdn-types/src/net.rs:99-112 | IPv6 addresses share a system id exactly if their last three segments agree |
| NetworkEntityTitle.MixedCollision | proxmox-sdn-types/src/net.rs:79-112 | An IPv4 and an IPv6 address share a system id exactly if the decimal digits of the one, regrouped by four and read as hexadecimal, are the last three segments of the other |
| BgpRouters.BgpRouter.ExtendFamilies | proxmox-frr/src/ser/bgp.rs:172-223 | In each family each of the five lists becomes the old one followed by the incoming one, a family that only one side has is taken whole, and the incoming EVPN family is taken only where there was none |
| BgpRouters.BgpRouter.MergeFabric | proxmox-frr/src/ser/bgp.rs:243-250 | Neighbor groups and all lists of both families are the old ones followed by the incoming ones, EVPN family and default_ipv4_unicast are taken only where there were none, and AS number, router-id, flags and custom lines stay |
| BgpRouters.MergeAssociative | proxmox-frr/src/ser/bgp.rs:172-250 | Merging several fabrics gives the same router however the merges are grouped |
| BgpRouters.MergeKeeps | proxmox-frr/src/ser/bgp.rs:243-250 | AS number, router-id, flags and EVPN family stay, and lists stay in front |
| BgpRouters.AppendedUnique | proxmox-frr/src/ser/bgp.rs:172-250 | This list-by-list account determines the merged router: it leaves room for one result only |
| FrrCompiler.BuildFabric | proxmox-ve-config/src/sdn/fabric/frr.rs:34-596 | The configuration written in place is the one that the fold over the fabrics specifies, or the same error; what that configuration holds is stated by the rows below |
| FrrCompiler.BuildEntry | proxmox-ve-config/src/sdn/fabric/frr.rs:43-572 | One fabric's step, for each protocol |
| FrrCompiler.EmitSource | proxmox-ve-config/src/sdn/fabric/frr.rs:113-156 | One source route-map entry with its access list and inbound map; the counter moves by ten |
| FrrCompiler.InstallRouter | proxmox-ve-config/src/sdn/fabric/frr.rs:565-569 | The fabric's router is merged into the default VRF's or becomes it; other VRFs are untouched |
| FrrMeaning.BuildSucceeds | proxmox-ve-config/src/sdn/fabric/frr.rs:34-596 | For a valid configuration, any node and any prior FRR configuration no error branch is reached |
| FrrMeaning.NumberAfterExact | proxmox-ve-config/src/sdn/fabric/frr.rs:39-39 | The counter is exact, without wrapping, as long as the sum stays below 2^16: from 100 on, for 6543 entries |
| FrrMeaning.RouteMapMeaning | proxmox-ve-config/src/sdn/fabric/frr.rs:113-199 | Whatever else was configured before, every newly generated source route-map does with every route what the rule says, for any number of entries whose competing ones are in order: the first fabric in id order that the node is in and that admits the route sets the source to the node's own address, otherwise deny, or for BGP permit unchanged |
| FrrExactness.MeaningKeptExactly | proxmox-ve-config/src/sdn/fabric/frr.rs:113-199 | It does so for every route and every meaning of the prefix lists exactly if the numbers of competing entries are in the order of the fabrics |
| FrrMeaning.OrderKeptIf | proxmox-ve-config/src/sdn/fabric/frr.rs:113-199 | They are if the map's numbers ascend, and if none of the node's fabrics has a route filter |
| FrrMeaning.RouteMapVerdict | proxmox-ve-config/src/sdn/fabric/frr.rs:113-199 | For any number of entries, a generated source route-map decides by the entry with the smallest number among those whose fabric admits the route |
| FrrWrapExample.LastFabricWins | proxmox-ve-config/src/sdn/fabric/frr.rs:113-199 | A valid configuration of 6545 filtered OSPF fabrics whose route-map takes the source of the last fabric instead of the first |
| FrrNumbering.CompiledMapAscends | proxmox-ve-config/src/sdn/fabric/frr.rs:119-594 | A generated source route-map, the final permit entry included, ascends exactly if its entries are far enough apart for the wraps of the counter between them |
| FrrNumbering.SmallMapsAscend | proxmox-ve-config/src/sdn/fabric/frr.rs:119-594 | Every generated source route-map ascends if the node gets at most 6544 entries |
| FrrNumbering.OneWrap | proxmox-ve-config/src/sdn/fabric/frr.rs:119-594 | Up to 13098 entries in all, a generated source route-map ascends exactly if no entry of it before position 6544 meets one from there on less than 6554 entries later |
| FrrNumbering.CompiledNumbersDistinct | proxmox-ve-config/src/sdn/fabric/frr.rs:119-594 | No number comes twice in a generated source route-map exactly if no two of its entries are a multiple of 32768 positions apart |
| FrrWrapExample.MapDescends | proxmox-ve-config/src/sdn/fabric/frr.rs:119-594 | A valid configuration of 6545 OSPF fabrics whose route-map does not ascend |
| FrrWrapExample.NumberRepeats | proxmox-ve-config/src/sdn/fabric/frr.rs:119-594 | A valid configuration of 32769 OSPF fabrics whose route-map has a number twice |
| FrrMeaning.AtMostOneFabricAdmits | proxmox-ve-config/src/sdn/fabric/mod.rs:784-812 | Of two fabrics without route filters at most one admits a route, because their prefixes are disjoint |
| FrrMeaning.SourceRuleOrderFree | proxmox-ve-config/src/sdn/fabric/frr.rs:113-199 | Without route filters the rule gives the same source for every order of the fabrics |
| FrrMeaning.SourceMapsApplied | proxmox-ve-config/src/sdn/fabric/frr.rs:146-156 | Every generated source route-map is applied to the routes of its protocol and family, and where none was generated what was applied before stays |
| FrrMeaning.MapsInPlace | proxmox-ve-config/src/sdn/fabric/frr.rs:113-199 | Every fabric a node is in brings about the route-maps of its protocol by name (pve_openfabric, pve_openfabric6, pve_ospf, pve_bgp, pve_bgp6), one for each family in which the node has an address, applied to the routes of that protocol and family |
| FrrMeaning.AccessListInPlace | proxmox-ve-config/src/sdn/fabric/frr.rs:128-143 | The access list of a fabric without route filter is one rule that permits the fabric's prefix of the family |
| FrrMeaning.InboundMeaning | proxmox-ve-config/src/sdn/fabric/frr.rs:365-420 | A peer's route passes a BGP fabric's inbound map exactly if the fabric admits it and the user's map permits it |
| FrrIdentity.OspfRouterIdsDiffer | proxmox-ve-config/src/sdn/fabric/frr.rs:206-226 | Different nodes get different OSPF router-ids (section C.1 of RFC 2328), even from different fabrics |
| FrrNets.CompiledNets | proxmox-ve-config/src/sdn/fabric/frr.rs:52-72 | A node has exactly one router for each OpenFabric fabric it is in, all with the NET of the first |
| FrrNets.CompiledTitles | proxmox-ve-config/src/sdn/fabric/frr.rs:52-72 | That NET prints as 49.0001, the system id of the node's address in its first OpenFabric fabric, IPv4 before IPv6, and 00 |
| FrrNets.SharedNets | proxmox-ve-config/src/sdn/fabric/frr.rs:52-72 | The routers of two different nodes of a valid configuration share a NET exactly if the addresses in their first OpenFabric fabrics collide: never two IPv4 addresses, two IPv6 addresses by their last segments, mixed ones by the regrouped digits |
| FrrNets.NetsDiffer | proxmox-ve-config/src/sdn/fabric/frr.rs:52-72 | Different nodes get different NETs if their OpenFabric fabrics have IPv4 prefixes |
| FrrExamples.SharedFromIpv6 | proxmox-ve-config/src/sdn/fabric/frr.rs:52-72 | A valid IPv6-only fabric whose nodes ::1 and ::1:0:0:1 are compiled to routers with the same NET |
| FrrExamples.SharedFromBoth | proxmox-ve-config/src/sdn/fabric/frr.rs:52-72 | A valid configuration in which 10.0.0.1 and ::100:0:1 are |
| FrrIdentity.InterfacesConserved | proxmox-ve-config/src/sdn/fabric/frr.rs:74-111 | For OpenFabric and for OSPF: the interface map holds exactly one entry for each interface and each joined fabric's dummy if and only if no interface of the protocol is named like one of its dummies |
| FrrInterfaces.OspfLinks | proxmox-ve-config/src/sdn/fabric/frr.rs:615-637 | Each link of an OSPF fabric is compiled to an active interface whose area text, in the notation of the user, reads back as the fabric's area; its network type is the configured one, or point-to-point exactly if it has neither one nor an address |
| FrrInterfaces.OspfDummies | proxmox-ve-config/src/sdn/fabric/frr.rs:640-651 | The dummy of each OSPF fabric is compiled to a passive interface in the fabric's area |
| FrrInterfaces.AreasSeparate | proxmox-ve-config/src/sdn/fabric/frr.rs:211-255 | Interfaces of different OSPF fabrics lie in different areas |
| FrrInterfaces.OpenfabricLinks | proxmox-ve-config/src/sdn/fabric/frr.rs:657-683 | Each link of an OpenFabric fabric is compiled to an active interface with the fabric's id and intervals, its own multiplier, and a family exactly if the node has an address of it |
| FrrInterfaces.OpenfabricDummies | proxmox-ve-config/src/sdn/fabric/frr.rs:686-703 | The dummy of each OpenFabric fabric is compiled to a passive interface without timers, with the same id and families |
| FrrInterfaces.OspfRouterCompiled | proxmox-ve-config/src/sdn/fabric/frr.rs:206-226 | An OSPF router that existed stays; otherwise there is one exactly if the node is in an OSPF fabric, with its address and the redistribution list of the first |
| FrrIdentity.OpenfabricInterfaceLost | proxmox-ve-config/src/sdn/fabric/frr.rs:82-92 | An interface named like a dummy costs the OpenFabric map an entry |
| FrrIdentity.OspfInterfaceLost | proxmox-ve-config/src/sdn/fabric/frr.rs:228-255 | The same for OSPF |
| FrrExamples.DummiesLost | proxmox-ve-config/src/sdn/fabric/frr.rs:74-111 | A valid configuration with links named like both dummies: each map holds the link only, and the passive dummy is lost |
| LinkSharing.SharedInterfaces | proxmox-ve-config/src/sdn/fabric/frr.rs:74-342 | In the compiled configuration two of OpenFabric, OSPF and BGP run on the same interface exactly if a link of the one is named like a dummy of the other |
| LinkSharing.GroupsShareNothing | proxmox-ve-config/src/sdn/fabric/frr.rs:315-342 | No interface is listed in two neighbor groups of the compiled configuration |
| FrrExamples.DummyInBothMaps | proxmox-ve-config/src/sdn/fabric/frr.rs:228-255 | A valid configuration whose complete OpenFabric and OSPF maps both have the OpenFabric dummy |
| FrrExamples.DummyInGroup | proxmox-ve-config/src/sdn/fabric/frr.rs:315-342 | A valid configuration whose BGP neighbor group lists the OpenFabric dummy |
| FrrIdentity.LinksExclusive | proxmox-ve-config/src/sdn/fabric/mod.rs:828-870 | No interface of a node is used by two fabrics, whichever routing protocols they run |
| BgpUnderlay.PriorRoutersKept | proxmox-ve-config/src/sdn/fabric/frr.rs:551-569 | Other VRFs' routers are untouched, and a default-VRF router that existed is kept |
| BgpUnderlay.GroupsAdded | proxmox-ve-config/src/sdn/fabric/frr.rs:331-342 | The default router gets one neighbor group for each BGP fabric of the node, in order, after the prior ones |
| BgpUnderlay.AsNumbersInEffect | proxmox-ve-config/src/sdn/fabric/frr.rs:315-342 | Whatever AS number the default router had, the one in effect for a fabric's group is the node's own, replacing the router's where they differ; the group has the fabric's name and BFD setting, the node's interfaces, external peers and nothing else |
| BgpUnderlay.RouterInstalled | proxmox-ve-config/src/sdn/fabric/frr.rs:548-569 | A default router that did not exist before has the AS number of the node in its first BGP fabric and, as router-id, its IPv4 address there if it has one, otherwise the hash of its IPv6 address; it speaks no IPv4 by default and sets no flags |
| BgpUnderlay.OwnAddressesAnnounced | proxmox-ve-config/src/sdn/fabric/frr.rs:365-545 | The networks announced are the prior ones followed by exactly the node's own addresses in its BGP fabrics |
| BgpUnderlay.NeighborsFiltered | proxmox-ve-config/src/sdn/fabric/frr.rs:365-545 | In each family the prior neighbors stay in front and every BGP fabric that speaks it adds its group behind the fabric's own inbound map |
| BgpUnderlay.RedistributionAdded | proxmox-ve-config/src/sdn/fabric/frr.rs:344-545 | In each family the prior redistribution list is followed by those of the node's BGP fabrics that speak the family, in order |
| BgpUnderlay.RestUntouched | proxmox-ve-config/src/sdn/fabric/frr.rs:548-569 | Imported VRFs, custom lines and the EVPN family of the default router are as before |
| WireGuardCompiler.Build | proxmox-ve-config/src/sdn/wireguard.rs:31-179 | The loops compute what gathering over fabrics, interfaces and peers specifies, or its first error; what the result says is stated by the rows below |
| WireGuardCompiler.BuildPeer | proxmox-ve-config/src/sdn/wireguard.rs:66-162 | One peer definition: nothing for other interfaces, one peer for its own, or an error if node, interface or kind do not fit; the peer's contents are stated by WireGuardContents.InterfaceContents |
| WireGuardGuarantees.BuildSucceeds | proxmox-ve-config/src/sdn/wireguard.rs:31-179 | For a valid configuration building succeeds exactly if each interface of the node has a key; no other error is possible |
| WireGuardGuarantees.InterfacesConserved | proxmox-ve-config/src/sdn/wireguard.rs:165-172 | No interface configuration is overwritten: the result holds each interface once, with its key, port and peers |
| WireGuardGuarantees.CompiledPeers | proxmox-ve-config/src/sdn/wireguard.rs:64-163 | A compiled interface has exactly the peers that attach to it, in the order of their definitions |
| WireGuardGuarantees.EveryPeerOnce | proxmox-ve-config/src/sdn/wireguard.rs:64-163 | The compiled interfaces of a node have together exactly what its peer definitions stand for, each as often as it is defined |
| WireGuardGuarantees.PeerCompiled | proxmox-ve-config/src/sdn/wireguard.rs:66-163 | What a peer definition stands for is among the peers of the compiled interface it attaches to |
| WireGuardGuarantees.PeerEndsMeet | proxmox-ve-config/src/sdn/wireguard.rs:84-134 | What a node's compiled interface is told about an internal peer agrees with the peer's own node: the endpoint's port is the one its interface is configured to listen on there, and the public key is that interface's |
| WireGuardContents.InterfaceContents | proxmox-ve-config/src/sdn/wireguard.rs:45-179 | A compiled interface has its stored key and its port, and its peers are one by one what the definitions ask for: the endpoint host is the definition's own, else the remote node's, and none exactly if both are absent; allowed are the remote node's /32, its interface's own /32 and /128, its list and the definition's; an external peer has the definition's endpoint, else its own; the keepalive is the fabric's |
| WireGuardContents.PeerContents | proxmox-ve-config/src/sdn/wireguard.rs:66-163 | Every peer definition has such a peer on the interface it attaches to |
| WireGuardContents.AddressesOfInterface | proxmox-ve-config/src/sdn/wireguard.rs:102-117 | The addresses a peer may use are exactly the remote node's, its interface's own, and those in the two lists |
| WireGuardContents.ListenPortsDistinct | proxmox-ve-config/src/sdn/fabric/mod.rs:832-868 | No two compiled interfaces of a node listen on the same port, whichever fabrics they are in |
| WireGuardKeys.PrivateKeys.Upsert | proxmox-ve-config/src/sdn/fabric/section_config/protocol/wireguard.rs:680-695 | Keeps an existing key, stores the generated one otherwise, and touches no other key; if generating fails there is no key, and a new node stays behind without keys |
| WireGuardKeys.PrivateKeys.Remove | proxmox-ve-config/src/sdn/fabric/section_config/protocol/wireguard.rs:698-714 | Returns the key and removes it, with the node if it was the last |
| WireGuardKeys.RemovedExactly | proxmox-ve-config/src/sdn/fabric/section_config/protocol/wireguard.rs:698-714 | Exactly the given key is gone, and no node without keys comes into being |
| WireGuardKeys.PrivateKeys.Cleanup | proxmox-ve-config/src/sdn/fabric/section_config/protocol/wireguard.rs:731-782 | Leaves exactly the keys whose interface is configured, for any order of the hash sets, and reports true exactly if the store changed |
| WireGuardKeys.CleanedUnique | proxmox-ve-config/src/sdn/fabric/section_config/protocol/wireguard.rs:766-779 | There is only one such result |
| WireGuardKeys.CleanedTwice | proxmox-ve-config/src/sdn/fabric/section_config/protocol/wireguard.rs:731-782 | A second cleanup changes nothing |
| WireGuardKeys.CleanedNoEmptyNodes | proxmox-ve-config/src/sdn/fabric/section_config/protocol/wireguard.rs:731-782 | A cleanup leaves no node without keys if there was none |
| WireGuardKeys.CleanedCompilesTheSame | proxmox-ve-config/src/sdn/fabric/section_config/protocol/wireguard.rs:731-782 | A cleanup does not change what any node's configuration compiles to |
| WireGuardKeys.FromSections | proxmox-ve-config/src/sdn/fabric/section_config/protocol/wireguard.rs:804-834 | Loading succeeds exactly if section ids are node ids and no section repeats an interface, in any order of sections |
| WireGuardKeys.IntoSections | proxmox-ve-config/src/sdn/fabric/section_config/protocol/wireguard.rs:785-802 | Saves one section for each node, with all its keys |
| WireGuardKeys.KeysRoundTrip | proxmox-ve-config/src/sdn/fabric/section_config/protocol/wireguard.rs:785-834 | A saved store loads as the same store, nodes without keys included |
| PrefixLists.ValidateEntry | proxmox-ve-config/src/sdn/prefix_list.rs:330-366 | Accepts exactly mask <= ge <= le <= maximum of the family, as far as the bounds are given; an error names the bound that is broken |
| PrefixLists.ValidEntryMatches | proxmox-ve-config/src/sdn/prefix_list.rs:330-366 | A valid entry applies to some route, and to one at each bound it states |
| PrefixLists.NextSeqFresh | proxmox-ve-config/src/sdn/prefix_list.rs:140-146 | A generated number is new as long as none above 2^32 - 6 is in use; beyond, it is taken exactly if the largest number is 2^32 - 5 + d for a number d < 5 in use |
| PrefixLists.NextSeqTaken | proxmox-ve-config/src/sdn/prefix_list.rs:140-146 | Two insertions lead to a valid list on which it is taken, and then every insertion without a number fails |
| PrefixLists.PrefixListSection.TryInsertEntry | proxmox-ve-config/src/sdn/prefix_list.rs:221-230 | Appends the entry exactly if its number is new and its bounds are valid |
| PrefixLists.PrefixListSection.TryInsertApiEntry | proxmox-ve-config/src/sdn/prefix_list.rs:196-215 | The same with a number generated on demand, 5 more than the largest; the new entry has the given action, prefix and bounds |
| PrefixLists.PrefixListSection.TrySetApiEntries | proxmox-ve-config/src/sdn/prefix_list.rs:175-189 | Replaces all entries by one for each given, field by field, or restores exactly the list that was there |
| PrefixLists.PrefixListSection.TryUpdateEntry | proxmox-ve-config/src/sdn/prefix_list.rs:242-303 | Replaces the entry exactly if the new one can be inserted without the old one: given fields have the new value, deleted ones are gone or generated anew, the others and all other entries are as before; otherwise puts the old one back |
| PrefixLists.PrefixListSection.RemoveEntry | proxmox-ve-config/src/sdn/prefix_list.rs:233-236 | Removes and returns the entry with the number |
| PrefixLists.RunsKeepOk | proxmox-ve-config/src/sdn/prefix_list.rs:175-304 | After any run of calls from a new list numbers are distinct and bounds valid |
| PrefixLists.FailedUpdateKeepsEntries | proxmox-ve-config/src/sdn/prefix_list.rs:296-300 | A failed update keeps every entry under its number |
| PrefixLists.DecisionUnique | proxmox-ve-config/src/sdn/prefix_list.rs:221-230 | Because numbers are distinct, at most one entry decides about a route |
| PrefixLists.FailedUpdateKeepsVerdicts | proxmox-ve-config/src/sdn/prefix_list.rs:296-300 | So it changes the verdict on no route |
| RouteMaps.BuildRouteMaps | proxmox-ve-config/src/sdn/route_map.rs:565-589 | Each named map becomes the stable sort by order of the entries with its name, each with the order, action, clauses, call and exit action that were configured; other maps stay |
| RouteMaps.InsertionSorts | proxmox-ve-config/src/sdn/route_map.rs:576-579 | Inserting at the partition point keeps the stable sort |
| RouteMaps.StableSortUnique | proxmox-ve-config/src/sdn/route_map.rs:565-589 | There is only one stable sort, so the hash map's order cannot matter |
| RouteMaps.StableSortPermutes | proxmox-ve-config/src/sdn/route_map.rs:565-589 | No entry is lost or duplicated |
| RouteMaps.AssemblyKeepsVerdicts | proxmox-ve-config/src/sdn/route_map.rs:565-589 | The assembled map does with every route what the entries do in the order of the configuration, exit actions (next entry, goto, continue) included |
| SdnConfiguration.SdnConfig.AddZone | proxmox-ve-config/src/sdn/config.rs:465-476 | Succeeds exactly if no other zone has one of its VNets and all subnets name the zone; the zone is then in place; the invariants and the other zones stay in any case |
| SdnConfiguration.SdnConfig.AddVnet | proxmox-ve-config/src/sdn/config.rs:478-503 | Succeeds exactly if the zone exists, no other zone has the VNet and all subnets name the zone; a failure halfway leaves a valid configuration with some of the subnets |
| SdnConfiguration.SdnConfig.AddSubnet | proxmox-ve-config/src/sdn/config.rs:505-524 | Succeeds exactly if zone and VNet exist and the subnet names the zone; otherwise nothing changes |
| SdnConfiguration.SdnConfig.Vnet | proxmox-ve-config/src/sdn/config.rs:534-543 | The linear search finds the only VNet of the name |
| SdnConfiguration.FromRunningConfig | proxmox-ve-config/src/sdn/config.rs:621-659 | For every order of the hash maps: succeeds exactly if all references, gateways and ranges are good, with one and the same result, which has exactly the running zones with their types, VNets with their tags and subnets with their fields |
| SdnConfiguration.RunningOkExactly | proxmox-ve-config/src/sdn/config.rs:228-275 | What good means: every VNet's zone exists, every subnet fits its zone and VNet, its gateway has its family, and no range mixes families or runs backwards |
| SdnConfiguration.RunningVnetsPlaced | proxmox-ve-config/src/sdn/config.rs:627-642 | Each running zone is there with its type, each VNet in its own zone and no other, with its tag |
| SdnConfiguration.RunningSubnetsPlaced | proxmox-ve-config/src/sdn/config.rs:644-656 | Each running subnet is at its zone, VNet and CIDR with the running gateway, SNAT exactly if the value is given and not 0, and one range for each running pair, in order; every subnet there is a running one |
| Ipsets.VnetIpsets | proxmox-ve-config/src/sdn/config.rs:573-617 | The four sets of a VNet list what its subnets contribute, subnet by subnet, all in the same order |
| Ipsets.Ipsets | proxmox-ve-config/src/sdn/config.rs:561-617 | Four sets for each allowed VNet, in order |
| Ipsets.AllSubnetsMeaning | proxmox-ve-config/src/sdn/config.rs:602-602 | The first set holds exactly the addresses of the subnets |
| Ipsets.GatewaysMeaning | proxmox-ve-config/src/sdn/config.rs:610-610 | The second set holds exactly the gateways |
| Ipsets.NoGatewaysMeaning | proxmox-ve-config/src/sdn/config.rs:604-608 | The third set denotes the first without the second |
| Ipsets.DhcpRangesMeaning | proxmox-ve-config/src/sdn/config.rs:613-613 | The fourth set holds exactly the addresses of the DHCP ranges |
| Ipsets.FourMeanings | proxmox-ve-config/src/sdn/config.rs:573-617 | The four sets by name, each with exactly these addresses |
| Ipsets.IpsetNamesDistinct | proxmox-ve-config/src/sdn/config.rs:573-598 | No two of the sets have the same name |
| Ipam.Ipam.AddEntry | proxmox-ve-config/src/sdn/ipam.rs:299-313 | Allocates the address exactly if it is free in its subnet |
| Ipam.FromEntries | proxmox-ve-config/src/sdn/ipam.rs:283-291 | Succeeds exactly if no address of a subnet comes twice; then every entry is kept, in order |
| Ipam.FromIpamJson | proxmox-ve-config/src/sdn/ipam.rs:350-367 | Fails only for an address outside its subnet; every entry is in the subnet of its JSON record and has its guest, MAC address and hostname, and every record has an entry |
| Ipam.Ipam.GuestIpsets | proxmox-ve-config/src/sdn/ipam.rs:324-347 | Each allowed guest with an address has one set with its addresses, in the order of the subnets and of their entries |
| Ipam.GuestsPartitioned | proxmox-ve-config/src/sdn/ipam.rs:324-347 | Together the sets list every entry of every allowed guest exactly once, each in the set of its guest |
| Ipam.SharedAddress | proxmox-ve-config/src/sdn/ipam.rs:324-347 | The sets of two guests of a valid IPAM share an address exactly if two different subnets have allocated it, one to each |
| Ipam.AllocateTwice | proxmox-ve-config/src/sdn/ipam.rs:283-347 | A reachable IPAM in which two guests share an address |
| Ipam.GuestAddresses | proxmox-ve-config/src/sdn/ipam.rs:324-347 | A guest's set holds exactly the addresses that some subnet has allocated to it |
| Ipam.GuestsOfJson | proxmox-ve-config/src/sdn/ipam.rs:324-367 | After reading a database, an allowed guest has a set exactly if the database has an address for it, and the set holds exactly its addresses |
| Ipam.GuestSetNamesDistinct | proxmox-ve-config/src/sdn/ipam.rs:338-340 | Sets of different guests have different names |

## Left out

- FrrMeaning.RouteMapMeaning: for the kinds that had no route-map of their generated name before; entries are appended to one that existed. Where a number comes twice in a map (`FrrNumbering.CompiledNumbersDistinct` says when), the entry in front is taken to come first; FRR's own treatment of repeated numbers is not part of this model.
- FabricConfiguration.FabricConfig.AddNode: takes the fabric id as a parameter, because callers look the fabric up first; `update_node` and `update_fabric` are not modelled (the code gives no atomicity or canonical prefixes there).
- FabricSections.FromSectionConfig: sections come as values; the text format of the file and the section-config crate are not part of this model.
- FrrCompiler.BuildFabric: ends at the configuration value; templates and text rendering are not part of this model, nor are the parts of an FRR configuration that the compiler never touches (IS-IS, static routes, VRF definitions, custom lines). Address lists of FRR interfaces are always empty there and are omitted.
- FrrModel: match clauses, prefix lists and route-maps defined by users have arbitrary meanings, given as functions; a called route-map permits or denies, and what it may set itself is not modelled. An evaluation tells whether a route passes and with which source address; other set clauses have no meaning here.
- WireGuardKeys.PrivateKeys.Upsert: how keys are generated and public keys derived is not modelled; the outcome of generating a key is a parameter.
- WireGuardCompiler.Build: the construction of /32 and /128 blocks cannot fail and has no error branch; firewall marks and preshared keys, which are always absent, are omitted, and so are the flags for skipping route generation and IPv6 link-local addresses, which the compiler does not read.
- RouteMaps.BuildRouteMaps: entries come with their match and set clauses already in FRR's terms; the one-to-one renaming of clause kinds is not modelled.
- PrefixLists.PrefixListSection.TrySetApiEntries: `try_update` and `entry_mut`, which hands out a mutable reference, are not modelled, nor is the copy of finished lists into the FRR configuration.
- SdnConfiguration.FromRunningConfig: which of several errors is reported depends on the order of the hash maps and is not stated.
- Ipsets.Ipsets: comments of ipsets are omitted. A `nomatch` entry takes precedence over every other entry of its set.
- Ipam.Ipam.GuestIpsets: the order in which the subnets are visited is a parameter; what is proved holds for any.
- Error messages: errors carry their kind only.
- Logging of duplicate insertions, JSON and property-string formats, API schemas, firewall parsing and system queries: not part of this model.
