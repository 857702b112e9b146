/** The fabric configuration: fabrics, their nodes, and the protocol-specific
    properties that the validator and the two compilers read. */
module FabricModel {
  import opened Wrappers
  import opened Addresses
  import opened Identifiers
  import opened Collections

  type U32 = n: nat | n < 0x1_0000_0000

  datatype Protocol = Openfabric | Ospf | WireGuard | Bgp

  datatype RouteSource =
    BgpRoutes | ConnectedRoutes | IsisRoutes | KernelRoutes | OpenfabricRoutes | OspfRoutes | Ospf6Routes | StaticRoutes

  datatype Redistribution = Redistribution(source: RouteSource, metric: Option<U32>, routeMap: Option<string>)

  datatype NetworkType = Broadcast | NonBroadcast | PointToPoint | PointToMultipoint

  /** An OSPF area is a 32-bit number that the user may write in either notation. */
  datatype Area = Number(n: U32) | IpAddress(ip: Ipv4Addr)

  function AreaValue(a: Area): Ipv4Addr {
    match a
    case Number(n) => n
    case IpAddress(ip) => ip
  }

  // ----- Interfaces and peers -----

  datatype OpenfabricInterface =
    OpenfabricInterface(name: InterfaceName, helloMultiplier: Option<nat>, ip: Option<Ipv4Cidr>, ip6: Option<Ipv6Cidr>)

  datatype OspfInterface =
    OspfInterface(name: InterfaceName, ip: Option<Ipv4Cidr>, networkType: Option<NetworkType>)

  datatype PublicKey = PublicKey(bits: nat)
  datatype ServiceEndpoint = ServiceEndpoint(host: string, port: U16)

  datatype WireGuardInterface =
    WireGuardInterface(name: string, listenPort: U16, publicKey: PublicKey, ip: Option<Ipv4Cidr>, ip6: Option<Ipv6Cidr>)

  datatype Peer =
    | InternalPeer(node: NodeId, nodeIface: string, iface: string, host: Option<string>, allowedIps: seq<Cidr>)
    | ExternalPeer(node: NodeId, iface: string, service: Option<ServiceEndpoint>, allowedIps: seq<Cidr>)

  // ----- Nodes and fabrics -----

  datatype NodeProperties =
    | OpenfabricNode(openfabricInterfaces: seq<OpenfabricInterface>)
    | OspfNode(ospfInterfaces: seq<OspfInterface>)
    | WireGuardInternal(endpoint: Option<string>, tunnels: seq<WireGuardInterface>, peers: seq<Peer>,
                        allowedIps: seq<Cidr>)
    | WireGuardExternal(publicKey: PublicKey, service: ServiceEndpoint, allowedIps: seq<Cidr>)
    | BgpInternal(asn: U32, bgpInterfaces: seq<InterfaceName>)
    | BgpExternal(peerIp: Option<Ipv4Addr>)

  datatype Node = Node(id: NodeSectionId, ip: Option<Ipv4Addr>, ip6: Option<Ipv6Addr>, properties: NodeProperties)

  datatype FabricProperties =
    | OpenfabricFabric(helloInterval: Option<nat>, csnpInterval: Option<nat>, routeFilter: Option<string>)
    | OspfFabric(area: Area, routeFilter: Option<string>, redistribute: seq<Redistribution>)
    | WireGuardFabric(persistentKeepalive: Option<nat>)
    | BgpFabric(bfd: bool, redistribute: seq<Redistribution>, routeMapIn: Option<string>, routeMapOut: Option<string>,
                routeFilter: Option<string>)

  datatype Fabric =
    Fabric(id: FabricId, ipPrefix: Option<Ipv4Cidr>, ip6Prefix: Option<Ipv6Cidr>, properties: FabricProperties)

  function NodeProtocol(n: Node): Protocol {
    match n.properties
    case OpenfabricNode(_) => Openfabric
    case OspfNode(_) => Ospf
    case WireGuardInternal(_, _, _, _) => WireGuard
    case WireGuardExternal(_, _, _) => WireGuard
    case BgpInternal(_, _) => Bgp
    case BgpExternal(_) => Bgp
  }

  function FabricProtocol(f: Fabric): Protocol {
    match f.properties
    case OpenfabricFabric(_, _, _) => Openfabric
    case OspfFabric(_, _, _) => Ospf
    case WireGuardFabric(_) => WireGuard
    case BgpFabric(_, _, _, _, _) => Bgp
  }

  /** A fabric with its nodes. Its protocol is the fabric's. */
  datatype FabricEntry = FabricEntry(fabric: Fabric, nodes: map<NodeId, Node>)

  /** Interfaces used by the routing protocols. */
  function LinkNames(p: NodeProperties): seq<InterfaceName> {
    match p
    case OpenfabricNode(ifs) => seq(|ifs|, i requires 0 <= i < |ifs| => ifs[i].name)
    case OspfNode(ifs) => seq(|ifs|, i requires 0 <= i < |ifs| => ifs[i].name)
    case BgpInternal(_, names) => names
    case _ => []
  }

  /** The formats that the identifier types enforce. */
  ghost predicate EntryFormatted(e: FabricEntry) {
    IsFabricId(e.fabric.id) &&
    forall n :: n in e.nodes ==> IsNodeId(n) && forall x :: x in LinkNames(e.nodes[n].properties) ==> IsInterfaceName(x)
  }

  /** What adding nodes one by one guarantees: each sits under its own id, in its own
      fabric, and speaks the fabric's protocol. */
  ghost predicate EntryWellFormed(e: FabricEntry) {
    forall n :: n in e.nodes ==>
                  e.nodes[n].id == NodeSectionId(e.fabric.id, n) && NodeProtocol(e.nodes[n]) == FabricProtocol(e.fabric)
  }

  ghost predicate WellFormed(config: map<FabricId, FabricEntry>) {
    forall f :: f in config ==> config[f].fabric.id == f && EntryWellFormed(config[f]) && EntryFormatted(config[f])
  }

  function FabricIds(config: map<FabricId, FabricEntry>): (ids: seq<FabricId>)
    ensures forall f :: f in ids <==> f in config
  {
    SortedKeys(config.Keys)
  }

  function NodeIds(nodes: map<NodeId, Node>): (ids: seq<NodeId>)
    ensures forall n :: n in ids <==> n in nodes
  {
    SortedKeys(nodes.Keys)
  }

  lemma NodeIdsDistinct(nodes: map<NodeId, Node>)
    ensures NoDup(NodeIds(nodes))
  {
    SortedKeysAscend(nodes.Keys);
  }

  /** The entries in ascending order of their fabric ids. */
  function Values(config: map<FabricId, FabricEntry>): (es: seq<FabricEntry>)
  {
    var ids := FabricIds(config);
    seq(|ids|, i requires 0 <= i < |ids| =>
      assert ids[i] in ids;
      config[ids[i]])
  }

  /** A list of entries in strictly ascending order of their well-formed ids. */
  ghost predicate Ordered(es: seq<FabricEntry>) {
    (forall i :: 0 <= i < |es| ==> EntryWellFormed(es[i]) && EntryFormatted(es[i])) &&
    forall i, j :: 0 <= i < j < |es| ==> es[i].fabric.id != es[j].fabric.id && LexLe(es[i].fabric.id, es[j].fabric.id)
  }

  lemma ValuesOrdered(config: map<FabricId, FabricEntry>)
    requires WellFormed(config)
    ensures Ordered(Values(config))
    ensures forall e :: e in Values(config) <==> e.fabric.id in config && config[e.fabric.id] == e
  {
    var ids, es := FabricIds(config), Values(config);
    SortedKeysAscend(config.Keys);
    forall i | 0 <= i < |es| ensures ids[i] in config && es[i] == config[ids[i]] && es[i].fabric.id == ids[i] {
      assert ids[i] in ids;
    }
    forall e: FabricEntry | e.fabric.id in config && config[e.fabric.id] == e ensures e in es {
      var i :| 0 <= i < |ids| && ids[i] == e.fabric.id;
      assert es[i] == e;
    }
  }

  /** The names of a node's WireGuard interfaces. */
  function TunnelNames(p: NodeProperties): (names: seq<string>)
  {
    if p.WireGuardInternal? then seq(|p.tunnels|, i requires 0 <= i < |p.tunnels| => p.tunnels[i].name) else []
  }
}
