/** What makes a fabric configuration valid, stated without reference to how the
    validator goes about checking it. */
module FabricRules {
  import opened Wrappers
  import opened Addresses
  import opened Identifiers
  import opened Collections
  import opened FabricModel
  import RouterId

  // ----- Rules within one fabric -----

  ghost predicate NodeSectionOk(n: Node) {
    match n.properties
    case OpenfabricNode(_) => n.ip.Some? || n.ip6.Some?
    case OspfNode(_) => n.ip.Some? && n.ip6.None?
    case WireGuardInternal(_, tunnels, peers, _) =>
      NoDup(TunnelNames(n.properties)) && NoDup(Ports(tunnels)) &&
      forall p :: p in peers ==> p.iface in TunnelNames(n.properties)
    case _ => true
  }

  function Ports(tunnels: seq<WireGuardInterface>): seq<U16> {
    seq(|tunnels|, i requires 0 <= i < |tunnels| => tunnels[i].listenPort)
  }

  predicate FabricSectionOk(f: Fabric) {
    match f.properties
    case OpenfabricFabric(_, _, _) => f.ipPrefix.Some? || f.ip6Prefix.Some?
    case OspfFabric(_, _, _) => f.ipPrefix.Some? && f.ip6Prefix.None?
    case WireGuardFabric(_) => true
    case BgpFabric(_, _, _, _, _) => f.ipPrefix.Some? || f.ip6Prefix.Some?
  }

  /** The values that no two nodes of a fabric may share. */
  datatype NodeKey = Address4 | Address6 | RouterIdentity

  function KeyOf(k: NodeKey, n: Node): Option<int> {
    match k
    case Address4 => if n.ip.Some? then Some(n.ip.value) else None
    case Address6 => if n.ip6.Some? then Some(n.ip6.value) else None
    case RouterIdentity => if n.properties.BgpInternal? then BgpRouterId(n) else None
  }

  ghost predicate Unique(k: NodeKey, e: FabricEntry) {
    forall n, m :: n in e.nodes && m in e.nodes && n != m && KeyOf(k, e.nodes[n]).Some? ==>
                     KeyOf(k, e.nodes[n]) != KeyOf(k, e.nodes[m])
  }

  ghost predicate UniqueAddresses(e: FabricEntry) {
    Unique(Address4, e) && Unique(Address6, e)
  }

  /** A node has an address of a family exactly when its fabric has a prefix of that
      family, and the address lies in the prefix. */
  ghost predicate AddressesInPrefix(f: Fabric, n: Node) {
    (f.ipPrefix.Some? <==> n.ip.Some?) && (f.ip6Prefix.Some? <==> n.ip6.Some?) &&
    (n.ip.Some? ==> Contains4(f.ipPrefix.value, n.ip.value)) &&
    (n.ip6.Some? ==> Contains6(f.ip6Prefix.value, n.ip6.value))
  }

  ghost predicate NodeOk(f: Fabric, n: Node) {
    NodeSectionOk(n) && AddressesInPrefix(f, n)
  }

  /** The addresses configured on a WireGuard interface. */
  function TunnelAddresses(t: WireGuardInterface): seq<Cidr> {
    (if t.ip.Some? then [Cidr4(t.ip.value)] else []) + (if t.ip6.Some? then [Cidr6(t.ip6.value)] else [])
  }

  function TunnelsAddresses(ts: seq<WireGuardInterface>): seq<Cidr> {
    if ts == [] then [] else TunnelsAddresses(ts[..|ts| - 1]) + TunnelAddresses(ts[|ts| - 1])
  }

  function NodeTunnelAddresses(e: FabricEntry, n: NodeId): seq<Cidr> {
    if n in e.nodes && e.nodes[n].properties.WireGuardInternal? then TunnelsAddresses(e.nodes[n].properties.tunnels)
       else []
  }

  function AllTunnelAddresses(e: FabricEntry, ids: seq<NodeId>): seq<Cidr> {
    if ids == [] then []
    else AllTunnelAddresses(e, ids[..|ids| - 1]) + NodeTunnelAddresses(e, ids[|ids| - 1])
  }

  /** The peer of a WireGuard node names an existing interface or external node. */
  ghost predicate PeerResolved(e: FabricEntry, p: Peer) {
    p.node in e.nodes &&
    match p
    case InternalPeer(node, nodeIface, _, _, _) => nodeIface in TunnelNames(e.nodes[node].properties)
    case ExternalPeer(node, _, _, _) => e.nodes[node].properties.WireGuardExternal?
  }

  ghost predicate PeersResolved(e: FabricEntry) {
    forall n, p :: n in e.nodes && e.nodes[n].properties.WireGuardInternal? && p in e.nodes[n].properties.peers ==>
                     PeerResolved(e, p)
  }

  function BgpRouterId(n: Node): Option<Ipv4Addr> {
    if n.ip.Some? then n.ip
    else if n.ip6.Some? then Some(RouterId.Fnv(RouterId.FNV_OFFSET, Octets6(n.ip6.value)))
    else None
  }

  /** Section 2.1 of RFC 6286: router-ids are non-zero and unique. */
  ghost predicate RouterIdsOk(e: FabricEntry) {
    (forall n :: n in e.nodes ==> KeyOf(RouterIdentity, e.nodes[n]) != Some(0)) && Unique(RouterIdentity, e)
  }

  ghost predicate EntryOk(e: FabricEntry) {
    && FabricSectionOk(e.fabric)
    && (forall n :: n in e.nodes ==> NodeOk(e.fabric, e.nodes[n]))
    && UniqueAddresses(e)
    && (e.fabric.properties.WireGuardFabric? ==>
          NoDup(AllTunnelAddresses(e, NodeIds(e.nodes))) && PeersResolved(e))
    && (e.fabric.properties.BgpFabric? ==> RouterIdsOk(e))
  }

  // ----- Rules across fabrics -----

  /** What a node claims for itself on its host: links shared by the routing protocols,
      names of WireGuard interfaces, and the ports these listen on. */
  datatype Claim = Link(name: string) | Tunnel(name: string) | Port(port: U16)

  function Links(names: seq<string>): (cs: seq<Claim>)
    ensures |cs| == |names| && forall i :: 0 <= i < |cs| ==> cs[i] == Link(names[i])
  {
    seq(|names|, i requires 0 <= i < |names| => Link(names[i]))
  }

  function Tunnels(names: seq<string>): (cs: seq<Claim>)
    ensures |cs| == |names| && forall i :: 0 <= i < |cs| ==> cs[i] == Tunnel(names[i])
  {
    seq(|names|, i requires 0 <= i < |names| => Tunnel(names[i]))
  }

  function PortClaims(ports: seq<U16>): (cs: seq<Claim>)
    ensures |cs| == |ports| && forall i :: 0 <= i < |cs| ==> cs[i] == Port(ports[i])
  {
    seq(|ports|, i requires 0 <= i < |ports| => Port(ports[i]))
  }

  function NodeClaims(p: NodeProperties): seq<Claim> {
    if p.WireGuardInternal? then Tunnels(TunnelNames(p)) + PortClaims(Ports(p.tunnels))
    else Links(LinkNames(p))
  }

  function Claims(e: FabricEntry, n: NodeId): seq<Claim> {
    if n in e.nodes then NodeClaims(e.nodes[n].properties) else []
  }

  /** Everything node n claims, over all fabrics. */
  function AllClaims(es: seq<FabricEntry>, n: NodeId): seq<Claim> {
    if es == [] then [] else AllClaims(es[..|es| - 1], n) + Claims(es[|es| - 1], n)
  }

  function Areas(es: seq<FabricEntry>): seq<Ipv4Addr> {
    if es == [] then []
    else
      var p := es[|es| - 1].fabric.properties;
      Areas(es[..|es| - 1]) + (if p.OspfFabric? then [AreaValue(p.area)] else [])
  }

  predicate Apart4(f: Fabric, g: Fabric) {
    f.ipPrefix.Some? && g.ipPrefix.Some? ==> !Overlaps4(f.ipPrefix.value, g.ipPrefix.value)
  }

  predicate Apart6(f: Fabric, g: Fabric) {
    f.ip6Prefix.Some? && g.ip6Prefix.Some? ==> !Overlaps6(f.ip6Prefix.value, g.ip6Prefix.value)
  }

  ghost predicate PrefixesDisjoint(es: seq<FabricEntry>) {
    forall i, j :: 0 <= i < j < |es| ==> Apart4(es[i].fabric, es[j].fabric) && Apart6(es[i].fabric, es[j].fabric)
  }

  ghost predicate ConfigOk(es: seq<FabricEntry>) {
    && PrefixesDisjoint(es)
    && NoDup(Areas(es))
    && (forall n: NodeId :: NoDup(AllClaims(es, n)))
    && (forall i :: 0 <= i < |es| ==> EntryOk(es[i]))
  }

  // ----- The rule behind each error -----

  datatype FabricConfigError =
    | FabricDoesNotExist | NodeDoesNotExist | DuplicateFabric | DuplicateNode | FabricIdMismatch | ProtocolMismatch
    | NodeIpOutsideFabricRange | DuplicateNodeIp | FabricNoIpPrefixForNode | NodeNoIpForFabricPrefix
    | FabricNoIpPrefix | NodeNoIp | Ipv6Unsupported | DuplicateInterface | DuplicatePort | DuplicateOspfArea
    | DuplicateBgpRouterId | InvalidBgpRouterId | OverlappingIp4Prefix | OverlappingIp6Prefix
    | InvalidLocalInterfaceReference | InvalidRemoteInterfaceReference | InvalidExternalNodeReference

  /** The node itself breaks the rule: an address its protocol needs is missing, it has one that
      its protocol cannot use, interface names or ports repeat, or a peer attaches to nothing. */
  ghost predicate NodeBreaks(n: Node, err: FabricConfigError) {
    var p := n.properties;
    match err
    case NodeNoIp => n.ip.None? && (p.OspfNode? || (p.OpenfabricNode? && n.ip6.None?))
    case Ipv6Unsupported => p.OspfNode? && n.ip6.Some?
    case DuplicateInterface => p.WireGuardInternal? && !NoDup(TunnelNames(p))
    case DuplicatePort => p.WireGuardInternal? && !NoDup(Ports(p.tunnels))
    case InvalidLocalInterfaceReference => p.WireGuardInternal? &&
                                           exists q :: q in p.peers && q.iface !in TunnelNames(p)
    case _ => false
  }

  predicate FabricBreaks(f: Fabric, err: FabricConfigError) {
    match err
    case FabricNoIpPrefix =>
      f.ipPrefix.None? && (f.properties.OspfFabric? || (!f.properties.WireGuardFabric? && f.ip6Prefix.None?))
    case Ipv6Unsupported => f.properties.OspfFabric? && f.ip6Prefix.Some?
    case _ => false
  }

  /** The addresses of the node and the prefixes of the fabric break the rule in one of the families. */
  predicate AddressBreaks(f: Fabric, n: Node, err: FabricConfigError) {
    match err
    case FabricNoIpPrefixForNode => (n.ip.Some? && f.ipPrefix.None?) || (n.ip6.Some? && f.ip6Prefix.None?)
    case NodeNoIpForFabricPrefix => (n.ip.None? && f.ipPrefix.Some?) || (n.ip6.None? && f.ip6Prefix.Some?)
    case NodeIpOutsideFabricRange =>
      (n.ip.Some? && f.ipPrefix.Some? && !Contains4(f.ipPrefix.value, n.ip.value)) ||
      (n.ip6.Some? && f.ip6Prefix.Some? && !Contains6(f.ip6Prefix.value, n.ip6.value))
    case _ => false
  }

  /** Some peer of the kind that the error is about names nothing that exists. */
  ghost predicate PeerBreaks(e: FabricEntry, err: FabricConfigError) {
    exists n, p :: n in e.nodes && e.nodes[n].properties.WireGuardInternal? && p in e.nodes[n].properties.peers &&
                   !PeerResolved(e, p) &&
                   (if p.InternalPeer? then err.InvalidRemoteInterfaceReference? else err.InvalidExternalNodeReference?)
  }

  ghost predicate NodesOk(e: FabricEntry) {
    UniqueAddresses(e) && forall n :: n in e.nodes ==> NodeOk(e.fabric, e.nodes[n])
  }

  ghost predicate RouterIdBreaks(e: FabricEntry, err: FabricConfigError) {
    match err
    case InvalidBgpRouterId => exists n :: n in e.nodes && KeyOf(RouterIdentity, e.nodes[n]) == Some(0)
    case DuplicateBgpRouterId => !Unique(RouterIdentity, e)
    case _ => false
  }

  /** Entry e breaks the rule that the error reports. Router-ids are only looked at when the
      nodes' addresses are in order. */
  ghost predicate EntryBreaks(e: FabricEntry, err: FabricConfigError) {
    match err
    case DuplicateNodeIp =>
      !UniqueAddresses(e) ||
      (e.fabric.properties.WireGuardFabric? && !NoDup(AllTunnelAddresses(e, NodeIds(e.nodes))))
    case InvalidRemoteInterfaceReference => e.fabric.properties.WireGuardFabric? && PeerBreaks(e, err)
    case InvalidExternalNodeReference => e.fabric.properties.WireGuardFabric? && PeerBreaks(e, err)
    case InvalidBgpRouterId => e.fabric.properties.BgpFabric? && NodesOk(e) && RouterIdBreaks(e, err)
    case DuplicateBgpRouterId => e.fabric.properties.BgpFabric? && NodesOk(e) && RouterIdBreaks(e, err)
    case _ =>
      FabricBreaks(e.fabric, err) ||
      exists n :: n in e.nodes && (NodeBreaks(e.nodes[n], err) || AddressBreaks(e.fabric, e.nodes[n], err))
  }

  /** A claim is made twice: a port, or else the name of an interface. */
  ghost predicate Repeats(cs: seq<Claim>, ports: bool) {
    exists a, b :: 0 <= a < b < |cs| && cs[a] == cs[b] && cs[a].Port? == ports
  }

  ghost predicate ConfigBreaks(es: seq<FabricEntry>, err: FabricConfigError) {
    match err
    case OverlappingIp4Prefix => exists i, j :: 0 <= i < j < |es| && !Apart4(es[i].fabric, es[j].fabric)
    case OverlappingIp6Prefix => exists i, j :: 0 <= i < j < |es| && !Apart6(es[i].fabric, es[j].fabric)
    case DuplicateOspfArea => !NoDup(Areas(es))
    case DuplicateInterface => exists n: NodeId :: Repeats(AllClaims(es, n), false)
    case DuplicatePort => exists n: NodeId :: Repeats(AllClaims(es, n), true)
    case _ => exists i :: 0 <= i < |es| && EntryBreaks(es[i], err)
  }

  lemma BrokenEntryIsNotOk(e: FabricEntry, err: FabricConfigError)
    requires EntryBreaks(e, err)
    ensures !EntryOk(e)
  {
    if n :| n in e.nodes && (NodeBreaks(e.nodes[n], err) || AddressBreaks(e.fabric, e.nodes[n], err)) {
      assert !NodeOk(e.fabric, e.nodes[n]);
    }
  }

  lemma BrokenEntrySpoils(es: seq<FabricEntry>, i: nat, err: FabricConfigError)
    requires i < |es| && EntryBreaks(es[i], err)
    ensures !ConfigOk(es)
  {
    BrokenEntryIsNotOk(es[i], err);
  }

  lemma RepeatedClaimSpoils(es: seq<FabricEntry>, n: NodeId, ports: bool)
    requires Repeats(AllClaims(es, n), ports)
    ensures !ConfigOk(es)
  {
    assert !NoDup(AllClaims(es, n));
  }

  /** An error is only reported for a configuration that is not valid. */
  lemma BrokenIsNotOk(es: seq<FabricEntry>, err: FabricConfigError)
    requires ConfigBreaks(es, err)
    ensures !ConfigOk(es)
  {
    if i :| 0 <= i < |es| && EntryBreaks(es[i], err) {
      BrokenEntrySpoils(es, i, err);
    } else if n: NodeId, ports :| Repeats(AllClaims(es, n), ports) {
      RepeatedClaimSpoils(es, n, ports);
    }
  }
}
