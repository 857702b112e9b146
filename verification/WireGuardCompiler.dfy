/** The compiler from fabrics to the WireGuard configuration of one node. */
module WireGuardCompiler {
  import opened Wrappers
  import opened Addresses
  import opened Identifiers
  import opened Collections
  import opened FabricModel

  datatype PrivateKey = PrivateKey(bits: nat)

  /** Private keys by node and interface. */
  type Keys = map<NodeId, map<string, PrivateKey>>

  function FindKey(keys: Keys, node: NodeId, iface: string): Option<PrivateKey> {
    if node in keys && iface in keys[node] then Some(keys[node][iface]) else None
  }

  datatype PeerConfig =
    PeerConfig(publicKey: PublicKey, allowedIps: seq<Cidr>, endpoint: Option<ServiceEndpoint>,
               persistentKeepalive: Option<nat>)

  datatype InterfaceConfig = InterfaceConfig(privateKey: PrivateKey, listenPort: U16, peers: seq<PeerConfig>)

  datatype BuildError = KeyMissing | NodeMissing | InterfaceMissing | InvalidCombination

  // ----- One peer -----

  function Host4(c: Ipv4Cidr): Cidr { Cidr4(Ipv4Cidr(c.addr, 32)) }
  function Host6(c: Ipv6Cidr): Cidr { Cidr6(Ipv6Cidr(c.addr, 128)) }

  /** The first interface with the given name. */
  function FindTunnel(ts: seq<WireGuardInterface>, name: string): (r: Option<WireGuardInterface>)
    ensures r.Some? <==> exists i :: 0 <= i < |ts| && ts[i].name == name
    ensures r.Some? ==> r.value in ts && r.value.name == name
  {
    if ts == [] then None
    else if ts[0].name == name then Some(ts[0])
    else
      var r := FindTunnel(ts[1..], name);
      assert forall i :: 0 < i < |ts| ==> ts[i] == ts[1..][i - 1];
      r
  }

  function AllowedIps(n: Node, p: Peer, t: WireGuardInterface): seq<Cidr>
    requires n.properties.WireGuardInternal? && p.InternalPeer?
  {
    (if n.ip.Some? then [Cidr4(Ipv4Cidr(n.ip.value, 32))] else []) +
    (if t.ip.Some? then [Host4(t.ip.value)] else []) +
    (if t.ip6.Some? then [Host6(t.ip6.value)] else []) +
    n.properties.allowedIps + p.allowedIps
  }

  function InternalPeerConfig(f: Fabric, n: Node, p: Peer, t: WireGuardInterface): PeerConfig
    requires f.properties.WireGuardFabric? && n.properties.WireGuardInternal? && p.InternalPeer?
  {
    var host := if p.host.Some? then p.host else n.properties.endpoint;
    PeerConfig(t.publicKey, AllowedIps(n, p, t),
               if host.Some? then Some(ServiceEndpoint(host.value, t.listenPort)) else None,
               f.properties.persistentKeepalive)
  }

  function ExternalPeerConfig(f: Fabric, n: Node, p: Peer): PeerConfig
    requires f.properties.WireGuardFabric? && n.properties.WireGuardExternal? && p.ExternalPeer?
  {
    PeerConfig(n.properties.publicKey, n.properties.allowedIps + p.allowedIps,
               Some(if p.service.Some? then p.service.value else n.properties.service),
               f.properties.persistentKeepalive)
  }

  /** What the definition of peer p adds to interface `name`: nothing if it attaches elsewhere. */
  function PeerFor(e: FabricEntry, name: string, p: Peer): Result<seq<PeerConfig>, BuildError>
    requires e.fabric.properties.WireGuardFabric?
  {
    if p.node !in e.nodes || NodeProtocol(e.nodes[p.node]) != WireGuard then Err(NodeMissing)
    else
      var n := e.nodes[p.node];
      if n.properties.WireGuardInternal? && p.InternalPeer? then
        if p.iface != name then Ok([])
        else
          var t := FindTunnel(n.properties.tunnels, p.nodeIface);
          if t.None? then Err(InterfaceMissing) else Ok([InternalPeerConfig(e.fabric, n, p, t.value)])
      else if n.properties.WireGuardExternal? && p.ExternalPeer? then
        if p.iface != name then Ok([]) else Ok([ExternalPeerConfig(e.fabric, n, p)])
      else Err(InvalidCombination)
  }

  function PeersFor(e: FabricEntry, name: string, peers: seq<Peer>): (rs: seq<Result<seq<PeerConfig>, BuildError>>)
    requires e.fabric.properties.WireGuardFabric?
    ensures |rs| == |peers| && forall i :: 0 <= i < |rs| ==> rs[i] == PeerFor(e, name, peers[i])
  {
    seq(|peers|, i requires 0 <= i < |peers| => PeerFor(e, name, peers[i]))
  }

  method BuildPeer(e: FabricEntry, name: string, p: Peer) returns (r: Result<seq<PeerConfig>, BuildError>)
    requires e.fabric.properties.WireGuardFabric?
    ensures r == PeerFor(e, name, p)
  {
    if p.node !in e.nodes || NodeProtocol(e.nodes[p.node]) != WireGuard {
      return Err(NodeMissing);
    }
    var n := e.nodes[p.node];
    var keepalive := e.fabric.properties.persistentKeepalive;
    if n.properties.WireGuardInternal? && p.InternalPeer? {
      if p.iface != name {
        return Ok([]);
      }
      var found := FindTunnel(n.properties.tunnels, p.nodeIface);
      if found.None? {
        return Err(InterfaceMissing);
      }
      var t := found.value;
      var host := if p.host.Some? then p.host else n.properties.endpoint;
      var endpoint := if host.Some? then Some(ServiceEndpoint(host.value, t.listenPort)) else None;
      var allowed := CollectAllowedIps(n, p, t);
      return Ok([PeerConfig(t.publicKey, allowed, endpoint, keepalive)]);
    }
    if n.properties.WireGuardExternal? && p.ExternalPeer? {
      if p.iface != name {
        return Ok([]);
      }
      var endpoint := if p.service.Some? then p.service.value else n.properties.service;
      return Ok([PeerConfig(n.properties.publicKey, n.properties.allowedIps + p.allowedIps, Some(endpoint),
                            keepalive)]);
    }
    return Err(InvalidCombination);
  }

  method CollectAllowedIps(n: Node, p: Peer, t: WireGuardInterface) returns (allowed: seq<Cidr>)
    requires n.properties.WireGuardInternal? && p.InternalPeer?
    ensures allowed == AllowedIps(n, p, t)
  {
    allowed := [];
    if n.ip.Some? {
      allowed := allowed + [Cidr4(Ipv4Cidr(n.ip.value, 32))];
    }
    if t.ip.Some? {
      allowed := allowed + [Host4(t.ip.value)];
    }
    if t.ip6.Some? {
      allowed := allowed + [Host6(t.ip6.value)];
    }
    allowed := allowed + n.properties.allowedIps;
    allowed := allowed + p.allowedIps;
  }

  method BuildPeers(e: FabricEntry, name: string, peers: seq<Peer>) returns (r: Result<seq<PeerConfig>, BuildError>)
    requires e.fabric.properties.WireGuardFabric?
    ensures r == Gather(PeersFor(e, name, peers))
  {
    ghost var rs := PeersFor(e, name, peers);
    var configs := [];
    for i := 0 to |peers|
      invariant Gather(rs[..i]) == Ok(configs)
    {
      GatherStep(rs, i);
      var step := BuildPeer(e, name, peers[i]);
      if step.Err? {
        GatherStops(rs, i + 1);
        return Err(step.error);
      }
      configs := configs + step.value;
    }
    assert rs[..|peers|] == rs;
    r := Ok(configs);
  }

  // ----- The interfaces of the node -----

  type Binding = (string, InterfaceConfig)

  function TunnelFor(e: FabricEntry, node: NodeId, keys: Keys, peers: seq<Peer>,
                     t: WireGuardInterface): Result<seq<Binding>, BuildError>
    requires e.fabric.properties.WireGuardFabric?
  {
    var key := FindKey(keys, node, t.name);
    if key.None? then Err(KeyMissing)
    else
      match Gather(PeersFor(e, t.name, peers))
      case Err(err) => Err(err)
      case Ok(cs) => Ok([(t.name, InterfaceConfig(key.value, t.listenPort, cs))])
  }

  function TunnelsFor(e: FabricEntry, node: NodeId, keys: Keys, peers: seq<Peer>, ts: seq<WireGuardInterface>)
    : (rs: seq<Result<seq<Binding>, BuildError>>)
    requires e.fabric.properties.WireGuardFabric?
    ensures |rs| == |ts| && forall i :: 0 <= i < |rs| ==> rs[i] == TunnelFor(e, node, keys, peers, ts[i])
  {
    seq(|ts|, i requires 0 <= i < |ts| => TunnelFor(e, node, keys, peers, ts[i]))
  }

  /** The node is an internal node of a WireGuard fabric. */
  predicate IsMember(e: FabricEntry, node: NodeId) {
    e.fabric.properties.WireGuardFabric? && node in e.nodes && e.nodes[node].properties.WireGuardInternal?
  }

  function EntryFor(e: FabricEntry, node: NodeId, keys: Keys): Result<seq<Binding>, BuildError> {
    if IsMember(e, node)
    then Gather(TunnelsFor(e, node, keys, e.nodes[node].properties.peers, e.nodes[node].properties.tunnels))
    else Ok([])
  }

  function EntriesFor(es: seq<FabricEntry>, node: NodeId, keys: Keys): (rs: seq<Result<seq<Binding>, BuildError>>)
    ensures |rs| == |es| && forall i :: 0 <= i < |rs| ==> rs[i] == EntryFor(es[i], node, keys)
  {
    seq(|es|, i requires 0 <= i < |es| => EntryFor(es[i], node, keys))
  }

  /** The compiled configuration: each interface is inserted under its name. */
  function Compiled(es: seq<FabricEntry>, node: NodeId, keys: Keys): Result<map<string, InterfaceConfig>, BuildError> {
    Inserted(map[], Gather(EntriesFor(es, node, keys)))
  }

  function Inserted(config: map<string, InterfaceConfig>, bs: Result<seq<Binding>, BuildError>)
    : Result<map<string, InterfaceConfig>, BuildError>
  {
    if bs.Ok? then Ok(InsertAll(config, bs.value)) else Err(bs.error)
  }

  method Build(es: seq<FabricEntry>, node: NodeId, keys: Keys)
    returns (r: Result<map<string, InterfaceConfig>, BuildError>)
    ensures r == Compiled(es, node, keys)
  {
    ghost var rs := EntriesFor(es, node, keys);
    ghost var bs: seq<Binding> := [];
    var config: map<string, InterfaceConfig> := map[];
    for i := 0 to |es|
      invariant Gather(rs[..i]) == Ok(bs) && config == InsertAll(map[], bs)
    {
      GatherStep(rs, i);
      if !es[i].fabric.properties.WireGuardFabric? || node !in es[i].nodes ||
         !es[i].nodes[node].properties.WireGuardInternal? {
        assert bs + [] == bs;
        continue;
      }
      var step := BuildEntry(es[i], node, keys, config);
      if step.Err? {
        GatherStops(rs, i + 1);
        return Err(step.error);
      }
      config := step.value;
      InsertAllConcat(map[], bs, rs[i].value);
      bs := bs + rs[i].value;
    }
    assert rs[..|es|] == rs;
    r := Ok(config);
  }

  method BuildEntry(e: FabricEntry, node: NodeId, keys: Keys, config: map<string, InterfaceConfig>)
    returns (r: Result<map<string, InterfaceConfig>, BuildError>)
    requires IsMember(e, node)
    ensures r == Inserted(config, EntryFor(e, node, keys))
  {
    var p := e.nodes[node].properties;
    ghost var rs := TunnelsFor(e, node, keys, p.peers, p.tunnels);
    ghost var bs: seq<Binding> := [];
    var config' := config;
    for i := 0 to |p.tunnels|
      invariant Gather(rs[..i]) == Ok(bs) && config' == InsertAll(config, bs)
    {
      GatherStep(rs, i);
      var t := p.tunnels[i];
      var key := FindKey(keys, node, t.name);
      if key.None? {
        GatherStops(rs, i + 1);
        return Err(KeyMissing);
      }
      var peers := BuildPeers(e, t.name, p.peers);
      if peers.Err? {
        GatherStops(rs, i + 1);
        return Err(peers.error);
      }
      var built := InterfaceConfig(key.value, t.listenPort, peers.value);
      InsertAllConcat(config, bs, [(t.name, built)]);
      InsertOne(config', t.name, built);
      config' := config'[t.name := built];
      bs := bs + [(t.name, built)];
    }
    assert rs[..|p.tunnels|] == rs;
    r := Ok(config');
  }

  lemma InsertOne<K, V>(m: map<K, V>, k: K, v: V)
    ensures InsertAll(m, [(k, v)]) == m[k := v]
  {
    assert [(k, v)][1..] == [];
  }
}
