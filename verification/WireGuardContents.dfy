/** What the compiled WireGuard interfaces of a node say, read off the result and compared with what
    the user configured: keys, ports, and for each peer its endpoint and the addresses it may use. */
module WireGuardContents {
  import opened Wrappers
  import opened Addresses
  import opened Identifiers
  import opened Collections
  import opened FabricModel
  import opened FabricRules
  import opened WireGuardCompiler
  import opened WireGuardGuarantees
  import FabricValidation
  import FrrIdentity

  // ----- One peer -----

  /** The peer is told where to find the remote interface: at the peer definition's own host, else at
      the remote node's endpoint, nowhere exactly if neither is given; always on the port that
      the remote interface listens on. */
  ghost predicate ReachesInterface(c: PeerConfig, p: Peer, n: Node, t: WireGuardInterface)
    requires p.InternalPeer? && n.properties.WireGuardInternal?
  {
    (c.endpoint.None? <==> p.host.None? && n.properties.endpoint.None?) &&
    (p.host.Some? ==> c.endpoint == Some(ServiceEndpoint(p.host.value, t.listenPort))) &&
    (p.host.None? && n.properties.endpoint.Some? ==>
       c.endpoint == Some(ServiceEndpoint(n.properties.endpoint.value, t.listenPort)))
  }

  /** It may use the remote node's address and those of the remote interface, and then what the
      remote node and the peer definition list. */
  ghost predicate MayUseInterface(c: PeerConfig, p: Peer, n: Node, t: WireGuardInterface)
    requires p.InternalPeer? && n.properties.WireGuardInternal?
  {
    c.allowedIps == (if n.ip.Some? then [Cidr4(Ipv4Cidr(n.ip.value, 32))] else []) +
                    (if t.ip.Some? then [Cidr4(Ipv4Cidr(t.ip.value.addr, 32))] else []) +
                    (if t.ip6.Some? then [Cidr6(Ipv6Cidr(t.ip6.value.addr, 128))] else []) +
                    n.properties.allowedIps + p.allowedIps
  }

  /** The configuration of a peer that is an interface of another node of the fabric. */
  ghost predicate DescribesInterface(c: PeerConfig, p: Peer, n: Node, t: WireGuardInterface)
    requires p.InternalPeer? && n.properties.WireGuardInternal?
  {
    c.publicKey == t.publicKey && ReachesInterface(c, p, n, t) && MayUseInterface(c, p, n, t)
  }

  /** The configuration of a peer outside: the peer definition's endpoint, else the external node's. */
  ghost predicate DescribesExternal(c: PeerConfig, p: Peer, n: Node)
    requires p.ExternalPeer? && n.properties.WireGuardExternal?
  {
    c.publicKey == n.properties.publicKey &&
    (p.service.Some? ==> c.endpoint == p.service) &&
    (p.service.None? ==> c.endpoint == Some(n.properties.service)) &&
    c.allowedIps == n.properties.allowedIps + p.allowedIps
  }

  ghost predicate Describes(e: FabricEntry, p: Peer, c: PeerConfig) {
    e.fabric.properties.WireGuardFabric? && p.node in e.nodes &&
    c.persistentKeepalive == e.fabric.properties.persistentKeepalive &&
    var n := e.nodes[p.node];
    match p
    case InternalPeer(_, nodeIface, _, _, _) =>
      n.properties.WireGuardInternal? &&
      exists t :: t in n.properties.tunnels && t.name == nodeIface && DescribesInterface(c, p, n, t)
    case ExternalPeer(_, _, _, _) => n.properties.WireGuardExternal? && DescribesExternal(c, p, n)
  }

  lemma InternalDescribed(f: Fabric, n: Node, p: Peer, t: WireGuardInterface)
    requires f.properties.WireGuardFabric? && n.properties.WireGuardInternal? && p.InternalPeer?
    ensures DescribesInterface(InternalPeerConfig(f, n, p, t), p, n, t)
  {
  }

  lemma ConfigDescribes(e: FabricEntry, p: Peer)
    requires EntryWellFormed(e) && e.fabric.properties.WireGuardFabric? && PeerResolved(e, p)
    ensures Describes(e, p, ConfigOf(e, p))
  {
    PeerSucceeds(e, p, p.iface);
    if p.InternalPeer? {
      var j := ToldAbout(e, p);
      var t := e.nodes[p.node].properties.tunnels[j];
      InternalDescribed(e.fabric, e.nodes[p.node], p, t);
      assert t in e.nodes[p.node].properties.tunnels;
    }
  }

  // ----- The compiled interfaces -----

  /** A compiled interface has the private key that is stored for it and the port of its section, and
      its peers are, one by one, what the peer definitions that attach to it ask for. */
  lemma InterfaceContents(es: seq<FabricEntry>, node: NodeId, keys: Keys, i: nat, j: nat)
    requires Ordered(es) && ConfigOk(es) && AllKeys(es, node, keys)
    requires i < |es| && IsMember(es[i], node) && j < |es[i].nodes[node].properties.tunnels|
    ensures var p := es[i].nodes[node].properties;
            var t := p.tunnels[j];
            Compiled(es, node, keys).Ok? && t.name in Compiled(es, node, keys).value &&
            var c, attached := Compiled(es, node, keys).value[t.name], AttachedTo(p.peers, t.name);
            node in keys && t.name in keys[node] && c.privateKey == keys[node][t.name] &&
            c.listenPort == t.listenPort && |c.peers| == |attached| &&
            forall k :: 0 <= k < |attached| ==> Describes(es[i], attached[k], c.peers[k])
  {
    var p := es[i].nodes[node].properties;
    var t := p.tunnels[j];
    InterfaceAt(es, node, keys, i, j);
    CompiledPeers(es, node, keys, i, j);
    var c, attached := Compiled(es, node, keys).value[t.name], AttachedTo(p.peers, t.name);
    forall k | 0 <= k < |attached| ensures Describes(es[i], attached[k], c.peers[k]) {
      ConfigDescribes(es[i], attached[k]);
    }
  }

  /** Every peer definition of the node has a peer of its kind on the interface it attaches to. */
  lemma PeerContents(es: seq<FabricEntry>, node: NodeId, keys: Keys, i: nat, p: Peer)
    requires Ordered(es) && ConfigOk(es) && AllKeys(es, node, keys)
    requires i < |es| && IsMember(es[i], node) && p in es[i].nodes[node].properties.peers
    ensures Compiled(es, node, keys).Ok? && p.iface in Compiled(es, node, keys).value
    ensures exists c :: c in Compiled(es, node, keys).value[p.iface].peers && Describes(es[i], p, c)
  {
    PeerCompiled(es, node, keys, i, p);
    ConfigDescribes(es[i], p);
  }

  // ----- What a peer may use -----

  predicate AnyContains(blocks: seq<Cidr>, a: IpAddr) {
    exists i :: 0 <= i < |blocks| && Contains(blocks[i], a)
  }

  lemma AnyContainsConcat(x: seq<Cidr>, y: seq<Cidr>, a: IpAddr)
    ensures AnyContains(x + y, a) <==> AnyContains(x, a) || AnyContains(y, a)
  {
    if i :| 0 <= i < |x| && Contains(x[i], a) {
      assert (x + y)[i] == x[i];
    }
    if i :| 0 <= i < |y| && Contains(y[i], a) {
      assert (x + y)[|x| + i] == y[i];
    }
  }

  /** A block of full length contains its own address only. */
  lemma HostBlock4(a: Option<Ipv4Addr>, x: IpAddr)
    ensures var blocks := if a.Some? then [Cidr4(Ipv4Cidr(a.value, 32))] else [];
            AnyContains(blocks, x) <==> a.Some? && x == V4(a.value)
  {
    if a.Some? {
      var b := [Cidr4(Ipv4Cidr(a.value, 32))];
      assert AnyContains(b, x) <==> Contains(b[0], x);
    }
  }

  lemma HostBlock6(a: Option<Ipv6Addr>, x: IpAddr)
    ensures var blocks := if a.Some? then [Cidr6(Ipv6Cidr(a.value, 128))] else [];
            AnyContains(blocks, x) <==> a.Some? && x == V6(a.value)
  {
    if a.Some? {
      var b := [Cidr6(Ipv6Cidr(a.value, 128))];
      assert AnyContains(b, x) <==> Contains(b[0], x);
    }
  }

  /** The addresses that an interface of another node may use: that node's, the interface's own, and
      what the two lists contain. */
  lemma AddressesOfInterface(c: PeerConfig, p: Peer, n: Node, t: WireGuardInterface, x: IpAddr)
    requires p.InternalPeer? && n.properties.WireGuardInternal? && DescribesInterface(c, p, n, t)
    ensures AnyContains(c.allowedIps, x) <==>
            (n.ip.Some? && x == V4(n.ip.value)) || (t.ip.Some? && x == V4(t.ip.value.addr)) ||
            (t.ip6.Some? && x == V6(t.ip6.value.addr)) ||
            AnyContains(n.properties.allowedIps, x) || AnyContains(p.allowedIps, x)
  {
    var own4 := if n.ip.Some? then [Cidr4(Ipv4Cidr(n.ip.value, 32))] else [];
    var tunnel4 := if t.ip.Some? then [Cidr4(Ipv4Cidr(t.ip.value.addr, 32))] else [];
    var tunnel6 := if t.ip6.Some? then [Cidr6(Ipv6Cidr(t.ip6.value.addr, 128))] else [];
    HostBlock4(n.ip, x);
    HostBlock4(if t.ip.Some? then Some(t.ip.value.addr) else None, x);
    HostBlock6(if t.ip6.Some? then Some(t.ip6.value.addr) else None, x);
    AnyContainsConcat(own4, tunnel4, x);
    AnyContainsConcat(own4 + tunnel4, tunnel6, x);
    AnyContainsConcat(own4 + tunnel4 + tunnel6, n.properties.allowedIps, x);
    AnyContainsConcat(own4 + tunnel4 + tunnel6 + n.properties.allowedIps, p.allowedIps, x);
  }

  // ----- Ports -----

  /** No two interfaces of a node listen on the same port, whichever fabrics they are in. */
  lemma ListenPortsDistinct(es: seq<FabricEntry>, node: NodeId, keys: Keys, i: nat, j: nat, k: nat, l: nat)
    requires Ordered(es) && ConfigOk(es) && AllKeys(es, node, keys) && i < |es| && k < |es|
    requires IsMember(es[i], node) && j < |es[i].nodes[node].properties.tunnels|
    requires IsMember(es[k], node) && l < |es[k].nodes[node].properties.tunnels| && (i, j) != (k, l)
    ensures Compiled(es, node, keys).Ok?
    ensures var m := Compiled(es, node, keys).value;
            var x, y := es[i].nodes[node].properties.tunnels[j].name, es[k].nodes[node].properties.tunnels[l].name;
            x in m && y in m && x != y && m[x].listenPort != m[y].listenPort
  {
    InterfaceContents(es, node, keys, i, j);
    InterfaceContents(es, node, keys, k, l);
    PortsAndNamesApart(es, node, i, j, k, l);
  }

  lemma PortsAndNamesApart(es: seq<FabricEntry>, node: NodeId, i: nat, j: nat, k: nat, l: nat)
    requires NoDup(AllClaims(es, node)) && i < |es| && k < |es|
    requires IsMember(es[i], node) && j < |es[i].nodes[node].properties.tunnels|
    requires IsMember(es[k], node) && l < |es[k].nodes[node].properties.tunnels| && (i, j) != (k, l)
    ensures var s, t := es[i].nodes[node].properties.tunnels[j], es[k].nodes[node].properties.tunnels[l];
            s.name != t.name && s.listenPort != t.listenPort
  {
    var s := es[i].nodes[node].properties.tunnels[j];
    if i == k {
      FrrIdentity.ClaimsSeparate(es, node, i, i, Port(s.listenPort));
      ApartInNode(es[i].nodes[node].properties, j, l);
    } else {
      TunnelClaimed(es[i], node, j);
      TunnelClaimed(es[k], node, l);
      FrrIdentity.ClaimsSeparate(es, node, i, k, Port(s.listenPort));
      FrrIdentity.ClaimsSeparate(es, node, i, k, Tunnel(s.name));
    }
  }

  lemma ApartInNode(p: NodeProperties, j: nat, l: nat)
    requires p.WireGuardInternal? && NoDup(NodeClaims(p)) && j < |p.tunnels| && l < |p.tunnels| && j != l
    ensures p.tunnels[j].name != p.tunnels[l].name && p.tunnels[j].listenPort != p.tunnels[l].listenPort
  {
    FabricValidation.TunnelClaimsNoDup(p);
    assert TunnelNames(p)[j] == p.tunnels[j].name && TunnelNames(p)[l] == p.tunnels[l].name;
    assert Ports(p.tunnels)[j] == p.tunnels[j].listenPort && Ports(p.tunnels)[l] == p.tunnels[l].listenPort;
  }

  lemma TunnelClaimed(e: FabricEntry, node: NodeId, j: nat)
    requires IsMember(e, node) && j < |e.nodes[node].properties.tunnels|
    ensures var t := e.nodes[node].properties.tunnels[j];
            Tunnel(t.name) in Claims(e, node) && Port(t.listenPort) in Claims(e, node)
  {
    var p := e.nodes[node].properties;
    FabricValidation.TunnelClaimsNoDup(p);
    assert TunnelNames(p)[j] == p.tunnels[j].name && Ports(p.tunnels)[j] == p.tunnels[j].listenPort;
  }
}
