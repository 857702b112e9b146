/** The validator of a fabric configuration: nested loops over hash sets with early
    exits. Each method accepts exactly what the rules allow, and names a broken rule
    when it rejects. */
module FabricValidation {
  import opened Wrappers
  import opened Addresses
  import opened Identifiers
  import opened Collections
  import opened FabricModel
  import opened FabricRules
  import RouterId
  import RouterIdCollisions

  /** Inserts (node, item) for every item until one is already present. */
  method InsertAllNew<T(==)>(seen: set<(NodeId, T)>, node: NodeId, items: seq<T>)
    returns (isNew: bool, result: set<(NodeId, T)>)
    ensures isNew <==> NoDup(items) && forall x :: x in items ==> (node, x) !in seen
    ensures isNew ==> forall m, x :: (m, x) in result <==> (m, x) in seen || (m == node && x in items)
  {
    result := seen;
    for i := 0 to |items|
      invariant NoDup(items[..i]) && forall x :: x in items[..i] ==> (node, x) !in seen
      invariant forall m, x :: (m, x) in result <==> (m, x) in seen || (m == node && x in items[..i])
    {
      assert items[..i + 1] == items[..i] + [items[i]];
      NoDupAppend(items[..i], items[i]);
      if (node, items[i]) in result {
        NoDupPrefix(items[..i + 1], items);
        return false, result;
      }
      result := result + {(node, items[i])};
    }
    assert items[..|items|] == items;
    return true, result;
  }

  // ----- Prefixes -----

  method CheckPrefixes(es: seq<FabricEntry>) returns (r: Outcome<FabricConfigError>)
    ensures r.Pass? <==> PrefixesDisjoint(es)
    ensures r.Fail? ==> ConfigBreaks(es, r.error)
  {
    for i := 0 to |es|
      invariant forall a, b :: 0 <= a < i && a < b < |es| ==>
                                 Apart4(es[a].fabric, es[b].fabric) && Apart6(es[a].fabric, es[b].fabric)
    {
      for j := i + 1 to |es|
        invariant forall b :: i < b < j ==> Apart4(es[i].fabric, es[b].fabric) && Apart6(es[i].fabric, es[b].fabric)
      {
        var f, g := es[i].fabric, es[j].fabric;
        if f.ipPrefix.Some? && g.ipPrefix.Some? && Overlaps4(f.ipPrefix.value, g.ipPrefix.value) {
          assert !Apart4(es[i].fabric, es[j].fabric);
          return Fail(OverlappingIp4Prefix);
        }
        if f.ip6Prefix.Some? && g.ip6Prefix.Some? && Overlaps6(f.ip6Prefix.value, g.ip6Prefix.value) {
          assert !Apart6(es[i].fabric, es[j].fabric);
          return Fail(OverlappingIp6Prefix);
        }
      }
    }
    return Pass;
  }

  // ----- One node -----

  method ValidateNode(n: Node) returns (r: Outcome<FabricConfigError>)
    ensures r.Pass? <==> NodeSectionOk(n)
    ensures r.Fail? ==> NodeBreaks(n, r.error)
  {
    match n.properties {
      case OpenfabricNode(_) =>
        return if n.ip.None? && n.ip6.None? then Fail(NodeNoIp) else Pass;
      case OspfNode(_) =>
        return if n.ip.None? then Fail(NodeNoIp) else if n.ip6.Some? then Fail(Ipv6Unsupported) else Pass;
      case WireGuardInternal(_, tunnels, peers, _) =>
        r := ValidateWireGuardNode(tunnels, peers, n.properties);
      case _ =>
        return Pass;
    }
  }

  method ValidateWireGuardNode(tunnels: seq<WireGuardInterface>, peers: seq<Peer>, ghost p: NodeProperties)
    returns (r: Outcome<FabricConfigError>)
    requires p.WireGuardInternal? && p.tunnels == tunnels && p.peers == peers
    ensures r.Pass? <==> NoDup(TunnelNames(p)) && NoDup(Ports(tunnels)) &&
                         forall q :: q in peers ==> q.iface in TunnelNames(p)
    ensures r.Fail? ==> match r.error
                        case DuplicateInterface => !NoDup(TunnelNames(p))
                        case DuplicatePort => !NoDup(Ports(tunnels))
                        case InvalidLocalInterfaceReference => exists q :: q in peers && q.iface !in TunnelNames(p)
                        case _ => false
  {
    var localInterfaces: set<string> := {};
    var listenPorts: set<U16> := {};
    ghost var names, ports := TunnelNames(p), Ports(tunnels);
    for i := 0 to |tunnels|
      invariant NoDup(names[..i]) && NoDup(ports[..i])
      invariant forall x :: x in localInterfaces <==> x in names[..i]
      invariant forall x :: x in listenPorts <==> x in ports[..i]
    {
      assert names[..i + 1] == names[..i] + [names[i]] && ports[..i + 1] == ports[..i] + [ports[i]];
      NoDupAppend(names[..i], names[i]);
      NoDupAppend(ports[..i], ports[i]);
      if tunnels[i].name in localInterfaces {
        NoDupPrefix(names[..i + 1], names);
        return Fail(DuplicateInterface);
      }
      localInterfaces := localInterfaces + {tunnels[i].name};
      if tunnels[i].listenPort in listenPorts {
        NoDupPrefix(ports[..i + 1], ports);
        return Fail(DuplicatePort);
      }
      listenPorts := listenPorts + {tunnels[i].listenPort};
    }
    assert names[..|tunnels|] == names && ports[..|tunnels|] == ports;
    for i := 0 to |peers|
      invariant forall j :: 0 <= j < i ==> peers[j].iface in names
    {
      if peers[i].iface !in localInterfaces {
        return Fail(InvalidLocalInterfaceReference);
      }
    }
    return Pass;
  }

  // ----- WireGuard fabrics -----

  ghost predicate Recorded(v4: set<Ipv4Cidr>, v6: set<Ipv6Cidr>, prior: seq<Cidr>) {
    (forall c :: c in v4 <==> Cidr4(c) in prior) && (forall c :: c in v6 <==> Cidr6(c) in prior)
  }

  /** Records the addresses of one interface, unless one was recorded before. */
  method RecordInterface(t: WireGuardInterface, v4: set<Ipv4Cidr>, v6: set<Ipv6Cidr>, ghost prior: seq<Cidr>)
    returns (isNew: bool, v4': set<Ipv4Cidr>, v6': set<Ipv6Cidr>)
    requires Recorded(v4, v6, prior) && NoDup(prior)
    ensures isNew <==> NoDup(prior + TunnelAddresses(t))
    ensures isNew ==> Recorded(v4', v6', prior + TunnelAddresses(t))
  {
    v4', v6' := v4, v6;
    ghost var middle := prior + (if t.ip.Some? then [Cidr4(t.ip.value)] else []);
    assert prior + TunnelAddresses(t) == middle + (if t.ip6.Some? then [Cidr6(t.ip6.value)] else []);
    if t.ip.Some? {
      NoDupAppend(prior, Cidr4(t.ip.value));
      if t.ip.value in v4' {
        NoDupPrefix(middle, prior + TunnelAddresses(t));
        return false, v4', v6';
      }
      v4' := v4' + {t.ip.value};
    }
    assert Recorded(v4', v6', middle) && NoDup(middle);
    if t.ip6.Some? {
      NoDupAppend(middle, Cidr6(t.ip6.value));
      if t.ip6.value in v6' {
        return false, v4', v6';
      }
      v6' := v6' + {t.ip6.value};
    }
    isNew := true;
  }

  lemma TunnelsStep(prior: seq<Cidr>, tunnels: seq<WireGuardInterface>, i: nat)
    requires i < |tunnels|
    ensures prior + TunnelsAddresses(tunnels[..i + 1]) ==
            (prior + TunnelsAddresses(tunnels[..i])) + TunnelAddresses(tunnels[i])
  {
    assert tunnels[..i + 1][..i] == tunnels[..i];
    ConcatAssociative(prior, TunnelsAddresses(tunnels[..i]), TunnelAddresses(tunnels[i]));
  }

  /** Records the addresses of a node's interfaces, unless one was recorded before. */
  method RecordAddresses(tunnels: seq<WireGuardInterface>, v4: set<Ipv4Cidr>, v6: set<Ipv6Cidr>, ghost prior: seq<Cidr>)
    returns (isNew: bool, v4': set<Ipv4Cidr>, v6': set<Ipv6Cidr>)
    requires Recorded(v4, v6, prior) && NoDup(prior)
    ensures isNew <==> NoDup(prior + TunnelsAddresses(tunnels))
    ensures isNew ==> Recorded(v4', v6', prior + TunnelsAddresses(tunnels))
  {
    v4', v6' := v4, v6;
    assert prior + TunnelsAddresses([]) == prior;
    for i := 0 to |tunnels|
      invariant NoDup(prior + TunnelsAddresses(tunnels[..i]))
      invariant Recorded(v4', v6', prior + TunnelsAddresses(tunnels[..i]))
    {
      ghost var before := prior + TunnelsAddresses(tunnels[..i]);
      TunnelsStep(prior, tunnels, i);
      isNew, v4', v6' := RecordInterface(tunnels[i], v4', v6', before);
      if !isNew {
        TunnelsAddressesPrefix(tunnels, i + 1);
        PrefixOfSum(prior, TunnelsAddresses(tunnels[..i + 1]), TunnelsAddresses(tunnels));
        NoDupPrefix(prior + TunnelsAddresses(tunnels[..i + 1]), prior + TunnelsAddresses(tunnels));
        return false, v4', v6';
      }
    }
    assert tunnels[..|tunnels|] == tunnels;
    isNew := true;
  }

  lemma {:induction false} TunnelsAddressesPrefix(ts: seq<WireGuardInterface>, i: nat)
    requires i <= |ts|
    ensures TunnelsAddresses(ts[..i]) <= TunnelsAddresses(ts)
    decreases |ts|
  {
    if i < |ts| {
      assert ts[..|ts| - 1][..i] == ts[..i];
      TunnelsAddressesPrefix(ts[..|ts| - 1], i);
    } else {
      assert ts[..i] == ts;
    }
  }

  lemma PrefixOfSum<T>(p: seq<T>, s: seq<T>, t: seq<T>)
    requires s <= t
    ensures p + s <= p + t
  {
    assert t == s + t[|s|..];
    assert p + t == p + s + t[|s|..];
  }

  /** What the peers of a fabric may refer to, and what they do refer to. */
  datatype References =
    References(interfaces: set<(NodeId, string)>, externals: set<NodeId>,
               internalPeers: set<(NodeId, string)>, externalPeers: set<NodeId>)

  function NamedInterfaces(n: NodeId, p: NodeProperties): set<(NodeId, string)> {
    set x | x in TunnelNames(p) :: (n, x)
  }

  function InternalRefs(p: NodeProperties): set<(NodeId, string)> {
    if p.WireGuardInternal? then set q | q in p.peers && q.InternalPeer? :: (q.node, q.nodeIface) else {}
  }

  function ExternalRefs(p: NodeProperties): set<NodeId> {
    if p.WireGuardInternal? then set q | q in p.peers && q.ExternalPeer? :: q.node else {}
  }

  function Noted(refs: References, n: NodeId, p: NodeProperties): References {
    References(refs.interfaces + NamedInterfaces(n, p),
               refs.externals + (if p.WireGuardExternal? then {n} else {}),
               refs.internalPeers + InternalRefs(p),
               refs.externalPeers + ExternalRefs(p))
  }

  function Gather(e: FabricEntry, ids: seq<NodeId>): References
    requires forall n :: n in ids ==> n in e.nodes
  {
    if ids == [] then References({}, {}, {}, {})
    else
      var n := ids[|ids| - 1];
      Noted(Gather(e, ids[..|ids| - 1]), n, e.nodes[n].properties)
  }

  method CollectPeers(p: NodeProperties, internal: set<(NodeId, string)>, external: set<NodeId>)
    returns (internal': set<(NodeId, string)>, external': set<NodeId>)
    requires p.WireGuardInternal?
    ensures internal' == internal + InternalRefs(p)
    ensures external' == external + ExternalRefs(p)
  {
    internal', external' := internal, external;
    for i := 0 to |p.peers|
      invariant internal' == internal + set q | q in p.peers[..i] && q.InternalPeer? :: (q.node, q.nodeIface)
      invariant external' == external + set q | q in p.peers[..i] && q.ExternalPeer? :: q.node
    {
      assert p.peers[..i + 1] == p.peers[..i] + [p.peers[i]];
      match p.peers[i] {
        case InternalPeer(node, nodeIface, _, _, _) => internal' := internal' + {(node, nodeIface)};
        case ExternalPeer(node, _, _, _) => external' := external' + {node};
      }
    }
    assert p.peers[..|p.peers|] == p.peers;
  }

  /** Records the addresses, interfaces and references of one node. */
  method ScanNode(n: NodeId, p: NodeProperties, refs: References, v4: set<Ipv4Cidr>, v6: set<Ipv6Cidr>,
                  ghost prior: seq<Cidr>)
    returns (isNew: bool, refs': References, v4': set<Ipv4Cidr>, v6': set<Ipv6Cidr>)
    requires p.WireGuardInternal? || p.WireGuardExternal?
    requires Recorded(v4, v6, prior) && NoDup(prior)
    ensures isNew <==> NoDup(prior + if p.WireGuardInternal? then TunnelsAddresses(p.tunnels) else [])
    ensures isNew ==> Recorded(v4', v6', prior + if p.WireGuardInternal? then TunnelsAddresses(p.tunnels) else [])
    ensures isNew ==> refs' == Noted(refs, n, p)
  {
    isNew, refs', v4', v6' := true, refs, v4, v6;
    if p.WireGuardInternal? {
      isNew, v4', v6' := RecordAddresses(p.tunnels, v4, v6, prior);
      if isNew {
        var internalPeers, externalPeers := CollectPeers(p, refs.internalPeers, refs.externalPeers);
        refs' := References(refs.interfaces + NamedInterfaces(n, p), refs.externals, internalPeers, externalPeers);
      }
    } else {
      assert prior + [] == prior;
      assert NamedInterfaces(n, p) == {};
      refs' := refs.(externals := refs.externals + {n});
    }
  }

  lemma ScanStep(e: FabricEntry, ids: seq<NodeId>, k: nat)
    requires k < |ids| && forall n :: n in ids ==> n in e.nodes
    ensures AllTunnelAddresses(e, ids[..k + 1]) == AllTunnelAddresses(e, ids[..k]) + NodeTunnelAddresses(e, ids[k])
    ensures Gather(e, ids[..k + 1]) == Noted(Gather(e, ids[..k]), ids[k], e.nodes[ids[k]].properties)
  {
    assert ids[..k + 1][..k] == ids[..k];
  }

  /** What has been found out about the first k nodes. */
  ghost predicate Scanned(e: FabricEntry, ids: seq<NodeId>, k: nat, refs: References, v4: set<Ipv4Cidr>,
                          v6: set<Ipv6Cidr>)
    requires k <= |ids| && forall n :: n in ids ==> n in e.nodes
  {
    refs == Gather(e, ids[..k]) && NoDup(AllTunnelAddresses(e, ids[..k])) &&
    Recorded(v4, v6, AllTunnelAddresses(e, ids[..k]))
  }

  method ScanNext(e: FabricEntry, ids: seq<NodeId>, k: nat, refs: References, v4: set<Ipv4Cidr>, v6: set<Ipv6Cidr>)
    returns (isNew: bool, refs': References, v4': set<Ipv4Cidr>, v6': set<Ipv6Cidr>)
    requires EntryWellFormed(e) && e.fabric.properties.WireGuardFabric?
    requires k < |ids| && (forall n :: n in ids ==> n in e.nodes) && Scanned(e, ids, k, refs, v4, v6)
    ensures if isNew then Scanned(e, ids, k + 1, refs', v4', v6') else !NoDup(AllTunnelAddresses(e, ids))
  {
    var n := ids[k];
    assert n in ids && NodeProtocol(e.nodes[n]) == WireGuard;
    isNew, refs', v4', v6' := ScanNode(n, e.nodes[n].properties, refs, v4, v6, AllTunnelAddresses(e, ids[..k]));
    ScanStep(e, ids, k);
    if !isNew {
      TunnelRepeats(e, ids, k + 1);
    }
  }

  /** The first pass over the nodes of a fabric. */
  method ScanWireGuard(e: FabricEntry, ids: seq<NodeId>) returns (isNew: bool, refs: References)
    requires EntryWellFormed(e) && e.fabric.properties.WireGuardFabric?
    requires forall n :: n in ids ==> n in e.nodes
    ensures isNew <==> NoDup(AllTunnelAddresses(e, ids))
    ensures isNew ==> refs == Gather(e, ids)
  {
    refs := References({}, {}, {}, {});
    var v4: set<Ipv4Cidr>, v6: set<Ipv6Cidr> := {}, {};
    for k := 0 to |ids|
      invariant Scanned(e, ids, k, refs, v4, v6)
    {
      isNew, refs, v4, v6 := ScanNext(e, ids, k, refs, v4, v6);
      if !isNew {
        return false, refs;
      }
    }
    assert ids[..|ids|] == ids;
    isNew := true;
  }

  lemma TunnelRepeats(e: FabricEntry, ids: seq<NodeId>, k: nat)
    requires k <= |ids| && !NoDup(AllTunnelAddresses(e, ids[..k]))
    ensures !NoDup(AllTunnelAddresses(e, ids))
  {
    AllTunnelAddressesPrefix(e, ids, k);
    NoDupPrefix(AllTunnelAddresses(e, ids[..k]), AllTunnelAddresses(e, ids));
  }

  method CheckWireGuard(e: FabricEntry) returns (r: Outcome<FabricConfigError>)
    requires EntryWellFormed(e) && e.fabric.properties.WireGuardFabric?
    ensures r.Pass? <==> NoDup(AllTunnelAddresses(e, NodeIds(e.nodes))) && PeersResolved(e)
    ensures r.Fail? ==> EntryBreaks(e, r.error)
  {
    var isNew, refs := ScanWireGuard(e, NodeIds(e.nodes));
    if !isNew {
      return Fail(DuplicateNodeIp);
    }
    GatheredPeersResolve(e, NodeIds(e.nodes));
    if refs.internalPeers - refs.interfaces != {} {
      UnresolvedInternalPeer(e, NodeIds(e.nodes));
      return Fail(InvalidRemoteInterfaceReference);
    }
    if refs.externalPeers - refs.externals != {} {
      UnresolvedExternalPeer(e, NodeIds(e.nodes));
      return Fail(InvalidExternalNodeReference);
    }
    return Pass;
  }

  lemma {:induction false} AllTunnelAddressesPrefix(e: FabricEntry, ids: seq<NodeId>, k: nat)
    requires k <= |ids|
    ensures AllTunnelAddresses(e, ids[..k]) <= AllTunnelAddresses(e, ids)
    decreases |ids|
  {
    if k < |ids| {
      assert ids[..|ids| - 1][..k] == ids[..k];
      AllTunnelAddressesPrefix(e, ids[..|ids| - 1], k);
    } else {
      assert ids[..k] == ids;
    }
  }

  lemma {:induction false} GatherOffers(e: FabricEntry, ids: seq<NodeId>, n: NodeId, x: string)
    requires forall m :: m in ids ==> m in e.nodes
    ensures (n, x) in Gather(e, ids).interfaces <==> n in ids && x in TunnelNames(e.nodes[n].properties)
    ensures n in Gather(e, ids).externals <==> n in ids && e.nodes[n].properties.WireGuardExternal?
  {
    if ids != [] {
      GatherOffers(e, ids[..|ids| - 1], n, x);
    }
  }

  lemma {:induction false} GatherCollects(e: FabricEntry, ids: seq<NodeId>, n: NodeId)
    requires forall m :: m in ids ==> m in e.nodes
    requires n in ids
    ensures InternalRefs(e.nodes[n].properties) <= Gather(e, ids).internalPeers
    ensures ExternalRefs(e.nodes[n].properties) <= Gather(e, ids).externalPeers
  {
    if n != ids[|ids| - 1] {
      GatherCollects(e, ids[..|ids| - 1], n);
    }
  }

  lemma {:induction false} InternalPeerOrigin(e: FabricEntry, ids: seq<NodeId>, q: (NodeId, string)) returns (n: NodeId)
    requires forall m :: m in ids ==> m in e.nodes
    requires q in Gather(e, ids).internalPeers
    ensures n in ids && q in InternalRefs(e.nodes[n].properties)
  {
    n := ids[|ids| - 1];
    if q !in InternalRefs(e.nodes[n].properties) {
      n := InternalPeerOrigin(e, ids[..|ids| - 1], q);
    }
  }

  lemma {:induction false} ExternalPeerOrigin(e: FabricEntry, ids: seq<NodeId>, q: NodeId) returns (n: NodeId)
    requires forall m :: m in ids ==> m in e.nodes
    requires q in Gather(e, ids).externalPeers
    ensures n in ids && q in ExternalRefs(e.nodes[n].properties)
  {
    n := ids[|ids| - 1];
    if q !in ExternalRefs(e.nodes[n].properties) {
      n := ExternalPeerOrigin(e, ids[..|ids| - 1], q);
    }
  }

  /** The set differences are empty exactly when every peer resolves. */
  lemma GatheredPeersResolve(e: FabricEntry, ids: seq<NodeId>)
    requires forall n :: n in ids <==> n in e.nodes
    ensures var g := Gather(e, ids);
            g.internalPeers - g.interfaces == {} && g.externalPeers - g.externals == {} <==> PeersResolved(e)
  {
    var g := Gather(e, ids);
    if g.internalPeers - g.interfaces == {} && g.externalPeers - g.externals == {} {
      forall n, p | n in e.nodes && e.nodes[n].properties.WireGuardInternal? && p in e.nodes[n].properties.peers
        ensures PeerResolved(e, p)
      {
        GatherCollects(e, ids, n);
        if p.InternalPeer? {
          assert (p.node, p.nodeIface) in InternalRefs(e.nodes[n].properties);
          assert (p.node, p.nodeIface) !in g.internalPeers - g.interfaces;
          GatherOffers(e, ids, p.node, p.nodeIface);
        } else {
          assert p.node in ExternalRefs(e.nodes[n].properties);
          assert p.node !in g.externalPeers - g.externals;
          GatherOffers(e, ids, p.node, "");
        }
      }
    }
    if PeersResolved(e) {
      forall q | q in g.internalPeers ensures q in g.interfaces {
        var n := InternalPeerOrigin(e, ids, q);
        var p :| p in e.nodes[n].properties.peers && p.InternalPeer? && q == (p.node, p.nodeIface);
        assert PeerResolved(e, p);
        GatherOffers(e, ids, p.node, p.nodeIface);
      }
      forall q | q in g.externalPeers ensures q in g.externals {
        var n := ExternalPeerOrigin(e, ids, q);
        var p :| p in e.nodes[n].properties.peers && p.ExternalPeer? && q == p.node;
        assert PeerResolved(e, p);
        GatherOffers(e, ids, p.node, "");
      }
    }
  }

  /** What is left of the references to interfaces comes from a peer that does not resolve. */
  lemma UnresolvedInternalPeer(e: FabricEntry, ids: seq<NodeId>)
    requires forall n :: n in ids <==> n in e.nodes
    requires Gather(e, ids).internalPeers - Gather(e, ids).interfaces != {}
    ensures PeerBreaks(e, InvalidRemoteInterfaceReference)
  {
    var q :| q in Gather(e, ids).internalPeers - Gather(e, ids).interfaces;
    var n := InternalPeerOrigin(e, ids, q);
    var p :| p in e.nodes[n].properties.peers && p.InternalPeer? && q == (p.node, p.nodeIface);
    GatherOffers(e, ids, p.node, p.nodeIface);
    assert !PeerResolved(e, p);
  }

  lemma UnresolvedExternalPeer(e: FabricEntry, ids: seq<NodeId>)
    requires forall n :: n in ids <==> n in e.nodes
    requires Gather(e, ids).externalPeers - Gather(e, ids).externals != {}
    ensures PeerBreaks(e, InvalidExternalNodeReference)
  {
    var q :| q in Gather(e, ids).externalPeers - Gather(e, ids).externals;
    var n := ExternalPeerOrigin(e, ids, q);
    var p :| p in e.nodes[n].properties.peers && p.ExternalPeer? && q == p.node;
    GatherOffers(e, ids, p.node, "");
    assert !PeerResolved(e, p);
  }

  // ----- One fabric -----

  method ValidateFabric(f: Fabric) returns (r: Outcome<FabricConfigError>)
    ensures r.Pass? <==> FabricSectionOk(f)
    ensures r.Fail? ==> FabricBreaks(f, r.error)
  {
    match f.properties {
      case OpenfabricFabric(_, _, _) =>
        return if f.ipPrefix.None? && f.ip6Prefix.None? then Fail(FabricNoIpPrefix) else Pass;
      case OspfFabric(_, _, _) =>
        return if f.ipPrefix.None? then Fail(FabricNoIpPrefix)
               else if f.ip6Prefix.Some? then Fail(Ipv6Unsupported)
               else Pass;
      case WireGuardFabric(_) =>
        return Pass;
      case BgpFabric(_, _, _, _, _) =>
        return if f.ipPrefix.None? && f.ip6Prefix.None? then Fail(FabricNoIpPrefix) else Pass;
    }
  }

  method CheckAddresses(f: Fabric, n: Node) returns (r: Outcome<FabricConfigError>)
    ensures r.Pass? <==> AddressesInPrefix(f, n)
    ensures r.Fail? ==> AddressBreaks(f, n, r.error)
  {
    match (f.ipPrefix, n.ip) {
      case (None, Some(_)) => return Fail(FabricNoIpPrefixForNode);
      case (Some(_), None) => return Fail(NodeNoIpForFabricPrefix);
      case (Some(prefix), Some(ip)) => if !Contains4(prefix, ip) { return Fail(NodeIpOutsideFabricRange); }
      case (None, None) =>
    }
    match (f.ip6Prefix, n.ip6) {
      case (None, Some(_)) => return Fail(FabricNoIpPrefixForNode);
      case (Some(_), None) => return Fail(NodeNoIpForFabricPrefix);
      case (Some(prefix), Some(ip)) => if !Contains6(prefix, ip) { return Fail(NodeIpOutsideFabricRange); }
      case (None, None) =>
    }
    return Pass;
  }

  function OptionSeq(o: Option<int>): seq<int> {
    if o.Some? then [o.value] else []
  }

  /** The values of a key over a list of nodes, in order. */
  function KeysOf(k: NodeKey, e: FabricEntry, ids: seq<NodeId>): seq<int>
    requires forall n :: n in ids ==> n in e.nodes
  {
    if ids == [] then []
    else KeysOf(k, e, ids[..|ids| - 1]) + OptionSeq(KeyOf(k, e.nodes[ids[|ids| - 1]]))
  }

  lemma {:induction false} KeyOfMember(k: NodeKey, e: FabricEntry, ids: seq<NodeId>, i: nat)
    requires forall m :: m in ids ==> m in e.nodes
    requires i < |ids| && KeyOf(k, e.nodes[ids[i]]).Some?
    ensures KeyOf(k, e.nodes[ids[i]]).value in KeysOf(k, e, ids)
    decreases |ids|
  {
    if i < |ids| - 1 {
      KeyOfMember(k, e, ids[..|ids| - 1], i);
    }
  }

  lemma {:induction false} KeyOwner(k: NodeKey, e: FabricEntry, ids: seq<NodeId>, a: int) returns (i: nat)
    requires forall m :: m in ids ==> m in e.nodes
    requires a in KeysOf(k, e, ids)
    ensures i < |ids| && KeyOf(k, e.nodes[ids[i]]) == Some(a)
    decreases |ids|
  {
    i := |ids| - 1;
    if KeyOf(k, e.nodes[ids[i]]) != Some(a) {
      i := KeyOwner(k, e, ids[..|ids| - 1], a);
    }
  }

  ghost predicate Distinct(k: NodeKey, e: FabricEntry, ids: seq<NodeId>)
    requires forall m :: m in ids ==> m in e.nodes
  {
    forall i, j :: 0 <= i < j < |ids| && KeyOf(k, e.nodes[ids[j]]).Some? ==>
                     KeyOf(k, e.nodes[ids[i]]) != KeyOf(k, e.nodes[ids[j]])
  }

  /** No node in front has the key of the last one. */
  ghost predicate LastDiffers(k: NodeKey, e: FabricEntry, ids: seq<NodeId>, key: Option<int>)
    requires forall m :: m in ids ==> m in e.nodes
  {
    forall i :: 0 <= i < |ids| ==> KeyOf(k, e.nodes[ids[i]]) != key
  }

  lemma DistinctLast(k: NodeKey, e: FabricEntry, ids: seq<NodeId>)
    requires ids != [] && forall m :: m in ids ==> m in e.nodes
    ensures var before, key := ids[..|ids| - 1], KeyOf(k, e.nodes[ids[|ids| - 1]]);
            Distinct(k, e, ids) <==> Distinct(k, e, before) && (key.Some? ==> LastDiffers(k, e, before, key))
  {
    var before := ids[..|ids| - 1];
    assert forall i :: 0 <= i < |before| ==> before[i] == ids[i];
  }

  lemma KeyHeld(k: NodeKey, e: FabricEntry, ids: seq<NodeId>, key: int)
    requires forall m :: m in ids ==> m in e.nodes
    ensures key in KeysOf(k, e, ids) <==> !LastDiffers(k, e, ids, Some(key))
  {
    if key in KeysOf(k, e, ids) {
      var i := KeyOwner(k, e, ids, key);
    }
    if i :| 0 <= i < |ids| && KeyOf(k, e.nodes[ids[i]]) == Some(key) {
      KeyOfMember(k, e, ids, i);
    }
  }

  lemma {:induction false} KeysNoDup(k: NodeKey, e: FabricEntry, ids: seq<NodeId>)
    requires forall m :: m in ids ==> m in e.nodes
    ensures NoDup(KeysOf(k, e, ids)) <==> Distinct(k, e, ids)
    decreases |ids|
  {
    if ids != [] {
      var before, key := ids[..|ids| - 1], KeyOf(k, e.nodes[ids[|ids| - 1]]);
      KeysNoDup(k, e, before);
      DistinctLast(k, e, ids);
      if key.None? {
        assert KeysOf(k, e, before) + OptionSeq(key) == KeysOf(k, e, before);
      } else {
        NoDupAppend(KeysOf(k, e, before), key.value);
        KeyHeld(k, e, before, key.value);
      }
    }
  }

  lemma {:induction false} KeysOfPrefix(k: NodeKey, e: FabricEntry, ids: seq<NodeId>, i: nat)
    requires forall m :: m in ids ==> m in e.nodes
    requires i <= |ids|
    ensures KeysOf(k, e, ids[..i]) <= KeysOf(k, e, ids)
    decreases |ids|
  {
    if i < |ids| {
      assert ids[..|ids| - 1][..i] == ids[..i];
      KeysOfPrefix(k, e, ids[..|ids| - 1], i);
    } else {
      assert ids[..i] == ids;
    }
  }

  lemma UniqueByList(k: NodeKey, e: FabricEntry)
    ensures Unique(k, e) <==> NoDup(KeysOf(k, e, NodeIds(e.nodes)))
  {
    var ids := NodeIds(e.nodes);
    NodeIdsDistinct(e.nodes);
    KeysNoDup(k, e, ids);
    if Distinct(k, e, ids) {
      forall n, m | n in e.nodes && m in e.nodes && n != m && KeyOf(k, e.nodes[n]).Some?
        ensures KeyOf(k, e.nodes[n]) != KeyOf(k, e.nodes[m])
      {
        var i :| 0 <= i < |ids| && ids[i] == n;
        var j :| 0 <= j < |ids| && ids[j] == m;
        if i < j {
          assert KeyOf(k, e.nodes[ids[j]]).Some? ==> KeyOf(k, e.nodes[ids[i]]) != KeyOf(k, e.nodes[ids[j]]);
        } else {
          assert KeyOf(k, e.nodes[ids[i]]).Some? ==> KeyOf(k, e.nodes[ids[j]]) != KeyOf(k, e.nodes[ids[i]]);
        }
      }
    }
  }

  /** The first i nodes have pairwise different keys, and `seen` holds them. */
  ghost predicate Seen(k: NodeKey, e: FabricEntry, ids: seq<NodeId>, i: nat, seen: set<int>)
    requires i <= |ids| && forall n :: n in ids ==> n in e.nodes
  {
    NoDup(KeysOf(k, e, ids[..i])) && forall a :: a in seen <==> a in KeysOf(k, e, ids[..i])
  }

  /** Records the key of the node at position i unless another node had it before. */
  method RecordKey(k: NodeKey, e: FabricEntry, ids: seq<NodeId>, i: nat, seen: set<int>, key: Option<int>)
    returns (isNew: bool, seen': set<int>)
    requires i < |ids| && forall n :: n in ids ==> n in e.nodes
    requires key == KeyOf(k, e.nodes[ids[i]])
    requires Seen(k, e, ids, i, seen)
    ensures isNew ==> Seen(k, e, ids, i + 1, seen')
    ensures !isNew ==> !NoDup(KeysOf(k, e, ids))
  {
    assert ids[..i + 1][..i] == ids[..i];
    assert KeysOf(k, e, ids[..i + 1]) == KeysOf(k, e, ids[..i]) + OptionSeq(key);
    if key.None? {
      return true, seen;
    }
    NoDupAppend(KeysOf(k, e, ids[..i]), key.value);
    KeysOfPrefix(k, e, ids, i + 1);
    NoDupPrefix(KeysOf(k, e, ids[..i + 1]), KeysOf(k, e, ids));
    return key.value !in seen, seen + {key.value};
  }

  /** The checks on the node at position i. */
  method VisitNode(e: FabricEntry, ids: seq<NodeId>, i: nat, ips: set<int>, ip6s: set<int>)
    returns (r: Outcome<FabricConfigError>, ips': set<int>, ip6s': set<int>)
    requires i < |ids| && forall n :: n in ids <==> n in e.nodes
    requires Seen(Address4, e, ids, i, ips) && Seen(Address6, e, ids, i, ip6s)
    requires Unique(Address4, e) <==> NoDup(KeysOf(Address4, e, ids))
    requires Unique(Address6, e) <==> NoDup(KeysOf(Address6, e, ids))
    ensures r.Pass? ==> NodeOk(e.fabric, e.nodes[ids[i]]) && Seen(Address4, e, ids, i + 1, ips') &&
                        Seen(Address6, e, ids, i + 1, ip6s')
    ensures r.Fail? ==> EntryBreaks(e, r.error)
    ensures r.Fail? ==> !UniqueAddresses(e) || !NodeOk(e.fabric, e.nodes[ids[i]])
  {
    ips', ip6s' := ips, ip6s;
    var node := e.nodes[ids[i]];
    r := ValidateNode(node);
    if r.Fail? {
      return;
    }
    var isNew;
    isNew, ips' := RecordKey(Address4, e, ids, i, ips, node.ip);
    if !isNew {
      r := Fail(DuplicateNodeIp);
      return;
    }
    isNew, ip6s' := RecordKey(Address6, e, ids, i, ip6s, node.ip6);
    if !isNew {
      r := Fail(DuplicateNodeIp);
      return;
    }
    r := CheckAddresses(e.fabric, node);
  }

  ghost predicate FirstNodesOk(e: FabricEntry, ids: seq<NodeId>, i: nat)
    requires i <= |ids| && forall n :: n in ids ==> n in e.nodes
  {
    i > 0 ==> FirstNodesOk(e, ids, i - 1) && NodeOk(e.fabric, e.nodes[ids[i - 1]])
  }

  lemma {:induction false} FirstNodesOkAt(e: FabricEntry, ids: seq<NodeId>, i: nat, j: nat)
    requires i <= |ids| && forall n :: n in ids ==> n in e.nodes
    requires FirstNodesOk(e, ids, i) && j < i
    ensures NodeOk(e.fabric, e.nodes[ids[j]])
  {
    if j < i - 1 {
      FirstNodesOkAt(e, ids, i - 1, j);
    }
  }

  method ValidateNodes(e: FabricEntry) returns (r: Outcome<FabricConfigError>)
    ensures r.Pass? <==> NodesOk(e)
    ensures r.Fail? ==> EntryBreaks(e, r.error)
  {
    var ids := NodeIds(e.nodes);
    UniqueByList(Address4, e);
    UniqueByList(Address6, e);
    var ips: set<int>, ip6s: set<int> := {}, {};
    for k := 0 to |ids|
      invariant Seen(Address4, e, ids, k, ips) && Seen(Address6, e, ids, k, ip6s)
      invariant FirstNodesOk(e, ids, k)
    {
      assert ids[k] in ids;
      r, ips, ip6s := VisitNode(e, ids, k, ips, ip6s);
      if r.Fail? {
        return;
      }
    }
    AllNodesOk(e, ids, ips, ip6s);
    return Pass;
  }

  lemma AllNodesOk(e: FabricEntry, ids: seq<NodeId>, ips: set<int>, ip6s: set<int>)
    requires (forall n :: n in ids <==> n in e.nodes) && FirstNodesOk(e, ids, |ids|)
    requires Seen(Address4, e, ids, |ids|, ips) && Seen(Address6, e, ids, |ids|, ip6s)
    requires Unique(Address4, e) <==> NoDup(KeysOf(Address4, e, ids))
    requires Unique(Address6, e) <==> NoDup(KeysOf(Address6, e, ids))
    ensures NodesOk(e)
  {
    assert ids[..|ids|] == ids;
    forall n | n in e.nodes ensures NodeOk(e.fabric, e.nodes[n]) {
      var i :| 0 <= i < |ids| && ids[i] == n;
      FirstNodesOkAt(e, ids, |ids|, i);
    }
  }

  /** An internal node of a BGP fabric with the IPv4 address 0.0.0.0. */
  ghost predicate HasZeroAddress(e: FabricEntry) {
    exists n :: n in e.nodes && e.nodes[n].properties.BgpInternal? && e.nodes[n].ip == Some(0)
  }

  /** Where there is an IPv4 prefix, the router-ids are the IPv4 addresses. */
  lemma AddressesAreRouterIds(e: FabricEntry, n: NodeId)
    requires e.fabric.ipPrefix.Some? && NodesOk(e) && n in e.nodes
    ensures KeyOf(Address4, e.nodes[n]).Some?
    ensures e.nodes[n].properties.BgpInternal? ==> KeyOf(RouterIdentity, e.nodes[n]) == KeyOf(Address4, e.nodes[n])
    ensures !e.nodes[n].properties.BgpInternal? ==> KeyOf(RouterIdentity, e.nodes[n]).None?
  {
    assert NodeOk(e.fabric, e.nodes[n]);
  }

  lemma AddressesUnique(e: FabricEntry)
    requires e.fabric.ipPrefix.Some? && NodesOk(e)
    ensures Unique(RouterIdentity, e)
  {
    forall n, m | n in e.nodes && m in e.nodes && n != m && KeyOf(RouterIdentity, e.nodes[n]).Some?
      ensures KeyOf(RouterIdentity, e.nodes[n]) != KeyOf(RouterIdentity, e.nodes[m])
    {
      AddressesAreRouterIds(e, n);
      AddressesAreRouterIds(e, m);
    }
  }

  /** With addresses in order, the router-ids are exactly if no internal node has the address 0.0.0.0. */
  lemma RouterIdsOkFromIpv4(e: FabricEntry)
    requires e.fabric.ipPrefix.Some? && NodesOk(e)
    ensures RouterIdsOk(e) <==> !HasZeroAddress(e)
    ensures Unique(RouterIdentity, e)
  {
    AddressesUnique(e);
    forall n | n in e.nodes
      ensures KeyOf(RouterIdentity, e.nodes[n]) == Some(0) <==>
              e.nodes[n].properties.BgpInternal? && e.nodes[n].ip == Some(0)
    {
      AddressesAreRouterIds(e, n);
    }
  }

  method VisitRouterId(e: FabricEntry, ids: seq<NodeId>, i: nat, seen: set<int>)
    returns (r: Outcome<FabricConfigError>, seen': set<int>)
    requires i < |ids| && forall n :: n in ids <==> n in e.nodes
    requires Seen(RouterIdentity, e, ids, i, seen)
    requires Unique(RouterIdentity, e) <==> NoDup(KeysOf(RouterIdentity, e, ids))
    ensures r.Pass? ==> KeyOf(RouterIdentity, e.nodes[ids[i]]) != Some(0) && Seen(RouterIdentity, e, ids, i + 1, seen')
    ensures r.Fail? ==> RouterIdBreaks(e, r.error)
  {
    var node := e.nodes[ids[i]];
    var routerId: Option<Ipv4Addr> := None;
    if node.properties.BgpInternal? {
      routerId := ResolveRouterId(node);
      if routerId == Some(0) {
        return Fail(InvalidBgpRouterId), seen;
      }
    }
    var isNew;
    isNew, seen' := RecordKey(RouterIdentity, e, ids, i, seen, routerId);
    r := if isNew then Pass else Fail(DuplicateBgpRouterId);
  }

  ghost predicate FirstRouterIdsOk(e: FabricEntry, ids: seq<NodeId>, i: nat)
    requires i <= |ids| && forall n :: n in ids ==> n in e.nodes
  {
    i > 0 ==> FirstRouterIdsOk(e, ids, i - 1) && KeyOf(RouterIdentity, e.nodes[ids[i - 1]]) != Some(0)
  }

  lemma {:induction false} FirstRouterIdsOkAt(e: FabricEntry, ids: seq<NodeId>, i: nat, j: nat)
    requires i <= |ids| && forall n :: n in ids ==> n in e.nodes
    requires FirstRouterIdsOk(e, ids, i) && j < i
    ensures KeyOf(RouterIdentity, e.nodes[ids[j]]) != Some(0)
  {
    if j < i - 1 {
      FirstRouterIdsOkAt(e, ids, i - 1, j);
    }
  }

  lemma AllRouterIdsOk(e: FabricEntry, ids: seq<NodeId>, seen: set<int>)
    requires (forall n :: n in ids <==> n in e.nodes) && FirstRouterIdsOk(e, ids, |ids|)
    requires Seen(RouterIdentity, e, ids, |ids|, seen)
    requires Unique(RouterIdentity, e) <==> NoDup(KeysOf(RouterIdentity, e, ids))
    ensures RouterIdsOk(e)
  {
    assert ids[..|ids|] == ids;
    forall n | n in e.nodes ensures KeyOf(RouterIdentity, e.nodes[n]) != Some(0) {
      var i :| 0 <= i < |ids| && ids[i] == n;
      FirstRouterIdsOkAt(e, ids, |ids|, i);
    }
  }

  /** What the verdict on router-ids means where there is an IPv4 prefix. */
  lemma VerdictFromIpv4(e: FabricEntry, r: Outcome<FabricConfigError>)
    requires e.fabric.ipPrefix.Some? && NodesOk(e)
    requires r.Pass? <==> RouterIdsOk(e)
    requires r.Fail? ==> RouterIdBreaks(e, r.error)
    ensures r == if HasZeroAddress(e) then Fail(InvalidBgpRouterId) else Pass
  {
    RouterIdsOkFromIpv4(e);
  }

  method ValidateRouterIds(e: FabricEntry) returns (r: Outcome<FabricConfigError>)
    ensures r.Pass? <==> RouterIdsOk(e)
    ensures r.Fail? ==> RouterIdBreaks(e, r.error)
    ensures e.fabric.ipPrefix.Some? && NodesOk(e) ==>
              r == if HasZeroAddress(e) then Fail(InvalidBgpRouterId) else Pass
  {
    r := VisitRouterIds(e);
    if e.fabric.ipPrefix.Some? && NodesOk(e) {
      VerdictFromIpv4(e, r);
    }
  }

  method VisitRouterIds(e: FabricEntry) returns (r: Outcome<FabricConfigError>)
    ensures r.Pass? <==> RouterIdsOk(e)
    ensures r.Fail? ==> RouterIdBreaks(e, r.error)
  {
    var ids := NodeIds(e.nodes);
    UniqueByList(RouterIdentity, e);
    var seen: set<int> := {};
    for k := 0 to |ids|
      invariant Seen(RouterIdentity, e, ids, k, seen)
      invariant FirstRouterIdsOk(e, ids, k)
    {
      assert ids[k] in ids;
      r, seen := VisitRouterId(e, ids, k, seen);
      if r.Fail? {
        return;
      }
    }
    AllRouterIdsOk(e, ids, seen);
    return Pass;
  }

  method ResolveRouterId(n: Node) returns (id: Option<Ipv4Addr>)
    ensures id == BgpRouterId(n)
  {
    if n.ip.Some? {
      return n.ip;
    }
    if n.ip6.Some? {
      var hash := RouterId.RouterIdFromIpv6(n.ip6.value);
      return Some(hash);
    }
    return None;
  }

  /** An IPv6-only BGP fabric whose prefix leaves at most 25 bits to its nodes. */
  predicate HasLongPrefix(f: Fabric) {
    f.properties.BgpFabric? && f.ipPrefix.None? && f.ip6Prefix.Some? && f.ip6Prefix.value.mask >= 103
  }

  /** Distinct addresses in a long prefix have distinct router-ids. */
  lemma LongPrefixIdsUnique(e: FabricEntry)
    requires HasLongPrefix(e.fabric) && NodesOk(e)
    ensures Unique(RouterIdentity, e)
  {
    forall n, m | n in e.nodes && m in e.nodes && n != m && KeyOf(RouterIdentity, e.nodes[n]).Some?
      ensures KeyOf(RouterIdentity, e.nodes[n]) != KeyOf(RouterIdentity, e.nodes[m])
    {
      var a, b := e.nodes[n], e.nodes[m];
      assert AddressesInPrefix(e.fabric, a) && AddressesInPrefix(e.fabric, b);
      assert KeyOf(Address6, a) != KeyOf(Address6, b);
      RouterIdCollisions.NoCollisionInLongPrefix(RouterId.FNV_OFFSET, e.fabric.ip6Prefix.value, a.ip6.value,
                                                 b.ip6.value);
    }
  }

  /** So such a fabric is never rejected because router-ids collide, whatever its nodes are. */
  lemma NeverRejectedForCollision(e: FabricEntry)
    requires HasLongPrefix(e.fabric)
    ensures !EntryBreaks(e, DuplicateBgpRouterId)
  {
    if NodesOk(e) {
      LongPrefixIdsUnique(e);
    }
  }

  /** A BGP fabric with an IPv4 prefix whose nodes are in order is never rejected because router-ids
      collide, whatever IPv6 addresses its nodes have, and is rejected for an invalid one exactly if
      an internal node has the address 0.0.0.0. */
  lemma RouterIdsFromIpv4(e: FabricEntry)
    requires e.fabric.properties.BgpFabric? && e.fabric.ipPrefix.Some?
    ensures !EntryBreaks(e, DuplicateBgpRouterId)
    ensures EntryBreaks(e, InvalidBgpRouterId) <==> NodesOk(e) && HasZeroAddress(e)
  {
    if NodesOk(e) {
      RouterIdsOkFromIpv4(e);
    }
  }

  /** The router-id that an internal node takes from its IPv6 address. */
  function HashOf(n: Node): Option<Ipv4Addr> {
    if n.properties.BgpInternal? && n.ip6.Some? then Some(RouterId.Fnv(RouterId.FNV_OFFSET, Octets6(n.ip6.value)))
    else None
  }

  lemma HashesAreRouterIds(e: FabricEntry, n: NodeId)
    requires e.fabric.ipPrefix.None? && NodesOk(e) && n in e.nodes
    ensures KeyOf(RouterIdentity, e.nodes[n]) == HashOf(e.nodes[n])
  {
    assert NodeOk(e.fabric, e.nodes[n]);
  }

  ghost predicate HashesCollide(e: FabricEntry) {
    exists n, m :: n in e.nodes && m in e.nodes && n != m && HashOf(e.nodes[n]).Some? &&
                   HashOf(e.nodes[n]) == HashOf(e.nodes[m])
  }

  /** A BGP fabric without IPv4 prefix whose nodes are in order is rejected because router-ids
      collide exactly if the IPv6 addresses of two internal nodes have the same hash. */
  lemma CollisionsFromIpv6(e: FabricEntry)
    requires e.fabric.properties.BgpFabric? && e.fabric.ipPrefix.None? && NodesOk(e)
    ensures EntryBreaks(e, DuplicateBgpRouterId) <==> HashesCollide(e)
  {
    forall n | n in e.nodes ensures KeyOf(RouterIdentity, e.nodes[n]) == HashOf(e.nodes[n]) {
      HashesAreRouterIds(e, n);
    }
    if n, m :| n in e.nodes && m in e.nodes && n != m && HashOf(e.nodes[n]).Some? &&
               HashOf(e.nodes[n]) == HashOf(e.nodes[m]) {
      assert KeyOf(RouterIdentity, e.nodes[n]) == KeyOf(RouterIdentity, e.nodes[m]);
    }
  }

  /** And for an invalid router-id exactly if the hash of one is 0. */
  lemma InvalidIdsFromIpv6(e: FabricEntry)
    requires e.fabric.properties.BgpFabric? && e.fabric.ipPrefix.None? && NodesOk(e)
    ensures EntryBreaks(e, InvalidBgpRouterId) <==> exists n :: n in e.nodes && HashOf(e.nodes[n]) == Some(0)
  {
    forall n | n in e.nodes ensures KeyOf(RouterIdentity, e.nodes[n]) == HashOf(e.nodes[n]) {
      HashesAreRouterIds(e, n);
    }
  }

  /** A BGP fabric in which router-ids cannot collide: they are IPv4 addresses, or hashes of IPv6
      addresses from a long prefix. */
  predicate CannotCollide(f: Fabric) {
    f.properties.BgpFabric? && (f.ipPrefix.Some? || (f.ip6Prefix.Some? && f.ip6Prefix.value.mask >= 103))
  }

  lemma NeverCollides(e: FabricEntry)
    requires CannotCollide(e.fabric)
    ensures !EntryBreaks(e, DuplicateBgpRouterId)
  {
    if e.fabric.ipPrefix.Some? {
      RouterIdsFromIpv4(e);
    } else {
      NeverRejectedForCollision(e);
    }
  }

  /** A configuration all of whose BGP fabrics are of this kind is never rejected for a collision. */
  lemma ConfigNeverRejectedForCollision(es: seq<FabricEntry>)
    requires forall i :: 0 <= i < |es| && es[i].fabric.properties.BgpFabric? ==> CannotCollide(es[i].fabric)
    ensures !ConfigBreaks(es, DuplicateBgpRouterId)
  {
    forall i | 0 <= i < |es| ensures !EntryBreaks(es[i], DuplicateBgpRouterId) {
      if es[i].fabric.properties.BgpFabric? {
        NeverCollides(es[i]);
      }
    }
  }

  method ValidateEntry(e: FabricEntry) returns (r: Outcome<FabricConfigError>)
    requires EntryWellFormed(e)
    ensures r.Pass? <==> EntryOk(e)
    ensures r.Fail? ==> EntryBreaks(e, r.error)
    ensures CannotCollide(e.fabric) ==> r != Fail(DuplicateBgpRouterId)
    ensures e.fabric.properties.BgpFabric? && e.fabric.ipPrefix.Some? ==>
              (r == Fail(InvalidBgpRouterId) <==> NodesOk(e) && HasZeroAddress(e))
  {
    if CannotCollide(e.fabric) {
      NeverCollides(e);
    }
    if e.fabric.properties.BgpFabric? && e.fabric.ipPrefix.Some? {
      RouterIdsFromIpv4(e);
    }
    if e.fabric.properties.WireGuardFabric? {
      r := CheckWireGuard(e);
      if r.Fail? {
        return;
      }
    }
    r := ValidateNodes(e);
    if r.Fail? {
      return;
    }
    if e.fabric.properties.BgpFabric? {
      r := ValidateRouterIds(e);
      if r.Fail? {
        return;
      }
    }
    r := ValidateFabric(e.fabric);
  }

  // ----- Across fabrics -----

  /** The links, WireGuard interface names and ports that have been claimed so far. */
  datatype Ledger = Ledger(links: set<(NodeId, string)>, tunnels: set<(NodeId, string)>, ports: set<(NodeId, U16)>)

  ghost predicate LedgerHas(l: Ledger, n: NodeId, c: Claim) {
    match c
    case Link(x) => (n, x) in l.links
    case Tunnel(x) => (n, x) in l.tunnels
    case Port(p) => (n, p) in l.ports
  }

  /** What node n claims in the first i entries, and in entry i if it is among its first k nodes. */
  ghost function Held(es: seq<FabricEntry>, i: nat, ids: seq<NodeId>, k: nat, n: NodeId): seq<Claim>
    requires i < |es| && k <= |ids|
  {
    AllClaims(es[..i], n) + (if n in ids[..k] then Claims(es[i], n) else [])
  }

  /** The ledger holds exactly those claims, and no node claims anything twice. */
  ghost predicate LedgerHolds(l: Ledger, es: seq<FabricEntry>, i: nat, ids: seq<NodeId>, k: nat)
    requires i < |es| && k <= |ids|
  {
    (forall n, c :: LedgerHas(l, n, c) <==> c in Held(es, i, ids, k, n)) && forall n :: NoDup(Held(es, i, ids, k, n))
  }

  /** Between entries: the ledger holds the claims of the first i entries. */
  ghost predicate LedgerOf(l: Ledger, es: seq<FabricEntry>, i: nat)
    requires i <= |es|
  {
    (forall n, c :: LedgerHas(l, n, c) <==> c in AllClaims(es[..i], n)) && forall n :: NoDup(AllClaims(es[..i], n))
  }

  lemma LinksNoDup(names: seq<string>)
    ensures NoDup(Links(names)) <==> NoDup(names)
    ensures forall c :: c in Links(names) <==> c.Link? && c.name in names
  {
    assert NoDup(Links(names)) ==> forall a, b :: 0 <= a < b < |names| ==> Links(names)[a] != Links(names)[b];
    forall x | x in names ensures Link(x) in Links(names) {
      var a :| 0 <= a < |names| && names[a] == x;
      assert Links(names)[a] == Link(x);
    }
  }

  lemma TunnelsNoDup(names: seq<string>)
    ensures NoDup(Tunnels(names)) <==> NoDup(names)
    ensures forall c :: c in Tunnels(names) <==> c.Tunnel? && c.name in names
  {
    assert NoDup(Tunnels(names)) ==> forall a, b :: 0 <= a < b < |names| ==> Tunnels(names)[a] != Tunnels(names)[b];
    forall x | x in names ensures Tunnel(x) in Tunnels(names) {
      var a :| 0 <= a < |names| && names[a] == x;
      assert Tunnels(names)[a] == Tunnel(x);
    }
  }

  lemma PortClaimsNoDup(ports: seq<U16>)
    ensures NoDup(PortClaims(ports)) <==> NoDup(ports)
    ensures forall c :: c in PortClaims(ports) <==> c.Port? && c.port in ports
  {
    assert NoDup(PortClaims(ports)) ==> forall a, b :: 0 <= a < b < |ports| ==>
                                                         PortClaims(ports)[a] != PortClaims(ports)[b];
    forall x | x in ports ensures Port(x) in PortClaims(ports) {
      var a :| 0 <= a < |ports| && ports[a] == x;
      assert PortClaims(ports)[a] == Port(x);
    }
  }

  lemma TunnelClaimsNoDup(p: NodeProperties)
    requires p.WireGuardInternal?
    ensures NoDup(NodeClaims(p)) <==> NoDup(TunnelNames(p)) && NoDup(Ports(p.tunnels))
    ensures forall c :: c in NodeClaims(p) <==> (c.Tunnel? && c.name in TunnelNames(p)) ||
                                                (c.Port? && c.port in Ports(p.tunnels))
  {
    TunnelsNoDup(TunnelNames(p));
    PortClaimsNoDup(Ports(p.tunnels));
    NoDupConcat(Tunnels(TunnelNames(p)), PortClaims(Ports(p.tunnels)));
  }

  /** The node claims something twice, or something that the ledger has; a port, or else a name. */
  ghost predicate ClaimedTwice(l: Ledger, n: NodeId, cs: seq<Claim>, ports: bool) {
    Repeats(cs, ports) || exists c :: c in cs && c.Port? == ports && LedgerHas(l, n, c)
  }

  lemma LinkClaimedTwice(l: Ledger, n: NodeId, p: NodeProperties)
    requires !p.WireGuardInternal? && !(NoDup(LinkNames(p)) && forall x :: x in LinkNames(p) ==> (n, x) !in l.links)
    ensures ClaimedTwice(l, n, NodeClaims(p), false)
  {
    var names, cs := LinkNames(p), NodeClaims(p);
    if i, j :| 0 <= i < j < |names| && names[i] == names[j] {
      assert cs[i] == cs[j] == Link(names[i]);
      assert Repeats(cs, false);
    } else {
      var i :| 0 <= i < |names| && (n, names[i]) in l.links;
      assert cs[i] == Link(names[i]) && LedgerHas(l, n, cs[i]);
    }
  }

  lemma TunnelClaimedTwice(l: Ledger, n: NodeId, p: NodeProperties)
    requires p.WireGuardInternal? && !(NoDup(TunnelNames(p)) &&
                                       forall x :: x in TunnelNames(p) ==> (n, x) !in l.tunnels)
    ensures ClaimedTwice(l, n, NodeClaims(p), false)
  {
    var names, cs := TunnelNames(p), NodeClaims(p);
    if i, j :| 0 <= i < j < |names| && names[i] == names[j] {
      assert cs[i] == cs[j] == Tunnel(names[i]);
      assert Repeats(cs, false);
    } else {
      var i :| 0 <= i < |names| && (n, names[i]) in l.tunnels;
      assert cs[i] == Tunnel(names[i]) && LedgerHas(l, n, cs[i]);
    }
  }

  lemma PortClaimedTwice(l: Ledger, n: NodeId, p: NodeProperties)
    requires p.WireGuardInternal? && !(NoDup(Ports(p.tunnels)) &&
                                       forall x :: x in Ports(p.tunnels) ==> (n, x) !in l.ports)
    ensures ClaimedTwice(l, n, NodeClaims(p), true)
  {
    var ports, cs, k := Ports(p.tunnels), NodeClaims(p), |TunnelNames(p)|;
    if i, j :| 0 <= i < j < |ports| && ports[i] == ports[j] {
      assert cs[k + i] == cs[k + j] == Port(ports[i]);
      assert Repeats(cs, true);
    } else {
      var i :| 0 <= i < |ports| && (n, ports[i]) in l.ports;
      assert cs[k + i] == Port(ports[i]) && LedgerHas(l, n, cs[k + i]);
    }
  }

  /** Enters the claims of one node, unless one of them was made before. */
  method ClaimNode(l: Ledger, n: NodeId, p: NodeProperties) returns (r: Outcome<FabricConfigError>, l': Ledger)
    ensures r.Pass? <==> NoDup(NodeClaims(p)) && forall c :: c in NodeClaims(p) ==> !LedgerHas(l, n, c)
    ensures r.Pass? ==> forall m, c :: LedgerHas(l', m, c) <==> LedgerHas(l, m, c) || (m == n && c in NodeClaims(p))
    ensures r.Fail? ==> r.error in {DuplicateInterface, DuplicatePort} &&
                        ClaimedTwice(l, n, NodeClaims(p), r.error.DuplicatePort?)
  {
    var isNew;
    l' := l;
    if p.WireGuardInternal? {
      TunnelClaimsNoDup(p);
      var names, tunnels, ports := TunnelNames(p), {}, {};
      isNew, tunnels := InsertAllNew(l.tunnels, n, names);
      if !isNew {
        TunnelClaimedTwice(l, n, p);
        return Fail(DuplicateInterface), l;
      }
      isNew, ports := InsertAllNew(l.ports, n, Ports(p.tunnels));
      if !isNew {
        PortClaimedTwice(l, n, p);
        return Fail(DuplicatePort), l;
      }
      l' := Ledger(l.links, tunnels, ports);
      r := Pass;
    } else {
      var names, links := LinkNames(p), {};
      LinksNoDup(names);
      isNew, links := InsertAllNew(l.links, n, names);
      if !isNew {
        LinkClaimedTwice(l, n, p);
        return Fail(DuplicateInterface), l;
      }
      l' := l.(links := links);
      r := Pass;
    }
  }

  lemma {:induction false} AllClaimsPrefix(es: seq<FabricEntry>, i: nat, n: NodeId)
    requires i <= |es|
    ensures AllClaims(es[..i], n) <= AllClaims(es, n)
    decreases |es|
  {
    if i < |es| {
      assert es[..|es| - 1][..i] == es[..i];
      AllClaimsPrefix(es[..|es| - 1], i, n);
    } else {
      assert es[..i] == es;
    }
  }

  lemma {:induction false} AreasPrefix(es: seq<FabricEntry>, i: nat)
    requires i <= |es|
    ensures Areas(es[..i]) <= Areas(es)
    decreases |es|
  {
    if i < |es| {
      assert es[..|es| - 1][..i] == es[..i];
      AreasPrefix(es[..|es| - 1], i);
    } else {
      assert es[..i] == es;
    }
  }

  lemma HeldStep(es: seq<FabricEntry>, i: nat, ids: seq<NodeId>, k: nat, n: NodeId)
    requires i < |es| && k < |ids| && NoDup(ids)
    ensures n != ids[k] ==> Held(es, i, ids, k + 1, n) == Held(es, i, ids, k, n)
    ensures n == ids[k] ==> Held(es, i, ids, k, n) == AllClaims(es[..i], n)
    ensures n == ids[k] ==> Held(es, i, ids, k + 1, n) == AllClaims(es[..i], n) + Claims(es[i], n)
  {
    assert ids[..k + 1] == ids[..k] + [ids[k]];
    NoDupPrefix(ids[..k + 1], ids);
    NoDupAppend(ids[..k], ids[k]);
  }

  /** Entering the claims of node k keeps the ledger exact. */
  lemma LedgerStep(l: Ledger, l': Ledger, es: seq<FabricEntry>, i: nat, ids: seq<NodeId>, k: nat)
    requires i < |es| && k < |ids| && NoDup(ids)
    requires LedgerHolds(l, es, i, ids, k)
    requires NoDup(Claims(es[i], ids[k])) && forall c :: c in Claims(es[i], ids[k]) ==> !LedgerHas(l, ids[k], c)
    requires forall m, c :: LedgerHas(l', m, c) <==> LedgerHas(l, m, c) || (m == ids[k] && c in Claims(es[i], ids[k]))
    ensures LedgerHolds(l', es, i, ids, k + 1)
  {
    var n0, k' := ids[k], k + 1;
    forall n ensures NoDup(Held(es, i, ids, k', n)) {
      HeldStep(es, i, ids, k, n);
      NoDupConcat(AllClaims(es[..i], n0), Claims(es[i], n0));
      if n == n0 {
        assert forall c :: c in AllClaims(es[..i], n0) ==> LedgerHas(l, n0, c);
      }
    }
    forall n, c ensures LedgerHas(l', n, c) <==> c in Held(es, i, ids, k', n) {
      HeldStep(es, i, ids, k, n);
    }
  }

  /** A rejected claim is a claim made twice. */
  lemma RejectedClaim(l: Ledger, es: seq<FabricEntry>, i: nat, ids: seq<NodeId>, k: nat, ports: bool)
    requires i < |es| && k < |ids| && NoDup(ids)
    requires LedgerHolds(l, es, i, ids, k)
    requires ClaimedTwice(l, ids[k], Claims(es[i], ids[k]), ports)
    ensures Repeats(AllClaims(es, ids[k]), ports)
  {
    var n0 := ids[k];
    var held, cs := AllClaims(es[..i], n0), Claims(es[i], n0);
    HeldStep(es, i, ids, k, n0);
    AllClaimsStep(es, i, n0);
    AllClaimsPrefix(es, i + 1, n0);
    if !Repeats(cs, ports) {
      var c :| c in cs && c.Port? == ports && LedgerHas(l, n0, c);
      assert c in Held(es, i, ids, k, n0);
    }
    RepeatsInSum(held, cs, ports);
    RepeatsInLonger(held + cs, AllClaims(es, n0), ports);
  }

  lemma RepeatsInSum(a: seq<Claim>, b: seq<Claim>, ports: bool)
    requires Repeats(b, ports) || exists c :: c in a && c in b && c.Port? == ports
    ensures Repeats(a + b, ports)
  {
    var s := a + b;
    if i, j :| 0 <= i < j < |b| && b[i] == b[j] && b[i].Port? == ports {
      assert s[|a| + i] == s[|a| + j] == b[i];
    } else {
      var c :| c in a && c in b && c.Port? == ports;
      var i :| 0 <= i < |a| && a[i] == c;
      var j :| 0 <= j < |b| && b[j] == c;
      assert s[i] == s[|a| + j] == c;
    }
  }

  lemma RepeatsInLonger(a: seq<Claim>, b: seq<Claim>, ports: bool)
    requires a <= b && Repeats(a, ports)
    ensures Repeats(b, ports)
  {
    var i, j :| 0 <= i < j < |a| && a[i] == a[j] && a[i].Port? == ports;
    assert b[i] == a[i] && b[j] == a[j];
  }

  lemma AllClaimsStep(es: seq<FabricEntry>, i: nat, n: NodeId)
    requires i < |es|
    ensures AllClaims(es[..i + 1], n) == AllClaims(es[..i], n) + Claims(es[i], n)
  {
    assert es[..i + 1][..i] == es[..i];
  }

  lemma LedgerDone(l: Ledger, es: seq<FabricEntry>, i: nat, ids: seq<NodeId>)
    requires i < |es| && forall n :: n in ids <==> n in es[i].nodes
    requires LedgerHolds(l, es, i, ids, |ids|)
    ensures LedgerOf(l, es, i + 1)
  {
    assert ids[..|ids|] == ids;
    forall n ensures Held(es, i, ids, |ids|, n) == AllClaims(es[..i + 1], n) {
      AllClaimsStep(es, i, n);
    }
    var done := es[..i + 1];
    forall n, c ensures LedgerHas(l, n, c) <==> c in AllClaims(done, n) {
      assert LedgerHas(l, n, c) <==> c in Held(es, i, ids, |ids|, n);
    }
    forall n ensures NoDup(AllClaims(done, n)) {
      assert NoDup(Held(es, i, ids, |ids|, n));
    }
  }

  lemma LedgerStart(l: Ledger, es: seq<FabricEntry>, i: nat, ids: seq<NodeId>)
    requires i < |es| && LedgerOf(l, es, i)
    ensures LedgerHolds(l, es, i, ids, 0)
  {
    forall n ensures Held(es, i, ids, 0, n) == AllClaims(es[..i], n) {
      assert n !in ids[..0];
    }
  }

  /** Enters the claims of the node at position k. */
  method ClaimNext(l: Ledger, es: seq<FabricEntry>, i: nat, ids: seq<NodeId>, k: nat)
    returns (r: Outcome<FabricConfigError>, l': Ledger)
    requires i < |es| && k < |ids| && NoDup(ids) && (forall n :: n in ids <==> n in es[i].nodes) &&
             LedgerHolds(l, es, i, ids, k)
    ensures r.Pass? ==> LedgerHolds(l', es, i, ids, k + 1)
    ensures r.Fail? ==> r.error in {DuplicateInterface, DuplicatePort} && ConfigBreaks(es, r.error)
  {
    assert ids[k] in ids;
    r, l' := ClaimNode(l, ids[k], es[i].nodes[ids[k]].properties);
    if r.Fail? {
      RejectedClaim(l, es, i, ids, k, r.error.DuplicatePort?);
    } else {
      LedgerStep(l, l', es, i, ids, k);
    }
  }

  /** Enters the claims of all nodes of one fabric. */
  method ClaimEntry(l: Ledger, es: seq<FabricEntry>, i: nat) returns (r: Outcome<FabricConfigError>, l': Ledger)
    requires i < |es| && LedgerOf(l, es, i)
    ensures r.Pass? ==> LedgerOf(l', es, i + 1)
    ensures r.Fail? ==> r.error in {DuplicateInterface, DuplicatePort} && ConfigBreaks(es, r.error)
  {
    var ids := NodeIds(es[i].nodes);
    NodeIdsDistinct(es[i].nodes);
    l' := l;
    LedgerStart(l, es, i, ids);
    for k := 0 to |ids|
      invariant LedgerHolds(l', es, i, ids, k)
    {
      r, l' := ClaimNext(l', es, i, ids, k);
      if r.Fail? {
        return;
      }
    }
    LedgerDone(l', es, i, ids);
    r := Pass;
  }

  // ----- The whole configuration -----

  ghost predicate FirstEntriesOk(es: seq<FabricEntry>, i: nat)
    requires i <= |es|
  {
    i > 0 ==> FirstEntriesOk(es, i - 1) && EntryOk(es[i - 1])
  }

  lemma {:induction false} FirstEntriesOkAt(es: seq<FabricEntry>, i: nat, j: nat)
    requires i <= |es| && FirstEntriesOk(es, i) && j < i
    ensures EntryOk(es[j])
  {
    if j < i - 1 {
      FirstEntriesOkAt(es, i - 1, j);
    }
  }

  /** Names and ports that repeat within a node are claims made twice. */
  lemma BrokenNodeRepeats(node: Node, err: FabricConfigError)
    requires NodeBreaks(node, err) && (err.DuplicateInterface? || err.DuplicatePort?)
    ensures Repeats(NodeClaims(node.properties), err.DuplicatePort?)
  {
    var l := Ledger({}, {}, {});
    if err.DuplicatePort? {
      PortClaimedTwice(l, "", node.properties);
    } else {
      TunnelClaimedTwice(l, "", node.properties);
    }
  }

  lemma RepeatedClaims(es: seq<FabricEntry>, i: nat, n: NodeId, ports: bool)
    requires i < |es| && Repeats(Claims(es[i], n), ports)
    ensures Repeats(AllClaims(es, n), ports)
  {
    AllClaimsStep(es, i, n);
    AllClaimsPrefix(es, i + 1, n);
    RepeatsInSum(AllClaims(es[..i], n), Claims(es[i], n), ports);
    RepeatsInLonger(AllClaims(es[..i + 1], n), AllClaims(es, n), ports);
  }

  /** What breaks an entry breaks the configuration. */
  lemma BrokenEntryBreaks(es: seq<FabricEntry>, i: nat, err: FabricConfigError)
    requires i < |es| && EntryBreaks(es[i], err)
    ensures ConfigBreaks(es, err)
  {
    if err.DuplicateInterface? || err.DuplicatePort? {
      var n :| n in es[i].nodes && NodeBreaks(es[i].nodes[n], err);
      BrokenNodeRepeats(es[i].nodes[n], err);
      RepeatedClaims(es, i, n, err.DuplicatePort?);
    }
  }

  /** Accepts exactly the valid configurations, and reports a rule that is broken. */
  method Validate(es: seq<FabricEntry>) returns (r: Outcome<FabricConfigError>)
    requires forall i :: 0 <= i < |es| ==> EntryWellFormed(es[i])
    ensures r.Pass? <==> ConfigOk(es)
    ensures r.Fail? ==> ConfigBreaks(es, r.error)
    ensures (forall i :: 0 <= i < |es| && es[i].fabric.properties.BgpFabric? ==> CannotCollide(es[i].fabric)) ==>
              r != Fail(DuplicateBgpRouterId)
  {
    if forall i :: 0 <= i < |es| && es[i].fabric.properties.BgpFabric? ==> CannotCollide(es[i].fabric) {
      ConfigNeverRejectedForCollision(es);
    }
    var ledger := Ledger({}, {}, {});
    var ospfAreas: set<Ipv4Addr> := {};
    r := CheckPrefixes(es);
    if r.Fail? {
      BrokenIsNotOk(es, r.error);
      return;
    }
    for i := 0 to |es|
      invariant NoDup(Areas(es[..i])) && forall a :: a in ospfAreas <==> a in Areas(es[..i])
      invariant LedgerOf(ledger, es, i)
      invariant FirstEntriesOk(es, i)
    {
      r, ospfAreas := ClaimArea(es, i, ospfAreas);
      if r.Fail? {
        BrokenIsNotOk(es, r.error);
        return;
      }
      r, ledger := ClaimEntry(ledger, es, i);
      if r.Fail? {
        BrokenIsNotOk(es, r.error);
        return;
      }
      r := ValidateEntry(es[i]);
      if r.Fail? {
        BrokenEntryBreaks(es, i, r.error);
        BrokenIsNotOk(es, r.error);
        return;
      }
    }
    assert es[..|es|] == es;
    forall i | 0 <= i < |es| ensures EntryOk(es[i]) {
      FirstEntriesOkAt(es, |es|, i);
    }
    r := Pass;
  }

  method ClaimArea(es: seq<FabricEntry>, i: nat, areas: set<Ipv4Addr>)
    returns (r: Outcome<FabricConfigError>, areas': set<Ipv4Addr>)
    requires i < |es| && NoDup(Areas(es[..i])) && forall a :: a in areas <==> a in Areas(es[..i])
    ensures r.Pass? ==> NoDup(Areas(es[..i + 1])) && forall a :: a in areas' <==> a in Areas(es[..i + 1])
    ensures r.Fail? ==> r.error == DuplicateOspfArea && !NoDup(Areas(es))
  {
    var p := es[i].fabric.properties;
    assert es[..i + 1][..i] == es[..i];
    if !p.OspfFabric? {
      assert Areas(es[..i + 1]) == Areas(es[..i]);
      return Pass, areas;
    }
    var a := AreaValue(p.area);
    assert Areas(es[..i + 1]) == Areas(es[..i]) + [a];
    NoDupAppend(Areas(es[..i]), a);
    AreasPrefix(es, i + 1);
    NoDupPrefix(Areas(es[..i + 1]), Areas(es));
    if a in areas {
      return Fail(DuplicateOspfArea), areas;
    }
    return Pass, areas + {a};
  }
}
