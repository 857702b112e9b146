/** When deleting a node from a valid fabric configuration leaves it valid. */
module NodeDeletion {
  import opened Wrappers
  import opened Identifiers
  import opened Collections
  import opened FabricModel
  import opened FabricRules
  import opened FabricConfiguration

  function NodeWithout(e: FabricEntry, n: NodeId): FabricEntry {
    e.(nodes := e.nodes - {n})
  }

  /** Another node of the fabric names n as its WireGuard peer. */
  ghost predicate IsPeer(e: FabricEntry, n: NodeId) {
    exists m, p :: m in e.nodes && m != n && e.nodes[m].properties.WireGuardInternal? &&
                   p in e.nodes[m].properties.peers && p.node == n
  }

  // ----- The fabric that loses the node -----

  lemma {:induction false} SameTunnels(e: FabricEntry, n: NodeId, ids: seq<NodeId>)
    requires n !in ids
    ensures AllTunnelAddresses(NodeWithout(e, n), ids) == AllTunnelAddresses(e, ids)
  {
    if ids != [] {
      SameTunnels(e, n, ids[..|ids| - 1]);
    }
  }

  lemma {:induction false} TunnelsConcat(e: FabricEntry, a: seq<NodeId>, b: seq<NodeId>)
    ensures AllTunnelAddresses(e, a + b) == AllTunnelAddresses(e, a) + AllTunnelAddresses(e, b)
    decreases |b|
  {
    if b == [] {
      assert a + b == a;
    } else {
      var init, m := b[..|b| - 1], b[|b| - 1];
      assert (a + b)[..|a + b| - 1] == a + init && (a + b)[|a + b| - 1] == m;
      TunnelsConcat(e, a, init);
      ConcatAssociative(AllTunnelAddresses(e, a), AllTunnelAddresses(e, init), NodeTunnelAddresses(e, m));
    }
  }

  lemma IdsWithout(nodes: map<NodeId, Node>, n: NodeId) returns (a: seq<NodeId>, b: seq<NodeId>)
    requires n in nodes
    ensures NodeIds(nodes) == a + [n] + b && NodeIds(nodes - {n}) == a + b
  {
    var ids := NodeIds(nodes);
    var i := SortedWithout(nodes.Keys, n);
    assert (nodes - {n}).Keys == nodes.Keys - {n};
    SplitAt(ids, i);
    a, b := ids[..i], ids[i + 1..];
  }

  lemma TunnelsStayDistinct(e: FabricEntry, n: NodeId)
    requires n in e.nodes && NoDup(AllTunnelAddresses(e, NodeIds(e.nodes)))
    ensures NoDup(AllTunnelAddresses(NodeWithout(e, n), NodeIds(NodeWithout(e, n).nodes)))
  {
    var a, b := IdsWithout(e.nodes, n);
    assert n !in a + b;
    SameTunnels(e, n, a + b);
    TunnelsConcat(e, a + [n], b);
    TunnelsConcat(e, a, [n]);
    TunnelsConcat(e, a, b);
    NoDupWithoutMiddle(AllTunnelAddresses(e, a), AllTunnelAddresses(e, [n]), AllTunnelAddresses(e, b));
  }

  lemma PeersWithout(e: FabricEntry, n: NodeId)
    requires PeersResolved(e)
    ensures PeersResolved(NodeWithout(e, n)) <==> !IsPeer(e, n)
  {
    var rest := NodeWithout(e, n);
    if IsPeer(e, n) {
      var m, p :| m in e.nodes && m != n && e.nodes[m].properties.WireGuardInternal? &&
                  p in e.nodes[m].properties.peers && p.node == n;
      assert rest.nodes[m] == e.nodes[m] && !PeerResolved(rest, p);
    } else {
      forall m, p | m in rest.nodes && rest.nodes[m].properties.WireGuardInternal? &&
                    p in rest.nodes[m].properties.peers
        ensures PeerResolved(rest, p)
      {
        assert PeerResolved(e, p) && p.node != n;
      }
    }
  }

  lemma UniqueWithout(k: NodeKey, e: FabricEntry, n: NodeId)
    requires Unique(k, e)
    ensures Unique(k, NodeWithout(e, n))
  {
  }

  lemma OnlyWireGuardHasPeers(e: FabricEntry, n: NodeId)
    requires EntryWellFormed(e) && IsPeer(e, n)
    ensures e.fabric.properties.WireGuardFabric?
  {
  }

  lemma EntryOkWithout(e: FabricEntry, n: NodeId)
    requires EntryWellFormed(e) && EntryOk(e) && n in e.nodes
    ensures EntryOk(NodeWithout(e, n)) <==> !IsPeer(e, n)
  {
    var rest := NodeWithout(e, n);
    UniqueWithout(Address4, e, n);
    UniqueWithout(Address6, e, n);
    if e.fabric.properties.WireGuardFabric? {
      TunnelsStayDistinct(e, n);
      PeersWithout(e, n);
    } else if IsPeer(e, n) {
      OnlyWireGuardHasPeers(e, n);
    }
    if e.fabric.properties.BgpFabric? {
      UniqueWithout(RouterIdentity, e, n);
      assert RouterIdsOk(rest);
    }
  }

  // ----- The other fabrics -----

  lemma ClaimsWithout(e: FabricEntry, n: NodeId, m: NodeId)
    ensures Claims(NodeWithout(e, n), m) == if m == n then [] else Claims(e, m)
  {
  }

  lemma AllClaimsWithout(a: seq<FabricEntry>, e: FabricEntry, b: seq<FabricEntry>, n: NodeId, m: NodeId)
    requires NoDup(AllClaims(a + [e] + b, m))
    ensures NoDup(AllClaims(a + [NodeWithout(e, n)] + b, m))
  {
    var rest := NodeWithout(e, n);
    AllClaimsConcat(a + [e], b, m);
    AllClaimsConcat(a, [e], m);
    AllClaimsConcat(a + [rest], b, m);
    AllClaimsConcat(a, [rest], m);
    OneClaims(e, m);
    OneClaims(rest, m);
    ClaimsWithout(e, n, m);
    if m == n {
      NoDupWithoutMiddle(AllClaims(a, m), AllClaims([e], m), AllClaims(b, m));
      assert AllClaims(a, m) + [] == AllClaims(a, m);
    }
  }

  lemma OneClaims(e: FabricEntry, m: NodeId)
    ensures AllClaims([e], m) == Claims(e, m)
  {
    assert [e][..0] == [];
    assert AllClaims([e], m) == AllClaims([], m) + Claims(e, m);
  }

  lemma AreasWithout(a: seq<FabricEntry>, e: FabricEntry, b: seq<FabricEntry>, n: NodeId)
    ensures Areas(a + [NodeWithout(e, n)] + b) == Areas(a + [e] + b)
  {
    var rest := NodeWithout(e, n);
    AreasConcat(a + [e], b);
    AreasConcat(a, [e]);
    AreasConcat(a + [rest], b);
    AreasConcat(a, [rest]);
    assert [e][..0] == [] && [rest][..0] == [];
    assert Areas([e]) == Areas([rest]);
  }

  lemma EntriesOkWithout(es: seq<FabricEntry>, i: nat, n: NodeId)
    requires i < |es| && EntryWellFormed(es[i]) && n in es[i].nodes && forall j :: 0 <= j < |es| ==> EntryOk(es[j])
    ensures var rest := es[i := NodeWithout(es[i], n)];
            (forall j :: 0 <= j < |rest| ==> EntryOk(rest[j])) <==> !IsPeer(es[i], n)
  {
    var rest := es[i := NodeWithout(es[i], n)];
    EntryOkWithout(es[i], n);
    assert rest[i] == NodeWithout(es[i], n);
    assert forall j :: 0 <= j < |es| && j != i ==> rest[j] == es[j];
  }

  lemma PrefixesWithout(es: seq<FabricEntry>, i: nat, n: NodeId)
    requires i < |es| && PrefixesDisjoint(es)
    ensures PrefixesDisjoint(es[i := NodeWithout(es[i], n)])
  {
    var rest := es[i := NodeWithout(es[i], n)];
    assert forall j :: 0 <= j < |es| ==> rest[j].fabric == es[j].fabric;
  }

  lemma ConfigOkWithoutNode(es: seq<FabricEntry>, i: nat, n: NodeId)
    requires i < |es| && ConfigOk(es) && EntryWellFormed(es[i]) && n in es[i].nodes
    ensures ConfigOk(es[i := NodeWithout(es[i], n)]) <==> !IsPeer(es[i], n)
  {
    var a, e, b := es[..i], es[i], es[i + 1..];
    SplitAt(es, i);
    assert es[i := NodeWithout(e, n)] == a + [NodeWithout(e, n)] + b;
    EntriesOkWithout(es, i, n);
    PrefixesWithout(es, i, n);
    AreasWithout(a, e, b, n);
    forall m: NodeId ensures NoDup(AllClaims(a + [NodeWithout(e, n)] + b, m)) {
      AllClaimsWithout(a, e, b, n, m);
    }
  }

  lemma ValuesReplaced(c: Fabrics, id: FabricId, e: FabricEntry) returns (i: nat)
    requires id in c
    ensures i < |Values(c)| && Values(c)[i] == c[id] && Values(c[id := e]) == Values(c)[i := e]
  {
    var ids, c' := FabricIds(c), c[id := e];
    SortedKeysAscend(c.Keys);
    assert c'.Keys == c.Keys && id in ids;
    i :| 0 <= i < |ids| && ids[i] == id;
    forall j | 0 <= j < |ids| ensures Values(c')[j] == Values(c)[i := e][j] {
      ValueAt(c, j);
      ValueAt(c', j);
    }
    ValueAt(c, i);
  }

  /** A valid configuration stays valid when a node is deleted from it exactly if no other node
      of the fabric names it as a WireGuard peer. */
  lemma DeletingNodeKeepsValid(c: Fabrics, id: FabricId, n: NodeId)
    requires WellFormed(c) && ConfigOk(Values(c)) && id in c && n in c[id].nodes
    ensures ConfigOk(Values(After(c, DeleteNode(id, n)))) <==> !IsPeer(c[id], n)
  {
    var i := ValuesReplaced(c, id, NodeWithout(c[id], n));
    ConfigOkWithoutNode(Values(c), i, n);
  }

  // ----- A valid configuration whose nodes cannot all be deleted -----

  const TUNNEL := WireGuardInterface("wg0", 51820, PublicKey(1), None, None)
  const PEER := InternalPeer("b", "wg0", "wg0", None, [])

  /** Two WireGuard nodes, the first of which names the second as its peer. */
  const PEERED :=
    FabricEntry(Fabric("wg", None, None, WireGuardFabric(None)),
                map["a" := Node(NodeSectionId("wg", "a"), None, None, WireGuardInternal(None, [TUNNEL], [PEER], [])),
                    "b" := Node(NodeSectionId("wg", "b"), None, None, WireGuardInternal(None, [TUNNEL], [], []))])

  const PEERED_CONFIG: Fabrics := map["wg" := PEERED]

  lemma PeeredNodesOk()
    ensures EntryWellFormed(PEERED) && EntryFormatted(PEERED)
    ensures forall n :: n in PEERED.nodes ==> NodeOk(PEERED.fabric, PEERED.nodes[n])
  {
    assert PEERED.nodes.Keys == {"a", "b"};
    assert TunnelNames(PEERED.nodes["a"].properties) == ["wg0"] && TunnelNames(PEERED.nodes["b"].properties) == ["wg0"];
  }

  lemma PeeredOk()
    ensures EntryOk(PEERED)
  {
    PeeredNodesOk();
    NoTunnelAddresses(NodeIds(PEERED.nodes));
    PeeredPeersResolved();
    assert Unique(Address4, PEERED) && Unique(Address6, PEERED);
  }

  lemma PeeredPeersResolved()
    ensures PeersResolved(PEERED)
  {
    assert PEERED.nodes.Keys == {"a", "b"};
    assert TunnelNames(PEERED.nodes["b"].properties) == ["wg0"];
    assert PeerResolved(PEERED, PEER);
    forall n, p | n in PEERED.nodes && PEERED.nodes[n].properties.WireGuardInternal? &&
                  p in PEERED.nodes[n].properties.peers
      ensures PeerResolved(PEERED, p)
    {
      assert p == PEER;
    }
  }

  lemma {:induction false} NoTunnelAddresses(ids: seq<NodeId>)
    ensures AllTunnelAddresses(PEERED, ids) == []
  {
    if ids != [] {
      NoTunnelAddresses(ids[..|ids| - 1]);
      OneTunnel(ids[|ids| - 1]);
    }
  }

  lemma OneTunnel(n: NodeId)
    ensures NodeTunnelAddresses(PEERED, n) == []
  {
    assert PEERED.nodes.Keys == {"a", "b"};
    assert [TUNNEL][..0] == [];
    assert TunnelsAddresses([TUNNEL]) == TunnelsAddresses([]) + TunnelAddresses(TUNNEL) == [];
  }

  lemma PeeredClaims(n: NodeId)
    ensures NoDup(AllClaims([PEERED], n))
  {
    OneClaims(PEERED, n);
    assert PEERED.nodes.Keys == {"a", "b"};
    if n in PEERED.nodes {
      var p := PEERED.nodes[n].properties;
      assert TunnelNames(p) == ["wg0"] && Ports(p.tunnels) == [51820];
      assert NodeClaims(p) == [Tunnel("wg0"), Port(51820)];
    }
  }

  lemma PeeredConfigOk()
    ensures WellFormed(PEERED_CONFIG) && Values(PEERED_CONFIG) == [PEERED] && ConfigOk([PEERED])
  {
    PeeredNodesOk();
    PeeredOk();
    assert PEERED_CONFIG.Keys == {"wg"};
    OneValue();
    assert [PEERED][..0] == [];
    assert Areas([PEERED]) == Areas([]) == [];
    forall n: NodeId ensures NoDup(AllClaims([PEERED], n)) {
      PeeredClaims(n);
    }
  }

  lemma OneValue()
    ensures Values(PEERED_CONFIG) == [PEERED]
  {
    assert PEERED_CONFIG.Keys == {"wg"} && IsLeast("wg", {"wg"}) && {"wg"} - {"wg"} == {};
    SortedFirst({"wg"}, "wg");
  }

  /** Deleting the peer of another node makes the valid configuration invalid. */
  lemma DeletingPeerBreaks()
    ensures WellFormed(PEERED_CONFIG) && ConfigOk(Values(PEERED_CONFIG))
    ensures !ConfigOk(Values(After(PEERED_CONFIG, DeleteNode("wg", "b"))))
  {
    PeeredConfigOk();
    assert PEER in PEERED.nodes["a"].properties.peers && PEER.node == "b";
    DeletingNodeKeepsValid(PEERED_CONFIG, "wg", "b");
  }
}
