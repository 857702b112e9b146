/** What the WireGuard compiler makes of a valid configuration: it needs nothing but the
    private keys, loses no interface, and gives every peer to exactly one interface. */
module WireGuardGuarantees {
  import opened Wrappers
  import opened Identifiers
  import opened Collections
  import opened FabricModel
  import opened FabricRules
  import opened WireGuardCompiler
  import FabricValidation
  import FrrIdentity

  // ----- Peers -----

  /** The peer definitions that attach to an interface, in order. */
  function AttachedTo(peers: seq<Peer>, name: string): seq<Peer> {
    if peers == [] then []
    else
      var p := peers[|peers| - 1];
      AttachedTo(peers[..|peers| - 1], name) + if p.iface == name then [p] else []
  }

  lemma PeerSucceeds(e: FabricEntry, p: Peer, name: string)
    requires EntryWellFormed(e) && e.fabric.properties.WireGuardFabric? && PeerResolved(e, p)
    ensures PeerFor(e, p.iface, p).Ok? && |PeerFor(e, p.iface, p).value| == 1
    ensures PeerFor(e, name, p) == if p.iface == name then PeerFor(e, p.iface, p) else Ok([])
  {
    if p.InternalPeer? {
      var q := e.nodes[p.node].properties;
      var i :| 0 <= i < |TunnelNames(q)| && TunnelNames(q)[i] == p.nodeIface;
      assert q.tunnels[i].name == p.nodeIface;
    }
  }

  /** The configuration that a peer definition stands for. */
  function ConfigOf(e: FabricEntry, p: Peer): PeerConfig
    requires EntryWellFormed(e) && e.fabric.properties.WireGuardFabric? && PeerResolved(e, p)
  {
    PeerSucceeds(e, p, p.iface);
    PeerFor(e, p.iface, p).value[0]
  }

  ghost predicate AllResolved(e: FabricEntry, peers: seq<Peer>) {
    EntryWellFormed(e) && e.fabric.properties.WireGuardFabric? &&
    forall i :: 0 <= i < |peers| ==> PeerResolved(e, peers[i])
  }

  function ConfigsOf(e: FabricEntry, peers: seq<Peer>): (cs: seq<PeerConfig>)
    requires AllResolved(e, peers)
    ensures |cs| == |peers| && forall i :: 0 <= i < |cs| ==> cs[i] == ConfigOf(e, peers[i])
  {
    seq(|peers|, i requires 0 <= i < |peers| => ConfigOf(e, peers[i]))
  }

  lemma {:induction false} AttachedMember(peers: seq<Peer>, name: string)
    ensures forall p :: p in AttachedTo(peers, name) <==> p in peers && p.iface == name
  {
    if peers != [] {
      AttachedMember(peers[..|peers| - 1], name);
      assert peers == peers[..|peers| - 1] + [peers[|peers| - 1]];
    }
  }

  lemma AttachedResolved(e: FabricEntry, peers: seq<Peer>, name: string)
    requires AllResolved(e, peers)
    ensures AllResolved(e, AttachedTo(peers, name))
  {
    AttachedMember(peers, name);
    var attached := AttachedTo(peers, name);
    forall i | 0 <= i < |attached| ensures PeerResolved(e, attached[i]) {
      assert attached[i] in attached;
    }
  }

  /** An interface gets the peers that attach to it, in the order of their definitions. */
  lemma {:induction false} PeersOfInterface(e: FabricEntry, peers: seq<Peer>, name: string)
    requires AllResolved(e, peers)
    ensures AllResolved(e, AttachedTo(peers, name))
    ensures Gather(PeersFor(e, name, peers)) == Ok(ConfigsOf(e, AttachedTo(peers, name)))
    decreases |peers|
  {
    AttachedResolved(e, peers, name);
    if peers != [] {
      var init, p := peers[..|peers| - 1], peers[|peers| - 1];
      PeersOfInterface(e, init, name);
      PeerSucceeds(e, p, name);
      assert PeersFor(e, name, peers)[..|peers| - 1] == PeersFor(e, name, init);
      var added: seq<PeerConfig> := if p.iface == name then [ConfigOf(e, p)] else [];
      assert PeerFor(e, name, p) == Ok(added);
      assert ConfigsOf(e, AttachedTo(peers, name)) == ConfigsOf(e, AttachedTo(init, name)) + added;
    }
  }

  lemma {:induction false} AttachedCount(peers: seq<Peer>, name: string, p: Peer)
    ensures multiset(AttachedTo(peers, name))[p] == if p.iface == name then multiset(peers)[p] else 0
  {
    if peers != [] {
      AttachedCount(peers[..|peers| - 1], name, p);
      assert peers == peers[..|peers| - 1] + [peers[|peers| - 1]];
    }
  }

  function AttachedLists(peers: seq<Peer>, names: seq<string>): (ss: seq<seq<Peer>>)
    ensures |ss| == |names| && forall i :: 0 <= i < |ss| ==> ss[i] == AttachedTo(peers, names[i])
  {
    seq(|names|, i requires 0 <= i < |names| => AttachedTo(peers, names[i]))
  }

  lemma {:induction false} ListsCount(peers: seq<Peer>, names: seq<string>, p: Peer)
    requires NoDup(names)
    ensures multiset(Flatten(AttachedLists(peers, names)))[p] == if p.iface in names then multiset(peers)[p] else 0
  {
    if names != [] {
      var ss, rest := AttachedLists(peers, names), names[1..];
      assert ss[1..] == AttachedLists(peers, rest);
      assert names == [names[0]] + rest;
      NoDupConcat([names[0]], rest);
      AttachedCount(peers, names[0], p);
      ListsCount(peers, rest, p);
      assert names[0] in [names[0]];
    }
  }

  /** Conservation of peers: if interface names are distinct and every peer attaches to one
      of them, the interfaces' lists hold together exactly the peers, each as often as defined. */
  lemma PeersConserved(peers: seq<Peer>, names: seq<string>)
    requires NoDup(names) && forall p :: p in peers ==> p.iface in names
    ensures multiset(Flatten(AttachedLists(peers, names))) == multiset(peers)
  {
    forall p: Peer ensures multiset(Flatten(AttachedLists(peers, names)))[p] == multiset(peers)[p] {
      ListsCount(peers, names, p);
      if p.iface !in names {
        assert p !in peers;
      }
    }
  }

  // ----- Totality -----

  /** The store has a key for each interface of the node. */
  ghost predicate KeysComplete(e: FabricEntry, node: NodeId, keys: Keys) {
    IsMember(e, node) ==>
      forall i :: 0 <= i < |e.nodes[node].properties.tunnels| ==>
        FindKey(keys, node, e.nodes[node].properties.tunnels[i].name).Some?
  }

  lemma MemberPeersResolved(e: FabricEntry, node: NodeId)
    requires EntryWellFormed(e) && EntryOk(e) && IsMember(e, node)
    ensures AllResolved(e, e.nodes[node].properties.peers)
    ensures forall p :: p in e.nodes[node].properties.peers ==> p.iface in TunnelNames(e.nodes[node].properties)
    ensures NoDup(TunnelNames(e.nodes[node].properties))
  {
    var peers := e.nodes[node].properties.peers;
    assert NodeOk(e.fabric, e.nodes[node]);
    forall i | 0 <= i < |peers| ensures PeerResolved(e, peers[i]) {
      assert peers[i] in peers;
    }
  }

  /** What the node's interfaces in one fabric compile to. */
  function MemberBindings(e: FabricEntry, node: NodeId, keys: Keys): (bs: seq<Binding>)
    requires EntryWellFormed(e) && EntryOk(e) && IsMember(e, node) && KeysComplete(e, node, keys)
    ensures |bs| == |e.nodes[node].properties.tunnels|
    ensures Firsts(bs) == TunnelNames(e.nodes[node].properties)
  {
    var p := e.nodes[node].properties;
    MemberPeersResolved(e, node);
    seq(|p.tunnels|, i requires 0 <= i < |p.tunnels| => MemberBinding(e, node, keys, i))
  }

  function MemberBinding(e: FabricEntry, node: NodeId, keys: Keys, i: nat): (b: Binding)
    requires EntryWellFormed(e) && EntryOk(e) && IsMember(e, node) && KeysComplete(e, node, keys)
    requires i < |e.nodes[node].properties.tunnels|
    ensures b.0 == e.nodes[node].properties.tunnels[i].name
  {
    var p := e.nodes[node].properties;
    var t := p.tunnels[i];
    MemberPeersResolved(e, node);
    AttachedResolved(e, p.peers, t.name);
    (t.name, InterfaceConfig(FindKey(keys, node, t.name).value, t.listenPort,
                             ConfigsOf(e, AttachedTo(p.peers, t.name))))
  }

  lemma TunnelCompiles(e: FabricEntry, node: NodeId, keys: Keys, i: nat)
    requires EntryWellFormed(e) && EntryOk(e) && IsMember(e, node) && i < |e.nodes[node].properties.tunnels|
    ensures var p := e.nodes[node].properties;
            var r := TunnelFor(e, node, keys, p.peers, p.tunnels[i]);
            if FindKey(keys, node, p.tunnels[i].name).None? then r == Err(KeyMissing)
            else r.Ok? && (KeysComplete(e, node, keys) ==> r.value == [MemberBinding(e, node, keys, i)])
  {
    var p := e.nodes[node].properties;
    MemberPeersResolved(e, node);
    PeersOfInterface(e, p.peers, p.tunnels[i].name);
  }

  lemma EntryCompiles(e: FabricEntry, node: NodeId, keys: Keys)
    requires EntryWellFormed(e) && EntryOk(e)
    ensures EntryFor(e, node, keys).Ok? <==> KeysComplete(e, node, keys)
    ensures EntryFor(e, node, keys).Err? ==> EntryFor(e, node, keys).error == KeyMissing
    ensures IsMember(e, node) && KeysComplete(e, node, keys) ==>
              EntryFor(e, node, keys) == Ok(MemberBindings(e, node, keys))
  {
    if IsMember(e, node) {
      var p := e.nodes[node].properties;
      var rs := TunnelsFor(e, node, keys, p.peers, p.tunnels);
      GatherOk(rs);
      forall i | 0 <= i < |rs|
        ensures rs[i].Ok? <==> FindKey(keys, node, p.tunnels[i].name).Some?
        ensures rs[i].Err? ==> rs[i].error == KeyMissing
        ensures KeysComplete(e, node, keys) ==> rs[i] == Ok([MemberBinding(e, node, keys, i)])
      {
        TunnelCompiles(e, node, keys, i);
      }
      if KeysComplete(e, node, keys) {
        FlattenSingles(OkValues(rs), MemberBindings(e, node, keys));
      }
    }
  }

  lemma {:induction false} FlattenSingles<T>(ss: seq<seq<T>>, s: seq<T>)
    requires |ss| == |s| && forall i :: 0 <= i < |s| ==> ss[i] == [s[i]]
    ensures Flatten(ss) == s
  {
    if ss != [] {
      FlattenSingles(ss[1..], s[1..]);
      assert s == [s[0]] + s[1..];
    }
  }

  // ----- The whole configuration -----

  ghost predicate AllKeys(es: seq<FabricEntry>, node: NodeId, keys: Keys) {
    forall i :: 0 <= i < |es| ==> KeysComplete(es[i], node, keys)
  }

  /** For a valid configuration, building fails only for lack of a private key, and does so
      exactly if some interface of the node has none. */
  lemma BuildSucceeds(es: seq<FabricEntry>, node: NodeId, keys: Keys)
    requires Ordered(es) && ConfigOk(es)
    ensures Compiled(es, node, keys).Ok? <==> AllKeys(es, node, keys)
    ensures Compiled(es, node, keys).Err? ==> Compiled(es, node, keys).error == KeyMissing
  {
    var rs := EntriesFor(es, node, keys);
    GatherOk(rs);
    forall i | 0 <= i < |es|
      ensures rs[i].Ok? <==> KeysComplete(es[i], node, keys)
      ensures rs[i].Err? ==> rs[i].error == KeyMissing
    {
      EntryCompiles(es[i], node, keys);
    }
  }

  /** The bindings for the fabrics of the node, one list for each fabric. */
  function BindingLists(es: seq<FabricEntry>, node: NodeId, keys: Keys): (ss: seq<seq<Binding>>)
    requires Ordered(es) && ConfigOk(es) && AllKeys(es, node, keys)
    ensures |ss| == |es|
    ensures forall i :: 0 <= i < |es| ==> ss[i] == if IsMember(es[i], node) then MemberBindings(es[i], node, keys)
                                          else []
  {
    seq(|es|, i requires 0 <= i < |es| => if IsMember(es[i], node) then MemberBindings(es[i], node, keys) else [])
  }

  lemma {:induction false} FirstsOfLists<V>(ss: seq<seq<(string, V)>>, names: seq<seq<string>>)
    requires |ss| == |names| && forall i :: 0 <= i < |ss| ==> Firsts(ss[i]) == names[i]
    ensures Firsts(Flatten(ss)) == Flatten(names)
  {
    if ss != [] {
      FirstsConcat(ss[0], Flatten(ss[1..]));
      FirstsOfLists(ss[1..], names[1..]);
    }
  }

  function MemberNames(es: seq<FabricEntry>, node: NodeId): (ss: seq<seq<string>>)
    ensures |ss| == |es|
    ensures forall i :: 0 <= i < |es| ==> ss[i] == if IsMember(es[i], node)
                                          then TunnelNames(es[i].nodes[node].properties) else []
  {
    seq(|es|, i requires 0 <= i < |es| => if IsMember(es[i], node) then TunnelNames(es[i].nodes[node].properties)
        else [])
  }

  /** No two interfaces of the node have the same name, whichever fabrics they are in. */
  lemma MemberNamesDistinct(es: seq<FabricEntry>, node: NodeId)
    requires NoDup(AllClaims(es, node))
    ensures NoDup(Flatten(MemberNames(es, node)))
  {
    var ss := MemberNames(es, node);
    FlattenNoDup(ss);
    forall i | 0 <= i < |es| ensures NoDup(ss[i]) {
      FrrIdentity.ClaimsSeparate(es, node, i, i, FabricRules.Link(""));
      if IsMember(es[i], node) {
        FabricValidation.TunnelClaimsNoDup(es[i].nodes[node].properties);
      }
    }
    forall i, j | 0 <= i < j < |es| ensures forall x :: x in ss[i] ==> x !in ss[j] {
      NamesApart(es, node, i, j);
    }
  }

  lemma NamesApart(es: seq<FabricEntry>, node: NodeId, i: nat, j: nat)
    requires NoDup(AllClaims(es, node)) && i < j < |es|
    ensures forall x :: x in MemberNames(es, node)[i] ==> x !in MemberNames(es, node)[j]
  {
    if IsMember(es[i], node) && IsMember(es[j], node) {
      FabricValidation.TunnelClaimsNoDup(es[i].nodes[node].properties);
      FabricValidation.TunnelClaimsNoDup(es[j].nodes[node].properties);
      forall x | x in MemberNames(es, node)[i] ensures x !in MemberNames(es, node)[j] {
        FrrIdentity.ClaimsSeparate(es, node, i, j, FabricRules.Tunnel(x));
      }
    }
  }

  lemma GatheredBindings(es: seq<FabricEntry>, node: NodeId, keys: Keys)
    requires Ordered(es) && ConfigOk(es) && AllKeys(es, node, keys)
    ensures Gather(EntriesFor(es, node, keys)) == Ok(Flatten(BindingLists(es, node, keys)))
  {
    var rs := EntriesFor(es, node, keys);
    GatherOk(rs);
    forall i | 0 <= i < |es| ensures rs[i] == Ok(BindingLists(es, node, keys)[i]) {
      EntryCompiles(es[i], node, keys);
    }
    assert OkValues(rs) == BindingLists(es, node, keys);
  }

  lemma BindingNames(es: seq<FabricEntry>, node: NodeId, keys: Keys)
    requires Ordered(es) && ConfigOk(es) && AllKeys(es, node, keys)
    ensures NoDup(Firsts(Flatten(BindingLists(es, node, keys))))
  {
    FirstsOfLists(BindingLists(es, node, keys), MemberNames(es, node));
    MemberNamesDistinct(es, node);
  }

  /** No interface is overwritten: the built configuration holds, for every interface of the
      node in every fabric, its key, its port and the peers attached to it, and nothing else. */
  lemma InterfacesConserved(es: seq<FabricEntry>, node: NodeId, keys: Keys)
    requires Ordered(es) && ConfigOk(es) && AllKeys(es, node, keys)
    ensures Compiled(es, node, keys).Ok?
    ensures HoldsExactly(Compiled(es, node, keys).value, Flatten(BindingLists(es, node, keys)))
  {
    GatheredBindings(es, node, keys);
    BindingNames(es, node, keys);
    InsertAllDistinct(map[], Flatten(BindingLists(es, node, keys)));
  }

  /** Every peer definition of a valid node attaches to exactly one of the node's interfaces. */
  lemma EveryDefinitionOnce(e: FabricEntry, node: NodeId)
    requires EntryWellFormed(e) && EntryOk(e) && IsMember(e, node)
    ensures var p := e.nodes[node].properties;
            multiset(Flatten(AttachedLists(p.peers, TunnelNames(p)))) == multiset(p.peers)
  {
    MemberPeersResolved(e, node);
    PeersConserved(e.nodes[node].properties.peers, TunnelNames(e.nodes[node].properties));
  }

  /** The compiled configuration of an interface, by its position. */
  lemma InterfaceAt(es: seq<FabricEntry>, node: NodeId, keys: Keys, i: nat, j: nat)
    requires Ordered(es) && ConfigOk(es) && AllKeys(es, node, keys)
    requires i < |es| && IsMember(es[i], node) && j < |es[i].nodes[node].properties.tunnels|
    ensures Compiled(es, node, keys).Ok?
    ensures var (name, c) := MemberBinding(es[i], node, keys, j);
            name in Compiled(es, node, keys).value && Compiled(es, node, keys).value[name] == c
  {
    var ss, b := BindingLists(es, node, keys), MemberBinding(es[i], node, keys, j);
    InterfacesConserved(es, node, keys);
    assert ss[i][j] == b;
    FlattenMember(ss, b);
    var k :| 0 <= k < |Flatten(ss)| && Flatten(ss)[k] == b;
  }

  // ----- Peers of the compiled interfaces -----

  /** An interface of the compiled configuration has exactly the peers that attach to it, in the
      order of their definitions. */
  lemma CompiledPeers(es: seq<FabricEntry>, node: NodeId, keys: Keys, i: nat, j: nat)
    requires Ordered(es) && ConfigOk(es) && AllKeys(es, node, keys)
    requires i < |es| && IsMember(es[i], node) && j < |es[i].nodes[node].properties.tunnels|
    ensures var p := es[i].nodes[node].properties;
            var name := p.tunnels[j].name;
            Compiled(es, node, keys).Ok? && name in Compiled(es, node, keys).value &&
            AllResolved(es[i], AttachedTo(p.peers, name)) &&
            Compiled(es, node, keys).value[name].peers == ConfigsOf(es[i], AttachedTo(p.peers, name))
  {
    var p := es[i].nodes[node].properties;
    InterfaceAt(es, node, keys, i, j);
    MemberPeersResolved(es[i], node);
    AttachedResolved(es[i], p.peers, p.tunnels[j].name);
  }

  /** What a peer definition stands for is among the peers of its compiled interface. */
  lemma PeerCompiled(es: seq<FabricEntry>, node: NodeId, keys: Keys, i: nat, p: Peer)
    requires Ordered(es) && ConfigOk(es) && AllKeys(es, node, keys)
    requires i < |es| && IsMember(es[i], node) && p in es[i].nodes[node].properties.peers
    ensures PeerResolved(es[i], p)
    ensures Compiled(es, node, keys).Ok? && p.iface in Compiled(es, node, keys).value
    ensures ConfigOf(es[i], p) in Compiled(es, node, keys).value[p.iface].peers
  {
    var q := es[i].nodes[node].properties;
    MemberPeersResolved(es[i], node);
    var j :| 0 <= j < |TunnelNames(q)| && TunnelNames(q)[j] == p.iface;
    CompiledPeers(es, node, keys, i, j);
    AttachedMember(q.peers, p.iface);
    var attached := AttachedTo(q.peers, p.iface);
    var k :| 0 <= k < |attached| && attached[k] == p;
    assert ConfigsOf(es[i], attached)[k] == ConfigOf(es[i], p);
  }

  /** The peers of the named interfaces, interface by interface. */
  function PeerLists(m: map<string, InterfaceConfig>, names: seq<string>): (ss: seq<seq<PeerConfig>>)
    ensures |ss| == |names| && forall i :: 0 <= i < |ss| ==> ss[i] == if names[i] in m then m[names[i]].peers else []
  {
    seq(|names|, i requires 0 <= i < |names| => if names[i] in m then m[names[i]].peers else [])
  }

  lemma ConfigsConcat(e: FabricEntry, a: seq<Peer>, b: seq<Peer>)
    requires AllResolved(e, a) && AllResolved(e, b)
    ensures AllResolved(e, a + b) && ConfigsOf(e, a + b) == ConfigsOf(e, a) + ConfigsOf(e, b)
  {
  }

  lemma {:induction false} ConfigsFlatten(e: FabricEntry, ss: seq<seq<Peer>>, cs: seq<seq<PeerConfig>>)
    requires |cs| == |ss| && forall i :: 0 <= i < |ss| ==> AllResolved(e, ss[i]) && cs[i] == ConfigsOf(e, ss[i])
    requires EntryWellFormed(e) && e.fabric.properties.WireGuardFabric?
    ensures AllResolved(e, Flatten(ss)) && ConfigsOf(e, Flatten(ss)) == Flatten(cs)
  {
    if ss != [] {
      ConfigsFlatten(e, ss[1..], cs[1..]);
      ConfigsConcat(e, ss[0], Flatten(ss[1..]));
    }
  }

  lemma ConfigsWithout(e: FabricEntry, b: seq<Peer>, k: nat)
    requires AllResolved(e, b) && k < |b|
    ensures AllResolved(e, WithoutAt(b, k))
    ensures multiset(ConfigsOf(e, b)) == multiset{ConfigOf(e, b[k])} + multiset(ConfigsOf(e, WithoutAt(b, k)))
  {
    ConfigsConcat(e, b[..k], b[k + 1..]);
    TakenOut(ConfigsOf(e, b), k);
    assert ConfigsOf(e, b)[..k] == ConfigsOf(e, b[..k]) && ConfigsOf(e, b)[k + 1..] == ConfigsOf(e, b[k + 1..]);
  }

  lemma {:induction false} ConfigsPermute(e: FabricEntry, a: seq<Peer>, b: seq<Peer>)
    requires AllResolved(e, a) && AllResolved(e, b) && multiset(a) == multiset(b)
    ensures multiset(ConfigsOf(e, a)) == multiset(ConfigsOf(e, b))
    decreases |a|
  {
    if a == [] {
      assert |b| == |multiset(b)| == 0;
    } else {
      var k := TakenOutOfBoth(a, b);
      ConfigsWithout(e, a, 0);
      ConfigsWithout(e, b, k);
      ConfigsPermute(e, WithoutAt(a, 0), WithoutAt(b, k));
    }
  }

  /** Conservation of peers: the compiled interfaces of a node's fabric have together what the
      node's peer definitions stand for, each as often as it is defined. */
  lemma EveryPeerOnce(es: seq<FabricEntry>, node: NodeId, keys: Keys, i: nat)
    requires Ordered(es) && ConfigOk(es) && AllKeys(es, node, keys) && i < |es| && IsMember(es[i], node)
    ensures Compiled(es, node, keys).Ok? && AllResolved(es[i], es[i].nodes[node].properties.peers)
    ensures var p := es[i].nodes[node].properties;
            multiset(Flatten(PeerLists(Compiled(es, node, keys).value, TunnelNames(p)))) ==
              multiset(ConfigsOf(es[i], p.peers))
  {
    var p := es[i].nodes[node].properties;
    var names := TunnelNames(p);
    var ss := AttachedLists(p.peers, names);
    BuildSucceeds(es, node, keys);
    MemberPeersResolved(es[i], node);
    EveryDefinitionOnce(es[i], node);
    var cs := PeerLists(Compiled(es, node, keys).value, names);
    forall j | 0 <= j < |names| ensures AllResolved(es[i], ss[j]) && cs[j] == ConfigsOf(es[i], ss[j]) {
      CompiledPeers(es, node, keys, i, j);
    }
    ConfigsFlatten(es[i], ss, cs);
    ConfigsPermute(es[i], Flatten(ss), p.peers);
  }

  lemma FoundTunnel(ts: seq<WireGuardInterface>, name: string) returns (j: nat)
    requires exists i :: 0 <= i < |ts| && ts[i].name == name
    ensures j < |ts| && ts[j].name == name && FindTunnel(ts, name) == Some(ts[j])
  {
    var t := FindTunnel(ts, name).value;
    j :| 0 <= j < |ts| && ts[j] == t;
  }

  lemma ToldAbout(e: FabricEntry, p: Peer) returns (j: nat)
    requires EntryWellFormed(e) && e.fabric.properties.WireGuardFabric? && PeerResolved(e, p) && p.InternalPeer?
    ensures IsMember(e, p.node) && j < |e.nodes[p.node].properties.tunnels|
    ensures e.nodes[p.node].properties.tunnels[j].name == p.nodeIface
    ensures ConfigOf(e, p) == InternalPeerConfig(e.fabric, e.nodes[p.node], p, e.nodes[p.node].properties.tunnels[j])
  {
    PeerSucceeds(e, p, p.iface);
    var q := e.nodes[p.node].properties;
    var k :| 0 <= k < |TunnelNames(q)| && TunnelNames(q)[k] == p.nodeIface;
    assert q.tunnels[k].name == p.nodeIface;
    j := FoundTunnel(q.tunnels, p.nodeIface);
  }

  /** Both ends meet: what one node's compiled interface is told about a peer agrees with what the
      peer's own node is told. The endpoint's port is the one that the peer's interface listens
      on, and the public key is the one configured for that interface. */
  lemma PeerEndsMeet(es: seq<FabricEntry>, i: nat, node: NodeId, p: Peer, keys: Keys)
    requires Ordered(es) && ConfigOk(es) && i < |es| && IsMember(es[i], node)
    requires p in es[i].nodes[node].properties.peers && p.InternalPeer? && AllKeys(es, p.node, keys)
    ensures PeerResolved(es[i], p) && Compiled(es, p.node, keys).Ok?
    ensures var remote, told := Compiled(es, p.node, keys).value, ConfigOf(es[i], p);
            p.nodeIface in remote &&
            (told.endpoint.Some? ==> told.endpoint.value.port == remote[p.nodeIface].listenPort) &&
            exists t :: t in es[i].nodes[p.node].properties.tunnels && t.name == p.nodeIface &&
                        t.publicKey == told.publicKey
    ensures AllKeys(es, node, keys) ==>
              Compiled(es, node, keys).Ok? && p.iface in Compiled(es, node, keys).value &&
              ConfigOf(es[i], p) in Compiled(es, node, keys).value[p.iface].peers
  {
    if AllKeys(es, node, keys) {
      PeerCompiled(es, node, keys, i, p);
    }
    assert EntryOk(es[i]) && PeerResolved(es[i], p);
    var j := ToldAbout(es[i], p);
    InterfaceAt(es, p.node, keys, i, j);
    var ts := es[i].nodes[p.node].properties.tunnels;
    assert ts[j] in ts;
  }
}
