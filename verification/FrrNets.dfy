/** The NETs of the compiled OpenFabric routers: when two nodes share one. */
module FrrNets {
  import opened Wrappers
  import opened Addresses
  import opened Identifiers
  import opened NetworkEntityTitle
  import opened FabricModel
  import opened FabricRules
  import opened FrrModel
  import opened FrrCompiler
  import opened FrrIdentity
  import FrrMeaning

  /** All OpenFabric routers of a node use the NET of the first OpenFabric fabric it is in. */
  ghost function NodeTitle(es: seq<FabricEntry>, node: NodeId): Option<Net> {
    match FirstJoined(es, node, Openfabric)
    case None => None
    case Some(i) => NodeNet(es[i].nodes[node])
  }

  /** The ids of the fabrics of a protocol that a node is in. */
  ghost function JoinedIds(es: seq<FabricEntry>, node: NodeId, p: Protocol): set<string> {
    set e | e in es && Joined(e, node, p) :: e.fabric.id
  }

  lemma JoinedIdsFirst(es: seq<FabricEntry>, node: NodeId, p: Protocol)
    requires es != []
    ensures JoinedIds(es, node, p) == (if Joined(es[0], node, p) then {es[0].fabric.id} else {}) +
            JoinedIds(es[1..], node, p)
  {
    assert es == [es[0]] + es[1..];
  }

  ghost predicate AllNets(routers: map<string, Net>, net: Net) {
    forall name :: name in routers ==> routers[name] == net
  }

  lemma StepRouters(c: Context, e: FabricEntry, node: NodeId)
    requires EntryWellFormed(e) && Step(c, e, node).Ok?
    ensures Step(c, e, node).value.frr.openfabricRouters.Keys ==
            c.frr.openfabricRouters.Keys + if Joined(e, node, Openfabric) then {e.fabric.id} else {}
  {
    if node in e.nodes {
      assert NodeProtocol(e.nodes[node]) == FabricProtocol(e.fabric);
    }
  }

  lemma {:induction false} RunRouters(c: Context, es: seq<FabricEntry>, node: NodeId)
    requires forall i :: 0 <= i < |es| ==> EntryWellFormed(es[i])
    requires Run(c, es, node).Ok?
    ensures Run(c, es, node).value.frr.openfabricRouters.Keys ==
              c.frr.openfabricRouters.Keys + JoinedIds(es, node, Openfabric)
    decreases |es|
  {
    if es != [] {
      StepRouters(c, es[0], node);
      RunRouters(Step(c, es[0], node).value, es[1..], node);
      JoinedIdsFirst(es, node, Openfabric);
    }
  }

  lemma {:induction false} NetKept(c: Context, es: seq<FabricEntry>, node: NodeId)
    requires c.net.Some? && AllNets(c.frr.openfabricRouters, c.net.value) && Run(c, es, node).Ok?
    ensures AllNets(Run(c, es, node).value.frr.openfabricRouters, c.net.value)
    decreases |es|
  {
    if es != [] {
      LaterStep(c, es[0], node);
      NetKept(Step(c, es[0], node).value, es[1..], node);
    }
  }

  lemma LaterStep(c: Context, e: FabricEntry, node: NodeId)
    requires c.net.Some? && Step(c, e, node).Ok?
    ensures var c', routers := Step(c, e, node).value, c.frr.openfabricRouters;
            c'.net == c.net &&
            (c'.frr.openfabricRouters == routers || c'.frr.openfabricRouters == routers[e.fabric.id := c.net.value])
  {
  }

  lemma NetStep(c: Context, e: FabricEntry, node: NodeId)
    requires EntryWellFormed(e) && c.net.None? && Step(c, e, node).Ok?
    ensures var c' := Step(c, e, node).value;
            if Joined(e, node, Openfabric)
            then c'.net.Some? && c'.net == NodeNet(e.nodes[node]) &&
                 c'.frr.openfabricRouters == c.frr.openfabricRouters[e.fabric.id := c'.net.value]
            else c'.net.None? && c'.frr.openfabricRouters == c.frr.openfabricRouters
  {
    if node in e.nodes {
      assert NodeProtocol(e.nodes[node]) == FabricProtocol(e.fabric);
    }
  }

  lemma {:induction false} NetSet(c: Context, es: seq<FabricEntry>, node: NodeId)
    requires forall i :: 0 <= i < |es| ==> EntryWellFormed(es[i])
    requires c.net.None? && c.frr.openfabricRouters == map[] && Run(c, es, node).Ok? &&
             FirstJoined(es, node, Openfabric).Some?
    ensures NodeTitle(es, node).Some?
    ensures AllNets(Run(c, es, node).value.frr.openfabricRouters, NodeTitle(es, node).value)
    decreases |es|
  {
    var c' := Step(c, es[0], node).value;
    NetStep(c, es[0], node);
    if Joined(es[0], node, Openfabric) {
      NetKept(c', es[1..], node);
    } else {
      NetSet(c', es[1..], node);
    }
  }

  /** A node runs one router for each OpenFabric fabric it is in, all with the same NET. */
  lemma CompiledNets(es: seq<FabricEntry>, node: NodeId)
    requires Ordered(es) && ConfigOk(es)
    ensures Build(EMPTY_STATE, es, node).Ok?
    ensures var routers := Build(EMPTY_STATE, es, node).value.openfabricRouters;
            routers.Keys == JoinedIds(es, node, Openfabric) &&
            (FirstJoined(es, node, Openfabric).Some? ==>
               NodeTitle(es, node).Some? && AllNets(routers, NodeTitle(es, node).value))
  {
    FrrMeaning.BuildSucceeds(EMPTY_STATE, es, node);
    var start := Context(EMPTY_STATE, INITIAL_NUMBER, None, None);
    RunRouters(start, es, node);
    if FirstJoined(es, node, Openfabric).Some? {
      NetSet(start, es, node);
    }
  }

  /** Two different nodes, each as its first OpenFabric fabric knows it, derive the same NET:
      never from two IPv4 addresses, otherwise from addresses whose last segments agree. */
  ghost predicate TitlesAgree(n: Node, m: Node) {
    match (n.ip, m.ip)
    case (Some(_), Some(_)) => false
    case (Some(a), None) => m.ip6.Some? && RegroupedSegments(a) == Digits(m.ip6.value, 0x1_0000, 3)
    case (None, Some(b)) => n.ip6.Some? && RegroupedSegments(b) == Digits(n.ip6.value, 0x1_0000, 3)
    case (None, None) =>
      n.ip6.Some? && m.ip6.Some? && Digits(n.ip6.value, 0x1_0000, 3) == Digits(m.ip6.value, 0x1_0000, 3)
  }

  lemma TitlesOfNodes(n: Node, m: Node)
    requires (n.ip.Some? || n.ip6.Some?) && (m.ip.Some? || m.ip6.Some?)
    requires n.ip.Some? && m.ip.Some? ==> n.ip != m.ip
    ensures NodeNet(n) == NodeNet(m) <==> TitlesAgree(n, m)
  {
    match (n.ip, m.ip) {
      case (Some(a), Some(b)) =>
        if SystemIdFromIpv4(a) == SystemIdFromIpv4(b) {
          SystemIdFromIpv4Injective(a, b);
        }
      case (Some(a), None) => MixedCollision(a, m.ip6.value);
      case (None, Some(b)) => MixedCollision(b, n.ip6.value);
      case (None, None) => SystemIdFromIpv6Collision(n.ip6.value, m.ip6.value);
    }
  }

  /** A node of a valid OpenFabric fabric has an address to derive its NET from, and has an
      IPv4 address exactly when the fabric has an IPv4 prefix. */
  lemma FirstNodeHasAddress(es: seq<FabricEntry>, node: NodeId)
    requires Ordered(es) && ConfigOk(es) && FirstJoined(es, node, Openfabric).Some?
    ensures var e := es[FirstJoined(es, node, Openfabric).value];
            (e.nodes[node].ip.Some? || e.nodes[node].ip6.Some?) && (e.nodes[node].ip.Some? <==> e.fabric.ipPrefix.Some?)
  {
    var e := es[FirstJoined(es, node, Openfabric).value];
    assert EntryOk(e) && EntryWellFormed(e);
    assert NodeOk(e.fabric, e.nodes[node]);
  }

  /** The title of every OpenFabric router of a node: AFI 49, area 0001, selector 00, and the
      system id of its address in the first OpenFabric fabric, IPv4 before IPv6. */
  lemma CompiledTitles(es: seq<FabricEntry>, node: NodeId, name: string)
    requires Ordered(es) && ConfigOk(es)
    ensures Build(EMPTY_STATE, es, node).Ok?
    ensures name in Build(EMPTY_STATE, es, node).value.openfabricRouters ==>
              FirstJoined(es, node, Openfabric).Some? &&
              var n := es[FirstJoined(es, node, Openfabric).value].nodes[node];
              (n.ip.Some? || n.ip6.Some?) &&
              Print(Build(EMPTY_STATE, es, node).value.openfabricRouters[name]) ==
                "49.0001." + (if n.ip.Some? then SystemIdFromIpv4(n.ip.value) else SystemIdFromIpv6(n.ip6.value)) +
                ".00"
  {
    CompiledNets(es, node);
    if name in Build(EMPTY_STATE, es, node).value.openfabricRouters {
      assert name in JoinedIds(es, node, Openfabric);
      FirstNodeHasAddress(es, node);
      var n := es[FirstJoined(es, node, Openfabric).value].nodes[node];
      DerivedTitles(if n.ip.Some? then n.ip.value else 0, if n.ip6.Some? then n.ip6.value else 0);
    }
  }

  /** When the routers of two different nodes share a NET, in any valid configuration. */
  lemma SharedNets(es: seq<FabricEntry>, a: NodeId, b: NodeId, x: string, y: string)
    requires Ordered(es) && ConfigOk(es) && a != b
    requires x in JoinedIds(es, a, Openfabric) && y in JoinedIds(es, b, Openfabric)
    ensures Build(EMPTY_STATE, es, a).Ok? && Build(EMPTY_STATE, es, b).Ok?
    ensures FirstJoined(es, a, Openfabric).Some? && FirstJoined(es, b, Openfabric).Some?
    ensures var r, s := Build(EMPTY_STATE, es, a).value.openfabricRouters,
            Build(EMPTY_STATE, es, b).value.openfabricRouters;
            var n := es[FirstJoined(es, a, Openfabric).value].nodes[a];
            var m := es[FirstJoined(es, b, Openfabric).value].nodes[b];
            x in r && y in s && (r[x] == s[y] <==> TitlesAgree(n, m))
  {
    CompiledNets(es, a);
    CompiledNets(es, b);
    var i, j := FirstJoined(es, a, Openfabric), FirstJoined(es, b, Openfabric);
    FirstNodeHasAddress(es, a);
    FirstNodeHasAddress(es, b);
    var n, m := es[i.value].nodes[a], es[j.value].nodes[b];
    if n.ip.Some? && m.ip.Some? {
      AddressesDiffer(es, i.value, a, j.value, b);
    }
    TitlesOfNodes(n, m);
  }

  ghost predicate OpenfabricHasIpv4(es: seq<FabricEntry>) {
    forall e :: e in es && e.fabric.properties.OpenfabricFabric? ==> e.fabric.ipPrefix.Some?
  }

  lemma FirstNodeHasIpv4(es: seq<FabricEntry>, node: NodeId)
    requires Ordered(es) && ConfigOk(es) && FirstJoined(es, node, Openfabric).Some? && OpenfabricHasIpv4(es)
    ensures es[FirstJoined(es, node, Openfabric).value].nodes[node].ip.Some?
  {
    FirstNodeHasAddress(es, node);
    var e := es[FirstJoined(es, node, Openfabric).value];
    assert e in es && Joined(e, node, Openfabric);
  }

  /** When every OpenFabric fabric has an IPv4 prefix, different nodes get different NETs. */
  lemma NetsDiffer(es: seq<FabricEntry>, a: NodeId, b: NodeId, x: string, y: string)
    requires Ordered(es) && ConfigOk(es) && a != b && OpenfabricHasIpv4(es)
    ensures Build(EMPTY_STATE, es, a).Ok? && Build(EMPTY_STATE, es, b).Ok?
    ensures var r, s := Build(EMPTY_STATE, es, a).value.openfabricRouters,
            Build(EMPTY_STATE, es, b).value.openfabricRouters;
            x in r && y in s ==> r[x] != s[y]
  {
    CompiledNets(es, a);
    CompiledNets(es, b);
    if x in JoinedIds(es, a, Openfabric) && y in JoinedIds(es, b, Openfabric) {
      SharedNets(es, a, b, x, y);
      FirstNodeHasIpv4(es, a);
      FirstNodeHasIpv4(es, b);
    }
  }
}
