/** What the interfaces of OpenFabric and OSPF are told in the compiled configuration: area or
    fabric, timers and flags, read off the result and compared with what the user configured. */
module FrrInterfaces {
  import opened Wrappers
  import opened Identifiers
  import opened Collections
  import opened Text
  import opened FabricModel
  import opened FabricRules
  import opened FrrModel
  import opened FrrCompiler
  import opened FrrIdentity
  import FrrMeaning

  // ----- Areas -----

  /** The area that a text names, as a plain number or as a dotted address. */
  function ReadArea(text: string): Option<nat> {
    var number := ParseUnsigned(text, 0xFFFF_FFFF);
    if number.Some? then number else if IsIpv4Text(text) then Some(Ipv4Value(text)) else None
  }

  /** The text names the area, in the notation that the user chose. */
  predicate Names(text: string, a: Area) {
    ReadArea(text) == Some(AreaValue(a)) && (IsIpv4Text(text) <==> a.IpAddress?)
  }

  lemma PrintedAreaNames(a: Area)
    ensures Names(PrintArea(a), a)
  {
    match a
    case Number(n) =>
      ParsePrintNat(n, 0xFFFF_FFFF);
      if IsIpv4Text(PrintNat(n)) {
        DottedIsNoNumber(PrintNat(n), 0xFFFF_FFFF);
      }
    case IpAddress(ip) =>
      PrintedIpv4Value(ip);
      DottedIsNoNumber(PrintIpv4(ip), 0xFFFF_FFFF);
  }

  lemma {:induction false} AreaListed(es: seq<FabricEntry>, i: nat)
    requires i < |es| && es[i].fabric.properties.OspfFabric?
    ensures AreaValue(es[i].fabric.properties.area) in Areas(es)
  {
    if i < |es| - 1 {
      AreaListed(es[..|es| - 1], i);
    }
  }

  lemma {:induction false} AreasDiffer(es: seq<FabricEntry>, i: nat, j: nat)
    requires NoDup(Areas(es)) && i < j < |es|
    requires es[i].fabric.properties.OspfFabric? && es[j].fabric.properties.OspfFabric?
    ensures AreaValue(es[i].fabric.properties.area) != AreaValue(es[j].fabric.properties.area)
  {
    var init, p := es[..|es| - 1], es[|es| - 1].fabric.properties;
    if p.OspfFabric? {
      NoDupAppend(Areas(init), AreaValue(p.area));
    } else {
      assert Areas(es) == Areas(init);
    }
    if j < |es| - 1 {
      AreasDiffer(init, i, j);
    } else {
      AreaListed(init, i);
    }
  }

  // ----- Entries -----

  /** What the entry of an OSPF link says: its area, and that it is point-to-point if it has
      neither a network type nor an address. */
  ghost predicate IsOspfLink(o: FrrOspfInterface, a: Area, l: OspfInterface) {
    Names(o.area, a) && o.passive.None? &&
    (l.networkType.Some? ==> o.networkType == l.networkType) &&
    (l.networkType.None? ==> (o.networkType == Some(PointToPoint) <==> l.ip.None?)) &&
    (l.networkType.None? && l.ip.Some? ==> o.networkType.None?)
  }

  /** What the entry of a fabric's OSPF dummy says: it is passive. */
  ghost predicate IsOspfDummy(o: FrrOspfInterface, a: Area) {
    Names(o.area, a) && o.passive == Some(true) && o.networkType.None?
  }

  /** The entry is in the fabric, and has a family exactly if the node has an address of it. */
  ghost predicate InFabric(o: FrrOpenfabricInterface, f: Fabric, n: Node) {
    o.fabricId == f.id && (o.isIpv4 <==> n.ip.Some?) && (o.isIpv6 <==> n.ip6.Some?)
  }

  /** What the entry of an OpenFabric link says: the intervals of the fabric and its own multiplier. */
  ghost predicate IsOpenfabricLink(o: FrrOpenfabricInterface, f: Fabric, n: Node, l: OpenfabricInterface)
    requires f.properties.OpenfabricFabric?
  {
    InFabric(o, f, n) && o.passive.None? && o.helloInterval == f.properties.helloInterval &&
    o.csnpInterval == f.properties.csnpInterval && o.helloMultiplier == l.helloMultiplier
  }

  ghost predicate IsOpenfabricDummy(o: FrrOpenfabricInterface, f: Fabric, n: Node) {
    InFabric(o, f, n) && o.passive == Some(true) && o.helloInterval.None? && o.csnpInterval.None? &&
    o.helloMultiplier.None?
  }

  // ----- Finding them in the compiled maps -----

  lemma {:induction false} OspfListed(es: seq<FabricEntry>, node: NodeId, i: nat, b: (string, FrrOspfInterface))
    requires i < |es| && b in OspfInterfaces(es[i], node)
    ensures b in AllOspfInterfaces(es, node)
  {
    if i > 0 {
      OspfListed(es[1..], node, i - 1, b);
    }
  }

  lemma {:induction false} OpenfabricListed(es: seq<FabricEntry>, node: NodeId, i: nat,
                                            b: (string, FrrOpenfabricInterface))
    requires i < |es| && b in OpenfabricInterfaces(es[i], node)
    ensures b in AllOpenfabricInterfaces(es, node)
  {
    if i > 0 {
      OpenfabricListed(es[1..], node, i - 1, b);
    }
  }

  lemma HeldBinding<V>(m: map<string, V>, bindings: seq<(string, V)>, b: (string, V))
    requires HoldsExactly(m, bindings) && b in bindings
    ensures b.0 in m && m[b.0] == b.1
  {
    var k :| 0 <= k < |bindings| && bindings[k] == b;
  }

  lemma OspfCompiled(es: seq<FabricEntry>, node: NodeId, i: nat, b: (string, FrrOspfInterface))
    requires Ordered(es) && ConfigOk(es) && NoDummyClash(es, node, Ospf)
    requires i < |es| && b in OspfInterfaces(es[i], node)
    ensures Build(EMPTY_STATE, es, node).Ok?
    ensures var m := Build(EMPTY_STATE, es, node).value.ospfInterfaces; b.0 in m && m[b.0] == b.1
  {
    InterfacesConserved(es, node);
    OspfListed(es, node, i, b);
    HeldBinding(Build(EMPTY_STATE, es, node).value.ospfInterfaces, AllOspfInterfaces(es, node), b);
  }

  lemma OpenfabricCompiled(es: seq<FabricEntry>, node: NodeId, i: nat, b: (string, FrrOpenfabricInterface))
    requires Ordered(es) && ConfigOk(es) && NoDummyClash(es, node, Openfabric)
    requires i < |es| && b in OpenfabricInterfaces(es[i], node)
    ensures Build(EMPTY_STATE, es, node).Ok?
    ensures var m := Build(EMPTY_STATE, es, node).value.openfabricInterfaces; b.0 in m && m[b.0] == b.1
  {
    InterfacesConserved(es, node);
    OpenfabricListed(es, node, i, b);
    HeldBinding(Build(EMPTY_STATE, es, node).value.openfabricInterfaces, AllOpenfabricInterfaces(es, node), b);
  }

  lemma OspfBinding(f: Fabric, n: Node, j: nat)
    requires f.properties.OspfFabric? && n.properties.OspfNode? && j < |n.properties.ospfInterfaces|
    ensures var b, l := OspfBindings(f, n)[j + 1], n.properties.ospfInterfaces[j];
            b.0 == l.name && IsOspfLink(b.1, f.properties.area, l)
  {
    PrintedAreaNames(f.properties.area);
  }

  /** Each link of an OSPF fabric that the node is in is compiled to an active interface in the
      fabric's area, with the network type that was configured. */
  lemma OspfLinks(es: seq<FabricEntry>, node: NodeId, i: nat, j: nat)
    requires Ordered(es) && ConfigOk(es) && NoDummyClash(es, node, Ospf)
    requires i < |es| && Joined(es[i], node, Ospf) && j < |es[i].nodes[node].properties.ospfInterfaces|
    ensures Build(EMPTY_STATE, es, node).Ok?
    ensures var m, l := Build(EMPTY_STATE, es, node).value.ospfInterfaces,
                        es[i].nodes[node].properties.ospfInterfaces[j];
            l.name in m && IsOspfLink(m[l.name], es[i].fabric.properties.area, l)
  {
    var b := OspfBindings(es[i].fabric, es[i].nodes[node])[j + 1];
    assert b in OspfInterfaces(es[i], node);
    OspfCompiled(es, node, i, b);
    OspfBinding(es[i].fabric, es[i].nodes[node], j);
  }

  /** The dummy of each OSPF fabric that the node is in is compiled to a passive interface in the
      fabric's area. */
  lemma OspfDummies(es: seq<FabricEntry>, node: NodeId, i: nat)
    requires Ordered(es) && ConfigOk(es) && NoDummyClash(es, node, Ospf)
    requires i < |es| && Joined(es[i], node, Ospf)
    ensures Build(EMPTY_STATE, es, node).Ok?
    ensures var m, name := Build(EMPTY_STATE, es, node).value.ospfInterfaces, "dummy_" + es[i].fabric.id;
            name in m && IsOspfDummy(m[name], es[i].fabric.properties.area)
  {
    var b := OspfBindings(es[i].fabric, es[i].nodes[node])[0];
    assert b in OspfInterfaces(es[i], node);
    OspfCompiled(es, node, i, b);
    PrintedAreaNames(es[i].fabric.properties.area);
  }

  /** The interfaces of two OSPF fabrics lie in different areas. */
  lemma AreasSeparate(es: seq<FabricEntry>, node: NodeId, i: nat, j: nat, x: string, y: string)
    requires Ordered(es) && ConfigOk(es) && NoDummyClash(es, node, Ospf)
    requires i < |es| && j < |es| && i != j && Joined(es[i], node, Ospf) && Joined(es[j], node, Ospf)
    requires x in InterfaceNames(es[i], node, Ospf) && y in InterfaceNames(es[j], node, Ospf)
    ensures Build(EMPTY_STATE, es, node).Ok?
    ensures var m := Build(EMPTY_STATE, es, node).value.ospfInterfaces;
            x in m && y in m && ReadArea(m[x].area).Some? && ReadArea(m[x].area) != ReadArea(m[y].area)
  {
    NamedInterface(es, node, i, x);
    NamedInterface(es, node, j, y);
    if i < j {
      AreasDiffer(es, i, j);
    } else {
      AreasDiffer(es, j, i);
    }
  }

  lemma NamedInterface(es: seq<FabricEntry>, node: NodeId, i: nat, x: string)
    requires Ordered(es) && ConfigOk(es) && NoDummyClash(es, node, Ospf)
    requires i < |es| && Joined(es[i], node, Ospf) && x in InterfaceNames(es[i], node, Ospf)
    ensures Build(EMPTY_STATE, es, node).Ok?
    ensures var m := Build(EMPTY_STATE, es, node).value.ospfInterfaces;
            x in m && Names(m[x].area, es[i].fabric.properties.area)
  {
    var links := LinkNames(es[i].nodes[node].properties);
    if x == DummyName(es[i].fabric.id) {
      OspfDummies(es, node, i);
    } else {
      var j :| 0 <= j < |links| && links[j] == x;
      OspfLinks(es, node, i, j);
    }
  }

  lemma OpenfabricBinding(f: Fabric, n: Node, j: nat)
    requires f.properties.OpenfabricFabric? && n.properties.OpenfabricNode?
    requires j < |n.properties.openfabricInterfaces|
    ensures var b, l := OpenfabricBindings(f, n)[j + 1], n.properties.openfabricInterfaces[j];
            b.0 == l.name && IsOpenfabricLink(b.1, f, n, l)
  {
  }

  /** Each link of an OpenFabric fabric that the node is in is compiled to an active interface of
      the fabric, with the timers that were configured. */
  lemma OpenfabricLinks(es: seq<FabricEntry>, node: NodeId, i: nat, j: nat)
    requires Ordered(es) && ConfigOk(es) && NoDummyClash(es, node, Openfabric)
    requires i < |es| && Joined(es[i], node, Openfabric) && j < |es[i].nodes[node].properties.openfabricInterfaces|
    ensures Build(EMPTY_STATE, es, node).Ok?
    ensures var m, l := Build(EMPTY_STATE, es, node).value.openfabricInterfaces,
                        es[i].nodes[node].properties.openfabricInterfaces[j];
            l.name in m && IsOpenfabricLink(m[l.name], es[i].fabric, es[i].nodes[node], l)
  {
    var b := OpenfabricBindings(es[i].fabric, es[i].nodes[node])[j + 1];
    assert b in OpenfabricInterfaces(es[i], node);
    OpenfabricCompiled(es, node, i, b);
    OpenfabricBinding(es[i].fabric, es[i].nodes[node], j);
  }

  /** The dummy of each OpenFabric fabric that the node is in is compiled to a passive interface
      of the fabric. */
  lemma OpenfabricDummies(es: seq<FabricEntry>, node: NodeId, i: nat)
    requires Ordered(es) && ConfigOk(es) && NoDummyClash(es, node, Openfabric)
    requires i < |es| && Joined(es[i], node, Openfabric)
    ensures Build(EMPTY_STATE, es, node).Ok?
    ensures var m, name := Build(EMPTY_STATE, es, node).value.openfabricInterfaces, "dummy_" + es[i].fabric.id;
            name in m && IsOpenfabricDummy(m[name], es[i].fabric, es[i].nodes[node])
  {
    var b := OpenfabricBindings(es[i].fabric, es[i].nodes[node])[0];
    assert b in OpenfabricInterfaces(es[i], node);
    OpenfabricCompiled(es, node, i, b);
  }

  // ----- The OSPF router -----

  lemma {:induction false} FirstRedistribution(c: Context, es: seq<FabricEntry>, node: NodeId)
    requires forall i :: 0 <= i < |es| ==> EntryWellFormed(es[i])
    requires c.frr.ospfRouter.None? && Run(c, es, node).Ok?
    ensures var r, i := Run(c, es, node).value.frr.ospfRouter, FirstJoined(es, node, Ospf);
            (r.Some? <==> i.Some?) &&
            (r.Some? ==> r.value.redistribute == es[i.value].fabric.properties.redistribute)
    decreases |es|
  {
    if es != [] {
      var c' := Step(c, es[0], node).value;
      if Joined(es[0], node, Ospf) {
        OspfRouterKept(c', es[1..], node);
      } else {
        if node in es[0].nodes {
          assert NodeProtocol(es[0].nodes[node]) == FabricProtocol(es[0].fabric);
        }
        FirstRedistribution(c', es[1..], node);
      }
    }
  }

  /** An OSPF router that existed stays as it was. Otherwise there is one exactly if the node is in
      an OSPF fabric, and it takes the node's address and the redistribution list from the first. */
  lemma OspfRouterCompiled(s: FrrState, es: seq<FabricEntry>, node: NodeId)
    requires Ordered(es) && ConfigOk(es)
    ensures Build(s, es, node).Ok?
    ensures var r, i := Build(s, es, node).value.ospfRouter, FirstJoined(es, node, Ospf);
            (s.ospfRouter.Some? ==> r == s.ospfRouter) &&
            (s.ospfRouter.None? ==>
               (r.Some? <==> i.Some?) &&
               (r.Some? ==> Some(r.value.routerId) == es[i.value].nodes[node].ip &&
                            r.value.redistribute == es[i.value].fabric.properties.redistribute))
  {
    FrrMeaning.BuildSucceeds(s, es, node);
    var start := Context(s, INITIAL_NUMBER, None, None);
    if s.ospfRouter.Some? {
      OspfRouterKept(start, es, node);
    } else {
      OspfRouterSet(start, es, node);
      FirstRedistribution(start, es, node);
    }
  }
}
