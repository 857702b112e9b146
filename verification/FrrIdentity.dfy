/** What identifies a node and its links in the compiled configuration: OSPF router-ids, and the
    interface maps of OpenFabric and OSPF. */
module FrrIdentity {
  import opened Wrappers
  import opened Addresses
  import opened Identifiers
  import opened Collections
  import opened FabricModel
  import opened FabricRules
  import opened FrrModel
  import opened FrrCompiler
  import FrrMeaning
  import FabricValidation

  ghost predicate Joined(e: FabricEntry, node: NodeId, p: Protocol) {
    node in e.nodes && FabricProtocol(e.fabric) == p && NodeProtocol(e.nodes[node]) == p
  }

  /** The first fabric of a protocol that a node is in, counting from i. */
  ghost function FirstJoined(es: seq<FabricEntry>, node: NodeId, p: Protocol): (i: Option<nat>)
    ensures i.Some? ==> i.value < |es| && Joined(es[i.value], node, p)
    ensures i.None? ==> forall j :: 0 <= j < |es| ==> !Joined(es[j], node, p)
  {
    if es == [] then None
    else if Joined(es[0], node, p) then Some(0)
    else match FirstJoined(es[1..], node, p)
      case None =>
        assert forall j :: 1 <= j < |es| ==> es[1..][j - 1] == es[j];
        None
      case Some(i) => Some(i + 1)
  }

  // ----- OSPF router-ids -----

  /** The router-id comes from the node's address in the first OSPF fabric it is in. */
  ghost function OspfAddress(es: seq<FabricEntry>, node: NodeId): Option<Ipv4Addr> {
    match FirstJoined(es, node, Ospf)
    case None => None
    case Some(i) => es[i].nodes[node].ip
  }

  lemma {:induction false} OspfRouterKept(c: Context, es: seq<FabricEntry>, node: NodeId)
    requires c.frr.ospfRouter.Some? && Run(c, es, node).Ok?
    ensures Run(c, es, node).value.frr.ospfRouter == c.frr.ospfRouter
    decreases |es|
  {
    if es != [] {
      OspfRouterKept(Step(c, es[0], node).value, es[1..], node);
    }
  }

  lemma {:induction false} OspfRouterSet(c: Context, es: seq<FabricEntry>, node: NodeId)
    requires forall i :: 0 <= i < |es| ==> EntryWellFormed(es[i])
    requires c.frr.ospfRouter.None? && c.routerId.None? && Run(c, es, node).Ok?
    ensures var r := Run(c, es, node).value.frr.ospfRouter;
            (r.Some? <==> FirstJoined(es, node, Ospf).Some?) &&
            (r.Some? ==> Some(r.value.routerId) == OspfAddress(es, node))
    decreases |es|
  {
    if es != [] {
      var c' := Step(c, es[0], node).value;
      if Joined(es[0], node, Ospf) {
        OspfRouterKept(c', es[1..], node);
      } else {
        if node in es[0].nodes {
          assert NodeProtocol(es[0].nodes[node]) == FabricProtocol(es[0].fabric);
        }
        OspfRouterSet(c', es[1..], node);
      }
    }
  }

  /** Addresses of different nodes differ, within a fabric and across fabrics. */
  lemma AddressesDiffer(es: seq<FabricEntry>, i: nat, n: NodeId, j: nat, m: NodeId)
    requires Ordered(es) && ConfigOk(es) && i < |es| && j < |es|
    requires n in es[i].nodes && m in es[j].nodes && (i != j || n != m)
    requires es[i].nodes[n].ip.Some? && es[j].nodes[m].ip.Some?
    ensures es[i].nodes[n].ip != es[j].nodes[m].ip
  {
    assert EntryOk(es[i]) && EntryOk(es[j]);
    if i == j {
      assert Unique(Address4, es[i]);
      assert KeyOf(Address4, es[i].nodes[n]) != KeyOf(Address4, es[i].nodes[m]);
    } else {
      var f, g := es[i].fabric, es[j].fabric;
      assert NodeOk(f, es[i].nodes[n]) && NodeOk(g, es[j].nodes[m]);
      assert i < j ==> Apart4(f, g);
      assert j < i ==> Apart4(g, f);
      OverlapIsSharedAddress4(f.ipPrefix.value, g.ipPrefix.value);
      OverlapIsSharedAddress4(g.ipPrefix.value, f.ipPrefix.value);
    }
  }

  /** Section C.1 of RFC 2328: two nodes never run OSPF with the same router-id, even if
      each takes it from a different fabric. */
  lemma OspfRouterIdsDiffer(es: seq<FabricEntry>, a: NodeId, b: NodeId)
    requires Ordered(es) && ConfigOk(es) && a != b
    ensures Build(EMPTY_STATE, es, a).Ok? && Build(EMPTY_STATE, es, b).Ok?
    ensures var r, s := Build(EMPTY_STATE, es, a).value.ospfRouter, Build(EMPTY_STATE, es, b).value.ospfRouter;
            r.Some? && s.Some? ==> r.value.routerId != s.value.routerId
  {
    FrrMeaning.BuildSucceeds(EMPTY_STATE, es, a);
    FrrMeaning.BuildSucceeds(EMPTY_STATE, es, b);
    var start := Context(EMPTY_STATE, INITIAL_NUMBER, None, None);
    OspfRouterSet(start, es, a);
    OspfRouterSet(start, es, b);
    var i, j := FirstJoined(es, a, Ospf), FirstJoined(es, b, Ospf);
    if i.Some? && j.Some? {
      assert EntryOk(es[i.value]) && EntryOk(es[j.value]);
      assert NodeOk(es[i.value].fabric, es[i.value].nodes[a]) && NodeOk(es[j.value].fabric, es[j.value].nodes[b]);
      AddressesDiffer(es, i.value, a, j.value, b);
    }
  }

  // ----- Interfaces -----

  /** The interface names that a node configures for a protocol: one dummy for each fabric
      it has joined, and the links of the fabric. */
  function InterfaceNames(e: FabricEntry, node: NodeId, p: Protocol): seq<string> {
    if node in e.nodes && FabricProtocol(e.fabric) == p && NodeProtocol(e.nodes[node]) == p
    then [DummyName(e.fabric.id)] + LinkNames(e.nodes[node].properties)
    else []
  }

  function NameLists(es: seq<FabricEntry>, node: NodeId, p: Protocol): (ss: seq<seq<string>>)
    ensures |ss| == |es| && forall i :: 0 <= i < |es| ==> ss[i] == InterfaceNames(es[i], node, p)
  {
    seq(|es|, i requires 0 <= i < |es| => InterfaceNames(es[i], node, p))
  }

  function OpenfabricInterfaces(e: FabricEntry, node: NodeId): seq<(string, FrrOpenfabricInterface)> {
    if node in e.nodes && e.fabric.properties.OpenfabricFabric? && e.nodes[node].properties.OpenfabricNode?
    then OpenfabricBindings(e.fabric, e.nodes[node]) else []
  }

  function AllOpenfabricInterfaces(es: seq<FabricEntry>, node: NodeId): seq<(string, FrrOpenfabricInterface)> {
    if es == [] then [] else OpenfabricInterfaces(es[0], node) + AllOpenfabricInterfaces(es[1..], node)
  }

  function OspfInterfaces(e: FabricEntry, node: NodeId): seq<(string, FrrOspfInterface)> {
    if node in e.nodes && e.fabric.properties.OspfFabric? && e.nodes[node].properties.OspfNode?
    then OspfBindings(e.fabric, e.nodes[node]) else []
  }

  function AllOspfInterfaces(es: seq<FabricEntry>, node: NodeId): seq<(string, FrrOspfInterface)> {
    if es == [] then [] else OspfInterfaces(es[0], node) + AllOspfInterfaces(es[1..], node)
  }

  lemma StepOpenfabricInterfaces(c: Context, e: FabricEntry, node: NodeId)
    requires Step(c, e, node).Ok?
    ensures var s := Step(c, e, node).value.frr;
            s.openfabricInterfaces == InsertAll(c.frr.openfabricInterfaces, OpenfabricInterfaces(e, node))
  {
  }

  lemma StepOspfInterfaces(c: Context, e: FabricEntry, node: NodeId)
    requires Step(c, e, node).Ok?
    ensures Step(c, e, node).value.frr.ospfInterfaces == InsertAll(c.frr.ospfInterfaces, OspfInterfaces(e, node))
  {
  }

  lemma {:induction false} RunInterfaces(c: Context, es: seq<FabricEntry>, node: NodeId)
    requires Run(c, es, node).Ok?
    ensures Run(c, es, node).value.frr.openfabricInterfaces ==
              InsertAll(c.frr.openfabricInterfaces, AllOpenfabricInterfaces(es, node))
    ensures Run(c, es, node).value.frr.ospfInterfaces == InsertAll(c.frr.ospfInterfaces, AllOspfInterfaces(es, node))
    decreases |es|
  {
    if es != [] {
      StepOpenfabricInterfaces(c, es[0], node);
      StepOspfInterfaces(c, es[0], node);
      RunInterfaces(Step(c, es[0], node).value, es[1..], node);
      InsertAllConcat(c.frr.openfabricInterfaces, OpenfabricInterfaces(es[0], node),
                      AllOpenfabricInterfaces(es[1..], node));
      InsertAllConcat(c.frr.ospfInterfaces, OspfInterfaces(es[0], node), AllOspfInterfaces(es[1..], node));
    }
  }

  lemma EntryInterfaceNames(e: FabricEntry, node: NodeId)
    requires EntryWellFormed(e) && EntryFormatted(e)
    ensures Firsts(OpenfabricInterfaces(e, node)) == InterfaceNames(e, node, Openfabric)
    ensures Firsts(OspfInterfaces(e, node)) == InterfaceNames(e, node, Ospf)
  {
    if node in e.nodes {
      FrrMeaning.BindingsFit(e, node);
      assert NodeProtocol(e.nodes[node]) == FabricProtocol(e.fabric);
    }
  }

  lemma {:induction false} NamesOfInterfaces(es: seq<FabricEntry>, node: NodeId)
    requires forall i :: 0 <= i < |es| ==> EntryWellFormed(es[i]) && EntryFormatted(es[i])
    ensures Firsts(AllOpenfabricInterfaces(es, node)) == Flatten(NameLists(es, node, Openfabric))
    ensures Firsts(AllOspfInterfaces(es, node)) == Flatten(NameLists(es, node, Ospf))
  {
    if es != [] {
      EntryInterfaceNames(es[0], node);
      NamesOfInterfaces(es[1..], node);
      FirstsConcat(OpenfabricInterfaces(es[0], node), AllOpenfabricInterfaces(es[1..], node));
      FirstsConcat(OspfInterfaces(es[0], node), AllOspfInterfaces(es[1..], node));
      assert NameLists(es, node, Openfabric)[1..] == NameLists(es[1..], node, Openfabric);
      assert NameLists(es, node, Ospf)[1..] == NameLists(es[1..], node, Ospf);
    }
  }

  /** No link of the node in a fabric of the protocol is named like one of the dummies. */
  ghost predicate NoDummyClash(es: seq<FabricEntry>, node: NodeId, p: Protocol) {
    forall i, j :: 0 <= i < |es| && 0 <= j < |es| && Joined(es[i], node, p) && Joined(es[j], node, p) ==>
                     DummyName(es[i].fabric.id) !in LinkNames(es[j].nodes[node].properties)
  }

  function ClaimLists(es: seq<FabricEntry>, n: NodeId): (ss: seq<seq<Claim>>)
    ensures |ss| == |es| && forall i :: 0 <= i < |es| ==> ss[i] == Claims(es[i], n)
  {
    seq(|es|, i requires 0 <= i < |es| => Claims(es[i], n))
  }

  lemma ClaimListsLast(es: seq<FabricEntry>, n: NodeId)
    requires es != []
    ensures ClaimLists(es, n) == ClaimLists(es[..|es| - 1], n) + [Claims(es[|es| - 1], n)]
  {
  }

  lemma {:induction false} ClaimsFlatten(es: seq<FabricEntry>, n: NodeId)
    ensures AllClaims(es, n) == Flatten(ClaimLists(es, n))
  {
    if es != [] {
      ClaimsFlatten(es[..|es| - 1], n);
      ClaimListsLast(es, n);
      FlattenLast(ClaimLists(es[..|es| - 1], n), Claims(es[|es| - 1], n));
    }
  }

  /** The claims of one fabric have no duplicate, and two fabrics claim nothing in common. */
  lemma ClaimsSeparate(es: seq<FabricEntry>, n: NodeId, i: nat, j: nat, c: Claim)
    requires NoDup(AllClaims(es, n)) && i < |es| && j < |es|
    ensures NoDup(Claims(es[i], n))
    ensures i != j ==> !(c in Claims(es[i], n) && c in Claims(es[j], n))
  {
    ClaimsFlatten(es, n);
    var ss := ClaimLists(es, n);
    FlattenNoDup(ss);
    assert NoDup(ss[i]);
    assert i < j ==> c in ss[i] ==> c !in ss[j];
    assert j < i ==> c in ss[j] ==> c !in ss[i];
  }

  /** No link is used by two fabrics, whatever their protocols. */
  lemma LinksExclusive(es: seq<FabricEntry>, node: NodeId, i: nat, j: nat, x: string)
    requires ConfigOk(es) && i < |es| && j < |es| && i != j && node in es[i].nodes && node in es[j].nodes
    ensures !(x in LinkNames(es[i].nodes[node].properties) && x in LinkNames(es[j].nodes[node].properties))
  {
    FabricValidation.LinksNoDup(LinkNames(es[i].nodes[node].properties));
    FabricValidation.LinksNoDup(LinkNames(es[j].nodes[node].properties));
    ClaimsSeparate(es, node, i, j, Link(x));
  }

  lemma InterfaceNamesDistinct(es: seq<FabricEntry>, node: NodeId, p: Protocol)
    requires Ordered(es) && NoDup(AllClaims(es, node)) && NoDummyClash(es, node, p)
    requires p == Openfabric || p == Ospf
    ensures NoDup(Flatten(NameLists(es, node, p)))
  {
    var ss := NameLists(es, node, p);
    FlattenNoDup(ss);
    forall i | 0 <= i < |es| ensures NoDup(ss[i]) {
      NamesOfOneFabric(es, node, p, i);
    }
    forall i, j | 0 <= i < j < |es| ensures forall x :: x in ss[i] ==> x !in ss[j] {
      NamesOfTwoFabrics(es, node, p, i, j);
    }
  }

  lemma NamesOfOneFabric(es: seq<FabricEntry>, node: NodeId, p: Protocol, i: nat)
    requires NoDup(AllClaims(es, node)) && NoDummyClash(es, node, p) && (p == Openfabric || p == Ospf) && i < |es|
    ensures NoDup(InterfaceNames(es[i], node, p))
  {
    ClaimsSeparate(es, node, i, i, Link(""));
    if Joined(es[i], node, p) {
      OneFabricNames(es[i], node, p);
    }
  }

  lemma NamesOfTwoFabrics(es: seq<FabricEntry>, node: NodeId, p: Protocol, i: nat, j: nat)
    requires Ordered(es) && NoDup(AllClaims(es, node)) && NoDummyClash(es, node, p)
    requires (p == Openfabric || p == Ospf) && i < j < |es|
    ensures forall x :: x in InterfaceNames(es[i], node, p) ==> x !in InterfaceNames(es[j], node, p)
  {
    if Joined(es[i], node, p) && Joined(es[j], node, p) {
      forall x | x in InterfaceNames(es[i], node, p) ensures x !in InterfaceNames(es[j], node, p) {
        NameOfOneFabricOnly(es, node, p, i, j, x);
      }
    }
  }

  lemma OneFabricNames(e: FabricEntry, node: NodeId, p: Protocol)
    requires Joined(e, node, p) && (p == Openfabric || p == Ospf) && NoDup(Claims(e, node))
    ensures NoDup(InterfaceNames(e, node, p)) <==> DummyName(e.fabric.id) !in LinkNames(e.nodes[node].properties)
  {
    var links := LinkNames(e.nodes[node].properties);
    FabricValidation.LinksNoDup(links);
    NoDupConcat([DummyName(e.fabric.id)], links);
    assert DummyName(e.fabric.id) in [DummyName(e.fabric.id)];
  }

  lemma NameOfOneFabricOnly(es: seq<FabricEntry>, node: NodeId, p: Protocol, i: nat, j: nat, x: string)
    requires Ordered(es) && NoDup(AllClaims(es, node)) && NoDummyClash(es, node, p) && (p == Openfabric || p == Ospf)
    requires i < j < |es| && Joined(es[i], node, p) && Joined(es[j], node, p)
    requires x == DummyName(es[i].fabric.id) || x in LinkNames(es[i].nodes[node].properties)
    ensures x != DummyName(es[j].fabric.id) && x !in LinkNames(es[j].nodes[node].properties)
  {
    var f, g := es[i].fabric.id, es[j].fabric.id;
    assert DummyName(f)[6..] == f && DummyName(g)[6..] == g;
    FabricValidation.LinksNoDup(LinkNames(es[i].nodes[node].properties));
    FabricValidation.LinksNoDup(LinkNames(es[j].nodes[node].properties));
    ClaimsSeparate(es, node, i, j, Link(x));
  }

  /** A link named like a dummy of the same protocol makes the list of names repeat. */
  lemma ClashingNamesRepeat(es: seq<FabricEntry>, node: NodeId, p: Protocol, i: nat, j: nat)
    requires NoDup(AllClaims(es, node)) && (p == Openfabric || p == Ospf)
    requires i < |es| && j < |es| && Joined(es[i], node, p) && Joined(es[j], node, p)
    requires DummyName(es[i].fabric.id) in LinkNames(es[j].nodes[node].properties)
    ensures !NoDup(Flatten(NameLists(es, node, p)))
  {
    var ss, x := NameLists(es, node, p), DummyName(es[i].fabric.id);
    FlattenNoDup(ss);
    if i == j {
      ClaimsSeparate(es, node, i, i, Link(""));
      OneFabricNames(es[i], node, p);
      assert !NoDup(ss[i]);
    } else {
      assert ss[i][0] == x;
      assert x in ss[i] && x in ss[j];
    }
  }

  /** Conservation of interfaces: an interface map of the compiled configuration has one entry for
      each interface that the node configures for the protocol and one for the dummy of each fabric
      it joins, exactly if no interface of the protocol is named like one of its dummies. */
  lemma InterfacesConserved(es: seq<FabricEntry>, node: NodeId)
    requires Ordered(es) && ConfigOk(es)
    ensures Build(EMPTY_STATE, es, node).Ok?
    ensures HoldsExactly(Build(EMPTY_STATE, es, node).value.openfabricInterfaces,
                         AllOpenfabricInterfaces(es, node)) <==>
            NoDummyClash(es, node, Openfabric)
    ensures HoldsExactly(Build(EMPTY_STATE, es, node).value.ospfInterfaces, AllOspfInterfaces(es, node)) <==>
            NoDummyClash(es, node, Ospf)
  {
    FrrMeaning.BuildSucceeds(EMPTY_STATE, es, node);
    RunInterfaces(Context(EMPTY_STATE, INITIAL_NUMBER, None, None), es, node);
    NamesOfInterfaces(es, node);
    ConservedExactly(es, node, Openfabric, AllOpenfabricInterfaces(es, node));
    ConservedExactly(es, node, Ospf, AllOspfInterfaces(es, node));
  }

  lemma ConservedExactly<V>(es: seq<FabricEntry>, node: NodeId, p: Protocol, bindings: seq<(string, V)>)
    requires Ordered(es) && NoDup(AllClaims(es, node)) && (p == Openfabric || p == Ospf)
    requires Firsts(bindings) == Flatten(NameLists(es, node, p))
    ensures HoldsExactly(InsertAll(map[], bindings), bindings) <==> NoDummyClash(es, node, p)
  {
    if NoDummyClash(es, node, p) {
      InsertedExactly(es, node, p, bindings);
    } else {
      InsertedTwice(es, node, p, bindings);
    }
  }

  lemma InsertedExactly<V>(es: seq<FabricEntry>, node: NodeId, p: Protocol, bindings: seq<(string, V)>)
    requires Ordered(es) && NoDup(AllClaims(es, node)) && (p == Openfabric || p == Ospf)
    requires Firsts(bindings) == Flatten(NameLists(es, node, p)) && NoDummyClash(es, node, p)
    ensures HoldsExactly(InsertAll(map[], bindings), bindings)
  {
    InterfaceNamesDistinct(es, node, p);
    InsertAllDistinct(map[], bindings);
  }

  /** An interface that is named like a dummy of its protocol makes the map lose an entry. */
  lemma OpenfabricInterfaceLost(es: seq<FabricEntry>, node: NodeId)
    requires Ordered(es) && ConfigOk(es) && !NoDummyClash(es, node, Openfabric)
    ensures Build(EMPTY_STATE, es, node).Ok?
    ensures |Build(EMPTY_STATE, es, node).value.openfabricInterfaces| < |AllOpenfabricInterfaces(es, node)|
  {
    FrrMeaning.BuildSucceeds(EMPTY_STATE, es, node);
    RunInterfaces(Context(EMPTY_STATE, INITIAL_NUMBER, None, None), es, node);
    NamesOfInterfaces(es, node);
    InsertedTwice(es, node, Openfabric, AllOpenfabricInterfaces(es, node));
  }

  lemma OspfInterfaceLost(es: seq<FabricEntry>, node: NodeId)
    requires Ordered(es) && ConfigOk(es) && !NoDummyClash(es, node, Ospf)
    ensures Build(EMPTY_STATE, es, node).Ok?
    ensures |Build(EMPTY_STATE, es, node).value.ospfInterfaces| < |AllOspfInterfaces(es, node)|
  {
    FrrMeaning.BuildSucceeds(EMPTY_STATE, es, node);
    RunInterfaces(Context(EMPTY_STATE, INITIAL_NUMBER, None, None), es, node);
    NamesOfInterfaces(es, node);
    InsertedTwice(es, node, Ospf, AllOspfInterfaces(es, node));
  }

  lemma InsertedTwice<V>(es: seq<FabricEntry>, node: NodeId, p: Protocol, bindings: seq<(string, V)>)
    requires NoDup(AllClaims(es, node)) && (p == Openfabric || p == Ospf)
    requires Firsts(bindings) == Flatten(NameLists(es, node, p)) && !NoDummyClash(es, node, p)
    ensures |InsertAll(map[], bindings)| < |bindings|
  {
    var i, j :| 0 <= i < |es| && 0 <= j < |es| && Joined(es[i], node, p) && Joined(es[j], node, p) &&
                DummyName(es[i].fabric.id) in LinkNames(es[j].nodes[node].properties);
    ClashingNamesRepeat(es, node, p, i, j);
    InsertAllSize(map[], bindings);
  }
}
