/** Which interfaces the protocols of a compiled configuration share. */
module LinkSharing {
  import opened Wrappers
  import opened Identifiers
  import opened Collections
  import opened FabricModel
  import opened FabricRules
  import opened BgpRouters
  import opened FrrModel
  import opened FrrCompiler
  import opened FrrIdentity
  import opened BgpUnderlay
  import FrrMeaning

  predicate IsRouting(p: Protocol) { p != WireGuard }

  /** The configuration runs the protocol on the interface: it has an entry in the protocol's
      interface map, or is listed in a neighbor group. */
  ghost predicate Uses(frr: FrrState, p: Protocol, x: string) {
    match p
    case Openfabric => x in frr.openfabricInterfaces
    case Ospf => x in frr.ospfInterfaces
    case Bgp => Default in frr.vrfRouters &&
                exists g :: g in frr.vrfRouters[Default].neighborGroups && x in g.interfaces
    case WireGuard => false
  }

  ghost predicate HasLink(es: seq<FabricEntry>, node: NodeId, p: Protocol, i: int, x: string) {
    0 <= i < |es| && Joined(es[i], node, p) && x in LinkNames(es[i].nodes[node].properties)
  }

  /** BGP fabrics have no entry for their dummies. */
  ghost predicate HasDummy(es: seq<FabricEntry>, node: NodeId, p: Protocol, i: int, x: string) {
    0 <= i < |es| && Joined(es[i], node, p) && p != Bgp && x == DummyName(es[i].fabric.id)
  }

  ghost predicate IsConfigured(es: seq<FabricEntry>, node: NodeId, p: Protocol, x: string) {
    exists i :: HasLink(es, node, p, i, x) || HasDummy(es, node, p, i, x)
  }

  // ----- Where the interfaces of the compiled configuration come from -----

  lemma NameOrigin(es: seq<FabricEntry>, node: NodeId, p: Protocol, x: string)
    requires p == Openfabric || p == Ospf
    ensures x in Flatten(NameLists(es, node, p)) <==> IsConfigured(es, node, p, x)
  {
    var ss := NameLists(es, node, p);
    FlattenMember(ss, x);
    if i :| 0 <= i < |ss| && x in ss[i] {
      assert HasLink(es, node, p, i, x) || HasDummy(es, node, p, i, x);
    }
    if i :| HasLink(es, node, p, i, x) || HasDummy(es, node, p, i, x) {
      assert ss[i] == [DummyName(es[i].fabric.id)] + LinkNames(es[i].nodes[node].properties);
      assert x in ss[i];
    }
  }

  lemma MapOrigin(es: seq<FabricEntry>, node: NodeId, p: Protocol, x: string)
    requires Ordered(es) && ConfigOk(es) && (p == Openfabric || p == Ospf)
    ensures Build(EMPTY_STATE, es, node).Ok?
    ensures Uses(Build(EMPTY_STATE, es, node).value, p, x) <==> x in Flatten(NameLists(es, node, p))
  {
    FrrMeaning.BuildSucceeds(EMPTY_STATE, es, node);
    RunInterfaces(Context(EMPTY_STATE, INITIAL_NUMBER, None, None), es, node);
    NamesOfInterfaces(es, node);
    InsertAllFrame(map[], AllOpenfabricInterfaces(es, node));
    InsertAllFrame(map[], AllOspfInterfaces(es, node));
  }

  lemma {:induction false} MembershipOrigin(es: seq<FabricEntry>, node: NodeId, x: string)
    requires forall i :: 0 <= i < |es| ==> EntryWellFormed(es[i])
    ensures (exists m :: m in Memberships(es, node) && x in LinkNames(m.node.properties)) <==>
              exists i :: HasLink(es, node, Bgp, i, x)
  {
    if es != [] {
      var first, rest := EntryMembership(es[0], node), es[1..];
      MembershipOrigin(rest, node, x);
      assert Memberships(es, node) == first + Memberships(rest, node);
      if i :| HasLink(rest, node, Bgp, i, x) {
        assert HasLink(es, node, Bgp, i + 1, x);
      }
      if i :| HasLink(es, node, Bgp, i, x) {
        assert if i > 0 then HasLink(rest, node, Bgp, i - 1, x) else first[0] in first;
      }
      if m :| m in first && x in LinkNames(m.node.properties) {
        assert HasLink(es, node, Bgp, 0, x);
      }
    }
  }

  lemma GroupOrigin(es: seq<FabricEntry>, node: NodeId, x: string)
    requires Ordered(es) && ConfigOk(es)
    ensures Build(EMPTY_STATE, es, node).Ok?
    ensures Uses(Build(EMPTY_STATE, es, node).value, Bgp, x) <==>
            exists m :: m in Memberships(es, node) && x in LinkNames(m.node.properties)
  {
    var ms := Memberships(es, node);
    CompiledRouters(EMPTY_STATE, es, node);
    if ms != [] {
      GroupsAdded(EMPTY_STATE, es, node);
      GroupInterfaces(Build(EMPTY_STATE, es, node).value.vrfRouters[Default], ms, x);
    }
  }

  lemma GroupInterfaces(r: RouterData, ms: seq<Membership>, x: string)
    requires AllBgp(ms) && GroupsFollow(r, 0, ms)
    ensures (exists g :: g in r.neighborGroups && x in g.interfaces) <==>
              exists m :: m in ms && x in LinkNames(m.node.properties)
  {
    assert forall i :: 0 <= i < |ms| ==> r.neighborGroups[0 + i] == GroupIn(r.asn, ms[i]);
    if g :| g in r.neighborGroups && x in g.interfaces {
      var i :| 0 <= i < |ms| && r.neighborGroups[i] == g;
      assert r.neighborGroups[0 + i] == GroupIn(r.asn, ms[i]);
      assert ms[i] in ms && x in LinkNames(ms[i].node.properties);
    }
    if m :| m in ms && x in LinkNames(m.node.properties) {
      var i :| 0 <= i < |ms| && ms[i] == m;
      assert r.neighborGroups[0 + i] == GroupIn(r.asn, ms[i]);
      assert r.neighborGroups[i] in r.neighborGroups && x in r.neighborGroups[i].interfaces;
    }
  }

  /** A protocol runs on the links of the node's fabrics that speak it, and on their dummies. */
  lemma UsesOrigin(es: seq<FabricEntry>, node: NodeId, p: Protocol, x: string)
    requires Ordered(es) && ConfigOk(es) && IsRouting(p)
    ensures Build(EMPTY_STATE, es, node).Ok?
    ensures Uses(Build(EMPTY_STATE, es, node).value, p, x) <==> IsConfigured(es, node, p, x)
  {
    if p == Bgp {
      GroupOrigin(es, node, x);
      MembershipOrigin(es, node, x);
      assert forall i :: !HasDummy(es, node, Bgp, i, x);
    } else {
      MapOrigin(es, node, p, x);
      NameOrigin(es, node, p, x);
    }
  }

  // ----- Two protocols on one interface -----

  /** A link of protocol q has the name of a dummy of protocol p. */
  ghost predicate TakesDummy(es: seq<FabricEntry>, node: NodeId, p: Protocol, q: Protocol, x: string) {
    (exists i :: HasDummy(es, node, p, i, x)) && exists j :: HasLink(es, node, q, j, x)
  }

  lemma DummiesDiffer(es: seq<FabricEntry>, i: int, j: int)
    requires Ordered(es) && 0 <= i < |es| && 0 <= j < |es| && i != j
    ensures DummyName(es[i].fabric.id) != DummyName(es[j].fabric.id)
  {
    var f, g := es[i].fabric.id, es[j].fabric.id;
    assert if i < j then es[i].fabric.id != es[j].fabric.id else es[j].fabric.id != es[i].fabric.id;
    assert DummyName(f)[6..] == f && DummyName(g)[6..] == g;
  }

  /** Different protocols belong to different fabrics, which share neither links nor dummies. */
  lemma NothingElseShared(es: seq<FabricEntry>, node: NodeId, p: Protocol, i: int, q: Protocol, j: int, x: string)
    requires Ordered(es) && ConfigOk(es) && p != q
    ensures !(HasLink(es, node, p, i, x) && HasLink(es, node, q, j, x))
    ensures !(HasDummy(es, node, p, i, x) && HasDummy(es, node, q, j, x))
  {
    if HasLink(es, node, p, i, x) && 0 <= j < |es| && Joined(es[j], node, q) {
      LinksExclusive(es, node, i, j, x);
    }
    if HasDummy(es, node, p, i, x) && 0 <= j < |es| && Joined(es[j], node, q) {
      DummiesDiffer(es, i, j);
    }
  }

  lemma DummyAndLink(es: seq<FabricEntry>, node: NodeId, p: Protocol, i: int, q: Protocol, j: int, x: string)
    requires HasLink(es, node, p, i, x) || HasDummy(es, node, p, i, x)
    requires HasLink(es, node, q, j, x) || HasDummy(es, node, q, j, x)
    requires !(HasLink(es, node, p, i, x) && HasLink(es, node, q, j, x))
    requires !(HasDummy(es, node, p, i, x) && HasDummy(es, node, q, j, x))
    ensures TakesDummy(es, node, p, q, x) || TakesDummy(es, node, q, p, x)
  {
  }

  lemma TakenIsConfigured(es: seq<FabricEntry>, node: NodeId, p: Protocol, q: Protocol, x: string)
    requires TakesDummy(es, node, p, q, x)
    ensures IsConfigured(es, node, p, x) && IsConfigured(es, node, q, x)
  {
  }

  lemma ConfiguredTwice(es: seq<FabricEntry>, node: NodeId, p: Protocol, q: Protocol, x: string)
    requires Ordered(es) && ConfigOk(es) && p != q && IsConfigured(es, node, p, x) && IsConfigured(es, node, q, x)
    ensures TakesDummy(es, node, p, q, x) || TakesDummy(es, node, q, p, x)
  {
    var i :| HasLink(es, node, p, i, x) || HasDummy(es, node, p, i, x);
    var j :| HasLink(es, node, q, j, x) || HasDummy(es, node, q, j, x);
    NothingElseShared(es, node, p, i, q, j, x);
    DummyAndLink(es, node, p, i, q, j, x);
  }

  /** Two routing protocols of the compiled configuration run on the same interface exactly if a
      link of the one is named like a dummy of the other. */
  lemma SharedInterfaces(es: seq<FabricEntry>, node: NodeId, p: Protocol, q: Protocol, x: string)
    requires Ordered(es) && ConfigOk(es) && IsRouting(p) && IsRouting(q) && p != q
    ensures Build(EMPTY_STATE, es, node).Ok?
    ensures var frr := Build(EMPTY_STATE, es, node).value;
            Uses(frr, p, x) && Uses(frr, q, x) <==> TakesDummy(es, node, p, q, x) || TakesDummy(es, node, q, p, x)
  {
    UsesOrigin(es, node, p, x);
    UsesOrigin(es, node, q, x);
    if IsConfigured(es, node, p, x) && IsConfigured(es, node, q, x) {
      ConfiguredTwice(es, node, p, q, x);
    }
    if TakesDummy(es, node, p, q, x) {
      TakenIsConfigured(es, node, p, q, x);
    }
    if TakesDummy(es, node, q, p, x) {
      TakenIsConfigured(es, node, q, p, x);
    }
  }

  // ----- Two neighbor groups on one interface -----

  lemma {:induction false} MembershipsApart(es: seq<FabricEntry>, node: NodeId, a: nat, b: nat) returns (i: nat, j: nat)
    requires a < b < |Memberships(es, node)|
    ensures i < j < |es| && node in es[i].nodes && node in es[j].nodes
    ensures Memberships(es, node)[a].node == es[i].nodes[node] && Memberships(es, node)[b].node == es[j].nodes[node]
  {
    var first, rest := EntryMembership(es[0], node), es[1..];
    assert Memberships(es, node) == first + Memberships(rest, node);
    if a < |first| {
      var k := MembershipEntry(rest, node, b - |first|);
      i, j := 0, k + 1;
    } else {
      i, j := MembershipsApart(rest, node, a - |first|, b - |first|);
      i, j := i + 1, j + 1;
    }
  }

  lemma {:induction false} MembershipEntry(es: seq<FabricEntry>, node: NodeId, b: nat) returns (j: nat)
    requires b < |Memberships(es, node)|
    ensures j < |es| && node in es[j].nodes && Memberships(es, node)[b].node == es[j].nodes[node]
  {
    var first := EntryMembership(es[0], node);
    if b < |first| {
      j := 0;
    } else {
      j := MembershipEntry(es[1..], node, b - |first|);
      j := j + 1;
    }
  }

  lemma MembershipsShareNothing(es: seq<FabricEntry>, node: NodeId, a: nat, b: nat, x: string)
    requires ConfigOk(es) && a < b < |Memberships(es, node)|
    ensures var ms := Memberships(es, node);
            !(x in LinkNames(ms[a].node.properties) && x in LinkNames(ms[b].node.properties))
  {
    var i, j := MembershipsApart(es, node, a, b);
    LinksExclusive(es, node, i, j, x);
  }

  ghost predicate NothingShared(groups: seq<NeighborGroup>) {
    forall a, b, x :: 0 <= a < b < |groups| ==> !(x in groups[a].interfaces && x in groups[b].interfaces)
  }

  /** No interface is listed in two neighbor groups of the compiled configuration. */
  lemma GroupsShareNothing(es: seq<FabricEntry>, node: NodeId)
    requires Ordered(es) && ConfigOk(es)
    ensures Build(EMPTY_STATE, es, node).Ok?
    ensures var vrfs := Build(EMPTY_STATE, es, node).value.vrfRouters;
            Default in vrfs ==> NothingShared(vrfs[Default].neighborGroups)
  {
    var ms := Memberships(es, node);
    CompiledRouters(EMPTY_STATE, es, node);
    if ms != [] {
      GroupsAdded(EMPTY_STATE, es, node);
      var r := Build(EMPTY_STATE, es, node).value.vrfRouters[Default];
      forall a: nat, b: nat, x | a < b < |r.neighborGroups|
        ensures !(x in r.neighborGroups[a].interfaces && x in r.neighborGroups[b].interfaces)
      {
        GroupOfMembership(r, ms, a);
        GroupOfMembership(r, ms, b);
        MembershipsShareNothing(es, node, a, b, x);
      }
    }
  }

  lemma GroupOfMembership(r: RouterData, ms: seq<Membership>, a: nat)
    requires AllBgp(ms) && GroupsFollow(r, 0, ms) && a < |ms|
    ensures |r.neighborGroups| == |ms| && r.neighborGroups[a].interfaces == LinkNames(ms[a].node.properties)
  {
    assert r.neighborGroups[0 + a] == GroupIn(r.asn, ms[a]);
  }
}
