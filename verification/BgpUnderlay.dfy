/** AS numbers in the compiled configuration: what merging the BGP fabrics of a node into
    the default VRF's router leaves behind. */
module BgpUnderlay {
  import opened Wrappers
  import opened Addresses
  import opened Identifiers
  import opened Collections
  import opened FabricModel
  import opened FabricRules
  import opened BgpRouters
  import opened FrrModel
  import opened FrrCompiler
  import FrrMeaning
  import RouterId

  /** A fabric with the node's own section in it. */
  datatype Membership = Membership(fabric: Fabric, node: Node)

  predicate IsBgpMembership(m: Membership) {
    m.fabric.properties.BgpFabric? && m.node.properties.BgpInternal? && BgpRouterId(m.node).Some?
  }

  /** The BGP fabrics that the node is an internal member of, in order. */
  function Memberships(es: seq<FabricEntry>, node: NodeId): seq<Membership> {
    if es == [] then [] else EntryMembership(es[0], node) + Memberships(es[1..], node)
  }

  function EntryMembership(e: FabricEntry, node: NodeId): seq<Membership> {
    if node in e.nodes && e.fabric.properties.BgpFabric? && e.nodes[node].properties.BgpInternal?
    then [Membership(e.fabric, e.nodes[node])] else []
  }

  ghost predicate AllBgp(ms: seq<Membership>) {
    forall i :: 0 <= i < |ms| ==> IsBgpMembership(ms[i])
  }

  function AddOne(vrfs: map<VrfName, RouterData>, m: Membership): map<VrfName, RouterData>
    requires IsBgpMembership(m)
  {
    AddRouter(vrfs, FabricRouter(vrfs, m.fabric, m.node, BgpRouterId(m.node).value))
  }

  /** Adding the routers of several fabrics, one after the other. */
  ghost function AddAll(vrfs: map<VrfName, RouterData>, ms: seq<Membership>): map<VrfName, RouterData>
    requires AllBgp(ms)
    decreases |ms|
  {
    if ms == [] then vrfs else AddAll(AddOne(vrfs, ms[0]), ms[1..])
  }

  lemma StepRouters(c: Context, e: FabricEntry, node: NodeId)
    requires Step(c, e, node).Ok?
    ensures AllBgp(EntryMembership(e, node))
    ensures Step(c, e, node).value.frr.vrfRouters == AddAll(c.frr.vrfRouters, EntryMembership(e, node))
  {
    var ms := EntryMembership(e, node);
    if ms != [] {
      assert ms[1..] == [];
    }
  }

  lemma {:induction false} RunRouters(c: Context, es: seq<FabricEntry>, node: NodeId)
    requires Run(c, es, node).Ok?
    ensures AllBgp(Memberships(es, node))
    ensures Run(c, es, node).value.frr.vrfRouters == AddAll(c.frr.vrfRouters, Memberships(es, node))
    decreases |es|
  {
    if es != [] {
      var c' := Step(c, es[0], node).value;
      StepRouters(c, es[0], node);
      RunRouters(c', es[1..], node);
      var first, rest := EntryMembership(es[0], node), Memberships(es[1..], node);
      if first != [] {
        assert (first + rest)[0] == first[0] && (first + rest)[1..] == rest;
        assert first[1..] == [];
      } else {
        assert first + rest == rest;
      }
    }
  }

  /** The neighbor group of a fabric inside a router that runs under the given AS number. */
  function GroupIn(asn: U32, m: Membership): NeighborGroup
    requires IsBgpMembership(m)
  {
    var own := m.node.properties.asn;
    NeighborGroup(m.fabric.id, m.fabric.properties.bfd,
                  if own == asn then None else Some(LocalAsSettings(own, Some(ReplaceAs))), External, [],
                  m.node.properties.bgpInterfaces, None, None)
  }

  /** The groups after position `start` are those of the fabrics, in order. */
  ghost predicate GroupsFollow(r: RouterData, start: nat, ms: seq<Membership>)
    requires AllBgp(ms)
  {
    |r.neighborGroups| == start + |ms| &&
    forall i :: 0 <= i < |ms| ==> r.neighborGroups[start + i] == GroupIn(r.asn, ms[i])
  }

  /** Merging into an existing router keeps it. */
  lemma {:induction false} AddAllKeeps(vrfs: map<VrfName, RouterData>, ms: seq<Membership>)
    requires Default in vrfs && AllBgp(ms)
    ensures var after := AddAll(vrfs, ms);
            after.Keys == vrfs.Keys && (forall v :: v in vrfs && v != Default ==> after[v] == vrfs[v]) &&
            Keeps(vrfs[Default], after[Default])
    decreases |ms|
  {
    if ms != [] {
      var m := ms[0];
      var vrfs' := AddOne(vrfs, m);
      MergeKeeps(vrfs[Default], FabricRouter(vrfs, m.fabric, m.node, BgpRouterId(m.node).value));
      AddAllKeeps(vrfs', ms[1..]);
      KeepsTransitive(vrfs[Default], vrfs'[Default], AddAll(vrfs, ms)[Default]);
    }
  }

  /** Merging appends the fabrics' groups. */
  lemma {:induction false} AddAllGroups(vrfs: map<VrfName, RouterData>, ms: seq<Membership>)
    requires Default in vrfs && AllBgp(ms)
    ensures Default in AddAll(vrfs, ms)
    ensures GroupsFollow(AddAll(vrfs, ms)[Default], |vrfs[Default].neighborGroups|, ms)
    decreases |ms|
  {
    if ms != [] {
      var vrfs' := AddOne(vrfs, ms[0]);
      AddAllGroups(vrfs', ms[1..]);
      AddAllKeeps(vrfs', ms[1..]);
      FirstGroup(vrfs[Default], vrfs'[Default], AddAll(vrfs, ms)[Default], ms);
    }
  }

  lemma FirstGroup(before: RouterData, middle: RouterData, after: RouterData, ms: seq<Membership>)
    requires AllBgp(ms) && ms != [] && middle.asn == before.asn && Keeps(middle, after)
    requires middle.neighborGroups == before.neighborGroups + [GroupIn(before.asn, ms[0])]
    requires GroupsFollow(after, |middle.neighborGroups|, ms[1..])
    ensures GroupsFollow(after, |before.neighborGroups|, ms)
  {
    var start := |before.neighborGroups|;
    assert after.neighborGroups[start] == middle.neighborGroups[start];
    forall i | 0 <= i < |ms| ensures after.neighborGroups[start + i] == GroupIn(after.asn, ms[i]) {
      if i > 0 {
        assert ms[i] == ms[1..][i - 1];
        assert start + i == |middle.neighborGroups| + (i - 1);
      }
    }
  }

  /** Without a default-VRF router, the first fabric's router becomes it. */
  lemma AddAllInstalls(vrfs: map<VrfName, RouterData>, ms: seq<Membership>)
    requires Default !in vrfs && AllBgp(ms) && ms != []
    ensures var after := AddAll(vrfs, ms);
            after.Keys == vrfs.Keys + {Default} && (forall v :: v in vrfs ==> after[v] == vrfs[v]) &&
            after[Default].asn == ms[0].node.properties.asn && Some(after[Default].routerId) == BgpRouterId(ms[0].node)
  {
    AddAllKeeps(AddOne(vrfs, ms[0]), ms[1..]);
  }

  lemma InstalledGroups(vrfs: map<VrfName, RouterData>, ms: seq<Membership>)
    requires Default !in vrfs && AllBgp(ms) && ms != []
    ensures Default in AddAll(vrfs, ms) && GroupsFollow(AddAll(vrfs, ms)[Default], 0, ms)
  {
    var vrfs' := AddOne(vrfs, ms[0]);
    var router := vrfs'[Default];
    AddAllGroups(vrfs', ms[1..]);
    AddAllKeeps(vrfs', ms[1..]);
    assert router.neighborGroups == [] + [GroupIn(router.asn, ms[0])];
    FirstGroup(router.(neighborGroups := []), router, AddAll(vrfs, ms)[Default], ms);
  }

  /** Whatever AS number the router runs under, the one in effect is the node's own. */
  lemma OwnAsInEffect(r: RouterData, start: nat, ms: seq<Membership>, i: nat)
    requires AllBgp(ms) && GroupsFollow(r, start, ms) && i < |ms|
    ensures EffectiveAs(r, r.neighborGroups[start + i]) == ms[i].node.properties.asn
  {
    assert r.neighborGroups[start + i] == GroupIn(r.asn, ms[i]);
  }

  lemma CompiledRouters(s: FrrState, es: seq<FabricEntry>, node: NodeId)
    requires Ordered(es) && ConfigOk(es)
    ensures Build(s, es, node).Ok? && AllBgp(Memberships(es, node))
    ensures Build(s, es, node).value.vrfRouters == AddAll(s.vrfRouters, Memberships(es, node))
  {
    FrrMeaning.BuildSucceeds(s, es, node);
    RunRouters(Context(s, INITIAL_NUMBER, None, None), es, node);
  }

  /** A compilation leaves the routers of other VRFs alone and keeps a default-VRF router
      that existed, with new neighbor groups appended. */
  lemma PriorRoutersKept(s: FrrState, es: seq<FabricEntry>, node: NodeId)
    requires Ordered(es) && ConfigOk(es)
    ensures Build(s, es, node).Ok?
    ensures var before, after := s.vrfRouters, Build(s, es, node).value.vrfRouters;
            before.Keys <= after.Keys <= before.Keys + {Default} &&
            (forall v :: v in before && v != Default ==> after[v] == before[v]) &&
            (Default in before ==> Keeps(before[Default], after[Default]))
  {
    CompiledRouters(s, es, node);
    var before, ms := s.vrfRouters, Memberships(es, node);
    if Default in before {
      AddAllKeeps(before, ms);
    } else if ms != [] {
      AddAllInstalls(before, ms);
    }
  }

  /** The groups that a compilation adds to the default VRF's router are those of the node's
      BGP fabrics, in order. */
  lemma GroupsAdded(s: FrrState, es: seq<FabricEntry>, node: NodeId)
    requires Ordered(es) && ConfigOk(es) && AllBgp(Memberships(es, node)) && Memberships(es, node) != []
    ensures Build(s, es, node).Ok? && Default in Build(s, es, node).value.vrfRouters
    ensures GroupsFollow(Build(s, es, node).value.vrfRouters[Default], PriorGroups(s), Memberships(es, node))
  {
    CompiledRouters(s, es, node);
    if Default in s.vrfRouters {
      AddAllGroups(s.vrfRouters, Memberships(es, node));
    } else {
      InstalledGroups(s.vrfRouters, Memberships(es, node));
    }
  }

  function PriorGroups(s: FrrState): nat {
    if Default in s.vrfRouters then |s.vrfRouters[Default].neighborGroups| else 0
  }

  /** AS invariant of the whole compilation: whatever router the default VRF had, the group of
      the node's i-th BGP fabric names that fabric and its interfaces, has the fabric's BFD setting
      and external peers, and the AS number in effect for it is the node's own in that fabric. Where
      that is not the router's, it replaces the router's. */
  lemma AsNumbersInEffect(s: FrrState, es: seq<FabricEntry>, node: NodeId, i: nat)
    requires Ordered(es) && ConfigOk(es) && i < |Memberships(es, node)|
    ensures Build(s, es, node).Ok? && Default in Build(s, es, node).value.vrfRouters
    ensures var r, m := Build(s, es, node).value.vrfRouters[Default], Memberships(es, node)[i];
            |r.neighborGroups| == PriorGroups(s) + |Memberships(es, node)| && IsBgpMembership(m) &&
            var g := r.neighborGroups[PriorGroups(s) + i];
            g.name == m.fabric.id && g.interfaces == m.node.properties.bgpInterfaces &&
            g.bfd == m.fabric.properties.bfd && g.remoteAs == External && g.ips == [] &&
            g.ebgpMultihop.None? && g.updateSource.None? &&
            EffectiveAs(r, g) == m.node.properties.asn &&
            (g.localAs.Some? <==> r.asn != m.node.properties.asn) &&
            (g.localAs.Some? ==> g.localAs.value.mode == Some(ReplaceAs))
  {
    CompiledRouters(s, es, node);
    GroupsAdded(s, es, node);
    OwnAsInEffect(Build(s, es, node).value.vrfRouters[Default], PriorGroups(s), Memberships(es, node), i);
  }

  // ----- The router itself -----

  lemma FirstRouter(m: Membership)
    requires IsBgpMembership(m)
    ensures var n := m.node;
            (n.ip.Some? ==> BgpRouterId(n) == n.ip) &&
            (n.ip.None? ==> n.ip6.Some? &&
                            BgpRouterId(n) == Some(RouterId.Fnv(RouterId.FNV_OFFSET, Octets6(n.ip6.value))))
  {
  }

  /** Where the default VRF had no router, the one it gets is that of the node's first BGP fabric: it
      runs under the node's AS number, its router-id is the node's IPv4 address if there is one and
      otherwise the FNV-1a hash of the IPv6 address, and it speaks no IPv4 by default. */
  lemma RouterInstalled(s: FrrState, es: seq<FabricEntry>, node: NodeId)
    requires Ordered(es) && ConfigOk(es) && Default !in s.vrfRouters && Memberships(es, node) != []
    ensures Build(s, es, node).Ok? && Default in Build(s, es, node).value.vrfRouters
    ensures var r, n := Build(s, es, node).value.vrfRouters[Default], Memberships(es, node)[0].node;
            n.properties.BgpInternal? && r.asn == n.properties.asn &&
            (n.ip.Some? ==> r.routerId == n.ip.value) &&
            (n.ip.None? ==> n.ip6.Some? && r.routerId == RouterId.Fnv(RouterId.FNV_OFFSET, Octets6(n.ip6.value))) &&
            r.defaultIpv4Unicast == Some(false) && r.flags == RouterFlags(None, None, None, None, None) &&
            r.customFrrConfig == []
  {
    var vrfs, ms := s.vrfRouters, Memberships(es, node);
    CompiledRouters(s, es, node);
    FirstRouter(ms[0]);
    AddAllKeeps(AddOne(vrfs, ms[0]), ms[1..]);
  }

  // ----- Announced networks -----

  function Networks4(r: RouterData): seq<Ipv4Cidr> { Lists(r.addressFamilies.ipv4Unicast).networks }

  function Networks6(r: RouterData): seq<Ipv6Cidr> { Lists(r.addressFamilies.ipv6Unicast).networks }

  /** The node's own addresses in the fabrics, as blocks of one address. */
  function OwnBlock4(m: Membership): seq<Ipv4Cidr> {
    if m.node.ip.Some? then [Ipv4Cidr(m.node.ip.value, 32)] else []
  }

  function OwnBlock6(m: Membership): seq<Ipv6Cidr> {
    if m.node.ip6.Some? then [Ipv6Cidr(m.node.ip6.value, 128)] else []
  }

  function Own4(ms: seq<Membership>): seq<Ipv4Cidr> {
    if ms == [] then [] else OwnBlock4(ms[0]) + Own4(ms[1..])
  }

  function Own6(ms: seq<Membership>): seq<Ipv6Cidr> {
    if ms == [] then [] else OwnBlock6(ms[0]) + Own6(ms[1..])
  }

  function Prior4(vrfs: map<VrfName, RouterData>): seq<Ipv4Cidr> {
    if Default in vrfs then Networks4(vrfs[Default]) else []
  }

  function Prior6(vrfs: map<VrfName, RouterData>): seq<Ipv6Cidr> {
    if Default in vrfs then Networks6(vrfs[Default]) else []
  }

  lemma MergeAnnounces(a: RouterData, b: RouterData)
    ensures Networks4(Merge(a, b)) == Networks4(a) + Networks4(b)
    ensures Networks6(Merge(a, b)) == Networks6(a) + Networks6(b)
  {
  }

  lemma FabricRouterAnnounces(vrfs: map<VrfName, RouterData>, m: Membership)
    requires IsBgpMembership(m)
    ensures var r := FabricRouter(vrfs, m.fabric, m.node, BgpRouterId(m.node).value);
            Networks4(r) == Own4([m]) && Networks6(r) == Own6([m])
  {
    OneOwn(m);
  }

  lemma RouterAnnounces(vrfs: map<VrfName, RouterData>, m: Membership)
    requires IsBgpMembership(m)
    ensures var after := AddOne(vrfs, m);
            Default in after && Prior4(after) == Prior4(vrfs) + Own4([m]) && Prior6(after) == Prior6(vrfs) + Own6([m])
  {
    FabricRouterAnnounces(vrfs, m);
    if Default in vrfs {
      MergeAnnounces(vrfs[Default], FabricRouter(vrfs, m.fabric, m.node, BgpRouterId(m.node).value));
    }
  }

  lemma OneOwn(m: Membership)
    ensures Own4([m]) == OwnBlock4(m) && Own6([m]) == OwnBlock6(m)
  {
    assert [m][1..] == [];
  }

  lemma OwnHead(ms: seq<Membership>)
    requires ms != []
    ensures Own4(ms) == Own4([ms[0]]) + Own4(ms[1..]) && Own6(ms) == Own6([ms[0]]) + Own6(ms[1..])
  {
    OneOwn(ms[0]);
  }

  lemma {:induction false} AddAllAnnounces(vrfs: map<VrfName, RouterData>, ms: seq<Membership>)
    requires AllBgp(ms)
    ensures Prior4(AddAll(vrfs, ms)) == Prior4(vrfs) + Own4(ms)
    ensures Prior6(AddAll(vrfs, ms)) == Prior6(vrfs) + Own6(ms)
    decreases |ms|
  {
    if ms != [] {
      var vrfs' := AddOne(vrfs, ms[0]);
      RouterAnnounces(vrfs, ms[0]);
      AddAllAnnounces(vrfs', ms[1..]);
      assert AddAll(vrfs, ms) == AddAll(vrfs', ms[1..]);
      OwnHead(ms);
      ConcatAssociative(Prior4(vrfs), Own4([ms[0]]), Own4(ms[1..]));
      ConcatAssociative(Prior6(vrfs), Own6([ms[0]]), Own6(ms[1..]));
    }
  }

  /** The default VRF's router announces what it announced before and then exactly the node's
      own addresses in its BGP fabrics, in order. */
  lemma OwnAddressesAnnounced(s: FrrState, es: seq<FabricEntry>, node: NodeId)
    requires Ordered(es) && ConfigOk(es)
    ensures Build(s, es, node).Ok?
    ensures Prior4(Build(s, es, node).value.vrfRouters) == Prior4(s.vrfRouters) + Own4(Memberships(es, node))
    ensures Prior6(Build(s, es, node).value.vrfRouters) == Prior6(s.vrfRouters) + Own6(Memberships(es, node))
  {
    CompiledRouters(s, es, node);
    AddAllAnnounces(s.vrfRouters, Memberships(es, node));
  }

  // ----- Inbound filters of the neighbors -----

  function Neighbors(k: Kind, r: RouterData): seq<AddressFamilyNeighbor> {
    if k.Bgp6? then Lists(r.addressFamilies.ipv6Unicast).neighbors
    else Lists(r.addressFamilies.ipv4Unicast).neighbors
  }

  function PriorNeighbors(k: Kind, vrfs: map<VrfName, RouterData>): seq<AddressFamilyNeighbor> {
    if Default in vrfs then Neighbors(k, vrfs[Default]) else []
  }

  predicate Speaks(k: Kind, m: Membership) {
    if k.Bgp6? then m.node.ip6.Some? else m.node.ip.Some?
  }

  /** The fabric's neighbors, behind the fabric's inbound map. */
  function OwnNeighbors(k: Kind, ms: seq<Membership>): seq<AddressFamilyNeighbor>
    requires AllBgp(ms)
  {
    if ms == [] then []
    else
      var f := ms[0].fabric;
      (if Speaks(k, ms[0])
       then [AddressFamilyNeighbor(f.id, Some(true), Some(InboundName(k, f.id)), f.properties.routeMapOut)] else []) +
      OwnNeighbors(k, ms[1..])
  }

  /** A family that the node speaks has something to match on. */
  ghost predicate Filterable(m: Membership) {
    (m.node.ip.Some? ==> Matchers(Bgp4, m.fabric) != []) && (m.node.ip6.Some? ==> Matchers(Bgp6, m.fabric) != [])
  }

  lemma {:induction false} MembershipsFilterable(es: seq<FabricEntry>, node: NodeId)
    requires forall i :: 0 <= i < |es| ==> EntryOk(es[i])
    ensures forall i :: 0 <= i < |Memberships(es, node)| ==> Filterable(Memberships(es, node)[i])
  {
    if es != [] {
      MembershipsFilterable(es[1..], node);
      if node in es[0].nodes {
        assert NodeOk(es[0].fabric, es[0].nodes[node]);
      }
    }
  }

  lemma RouterNeighbors(k: Kind, vrfs: map<VrfName, RouterData>, m: Membership)
    requires IsBgp(k) && IsBgpMembership(m) && Filterable(m)
    ensures Default in AddOne(vrfs, m)
    ensures PriorNeighbors(k, AddOne(vrfs, m)) == PriorNeighbors(k, vrfs) + OwnNeighbors(k, [m])
  {
    assert [m][1..] == [];
  }

  lemma OwnNeighborsHead(k: Kind, ms: seq<Membership>)
    requires AllBgp(ms) && ms != []
    ensures OwnNeighbors(k, ms) == OwnNeighbors(k, [ms[0]]) + OwnNeighbors(k, ms[1..])
  {
    assert [ms[0]][1..] == [];
  }

  lemma {:induction false} AddAllNeighbors(k: Kind, vrfs: map<VrfName, RouterData>, ms: seq<Membership>)
    requires IsBgp(k) && AllBgp(ms) && forall i :: 0 <= i < |ms| ==> Filterable(ms[i])
    ensures PriorNeighbors(k, AddAll(vrfs, ms)) == PriorNeighbors(k, vrfs) + OwnNeighbors(k, ms)
    decreases |ms|
  {
    if ms != [] {
      var vrfs' := AddOne(vrfs, ms[0]);
      RouterNeighbors(k, vrfs, ms[0]);
      AddAllNeighbors(k, vrfs', ms[1..]);
      assert AddAll(vrfs, ms) == AddAll(vrfs', ms[1..]);
      OwnNeighborsHead(k, ms);
      ConcatAssociative(PriorNeighbors(k, vrfs), OwnNeighbors(k, [ms[0]]), OwnNeighbors(k, ms[1..]));
    }
  }

  /** In each family the prior neighbors stay in front, and each BGP fabric of the node that
      speaks the family adds its group behind the fabric's own inbound map: no fabric peer is
      left unfiltered. */
  lemma NeighborsFiltered(s: FrrState, es: seq<FabricEntry>, node: NodeId, k: Kind)
    requires Ordered(es) && ConfigOk(es) && IsBgp(k)
    ensures Build(s, es, node).Ok? && AllBgp(Memberships(es, node))
    ensures PriorNeighbors(k, Build(s, es, node).value.vrfRouters) ==
            PriorNeighbors(k, s.vrfRouters) + OwnNeighbors(k, Memberships(es, node))
  {
    CompiledRouters(s, es, node);
    MembershipsFilterable(es, node);
    AddAllNeighbors(k, s.vrfRouters, Memberships(es, node));
  }

  // ----- Redistribution -----

  function Redistributed(k: Kind, r: RouterData): seq<Redistribution> {
    if k.Bgp6? then Lists(r.addressFamilies.ipv6Unicast).redistribute
    else Lists(r.addressFamilies.ipv4Unicast).redistribute
  }

  function PriorRedistribution(k: Kind, vrfs: map<VrfName, RouterData>): seq<Redistribution> {
    if Default in vrfs then Redistributed(k, vrfs[Default]) else []
  }

  /** What the fabrics redistribute, fabric by fabric. */
  function OwnRedistribution(k: Kind, ms: seq<Membership>): seq<Redistribution>
    requires AllBgp(ms)
  {
    if ms == [] then []
    else (if Speaks(k, ms[0]) then ms[0].fabric.properties.redistribute else []) + OwnRedistribution(k, ms[1..])
  }

  lemma RouterRedistributes(k: Kind, vrfs: map<VrfName, RouterData>, m: Membership)
    requires IsBgp(k) && IsBgpMembership(m)
    ensures Default in AddOne(vrfs, m)
    ensures PriorRedistribution(k, AddOne(vrfs, m)) == PriorRedistribution(k, vrfs) + OwnRedistribution(k, [m])
  {
    assert [m][1..] == [];
    if Default in vrfs {
      MergeAppends(vrfs[Default], FabricRouter(vrfs, m.fabric, m.node, BgpRouterId(m.node).value));
    }
  }

  lemma OwnRedistributionHead(k: Kind, ms: seq<Membership>)
    requires AllBgp(ms) && ms != []
    ensures OwnRedistribution(k, ms) == OwnRedistribution(k, [ms[0]]) + OwnRedistribution(k, ms[1..])
  {
    assert [ms[0]][1..] == [];
  }

  lemma {:induction false} AddAllRedistributes(k: Kind, vrfs: map<VrfName, RouterData>, ms: seq<Membership>)
    requires IsBgp(k) && AllBgp(ms)
    ensures PriorRedistribution(k, AddAll(vrfs, ms)) == PriorRedistribution(k, vrfs) + OwnRedistribution(k, ms)
    decreases |ms|
  {
    if ms != [] {
      var vrfs' := AddOne(vrfs, ms[0]);
      RouterRedistributes(k, vrfs, ms[0]);
      AddAllRedistributes(k, vrfs', ms[1..]);
      assert AddAll(vrfs, ms) == AddAll(vrfs', ms[1..]);
      OwnRedistributionHead(k, ms);
      ConcatAssociative(PriorRedistribution(k, vrfs), OwnRedistribution(k, [ms[0]]), OwnRedistribution(k, ms[1..]));
    }
  }

  /** In each family the default VRF's router redistributes what it did before and then what the
      node's BGP fabrics that speak the family ask for, in order. */
  lemma RedistributionAdded(s: FrrState, es: seq<FabricEntry>, node: NodeId, k: Kind)
    requires Ordered(es) && ConfigOk(es) && IsBgp(k)
    ensures Build(s, es, node).Ok? && AllBgp(Memberships(es, node))
    ensures PriorRedistribution(k, Build(s, es, node).value.vrfRouters) ==
            PriorRedistribution(k, s.vrfRouters) + OwnRedistribution(k, Memberships(es, node))
  {
    CompiledRouters(s, es, node);
    AddAllRedistributes(k, s.vrfRouters, Memberships(es, node));
  }

  // ----- What the fabrics never add -----

  /** Imported VRFs and custom lines of both families, and the EVPN family. */
  datatype Untouched =
    Untouched(importVrf4: seq<string>, custom4: seq<string>, importVrf6: seq<string>, custom6: seq<string>,
              evpn: Option<EvpnFamily>)

  function UntouchedOf(vrfs: map<VrfName, RouterData>): Untouched {
    if Default !in vrfs then Untouched([], [], [], [], None)
    else
      var a := vrfs[Default].addressFamilies;
      Untouched(Lists(a.ipv4Unicast).importVrf, Lists(a.ipv4Unicast).customFrrConfig,
                Lists(a.ipv6Unicast).importVrf, Lists(a.ipv6Unicast).customFrrConfig, a.l2vpnEvpn)
  }

  lemma RouterUntouched(vrfs: map<VrfName, RouterData>, m: Membership)
    requires IsBgpMembership(m)
    ensures UntouchedOf(AddOne(vrfs, m)) == UntouchedOf(vrfs)
  {
    if Default in vrfs {
      MergeAppends(vrfs[Default], FabricRouter(vrfs, m.fabric, m.node, BgpRouterId(m.node).value));
    }
  }

  lemma {:induction false} AddAllUntouched(vrfs: map<VrfName, RouterData>, ms: seq<Membership>)
    requires AllBgp(ms)
    ensures UntouchedOf(AddAll(vrfs, ms)) == UntouchedOf(vrfs)
    decreases |ms|
  {
    if ms != [] {
      RouterUntouched(vrfs, ms[0]);
      AddAllUntouched(AddOne(vrfs, ms[0]), ms[1..]);
    }
  }

  /** Imported VRFs, custom lines and the EVPN family of the default VRF's router are as before. */
  lemma RestUntouched(s: FrrState, es: seq<FabricEntry>, node: NodeId)
    requires Ordered(es) && ConfigOk(es)
    ensures Build(s, es, node).Ok?
    ensures UntouchedOf(Build(s, es, node).value.vrfRouters) == UntouchedOf(s.vrfRouters)
  {
    CompiledRouters(s, es, node);
    AddAllUntouched(s.vrfRouters, Memberships(es, node));
  }
}
