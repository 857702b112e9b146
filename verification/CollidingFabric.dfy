/** A fabric that is rejected for nothing but the router-ids of its nodes: its prefix is one bit
    shorter than what rules collisions out. */
module CollidingFabric {
  import opened Wrappers
  import opened Addresses
  import opened Identifiers
  import opened FabricModel
  import opened FabricRules
  import FabricValidation
  import RouterId
  import RouterIdExample

  function Member(id: NodeId, a: Ipv6Addr): Node {
    Node(NodeSectionId("f", id), None, Some(a), BgpInternal(65000, []))
  }

  /** A BGP fabric with an IPv6 prefix and two internal nodes. */
  function TwoNodes(c: Ipv6Cidr, a: Ipv6Addr, b: Ipv6Addr): FabricEntry {
    FabricEntry(Fabric("f", None, Some(c), BgpFabric(false, [], None, None, None)),
                map["a" := Member("a", a), "b" := Member("b", b)])
  }

  lemma TwoNodesOk(c: Ipv6Cidr, a: Ipv6Addr, b: Ipv6Addr)
    requires a != b && Contains6(c, a) && Contains6(c, b)
    ensures NodesOk(TwoNodes(c, a, b)) && FabricSectionOk(TwoNodes(c, a, b).fabric)
  {
    var e := TwoNodes(c, a, b);
    forall n | n in e.nodes ensures NodeOk(e.fabric, e.nodes[n]) {
      assert n == "a" || n == "b";
    }
    forall n, m | n in e.nodes && m in e.nodes && n != m
      ensures KeyOf(Address6, e.nodes[n]) != KeyOf(Address6, e.nodes[m]) && KeyOf(Address4, e.nodes[n]).None?
    {
      assert n == "a" || n == "b";
      assert m == "a" || m == "b";
    }
  }

  lemma HashesOf(c: Ipv6Cidr, a: Ipv6Addr, b: Ipv6Addr, h: Ipv4Addr)
    requires RouterId.Fnv(RouterId.FNV_OFFSET, Octets6(a)) == h && RouterId.Fnv(RouterId.FNV_OFFSET, Octets6(b)) == h
    ensures forall n :: n in TwoNodes(c, a, b).nodes ==>
                          FabricValidation.HashOf(TwoNodes(c, a, b).nodes[n]) == Some(h)
  {
  }

  lemma TwoNodesCollide(c: Ipv6Cidr, a: Ipv6Addr, b: Ipv6Addr, h: Ipv4Addr)
    requires a != b && Contains6(c, a) && Contains6(c, b) && h != 0
    requires RouterId.Fnv(RouterId.FNV_OFFSET, Octets6(a)) == h && RouterId.Fnv(RouterId.FNV_OFFSET, Octets6(b)) == h
    ensures var e := TwoNodes(c, a, b);
            EntryBreaks(e, DuplicateBgpRouterId) && !EntryBreaks(e, InvalidBgpRouterId)
  {
    var e := TwoNodes(c, a, b);
    TwoNodesOk(c, a, b);
    HashesOf(c, a, b, h);
    SameHash(e, "a", "b", h);
  }

  lemma SameHash(e: FabricEntry, n: NodeId, m: NodeId, h: Ipv4Addr)
    requires e.fabric.properties.BgpFabric? && e.fabric.ipPrefix.None? && NodesOk(e)
    requires n in e.nodes && m in e.nodes && n != m && h != 0
    requires forall k :: k in e.nodes ==> FabricValidation.HashOf(e.nodes[k]) == Some(h)
    ensures EntryBreaks(e, DuplicateBgpRouterId) && !EntryBreaks(e, InvalidBgpRouterId)
  {
    FabricValidation.CollisionsFromIpv6(e);
    FabricValidation.InvalidIdsFromIpv6(e);
  }

  /** The prefix fd00::400:0/102 is too short: its nodes fd00::470:e200 and fd00::6ee:1df9 are in order,
      but the fabric is rejected because their router-ids collide. */
  lemma ShortPrefixCollides(c: Ipv6Cidr, a: Ipv6Addr, b: Ipv6Addr)
    requires c == RouterIdExample.PREFIX && a == RouterIdExample.LEFT && b == RouterIdExample.RIGHT
    ensures c.mask == 102
    ensures var e := TwoNodes(c, a, b);
            FabricSectionOk(e.fabric) && NodesOk(e) && EntryBreaks(e, DuplicateBgpRouterId) &&
            !EntryBreaks(e, InvalidBgpRouterId) && !EntryOk(e)
  {
    RouterIdExample.CollisionInPrefix(RouterId.FNV_OFFSET, c, a, b);
    TwoNodesOk(c, a, b);
    TwoNodesCollide(c, a, b, 0xd93d59de);
    BrokenEntryIsNotOk(TwoNodes(c, a, b), DuplicateBgpRouterId);
  }
}
