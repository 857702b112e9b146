/** Small valid configurations whose nodes share a NET, or lose an interface. */
module FrrExamples {
  import opened Wrappers
  import opened Addresses
  import opened Identifiers
  import opened Collections
  import opened NetworkEntityTitle
  import opened Text
  import opened FabricModel
  import opened FabricRules
  import opened FrrModel
  import opened FrrCompiler
  import opened FrrIdentity
  import FabricValidation
  import FrrMeaning
  import FrrNets
  import LinkSharing
  import RouterId

  const ANY_OPENFABRIC := OpenfabricFabric(None, None, None)

  function OpenfabricNet(es: seq<FabricEntry>, node: NodeId, f: FabricId): Option<Net> {
    match Build(EMPTY_STATE, es, node)
    case Err(_) => None
    case Ok(s) => if f in s.openfabricRouters then Some(s.openfabricRouters[f]) else None
  }

  // ----- Two IPv6 addresses with the same last segments -----

  function Ipv6Node(f: FabricId, id: NodeId, ip6: Ipv6Addr): Node {
    Node(NodeSectionId(f, id), None, Some(ip6), OpenfabricNode([]))
  }

  /** An IPv6-only fabric with the nodes ::1 and ::1:0:0:1. */
  const IPV6_FABRIC :=
    FabricEntry(Fabric("fabric", None, Some(Ipv6Cidr(0, 64)), ANY_OPENFABRIC),
                map["a" := Ipv6Node("fabric", "a", 1), "b" := Ipv6Node("fabric", "b", 0x1_0000_0000_0001)])

  lemma SharedFromIpv6()
    ensures Ordered([IPV6_FABRIC]) && ConfigOk([IPV6_FABRIC])
    ensures OpenfabricNet([IPV6_FABRIC], "a", "fabric").Some?
    ensures OpenfabricNet([IPV6_FABRIC], "a", "fabric") == OpenfabricNet([IPV6_FABRIC], "b", "fabric")
  {
    var es := [IPV6_FABRIC];
    Ipv6ConfigOk();
    LastSegments();
    assert es[0] in es && Joined(es[0], "a", Openfabric) && Joined(es[0], "b", Openfabric);
    FrrNets.SharedNets(es, "a", "b", "fabric", "fabric");
  }

  lemma Ipv6ConfigOk()
    ensures Ordered([IPV6_FABRIC]) && ConfigOk([IPV6_FABRIC])
  {
    var e, es := IPV6_FABRIC, [IPV6_FABRIC];
    Ipv6FabricFormatted();
    Ipv6FabricOk();
    assert es[..0] == [];
    forall n: NodeId ensures NoDup(AllClaims(es, n)) {
      Ipv6FabricClaims(n);
      assert AllClaims(es, n) == AllClaims([], n) + Claims(e, n) == [];
    }
    assert Areas(es) == Areas([]) == [];
  }

  lemma Ipv6FabricClaims(n: NodeId)
    ensures Claims(IPV6_FABRIC, n) == []
  {
    assert IPV6_FABRIC.nodes.Keys == {"a", "b"};
  }

  lemma Ipv6NodeOk(f: Fabric, id: NodeId, ip6: Ipv6Addr)
    requires ip6 < 0x1_0000_0000_0000_0000 && f.ipPrefix.None? && f.ip6Prefix == Some(Ipv6Cidr(0, 64))
    ensures NodeOk(f, Ipv6Node(f.id, id, ip6))
    ensures LinkNames(Ipv6Node(f.id, id, ip6).properties) == []
  {
    ShrNothingLeft(ip6);
    ShrNothingLeft(0);
  }

  lemma Ipv6FabricOk()
    ensures EntryOk(IPV6_FABRIC)
  {
    var e := IPV6_FABRIC;
    assert e.nodes.Keys == {"a", "b"};
    Ipv6NodeOk(e.fabric, "a", 1);
    Ipv6NodeOk(e.fabric, "b", 0x1_0000_0000_0001);
    assert FabricSectionOk(e.fabric);
    forall n | n in e.nodes ensures NodeOk(e.fabric, e.nodes[n]) {
      assert n == "a" || n == "b";
    }
    assert UniqueAddresses(e);
  }

  lemma Ipv6FabricFormatted()
    ensures EntryWellFormed(IPV6_FABRIC) && EntryFormatted(IPV6_FABRIC)
  {
    assert IPV6_FABRIC.nodes.Keys == {"a", "b"};
  }

  lemma LastSegments()
    ensures Digits(1, 0x1_0000, 3) == Digits(0x1_0000_0000_0001, 0x1_0000, 3)
  {
    assert Digits(1, 0x1_0000, 3) == Digits(0, 0x1_0000, 2) + [1];
    assert Digits(0, 0x1_0000, 2) == Digits(0, 0x1_0000, 1) + [0];
    assert Digits(0x1_0000_0000_0001, 0x1_0000, 3) == Digits(0x1_0000_0000, 0x1_0000, 2) + [1];
    assert Digits(0x1_0000_0000, 0x1_0000, 2) == Digits(0x1_0000, 0x1_0000, 1) + [0];
  }

  lemma ShrNothingLeft(a: nat)
    requires a < 0x1_0000_0000_0000_0000
    ensures Shr(a, 64) == 0
  {
    RouterId.WordIsPow();
    PowSplit(32, 32);
    assert Pow(2, 64) == 0x1_0000_0000 * 0x1_0000_0000;
    ShrSmall(a, 64);
  }

  lemma {:induction false} PowSplit(k: nat, l: nat)
    ensures Pow(2, k + l) == Pow(2, k) * Pow(2, l)
  {
    if k > 0 {
      PowSplit(k - 1, l);
    }
  }

  lemma {:induction false} ShrSmall(a: nat, k: nat)
    requires a < Pow(2, k)
    ensures Shr(a, k) == 0
  {
    if k > 0 {
      ShrOfHalf(a, k - 1);
      ShrSmall(a / 2, k - 1);
    }
  }

  lemma {:induction false} ShrOfHalf(a: nat, k: nat)
    ensures Shr(a, k + 1) == Shr(a / 2, k)
  {
    if k > 0 {
      ShrOfHalf(a, k - 1);
    }
  }

  // ----- Fabrics with one IPv4 node -----

  function OneNode(f: Fabric, n: NodeId, ip: Ipv4Addr, p: NodeProperties): FabricEntry {
    FabricEntry(f, map[n := Node(NodeSectionId(f.id, n), Some(ip), None, p)])
  }

  lemma ShrByte(a: nat)
    ensures Shr(a, 8) == a / 256
  {
    assert Shr(a, 1) == a / 2;
    assert Shr(a, 2) == Shr(a, 1) / 2 == a / 4;
    assert Shr(a, 3) == Shr(a, 2) / 2 == a / 8;
    assert Shr(a, 4) == Shr(a, 3) / 2 == a / 16;
    assert Shr(a, 5) == Shr(a, 4) / 2 == a / 32;
    assert Shr(a, 6) == Shr(a, 5) / 2 == a / 64;
    assert Shr(a, 7) == Shr(a, 6) / 2 == a / 128;
  }

  lemma OneNodeInPrefix(f: Fabric, n: NodeId, ip: Ipv4Addr, p: NodeProperties)
    requires f.ipPrefix.Some? && f.ipPrefix.value.mask == 24 && f.ip6Prefix.None?
    requires ip / 256 == f.ipPrefix.value.addr / 256 && !p.WireGuardInternal?
    ensures NodeOk(f, Node(NodeSectionId(f.id, n), Some(ip), None, p))
  {
    ShrByte(ip);
    ShrByte(f.ipPrefix.value.addr);
  }

  lemma OneNodeOk(f: Fabric, n: NodeId, ip: Ipv4Addr, p: NodeProperties)
    requires f.ipPrefix.Some? && f.ipPrefix.value.mask == 24 && f.ip6Prefix.None?
    requires ip / 256 == f.ipPrefix.value.addr / 256 && ip != 0 && !p.WireGuardInternal?
    requires !f.properties.WireGuardFabric?
    ensures EntryOk(OneNode(f, n, ip, p))
  {
    var e := OneNode(f, n, ip, p);
    assert e.nodes.Keys == {n};
    OneNodeInPrefix(f, n, ip, p);
  }

  lemma OneNodeFormatted(f: Fabric, n: NodeId, ip: Ipv4Addr, p: NodeProperties)
    requires IsFabricId(f.id) && IsNodeId(n) && forall x :: x in LinkNames(p) ==> IsInterfaceName(x)
    requires NodeProtocol(Node(NodeSectionId(f.id, n), Some(ip), None, p)) == FabricProtocol(f)
    ensures EntryWellFormed(OneNode(f, n, ip, p)) && EntryFormatted(OneNode(f, n, ip, p))
  {
    assert OneNode(f, n, ip, p).nodes.Keys == {n};
  }

  // ----- An IPv4 address whose digits are the last segments of an IPv6 address -----

  /** Node 10.0.0.1 of an IPv4-only fabric. */
  const LEFT_FABRIC :=
    OneNode(Fabric("fa", Some(Ipv4Cidr(0x0A00_0000, 24)), None, ANY_OPENFABRIC), "a", 0x0A00_0001, OpenfabricNode([]))

  /** Node ::100:0:1 of an IPv6-only fabric. */
  const RIGHT_FABRIC :=
    FabricEntry(Fabric("fb", None, Some(Ipv6Cidr(0, 64)), ANY_OPENFABRIC),
                map["b" := Ipv6Node("fb", "b", 0x0100_0000_0001)])

  const MIXED_CONFIG := [LEFT_FABRIC, RIGHT_FABRIC]

  lemma SharedFromBoth()
    ensures Ordered(MIXED_CONFIG) && ConfigOk(MIXED_CONFIG)
    ensures OpenfabricNet(MIXED_CONFIG, "a", "fa").Some?
    ensures OpenfabricNet(MIXED_CONFIG, "a", "fa") == OpenfabricNet(MIXED_CONFIG, "b", "fb")
  {
    MixedConfigOk();
    SameSegments();
    MixedFirstFabrics();
    FrrNets.SharedNets(MIXED_CONFIG, "a", "b", "fa", "fb");
  }

  lemma MixedFirstFabrics()
    ensures FirstJoined(MIXED_CONFIG, "a", Openfabric) == Some(0) &&
            FirstJoined(MIXED_CONFIG, "b", Openfabric) == Some(1)
    ensures "fa" in FrrNets.JoinedIds(MIXED_CONFIG, "a", Openfabric) &&
            "fb" in FrrNets.JoinedIds(MIXED_CONFIG, "b", Openfabric)
  {
    var es := MIXED_CONFIG;
    assert es[1..] == [RIGHT_FABRIC];
    assert es[0] in es && Joined(es[0], "a", Openfabric) && es[1] in es && Joined(es[1], "b", Openfabric);
    assert !Joined(es[0], "b", Openfabric) && FirstJoined(es[1..], "b", Openfabric) == Some(0);
  }

  lemma SameSegments()
    ensures RegroupedSegments(0x0A00_0001) == Digits(0x0100_0000_0001, 0x1_0000, 3)
  {
    DigitsOfTen();
    var d := DecimalDigits(0x0A00_0001);
    assert d[..4] == [0, 1, 0, 0] && d[4..8] == [0, 0, 0, 0] && d[8..] == [0, 0, 0, 1];
    HexValueOfFour(0, 1, 0, 0);
    HexValueOfFour(0, 0, 0, 0);
    HexValueOfFour(0, 0, 0, 1);
    SegmentsOfRight();
  }

  lemma HexValueOfFour(a: nat, b: nat, c: nat, d: nat)
    ensures HexValue([a, b, c, d]) == 0x1000 * a + 0x100 * b + 0x10 * c + d
  {
    assert [a, b, c, d][..3] == [a, b, c] && [a, b, c][..2] == [a, b] && [a, b][..1] == [a] && [a][..0] == [];
    assert HexValue([a]) == 16 * HexValue([]) + a;
    assert HexValue([a, b]) == 16 * HexValue([a]) + b;
    assert HexValue([a, b, c]) == 16 * HexValue([a, b]) + c;
  }

  lemma SegmentsOfRight()
    ensures Digits(0x0100_0000_0001, 0x1_0000, 3) == [0x100, 0, 1]
  {
    assert Digits(0x0100_0000_0001, 0x1_0000, 3) == Digits(0x0100_0000, 0x1_0000, 2) + [1];
    assert Digits(0x0100_0000, 0x1_0000, 2) == Digits(0x100, 0x1_0000, 1) + [0];
  }

  lemma DigitsOfTen()
    ensures DecimalDigits(0x0A00_0001) == [0, 1, 0, 0, 0, 0, 0, 0, 0, 0, 0, 1]
  {
    OctetsOfTen();
    DigitsOfSmall(10);
    DigitsOfSmall(0);
    DigitsOfSmall(1);
    assert [0, 1, 0] + [0, 0, 0] + [0, 0, 0] + [0, 0, 1] == [0, 1, 0, 0, 0, 0, 0, 0, 0, 0, 0, 1];
  }

  lemma DigitsOfSmall(o: nat)
    requires o < 100
    ensures Digits(o, 10, 3) == [0, o / 10, o % 10]
  {
    ThreeDigits(o);
  }

  lemma OctetsOfTen()
    ensures Octets4(0x0A00_0001) == [10, 0, 0, 1]
  {
    assert Digits(0x0A00_0001, 256, 4) == Digits(0x0A_0000, 256, 3) + [1];
    assert Digits(0x0A_0000, 256, 3) == Digits(0x0A00, 256, 2) + [0];
    assert Digits(0x0A00, 256, 2) == Digits(10, 256, 1) + [0];
    assert Digits(0x0A00_0001, 256, 4) == [10, 0, 0, 1];
  }

  lemma TwoFabricsOk(e: FabricEntry, f: FabricEntry)
    requires EntryWellFormed(e) && EntryFormatted(e) && EntryOk(e)
    requires EntryWellFormed(f) && EntryFormatted(f) && EntryOk(f)
    requires e.fabric.id != f.fabric.id && LexLe(e.fabric.id, f.fabric.id)
    requires Apart4(e.fabric, f.fabric) && Apart6(e.fabric, f.fabric)
    ensures Ordered([e, f]) && PrefixesDisjoint([e, f]) && forall i :: 0 <= i < 2 ==> EntryOk([e, f][i])
  {
    var es := [e, f];
    forall i, j | 0 <= i < j < |es|
      ensures es[i] == e && es[j] == f
    {
      assert i == 0 && j == 1;
    }
  }

  lemma MixedConfigOk()
    ensures Ordered(MIXED_CONFIG) && ConfigOk(MIXED_CONFIG)
  {
    LeftFabricOk();
    RightFabricOk();
    TwoFabricsOk(LEFT_FABRIC, RIGHT_FABRIC);
    MixedAreas();
    forall n: NodeId ensures NoDup(AllClaims(MIXED_CONFIG, n)) {
      MixedClaims(n);
    }
  }

  lemma MixedAreas()
    ensures Areas(MIXED_CONFIG) == []
  {
    assert MIXED_CONFIG[..1] == [LEFT_FABRIC] && [LEFT_FABRIC][..0] == [];
    assert Areas(MIXED_CONFIG) == Areas([LEFT_FABRIC]) == Areas([]);
  }

  lemma MixedClaims(n: NodeId)
    ensures AllClaims(MIXED_CONFIG, n) == []
  {
    assert LEFT_FABRIC.nodes.Keys == {"a"} && RIGHT_FABRIC.nodes.Keys == {"b"};
    assert MIXED_CONFIG[..1] == [LEFT_FABRIC] && [LEFT_FABRIC][..0] == [];
    assert Claims(LEFT_FABRIC, n) == [] && Claims(RIGHT_FABRIC, n) == [];
    assert AllClaims(MIXED_CONFIG, n) == AllClaims([LEFT_FABRIC], n) == AllClaims([], n);
  }

  lemma LeftFabricOk()
    ensures EntryWellFormed(LEFT_FABRIC) && EntryFormatted(LEFT_FABRIC) && EntryOk(LEFT_FABRIC)
  {
    OneNodeOk(LEFT_FABRIC.fabric, "a", 0x0A00_0001, OpenfabricNode([]));
    OneNodeFormatted(LEFT_FABRIC.fabric, "a", 0x0A00_0001, OpenfabricNode([]));
  }

  lemma RightFabricOk()
    ensures EntryWellFormed(RIGHT_FABRIC) && EntryFormatted(RIGHT_FABRIC) && EntryOk(RIGHT_FABRIC)
  {
    var e := RIGHT_FABRIC;
    assert e.nodes.Keys == {"b"};
    Ipv6NodeOk(e.fabric, "b", 0x0100_0000_0001);
  }

  // ----- Interfaces with the names of the dummies -----

  const OPENFABRIC_A := Fabric("a", Some(Ipv4Cidr(0x0A00_0000, 24)), None, ANY_OPENFABRIC)
  const OSPF_B := Fabric("b", Some(Ipv4Cidr(0x0A00_0100, 24)), None, OspfFabric(Number(0), None, []))
  const BGP_B := Fabric("b", Some(Ipv4Cidr(0x0A00_0100, 24)), None, BgpFabric(false, [], None, None, None))

  /** Node n in an OpenFabric fabric and in another one. */
  function TwoFabrics(p: NodeProperties, g: Fabric, q: NodeProperties): seq<FabricEntry> {
    [OneNode(OPENFABRIC_A, "n", 0x0A00_0001, p), OneNode(g, "n", 0x0A00_0101, q)]
  }

  lemma ClaimsOfTwo(e: FabricEntry, f: FabricEntry, n: NodeId)
    ensures AllClaims([e, f], n) == Claims(e, n) + Claims(f, n)
  {
    assert [e, f][..1] == [e] && [e][..0] == [];
    assert AllClaims([e], n) == AllClaims([], n) + Claims(e, n) == Claims(e, n);
  }

  lemma OneNodeClaims(f: Fabric, ip: Ipv4Addr, p: NodeProperties, n: NodeId)
    requires !p.WireGuardInternal?
    ensures Claims(OneNode(f, "n", ip, p), n) == if n == "n" then Links(LinkNames(p)) else []
  {
    assert OneNode(f, "n", ip, p).nodes.Keys == {"n"};
  }

  lemma LinksConcat(a: seq<string>, b: seq<string>)
    ensures Links(a + b) == Links(a) + Links(b)
  {
  }

  lemma TwoFabricsClaims(p: NodeProperties, g: Fabric, q: NodeProperties, n: NodeId)
    requires !p.WireGuardInternal? && !q.WireGuardInternal? && NoDup(LinkNames(p) + LinkNames(q))
    ensures NoDup(AllClaims(TwoFabrics(p, g, q), n))
  {
    ClaimsOfTwo(OneNode(OPENFABRIC_A, "n", 0x0A00_0001, p), OneNode(g, "n", 0x0A00_0101, q), n);
    OneNodeClaims(OPENFABRIC_A, 0x0A00_0001, p, n);
    OneNodeClaims(g, 0x0A00_0101, q, n);
    if n == "n" {
      LinksConcat(LinkNames(p), LinkNames(q));
      FabricValidation.LinksNoDup(LinkNames(p) + LinkNames(q));
    }
  }

  lemma TwoFabricsAreas(p: NodeProperties, g: Fabric, q: NodeProperties)
    ensures NoDup(Areas(TwoFabrics(p, g, q)))
  {
    var es := TwoFabrics(p, g, q);
    assert es[..1] == [es[0]] && [es[0]][..0] == [];
    assert Areas([es[0]]) == Areas([]) == [];
    assert |Areas(es)| <= |Areas([es[0]])| + 1;
  }

  lemma BlocksApart(g: Fabric)
    requires g in {OSPF_B, BGP_B}
    ensures Apart4(OPENFABRIC_A, g) && Apart6(OPENFABRIC_A, g)
  {
    ShrByte(0x0A00_0000);
    ShrByte(0x0A00_0100);
  }

  lemma TwoFabricsValid(p: NodeProperties, g: Fabric, q: NodeProperties)
    requires p.OpenfabricNode? && (if g == OSPF_B then q.OspfNode? else g == BGP_B && q.BgpInternal?)
    requires NoDup(LinkNames(p) + LinkNames(q))
    requires forall x :: x in LinkNames(p) || x in LinkNames(q) ==> IsInterfaceName(x)
    ensures Ordered(TwoFabrics(p, g, q)) && ConfigOk(TwoFabrics(p, g, q))
  {
    OneNodeFormatted(OPENFABRIC_A, "n", 0x0A00_0001, p);
    OneNodeOk(OPENFABRIC_A, "n", 0x0A00_0001, p);
    OneNodeFormatted(g, "n", 0x0A00_0101, q);
    OneNodeOk(g, "n", 0x0A00_0101, q);
    BlocksApart(g);
    TwoFabricsOk(OneNode(OPENFABRIC_A, "n", 0x0A00_0001, p), OneNode(g, "n", 0x0A00_0101, q));
    TwoFabricsAreas(p, g, q);
    forall n: NodeId ensures NoDup(AllClaims(TwoFabrics(p, g, q), n)) {
      TwoFabricsClaims(p, g, q, n);
    }
  }

  // ----- Links with the names of dummies of their own protocol -----

  const FIRST_LINK := OpenfabricInterface("dummy_a", None, None, None)
  const SECOND_LINK := OspfInterface("dummy_b", None, None)

  const CLASHING_CONFIG := TwoFabrics(OpenfabricNode([FIRST_LINK]), OSPF_B, OspfNode([SECOND_LINK]))
  const FIRST_FABRIC := CLASHING_CONFIG[0]
  const SECOND_FABRIC := CLASHING_CONFIG[1]

  lemma ClashingConfigOk()
    ensures Ordered(CLASHING_CONFIG) && ConfigOk(CLASHING_CONFIG)
  {
    assert LinkNames(OpenfabricNode([FIRST_LINK])) == ["dummy_a"] && LinkNames(OspfNode([SECOND_LINK])) == ["dummy_b"];
    TwoFabricsValid(OpenfabricNode([FIRST_LINK]), OSPF_B, OspfNode([SECOND_LINK]));
  }

  /** The links take the places of the passive dummies in both interface maps. */
  lemma DummiesLost()
    ensures Ordered(CLASHING_CONFIG) && ConfigOk(CLASHING_CONFIG)
    ensures !NoDummyClash(CLASHING_CONFIG, "n", Openfabric) && !NoDummyClash(CLASHING_CONFIG, "n", Ospf)
    ensures Build(EMPTY_STATE, CLASHING_CONFIG, "n").Ok?
    ensures var frr := Build(EMPTY_STATE, CLASHING_CONFIG, "n").value;
            frr.openfabricInterfaces ==
              map["dummy_a" := OpenfabricLink(FIRST_FABRIC.fabric, FIRST_FABRIC.nodes["n"], FIRST_LINK)] &&
            frr.ospfInterfaces == map["dummy_b" := OspfLink(PrintArea(Number(0)), SECOND_LINK)]
    ensures ("dummy_a", OpenfabricDummy(FIRST_FABRIC.fabric, FIRST_FABRIC.nodes["n"])) in
            AllOpenfabricInterfaces(CLASHING_CONFIG, "n")
    ensures ("dummy_b", FrrOspfInterface(PrintArea(Number(0)), Some(true), None)) in
            AllOspfInterfaces(CLASHING_CONFIG, "n")
  {
    ClashingConfigOk();
    ClashingNames();
    FrrMeaning.BuildSucceeds(EMPTY_STATE, CLASHING_CONFIG, "n");
    RunInterfaces(Context(EMPTY_STATE, INITIAL_NUMBER, None, None), CLASHING_CONFIG, "n");
    ClashingOpenfabric();
    ClashingOspf();
    InsertedOver("dummy_a", OpenfabricDummy(FIRST_FABRIC.fabric, FIRST_FABRIC.nodes["n"]),
                 OpenfabricLink(FIRST_FABRIC.fabric, FIRST_FABRIC.nodes["n"], FIRST_LINK));
    InsertedOver("dummy_b", FrrOspfInterface(PrintArea(Number(0)), Some(true), None),
                 OspfLink(PrintArea(Number(0)), SECOND_LINK));
  }

  lemma ClashingNames()
    ensures !NoDummyClash(CLASHING_CONFIG, "n", Openfabric) && !NoDummyClash(CLASHING_CONFIG, "n", Ospf)
  {
    var es := CLASHING_CONFIG;
    assert Joined(es[0], "n", Openfabric) && Joined(es[1], "n", Ospf);
    assert LinkNames(es[0].nodes["n"].properties)[0] == DummyName("a");
    assert LinkNames(es[1].nodes["n"].properties)[0] == DummyName("b");
  }

  lemma InsertedOver<V>(name: string, before: V, after: V)
    ensures InsertAll(map[], [(name, before), (name, after)]) == map[name := after]
  {
    var bs := [(name, before), (name, after)];
    assert bs[1..] == [(name, after)] && bs[1..][1..] == [];
    assert InsertAll(map[], bs) == InsertAll(map[name := before], bs[1..]) == InsertAll(map[name := after], []);
  }

  lemma ClashingOpenfabric()
    ensures AllOpenfabricInterfaces(CLASHING_CONFIG, "n") ==
            [("dummy_a", OpenfabricDummy(FIRST_FABRIC.fabric, FIRST_FABRIC.nodes["n"])),
             ("dummy_a", OpenfabricLink(FIRST_FABRIC.fabric, FIRST_FABRIC.nodes["n"], FIRST_LINK))]
  {
    var es := CLASHING_CONFIG;
    assert es[1..] == [SECOND_FABRIC] && [SECOND_FABRIC][1..] == [];
    assert DummyName("a") == "dummy_a";
    assert OpenfabricBindings(FIRST_FABRIC.fabric, FIRST_FABRIC.nodes["n"]) ==
           [("dummy_a", OpenfabricDummy(FIRST_FABRIC.fabric, FIRST_FABRIC.nodes["n"])),
            ("dummy_a", OpenfabricLink(FIRST_FABRIC.fabric, FIRST_FABRIC.nodes["n"], FIRST_LINK))];
    assert AllOpenfabricInterfaces(es, "n") == OpenfabricInterfaces(FIRST_FABRIC, "n") +
           AllOpenfabricInterfaces([SECOND_FABRIC], "n");
    assert AllOpenfabricInterfaces([SECOND_FABRIC], "n") ==
             OpenfabricInterfaces(SECOND_FABRIC, "n") + AllOpenfabricInterfaces([], "n") == [];
  }

  lemma ClashingOspf()
    ensures AllOspfInterfaces(CLASHING_CONFIG, "n") ==
            [("dummy_b", FrrOspfInterface(PrintArea(Number(0)), Some(true), None)),
             ("dummy_b", OspfLink(PrintArea(Number(0)), SECOND_LINK))]
  {
    var es := CLASHING_CONFIG;
    assert es[1..] == [SECOND_FABRIC] && [SECOND_FABRIC][1..] == [];
    assert DummyName("b") == "dummy_b";
    assert OspfBindings(SECOND_FABRIC.fabric, SECOND_FABRIC.nodes["n"]) ==
           [("dummy_b", FrrOspfInterface(PrintArea(Number(0)), Some(true), None)),
            ("dummy_b", OspfLink(PrintArea(Number(0)), SECOND_LINK))];
    assert AllOspfInterfaces(es, "n") == OspfInterfaces(FIRST_FABRIC, "n") + AllOspfInterfaces([SECOND_FABRIC], "n");
    assert AllOspfInterfaces([SECOND_FABRIC], "n") == OspfInterfaces(SECOND_FABRIC, "n") + AllOspfInterfaces([], "n");
  }

  // ----- Links with the names of dummies of another protocol -----

  const OTHER_LINK := OspfInterface("dummy_a", None, None)
  const MAPS_CONFIG := TwoFabrics(OpenfabricNode([]), OSPF_B, OspfNode([OTHER_LINK]))
  const GROUP_CONFIG := TwoFabrics(OpenfabricNode([]), BGP_B, BgpInternal(65000, ["dummy_a"]))

  lemma MapsConfigOk()
    ensures Ordered(MAPS_CONFIG) && ConfigOk(MAPS_CONFIG)
  {
    assert LinkNames(OpenfabricNode([])) == [] && LinkNames(OspfNode([OTHER_LINK])) == ["dummy_a"];
    TwoFabricsValid(OpenfabricNode([]), OSPF_B, OspfNode([OTHER_LINK]));
  }

  lemma GroupConfigOk()
    ensures Ordered(GROUP_CONFIG) && ConfigOk(GROUP_CONFIG)
  {
    assert LinkNames(OpenfabricNode([])) == [];
    TwoFabricsValid(OpenfabricNode([]), BGP_B, BgpInternal(65000, ["dummy_a"]));
  }

  /** Each interface map is complete, and both hold the OpenFabric dummy. */
  lemma DummyInBothMaps()
    ensures Ordered(MAPS_CONFIG) && ConfigOk(MAPS_CONFIG)
    ensures NoDummyClash(MAPS_CONFIG, "n", Openfabric) && NoDummyClash(MAPS_CONFIG, "n", Ospf)
    ensures Build(EMPTY_STATE, MAPS_CONFIG, "n").Ok?
    ensures var frr := Build(EMPTY_STATE, MAPS_CONFIG, "n").value;
            "dummy_a" in frr.openfabricInterfaces && "dummy_a" in frr.ospfInterfaces
  {
    MapsConfigOk();
    NoOwnClash(MAPS_CONFIG);
    TakenByLink();
    DummyShared(MAPS_CONFIG, Ospf);
  }

  /** The neighbor group of a BGP fabric lists the OpenFabric dummy. */
  lemma DummyInGroup()
    ensures Ordered(GROUP_CONFIG) && ConfigOk(GROUP_CONFIG) && Build(EMPTY_STATE, GROUP_CONFIG, "n").Ok?
    ensures var frr := Build(EMPTY_STATE, GROUP_CONFIG, "n").value;
            "dummy_a" in frr.openfabricInterfaces && LinkSharing.Uses(frr, Bgp, "dummy_a")
  {
    GroupConfigOk();
    TakenByGroup();
    DummyShared(GROUP_CONFIG, Bgp);
  }

  lemma NoOwnClash(es: seq<FabricEntry>)
    requires es == MAPS_CONFIG
    ensures NoDummyClash(es, "n", Openfabric) && NoDummyClash(es, "n", Ospf)
  {
    assert LinkNames(es[0].nodes["n"].properties) == [] && LinkNames(es[1].nodes["n"].properties) == ["dummy_a"];
    assert DummyName("b")[6] == 'b' && "dummy_a"[6] == 'a';
    assert !Joined(es[1], "n", Openfabric) && !Joined(es[0], "n", Ospf);
  }

  lemma DummyShared(es: seq<FabricEntry>, q: Protocol)
    requires Ordered(es) && ConfigOk(es) && q in {Ospf, Bgp}
    requires LinkSharing.TakesDummy(es, "n", Openfabric, q, "dummy_a")
    ensures Build(EMPTY_STATE, es, "n").Ok?
    ensures "dummy_a" in Build(EMPTY_STATE, es, "n").value.openfabricInterfaces
    ensures LinkSharing.Uses(Build(EMPTY_STATE, es, "n").value, q, "dummy_a")
  {
    LinkSharing.SharedInterfaces(es, "n", Openfabric, q, "dummy_a");
  }

  lemma TakenByLink()
    ensures LinkSharing.TakesDummy(MAPS_CONFIG, "n", Openfabric, Ospf, "dummy_a")
  {
    assert LinkNames(MAPS_CONFIG[1].nodes["n"].properties) == ["dummy_a"];
    TakenByOther(MAPS_CONFIG, Ospf);
  }

  lemma TakenByGroup()
    ensures LinkSharing.TakesDummy(GROUP_CONFIG, "n", Openfabric, Bgp, "dummy_a")
  {
    TakenByOther(GROUP_CONFIG, Bgp);
  }

  lemma TakenByOther(es: seq<FabricEntry>, q: Protocol)
    requires |es| == 2 && es[0].fabric == OPENFABRIC_A && Joined(es[0], "n", Openfabric) && Joined(es[1], "n", q)
    requires LinkNames(es[1].nodes["n"].properties) == ["dummy_a"]
    ensures LinkSharing.TakesDummy(es, "n", Openfabric, q, "dummy_a")
  {
    assert DummyName("a") == "dummy_a";
    assert LinkSharing.HasDummy(es, "n", Openfabric, 0, "dummy_a");
    assert LinkSharing.HasLink(es, "n", q, 1, "dummy_a");
  }
}
