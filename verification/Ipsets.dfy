/** Firewall ipsets, and the sets that every VNet of the SDN configuration gets. */
module Ipsets {
  import opened Wrappers
  import opened Addresses
  import opened Collections
  import opened SdnModel
  import SdnConfiguration
  import Text

  datatype IpsetAddress = CidrAddress(cidr: Cidr) | RangeAddress(range: IpRange)
  datatype IpsetEntry = IpsetEntry(nomatch: bool, address: IpsetAddress)
  datatype Ipset = Ipset(name: string, entries: seq<IpsetEntry>)

  /** The block that holds one address only. */
  function Host(a: IpAddr): Cidr {
    match a
    case V4(v4) => Cidr4(Ipv4Cidr(v4, 32))
    case V6(v6) => Cidr6(Ipv6Cidr(v6, 128))
  }

  lemma HostContains(a: IpAddr, b: IpAddr)
    ensures Contains(Host(a), b) <==> a == b
  {
    if a.V4? && b.V4? {
      assert Contains4(Ipv4Cidr(a.v4, 32), b.v4) <==> Shr(a.v4, 0) == Shr(b.v4, 0);
    }
    if a.V6? && b.V6? {
      assert Contains6(Ipv6Cidr(a.v6, 128), b.v6) <==> Shr(a.v6, 0) == Shr(b.v6, 0);
    }
  }

  predicate AddressHas(a: IpsetAddress, ip: IpAddr) {
    match a
    case CidrAddress(c) => Contains(c, ip)
    case RangeAddress(r) => IsRange(r.start, ip) && IsRange(ip, r.end)
  }

  /** An address is in the set if an entry has it and no `nomatch` entry takes it out. */
  ghost predicate In(s: Ipset, ip: IpAddr) {
    (exists e :: e in s.entries && !e.nomatch && AddressHas(e.address, ip)) &&
    !exists e :: e in s.entries && e.nomatch && AddressHas(e.address, ip)
  }

  // ----- The sets of a VNet -----

  datatype SetKind = AllSubnets | Gateways | NoGateways | DhcpRanges

  function Label(k: SetKind): (s: string)
    ensures |s| == match k case AllSubnets => 3 case Gateways => 7 case NoGateways => 10 case DhcpRanges => 4
  {
    match k
    case AllSubnets => "all"
    case Gateways => "gateway"
    case NoGateways => "no-gateway"
    case DhcpRanges => "dhcp"
  }

  function SetName(v: VnetName, k: SetKind): string {
    v + ['-'] + Label(k)
  }

  /** What a subnet contributes to each of the sets. */
  function EntriesOf(k: SetKind, s: SubnetConfig): seq<IpsetEntry> {
    var block := [IpsetEntry(false, CidrAddress(s.name.cidr))];
    match k
    case AllSubnets => block
    case Gateways => if s.gateway.Some? then [IpsetEntry(false, CidrAddress(Host(s.gateway.value)))] else []
    case NoGateways => block + if s.gateway.Some? then [IpsetEntry(true, CidrAddress(Host(s.gateway.value)))] else []
    case DhcpRanges => RangeEntries(s.dhcpRange)
  }

  function RangeEntries(rs: seq<IpRange>): (es: seq<IpsetEntry>)
    ensures |es| == |rs| && forall i :: 0 <= i < |es| ==> es[i] == IpsetEntry(false, RangeAddress(rs[i]))
  {
    seq(|rs|, i requires 0 <= i < |rs| => IpsetEntry(false, RangeAddress(rs[i])))
  }

  /** The order in which the subnets of a VNet are visited. */
  ghost predicate Visits(order: seq<Cidr>, v: VnetConfig) {
    NoDup(order) && forall c :: c in order <==> c in v.subnets
  }

  function EntriesAlong(k: SetKind, v: VnetConfig, order: seq<Cidr>): seq<IpsetEntry>
    requires forall c :: c in order ==> c in v.subnets
  {
    if order == [] then []
    else
      var c := order[|order| - 1];
      EntriesAlong(k, v, order[..|order| - 1]) + EntriesOf(k, v.subnets[c])
  }

  function SetAlong(k: SetKind, v: VnetConfig, order: seq<Cidr>): Ipset
    requires forall c :: c in order ==> c in v.subnets
  {
    Ipset(SetName(v.name, k), EntriesAlong(k, v, order))
  }

  /** The four sets of a VNet, all listing the subnets in the same order. */
  ghost predicate DescribeFour(four: seq<Ipset>, v: VnetConfig) {
    exists order :: Visits(order, v) &&
                    four == [SetAlong(AllSubnets, v, order), SetAlong(Gateways, v, order),
                             SetAlong(NoGateways, v, order), SetAlong(DhcpRanges, v, order)]
  }

  ghost predicate Describes(s: Ipset, k: SetKind, v: VnetConfig) {
    exists order :: Visits(order, v) && s == SetAlong(k, v, order)
  }

  /** Visits the subnets in arbitrary order. */
  method VnetIpsets(v: VnetConfig) returns (sets: seq<Ipset>)
    ensures DescribeFour(sets, v)
  {
    var all, gateway, noGateway, dhcp: seq<IpsetEntry> := [], [], [], [];
    var todo := v.subnets.Keys;
    ghost var order := [];
    while todo != {}
      invariant todo <= v.subnets.Keys && NoDup(order)
      invariant forall c :: c in order <==> c in v.subnets && c !in todo
      invariant all == EntriesAlong(AllSubnets, v, order) && gateway == EntriesAlong(Gateways, v, order)
      invariant noGateway == EntriesAlong(NoGateways, v, order) && dhcp == EntriesAlong(DhcpRanges, v, order)
      decreases |todo|
    {
      var c :| c in todo;
      all, gateway, noGateway, dhcp := PushSubnet(v.subnets[c], all, gateway, noGateway, dhcp);
      assert (order + [c])[..|order|] == order;
      NoDupAppend(order, c);
      order := order + [c];
      todo := todo - {c};
    }
    sets := [Ipset(SetName(v.name, AllSubnets), all), Ipset(SetName(v.name, Gateways), gateway),
             Ipset(SetName(v.name, NoGateways), noGateway), Ipset(SetName(v.name, DhcpRanges), dhcp)];
    assert Visits(order, v);
  }

  method PushSubnet(s: SubnetConfig, all: seq<IpsetEntry>, gateway: seq<IpsetEntry>, noGateway: seq<IpsetEntry>,
                    dhcp: seq<IpsetEntry>)
    returns (all': seq<IpsetEntry>, gateway': seq<IpsetEntry>, noGateway': seq<IpsetEntry>, dhcp': seq<IpsetEntry>)
    ensures all' == all + EntriesOf(AllSubnets, s) && gateway' == gateway + EntriesOf(Gateways, s)
    ensures noGateway' == noGateway + EntriesOf(NoGateways, s) && dhcp' == dhcp + EntriesOf(DhcpRanges, s)
  {
    var block := IpsetEntry(false, CidrAddress(s.name.cidr));
    all', gateway', noGateway' := all + [block], gateway, noGateway + [block];
    if s.gateway.Some? {
      noGateway' := noGateway' + [IpsetEntry(true, CidrAddress(Host(s.gateway.value)))];
      gateway' := gateway' + [IpsetEntry(false, CidrAddress(Host(s.gateway.value)))];
    }
    dhcp' := dhcp + RangeEntries(s.dhcpRange);
  }

  // ----- What the sets mean -----

  lemma {:induction false} EntriesMember(k: SetKind, v: VnetConfig, order: seq<Cidr>, e: IpsetEntry)
    requires forall c :: c in order ==> c in v.subnets
    ensures e in EntriesAlong(k, v, order) <==> exists c :: c in order && e in EntriesOf(k, v.subnets[c])
  {
    if order != [] {
      var init, last := order[..|order| - 1], order[|order| - 1];
      EntriesMember(k, v, init, e);
      assert forall c :: c in order <==> c in init || c == last;
    }
  }

  /** The entries of a set are those that the subnets contribute. */
  lemma ContributedFrom(k: SetKind, v: VnetConfig, s: Ipset, e: IpsetEntry) returns (c: Cidr)
    requires Describes(s, k, v) && e in s.entries
    ensures c in v.subnets && e in EntriesOf(k, v.subnets[c])
  {
    var order :| Visits(order, v) && s == SetAlong(k, v, order);
    EntriesMember(k, v, order, e);
    c :| c in order && e in EntriesOf(k, v.subnets[c]);
  }

  lemma Contributed(k: SetKind, v: VnetConfig, s: Ipset, c: Cidr, e: IpsetEntry)
    requires Describes(s, k, v) && c in v.subnets && e in EntriesOf(k, v.subnets[c])
    ensures e in s.entries
  {
    var order :| Visits(order, v) && s == SetAlong(k, v, order);
    EntriesMember(k, v, order, e);
  }

  /** The first set holds the addresses of the subnets. */
  lemma AllSubnetsMeaning(v: VnetConfig, all: Ipset, ip: IpAddr)
    requires VnetKeyed(v) && Describes(all, AllSubnets, v)
    ensures In(all, ip) <==> exists c :: c in v.subnets && Contains(c, ip)
  {
    forall e | e in all.entries
      ensures !e.nomatch && exists c :: c in v.subnets && e == IpsetEntry(false, CidrAddress(c))
    {
      var c := ContributedFrom(AllSubnets, v, all, e);
    }
    if c :| c in v.subnets && Contains(c, ip) {
      Contributed(AllSubnets, v, all, c, IpsetEntry(false, CidrAddress(c)));
      assert AddressHas(CidrAddress(c), ip);
    }
  }

  ghost predicate IsGateway(v: VnetConfig, ip: IpAddr) {
    exists c :: c in v.subnets && v.subnets[c].gateway == Some(ip)
  }

  /** The second set holds exactly the gateways. */
  lemma GatewaysMeaning(v: VnetConfig, gateways: Ipset, ip: IpAddr)
    requires Describes(gateways, Gateways, v)
    ensures In(gateways, ip) <==> IsGateway(v, ip)
  {
    forall e | e in gateways.entries ensures !e.nomatch {
      var c := ContributedFrom(Gateways, v, gateways, e);
    }
    if e :| e in gateways.entries && AddressHas(e.address, ip) {
      var c := ContributedFrom(Gateways, v, gateways, e);
      HostContains(v.subnets[c].gateway.value, ip);
    }
    if c :| c in v.subnets && v.subnets[c].gateway == Some(ip) {
      HostContains(ip, ip);
      Contributed(Gateways, v, gateways, c, IpsetEntry(false, CidrAddress(Host(ip))));
      assert AddressHas(CidrAddress(Host(ip)), ip);
    }
  }

  /** The third set is the first without the second. */
  lemma NoGatewaysMeaning(v: VnetConfig, all: Ipset, gateways: Ipset, noGateways: Ipset, ip: IpAddr)
    requires VnetKeyed(v) && Describes(all, AllSubnets, v) && Describes(gateways, Gateways, v) &&
             Describes(noGateways, NoGateways, v)
    ensures In(noGateways, ip) <==> In(all, ip) && !In(gateways, ip)
  {
    AllSubnetsMeaning(v, all, ip);
    GatewaysMeaning(v, gateways, ip);
    Excluded(v, noGateways, ip);
    Included(v, noGateways, ip);
  }

  lemma Excluded(v: VnetConfig, noGateways: Ipset, ip: IpAddr)
    requires Describes(noGateways, NoGateways, v)
    ensures (exists e :: e in noGateways.entries && e.nomatch && AddressHas(e.address, ip)) <==> IsGateway(v, ip)
  {
    if e :| e in noGateways.entries && e.nomatch && AddressHas(e.address, ip) {
      var c := ContributedFrom(NoGateways, v, noGateways, e);
      HostContains(v.subnets[c].gateway.value, ip);
    }
    if c :| c in v.subnets && v.subnets[c].gateway == Some(ip) {
      HostContains(ip, ip);
      assert EntriesOf(NoGateways, v.subnets[c])[1] == IpsetEntry(true, CidrAddress(Host(ip)));
      Contributed(NoGateways, v, noGateways, c, IpsetEntry(true, CidrAddress(Host(ip))));
      assert AddressHas(CidrAddress(Host(ip)), ip);
    }
  }

  lemma Included(v: VnetConfig, noGateways: Ipset, ip: IpAddr)
    requires VnetKeyed(v) && Describes(noGateways, NoGateways, v)
    ensures (exists e :: e in noGateways.entries && !e.nomatch && AddressHas(e.address, ip)) <==>
            exists c :: c in v.subnets && Contains(c, ip)
  {
    if e :| e in noGateways.entries && !e.nomatch && AddressHas(e.address, ip) {
      var c := ContributedFrom(NoGateways, v, noGateways, e);
      assert Contains(c, ip);
    }
    if c :| c in v.subnets && Contains(c, ip) {
      assert EntriesOf(NoGateways, v.subnets[c])[0] == IpsetEntry(false, CidrAddress(c));
      Contributed(NoGateways, v, noGateways, c, IpsetEntry(false, CidrAddress(c)));
      assert AddressHas(CidrAddress(c), ip);
    }
  }

  /** The address lies in the range. */
  predicate Between(r: IpRange, ip: IpAddr) {
    match (r.start, ip, r.end)
    case (V4(a), V4(x), V4(b)) => a <= x <= b
    case (V6(a), V6(x), V6(b)) => a <= x <= b
    case _ => false
  }

  ghost predicate IsOffered(v: VnetConfig, ip: IpAddr) {
    exists c, i :: c in v.subnets && 0 <= i < |v.subnets[c].dhcpRange| && Between(v.subnets[c].dhcpRange[i], ip)
  }

  /** The fourth set holds exactly the addresses of the DHCP ranges. */
  lemma DhcpRangesMeaning(v: VnetConfig, dhcp: Ipset, ip: IpAddr)
    requires Describes(dhcp, DhcpRanges, v)
    ensures In(dhcp, ip) <==> IsOffered(v, ip)
  {
    forall e | e in dhcp.entries ensures !e.nomatch && (AddressHas(e.address, ip) ==> IsOffered(v, ip)) {
      var c := ContributedFrom(DhcpRanges, v, dhcp, e);
      var i :| 0 <= i < |v.subnets[c].dhcpRange| && RangeEntries(v.subnets[c].dhcpRange)[i] == e;
      RangeHas(v.subnets[c].dhcpRange[i], ip);
    }
    if c, i :| c in v.subnets && 0 <= i < |v.subnets[c].dhcpRange| && Between(v.subnets[c].dhcpRange[i], ip) {
      var e := RangeEntries(v.subnets[c].dhcpRange)[i];
      RangeHas(v.subnets[c].dhcpRange[i], ip);
      Contributed(DhcpRanges, v, dhcp, c, e);
      assert AddressHas(e.address, ip);
    }
  }

  lemma RangeHas(r: IpRange, ip: IpAddr)
    ensures AddressHas(RangeAddress(r), ip) <==> Between(r, ip)
  {
  }

  /** The four sets of a VNet by name, and what each of them holds. */
  lemma FourMeanings(four: seq<Ipset>, v: VnetConfig, ip: IpAddr)
    requires VnetKeyed(v) && DescribeFour(four, v)
    ensures |four| == 4
    ensures four[0].name == v.name + "-all" && (In(four[0], ip) <==> exists c :: c in v.subnets && Contains(c, ip))
    ensures four[1].name == v.name + "-gateway" && (In(four[1], ip) <==> IsGateway(v, ip))
    ensures four[2].name == v.name + "-no-gateway" && (In(four[2], ip) <==> In(four[0], ip) && !In(four[1], ip))
    ensures four[3].name == v.name + "-dhcp" && (In(four[3], ip) <==> IsOffered(v, ip))
  {
    FourNames(v.name);
    var order :| Visits(order, v) &&
                 four == [SetAlong(AllSubnets, v, order), SetAlong(Gateways, v, order),
                          SetAlong(NoGateways, v, order), SetAlong(DhcpRanges, v, order)];
    assert Describes(four[0], AllSubnets, v) && Describes(four[1], Gateways, v);
    assert Describes(four[2], NoGateways, v) && Describes(four[3], DhcpRanges, v);
    AllSubnetsMeaning(v, four[0], ip);
    GatewaysMeaning(v, four[1], ip);
    NoGatewaysMeaning(v, four[0], four[1], four[2], ip);
    DhcpRangesMeaning(v, four[3], ip);
  }

  lemma FourNames(v: VnetName)
    ensures SetName(v, AllSubnets) == v + "-all" && SetName(v, Gateways) == v + "-gateway"
    ensures SetName(v, NoGateways) == v + "-no-gateway" && SetName(v, DhcpRanges) == v + "-dhcp"
  {
  }

  // ----- The sets of all VNets -----

  function ZoneVnets(z: ZoneConfig): (vs: seq<VnetConfig>)
    ensures |vs| == |SortedKeys(z.vnets.Keys)|
    ensures forall i :: 0 <= i < |vs| ==> SortedKeys(z.vnets.Keys)[i] in z.vnets &&
                                          vs[i] == z.vnets[SortedKeys(z.vnets.Keys)[i]]
  {
    var names := SortedKeys(z.vnets.Keys);
    seq(|names|, i requires 0 <= i < |names| =>
      assert names[i] in names;
      z.vnets[names[i]])
  }

  /** The VNets of the zones, zone by zone. */
  function VnetLists(zones: Zones): (vs: seq<seq<VnetConfig>>)
    ensures |vs| == |SortedKeys(zones.Keys)|
    ensures forall i :: 0 <= i < |vs| ==> SortedKeys(zones.Keys)[i] in zones &&
                                          vs[i] == ZoneVnets(zones[SortedKeys(zones.Keys)[i]])
  {
    var names := SortedKeys(zones.Keys);
    seq(|names|, i requires 0 <= i < |names| =>
      assert names[i] in names;
      ZoneVnets(zones[names[i]]))
  }

  function AllVnets(zones: Zones): seq<VnetConfig> {
    Flatten(VnetLists(zones))
  }

  predicate IsAllowed(filter: Option<set<VnetName>>, name: VnetName) {
    filter.Some? ==> name in filter.value
  }

  function Allowed(vs: seq<VnetConfig>, filter: Option<set<VnetName>>): seq<VnetConfig> {
    if vs == [] then []
    else
      var v := vs[|vs| - 1];
      Allowed(vs[..|vs| - 1], filter) + if IsAllowed(filter, v.name) then [v] else []
  }

  lemma AllowedStep(vs: seq<VnetConfig>, i: nat, filter: Option<set<VnetName>>)
    requires i < |vs|
    ensures Allowed(vs[..i + 1], filter) ==
            if IsAllowed(filter, vs[i].name) then Allowed(vs[..i], filter) + [vs[i]] else Allowed(vs[..i], filter)
  {
    assert vs[..i + 1][..i] == vs[..i];
  }

  /** Four sets for each VNet, in order. */
  ghost predicate DescribeAll(sets: seq<Ipset>, vs: seq<VnetConfig>) {
    if vs == [] then sets == []
    else
      |sets| >= 4 && DescribeAll(sets[..|sets| - 4], vs[..|vs| - 1]) &&
      DescribeFour(sets[|sets| - 4..], vs[|vs| - 1])
  }

  method Ipsets(zones: Zones, filter: Option<set<VnetName>>) returns (sets: seq<Ipset>)
    ensures DescribeAll(sets, Allowed(AllVnets(zones), filter))
  {
    var vs := AllVnets(zones);
    sets := [];
    for i := 0 to |vs|
      invariant DescribeAll(sets, Allowed(vs[..i], filter))
    {
      AllowedStep(vs, i, filter);
      if IsAllowed(filter, vs[i].name) {
        var four := VnetIpsets(vs[i]);
        DescribeOneMore(sets, Allowed(vs[..i], filter), four, vs[i]);
        sets := sets + four;
      }
    }
    assert vs[..|vs|] == vs;
  }

  lemma DescribeOneMore(sets: seq<Ipset>, vs: seq<VnetConfig>, four: seq<Ipset>, v: VnetConfig)
    requires DescribeAll(sets, vs) && DescribeFour(four, v)
    ensures DescribeAll(sets + four, vs + [v])
  {
    assert (sets + four)[..|sets|] == sets && (sets + four)[|sets|..] == four;
    assert (vs + [v])[..|vs|] == vs;
  }

  function VnetNames(vs: seq<VnetConfig>): (ns: seq<VnetName>)
    ensures |ns| == |vs| && forall i :: 0 <= i < |ns| ==> ns[i] == vs[i].name
  {
    seq(|vs|, i requires 0 <= i < |vs| => vs[i].name)
  }

  function SetNames(sets: seq<Ipset>): (ns: seq<string>)
    ensures |ns| == |sets| && forall i :: 0 <= i < |ns| ==> ns[i] == sets[i].name
  {
    seq(|sets|, i requires 0 <= i < |sets| => sets[i].name)
  }

  /** VNet names contain no hyphen, so the name of a set tells its VNet and its kind. */
  lemma SetNameInjective(v: VnetName, k: SetKind, w: VnetName, l: SetKind)
    requires IsSdnName(v) && IsSdnName(w) && SetName(v, k) == SetName(w, l)
    ensures v == w && k == l
  {
    assert '-' !in v && '-' !in w;
    Text.SplitOnceConcat(v, '-', Label(k));
    Text.SplitOnceConcat(w, '-', Label(l));
  }

  ghost predicate NamedFor(vs: seq<VnetConfig>, name: string) {
    exists i, k :: 0 <= i < |vs| && name == SetName(vs[i].name, k)
  }

  lemma NameOfFour(four: seq<Ipset>, v: VnetConfig, s: Ipset) returns (k: SetKind)
    requires DescribeFour(four, v) && s in four
    ensures s.name == SetName(v.name, k)
  {
    k := if s == four[0] then AllSubnets else if s == four[1] then Gateways else if s == four[2] then NoGateways
         else DhcpRanges;
  }

  lemma {:induction false} DescribedNames(sets: seq<Ipset>, vs: seq<VnetConfig>, s: Ipset)
    requires DescribeAll(sets, vs) && s in sets
    ensures NamedFor(vs, s.name)
  {
    if vs != [] {
      var a, b, init, v := sets[..|sets| - 4], sets[|sets| - 4..], vs[..|vs| - 1], vs[|vs| - 1];
      assert sets == a + b;
      if s in a {
        DescribedNames(a, init, s);
        var i, k :| 0 <= i < |init| && s.name == SetName(init[i].name, k);
        assert s.name == SetName(vs[i].name, k);
      } else {
        var k := NameOfFour(b, v, s);
        assert s.name == SetName(vs[|vs| - 1].name, k);
      }
    }
  }

  /** The four names of a VNet are new if no earlier VNet has its name. */
  lemma {:induction false} SetNamesDistinct(sets: seq<Ipset>, vs: seq<VnetConfig>)
    requires DescribeAll(sets, vs) && NoDup(VnetNames(vs))
    requires forall i :: 0 <= i < |vs| ==> IsSdnName(vs[i].name)
    ensures NoDup(SetNames(sets))
  {
    if vs != [] {
      var a, b := sets[..|sets| - 4], sets[|sets| - 4..];
      var init, v := vs[..|vs| - 1], vs[|vs| - 1];
      LastNameNew(vs);
      SetNamesDistinct(a, init);
      FourNamesDistinct(b, v);
      forall x | x in SetNames(a) ensures x !in SetNames(b) {
        NewNames(a, init, b, v, x);
      }
      NoDupConcat(SetNames(a), SetNames(b));
      assert SetNames(sets) == SetNames(a) + SetNames(b);
    }
  }

  lemma LastNameNew(vs: seq<VnetConfig>)
    requires vs != [] && NoDup(VnetNames(vs))
    ensures var init := vs[..|vs| - 1];
            NoDup(VnetNames(init)) && forall i :: 0 <= i < |init| ==> init[i].name != vs[|vs| - 1].name
  {
    var init := vs[..|vs| - 1];
    assert VnetNames(vs) == VnetNames(init) + [vs[|vs| - 1].name];
    NoDupAppend(VnetNames(init), vs[|vs| - 1].name);
    assert forall i :: 0 <= i < |init| ==> VnetNames(init)[i] in VnetNames(init);
  }

  lemma FourNamesDistinct(four: seq<Ipset>, v: VnetConfig)
    requires DescribeFour(four, v)
    ensures NoDup(SetNames(four))
  {
    forall k, l | SetName(v.name, k) == SetName(v.name, l) ensures k == l {
      assert SetName(v.name, k)[|v.name| + 1..] == Label(k) && SetName(v.name, l)[|v.name| + 1..] == Label(l);
    }
  }

  lemma NewNames(sets: seq<Ipset>, vs: seq<VnetConfig>, four: seq<Ipset>, v: VnetConfig, x: string)
    requires DescribeAll(sets, vs) && DescribeFour(four, v) && x in SetNames(sets)
    requires IsSdnName(v.name) && forall i :: 0 <= i < |vs| ==> IsSdnName(vs[i].name) && vs[i].name != v.name
    ensures x !in SetNames(four)
  {
    var j :| 0 <= j < |sets| && sets[j].name == x;
    DescribedNames(sets, vs, sets[j]);
    var i, k :| 0 <= i < |vs| && x == SetName(vs[i].name, k);
    forall a | 0 <= a < |four| ensures four[a].name != x {
      var l := NameOfFour(four, v, four[a]);
      if four[a].name == x {
        SetNameInjective(vs[i].name, k, v.name, l);
      }
    }
  }

  function NameLists(vss: seq<seq<VnetConfig>>): (ns: seq<seq<VnetName>>)
    ensures |ns| == |vss| && forall i :: 0 <= i < |ns| ==> ns[i] == VnetNames(vss[i])
  {
    seq(|vss|, i requires 0 <= i < |vss| => VnetNames(vss[i]))
  }

  lemma {:induction false} NamesOfFlat(vss: seq<seq<VnetConfig>>)
    ensures VnetNames(Flatten(vss)) == Flatten(NameLists(vss))
  {
    if vss != [] {
      NamesOfFlat(vss[1..]);
      assert NameLists(vss)[1..] == NameLists(vss[1..]);
    }
  }

  lemma ZoneVnetNames(z: ZoneConfig)
    requires ZoneKeyed(z)
    ensures VnetNames(ZoneVnets(z)) == SortedKeys(z.vnets.Keys)
  {
  }

  /** Over all zones, no VNet name comes twice. */
  lemma AllVnetNamesDistinct(zones: Zones)
    requires SdnConfiguration.ZonesOk(zones)
    ensures NoDup(VnetNames(AllVnets(zones)))
  {
    var ids, ns := SortedKeys(zones.Keys), NameLists(VnetLists(zones));
    SortedKeysAscend(zones.Keys);
    NamesOfFlat(VnetLists(zones));
    FlattenNoDup(ns);
    forall i | 0 <= i < |ids| ensures ids[i] in zones && ns[i] == SortedKeys(zones[ids[i]].vnets.Keys) && NoDup(ns[i]) {
      ZoneVnetNames(zones[ids[i]]);
      SortedKeysAscend(zones[ids[i]].vnets.Keys);
    }
    forall i, j | 0 <= i < j < |ids| ensures forall v :: v in ns[i] ==> v !in ns[j] {
      assert forall v :: v in ns[i] ==> v in zones[ids[i]].vnets;
      assert forall v :: v in ns[j] ==> v in zones[ids[j]].vnets;
    }
  }

  lemma {:induction false} AllowedNames(vs: seq<VnetConfig>, filter: Option<set<VnetName>>)
    requires NoDup(VnetNames(vs))
    ensures NoDup(VnetNames(Allowed(vs, filter)))
    ensures forall v :: v in Allowed(vs, filter) ==> v in vs
  {
    if vs != [] {
      var init, v := vs[..|vs| - 1], vs[|vs| - 1];
      LastNameNew(vs);
      AllowedNames(init, filter);
      var kept := Allowed(init, filter);
      forall n | n in VnetNames(kept) ensures n != v.name {
        var i :| 0 <= i < |kept| && kept[i].name == n;
        assert kept[i] in kept;
      }
      NoDupAppend(VnetNames(kept), v.name);
      assert VnetNames(kept + [v]) == VnetNames(kept) + [v.name];
      assert kept + [] == kept;
    }
  }

  lemma FlatVnetsNamed(zones: Zones)
    requires SdnConfiguration.ZonesOk(zones)
    ensures forall v :: v in AllVnets(zones) ==> IsSdnName(v.name)
  {
    forall v | v in AllVnets(zones) ensures IsSdnName(v.name) {
      FlattenMember(VnetLists(zones), v);
    }
  }

  /** No two of the generated sets have the same name. */
  lemma IpsetNamesDistinct(zones: Zones, filter: Option<set<VnetName>>, sets: seq<Ipset>)
    requires SdnConfiguration.ZonesOk(zones) && DescribeAll(sets, Allowed(AllVnets(zones), filter))
    ensures NoDup(SetNames(sets))
  {
    var vs := Allowed(AllVnets(zones), filter);
    AllVnetNamesDistinct(zones);
    AllowedNames(AllVnets(zones), filter);
    FlatVnetsNamed(zones);
    forall i | 0 <= i < |vs| ensures IsSdnName(vs[i].name) {
      assert vs[i] in vs;
    }
    SetNamesDistinct(sets, vs);
  }
}
