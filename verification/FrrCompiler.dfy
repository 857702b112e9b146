/** Compiling a fabric configuration into the FRR configuration of one node: what each
    fabric contributes, and the method that writes the contributions in place. */
module FrrCompiler {
  import opened Wrappers
  import opened Addresses
  import opened Identifiers
  import opened Collections
  import opened Text
  import opened NetworkEntityTitle
  import opened FabricModel
  import opened FabricRules
  import opened BgpRouters
  import opened FrrModel
  import FabricValidation

  datatype BuildError = NoAddress | MissingIpv4 | InvalidWord | InterfaceNameTooLong | InvalidArea

  // ----- Words and names -----

  predicate IsWhitespace(c: char) { c == ' ' || c == '\t' || c == '\n' || c == '\r' || c as int == 12 }

  /** An FRR word: not empty, ASCII, no whitespace. */
  predicate IsFrrWord(s: string) {
    s != [] && forall c :: c in s ==> c as int < 128 && !IsWhitespace(c)
  }

  predicate FitsInterfaceName(s: string) { |s| <= 15 }

  function DummyName(f: FabricId): string { "dummy_" + f }

  function PrintArea(a: Area): string {
    match a
    case Number(n) => PrintNat(n)
    case IpAddress(ip) => PrintIpv4(ip)
  }

  predicate IsFrrArea(s: string) { ParseUnsigned(s, 0xFFFF_FFFF).Some? || IsIpv4Text(s) }

  // ----- Source route-maps -----

  /** The route-maps that set the source address, per protocol and address family. */
  datatype Kind = Openfabric4 | Openfabric6 | Ospf4 | Bgp4 | Bgp6

  function MapName(k: Kind): string {
    match k
    case Openfabric4 => "pve_openfabric"
    case Openfabric6 => "pve_openfabric6"
    case Ospf4 => "pve_ospf"
    case Bgp4 => "pve_bgp"
    case Bgp6 => "pve_bgp6"
  }

  function AclName(k: Kind, f: FabricId): string {
    match k
    case Openfabric4 => "pve_openfabric_" + f + "_ips"
    case Openfabric6 => "pve_openfabric_" + f + "_ip6s"
    case Ospf4 => "pve_ospf_" + f + "_ips"
    case Bgp4 => "pve_bgp_" + f + "_ips"
    case Bgp6 => "pve_bgp_" + f + "_ip6s"
  }

  /** The map that filters what the peers of a BGP fabric announce. */
  function InboundName(k: Kind, f: FabricId): string {
    if k.Bgp6? then "pve_bgp6_" + f + "_in" else "pve_bgp_" + f + "_in"
  }

  function KindProtocol(k: Kind): FrrProtocol {
    match k
    case Openfabric4 => FrrOpenfabric
    case Openfabric6 => FrrOpenfabric
    case Ospf4 => FrrOspf
    case Bgp4 => FrrBgp
    case Bgp6 => FrrBgp
  }

  predicate IsV6(k: Kind) { k.Openfabric6? || k.Bgp6? }

  predicate IsBgp(k: Kind) { k.Bgp4? || k.Bgp6? }

  function RouteFilter(f: Fabric): Option<string> {
    if f.properties.WireGuardFabric? then None else f.properties.routeFilter
  }

  function FamilyPrefix(f: Fabric, k: Kind): Option<Cidr> {
    if IsV6(k) then (if f.ip6Prefix.Some? then Some(Cidr6(f.ip6Prefix.value)) else None)
    else (if f.ipPrefix.Some? then Some(Cidr4(f.ipPrefix.value)) else None)
  }

  /** The route filter if there is one, otherwise the fabric's own prefix. */
  function Matchers(k: Kind, f: Fabric): seq<RouteMapMatch> {
    var filter := RouteFilter(f);
    if filter.Some? then [if IsV6(k) then Ip6AddressPrefixList(filter.value) else IpAddressPrefixList(filter.value)]
    else if FamilyPrefix(f, k).Some? then
      [if IsV6(k) then Ip6AddressAccessList(AclName(k, f.id)) else IpAddressAccessList(AclName(k, f.id))]
    else []
  }

  /** One entry to be added to the route-map of a kind, on behalf of a fabric. */
  datatype Emission = Emission(kind: Kind, fabric: Fabric, src: IpAddr)

  function SourceEntry(em: Emission, number: U16): RouteMapEntry {
    RouteMapEntry(number, Permit, Matchers(em.kind, em.fabric), [Src(em.src)], None, None, [])
  }

  function InboundEntry(em: Emission): RouteMapEntry {
    var call := if em.fabric.properties.BgpFabric? then em.fabric.properties.routeMapIn else None;
    RouteMapEntry(10, Permit, Matchers(em.kind, em.fabric), [], call, None, [])
  }

  function Entries(m: map<string, seq<RouteMapEntry>>, name: string): seq<RouteMapEntry> {
    if name in m then m[name] else []
  }

  function PushEntry(m: map<string, seq<RouteMapEntry>>, name: string,
                     e: RouteMapEntry): map<string, seq<RouteMapEntry>> {
    m[name := Entries(m, name) + [e]]
  }

  function SetProtocolMap(m: map<FrrProtocol, IpProtocolRouteMap>, k: Kind): map<FrrProtocol, IpProtocolRouteMap> {
    var p := KindProtocol(k);
    var before := if p in m then m[p] else IpProtocolRouteMap(None, None);
    m[p := if IsV6(k) then before.(v6 := Some(MapName(k))) else before.(v4 := Some(MapName(k)))]
  }

  predicate NeedsAcl(em: Emission) {
    RouteFilter(em.fabric).None? && FamilyPrefix(em.fabric, em.kind).Some?
  }

  function AclRule(em: Emission): AccessListRule
    requires NeedsAcl(em)
  {
    AccessListRule(Permit, FamilyPrefix(em.fabric, em.kind).value, IsV6(em.kind), None)
  }

  predicate NeedsInbound(em: Emission) {
    IsBgp(em.kind) && Matchers(em.kind, em.fabric) != []
  }

  function Emit(p: Policy, em: Emission, number: U16): Policy {
    var inbound := if NeedsInbound(em) then PushEntry(p.routemaps, InboundName(em.kind, em.fabric.id), InboundEntry(em))
                   else p.routemaps;
    Policy(PushEntry(inbound, MapName(em.kind), SourceEntry(em, number)),
           if NeedsAcl(em) then p.accessLists[AclName(em.kind, em.fabric.id) := [AclRule(em)]] else p.accessLists,
           SetProtocolMap(p.protocolRoutemaps, em.kind))
  }

  /** The counter is a 16-bit integer that wraps around. */
  function NextNumber(n: U16): U16 { (n + 10) % 0x1_0000 }

  function NumberAfter(n: U16, count: nat): U16
    decreases count
  {
    if count == 0 then n else NumberAfter(NextNumber(n), count - 1)
  }

  function EmitAll(p: Policy, ems: seq<Emission>, number: U16): Policy
    decreases |ems|
  {
    if ems == [] then p else EmitAll(Emit(p, ems[0], number), ems[1..], NextNumber(number))
  }

  /** The entries that the current node gets on behalf of one fabric, in order. */
  function NodeEmissions(f: Fabric, n: Node): seq<Emission> {
    var v4 := if n.ip.Some? then Some(V4(n.ip.value)) else None;
    var v6 := if n.ip6.Some? then Some(V6(n.ip6.value)) else None;
    match n.properties
    case OpenfabricNode(_) =>
      (if v4.Some? then [Emission(Openfabric4, f, v4.value)] else []) +
      (if v6.Some? then [Emission(Openfabric6, f, v6.value)] else [])
    case OspfNode(_) =>
      if v4.Some? then [Emission(Ospf4, f, v4.value)] else []
    case BgpInternal(_, _) =>
      (if v4.Some? then [Emission(Bgp4, f, v4.value)] else []) +
      (if v6.Some? then [Emission(Bgp6, f, v6.value)] else [])
    case _ => []
  }

  function Emissions(e: FabricEntry, node: NodeId): seq<Emission> {
    if node in e.nodes then NodeEmissions(e.fabric, e.nodes[node]) else []
  }

  // ----- Interfaces -----

  function OpenfabricDummy(f: Fabric, n: Node): FrrOpenfabricInterface {
    FrrOpenfabricInterface(f.id, Some(true), None, None, None, n.ip.Some?, n.ip6.Some?)
  }

  function OpenfabricLink(f: Fabric, n: Node, i: OpenfabricInterface): FrrOpenfabricInterface
    requires f.properties.OpenfabricFabric?
  {
    FrrOpenfabricInterface(f.id, None, f.properties.helloInterval, f.properties.csnpInterval, i.helloMultiplier,
                           n.ip.Some?, n.ip6.Some?)
  }

  function OpenfabricBindings(f: Fabric, n: Node): seq<(string, FrrOpenfabricInterface)>
    requires f.properties.OpenfabricFabric? && n.properties.OpenfabricNode?
  {
    var ifs := n.properties.openfabricInterfaces;
    [(DummyName(f.id), OpenfabricDummy(f, n))] +
    seq(|ifs|, i requires 0 <= i < |ifs| => (ifs[i].name, OpenfabricLink(f, n, ifs[i])))
  }

  /** An interface without address and network type is point-to-point. */
  function OspfLink(area: string, i: OspfInterface): FrrOspfInterface {
    FrrOspfInterface(area, None, if i.networkType.None? && i.ip.None? then Some(PointToPoint) else i.networkType)
  }

  function OspfBindings(f: Fabric, n: Node): seq<(string, FrrOspfInterface)>
    requires f.properties.OspfFabric? && n.properties.OspfNode?
  {
    var ifs, area := n.properties.ospfInterfaces, PrintArea(f.properties.area);
    [(DummyName(f.id), FrrOspfInterface(area, Some(true), None))] +
    seq(|ifs|, i requires 0 <= i < |ifs| => (ifs[i].name, OspfLink(area, ifs[i])))
  }

  // ----- One step of the compiler -----

  /** The configuration so far, the running sequence number, and the router-id and NET
      that the first joined fabric fixed. */
  datatype Context = Context(frr: FrrState, number: U16, routerId: Option<Ipv4Addr>, net: Option<Net>)

  const INITIAL_NUMBER: U16 := 100

  function NodeNet(n: Node): Option<Net> {
    if n.ip.Some? then Some(NetFromIpv4(n.ip.value))
    else if n.ip6.Some? then Some(NetFromIpv6(n.ip6.value))
    else None
  }

  predicate NamesFit(names: seq<string>) { forall i :: 0 <= i < |names| ==> FitsInterfaceName(names[i]) }

  function OpenfabricStep(c: Context, f: Fabric, n: Node): Result<Context, BuildError>
    requires f.properties.OpenfabricFabric? && n.properties.OpenfabricNode?
  {
    var net := OrElse(c.net, NodeNet(n));
    if net.None? then Err(NoAddress)
    else if !IsFrrWord(f.id) then Err(InvalidWord)
    else if !NamesFit(Firsts(OpenfabricBindings(f, n))) then Err(InterfaceNameTooLong)
    else
      var ems := NodeEmissions(f, n);
      var frr := c.frr.(openfabricRouters := c.frr.openfabricRouters[f.id := net.value],
                        openfabricInterfaces := InsertAll(c.frr.openfabricInterfaces, OpenfabricBindings(f, n)),
                        policy := EmitAll(c.frr.policy, ems, c.number));
      Ok(Context(frr, NumberAfter(c.number, |ems|), c.routerId, net))
  }

  function OspfStep(c: Context, f: Fabric, n: Node): Result<Context, BuildError>
    requires f.properties.OspfFabric? && n.properties.OspfNode?
  {
    var area := PrintArea(f.properties.area);
    if n.ip.None? then Err(MissingIpv4)
    else if !IsFrrWord(area) then Err(InvalidWord)
    else if !IsFrrArea(area) then Err(InvalidArea)
    else if !NamesFit(Firsts(OspfBindings(f, n))) then Err(InterfaceNameTooLong)
    else
      var ems, routerId := NodeEmissions(f, n), OrElse(c.routerId, n.ip);
      var frr := c.frr.(ospfRouter := OrElse(c.frr.ospfRouter,
                                             Some(OspfRouter(routerId.value, f.properties.redistribute))),
                        ospfInterfaces := InsertAll(c.frr.ospfInterfaces, OspfBindings(f, n)),
                        policy := EmitAll(c.frr.policy, ems, c.number));
      Ok(Context(frr, NumberAfter(c.number, |ems|), routerId, c.net))
  }

  /** Peers see the node's own AS number even when the router runs under another one. */
  function LocalAs(vrfs: map<VrfName, RouterData>, asn: U32): Option<LocalAsSettings> {
    if Default in vrfs && vrfs[Default].asn != asn then Some(LocalAsSettings(asn, Some(ReplaceAs))) else None
  }

  function FabricGroup(vrfs: map<VrfName, RouterData>, f: Fabric, n: Node): NeighborGroup
    requires f.properties.BgpFabric? && n.properties.BgpInternal?
  {
    NeighborGroup(f.id, f.properties.bfd, LocalAs(vrfs, n.properties.asn), External, [], n.properties.bgpInterfaces,
                  None, None)
  }

  function FabricFamily<N>(k: Kind, f: Fabric, network: N): UnicastFamily<N>
    requires f.properties.BgpFabric?
  {
    var inbound := if Matchers(k, f) != [] then Some(InboundName(k, f.id)) else None;
    UnicastFamily([], [AddressFamilyNeighbor(f.id, Some(true), inbound, f.properties.routeMapOut)], [], [network],
                  f.properties.redistribute)
  }

  function FabricRouter(vrfs: map<VrfName, RouterData>, f: Fabric, n: Node, routerId: Ipv4Addr): RouterData
    requires f.properties.BgpFabric? && n.properties.BgpInternal?
  {
    RouterData(n.properties.asn, routerId, RouterFlags(None, None, None, None, None), Some(false),
               [FabricGroup(vrfs, f, n)],
               AddressFamilies(if n.ip.Some? then Some(FabricFamily(Bgp4, f, Ipv4Cidr(n.ip.value, 32))) else None,
                               if n.ip6.Some? then Some(FabricFamily(Bgp6, f, Ipv6Cidr(n.ip6.value, 128))) else None,
                               None),
               [])
  }

  function AddRouter(vrfs: map<VrfName, RouterData>, r: RouterData): map<VrfName, RouterData> {
    vrfs[Default := if Default in vrfs then Merge(vrfs[Default], r) else r]
  }

  function BgpStep(c: Context, f: Fabric, n: Node): Result<Context, BuildError>
    requires f.properties.BgpFabric? && n.properties.BgpInternal?
  {
    if !NamesFit(n.properties.bgpInterfaces) then Err(InterfaceNameTooLong)
    else if !IsFrrWord(f.id) then Err(InvalidWord)
    else if BgpRouterId(n).None? then Err(NoAddress)
    else
      var ems := NodeEmissions(f, n);
      var router := FabricRouter(c.frr.vrfRouters, f, n, BgpRouterId(n).value);
      var frr := c.frr.(vrfRouters := AddRouter(c.frr.vrfRouters, router),
                        policy := EmitAll(c.frr.policy, ems, c.number));
      Ok(Context(frr, NumberAfter(c.number, |ems|), c.routerId, c.net))
  }

  function Step(c: Context, e: FabricEntry, node: NodeId): Result<Context, BuildError> {
    if node !in e.nodes then Ok(c)
    else
      var f, n := e.fabric, e.nodes[node];
      if f.properties.OpenfabricFabric? && n.properties.OpenfabricNode? then OpenfabricStep(c, f, n)
      else if f.properties.OspfFabric? && n.properties.OspfNode? then OspfStep(c, f, n)
      else if f.properties.BgpFabric? && n.properties.BgpInternal? then BgpStep(c, f, n)
      else Ok(c)
  }

  function Run(c: Context, es: seq<FabricEntry>, node: NodeId): Result<Context, BuildError>
    decreases |es|
  {
    if es == [] then Ok(c)
    else match Step(c, es[0], node)
      case Err(err) => Err(err)
      case Ok(c') => Run(c', es[1..], node)
  }

  /** Routes that no BGP fabric claims reach the kernel unchanged. */
  const PERMIT_REST := RouteMapEntry(65535, Permit, [], [], None, None, [])

  function Finish(m: map<string, seq<RouteMapEntry>>, k: Kind): map<string, seq<RouteMapEntry>> {
    if MapName(k) in m then PushEntry(m, MapName(k), PERMIT_REST) else m
  }

  function FinishState(s: FrrState): FrrState {
    s.(policy := s.policy.(routemaps := Finish(Finish(s.policy.routemaps, Bgp4), Bgp6)))
  }

  /** The whole compilation: the final configuration, or the first error. */
  function Build(s: FrrState, es: seq<FabricEntry>, node: NodeId): Result<FrrState, BuildError> {
    match Run(Context(s, INITIAL_NUMBER, None, None), es, node)
    case Err(err) => Err(err)
    case Ok(c) => Ok(FinishState(c.frr))
  }

  // ----- The compiler, writing in place -----

  /** Adds the entry of one emission, with its access list and inbound filter. */
  method EmitSource(frr: FrrConfig, em: Emission, number: U16) returns (number': U16)
    modifies frr`routemaps, frr`accessLists, frr`protocolRoutemaps
    ensures frr.RoutePolicy() == Emit(old(frr.RoutePolicy()), em, number)
    ensures number' == NextNumber(number)
  {
    var matchers := [];
    var filter := RouteFilter(em.fabric);
    if filter.Some? {
      matchers := [if IsV6(em.kind) then Ip6AddressPrefixList(filter.value) else IpAddressPrefixList(filter.value)];
    } else {
      var prefix := FamilyPrefix(em.fabric, em.kind);
      if prefix.Some? {
        var name := AclName(em.kind, em.fabric.id);
        frr.accessLists := frr.accessLists[name := [AccessListRule(Permit, prefix.value, IsV6(em.kind), None)]];
        matchers := [if IsV6(em.kind) then Ip6AddressAccessList(name) else IpAddressAccessList(name)];
      }
    }
    if IsBgp(em.kind) && matchers != [] {
      frr.routemaps := PushEntry(frr.routemaps, InboundName(em.kind, em.fabric.id), InboundEntry(em));
    }
    frr.routemaps := PushEntry(frr.routemaps, MapName(em.kind),
                               RouteMapEntry(number, Permit, matchers, [Src(em.src)], None, None, []));
    frr.protocolRoutemaps := SetProtocolMap(frr.protocolRoutemaps, em.kind);
    number' := (number + 10) % 0x1_0000;
  }

  /** Adds the entries of one node, IPv4 before IPv6. */
  method EmitNode(frr: FrrConfig, f: Fabric, n: Node, number: U16) returns (number': U16)
    modifies frr`routemaps, frr`accessLists, frr`protocolRoutemaps
    ensures frr.RoutePolicy() == EmitAll(old(frr.RoutePolicy()), NodeEmissions(f, n), number)
    ensures number' == NumberAfter(number, |NodeEmissions(f, n)|)
  {
    var ems := NodeEmissions(f, n);
    number' := number;
    for i := 0 to |ems|
      invariant EmitAll(frr.RoutePolicy(), ems[i..], number') == EmitAll(old(frr.RoutePolicy()), ems, number)
      invariant NumberAfter(number', |ems| - i) == NumberAfter(number, |ems|)
    {
      assert ems[i..][0] == ems[i] && ems[i..][1..] == ems[i + 1..];
      number' := EmitSource(frr, ems[i], number');
    }
  }

  method InstallOpenfabricInterfaces(frr: FrrConfig, bindings: seq<(string, FrrOpenfabricInterface)>)
    returns (fits: bool)
    modifies frr`openfabricInterfaces
    ensures fits <==> NamesFit(Firsts(bindings))
    ensures fits ==> frr.openfabricInterfaces == InsertAll(old(frr.openfabricInterfaces), bindings)
  {
    for i := 0 to |bindings|
      invariant NamesFit(Firsts(bindings)[..i])
      invariant InsertAll(frr.openfabricInterfaces, bindings[i..]) == InsertAll(old(frr.openfabricInterfaces), bindings)
    {
      if !FitsInterfaceName(bindings[i].0) {
        assert Firsts(bindings)[i] == bindings[i].0;
        return false;
      }
      assert bindings[i..][0] == bindings[i] && bindings[i..][1..] == bindings[i + 1..];
      frr.openfabricInterfaces := frr.openfabricInterfaces[bindings[i].0 := bindings[i].1];
    }
    assert Firsts(bindings)[..|bindings|] == Firsts(bindings);
    return true;
  }

  method InstallOspfInterfaces(frr: FrrConfig, bindings: seq<(string, FrrOspfInterface)>) returns (fits: bool)
    modifies frr`ospfInterfaces
    ensures fits <==> NamesFit(Firsts(bindings))
    ensures fits ==> frr.ospfInterfaces == InsertAll(old(frr.ospfInterfaces), bindings)
  {
    for i := 0 to |bindings|
      invariant NamesFit(Firsts(bindings)[..i])
      invariant InsertAll(frr.ospfInterfaces, bindings[i..]) == InsertAll(old(frr.ospfInterfaces), bindings)
    {
      if !FitsInterfaceName(bindings[i].0) {
        assert Firsts(bindings)[i] == bindings[i].0;
        return false;
      }
      assert bindings[i..][0] == bindings[i] && bindings[i..][1..] == bindings[i + 1..];
      frr.ospfInterfaces := frr.ospfInterfaces[bindings[i].0 := bindings[i].1];
    }
    assert Firsts(bindings)[..|bindings|] == Firsts(bindings);
    return true;
  }

  method WriteOpenfabric(frr: FrrConfig, f: Fabric, n: Node, number: U16, net: Option<Net>,
                         ghost routerId: Option<Ipv4Addr>)
    returns (r: Outcome<BuildError>, number': U16, net': Option<Net>)
    requires f.properties.OpenfabricFabric? && n.properties.OpenfabricNode?
    modifies frr`openfabricRouters, frr`openfabricInterfaces, frr`routemaps, frr`accessLists, frr`protocolRoutemaps
    ensures match OpenfabricStep(Context(old(frr.State()), number, routerId, net), f, n)
            case Err(err) => r == Fail(err)
            case Ok(c) => r == Pass && frr.openfabricRouters == c.frr.openfabricRouters &&
                          frr.openfabricInterfaces == c.frr.openfabricInterfaces && frr.RoutePolicy() == c.frr.policy &&
                          number' == c.number && net' == c.net
  {
    number', net' := number, net;
    if net'.None? {
      net' := if n.ip.Some? then Some(NetFromIpv4(n.ip.value)) else if n.ip6.Some? then Some(NetFromIpv6(n.ip6.value))
              else None;
    }
    if net'.None? {
      return Fail(NoAddress), number', net';
    }
    if !IsFrrWord(f.id) {
      return Fail(InvalidWord), number', net';
    }
    frr.openfabricRouters := frr.openfabricRouters[f.id := net'.value];
    var fits := InstallOpenfabricInterfaces(frr, OpenfabricBindings(f, n));
    if !fits {
      return Fail(InterfaceNameTooLong), number', net';
    }
    number' := EmitNode(frr, f, n, number);
    r := Pass;
  }

  method WriteOspf(frr: FrrConfig, f: Fabric, n: Node, number: U16, routerId: Option<Ipv4Addr>, ghost net: Option<Net>)
    returns (r: Outcome<BuildError>, number': U16, routerId': Option<Ipv4Addr>)
    requires f.properties.OspfFabric? && n.properties.OspfNode?
    modifies frr`ospfRouter, frr`ospfInterfaces, frr`routemaps, frr`accessLists, frr`protocolRoutemaps
    ensures match OspfStep(Context(old(frr.State()), number, routerId, net), f, n)
            case Err(err) => r == Fail(err)
            case Ok(c) => r == Pass && frr.ospfRouter == c.frr.ospfRouter &&
                          frr.ospfInterfaces == c.frr.ospfInterfaces &&
                          frr.RoutePolicy() == c.frr.policy && number' == c.number && routerId' == c.routerId
  {
    number', routerId' := number, routerId;
    if n.ip.None? {
      return Fail(MissingIpv4), number', routerId';
    }
    if routerId'.None? {
      routerId' := n.ip;
    }
    var area := PrintArea(f.properties.area);
    if !IsFrrWord(area) {
      return Fail(InvalidWord), number', routerId';
    }
    if !IsFrrArea(area) {
      return Fail(InvalidArea), number', routerId';
    }
    if frr.ospfRouter.None? {
      frr.ospfRouter := Some(OspfRouter(routerId'.value, f.properties.redistribute));
    }
    var fits := InstallOspfInterfaces(frr, OspfBindings(f, n));
    if !fits {
      return Fail(InterfaceNameTooLong), number', routerId';
    }
    number' := EmitNode(frr, f, n, number);
    r := Pass;
  }

  /** Merges a fabric's router into the default VRF's, or makes it the default VRF's. */
  method InstallRouter(frr: FrrConfig, router: RouterData)
    requires frr.Valid()
    modifies frr`vrfRouters, frr.vrfRouters.Values
    ensures frr.Valid() && (forall b :: b in frr.vrfRouters.Values ==> b in old(frr.vrfRouters.Values) || fresh(b))
    ensures frr.RouterContents() == AddRouter(old(frr.RouterContents()), router)
  {
    if Default in frr.vrfRouters {
      var existing := frr.vrfRouters[Default];
      assert existing in frr.vrfRouters.Values;
      existing.MergeFabric(router);
      assert forall v :: v in frr.vrfRouters && v != Default ==> frr.vrfRouters[v] != existing;
    } else {
      var b := new BgpRouter(router);
      assert forall v :: v in frr.vrfRouters ==> frr.vrfRouters[v] in frr.vrfRouters.Values;
      frr.vrfRouters := frr.vrfRouters[Default := b];
    }
  }

  /** The router section that a BGP fabric asks for. */
  method PrepareRouter(frr: FrrConfig, f: Fabric, n: Node) returns (r: Result<RouterData, BuildError>)
    requires frr.Valid() && f.properties.BgpFabric? && n.properties.BgpInternal?
    ensures r == if !NamesFit(n.properties.bgpInterfaces) then Err(InterfaceNameTooLong)
                 else if !IsFrrWord(f.id) then Err(InvalidWord)
                 else if BgpRouterId(n).None? then Err(NoAddress)
                 else Ok(FabricRouter(frr.RouterContents(), f, n, BgpRouterId(n).value))
  {
    var names := n.properties.bgpInterfaces;
    for i := 0 to |names|
      invariant NamesFit(names[..i])
    {
      if !FitsInterfaceName(names[i]) {
        return Err(InterfaceNameTooLong);
      }
    }
    assert names[..|names|] == names;
    if !IsFrrWord(f.id) {
      return Err(InvalidWord);
    }
    var localAs := None;
    if Default in frr.vrfRouters && frr.vrfRouters[Default].asn != n.properties.asn {
      localAs := Some(LocalAsSettings(n.properties.asn, Some(ReplaceAs)));
    }
    var group := NeighborGroup(f.id, f.properties.bfd, localAs, External, [], names, None, None);
    var id := FabricValidation.ResolveRouterId(n);
    if id.None? {
      return Err(NoAddress);
    }
    var families := AddressFamilies(None, None, None);
    if n.ip.Some? {
      families := families.(ipv4Unicast := Some(FabricFamily(Bgp4, f, Ipv4Cidr(n.ip.value, 32))));
    }
    if n.ip6.Some? {
      families := families.(ipv6Unicast := Some(FabricFamily(Bgp6, f, Ipv6Cidr(n.ip6.value, 128))));
    }
    return Ok(RouterData(n.properties.asn, id.value, RouterFlags(None, None, None, None, None), Some(false), [group],
                         families, []));
  }

  method EmitAndInstall(frr: FrrConfig, f: Fabric, n: Node, number: U16, router: RouterData) returns (number': U16)
    requires frr.Valid()
    modifies frr`vrfRouters, frr`routemaps, frr`accessLists, frr`protocolRoutemaps, frr.vrfRouters.Values
    ensures frr.Valid() && (forall b :: b in frr.vrfRouters.Values ==> b in old(frr.vrfRouters.Values) || fresh(b))
    ensures frr.RouterContents() == AddRouter(old(frr.RouterContents()), router)
    ensures frr.RoutePolicy() == EmitAll(old(frr.RoutePolicy()), NodeEmissions(f, n), number)
    ensures number' == NumberAfter(number, |NodeEmissions(f, n)|)
  {
    number' := EmitNode(frr, f, n, number);
    assert frr.RouterContents() == old(frr.RouterContents());
    InstallRouter(frr, router);
  }

  method WriteBgp(frr: FrrConfig, f: Fabric, n: Node, number: U16, ghost routerId: Option<Ipv4Addr>,
                  ghost net: Option<Net>)
    returns (r: Outcome<BuildError>, number': U16)
    requires frr.Valid() && f.properties.BgpFabric? && n.properties.BgpInternal?
    modifies frr`vrfRouters, frr`routemaps, frr`accessLists, frr`protocolRoutemaps, frr.vrfRouters.Values
    ensures frr.Valid() && (forall b :: b in frr.vrfRouters.Values ==> b in old(frr.vrfRouters.Values) || fresh(b))
    ensures match BgpStep(Context(old(frr.State()), number, routerId, net), f, n)
            case Err(err) => r == Fail(err)
            case Ok(c) => r == Pass && frr.RouterContents() == c.frr.vrfRouters && frr.RoutePolicy() == c.frr.policy &&
                          number' == c.number
  {
    number' := number;
    var router := PrepareRouter(frr, f, n);
    if router.Err? {
      return Fail(router.error), number';
    }
    number' := EmitAndInstall(frr, f, n, number, router.value);
    r := Pass;
  }

  method BuildOpenfabric(frr: FrrConfig, f: Fabric, n: Node, number: U16, net: Option<Net>,
                         ghost routerId: Option<Ipv4Addr>)
    returns (r: Outcome<BuildError>, number': U16, net': Option<Net>)
    requires f.properties.OpenfabricFabric? && n.properties.OpenfabricNode?
    modifies frr`openfabricRouters, frr`openfabricInterfaces, frr`routemaps, frr`accessLists, frr`protocolRoutemaps
    ensures match OpenfabricStep(Context(old(frr.State()), number, routerId, net), f, n)
            case Err(err) => r == Fail(err)
            case Ok(c) => r == Pass && Context(frr.State(), number', routerId, net') == c
  {
    ghost var before := frr.State();
    r, number', net' := WriteOpenfabric(frr, f, n, number, net, routerId);
    assert frr.State() == before.(openfabricRouters := frr.openfabricRouters,
                                  openfabricInterfaces := frr.openfabricInterfaces,
                                  policy := frr.RoutePolicy());
  }

  method BuildOspf(frr: FrrConfig, f: Fabric, n: Node, number: U16, routerId: Option<Ipv4Addr>, ghost net: Option<Net>)
    returns (r: Outcome<BuildError>, number': U16, routerId': Option<Ipv4Addr>)
    requires f.properties.OspfFabric? && n.properties.OspfNode?
    modifies frr`ospfRouter, frr`ospfInterfaces, frr`routemaps, frr`accessLists, frr`protocolRoutemaps
    ensures match OspfStep(Context(old(frr.State()), number, routerId, net), f, n)
            case Err(err) => r == Fail(err)
            case Ok(c) => r == Pass && Context(frr.State(), number', routerId', net) == c
  {
    r, number', routerId' := WriteOspf(frr, f, n, number, routerId, net);
    assert frr.RouterContents() == old(frr.RouterContents());
  }

  method BuildBgp(frr: FrrConfig, f: Fabric, n: Node, number: U16, ghost routerId: Option<Ipv4Addr>,
                  ghost net: Option<Net>)
    returns (r: Outcome<BuildError>, number': U16)
    requires frr.Valid() && f.properties.BgpFabric? && n.properties.BgpInternal?
    modifies frr`vrfRouters, frr`routemaps, frr`accessLists, frr`protocolRoutemaps, frr.vrfRouters.Values
    ensures frr.Valid() && (forall b :: b in frr.vrfRouters.Values ==> b in old(frr.vrfRouters.Values) || fresh(b))
    ensures match BgpStep(Context(old(frr.State()), number, routerId, net), f, n)
            case Err(err) => r == Fail(err)
            case Ok(c) => r == Pass && Context(frr.State(), number', routerId, net) == c
  {
    r, number' := WriteBgp(frr, f, n, number, routerId, net);
  }

  /** One fabric's contribution. */
  method BuildEntry(frr: FrrConfig, e: FabricEntry, node: NodeId, number: U16, routerId: Option<Ipv4Addr>,
                    net: Option<Net>)
    returns (r: Outcome<BuildError>, number': U16, routerId': Option<Ipv4Addr>, net': Option<Net>)
    requires frr.Valid() && EntryWellFormed(e)
    modifies frr, frr.vrfRouters.Values
    ensures frr.Valid() && (forall b :: b in frr.vrfRouters.Values ==> b in old(frr.vrfRouters.Values) || fresh(b))
    ensures match Step(Context(old(frr.State()), number, routerId, net), e, node)
            case Err(err) => r == Fail(err)
            case Ok(c) => r == Pass && Context(frr.State(), number', routerId', net') == c
  {
    r, number', routerId', net' := Pass, number, routerId, net;
    if node in e.nodes {
      var f, n := e.fabric, e.nodes[node];
      assert NodeProtocol(n) == FabricProtocol(f);
      if n.properties.OpenfabricNode? {
        r, number', net' := BuildOpenfabric(frr, f, n, number, net, routerId);
      } else if n.properties.OspfNode? {
        r, number', routerId' := BuildOspf(frr, f, n, number, routerId, net);
      } else if n.properties.BgpInternal? {
        r, number' := BuildBgp(frr, f, n, number, routerId, net);
      }
    }
  }

  /** Writes the configuration of one node; afterwards it is what `Build` says. */
  method BuildFabric(frr: FrrConfig, node: NodeId, es: seq<FabricEntry>) returns (r: Outcome<BuildError>)
    requires frr.Valid()
    requires forall i :: 0 <= i < |es| ==> EntryWellFormed(es[i])
    modifies frr, frr.vrfRouters.Values
    ensures match Build(old(frr.State()), es, node)
            case Err(err) => r == Fail(err)
            case Ok(s) => r == Pass && frr.State() == s
  {
    var number: U16, routerId: Option<Ipv4Addr>, net: Option<Net> := 100, None, None;
    ghost var start := Context(frr.State(), number, routerId, net);
    for i := 0 to |es|
      invariant frr.Valid() && forall b :: b in frr.vrfRouters.Values ==> b in old(frr.vrfRouters.Values) || fresh(b)
      invariant Run(Context(frr.State(), number, routerId, net), es[i..], node) == Run(start, es, node)
    {
      assert es[i..][0] == es[i] && es[i..][1..] == es[i + 1..];
      r, number, routerId, net := BuildEntry(frr, es[i], node, number, routerId, net);
      if r.Fail? {
        return;
      }
    }
    label Folded:
    FinishMap(frr, Bgp4);
    FinishMap(frr, Bgp6);
    assert frr.RouterContents() == old@Folded(frr.RouterContents());
    r := Pass;
  }

  method FinishMap(frr: FrrConfig, k: Kind)
    modifies frr`routemaps
    ensures frr.routemaps == Finish(old(frr.routemaps), k)
  {
    if MapName(k) in frr.routemaps {
      frr.routemaps := frr.routemaps[MapName(k) := frr.routemaps[MapName(k)] + [PERMIT_REST]];
    }
  }
}
