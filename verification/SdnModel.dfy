/** Zones, VNets and subnets, and the running configuration they are read from. */
module SdnModel {
  import opened Wrappers
  import opened Addresses
  import opened FabricModel
  import Identifiers

  /** Names of zones and VNets: up to eight alphanumeric characters, the first a letter. */
  predicate IsSdnName(s: string) {
    1 <= |s| <= 8 && ('a' <= s[0] <= 'z' || 'A' <= s[0] <= 'Z') && forall c :: c in s ==> Identifiers.IsAlnum(c)
  }

  // Strings in these roles have the format above.
  type ZoneName = string
  type VnetName = string

  datatype SubnetName = SubnetName(zone: ZoneName, cidr: Cidr)

  datatype ZoneType = Simple | Vlan | Qinq | Vxlan | Evpn

  datatype IpRange = IpRange(start: IpAddr, end: IpAddr)

  function Family(a: IpAddr): int { if a.V4? then 4 else 6 }
  function FamilyOf(c: Cidr): int { if c.Cidr4? then 4 else 6 }
  function AddressValue(a: IpAddr): int { if a.V4? then a.v4 else a.v6 }

  /** A range has one address family and does not run backwards. */
  predicate IsRange(start: IpAddr, end: IpAddr) {
    Family(start) == Family(end) && AddressValue(start) <= AddressValue(end)
  }

  datatype SubnetConfig = SubnetConfig(name: SubnetName, gateway: Option<IpAddr>, snat: bool, dhcpRange: seq<IpRange>)
  datatype VnetConfig = VnetConfig(name: VnetName, tag: Option<U32>, subnets: map<Cidr, SubnetConfig>)
  datatype ZoneConfig = ZoneConfig(name: ZoneName, ty: ZoneType, vnets: map<VnetName, VnetConfig>)

  type Zones = map<ZoneName, ZoneConfig>

  datatype SdnConfigError =
    ZoneNotFound | VnetNotFound | MismatchedCidrGateway | MismatchedSubnetZone | InvalidDhcpRange | DuplicateVnetName

  /** A gateway has the address family of its subnet. */
  predicate GatewayOk(cidr: Cidr, gateway: Option<IpAddr>) {
    gateway.Some? ==> Family(gateway.value) == FamilyOf(cidr)
  }

  function NewSubnet(name: SubnetName, gateway: Option<IpAddr>, snat: bool,
                     dhcpRange: seq<IpRange>): Result<SubnetConfig, SdnConfigError> {
    if GatewayOk(name.cidr, gateway) then Ok(SubnetConfig(name, gateway, snat, dhcpRange))
       else Err(MismatchedCidrGateway)
  }

  // ----- What the constructors of the parts guarantee -----

  ghost predicate SubnetsKeyed(subnets: map<Cidr, SubnetConfig>) {
    forall c :: c in subnets ==> subnets[c].name.cidr == c && GatewayOk(c, subnets[c].gateway)
  }

  ghost predicate VnetKeyed(v: VnetConfig) {
    IsSdnName(v.name) && SubnetsKeyed(v.subnets)
  }

  ghost predicate ZoneKeyed(z: ZoneConfig) {
    IsSdnName(z.name) && forall v :: v in z.vnets ==> z.vnets[v].name == v && VnetKeyed(z.vnets[v])
  }

  // ----- The running configuration -----

  datatype SubnetRunning =
    SubnetRunning(vnet: VnetName, gateway: Option<IpAddr>, snat: Option<nat>, dhcpRange: Option<seq<(IpAddr, IpAddr)>>)

  datatype VnetRunning = VnetRunning(tag: Option<U32>, zone: ZoneName)

  datatype RunningConfig =
    RunningConfig(zones: Option<map<ZoneName, ZoneType>>, vnets: Option<map<VnetName, VnetRunning>>,
                  subnets: Option<map<SubnetName, SubnetRunning>>)
}
