/** BGP router sections of an FRR configuration, and merging a fabric's router into
    one that exists already. */
module BgpRouters {
  import opened Wrappers
  import opened Addresses
  import opened FabricModel

  datatype RemoteAs = Internal | External | RemoteAsn(asn: U32)
  datatype LocalAsFlags = NoPrepend | ReplaceAs | DualAs
  datatype LocalAsSettings = LocalAsSettings(asn: U32, mode: Option<LocalAsFlags>)

  datatype NeighborGroup =
    NeighborGroup(name: string, bfd: bool, localAs: Option<LocalAsSettings>, remoteAs: RemoteAs, ips: seq<IpAddr>,
                  interfaces: seq<string>, ebgpMultihop: Option<nat>, updateSource: Option<string>)

  datatype AddressFamilyNeighbor =
    AddressFamilyNeighbor(name: string, softReconfigurationInbound: Option<bool>, routeMapIn: Option<string>,
                          routeMapOut: Option<string>)

  datatype UnicastFamily<Network> =
    UnicastFamily(importVrf: seq<string>, neighbors: seq<AddressFamilyNeighbor>, customFrrConfig: seq<string>,
                  networks: seq<Network>, redistribute: seq<Redistribution>)

  datatype EvpnFamily =
    EvpnFamily(importVrf: seq<string>, neighbors: seq<AddressFamilyNeighbor>, customFrrConfig: seq<string>,
               advertiseAllVni: Option<bool>, autortAs: Option<U32>)

  datatype AddressFamilies =
    AddressFamilies(ipv4Unicast: Option<UnicastFamily<Ipv4Cidr>>, ipv6Unicast: Option<UnicastFamily<Ipv6Cidr>>,
                    l2vpnEvpn: Option<EvpnFamily>)

  /** The contents of a router section. */
  datatype RouterData =
    RouterData(asn: U32, routerId: Ipv4Addr, flags: RouterFlags, defaultIpv4Unicast: Option<bool>,
               neighborGroups: seq<NeighborGroup>, addressFamilies: AddressFamilies, customFrrConfig: seq<string>)

  /** The settings that merging never touches. */
  datatype RouterFlags =
    RouterFlags(coalesceTime: Option<U32>, hardAdministrativeReset: Option<bool>,
                gracefulRestartNotification: Option<bool>,
                disableEbgpConnectedRouteCheck: Option<bool>, bestpathAsPathMultipathRelax: Option<bool>)

  // ----- Specification of merging -----

  /** The lists of both, the first one's in front; a family that only one has is kept. */
  function ExtendUnicast<N>(a: Option<UnicastFamily<N>>, b: Option<UnicastFamily<N>>): Option<UnicastFamily<N>> {
    match (a, b)
    case (Some(x), Some(y)) =>
      Some(UnicastFamily(x.importVrf + y.importVrf, x.neighbors + y.neighbors, x.customFrrConfig + y.customFrrConfig,
                         x.networks + y.networks, x.redistribute + y.redistribute))
    case (None, Some(_)) => b
    case (_, None) => a
  }

  function Extend(a: AddressFamilies, b: AddressFamilies): AddressFamilies {
    AddressFamilies(ExtendUnicast(a.ipv4Unicast, b.ipv4Unicast), ExtendUnicast(a.ipv6Unicast, b.ipv6Unicast),
                    OrElse(a.l2vpnEvpn, b.l2vpnEvpn))
  }

  function Merge(a: RouterData, b: RouterData): RouterData {
    a.(neighborGroups := a.neighborGroups + b.neighborGroups,
       addressFamilies := Extend(a.addressFamilies, b.addressFamilies),
       defaultIpv4Unicast := OrElse(a.defaultIpv4Unicast, b.defaultIpv4Unicast))
  }

  // ----- What a merge leaves behind, list by list -----

  /** The lists of a family, empty if there is none. */
  function Lists<N>(f: Option<UnicastFamily<N>>): UnicastFamily<N> {
    if f.Some? then f.value else UnicastFamily([], [], [], [], [])
  }

  /** Each of the five lists is the old one followed by the incoming one, and nothing but a
      family of the one or the other makes a family. */
  ghost predicate ListsAppended<N>(before: Option<UnicastFamily<N>>, incoming: Option<UnicastFamily<N>>,
                                   after: Option<UnicastFamily<N>>) {
    var a, b, c := Lists(before), Lists(incoming), Lists(after);
    (after.Some? <==> before.Some? || incoming.Some?) &&
    c.importVrf == a.importVrf + b.importVrf &&
    c.neighbors == a.neighbors + b.neighbors &&
    c.customFrrConfig == a.customFrrConfig + b.customFrrConfig &&
    c.networks == a.networks + b.networks &&
    c.redistribute == a.redistribute + b.redistribute
  }

  /** The EVPN family is taken over only where there was none. */
  ghost predicate FamiliesAppended(before: AddressFamilies, incoming: AddressFamilies, after: AddressFamilies) {
    ListsAppended(before.ipv4Unicast, incoming.ipv4Unicast, after.ipv4Unicast) &&
    ListsAppended(before.ipv6Unicast, incoming.ipv6Unicast, after.ipv6Unicast) &&
    (before.l2vpnEvpn.Some? ==> after.l2vpnEvpn == before.l2vpnEvpn) &&
    (before.l2vpnEvpn.None? ==> after.l2vpnEvpn == incoming.l2vpnEvpn)
  }

  /** Groups and families are appended, `default_ipv4_unicast` is taken over only where it was not
      set, and the rest of the incoming router is dropped. */
  ghost predicate Appended(before: RouterData, incoming: RouterData, after: RouterData) {
    after.neighborGroups == before.neighborGroups + incoming.neighborGroups &&
    FamiliesAppended(before.addressFamilies, incoming.addressFamilies, after.addressFamilies) &&
    (before.defaultIpv4Unicast.Some? ==> after.defaultIpv4Unicast == before.defaultIpv4Unicast) &&
    (before.defaultIpv4Unicast.None? ==> after.defaultIpv4Unicast == incoming.defaultIpv4Unicast) &&
    after.asn == before.asn && after.routerId == before.routerId && after.flags == before.flags &&
    after.customFrrConfig == before.customFrrConfig
  }

  lemma ExtendAppends<N>(a: Option<UnicastFamily<N>>, b: Option<UnicastFamily<N>>)
    ensures ListsAppended(a, b, ExtendUnicast(a, b))
  {
  }

  /** Merging does so. */
  lemma MergeAppends(a: RouterData, b: RouterData)
    ensures Appended(a, b, Merge(a, b))
  {
    ExtendAppends(a.addressFamilies.ipv4Unicast, b.addressFamilies.ipv4Unicast);
    ExtendAppends(a.addressFamilies.ipv6Unicast, b.addressFamilies.ipv6Unicast);
  }

  /** And nothing else does: what is left behind is determined list by list. */
  lemma AppendedUnique(a: RouterData, b: RouterData, c: RouterData)
    requires Appended(a, b, c)
    ensures c == Merge(a, b)
  {
    MergeAppends(a, b);
  }

  /** A BGP router section, updated in place. */
  class BgpRouter {
    var asn: U32
    var routerId: Ipv4Addr
    var flags: RouterFlags
    var defaultIpv4Unicast: Option<bool>
    var neighborGroups: seq<NeighborGroup>
    var addressFamilies: AddressFamilies
    var customFrrConfig: seq<string>

    constructor (d: RouterData)
      ensures Data() == d
    {
      asn, routerId, flags := d.asn, d.routerId, d.flags;
      defaultIpv4Unicast, neighborGroups := d.defaultIpv4Unicast, d.neighborGroups;
      addressFamilies, customFrrConfig := d.addressFamilies, d.customFrrConfig;
    }

    ghost function Data(): RouterData
      reads this
    {
      RouterData(asn, routerId, flags, defaultIpv4Unicast, neighborGroups, addressFamilies, customFrrConfig)
    }

    method ExtendFamilies(other: AddressFamilies)
      modifies this`addressFamilies
      ensures addressFamilies == Extend(old(addressFamilies), other)
      ensures FamiliesAppended(old(addressFamilies), other, addressFamilies)
    {
      ExtendAppends(addressFamilies.ipv4Unicast, other.ipv4Unicast);
      ExtendAppends(addressFamilies.ipv6Unicast, other.ipv6Unicast);
      match (addressFamilies.ipv4Unicast, other.ipv4Unicast) {
        case (Some(existing), Some(incoming)) =>
          var family := existing.(neighbors := existing.neighbors + incoming.neighbors);
          family := family.(importVrf := family.importVrf + incoming.importVrf);
          family := family.(customFrrConfig := family.customFrrConfig + incoming.customFrrConfig);
          family := family.(networks := family.networks + incoming.networks);
          family := family.(redistribute := family.redistribute + incoming.redistribute);
          addressFamilies := addressFamilies.(ipv4Unicast := Some(family));
        case (None, Some(incoming)) =>
          addressFamilies := addressFamilies.(ipv4Unicast := Some(incoming));
        case (_, None) =>
      }
      match (addressFamilies.ipv6Unicast, other.ipv6Unicast) {
        case (Some(existing), Some(incoming)) =>
          var family := existing.(neighbors := existing.neighbors + incoming.neighbors);
          family := family.(importVrf := family.importVrf + incoming.importVrf);
          family := family.(customFrrConfig := family.customFrrConfig + incoming.customFrrConfig);
          family := family.(networks := family.networks + incoming.networks);
          family := family.(redistribute := family.redistribute + incoming.redistribute);
          addressFamilies := addressFamilies.(ipv6Unicast := Some(family));
        case (None, Some(incoming)) =>
          addressFamilies := addressFamilies.(ipv6Unicast := Some(incoming));
        case (_, None) =>
      }
      if addressFamilies.l2vpnEvpn.None? {
        addressFamilies := addressFamilies.(l2vpnEvpn := other.l2vpnEvpn);
      }
    }

    method MergeFabric(other: RouterData)
      modifies this
      ensures Data() == Merge(old(Data()), other)
      ensures Appended(old(Data()), other, Data())
    {
      MergeAppends(Data(), other);
      neighborGroups := neighborGroups + other.neighborGroups;
      ExtendFamilies(other.addressFamilies);
      if defaultIpv4Unicast.None? {
        defaultIpv4Unicast := other.defaultIpv4Unicast;
      }
    }
  }

  // ----- Properties of merging -----

  /** Merging several fabrics gives the same router however the merges are grouped. */
  lemma MergeAssociative(a: RouterData, b: RouterData, c: RouterData)
    ensures Merge(Merge(a, b), c) == Merge(a, Merge(b, c))
  {
    ExtendUnicastAssociative(a.addressFamilies.ipv4Unicast, b.addressFamilies.ipv4Unicast,
                             c.addressFamilies.ipv4Unicast);
    ExtendUnicastAssociative(a.addressFamilies.ipv6Unicast, b.addressFamilies.ipv6Unicast,
                             c.addressFamilies.ipv6Unicast);
    assert a.neighborGroups + b.neighborGroups + c.neighborGroups ==
             a.neighborGroups + (b.neighborGroups + c.neighborGroups);
  }

  lemma ExtendUnicastAssociative<N>(a: Option<UnicastFamily<N>>, b: Option<UnicastFamily<N>>,
                                    c: Option<UnicastFamily<N>>)
    ensures ExtendUnicast(ExtendUnicast(a, b), c) == ExtendUnicast(a, ExtendUnicast(b, c))
  {
    if a.Some? && b.Some? && c.Some? {
      var x, y, z := a.value, b.value, c.value;
      assert x.importVrf + y.importVrf + z.importVrf == x.importVrf + (y.importVrf + z.importVrf);
      assert x.neighbors + y.neighbors + z.neighbors == x.neighbors + (y.neighbors + z.neighbors);
      assert x.customFrrConfig + y.customFrrConfig + z.customFrrConfig ==
               x.customFrrConfig + (y.customFrrConfig + z.customFrrConfig);
      assert x.networks + y.networks + z.networks == x.networks + (y.networks + z.networks);
      assert x.redistribute + y.redistribute + z.redistribute == x.redistribute + (y.redistribute + z.redistribute);
    }
  }

  /** `b` extends `a`: whatever a family listed before is still listed first. */
  ghost predicate UnicastExtends<N>(a: Option<UnicastFamily<N>>, b: Option<UnicastFamily<N>>) {
    a.Some? ==>
      b.Some? && a.value.importVrf <= b.value.importVrf && a.value.neighbors <= b.value.neighbors &&
      a.value.customFrrConfig <= b.value.customFrrConfig && a.value.networks <= b.value.networks &&
      a.value.redistribute <= b.value.redistribute
  }

  /** What every merge keeps of the router that existed before. */
  ghost predicate Keeps(a: RouterData, b: RouterData) {
    b.asn == a.asn && b.routerId == a.routerId && b.flags == a.flags && b.customFrrConfig == a.customFrrConfig &&
    (a.defaultIpv4Unicast.Some? ==> b.defaultIpv4Unicast == a.defaultIpv4Unicast) &&
    (a.addressFamilies.l2vpnEvpn.Some? ==> b.addressFamilies.l2vpnEvpn == a.addressFamilies.l2vpnEvpn) &&
    a.neighborGroups <= b.neighborGroups &&
    UnicastExtends(a.addressFamilies.ipv4Unicast, b.addressFamilies.ipv4Unicast) &&
    UnicastExtends(a.addressFamilies.ipv6Unicast, b.addressFamilies.ipv6Unicast)
  }

  lemma MergeKeeps(a: RouterData, b: RouterData)
    ensures Keeps(a, Merge(a, b))
  {
  }

  lemma KeepsTransitive(a: RouterData, b: RouterData, c: RouterData)
    requires Keeps(a, b) && Keeps(b, c)
    ensures Keeps(a, c)
  {
  }

  /** The AS number under which a router talks to the peers of a group. */
  function EffectiveAs(r: RouterData, g: NeighborGroup): U32 {
    if g.localAs.Some? then g.localAs.value.asn else r.asn
  }
}
