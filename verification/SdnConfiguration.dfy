/** The SDN configuration: edits that keep VNet names unique and subnets in their zones, even
    when they fail halfway, and its construction from the running configuration. */
module SdnConfiguration {
  import opened Wrappers
  import opened Addresses
  import opened Collections
  import opened SdnModel

  // ----- Invariants -----

  ghost predicate AllKeyed(zones: Zones) {
    forall z :: z in zones ==> zones[z].name == z && ZoneKeyed(zones[z])
  }

  /** A VNet name occurs in one zone at most. */
  ghost predicate VnetsUnique(zones: Zones) {
    forall y, z, v :: y in zones && z in zones && v in zones[y].vnets && v in zones[z].vnets ==> y == z
  }

  /** Every subnet of the VNet names the zone. */
  ghost predicate SubnetsIn(z: ZoneName, v: VnetConfig) {
    forall c :: c in v.subnets ==> v.subnets[c].name.zone == z
  }

  ghost predicate SubnetsInZone(zones: Zones) {
    forall z, v :: z in zones && v in zones[z].vnets ==> SubnetsIn(z, zones[z].vnets[v])
  }

  ghost predicate ZonesOk(zones: Zones) {
    AllKeyed(zones) && VnetsUnique(zones) && SubnetsInZone(zones)
  }

  // ----- Edits on values -----

  function WithVnet(zones: Zones, z: ZoneName, v: VnetConfig): Zones
    requires z in zones
  {
    zones[z := zones[z].(vnets := zones[z].vnets[v.name := v])]
  }

  function WithSubnet(zones: Zones, z: ZoneName, v: VnetName, s: SubnetConfig): Zones
    requires z in zones && v in zones[z].vnets
  {
    var vnet := zones[z].vnets[v];
    zones[z := zones[z].(vnets := zones[z].vnets[v := vnet.(subnets := vnet.subnets[s.name.cidr := s])])]
  }

  function VnetAt(zones: Zones, z: ZoneName, v: VnetName): Option<VnetConfig> {
    if z in zones && v in zones[z].vnets then Some(zones[z].vnets[v]) else None
  }

  ghost predicate Elsewhere(zones: Zones, z: ZoneName, v: VnetName) {
    exists y :: y in zones && y != z && v in zones[y].vnets
  }

  lemma WithVnetOk(zones: Zones, z: ZoneName, v: VnetConfig)
    requires ZonesOk(zones) && z in zones && VnetKeyed(v) && SubnetsIn(z, v) && !Elsewhere(zones, z, v.name)
    ensures ZonesOk(WithVnet(zones, z, v))
  {
    var zones' := WithVnet(zones, z, v);
    assert AllKeyed(zones');
    forall x, y, w | x in zones' && y in zones' && w in zones'[x].vnets && w in zones'[y].vnets ensures x == y {
      assert w != v.name ==> w in zones[x].vnets && w in zones[y].vnets;
    }
    forall x, w | x in zones' && w in zones'[x].vnets ensures SubnetsIn(x, zones'[x].vnets[w]) {
      assert x != z || w != v.name ==> zones'[x].vnets[w] == zones[x].vnets[w];
    }
  }

  lemma WithSubnetOk(zones: Zones, z: ZoneName, v: VnetName, s: SubnetConfig)
    requires ZonesOk(zones) && z in zones && v in zones[z].vnets && s.name.zone == z &&
             GatewayOk(s.name.cidr, s.gateway)
    ensures ZonesOk(WithSubnet(zones, z, v, s))
  {
    var vnet := zones[z].vnets[v];
    WithVnetOk(zones, z, vnet.(subnets := vnet.subnets[s.name.cidr := s]));
  }

  class SdnConfig {
    var zones: Zones

    ghost predicate Valid()
      reads this
    {
      ZonesOk(zones)
    }

    constructor ()
      ensures Valid() && zones == map[]
    {
      zones := map[];
    }

    method AddSubnet(z: ZoneName, v: VnetName, s: SubnetConfig)
      returns (r: Result<Option<SubnetConfig>, SdnConfigError>)
      requires Valid() && GatewayOk(s.name.cidr, s.gateway)
      modifies this
      ensures Valid()
      ensures r.Ok? <==> s.name.zone == z && z in old(zones) && v in old(zones)[z].vnets
      ensures r.Ok? ==> zones == WithSubnet(old(zones), z, v, s)
      ensures r.Ok? ==> r.value == SubnetIn(old(zones), z, v, s.name.cidr)
      ensures r.Err? ==> zones == old(zones)
      ensures r.Err? ==> r.error == if s.name.zone != z then MismatchedSubnetZone else if z in zones then VnetNotFound
                         else ZoneNotFound
    {
      if z != s.name.zone {
        return Err(MismatchedSubnetZone);
      }
      if z in zones {
        var zone := zones[z];
        if v in zone.vnets {
          WithSubnetOk(zones, z, v, s);
          var vnet := zone.vnets[v];
          var prior := if s.name.cidr in vnet.subnets then Some(vnet.subnets[s.name.cidr]) else None;
          zones := zones[z := zone.(vnets := zone.vnets[v := vnet.(subnets := vnet.subnets[s.name.cidr := s])])];
          return Ok(prior);
        }
        return Err(VnetNotFound);
      }
      return Err(ZoneNotFound);
    }

    /** Fails if another zone has a VNet of this name. */
    method CheckElsewhere(z: ZoneName, v: VnetName) returns (found: bool)
      requires Valid()
      ensures found <==> Elsewhere(zones, z, v)
    {
      var ids := SortedKeys(zones.Keys);
      for i := 0 to |ids|
        invariant forall j :: 0 <= j < i ==> ids[j] == z || v !in zones[ids[j]].vnets
      {
        assert ids[i] in ids;
        if zones[ids[i]].name != z && v in zones[ids[i]].vnets {
          return true;
        }
      }
      found := false;
    }

    /** Inserts the VNet without its subnets, then the subnets one by one. A subnet of another
        zone stops it halfway. */
    method AddVnet(z: ZoneName, vnet: VnetConfig) returns (r: Result<Option<VnetConfig>, SdnConfigError>)
      requires Valid() && VnetKeyed(vnet)
      modifies this
      ensures Valid()
      ensures r.Ok? <==> z in old(zones) && !Elsewhere(old(zones), z, vnet.name) && SubnetsIn(z, vnet)
      ensures r.Ok? ==> zones == WithVnet(old(zones), z, vnet)
      ensures r.Ok? ==> r.value == VnetAt(old(zones), z, vnet.name)
      ensures r.Err? ==> r.error == if Elsewhere(old(zones), z, vnet.name) then DuplicateVnetName
                                    else if z !in old(zones) then ZoneNotFound else MismatchedSubnetZone
      ensures r.Err? ==> if r.error == MismatchedSubnetZone then VnetCutShort(old(zones), z, vnet, zones)
                         else zones == old(zones)
      ensures OnlyZone(old(zones), z, zones)
    {
      var found := CheckElsewhere(z, vnet.name);
      if found {
        return Err(DuplicateVnetName);
      }
      if z !in zones {
        return Err(ZoneNotFound);
      }
      var zone := zones[z];
      var prior := VnetAt(zones, z, vnet.name);
      var bare := vnet.(subnets := map[]);
      assert bare == Lacking(vnet, vnet.subnets.Keys);
      WithVnetOk(zones, z, bare);
      zones := zones[z := zone.(vnets := zone.vnets[vnet.name := bare])];
      var added := AddSubnets(z, vnet, old(zones));
      r := if added.Fail? then Err(added.error) else Ok(prior);
    }

    method AddSubnets(z: ZoneName, vnet: VnetConfig, ghost before: Zones) returns (r: Outcome<SdnConfigError>)
      requires Valid() && VnetKeyed(vnet) && z in before &&
               zones == WithVnet(before, z, Lacking(vnet, vnet.subnets.Keys))
      modifies this
      ensures Valid()
      ensures r.Pass? <==> SubnetsIn(z, vnet)
      ensures r.Pass? ==> zones == WithVnet(before, z, vnet)
      ensures r.Fail? ==> r.error == MismatchedSubnetZone && VnetCutShort(before, z, vnet, zones)
    {
      var todo := vnet.subnets.Keys;
      while todo != {}
        invariant Valid() && todo <= vnet.subnets.Keys && zones == WithVnet(before, z, Lacking(vnet, todo))
        invariant forall c :: c in vnet.subnets && c !in todo ==> vnet.subnets[c].name.zone == z
        decreases |todo|
      {
        var c :| c in todo;
        LackingOneLess(before, z, vnet, todo, c);
        var added := AddSubnet(z, vnet.name, vnet.subnets[c]);
        if added.Err? {
          CutShort(before, z, vnet, todo);
          return Fail(MismatchedSubnetZone);
        }
        todo := todo - {c};
      }
      assert Lacking(vnet, {}) == vnet;
      r := Pass;
    }

    /** Inserts the zone without its VNets, then the VNets one by one. A VNet that another zone
        has, or a subnet of another zone, stops it halfway. */
    method AddZone(zone: ZoneConfig) returns (r: Result<Option<ZoneConfig>, SdnConfigError>)
      requires Valid() && ZoneKeyed(zone)
      modifies this
      ensures Valid()
      ensures r.Ok? <==> ZoneAddable(old(zones), zone)
      ensures r.Ok? ==> zones == old(zones)[zone.name := zone]
      ensures r.Ok? ==> r.value == if zone.name in old(zones) then Some(old(zones)[zone.name]) else None
      ensures r.Err? ==> r.error == DuplicateVnetName || r.error == MismatchedSubnetZone
      ensures zone.name in zones && OnlyZone(old(zones)[zone.name := zone], zone.name, zones)
    {
      var prior := if zone.name in zones then Some(zones[zone.name]) else None;
      WithZoneOk(zones, zone.(vnets := map[]));
      zones := zones[zone.name := zone.(vnets := map[])];
      assert zone.(vnets := map[]) == Missing(zone, zone.vnets.Keys);
      var added := AddVnets(zone, old(zones));
      r := if added.Fail? then Err(added.error) else Ok(prior);
    }

    method AddVnets(zone: ZoneConfig, ghost before: Zones) returns (r: Outcome<SdnConfigError>)
      requires Valid() && ZoneKeyed(zone) && zones == before[zone.name := Missing(zone, zone.vnets.Keys)]
      modifies this
      ensures Valid()
      ensures r.Pass? <==> ZoneAddable(before, zone)
      ensures r.Pass? ==> zones == before[zone.name := zone]
      ensures r.Fail? ==> r.error == DuplicateVnetName || r.error == MismatchedSubnetZone
      ensures OnlyZone(before[zone.name := zone], zone.name, zones)
    {
      var todo := zone.vnets.Keys;
      while todo != {}
        invariant Valid() && todo <= zone.vnets.Keys && zones == before[zone.name := Missing(zone, todo)]
        invariant forall v :: v in zone.vnets && v !in todo ==> VnetAddable(before, zone, v)
        decreases |todo|
      {
        var v :| v in todo;
        r := AddVnetOf(zone, before, todo, v);
        if r.Fail? {
          return;
        }
        todo := todo - {v};
      }
      assert Missing(zone, {}) == zone;
      r := Pass;
    }

    method AddVnetOf(zone: ZoneConfig, ghost before: Zones, ghost todo: set<VnetName>, v: VnetName)
      returns (r: Outcome<SdnConfigError>)
      requires Valid() && ZoneKeyed(zone) && v in todo && todo <= zone.vnets.Keys
      requires zones == before[zone.name := Missing(zone, todo)]
      modifies this
      ensures Valid()
      ensures r.Pass? <==> VnetAddable(before, zone, v)
      ensures r.Pass? ==> zones == before[zone.name := Missing(zone, todo - {v})]
      ensures r.Fail? ==> r.error == DuplicateVnetName || r.error == MismatchedSubnetZone
      ensures OnlyZone(before[zone.name := zone], zone.name, zones)
    {
      MissingOneLess(before, zone, todo, v);
      var added := AddVnet(zone.name, zone.vnets[v]);
      OnlyZoneThrough(before, zone, Missing(zone, todo), zones);
      r := if added.Err? then Fail(added.error) else Pass;
    }

    /** Searches the zones in order; the first VNet of the name is the only one. */
    method Vnet(name: VnetName) returns (r: Option<(ZoneConfig, VnetConfig)>)
      requires Valid()
      ensures r.None? <==> forall z :: z in zones ==> name !in zones[z].vnets
      ensures r.Some? ==> forall z :: z in zones && name in zones[z].vnets ==>
                                        r.value == (zones[z], zones[z].vnets[name])
    {
      var ids := SortedKeys(zones.Keys);
      for i := 0 to |ids|
        invariant forall j :: 0 <= j < i ==> name !in zones[ids[j]].vnets
      {
        assert ids[i] in ids;
        var zone := zones[ids[i]];
        if name in zone.vnets {
          return Some((zone, zone.vnets[name]));
        }
      }
      r := None;
    }
  }

  /** At most the given zone differs. */
  ghost predicate OnlyZone(before: Zones, z: ZoneName, after: Zones) {
    after.Keys == before.Keys && forall y :: y in before && y != z ==> after[y] == before[y]
  }

  lemma OnlyZoneThrough(before: Zones, zone: ZoneConfig, x: ZoneConfig, after: Zones)
    requires OnlyZone(before[zone.name := x], zone.name, after)
    ensures OnlyZone(before[zone.name := zone], zone.name, after)
  {
    assert before[zone.name := x].Keys == before[zone.name := zone].Keys;
  }

  /** The VNet can go into the zone. */
  ghost predicate VnetAddable(before: Zones, zone: ZoneConfig, v: VnetName)
    requires v in zone.vnets
  {
    !Elsewhere(before, zone.name, v) && SubnetsIn(zone.name, zone.vnets[v])
  }

  ghost predicate ZoneAddable(before: Zones, zone: ZoneConfig) {
    forall v :: v in zone.vnets ==> VnetAddable(before, zone, v)
  }

  /** The zone without some of its VNets. */
  function Missing(zone: ZoneConfig, left: set<VnetName>): ZoneConfig {
    zone.(vnets := zone.vnets - left)
  }

  lemma WithZoneOk(zones: Zones, zone: ZoneConfig)
    requires ZonesOk(zones) && ZoneKeyed(zone) && zone.vnets == map[]
    ensures ZonesOk(zones[zone.name := zone])
  {
  }

  lemma MissingOneLess(before: Zones, zone: ZoneConfig, left: set<VnetName>, v: VnetName)
    requires ZoneKeyed(zone) && v in left && left <= zone.vnets.Keys
    ensures var zones := before[zone.name := Missing(zone, left)];
            WithVnet(zones, zone.name, zone.vnets[v]) == before[zone.name := Missing(zone, left - {v})] &&
            (Elsewhere(zones, zone.name, v) <==> Elsewhere(before, zone.name, v))
  {
    var more, less := Missing(zone, left), Missing(zone, left - {v});
    var zones := before[zone.name := more];
    assert more.vnets[v := zone.vnets[v]] == less.vnets;
    UpdateTwice(before, zone.name, more, less);
    if y :| y in before && y != zone.name && v in before[y].vnets {
      assert zones[y] == before[y];
    }
    if y :| y in zones && y != zone.name && v in zones[y].vnets {
      assert zones[y] == before[y];
    }
  }

  /** The VNet without some of its subnets. */
  function Lacking(v: VnetConfig, left: set<Cidr>): VnetConfig {
    v.(subnets := v.subnets - left)
  }

  lemma LackingOneLess(before: Zones, z: ZoneName, v: VnetConfig, left: set<Cidr>, c: Cidr)
    requires z in before && c in left && left <= v.subnets.Keys && VnetKeyed(v)
    ensures WithSubnet(WithVnet(before, z, Lacking(v, left)), z, v.name, v.subnets[c]) ==
            WithVnet(before, z, Lacking(v, left - {c}))
  {
    var more, less := Lacking(v, left), Lacking(v, left - {c});
    assert more.subnets[c := v.subnets[c]] == less.subnets;
    UpdateTwice(before[z].vnets, v.name, more, less);
    UpdateTwice(before, z, before[z].(vnets := before[z].vnets[v.name := more]),
                before[z].(vnets := before[z].vnets[v.name := less]));
  }

  lemma UpdateTwice<K, V>(m: map<K, V>, k: K, v: V, w: V)
    ensures m[k := v][k := w] == m[k := w]
  {
  }

  lemma CutShort(before: Zones, z: ZoneName, v: VnetConfig, left: set<Cidr>)
    requires z in before && left <= v.subnets.Keys
    ensures VnetCutShort(before, z, v, WithVnet(before, z, Lacking(v, left)))
  {
  }

  /** The VNet was inserted with some of its subnets, all of them in the zone. */
  ghost predicate VnetCutShort(before: Zones, z: ZoneName, v: VnetConfig, after: Zones) {
    z in before &&
    exists left: set<Cidr> :: left <= v.subnets.Keys && after == WithVnet(before, z, Lacking(v, left))
  }

  // ----- Reading the running configuration -----

  function Ranges(pairs: Option<seq<(IpAddr, IpAddr)>>): (rs: seq<IpRange>)
    ensures |rs| == if pairs.Some? then |pairs.value| else 0
  {
    if pairs.None? then []
    else seq(|pairs.value|, i requires 0 <= i < |pairs.value| => IpRange(pairs.value[i].0, pairs.value[i].1))
  }

  function SubnetFrom(n: SubnetName, run: SubnetRunning): SubnetConfig {
    SubnetConfig(n, run.gateway, run.snat.Some? && run.snat.value != 0, Ranges(run.dhcpRange))
  }

  ghost predicate RangesOk(pairs: Option<seq<(IpAddr, IpAddr)>>) {
    pairs.Some? ==> forall i :: 0 <= i < |pairs.value| ==> IsRange(pairs.value[i].0, pairs.value[i].1)
  }

  /** A subnet's zone and VNet exist and belong together, and its addresses are in order. */
  ghost predicate SubnetPlaced(vs: map<VnetName, VnetRunning>, n: SubnetName, run: SubnetRunning) {
    run.vnet in vs && vs[run.vnet].zone == n.zone && GatewayOk(n.cidr, run.gateway) && RangesOk(run.dhcpRange)
  }

  ghost predicate RunningOk(zs: map<ZoneName, ZoneType>, vs: map<VnetName, VnetRunning>,
                            ss: map<SubnetName, SubnetRunning>) {
    (forall v :: v in vs ==> vs[v].zone in zs) && (forall n :: n in ss ==> SubnetPlaced(vs, n, ss[n]))
  }

  /** The names in a running configuration have the formats that their types enforce. */
  ghost predicate RunningNamed(zs: map<ZoneName, ZoneType>, vs: map<VnetName, VnetRunning>) {
    (forall z :: z in zs ==> IsSdnName(z)) && (forall v :: v in vs ==> IsSdnName(v))
  }

  function SubnetsOf(ss: map<SubnetName, SubnetRunning>, z: ZoneName, v: VnetName): map<Cidr, SubnetConfig> {
    map n | n in ss && n.zone == z && ss[n].vnet == v :: n.cidr := SubnetFrom(n, ss[n])
  }

  function VnetsOf(vs: map<VnetName, VnetRunning>, ss: map<SubnetName, SubnetRunning>,
                   z: ZoneName): map<VnetName, VnetConfig> {
    map v | v in vs && vs[v].zone == z :: VnetConfig(v, vs[v].tag, SubnetsOf(ss, z, v))
  }

  /** Every zone with its VNets, and every VNet with its subnets by CIDR. */
  function ZonesOf(zs: map<ZoneName, ZoneType>, vs: map<VnetName, VnetRunning>,
                   ss: map<SubnetName, SubnetRunning>): Zones {
    map z | z in zs :: ZoneConfig(z, zs[z], VnetsOf(vs, ss, z))
  }

  lemma VnetsOfOneMore(vs: map<VnetName, VnetRunning>, v: VnetName, run: VnetRunning, z: ZoneName)
    requires v !in vs
    ensures VnetsOf(vs[v := run], map[], z) ==
            if z == run.zone then VnetsOf(vs, map[], z)[v := VnetConfig(v, run.tag, map[])] else VnetsOf(vs, map[], z)
  {
    assert SubnetsOf(map[], z, v) == map[];
  }

  lemma OneMoreVnet(zs: map<ZoneName, ZoneType>, vs: map<VnetName, VnetRunning>, v: VnetName, run: VnetRunning)
    requires run.zone in zs && v !in vs
    ensures ZonesOf(zs, vs[v := run], map[]) == WithVnet(ZonesOf(zs, vs, map[]), run.zone,
                                                         VnetConfig(v, run.tag, map[]))
    ensures !Elsewhere(ZonesOf(zs, vs, map[]), run.zone, v)
  {
    forall z | z in zs
      ensures ZonesOf(zs, vs[v := run], map[])[z] ==
              WithVnet(ZonesOf(zs, vs, map[]), run.zone, VnetConfig(v, run.tag, map[]))[z]
    {
      VnetsOfOneMore(vs, v, run, z);
    }
  }

  lemma SubnetsOfOneMore(ss: map<SubnetName, SubnetRunning>, n: SubnetName, run: SubnetRunning, z: ZoneName,
                         v: VnetName)
    requires n !in ss
    ensures SubnetsOf(ss[n := run], z, v) ==
            if z == n.zone && v == run.vnet then SubnetsOf(ss, z, v)[n.cidr := SubnetFrom(n, run)]
               else SubnetsOf(ss, z, v)
  {
    var less, more := SubnetsOf(ss, z, v), SubnetsOf(ss[n := run], z, v);
    var expected := if z == n.zone && v == run.vnet then less[n.cidr := SubnetFrom(n, run)] else less;
    forall c ensures c in more <==> c in expected
             ensures c in more ==> more[c] == expected[c]
    {
      SubnetsOfAt(ss, z, v, c);
      SubnetsOfAt(ss[n := run], z, v, c);
      SubnetAtOneMore(ss, n, run, z, v, c);
    }
  }

  lemma SubnetAtOneMore(ss: map<SubnetName, SubnetRunning>, n: SubnetName, run: SubnetRunning, z: ZoneName, v: VnetName,
                        c: Cidr)
    requires n !in ss
    ensures SubnetAt(ss, n.zone, v, n.cidr) == None
    ensures SubnetAt(ss[n := run], z, v, c) ==
            if z == n.zone && c == n.cidr && v == run.vnet then Some(SubnetFrom(n, run)) else SubnetAt(ss, z, v, c)
  {
    assert n == SubnetName(n.zone, n.cidr);
  }

  /** The subnet of a VNet with the given CIDR. */
  function SubnetAt(ss: map<SubnetName, SubnetRunning>, z: ZoneName, v: VnetName, c: Cidr): Option<SubnetConfig> {
    var n := SubnetName(z, c);
    if n in ss && ss[n].vnet == v then Some(SubnetFrom(n, ss[n])) else None
  }

  lemma SubnetsOfAt(ss: map<SubnetName, SubnetRunning>, z: ZoneName, v: VnetName, c: Cidr)
    ensures c in SubnetsOf(ss, z, v) <==> SubnetAt(ss, z, v, c).Some?
    ensures c in SubnetsOf(ss, z, v) ==> SubnetAt(ss, z, v, c) == Some(SubnetsOf(ss, z, v)[c])
  {
    var n := SubnetName(z, c);
    assert n.cidr == c;
  }

  lemma VnetsOfOneMoreSubnet(vs: map<VnetName, VnetRunning>, ss: map<SubnetName, SubnetRunning>, n: SubnetName,
                             run: SubnetRunning, z: ZoneName)
    requires n !in ss && run.vnet in vs && vs[run.vnet].zone == n.zone
    ensures run.vnet in VnetsOf(vs, ss, n.zone)
    ensures VnetsOf(vs, ss[n := run], z) ==
            if z == n.zone then WithSubnetIn(VnetsOf(vs, ss, z), run.vnet, SubnetFrom(n, run)) else VnetsOf(vs, ss, z)
  {
    var before, after := VnetsOf(vs, ss, z), VnetsOf(vs, ss[n := run], z);
    var expected := if z == n.zone then WithSubnetIn(before, run.vnet, SubnetFrom(n, run)) else before;
    forall v | v in after ensures after[v] == expected[v] {
      SubnetsOfOneMore(ss, n, run, z, v);
    }
    SameMaps(after, expected);
  }

  function WithSubnetIn(vnets: map<VnetName, VnetConfig>, v: VnetName, s: SubnetConfig): map<VnetName, VnetConfig>
    requires v in vnets
  {
    vnets[v := vnets[v].(subnets := vnets[v].subnets[s.name.cidr := s])]
  }

  lemma OneMoreSubnet(zs: map<ZoneName, ZoneType>, vs: map<VnetName, VnetRunning>, ss: map<SubnetName, SubnetRunning>,
                      n: SubnetName, run: SubnetRunning)
    requires n !in ss && n.zone in zs && run.vnet in vs && vs[run.vnet].zone == n.zone
    ensures n.zone in ZonesOf(zs, vs, ss) && run.vnet in ZonesOf(zs, vs, ss)[n.zone].vnets
    ensures ZonesOf(zs, vs, ss[n := run]) == WithSubnet(ZonesOf(zs, vs, ss), n.zone, run.vnet, SubnetFrom(n, run))
  {
    OneMoreSubnetAt(zs, vs, ss, n, run, n.zone);
    var a, b := ZonesOf(zs, vs, ss[n := run]), WithSubnet(ZonesOf(zs, vs, ss), n.zone, run.vnet, SubnetFrom(n, run));
    forall z | z in a ensures a[z] == b[z] {
      OneMoreSubnetAt(zs, vs, ss, n, run, z);
    }
    SameMaps(a, b);
  }

  lemma SameMaps<K, V>(a: map<K, V>, b: map<K, V>)
    requires a.Keys == b.Keys && forall k :: k in a ==> a[k] == b[k]
    ensures a == b
  {
  }

  lemma OneMoreSubnetAt(zs: map<ZoneName, ZoneType>, vs: map<VnetName, VnetRunning>, ss: map<SubnetName, SubnetRunning>,
                        n: SubnetName, run: SubnetRunning, z: ZoneName)
    requires n !in ss && n.zone in zs && run.vnet in vs && vs[run.vnet].zone == n.zone && z in zs
    ensures n.zone in ZonesOf(zs, vs, ss) && run.vnet in ZonesOf(zs, vs, ss)[n.zone].vnets
    ensures ZonesOf(zs, vs, ss[n := run])[z] == WithSubnet(ZonesOf(zs, vs, ss), n.zone, run.vnet, SubnetFrom(n, run))[z]
  {
    VnetsOfOneMoreSubnet(vs, ss, n, run, n.zone);
    VnetsOfOneMoreSubnet(vs, ss, n, run, z);
    WithSubnetAt(ZonesOf(zs, vs, ss), n.zone, run.vnet, SubnetFrom(n, run), z);
  }

  lemma WithSubnetAt(zones: Zones, z: ZoneName, v: VnetName, s: SubnetConfig, y: ZoneName)
    requires z in zones && v in zones[z].vnets && y in zones
    ensures WithSubnet(zones, z, v, s)[y] ==
            if y == z then zones[y].(vnets := WithSubnetIn(zones[y].vnets, v, s)) else zones[y]
  {
  }

  // ----- What has been read, field by field -----

  /** Every zone is a running one, with its type. */
  ghost predicate ZonesRead(zones: Zones, zs: map<ZoneName, ZoneType>) {
    zones.Keys == zs.Keys && forall z :: z in zs ==> zones[z].name == z && zones[z].ty == zs[z]
  }

  /** Every VNet is a running one, in its own zone and no other, with its tag. */
  ghost predicate VnetsRead(zones: Zones, vs: map<VnetName, VnetRunning>) {
    (forall v :: v in vs ==> vs[v].zone in zones && v in zones[vs[v].zone].vnets) &&
    (forall z, v :: z in zones && v in zones[z].vnets ==>
                      v in vs && vs[v].zone == z && zones[z].vnets[v].name == v && zones[z].vnets[v].tag == vs[v].tag)
  }

  /** The subnet has the running gateway, does SNAT if the running value is given and not 0, and has
      one range for each running pair, in order. */
  ghost predicate IsSubnetOf(s: SubnetConfig, n: SubnetName, run: SubnetRunning) {
    s.name == n && s.gateway == run.gateway &&
    (s.snat <==> run.snat.Some? && run.snat.value != 0) &&
    (run.dhcpRange.None? ==> s.dhcpRange == []) &&
    (run.dhcpRange.Some? ==>
       |s.dhcpRange| == |run.dhcpRange.value| &&
       forall i :: 0 <= i < |s.dhcpRange| ==>
                     s.dhcpRange[i].start == run.dhcpRange.value[i].0 && s.dhcpRange[i].end == run.dhcpRange.value[i].1)
  }

  function SubnetIn(zones: Zones, z: ZoneName, v: VnetName, c: Cidr): Option<SubnetConfig> {
    if z in zones && v in zones[z].vnets && c in zones[z].vnets[v].subnets then Some(zones[z].vnets[v].subnets[c])
       else None
  }

  /** Every running subnet is at its zone, VNet and CIDR, and every subnet there is a running one. */
  ghost predicate SubnetsRead(zones: Zones, ss: map<SubnetName, SubnetRunning>) {
    (forall n :: n in ss ==>
                   SubnetIn(zones, n.zone, ss[n].vnet, n.cidr).Some? &&
                   IsSubnetOf(SubnetIn(zones, n.zone, ss[n].vnet, n.cidr).value, n, ss[n])) &&
    (forall z, v, c :: SubnetIn(zones, z, v, c).Some? ==> SubnetName(z, c) in ss && ss[SubnetName(z, c)].vnet == v)
  }

  /** Each running subnet is placed. */
  lemma RunningSubnetsPlaced(zs: map<ZoneName, ZoneType>, vs: map<VnetName, VnetRunning>,
                             ss: map<SubnetName, SubnetRunning>)
    requires RunningOk(zs, vs, ss)
    ensures SubnetsRead(ZonesOf(zs, vs, ss), ss)
  {
    var zones := ZonesOf(zs, vs, ss);
    forall n | n in ss
      ensures SubnetIn(zones, n.zone, ss[n].vnet, n.cidr).Some? &&
              IsSubnetOf(SubnetIn(zones, n.zone, ss[n].vnet, n.cidr).value, n, ss[n])
    {
      assert SubnetPlaced(vs, n, ss[n]);
      SubnetsOfAt(ss, n.zone, ss[n].vnet, n.cidr);
    }
    forall z, v, c | SubnetIn(zones, z, v, c).Some? ensures SubnetName(z, c) in ss && ss[SubnetName(z, c)].vnet == v {
      SubnetsOfAt(ss, z, v, c);
    }
  }

  /** And so is each zone and each VNet. */
  lemma RunningVnetsPlaced(zs: map<ZoneName, ZoneType>, vs: map<VnetName, VnetRunning>,
                           ss: map<SubnetName, SubnetRunning>)
    requires RunningOk(zs, vs, ss)
    ensures ZonesRead(ZonesOf(zs, vs, ss), zs) && VnetsRead(ZonesOf(zs, vs, ss), vs)
  {
  }

  function RunningZones(rc: RunningConfig): map<ZoneName, ZoneType> {
    if rc.zones.Some? then rc.zones.value else map[]
  }

  function RunningVnets(rc: RunningConfig): map<VnetName, VnetRunning> {
    if rc.vnets.Some? then rc.vnets.value else map[]
  }

  function RunningSubnets(rc: RunningConfig): map<SubnetName, SubnetRunning> {
    if rc.subnets.Some? then rc.subnets.value else map[]
  }

  ghost predicate ReadsAs(rc: RunningConfig, zones: Zones) {
    ZonesRead(zones, RunningZones(rc)) && VnetsRead(zones, RunningVnets(rc)) && SubnetsRead(zones, RunningSubnets(rc))
  }

  /** The zones that are built have exactly the running zones, VNets and subnets. */
  lemma RunningConfigRead(rc: RunningConfig)
    requires RunningOk(RunningZones(rc), RunningVnets(rc), RunningSubnets(rc))
    ensures ReadsAs(rc, ZonesOf(RunningZones(rc), RunningVnets(rc), RunningSubnets(rc)))
  {
    RunningVnetsPlaced(RunningZones(rc), RunningVnets(rc), RunningSubnets(rc));
    RunningSubnetsPlaced(RunningZones(rc), RunningVnets(rc), RunningSubnets(rc));
  }

  /** A range has one family and does not run backwards; spelled out. */
  predicate NotBackwards(start: IpAddr, end: IpAddr) {
    match (start, end)
    case (V4(a), V4(b)) => a <= b
    case (V6(a), V6(b)) => a <= b
    case _ => false
  }

  /** The subnet fits its zone and VNet, its gateway is of its family and no range runs backwards. */
  ghost predicate SubnetGood(vs: map<VnetName, VnetRunning>, n: SubnetName, run: SubnetRunning) {
    run.vnet in vs && vs[run.vnet].zone == n.zone &&
    (run.gateway.Some? ==> (run.gateway.value.V4? <==> n.cidr.Cidr4?)) &&
    (run.dhcpRange.Some? ==>
       forall i :: 0 <= i < |run.dhcpRange.value| ==> NotBackwards(run.dhcpRange.value[i].0, run.dhcpRange.value[i].1))
  }

  lemma PlacedIsGood(vs: map<VnetName, VnetRunning>, n: SubnetName, run: SubnetRunning)
    ensures SubnetPlaced(vs, n, run) <==> SubnetGood(vs, n, run)
  {
    if run.dhcpRange.Some? {
      var pairs := run.dhcpRange.value;
      forall i | 0 <= i < |pairs| ensures IsRange(pairs[i].0, pairs[i].1) <==> NotBackwards(pairs[i].0, pairs[i].1) {
      }
    }
  }

  /** A running configuration is good exactly if every VNet has a zone and every subnet is good. */
  lemma RunningOkExactly(zs: map<ZoneName, ZoneType>, vs: map<VnetName, VnetRunning>,
                         ss: map<SubnetName, SubnetRunning>)
    ensures RunningOk(zs, vs, ss) <==>
            (forall v :: v in vs ==> vs[v].zone in zs) && (forall n :: n in ss ==> SubnetGood(vs, n, ss[n]))
  {
    forall n | n in ss ensures SubnetPlaced(vs, n, ss[n]) <==> SubnetGood(vs, n, ss[n]) {
      PlacedIsGood(vs, n, ss[n]);
    }
  }

  /** Succeeds exactly if every VNet's zone and every subnet's VNet, zone and addresses are
      good, whatever the order in which the maps are visited; the result then holds each
      subnet at its zone, VNet and CIDR, and nothing else. */
  method FromRunningConfig(rc: RunningConfig) returns (r: Result<SdnConfig, SdnConfigError>)
    requires RunningNamed(RunningZones(rc), RunningVnets(rc))
    ensures r.Ok? <==> RunningOk(RunningZones(rc), RunningVnets(rc), RunningSubnets(rc))
    ensures r.Ok? ==> fresh(r.value) && r.value.Valid() &&
                      r.value.zones == ZonesOf(RunningZones(rc), RunningVnets(rc), RunningSubnets(rc))
    ensures r.Ok? ==> ReadsAs(rc, r.value.zones)
  {
    var config := new SdnConfig();
    if rc.zones.Some? {
      ReadZones(config, rc.zones.value);
    }
    if rc.vnets.Some? {
      var read := ReadVnets(config, RunningZones(rc), rc.vnets.value);
      if read.Fail? {
        return Err(read.error);
      }
    }
    if rc.subnets.Some? {
      var read := ReadSubnets(config, RunningZones(rc), RunningVnets(rc), rc.subnets.value);
      if read.Fail? {
        return Err(read.error);
      }
    }
    RunningConfigRead(rc);
    r := Ok(config);
  }

  method ReadZones(config: SdnConfig, zs: map<ZoneName, ZoneType>)
    requires config.Valid() && config.zones == map[] && forall z :: z in zs ==> IsSdnName(z)
    modifies config
    ensures config.Valid() && config.zones == ZonesOf(zs, map[], map[])
  {
    var todo := zs.Keys;
    while todo != {}
      invariant config.Valid() && todo <= zs.Keys && config.zones == ZonesOf(zs - todo, map[], map[])
      decreases |todo|
    {
      var z :| z in todo;
      var _ := config.AddZone(ZoneConfig(z, zs[z], map[]));
      assert VnetsOf(map[], map[], z) == map[];
      todo := todo - {z};
    }
    assert zs - {} == zs;
  }

  method ReadVnets(config: SdnConfig, ghost zs: map<ZoneName, ZoneType>, vs: map<VnetName, VnetRunning>)
    returns (r: Outcome<SdnConfigError>)
    requires config.Valid() && config.zones == ZonesOf(zs, map[], map[]) && forall v :: v in vs ==> IsSdnName(v)
    modifies config
    ensures config.Valid()
    ensures r.Pass? <==> forall v :: v in vs ==> vs[v].zone in zs
    ensures r.Pass? ==> config.zones == ZonesOf(zs, vs, map[])
  {
    var todo := vs.Keys;
    assert vs - vs.Keys == map[];
    while todo != {}
      invariant config.Valid() && todo <= vs.Keys && config.zones == ZonesOf(zs, vs - todo, map[])
      invariant forall v :: v in vs && v !in todo ==> vs[v].zone in zs
      decreases |todo|
    {
      var v :| v in todo;
      assert (vs - todo)[v := vs[v]] == vs - (todo - {v});
      r := ReadVnet(config, zs, vs - todo, v, vs[v]);
      if r.Fail? {
        return;
      }
      todo := todo - {v};
    }
    assert vs - todo == vs;
    r := Pass;
  }

  method ReadVnet(config: SdnConfig, ghost zs: map<ZoneName, ZoneType>, ghost done: map<VnetName, VnetRunning>,
                  v: VnetName, run: VnetRunning)
    returns (r: Outcome<SdnConfigError>)
    requires config.Valid() && config.zones == ZonesOf(zs, done, map[]) && v !in done && IsSdnName(v)
    modifies config
    ensures config.Valid()
    ensures r.Pass? <==> run.zone in zs
    ensures r.Pass? ==> config.zones == ZonesOf(zs, done[v := run], map[])
  {
    if run.zone in zs {
      OneMoreVnet(zs, done, v, run);
    }
    var added := config.AddVnet(run.zone, VnetConfig(v, run.tag, map[]));
    r := if added.Err? then Fail(added.error) else Pass;
  }

  method ReadSubnets(config: SdnConfig, ghost zs: map<ZoneName, ZoneType>, ghost vs: map<VnetName, VnetRunning>,
                     ss: map<SubnetName, SubnetRunning>)
    returns (r: Outcome<SdnConfigError>)
    requires config.Valid() && config.zones == ZonesOf(zs, vs, map[]) && forall v :: v in vs ==> vs[v].zone in zs
    modifies config
    ensures config.Valid()
    ensures r.Pass? <==> forall n :: n in ss ==> SubnetPlaced(vs, n, ss[n])
    ensures r.Pass? ==> config.zones == ZonesOf(zs, vs, ss)
  {
    var todo := ss.Keys;
    assert ss - ss.Keys == map[];
    while todo != {}
      invariant config.Valid() && todo <= ss.Keys && config.zones == ZonesOf(zs, vs, ss - todo)
      invariant forall n :: n in ss && n !in todo ==> SubnetPlaced(vs, n, ss[n])
      decreases |todo|
    {
      var n :| n in todo;
      assert (ss - todo)[n := ss[n]] == ss - (todo - {n});
      r := ReadSubnet(config, zs, vs, ss - todo, n, ss[n]);
      if r.Fail? {
        return;
      }
      todo := todo - {n};
    }
    assert ss - {} == ss;
    r := Pass;
  }

  method ReadSubnet(config: SdnConfig, ghost zs: map<ZoneName, ZoneType>, ghost vs: map<VnetName, VnetRunning>,
                    ghost done: map<SubnetName, SubnetRunning>, n: SubnetName, run: SubnetRunning)
                      returns (r: Outcome<SdnConfigError>)
    requires config.Valid() && config.zones == ZonesOf(zs, vs, done) && n !in done &&
             forall v :: v in vs ==> vs[v].zone in zs
    modifies config
    ensures config.Valid()
    ensures r.Pass? <==> SubnetPlaced(vs, n, run)
    ensures r.Pass? ==> config.zones == ZonesOf(zs, vs, done[n := run])
  {
    var ranges := ReadRanges(run.dhcpRange);
    if ranges.Err? {
      return Fail(ranges.error);
    }
    var subnet := NewSubnet(n, run.gateway, run.snat.Some? && run.snat.value != 0, ranges.value);
    if subnet.Err? {
      return Fail(subnet.error);
    }
    if run.vnet in vs && vs[run.vnet].zone == n.zone {
      OneMoreSubnet(zs, vs, done, n, run);
    }
    var added := config.AddSubnet(n.zone, run.vnet, subnet.value);
    r := if added.Err? then Fail(added.error) else Pass;
  }

  method ReadRanges(pairs: Option<seq<(IpAddr, IpAddr)>>) returns (r: Result<seq<IpRange>, SdnConfigError>)
    ensures r.Ok? <==> RangesOk(pairs)
    ensures r.Ok? ==> r.value == Ranges(pairs)
    ensures r.Err? ==> r.error == InvalidDhcpRange
  {
    var ranges: seq<IpRange> := [];
    if pairs.Some? {
      for i := 0 to |pairs.value|
        invariant ranges == Ranges(Some(pairs.value[..i])) && RangesOk(Some(pairs.value[..i]))
      {
        var (start, end) := pairs.value[i];
        if !IsRange(start, end) {
          return Err(InvalidDhcpRange);
        }
        ranges := ranges + [IpRange(start, end)];
      }
      assert pairs.value[..|pairs.value|] == pairs.value;
    }
    r := Ok(ranges);
  }
}
