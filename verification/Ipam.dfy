/** The IPAM database: which addresses of which subnets are allocated, and to whom. */
module Ipam {
  import opened Wrappers
  import opened Addresses
  import opened Collections
  import opened SdnModel
  import opened Ipsets
  import Text

  type Vmid = nat
  datatype MacAddress = MacAddress(bits: nat)

  datatype IpamJsonData =
    | VmJson(vmid: Vmid, hostname: Option<string>, mac: MacAddress)
    | GatewayJson
    | CustomJson(mac: MacAddress)

  /** The JSON database: zones, their subnets, and the addresses in each. */
  type Ips = map<IpAddr, IpamJsonData>
  type IpamJson = map<ZoneName, map<Cidr, Ips>>

  datatype IpamData =
    | Vm(ip: IpAddr, vmid: Vmid, mac: MacAddress, hostname: Option<string>)
    | Gateway(ip: IpAddr)
    | CustomData(ip: IpAddr, mac: MacAddress)

  function FromJson(ip: IpAddr, j: IpamJsonData): (d: IpamData)
    ensures d.ip == ip
  {
    match j
    case VmJson(vmid, hostname, mac) => Vm(ip, vmid, mac, hostname)
    case GatewayJson => Gateway(ip)
    case CustomJson(mac) => CustomData(ip, mac)
  }

  datatype IpamEntry = IpamEntry(subnet: SubnetName, data: IpamData)
  datatype IpamError = DuplicateIpAddress | IpAddressOutOfBounds

  function NewEntry(subnet: SubnetName, data: IpamData): Result<IpamEntry, IpamError> {
    if Contains(subnet.cidr, data.ip) then Ok(IpamEntry(subnet, data)) else Err(IpAddressOutOfBounds)
  }

  type Entries = map<SubnetName, seq<IpamEntry>>

  function At(entries: Entries, s: SubnetName): seq<IpamEntry> {
    if s in entries then entries[s] else []
  }

  function AddressesOf(es: seq<IpamEntry>): (ips: seq<IpAddr>)
    ensures |ips| == |es| && forall i :: 0 <= i < |ips| ==> ips[i] == es[i].data.ip
  {
    seq(|es|, i requires 0 <= i < |es| => es[i].data.ip)
  }

  /** No address of a subnet is allocated twice, and none lies outside the subnet. */
  ghost predicate SubnetOk(s: SubnetName, es: seq<IpamEntry>) {
    NoDup(AddressesOf(es)) && forall i :: 0 <= i < |es| ==> es[i].subnet == s && Contains(s.cidr, es[i].data.ip)
  }

  ghost predicate IpamOk(entries: Entries) {
    forall s :: s in entries ==> SubnetOk(s, entries[s])
  }

  function Added(entries: Entries, e: IpamEntry): Entries {
    entries[e.subnet := At(entries, e.subnet) + [e]]
  }

  lemma AddedOk(entries: Entries, e: IpamEntry)
    requires IpamOk(entries) && Contains(e.subnet.cidr, e.data.ip) && e.data.ip !in AddressesOf(At(entries, e.subnet))
    ensures IpamOk(Added(entries, e))
  {
    var es := At(entries, e.subnet);
    NoDupAppend(AddressesOf(es), e.data.ip);
    assert AddressesOf(es + [e]) == AddressesOf(es) + [e.data.ip];
  }

  class Ipam {
    var entries: Entries

    ghost predicate Valid()
      reads this
    {
      IpamOk(entries)
    }

    constructor ()
      ensures Valid() && entries == map[]
    {
      entries := map[];
    }

    method AddEntry(e: IpamEntry) returns (r: Outcome<IpamError>)
      requires Valid() && Contains(e.subnet.cidr, e.data.ip)
      modifies this
      ensures Valid()
      ensures r.Pass? <==> e.data.ip !in AddressesOf(At(old(entries), e.subnet))
      ensures entries == if r.Pass? then Added(old(entries), e) else old(entries)
      ensures r.Fail? ==> r.error == DuplicateIpAddress
    {
      if e.subnet in entries {
        var es := entries[e.subnet];
        for i := 0 to |es|
          invariant e.data.ip !in AddressesOf(es)[..i]
        {
          assert AddressesOf(es)[..i + 1] == AddressesOf(es)[..i] + [es[i].data.ip];
          if es[i].data.ip == e.data.ip {
            assert AddressesOf(es)[i] == e.data.ip;
            return Fail(DuplicateIpAddress);
          }
        }
        assert AddressesOf(es)[..|es|] == AddressesOf(es);
        AddedOk(entries, e);
        entries := entries[e.subnet := es + [e]];
      } else {
        AddedOk(entries, e);
        assert [] + [e] == [e];
        entries := entries[e.subnet := [e]];
      }
      r := Pass;
    }

    /** Adds the addresses of one subnet, in arbitrary order; an address outside the subnet
        stops it, and nothing else does. */
    method AddSubnet(s: SubnetName, ips: Ips) returns (r: Outcome<IpamError>)
      requires Valid() && s !in entries
      modifies this
      ensures Valid()
      ensures r.Pass? <==> forall ip :: ip in ips ==> Contains(s.cidr, ip)
      ensures r.Fail? ==> r.error == IpAddressOutOfBounds
      ensures r.Pass? ==> SubnetHolds(entries, s, ips)
      ensures OthersKept(old(entries), entries, {s})
    {
      var todo := ips.Keys;
      assert ips - ips.Keys == map[];
      while todo != {}
        invariant Valid() && todo <= ips.Keys
        invariant forall ip :: ip in ips && ip !in todo ==> Contains(s.cidr, ip)
        invariant SubnetHolds(entries, s, ips - todo)
        invariant OthersKept(old(entries), entries, {s})
        decreases |todo|
      {
        var ip :| ip in todo;
        ghost var before := entries;
        r := AddAddress(s, ips, todo, ip);
        OthersKeptTransitive(old(entries), before, entries, {s});
        if r.Fail? {
          return;
        }
        todo := todo - {ip};
      }
      assert ips - {} == ips;
      r := Pass;
    }

    method AddAddress(s: SubnetName, ips: Ips, ghost todo: set<IpAddr>, ip: IpAddr) returns (r: Outcome<IpamError>)
      requires Valid() && ip in todo && todo <= ips.Keys && SubnetHolds(entries, s, ips - todo)
      modifies this
      ensures Valid()
      ensures r.Pass? <==> Contains(s.cidr, ip)
      ensures r.Fail? ==> r.error == IpAddressOutOfBounds
      ensures r.Pass? ==> SubnetHolds(entries, s, ips - (todo - {ip}))
      ensures OthersKept(old(entries), entries, {s})
    {
      var e := NewEntry(s, FromJson(ip, ips[ip]));
      if e.Err? {
        return Fail(e.error);
      }
      OneMoreAddress(entries, s, ips, todo, ip);
      r := AddEntry(e.value);
    }

    /** Adds the subnets of one zone, in arbitrary order. */
    method AddZone(z: ZoneName, subnets: map<Cidr, Ips>) returns (r: Outcome<IpamError>)
      requires Valid() && forall c :: SubnetName(z, c) !in entries
      modifies this
      ensures Valid()
      ensures r.Pass? <==> ZoneInside(subnets)
      ensures r.Fail? ==> r.error == IpAddressOutOfBounds
      ensures r.Pass? ==> ZoneHolds(entries, z, subnets)
      ensures OtherZonesKept(old(entries), entries, z)
    {
      var todo := subnets.Keys;
      while todo != {}
        invariant Valid() && todo <= subnets.Keys
        invariant forall c :: c in subnets && c !in todo ==> Inside(c, subnets[c])
        invariant ZoneHolds(entries, z, subnets - todo)
        invariant OtherZonesKept(old(entries), entries, z)
        decreases |todo|
      {
        var c :| c in todo;
        ghost var before := entries;
        r := AddSubnet(SubnetName(z, c), subnets[c]);
        if r.Fail? {
          return;
        }
        OneMoreSubnet(before, entries, z, subnets, todo, c);
        todo := todo - {c};
      }
      assert subnets - {} == subnets;
      r := Pass;
    }

    /** The subnets come in key order; the sets are described for any order. */
    method GuestIpsets(order: seq<SubnetName>, filter: Option<set<Vmid>>) returns (sets: map<Vmid, Ipset>)
      requires Enumerates(order, entries)
      ensures GuestSets(sets, AllEntries(entries, order), filter)
    {
      sets := map[];
      for i := 0 to |order|
        invariant GuestSets(sets, AllEntries(entries, order[..i]), filter)
      {
        assert order[..i + 1][..i] == order[..i];
        sets := AddSubnetGuests(sets, AllEntries(entries, order[..i]), entries[order[i]], filter);
      }
      assert order[..|order|] == order;
    }
  }

  method AddSubnetGuests(prior: map<Vmid, Ipset>, ghost before: seq<IpamEntry>, es: seq<IpamEntry>,
                         filter: Option<set<Vmid>>)
    returns (sets: map<Vmid, Ipset>)
    requires GuestSets(prior, before, filter)
    ensures GuestSets(sets, before + es, filter)
  {
    sets := prior;
    assert before + es[..0] == before;
    for i := 0 to |es|
      invariant GuestSets(sets, before + es[..i], filter)
    {
      TakeNext(before, es, i);
      sets := AddGuest(sets, before + es[..i], es[i], filter);
    }
    assert es[..|es|] == es;
  }

  method AddGuest(prior: map<Vmid, Ipset>, ghost before: seq<IpamEntry>, e: IpamEntry, filter: Option<set<Vmid>>)
    returns (sets: map<Vmid, Ipset>)
    requires GuestSets(prior, before, filter)
    ensures GuestSets(sets, before + [e], filter)
  {
    assert (before + [e])[..|before|] == before;
    sets := prior;
    if e.data.Vm? && IsGuestAllowed(filter, e.data.vmid) {
      var v := e.data.vmid;
      var ipset := if v in sets then sets[v] else Ipset(GuestSetName(v), []);
      sets := sets[v := ipset.(entries := ipset.entries + [IpsetEntry(false, CidrAddress(Host(e.data.ip)))])];
    }
  }

  /** All addresses of a subnet lie in it. */
  ghost predicate Inside(c: Cidr, ips: Ips) {
    forall ip :: ip in ips ==> Contains(c, ip)
  }

  ghost predicate ZoneInside(subnets: map<Cidr, Ips>) {
    forall c :: c in subnets ==> Inside(c, subnets[c])
  }

  ghost predicate ZoneHolds(entries: Entries, z: ZoneName, subnets: map<Cidr, Ips>) {
    forall c :: if c in subnets then SubnetHolds(entries, SubnetName(z, c), subnets[c])
                else SubnetName(z, c) !in entries
  }

  ghost predicate OtherZonesKept(before: Entries, after: Entries, z: ZoneName) {
    forall s: SubnetName :: s.zone != z ==> (s in after <==> s in before) && At(after, s) == At(before, s)
  }

  lemma OneMoreSubnet(before: Entries, after: Entries, z: ZoneName, subnets: map<Cidr, Ips>, todo: set<Cidr>, c: Cidr)
    requires c in todo && todo <= subnets.Keys && ZoneHolds(before, z, subnets - todo)
    requires SubnetHolds(after, SubnetName(z, c), subnets[c]) && OthersKept(before, after, {SubnetName(z, c)})
    ensures ZoneHolds(after, z, subnets - (todo - {c}))
  {
    var more := subnets - (todo - {c});
    forall d ensures if d in more then SubnetHolds(after, SubnetName(z, d), more[d]) else SubnetName(z, d) !in after {
      if d != c {
        assert SubnetName(z, d) !in {SubnetName(z, c)};
        assert d in more <==> d in subnets - todo;
      }
    }
  }

  ghost predicate OthersKept(before: Entries, after: Entries, ss: set<SubnetName>) {
    forall s :: s !in ss ==> (s in after <==> s in before) && At(after, s) == At(before, s)
  }

  lemma OthersKeptTransitive(a: Entries, b: Entries, c: Entries, ss: set<SubnetName>)
    requires OthersKept(a, b, ss) && OthersKept(b, c, ss)
    ensures OthersKept(a, c, ss)
  {
  }

  /** The subnet's entries are those of the JSON addresses, each once. */
  ghost predicate SubnetHolds(entries: Entries, s: SubnetName, ips: Ips) {
    (s in entries <==> ips != map[]) &&
    (forall e :: e in At(entries, s) <==> e.data.ip in ips && e == IpamEntry(s, FromJson(e.data.ip, ips[e.data.ip])))
  }

  lemma OneMoreAddress(entries: Entries, s: SubnetName, ips: Ips, todo: set<IpAddr>, ip: IpAddr)
    requires ip in todo && todo <= ips.Keys && SubnetHolds(entries, s, ips - todo)
    ensures ip !in AddressesOf(At(entries, s))
    ensures SubnetHolds(Added(entries, IpamEntry(s, FromJson(ip, ips[ip]))), s, ips - (todo - {ip}))
  {
    var es, e := At(entries, s), IpamEntry(s, FromJson(ip, ips[ip]));
    forall i | 0 <= i < |es| ensures es[i].data.ip != ip {
      assert es[i] in es;
    }
    assert ip in ips - (todo - {ip});
    forall d ensures d in es + [e] <==> d in es || d == e {
    }
  }

  // ----- Building from a list -----

  /** The entries of one subnet, in the order of the list. */
  function OfSubnet(list: seq<IpamEntry>, s: SubnetName): seq<IpamEntry> {
    if list == [] then []
    else OfSubnet(list[..|list| - 1], s) + if list[|list| - 1].subnet == s then [list[|list| - 1]] else []
  }

  ghost predicate AllocatedOnce(list: seq<IpamEntry>) {
    forall i, j :: 0 <= i < j < |list| ==> list[i].subnet != list[j].subnet || list[i].data.ip != list[j].data.ip
  }

  lemma {:induction false} OfSubnetMember(list: seq<IpamEntry>, s: SubnetName, ip: IpAddr)
    ensures ip in AddressesOf(OfSubnet(list, s)) <==>
            exists i :: 0 <= i < |list| && list[i].subnet == s && list[i].data.ip == ip
  {
    if list != [] {
      var init, e := list[..|list| - 1], list[|list| - 1];
      OfSubnetMember(init, s, ip);
      var last: seq<IpamEntry> := if e.subnet == s then [e] else [];
      assert AddressesOf(OfSubnet(init, s) + last) == AddressesOf(OfSubnet(init, s)) + AddressesOf(last);
      if i :| 0 <= i < |init| && init[i].subnet == s && init[i].data.ip == ip {
        assert list[i] == init[i];
      }
      if i :| 0 <= i < |list| && list[i].subnet == s && list[i].data.ip == ip {
        assert i < |init| ==> init[i] == list[i];
        assert i == |init| ==> AddressesOf(last)[0] == ip;
      }
    }
  }

  lemma OneMoreEntry(list: seq<IpamEntry>, i: nat)
    requires i < |list| && AllocatedOnce(list[..i])
    ensures AllocatedOnce(list[..i + 1]) <==> list[i].data.ip !in AddressesOf(OfSubnet(list[..i], list[i].subnet))
  {
    var init, more, e := list[..i], list[..i + 1], list[i];
    OfSubnetMember(init, e.subnet, e.data.ip);
    if k :| 0 <= k < |init| && init[k].subnet == e.subnet && init[k].data.ip == e.data.ip {
      assert more[k] == init[k] && more[i] == e;
    }
  }

  /** Succeeds exactly if no address of a subnet comes twice; then every entry is kept, in order. */
  method FromEntries(list: seq<IpamEntry>) returns (r: Result<Ipam, IpamError>)
    requires forall e :: e in list ==> Contains(e.subnet.cidr, e.data.ip)
    ensures r.Ok? <==> AllocatedOnce(list)
    ensures r.Ok? ==> fresh(r.value) && r.value.Valid() && forall s :: At(r.value.entries, s) == OfSubnet(list, s)
  {
    var ipam := new Ipam();
    for i := 0 to |list|
      invariant ipam.Valid() && fresh(ipam) && AllocatedOnce(list[..i])
      invariant forall s :: At(ipam.entries, s) == OfSubnet(list[..i], s)
    {
      assert list[..i + 1][..i] == list[..i];
      OneMoreEntry(list, i);
      var added := ipam.AddEntry(list[i]);
      if added.Fail? {
        NotAllocatedOnce(list, i + 1);
        return Err(added.error);
      }
    }
    assert list[..|list|] == list;
    r := Ok(ipam);
  }

  lemma NotAllocatedOnce(list: seq<IpamEntry>, i: nat)
    requires i <= |list| && !AllocatedOnce(list[..i])
    ensures !AllocatedOnce(list)
  {
    assert forall k :: 0 <= k < i ==> list[..i][k] == list[k];
  }

  // ----- Reading the JSON database -----

  ghost predicate JsonInside(json: IpamJson) {
    forall z :: z in json ==> ZoneInside(json[z])
  }

  /** The entries are those of the JSON database, each once and in its own subnet. */
  ghost predicate JsonHolds(entries: Entries, json: IpamJson) {
    forall z :: if z in json then ZoneHolds(entries, z, json[z]) else forall c :: SubnetName(z, c) !in entries
  }

  /** The data says what the JSON record of the address says. */
  ghost predicate IsRecordOf(d: IpamData, ip: IpAddr, j: IpamJsonData) {
    match j
    case VmJson(vmid, hostname, mac) =>
      d.Vm? && d.ip == ip && d.vmid == vmid && d.hostname == hostname && d.mac == mac
    case GatewayJson => d.Gateway? && d.ip == ip
    case CustomJson(mac) => d.CustomData? && d.ip == ip && d.mac == mac
  }

  ghost predicate InJson(json: IpamJson, s: SubnetName, ip: IpAddr) {
    s.zone in json && s.cidr in json[s.zone] && ip in json[s.zone][s.cidr]
  }

  /** An entry is in a subnet exactly if it says what a JSON record of that subnet says. */
  ghost predicate RecordsRead(entries: Entries, json: IpamJson) {
    forall s, e :: e in At(entries, s) <==>
                     e.subnet == s && InJson(json, s, e.data.ip) &&
                     IsRecordOf(e.data, e.data.ip, json[s.zone][s.cidr][e.data.ip])
  }

  lemma FromJsonSays(ip: IpAddr, j: IpamJsonData, d: IpamData)
    ensures IsRecordOf(d, ip, j) <==> d == FromJson(ip, j)
  {
  }

  lemma JsonRead(entries: Entries, json: IpamJson)
    requires JsonHolds(entries, json)
    ensures RecordsRead(entries, json)
  {
    forall s, e
      ensures e in At(entries, s) <==> e.subnet == s && InJson(json, s, e.data.ip) &&
                                       IsRecordOf(e.data, e.data.ip, json[s.zone][s.cidr][e.data.ip])
    {
      EntryRead(entries, json, s, e);
    }
  }

  lemma EntryRead(entries: Entries, json: IpamJson, s: SubnetName, e: IpamEntry)
    requires JsonHolds(entries, json)
    ensures e in At(entries, s) <==> e.subnet == s && InJson(json, s, e.data.ip) &&
                                     IsRecordOf(e.data, e.data.ip, json[s.zone][s.cidr][e.data.ip])
  {
    assert s == SubnetName(s.zone, s.cidr);
    if s.zone in json {
      assert ZoneHolds(entries, s.zone, json[s.zone]);
      if s.cidr in json[s.zone] && e.data.ip in json[s.zone][s.cidr] {
        FromJsonSays(e.data.ip, json[s.zone][s.cidr][e.data.ip], e.data);
      }
    }
  }

  /** Reading fails only for an address outside its subnet, never for a duplicate, and keeps
      every entry. Zones, subnets and addresses come in arbitrary order. */
  method FromIpamJson(json: IpamJson) returns (r: Result<Ipam, IpamError>)
    ensures r.Ok? <==> JsonInside(json)
    ensures r.Ok? ==> fresh(r.value) && r.value.Valid() && JsonHolds(r.value.entries, json) &&
                      RecordsRead(r.value.entries, json)
    ensures r.Err? ==> r.error == IpAddressOutOfBounds
  {
    var ipam := new Ipam();
    var todo := json.Keys;
    while todo != {}
      invariant ipam.Valid() && todo <= json.Keys && fresh(ipam)
      invariant forall z :: z in json && z !in todo ==> ZoneInside(json[z])
      invariant JsonHolds(ipam.entries, json - todo)
      decreases |todo|
    {
      var z :| z in todo;
      ghost var before := ipam.entries;
      var added := ipam.AddZone(z, json[z]);
      if added.Fail? {
        return Err(added.error);
      }
      OneMoreZone(before, ipam.entries, json, todo, z);
      todo := todo - {z};
    }
    assert json - {} == json;
    JsonRead(ipam.entries, json);
    r := Ok(ipam);
  }

  lemma OneMoreZone(before: Entries, after: Entries, json: IpamJson, todo: set<ZoneName>, z: ZoneName)
    requires z in todo && todo <= json.Keys && JsonHolds(before, json - todo)
    requires ZoneHolds(after, z, json[z]) && OtherZonesKept(before, after, z)
    ensures JsonHolds(after, json - (todo - {z}))
  {
    var more := json - (todo - {z});
    forall y ensures if y in more then ZoneHolds(after, y, more[y]) else forall c :: SubnetName(y, c) !in after {
      if y != z {
        assert y in more <==> y in json - todo;
        assert forall c :: SubnetName(y, c).zone == y;
      }
    }
  }

  // ----- Ipsets of guests -----

  ghost predicate Enumerates(order: seq<SubnetName>, entries: Entries) {
    NoDup(order) && forall s :: s in order <==> s in entries
  }

  /** The entries of all subnets, one subnet after the other. */
  function AllEntries(entries: Entries, order: seq<SubnetName>): seq<IpamEntry> {
    if order == [] then [] else AllEntries(entries, order[..|order| - 1]) + At(entries, order[|order| - 1])
  }

  /** The guest's addresses among the entries, in order. */
  function GuestEntries(es: seq<IpamEntry>, vmid: Vmid): seq<IpsetEntry> {
    if es == [] then []
    else
      var d := es[|es| - 1].data;
      GuestEntries(es[..|es| - 1], vmid) +
      if d.Vm? && d.vmid == vmid then [IpsetEntry(false, CidrAddress(Host(d.ip)))] else []
  }

  function GuestSetName(vmid: Vmid): string {
    "guest-ipam-" + Text.PrintNat(vmid)
  }

  predicate IsGuestAllowed(filter: Option<set<Vmid>>, vmid: Vmid) {
    filter.Some? ==> vmid in filter.value
  }

  /** Every allowed guest with an address has a set, which holds its addresses and no others. */
  ghost predicate GuestSets(sets: map<Vmid, Ipset>, es: seq<IpamEntry>, filter: Option<set<Vmid>>) {
    (forall v :: v in sets <==> IsGuestAllowed(filter, v) && GuestEntries(es, v) != []) &&
    forall v :: v in sets ==> sets[v] == Ipset(GuestSetName(v), GuestEntries(es, v))
  }

  predicate IsGuestAt(es: seq<IpamEntry>, v: Vmid, i: int, ip: IpAddr) {
    0 <= i < |es| && es[i].data.Vm? && es[i].data.vmid == v && es[i].data.ip == ip
  }

  lemma {:induction false} GuestEntriesMember(es: seq<IpamEntry>, v: Vmid, e: IpsetEntry)
    ensures e in GuestEntries(es, v) <==>
            exists i, ip :: IsGuestAt(es, v, i, ip) && e == IpsetEntry(false, CidrAddress(Host(ip)))
  {
    if es != [] {
      var init, d := es[..|es| - 1], es[|es| - 1].data;
      GuestEntriesMember(init, v, e);
      if i, ip :| IsGuestAt(init, v, i, ip) && e == IpsetEntry(false, CidrAddress(Host(ip))) {
        assert IsGuestAt(es, v, i, ip);
      }
      if i, ip :| IsGuestAt(es, v, i, ip) && e == IpsetEntry(false, CidrAddress(Host(ip))) {
        assert i < |init| ==> IsGuestAt(init, v, i, ip);
      }
      if d.Vm? && d.vmid == v {
        assert IsGuestAt(es, v, |es| - 1, d.ip);
      }
    }
  }

  /** The set of a guest holds exactly the addresses that its entries allocate. */
  lemma GuestSetMeaning(es: seq<IpamEntry>, v: Vmid, ip: IpAddr)
    ensures In(Ipset(GuestSetName(v), GuestEntries(es, v)), ip) <==> exists i :: IsGuestAt(es, v, i, ip)
  {
    var entries := GuestEntries(es, v);
    forall e | e in entries ensures !e.nomatch && (AddressHas(e.address, ip) ==> exists i :: IsGuestAt(es, v, i, ip)) {
      GuestEntriesMember(es, v, e);
      var i, a :| IsGuestAt(es, v, i, a) && e == IpsetEntry(false, CidrAddress(Host(a)));
      HostContains(a, ip);
    }
    if i :| IsGuestAt(es, v, i, ip) {
      GuestEntriesMember(es, v, IpsetEntry(false, CidrAddress(Host(ip))));
      HostContains(ip, ip);
      assert AddressHas(CidrAddress(Host(ip)), ip);
    }
  }

  // ----- The sets of an IPAM partition the entries of the allowed guests -----

  /** The entries of one guest, in order. */
  function OwnEntries(es: seq<IpamEntry>, v: Vmid): seq<IpamEntry> {
    if es == [] then []
    else
      var e := es[|es| - 1];
      OwnEntries(es[..|es| - 1], v) + if e.data.Vm? && e.data.vmid == v then [e] else []
  }

  /** The entries of all guests that the filter allows, in order. */
  function AllowedEntries(es: seq<IpamEntry>, filter: Option<set<Vmid>>): seq<IpamEntry> {
    if es == [] then []
    else
      var e := es[|es| - 1];
      AllowedEntries(es[..|es| - 1], filter) + if e.data.Vm? && IsGuestAllowed(filter, e.data.vmid) then [e] else []
  }

  function Hosts(es: seq<IpamEntry>): (hs: seq<IpsetEntry>)
    ensures |hs| == |es| && forall i :: 0 <= i < |hs| ==> hs[i] == IpsetEntry(false, CidrAddress(Host(es[i].data.ip)))
  {
    seq(|es|, i requires 0 <= i < |es| => IpsetEntry(false, CidrAddress(Host(es[i].data.ip))))
  }

  /** A guest's set lists its own entries, one address for each. */
  lemma {:induction false} SetOfOwnEntries(es: seq<IpamEntry>, v: Vmid)
    ensures GuestEntries(es, v) == Hosts(OwnEntries(es, v))
  {
    if es != [] {
      SetOfOwnEntries(es[..|es| - 1], v);
    }
  }

  lemma {:induction false} OwnCount(es: seq<IpamEntry>, v: Vmid, e: IpamEntry)
    ensures multiset(OwnEntries(es, v))[e] == if e.data.Vm? && e.data.vmid == v then multiset(es)[e] else 0
  {
    if es != [] {
      OwnCount(es[..|es| - 1], v, e);
      assert es == es[..|es| - 1] + [es[|es| - 1]];
    }
  }

  lemma {:induction false} AllowedCount(es: seq<IpamEntry>, filter: Option<set<Vmid>>, e: IpamEntry)
    ensures multiset(AllowedEntries(es, filter))[e] ==
            if e.data.Vm? && IsGuestAllowed(filter, e.data.vmid) then multiset(es)[e] else 0
  {
    if es != [] {
      AllowedCount(es[..|es| - 1], filter, e);
      assert es == es[..|es| - 1] + [es[|es| - 1]];
    }
  }

  function OwnLists(es: seq<IpamEntry>, vs: seq<Vmid>): (ss: seq<seq<IpamEntry>>)
    ensures |ss| == |vs| && forall i :: 0 <= i < |ss| ==> ss[i] == OwnEntries(es, vs[i])
  {
    seq(|vs|, i requires 0 <= i < |vs| => OwnEntries(es, vs[i]))
  }

  lemma {:induction false} OwnListsCount(es: seq<IpamEntry>, vs: seq<Vmid>, e: IpamEntry)
    requires NoDup(vs)
    ensures multiset(Flatten(OwnLists(es, vs)))[e] == if e.data.Vm? && e.data.vmid in vs then multiset(es)[e] else 0
  {
    if vs != [] {
      var ss, rest := OwnLists(es, vs), vs[1..];
      assert ss[1..] == OwnLists(es, rest);
      assert vs == [vs[0]] + rest;
      NoDupConcat([vs[0]], rest);
      OwnCount(es, vs[0], e);
      OwnListsCount(es, rest, e);
      assert vs[0] in [vs[0]];
    }
  }

  lemma GuestHasEntry(es: seq<IpamEntry>, e: IpamEntry)
    requires e in es && e.data.Vm?
    ensures GuestEntries(es, e.data.vmid) != []
  {
    SetOfOwnEntries(es, e.data.vmid);
    OwnCount(es, e.data.vmid, e);
  }

  /** The sets together list every entry of every allowed guest exactly once, each in the set
      of its guest: vs enumerates the guests that have a set. */
  lemma GuestsPartitioned(sets: map<Vmid, Ipset>, es: seq<IpamEntry>, filter: Option<set<Vmid>>, vs: seq<Vmid>)
    requires GuestSets(sets, es, filter) && NoDup(vs) && forall v :: v in vs <==> v in sets
    ensures multiset(Flatten(OwnLists(es, vs))) == multiset(AllowedEntries(es, filter))
    ensures forall v :: v in vs ==> sets[v].entries == Hosts(OwnEntries(es, v))
  {
    forall e: IpamEntry ensures multiset(Flatten(OwnLists(es, vs)))[e] == multiset(AllowedEntries(es, filter))[e] {
      OwnListsCount(es, vs, e);
      AllowedCount(es, filter, e);
      if e in es && e.data.Vm? {
        GuestHasEntry(es, e);
      }
    }
    forall v | v in vs ensures sets[v].entries == Hosts(OwnEntries(es, v)) {
      SetOfOwnEntries(es, v);
    }
  }

  // ----- When two guests share an address -----

  ghost predicate HasGuest(es: seq<IpamEntry>, v: Vmid, ip: IpAddr) {
    exists i :: IsGuestAt(es, v, i, ip)
  }

  /** The subnet has allocated the address to the guest. */
  ghost predicate Allocated(entries: Entries, s: SubnetName, v: Vmid, ip: IpAddr) {
    s in entries && HasGuest(entries[s], v, ip)
  }

  ghost predicate AllocatedIn(entries: Entries, order: seq<SubnetName>, v: Vmid, ip: IpAddr) {
    exists s :: s in order && Allocated(entries, s, v, ip)
  }

  lemma AllocatedInLast(entries: Entries, init: seq<SubnetName>, last: SubnetName, v: Vmid, ip: IpAddr)
    ensures AllocatedIn(entries, init + [last], v, ip) <==>
              AllocatedIn(entries, init, v, ip) || Allocated(entries, last, v, ip)
  {
    var order := init + [last];
    assert order[|init|] == last && forall s :: s in init ==> s in order;
    if s :| s in init && Allocated(entries, s, v, ip) {
      assert s in order;
    }
  }

  lemma {:induction false} AllocatedSomewhere(entries: Entries, order: seq<SubnetName>, v: Vmid, ip: IpAddr)
    requires forall s :: s in order ==> s in entries
    ensures HasGuest(AllEntries(entries, order), v, ip) <==> AllocatedIn(entries, order, v, ip)
  {
    if order == [] {
      assert AllEntries(entries, order) == [];
    } else {
      var init, last := order[..|order| - 1], order[|order| - 1];
      assert order == init + [last];
      AllocatedSomewhere(entries, init, v, ip);
      AllocatedInLast(entries, init, last, v, ip);
      HasGuestConcat(AllEntries(entries, init), entries[last], v, ip);
    }
  }

  lemma HasGuestConcat(a: seq<IpamEntry>, b: seq<IpamEntry>, v: Vmid, ip: IpAddr)
    ensures HasGuest(a + b, v, ip) <==> HasGuest(a, v, ip) || HasGuest(b, v, ip)
  {
    if i :| IsGuestAt(a, v, i, ip) {
      assert IsGuestAt(a + b, v, i, ip);
    }
    if i :| IsGuestAt(b, v, i, ip) {
      assert IsGuestAt(a + b, v, |a| + i, ip);
    }
    if i :| IsGuestAt(a + b, v, i, ip) {
      assert if i < |a| then IsGuestAt(a, v, i, ip) else IsGuestAt(b, v, i - |a|, ip);
    }
  }

  /** An address is in a guest's set exactly if some subnet has allocated it to the guest. */
  lemma GuestAddresses(entries: Entries, order: seq<SubnetName>, v: Vmid, ip: IpAddr)
    requires Enumerates(order, entries)
    ensures In(Ipset(GuestSetName(v), GuestEntries(AllEntries(entries, order), v)), ip) <==>
              exists s :: Allocated(entries, s, v, ip)
  {
    GuestSetMeaning(AllEntries(entries, order), v, ip);
    AllocatedSomewhere(entries, order, v, ip);
  }

  /** A subnet allocates an address to one guest only. */
  lemma OneGuestPerSubnet(entries: Entries, s: SubnetName, v: Vmid, w: Vmid, ip: IpAddr)
    requires IpamOk(entries) && Allocated(entries, s, v, ip) && Allocated(entries, s, w, ip)
    ensures v == w
  {
    var es := entries[s];
    var i :| IsGuestAt(es, v, i, ip);
    var j :| IsGuestAt(es, w, j, ip);
    assert AddressesOf(es)[i] == AddressesOf(es)[j];
  }

  /** The sets of two guests share an address exactly if two different subnets have allocated
      it, one to each of them. */
  lemma SharedAddress(sets: map<Vmid, Ipset>, entries: Entries, order: seq<SubnetName>, filter: Option<set<Vmid>>,
                      v: Vmid, w: Vmid, ip: IpAddr)
    requires IpamOk(entries) && Enumerates(order, entries) && GuestSets(sets, AllEntries(entries, order), filter)
    requires v in sets && w in sets && v != w
    ensures In(sets[v], ip) && In(sets[w], ip) <==>
            exists s, t :: s != t && Allocated(entries, s, v, ip) && Allocated(entries, t, w, ip)
  {
    GuestAddresses(entries, order, v, ip);
    GuestAddresses(entries, order, w, ip);
    if s, t :| Allocated(entries, s, v, ip) && Allocated(entries, t, w, ip) {
      if s == t {
        OneGuestPerSubnet(entries, s, v, w, ip);
      }
    }
  }

  // ----- The sets of a database that was read -----

  /** The database has given the address to the guest, in the subnet. */
  ghost predicate Recorded(json: IpamJson, s: SubnetName, v: Vmid, ip: IpAddr) {
    InJson(json, s, ip) && json[s.zone][s.cidr][ip].VmJson? && json[s.zone][s.cidr][ip].vmid == v
  }

  ghost predicate GivenTo(json: IpamJson, v: Vmid, ip: IpAddr) {
    exists s :: Recorded(json, s, v, ip)
  }

  lemma AllocatedIfRecorded(entries: Entries, json: IpamJson, s: SubnetName, v: Vmid, ip: IpAddr)
    requires RecordsRead(entries, json)
    ensures Allocated(entries, s, v, ip) <==> Recorded(json, s, v, ip)
  {
    if Allocated(entries, s, v, ip) {
      var i :| IsGuestAt(entries[s], v, i, ip);
      assert entries[s][i] in At(entries, s);
    }
    if Recorded(json, s, v, ip) {
      var j := json[s.zone][s.cidr][ip];
      var e := IpamEntry(s, Vm(ip, v, j.mac, j.hostname));
      assert e in At(entries, s);
      var i :| 0 <= i < |entries[s]| && entries[s][i] == e;
      assert IsGuestAt(entries[s], v, i, ip);
    }
  }

  /** After reading a database, a guest that the filter allows has a set exactly if the database has
      an address for it, and the set holds exactly its addresses. */
  lemma GuestsOfJson(sets: map<Vmid, Ipset>, entries: Entries, order: seq<SubnetName>, filter: Option<set<Vmid>>,
                     json: IpamJson, v: Vmid)
    requires RecordsRead(entries, json) && Enumerates(order, entries)
    requires GuestSets(sets, AllEntries(entries, order), filter)
    ensures v in sets <==> (filter.Some? ==> v in filter.value) && exists ip :: GivenTo(json, v, ip)
    ensures v in sets ==> sets[v].name == "guest-ipam-" + Text.PrintNat(v) &&
                          forall ip :: In(sets[v], ip) <==> GivenTo(json, v, ip)
  {
    var es := AllEntries(entries, order);
    forall ip ensures In(Ipset(GuestSetName(v), GuestEntries(es, v)), ip) <==> GivenTo(json, v, ip) {
      AddressOfJson(entries, order, json, v, ip);
    }
    HasSet(es, v);
  }

  lemma AddressOfJson(entries: Entries, order: seq<SubnetName>, json: IpamJson, v: Vmid, ip: IpAddr)
    requires RecordsRead(entries, json) && Enumerates(order, entries)
    ensures In(Ipset(GuestSetName(v), GuestEntries(AllEntries(entries, order), v)), ip) <==>
              GivenTo(json, v, ip)
  {
    GuestAddresses(entries, order, v, ip);
    forall s ensures Allocated(entries, s, v, ip) <==> Recorded(json, s, v, ip) {
      AllocatedIfRecorded(entries, json, s, v, ip);
    }
  }

  /** A guest has entries exactly if its set holds some address. */
  lemma HasSet(es: seq<IpamEntry>, v: Vmid)
    ensures GuestEntries(es, v) != [] <==> exists ip :: In(Ipset(GuestSetName(v), GuestEntries(es, v)), ip)
  {
    if GuestEntries(es, v) != [] {
      var e := GuestEntries(es, v)[0];
      assert e in GuestEntries(es, v);
      GuestEntriesMember(es, v, e);
      var i, ip :| IsGuestAt(es, v, i, ip) && e == IpsetEntry(false, CidrAddress(Host(ip)));
      GuestSetMeaning(es, v, ip);
    }
  }

  // ----- A state in which two guests share an address -----

  const SHARED_IP := V4(0x0A00_0005)
  const LEFT_SUBNET := SubnetName("left", Cidr4(Ipv4Cidr(0x0A00_0005, 32)))
  const RIGHT_SUBNET := SubnetName("right", Cidr4(Ipv4Cidr(0x0A00_0005, 32)))
  const LEFT_ENTRY := IpamEntry(LEFT_SUBNET, Vm(SHARED_IP, 100, MacAddress(1), None))
  const RIGHT_ENTRY := IpamEntry(RIGHT_SUBNET, Vm(SHARED_IP, 101, MacAddress(2), None))

  /** Two zones with the same subnet: each allocates the address, to different guests. */
  method AllocateTwice() returns (ipam: Ipam, sets: map<Vmid, Ipset>)
    ensures fresh(ipam) && ipam.Valid()
    ensures 100 in sets && 101 in sets && In(sets[100], SHARED_IP) && In(sets[101], SHARED_IP)
  {
    ipam := new Ipam();
    assert AddressesOf(At(ipam.entries, LEFT_SUBNET)) == [] && [] + [LEFT_ENTRY] == [LEFT_ENTRY];
    var first := ipam.AddEntry(LEFT_ENTRY);
    assert ipam.entries == map[LEFT_SUBNET := [LEFT_ENTRY]];
    assert |LEFT_SUBNET.zone| != |RIGHT_SUBNET.zone|;
    assert AddressesOf(At(ipam.entries, RIGHT_SUBNET)) == [] && [] + [RIGHT_ENTRY] == [RIGHT_ENTRY];
    var second := ipam.AddEntry(RIGHT_ENTRY);
    assert ipam.entries == map[LEFT_SUBNET := [LEFT_ENTRY], RIGHT_SUBNET := [RIGHT_ENTRY]];
    var order := [LEFT_SUBNET, RIGHT_SUBNET];
    sets := ipam.GuestIpsets(order, None);
    BothAllocated(ipam.entries, order);
    SharedAddress(sets, ipam.entries, order, None, 100, 101, SHARED_IP);
  }

  lemma BothAllocated(entries: Entries, order: seq<SubnetName>)
    requires entries == map[LEFT_SUBNET := [LEFT_ENTRY], RIGHT_SUBNET := [RIGHT_ENTRY]] &&
             order == [LEFT_SUBNET, RIGHT_SUBNET]
    ensures Allocated(entries, LEFT_SUBNET, 100, SHARED_IP) && Allocated(entries, RIGHT_SUBNET, 101, SHARED_IP)
    ensures GuestEntries(AllEntries(entries, order), 100) != [] && GuestEntries(AllEntries(entries, order), 101) != []
  {
    assert IsGuestAt(entries[LEFT_SUBNET], 100, 0, SHARED_IP) && IsGuestAt(entries[RIGHT_SUBNET], 101, 0, SHARED_IP);
    BothListed(entries, order);
    GuestHasEntry([LEFT_ENTRY, RIGHT_ENTRY], LEFT_ENTRY);
    GuestHasEntry([LEFT_ENTRY, RIGHT_ENTRY], RIGHT_ENTRY);
  }

  lemma BothListed(entries: Entries, order: seq<SubnetName>)
    requires entries == map[LEFT_SUBNET := [LEFT_ENTRY], RIGHT_SUBNET := [RIGHT_ENTRY]] &&
             order == [LEFT_SUBNET, RIGHT_SUBNET]
    ensures AllEntries(entries, order) == [LEFT_ENTRY, RIGHT_ENTRY]
  {
    assert order[..1] == [LEFT_SUBNET] && [LEFT_SUBNET][..0] == [];
    assert |LEFT_SUBNET.zone| != |RIGHT_SUBNET.zone|;
    assert AllEntries(entries, [LEFT_SUBNET]) == AllEntries(entries, []) + [LEFT_ENTRY];
    assert AllEntries(entries, order) == AllEntries(entries, [LEFT_SUBNET]) + [RIGHT_ENTRY];
  }

  /** Sets of different guests have different names. */
  lemma GuestSetNamesDistinct(v: Vmid, w: Vmid)
    requires GuestSetName(v) == GuestSetName(w)
    ensures v == w
  {
    var n := |"guest-ipam-"|;
    assert GuestSetName(v)[n..] == Text.PrintNat(v) && GuestSetName(w)[n..] == Text.PrintNat(w);
    Text.ParsePrintNat(v, if v <= w then w else v);
    Text.ParsePrintNat(w, if v <= w then w else v);
  }
}
