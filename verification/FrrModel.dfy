/** The FRR configuration that the fabric compiler writes, and the meaning of its route-maps. */
module FrrModel {
  import opened Wrappers
  import opened Addresses
  import opened Identifiers
  import opened FabricModel
  import opened BgpRouters
  import opened NetworkEntityTitle

  datatype AccessAction = Permit | Deny
  datatype AccessListRule = AccessListRule(action: AccessAction, network: Cidr, isIpv6: bool, number: Option<U32>)

  /** A match clause; kinds that the fabric compiler never emits are kept as key and value. */
  datatype RouteMapMatch =
    | IpAddressAccessList(list: string)
    | Ip6AddressAccessList(list: string)
    | IpAddressPrefixList(list: string)
    | Ip6AddressPrefixList(list: string)
    | OtherMatch(key: string, value: string)

  datatype RouteMapSet = Src(address: IpAddr) | OtherSet(key: string, value: string)
  datatype ExitAction = OnMatchNext | OnMatchGoto(n: U16) | Continue(n: U16)

  datatype RouteMapEntry =
    RouteMapEntry(number: U16, action: AccessAction, matches: seq<RouteMapMatch>, sets: seq<RouteMapSet>,
                  call: Option<string>, exitAction: Option<ExitAction>, customFrrConfig: seq<string>)

  datatype FrrProtocol = FrrOspf | FrrOpenfabric | FrrBgp
  datatype IpProtocolRouteMap = IpProtocolRouteMap(v4: Option<string>, v6: Option<string>)
  datatype VrfName = Default | Custom(name: string)

  datatype FrrOpenfabricInterface =
    FrrOpenfabricInterface(fabricId: string, passive: Option<bool>, helloInterval: Option<nat>,
                           csnpInterval: Option<nat>,
                           helloMultiplier: Option<nat>, isIpv4: bool, isIpv6: bool)

  datatype FrrOspfInterface = FrrOspfInterface(area: string, passive: Option<bool>, networkType: Option<NetworkType>)
  datatype OspfRouter = OspfRouter(routerId: Ipv4Addr, redistribute: seq<Redistribution>)

  /** The part of a configuration that decides what happens to routes. */
  datatype Policy =
    Policy(routemaps: map<string, seq<RouteMapEntry>>, accessLists: map<string, seq<AccessListRule>>,
           protocolRoutemaps: map<FrrProtocol, IpProtocolRouteMap>)

  /** The contents of a configuration. */
  datatype FrrState =
    FrrState(openfabricRouters: map<string, Net>, openfabricInterfaces: map<string, FrrOpenfabricInterface>,
             ospfRouter: Option<OspfRouter>, ospfInterfaces: map<string, FrrOspfInterface>,
             vrfRouters: map<VrfName, RouterData>, policy: Policy)

  const EMPTY_POLICY := Policy(map[], map[], map[])
  const EMPTY_STATE := FrrState(map[], map[], None, map[], map[], EMPTY_POLICY)

  class FrrConfig {
    var openfabricRouters: map<string, Net>
    var openfabricInterfaces: map<string, FrrOpenfabricInterface>
    var ospfRouter: Option<OspfRouter>
    var ospfInterfaces: map<string, FrrOspfInterface>
    var vrfRouters: map<VrfName, BgpRouter>
    var routemaps: map<string, seq<RouteMapEntry>>
    var accessLists: map<string, seq<AccessListRule>>
    var protocolRoutemaps: map<FrrProtocol, IpProtocolRouteMap>

    constructor ()
      ensures Valid() && State() == EMPTY_STATE
    {
      openfabricRouters, openfabricInterfaces := map[], map[];
      ospfRouter, ospfInterfaces := None, map[];
      vrfRouters := map[];
      routemaps, accessLists, protocolRoutemaps := map[], map[], map[];
    }

    /** Each VRF has its own router section. */
    ghost predicate Valid()
      reads this`vrfRouters
    {
      forall a, b :: a in vrfRouters && b in vrfRouters && a != b ==> vrfRouters[a] != vrfRouters[b]
    }

    ghost function RouterContents(): map<VrfName, RouterData>
      reads this`vrfRouters, vrfRouters.Values
    {
      map v | v in vrfRouters :: vrfRouters[v].Data()
    }

    ghost function RoutePolicy(): Policy
      reads this`routemaps, this`accessLists, this`protocolRoutemaps
    {
      Policy(routemaps, accessLists, protocolRoutemaps)
    }

    ghost function State(): FrrState
      reads this, vrfRouters.Values
    {
      FrrState(openfabricRouters, openfabricInterfaces, ospfRouter, ospfInterfaces, RouterContents(), RoutePolicy())
    }
  }

  // ----- The meaning of route-maps -----

  /** A route is identified by its destination prefix. */
  type Route = Cidr

  /** Meanings that the configuration leaves open: prefix lists and route-maps that are
      defined by the user, and match clauses the fabric compiler never emits. */
  datatype Environment =
    Environment(prefixLists: (string, Route) -> bool, userMaps: (string, Route) -> bool,
                otherMatches: (RouteMapMatch, Route) -> bool)

  /** An access list permits a route when its first rule covering the route says so. */
  function AccessListPermits(rules: seq<AccessListRule>, r: Route): bool {
    if rules == [] then false
    else if Covers(rules[0].network, r) then rules[0].action.Permit?
    else AccessListPermits(rules[1..], r)
  }

  ghost function MatchHolds(m: RouteMapMatch, acls: map<string, seq<AccessListRule>>, env: Environment,
                            r: Route): bool {
    match m
    case IpAddressAccessList(l) => l in acls && r.Cidr4? && AccessListPermits(acls[l], r)
    case Ip6AddressAccessList(l) => l in acls && r.Cidr6? && AccessListPermits(acls[l], r)
    case IpAddressPrefixList(l) => r.Cidr4? && env.prefixLists(l, r)
    case Ip6AddressPrefixList(l) => r.Cidr6? && env.prefixLists(l, r)
    case OtherMatch(_, _) => env.otherMatches(m, r)
  }

  ghost predicate EntryMatches(e: RouteMapEntry, acls: map<string, seq<AccessListRule>>, env: Environment, r: Route) {
    forall m :: m in e.matches ==> MatchHolds(m, acls, env, r)
  }

  /** The matching entry with the smallest sequence number. */
  ghost function FirstMatch(rm: seq<RouteMapEntry>, acls: map<string, seq<AccessListRule>>, env: Environment, r: Route)
    : (e: Option<RouteMapEntry>)
    ensures e.Some? ==> e.value in rm
  {
    if rm == [] then None
    else
      var rest := FirstMatch(rm[1..], acls, env, r);
      if EntryMatches(rm[0], acls, env, r) && (rest.None? || rm[0].number <= rest.value.number) then Some(rm[0])
         else rest
  }

  lemma FirstOfCons(e: RouteMapEntry, rm: seq<RouteMapEntry>, acls: map<string, seq<AccessListRule>>, env: Environment,
                    r: Route)
    ensures FirstMatch([e] + rm, acls, env, r) ==
            var rest := FirstMatch(rm, acls, env, r);
            if EntryMatches(e, acls, env, r) && (rest.None? || e.number <= rest.value.number) then Some(e) else rest
  {
    assert ([e] + rm)[1..] == rm;
  }

  /** The entries with numbers from n on. */
  function NumberedFrom(rm: seq<RouteMapEntry>, n: nat): (rest: seq<RouteMapEntry>)
    ensures |rest| <= |rm| && ((exists e :: e in rm && e.number < n) ==> |rest| < |rm|)
  {
    if rm == [] then []
    else
      var rest := NumberedFrom(rm[1..], n);
      assert rm == [rm[0]] + rm[1..];
      if rm[0].number < n then rest else [rm[0]] + rest
  }

  /** Where a matching entry sends the evaluation: to the next entry, or to the first one
      with at least the given number; never back. */
  function ResumeAt(e: RouteMapEntry, exit: ExitAction): nat {
    match exit
    case OnMatchNext => e.number + 1
    case OnMatchGoto(n) => if n <= e.number then e.number + 1 else n
    case Continue(n) => if n <= e.number then e.number + 1 else n
  }

  /** What a route-map does with a route: drop it, or accept it with a source address set or not. */
  datatype Verdict = Denied | Accepted(src: Option<IpAddr>)

  function SourceSet(sets: seq<RouteMapSet>): Option<IpAddr> {
    if sets == [] then None
    else if sets[|sets| - 1].Src? then Some(sets[|sets| - 1].address)
    else SourceSet(sets[..|sets| - 1])
  }

  /** The verdict so far, changed by a permitting entry: a source that it does not set stays. */
  function WithSets(sofar: Verdict, sets: seq<RouteMapSet>): Verdict {
    Accepted(OrElse(SourceSet(sets), if sofar.Accepted? then sofar.src else None))
  }

  /** Entries are tried in sequence order. The first match decides, unless it permits and has an
      exit action: then evaluation goes on behind it, and its verdict stands if nothing else matches.
      A called map can still deny what its caller permits. */
  ghost function EvaluateOn(rm: seq<RouteMapEntry>, acls: map<string, seq<AccessListRule>>, env: Environment, r: Route,
                            sofar: Verdict)
    : Verdict
    decreases |rm|
  {
    match FirstMatch(rm, acls, env, r)
    case None => sofar
    case Some(e) =>
      if e.action.Deny? || (e.call.Some? && !env.userMaps(e.call.value, r)) then Denied
      else if e.exitAction.None? then WithSets(sofar, e.sets)
      else EvaluateOn(NumberedFrom(rm, ResumeAt(e, e.exitAction.value)), acls, env, r, WithSets(sofar, e.sets))
  }

  /** A route that no entry matches is denied. */
  ghost function Evaluate(rm: seq<RouteMapEntry>, acls: map<string, seq<AccessListRule>>, env: Environment,
                          r: Route): Verdict {
    EvaluateOn(rm, acls, env, r, Denied)
  }
}
