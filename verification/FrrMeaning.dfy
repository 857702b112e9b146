/** The compiled route-maps mean what the fabric configuration says: totality of the
    compiler, its sequence numbers, and the verdict on every route. */
module FrrMeaning {
  import opened Wrappers
  import opened Addresses
  import opened Identifiers
  import opened Collections
  import opened Text
  import opened FabricModel
  import opened FabricRules
  import opened FrrModel
  import opened FrrCompiler

  // ----- The compiler never fails on a valid configuration -----

  lemma IdsAreWords(f: FabricId)
    requires IsFabricId(f)
    ensures IsFrrWord(f) && FitsInterfaceName(DummyName(f))
  {
    forall c | c in f ensures c as int < 128 && !IsWhitespace(c) {
      assert IsAlnum(c) || c == '-';
    }
    assert f[0] in f;
  }

  lemma AreasAreAreas(a: Area)
    ensures IsFrrWord(PrintArea(a)) && IsFrrArea(PrintArea(a))
  {
    match a
    case Number(n) =>
      ParsePrintNat(n, 0xFFFF_FFFF);
      forall c | c in PrintNat(n) ensures c as int < 128 && !IsWhitespace(c) { assert IsDecimal(c); }
    case IpAddress(ip) =>
      PrintedIpv4IsText(ip);
      forall c | c in PrintIpv4(ip) ensures c as int < 128 && !IsWhitespace(c) { assert IsDecimal(c) || c == '.'; }
  }

  lemma BindingsFit(e: FabricEntry, node: NodeId)
    requires EntryFormatted(e) && node in e.nodes
    ensures e.fabric.properties.OpenfabricFabric? && e.nodes[node].properties.OpenfabricNode? ==>
              Firsts(OpenfabricBindings(e.fabric, e.nodes[node])) ==
                [DummyName(e.fabric.id)] + LinkNames(e.nodes[node].properties)
    ensures e.fabric.properties.OspfFabric? && e.nodes[node].properties.OspfNode? ==>
              Firsts(OspfBindings(e.fabric, e.nodes[node])) ==
                [DummyName(e.fabric.id)] + LinkNames(e.nodes[node].properties)
    ensures NamesFit([DummyName(e.fabric.id)] + LinkNames(e.nodes[node].properties))
    ensures NamesFit(LinkNames(e.nodes[node].properties))
  {
    IdsAreWords(e.fabric.id);
    var names := LinkNames(e.nodes[node].properties);
    forall i | 0 <= i < |names| ensures FitsInterfaceName(names[i]) {
      assert names[i] in names;
      assert IsInterfaceName(names[i]);
    }
  }

  lemma StepSucceeds(c: Context, e: FabricEntry, node: NodeId)
    requires EntryWellFormed(e) && EntryFormatted(e) && EntryOk(e)
    ensures Step(c, e, node).Ok?
  {
    if node in e.nodes {
      var f, n := e.fabric, e.nodes[node];
      assert NodeOk(f, n);
      IdsAreWords(f.id);
      BindingsFit(e, node);
      if f.properties.OspfFabric? {
        AreasAreAreas(f.properties.area);
      }
    }
  }

  lemma {:induction false} RunSucceeds(c: Context, es: seq<FabricEntry>, node: NodeId)
    requires Ordered(es) && forall i :: 0 <= i < |es| ==> EntryOk(es[i])
    ensures Run(c, es, node).Ok?
    decreases |es|
  {
    if es != [] {
      StepSucceeds(c, es[0], node);
      RunSucceeds(Step(c, es[0], node).value, es[1..], node);
    }
  }

  /** For a valid configuration and any node, no error branch is reached. */
  lemma BuildSucceeds(s: FrrState, es: seq<FabricEntry>, node: NodeId)
    requires Ordered(es) && ConfigOk(es)
    ensures Build(s, es, node).Ok?
  {
    RunSucceeds(Context(s, INITIAL_NUMBER, None, None), es, node);
  }

  // ----- Sequence numbers -----

  lemma {:induction false} NumberAfterExact(n: U16, count: nat)
    requires n as int + 10 * count < 0x1_0000
    ensures NumberAfter(n, count) == n + 10 * count
    decreases count
  {
    if count > 0 {
      NumberAfterExact(n + 10, count - 1);
    }
  }

  /** The numbers given to `count` entries ascend strictly if and only if there are at
      most 6544 of them; the next one would wrap around and get number 4. */
  lemma SequenceNumbersAscend(count: nat)
    ensures (forall i: nat, j: nat :: i < j < count ==>
                                        NumberAfter(INITIAL_NUMBER, i) < NumberAfter(INITIAL_NUMBER, j)) <==>
            count <= 6544
  {
    if count <= 6544 {
      forall i: nat, j: nat | i < j < count ensures NumberAfter(INITIAL_NUMBER, i) < NumberAfter(INITIAL_NUMBER, j) {
        NumberAfterExact(100, i);
        NumberAfterExact(100, j);
      }
    } else {
      NumberAfterExact(100, 6543);
      NumberAfterStep(100, 6543);
      assert NumberAfter(INITIAL_NUMBER, 6543) == 65530 && NumberAfter(INITIAL_NUMBER, 6544) == 4;
    }
  }

  lemma {:induction false} NumberAfterStep(n: U16, count: nat)
    ensures NumberAfter(n, count + 1) == NextNumber(NumberAfter(n, count))
    decreases count
  {
    if count > 0 {
      NumberAfterStep(NextNumber(n), count - 1);
    }
  }

  lemma {:induction false} NumberAfterSum(n: U16, a: nat, b: nat)
    ensures NumberAfter(NumberAfter(n, a), b) == NumberAfter(n, a + b)
    decreases a
  {
    if a > 0 {
      NumberAfterSum(NextNumber(n), a - 1, b);
    }
  }

  // ----- What the fold over fabrics adds to the policy -----

  /** The entries that a node gets over all fabrics, in fabric order. */
  function AllEmissions(es: seq<FabricEntry>, node: NodeId): seq<Emission> {
    if es == [] then [] else Emissions(es[0], node) + AllEmissions(es[1..], node)
  }

  lemma {:induction false} EmitAllConcat(p: Policy, a: seq<Emission>, b: seq<Emission>, n: U16)
    ensures EmitAll(p, a + b, n) == EmitAll(EmitAll(p, a, n), b, NumberAfter(n, |a|))
    decreases |a|
  {
    if a == [] {
      assert a + b == b;
    } else {
      assert (a + b)[1..] == a[1..] + b;
      EmitAllConcat(Emit(p, a[0], n), a[1..], b, NextNumber(n));
    }
  }

  lemma StepPolicy(c: Context, e: FabricEntry, node: NodeId)
    requires EntryWellFormed(e) && Step(c, e, node).Ok?
    ensures var c' := Step(c, e, node).value;
            c'.frr.policy == EmitAll(c.frr.policy, Emissions(e, node), c.number) &&
            c'.number == NumberAfter(c.number, |Emissions(e, node)|)
  {
    if node in e.nodes {
      assert NodeProtocol(e.nodes[node]) == FabricProtocol(e.fabric);
    }
  }

  lemma {:induction false} RunPolicy(c: Context, es: seq<FabricEntry>, node: NodeId)
    requires forall i :: 0 <= i < |es| ==> EntryWellFormed(es[i])
    requires Run(c, es, node).Ok?
    ensures Run(c, es, node).value.frr.policy == EmitAll(c.frr.policy, AllEmissions(es, node), c.number)
    decreases |es|
  {
    if es != [] {
      StepPolicy(c, es[0], node);
      RunPolicy(Step(c, es[0], node).value, es[1..], node);
      EmitAllConcat(c.frr.policy, Emissions(es[0], node), AllEmissions(es[1..], node), c.number);
    }
  }

  /** The entries of one kind, with the numbers they get. */
  function Numbered(k: Kind, ems: seq<Emission>, n: U16): seq<RouteMapEntry>
    decreases |ems|
  {
    if ems == [] then []
    else (if ems[0].kind == k then [SourceEntry(ems[0], n)] else []) + Numbered(k, ems[1..], NextNumber(n))
  }

  lemma InboundIsNoSourceMap(k: Kind, f: FabricId, l: Kind)
    ensures InboundName(k, f) != MapName(l)
  {
    var name := InboundName(k, f);
    assert name[|name| - 1] == 'n';
  }

  lemma MapNamesDiffer(k: Kind, l: Kind)
    ensures MapName(k) == MapName(l) <==> k == l
  {
    assert MapName(k)[4] == MapName(l)[4] && |MapName(k)| == |MapName(l)| ==> k == l by {
      assert |MapName(Openfabric4)| == 14 && |MapName(Openfabric6)| == 15 && |MapName(Ospf4)| == 8 &&
             |MapName(Bgp4)| == 7 && |MapName(Bgp6)| == 8;
      assert MapName(Ospf4)[4] == 'o' && MapName(Bgp6)[4] == 'b';
    }
  }

  lemma EmitMap(p: Policy, em: Emission, n: U16, k: Kind)
    ensures Entries(Emit(p, em, n).routemaps, MapName(k)) ==
            Entries(p.routemaps, MapName(k)) + (if em.kind == k then [SourceEntry(em, n)] else [])
    ensures MapName(k) in Emit(p, em, n).routemaps <==> MapName(k) in p.routemaps || em.kind == k
  {
    InboundIsNoSourceMap(em.kind, em.fabric.id, k);
    InboundIsNoSourceMap(em.kind, em.fabric.id, em.kind);
    MapNamesDiffer(em.kind, k);
  }

  lemma {:induction false} EmitAllMap(p: Policy, ems: seq<Emission>, n: U16, k: Kind)
    ensures Entries(EmitAll(p, ems, n).routemaps, MapName(k)) == Entries(p.routemaps, MapName(k)) + Numbered(k, ems, n)
    ensures MapName(k) in EmitAll(p, ems, n).routemaps <==> MapName(k) in p.routemaps || Numbered(k, ems, n) != []
    decreases |ems|
  {
    if ems != [] {
      EmitMap(p, ems[0], n, k);
      var p' := Emit(p, ems[0], n);
      EmitAllMap(p', ems[1..], NextNumber(n), k);
      var own, rest := if ems[0].kind == k then [SourceEntry(ems[0], n)] else [], Numbered(k, ems[1..], NextNumber(n));
      assert Numbered(k, ems, n) == own + rest;
      ConcatAssociative(Entries(p.routemaps, MapName(k)), own, rest);
    }
  }

  // ----- Access lists -----

  lemma AclNamesDiffer(k: Kind, f: FabricId, l: Kind, g: FabricId)
    requires AclName(k, f) == AclName(l, g)
    ensures k == l && f == g
  {
    var a, b := AclName(k, f), AclName(l, g);
    assert a[4] == b[4] && a[5] == b[5] && a[|a| - 2] == b[|b| - 2];
    assert k == l;
    var start := if KindProtocol(k) == FrrOpenfabric then 15 else if KindProtocol(k) == FrrOspf then 9 else 8;
    var end := if IsV6(k) then 5 else 4;
    assert f == a[start..|a| - end] && g == b[start..|b| - end];
  }

  /** No two entries are for the same kind and fabric. */
  ghost predicate Separate(ems: seq<Emission>) {
    forall i, j :: 0 <= i < j < |ems| ==> ems[i].kind != ems[j].kind || ems[i].fabric.id != ems[j].fabric.id
  }

  lemma {:induction false} AclKept(p: Policy, ems: seq<Emission>, n: U16, k: Kind, f: FabricId)
    requires AclName(k, f) in p.accessLists
    requires forall i :: 0 <= i < |ems| ==> ems[i].kind != k || ems[i].fabric.id != f
    ensures AclName(k, f) in EmitAll(p, ems, n).accessLists &&
            EmitAll(p, ems, n).accessLists[AclName(k, f)] == p.accessLists[AclName(k, f)]
    decreases |ems|
  {
    if ems != [] {
      if AclName(ems[0].kind, ems[0].fabric.id) == AclName(k, f) {
        AclNamesDiffer(ems[0].kind, ems[0].fabric.id, k, f);
      }
      AclKept(Emit(p, ems[0], n), ems[1..], NextNumber(n), k, f);
    }
  }

  /** Each access list keeps the one rule that its fabric wrote. */
  lemma {:induction false} AclWritten(p: Policy, ems: seq<Emission>, n: U16, i: nat)
    requires Separate(ems) && i < |ems| && NeedsAcl(ems[i])
    ensures var name, acls := AclName(ems[i].kind, ems[i].fabric.id), EmitAll(p, ems, n).accessLists;
            name in acls && acls[name] == [AclRule(ems[i])]
    decreases |ems|
  {
    if i == 0 {
      AclKept(Emit(p, ems[0], n), ems[1..], NextNumber(n), ems[0].kind, ems[0].fabric.id);
    } else {
      AclWritten(Emit(p, ems[0], n), ems[1..], NextNumber(n), i - 1);
    }
  }

  // ----- The source-level rule -----

  /** A fabric lets a route of a kind pass: its route filter decides if it has one,
      otherwise the route must lie in the fabric's prefix. */
  ghost predicate Admits(f: Fabric, k: Kind, r: Route, env: Environment) {
    var p, isV6 := f.properties, k == Openfabric6 || k == Bgp6;
    if !p.WireGuardFabric? && p.routeFilter.Some?
    then (if isV6 then r.Cidr6? else r.Cidr4?) && env.prefixLists(p.routeFilter.value, r)
    else if isV6 then f.ip6Prefix.Some? ==> Covers(Cidr6(f.ip6Prefix.value), r)
    else f.ipPrefix.Some? ==> Covers(Cidr4(f.ipPrefix.value), r)
  }

  /** The node's own address in a fabric, if the fabric contributes to a kind. */
  function OwnAddress(e: FabricEntry, node: NodeId, k: Kind): Option<IpAddr> {
    if node !in e.nodes then None
    else
      var n := e.nodes[node];
      var joined := match KindProtocol(k)
        case FrrOpenfabric => n.properties.OpenfabricNode?
        case FrrOspf => n.properties.OspfNode?
        case FrrBgp => n.properties.BgpInternal?;
      if !joined then None
      else if IsV6(k) then (if n.ip6.Some? then Some(V6(n.ip6.value)) else None)
      else (if n.ip.Some? then Some(V4(n.ip.value)) else None)
  }

  /** The node's address in the first fabric, in id order, that it is in and that admits the route. */
  ghost function SourceRule(es: seq<FabricEntry>, node: NodeId, k: Kind, r: Route, env: Environment): Option<IpAddr> {
    if es == [] then None
    else if OwnAddress(es[0], node, k).Some? && Admits(es[0].fabric, k, r, env) then OwnAddress(es[0], node, k)
    else SourceRule(es[1..], node, k, r, env)
  }

  /** Routes that no fabric admits are dropped, except that BGP passes them unchanged. */
  ghost function SourceVerdict(es: seq<FabricEntry>, node: NodeId, k: Kind, r: Route, env: Environment): Verdict {
    var src := SourceRule(es, node, k, r, env);
    if src.Some? then Accepted(src) else if IsBgp(k) then Accepted(None) else Denied
  }

  // ----- Evaluating the compiled map -----

  ghost predicate AscendingNumbers(rm: seq<RouteMapEntry>) {
    forall i, j :: 0 <= i < j < |rm| ==> rm[i].number < rm[j].number
  }

  /** The entries of a kind get ascending numbers, counting from n. */
  ghost predicate NumbersInOrder(k: Kind, ems: seq<Emission>, n: U16) {
    forall i: nat, j: nat :: i < j < |ems| && ems[i].kind == k && ems[j].kind == k ==>
                               NumberAfter(n, i) < NumberAfter(n, j)
  }

  /** Up to 6544 entries the counter never wraps between two of them. */
  lemma FewEmissionsInOrder(k: Kind, ems: seq<Emission>)
    requires |ems| <= 6544
    ensures NumbersInOrder(k, ems, INITIAL_NUMBER)
  {
    SequenceNumbersAscend(|ems|);
  }

  /** The access lists hold the rule of every entry that refers to one. */
  ghost predicate AclsFit(ems: seq<Emission>, acls: map<string, seq<AccessListRule>>) {
    forall i :: 0 <= i < |ems| && NeedsAcl(ems[i]) ==>
      AclName(ems[i].kind, ems[i].fabric.id) in acls &&
      acls[AclName(ems[i].kind, ems[i].fabric.id)] == [AclRule(ems[i])]
  }

  lemma SourceEntryMatches(em: Emission, n: U16, acls: map<string, seq<AccessListRule>>, env: Environment, r: Route)
    requires AclsFit([em], acls)
    ensures EntryMatches(SourceEntry(em, n), acls, env, r) <==> Admits(em.fabric, em.kind, r, env)
  {
    var e := SourceEntry(em, n);
    assert [em][0] == em;
    if e.matches != [] {
      var m := e.matches[0];
      assert e.matches == [m];
      assert EntryMatches(e, acls, env, r) <==> MatchHolds(m, acls, env, r);
      if NeedsAcl(em) {
        var rules := [AclRule(em)];
        assert rules[1..] == [];
        assert acls[AclName(em.kind, em.fabric.id)] == rules;
        assert AccessListPermits(rules, r) <==> Covers(AclRule(em).network, r);
        assert Covers(AclRule(em).network, r) ==> (if IsV6(em.kind) then r.Cidr6? else r.Cidr4?);
        assert MatchHolds(m, acls, env, r) <==> Covers(AclRule(em).network, r);
      }
    }
  }

  /** The address of the first entry of a kind whose fabric admits the route. */
  ghost function FirstAdmitted(k: Kind, ems: seq<Emission>, r: Route, env: Environment): Option<IpAddr> {
    if ems == [] then None
    else if ems[0].kind == k && Admits(ems[0].fabric, k, r, env) then Some(ems[0].src)
    else FirstAdmitted(k, ems[1..], r, env)
  }

  /** Among the entries of a kind whose fabric admits the route, the one with the smallest number. */
  datatype Ranked = Ranked(number: U16, src: IpAddr)

  ghost function LeastAdmitted(k: Kind, ems: seq<Emission>, n: U16, r: Route, env: Environment): Option<Ranked>
    decreases |ems|
  {
    if ems == [] then None
    else
      var rest := LeastAdmitted(k, ems[1..], NextNumber(n), r, env);
      if ems[0].kind == k && Admits(ems[0].fabric, k, r, env) && (rest.None? || n <= rest.value.number)
      then Some(Ranked(n, ems[0].src)) else rest
  }

  ghost predicate IsEntryFor(e: Option<RouteMapEntry>, w: Option<Ranked>) {
    if w.None? then e.None?
    else e.Some? && e.value.number == w.value.number && e.value.action.Permit? &&
         e.value.sets == [Src(w.value.src)] && e.value.call.None? && e.value.exitAction.None?
  }

  lemma {:induction false} NumberedMatch(k: Kind, ems: seq<Emission>, n: U16, acls: map<string, seq<AccessListRule>>,
                                         env: Environment, r: Route)
    requires AclsFit(ems, acls)
    ensures IsEntryFor(FirstMatch(Numbered(k, ems, n), acls, env, r), LeastAdmitted(k, ems, n, r, env))
    decreases |ems|
  {
    if ems != [] {
      assert AclsFit([ems[0]], acls);
      SourceEntryMatches(ems[0], n, acls, env, r);
      NumberedMatch(k, ems[1..], NextNumber(n), acls, env, r);
      var rest := Numbered(k, ems[1..], NextNumber(n));
      FirstOfCons(SourceEntry(ems[0], n), rest, acls, env, r);
      assert Numbered(k, ems, n) == if ems[0].kind == k then [SourceEntry(ems[0], n)] + rest else rest;
    }
  }

  /** Source entries have even numbers, so none of them reaches 65535. */
  lemma {:induction false} NumberedBelow(k: Kind, ems: seq<Emission>, n: U16)
    requires n % 2 == 0
    ensures forall i :: 0 <= i < |Numbered(k, ems, n)| ==> Numbered(k, ems, n)[i].number < 65535
    decreases |ems|
  {
    if ems != [] {
      NumberedBelow(k, ems[1..], NextNumber(n));
    }
  }

  /** An entry that matches everything, with the largest number, only decides if no other does. */
  lemma {:induction false} FirstMatchBeforeLast(rm: seq<RouteMapEntry>, last: RouteMapEntry,
                                                acls: map<string, seq<AccessListRule>>, env: Environment, r: Route)
    requires EntryMatches(last, acls, env, r) && forall i :: 0 <= i < |rm| ==> rm[i].number < last.number
    ensures FirstMatch(rm + [last], acls, env, r) == OrElse(FirstMatch(rm, acls, env, r), Some(last))
  {
    if rm == [] {
      FirstOfCons(last, [], acls, env, r);
      assert rm + [last] == [last] + [];
    } else {
      FirstMatchBeforeLast(rm[1..], last, acls, env, r);
      FirstOfCons(rm[0], rm[1..] + [last], acls, env, r);
      assert rm + [last] == [rm[0]] + (rm[1..] + [last]);
    }
  }

  ghost predicate AdmitsAt(k: Kind, ems: seq<Emission>, r: Route, env: Environment, i: nat)
    requires i < |ems|
  {
    ems[i].kind == k && Admits(ems[i].fabric, k, r, env)
  }

  /** Entry f admits the route, and no earlier one does. */
  ghost predicate IsFirst(k: Kind, ems: seq<Emission>, r: Route, env: Environment, f: nat) {
    f < |ems| && AdmitsAt(k, ems, r, env, f) && forall h: nat :: h < f ==> !AdmitsAt(k, ems, r, env, h)
  }

  lemma {:induction false} FindFirst(k: Kind, ems: seq<Emission>, r: Route, env: Environment) returns (f: Option<nat>)
    ensures if f.Some? then IsFirst(k, ems, r, env, f.value)
            else forall i: nat :: i < |ems| ==> !AdmitsAt(k, ems, r, env, i)
  {
    f := None;
    if ems != [] {
      if AdmitsAt(k, ems, r, env, 0) {
        f := Some(0);
      } else {
        var rest := FindFirst(k, ems[1..], r, env);
        f := if rest.Some? then Some(rest.value + 1) else None;
        forall i: nat | 0 < i < |ems| && (f.None? || i < f.value) ensures !AdmitsAt(k, ems, r, env, i) {
          assert !AdmitsAt(k, ems[1..], r, env, i - 1);
        }
      }
    }
  }

  lemma {:induction false} NoneAdmitted(k: Kind, ems: seq<Emission>, n: U16, r: Route, env: Environment)
    requires forall i: nat :: i < |ems| ==> !AdmitsAt(k, ems, r, env, i)
    ensures FirstAdmitted(k, ems, r, env) == None && LeastAdmitted(k, ems, n, r, env) == None
    decreases |ems|
  {
    if ems != [] {
      assert !AdmitsAt(k, ems, r, env, 0);
      TailNotAdmitted(k, ems, r, env, |ems|);
      NoneAdmitted(k, ems[1..], NextNumber(n), r, env);
    }
  }

  lemma TailNotAdmitted(k: Kind, ems: seq<Emission>, r: Route, env: Environment, f: nat)
    requires ems != [] && f <= |ems| && forall h: nat :: h < f ==> !AdmitsAt(k, ems, r, env, h)
    ensures forall h: nat :: h < f - 1 ==> !AdmitsAt(k, ems[1..], r, env, h)
  {
    forall h: nat | h < f - 1 ensures !AdmitsAt(k, ems[1..], r, env, h) {
      assert !AdmitsAt(k, ems, r, env, h + 1);
    }
  }

  lemma {:induction false} FirstAdmittedIs(k: Kind, ems: seq<Emission>, r: Route, env: Environment, f: nat)
    requires IsFirst(k, ems, r, env, f)
    ensures FirstAdmitted(k, ems, r, env) == Some(ems[f].src)
  {
    if f > 0 {
      assert !AdmitsAt(k, ems, r, env, 0);
      TailNotAdmitted(k, ems, r, env, f);
      FirstAdmittedIs(k, ems[1..], r, env, f - 1);
    }
  }

  /** The first entry that admits a route wins if no later one that admits it has a smaller number. */
  lemma {:induction false} LeastIsFirst(k: Kind, ems: seq<Emission>, n: U16, r: Route, env: Environment, f: nat)
    requires IsFirst(k, ems, r, env, f)
    requires forall j: nat :: f < j < |ems| && AdmitsAt(k, ems, r, env, j) ==> NumberAfter(n, f) <= NumberAfter(n, j)
    ensures LeastAdmitted(k, ems, n, r, env) == Some(Ranked(NumberAfter(n, f), ems[f].src))
    decreases |ems|
  {
    var rest, next := ems[1..], NextNumber(n);
    if f > 0 {
      assert !AdmitsAt(k, ems, r, env, 0);
      TailNotAdmitted(k, ems, r, env, f);
      forall j: nat | f - 1 < j < |rest| && AdmitsAt(k, rest, r, env, j)
        ensures NumberAfter(next, f - 1) <= NumberAfter(next, j)
      {
        var j' := j + 1;
        assert AdmitsAt(k, ems, r, env, j');
        assert NumberAfter(n, f) <= NumberAfter(n, j');
      }
      LeastIsFirst(k, rest, next, r, env, f - 1);
    } else {
      LeastOrigin(k, rest, next, r, env);
      var w := LeastAdmitted(k, rest, next, r, env);
      if w.Some? {
        var i: nat :| i < |rest| && AdmitsAt(k, rest, r, env, i) &&
                      w.value == Ranked(NumberAfter(next, i), rest[i].src);
        var i' := i + 1;
        assert AdmitsAt(k, ems, r, env, i') && NumberAfter(n, i') == w.value.number;
      }
    }
  }

  /** The entry with the smallest number is one of them. */
  lemma {:induction false} LeastOrigin(k: Kind, ems: seq<Emission>, n: U16, r: Route, env: Environment)
    ensures var w := LeastAdmitted(k, ems, n, r, env);
            w.Some? ==> exists i: nat :: i < |ems| && AdmitsAt(k, ems, r, env, i) &&
                                         w.value == Ranked(NumberAfter(n, i), ems[i].src)
    decreases |ems|
  {
    if ems != [] {
      LeastOrigin(k, ems[1..], NextNumber(n), r, env);
      var w := LeastAdmitted(k, ems[1..], NextNumber(n), r, env);
      if w.Some? {
        var i: nat :| i < |ems[1..]| && AdmitsAt(k, ems[1..], r, env, i) &&
                      w.value == Ranked(NumberAfter(NextNumber(n), i), ems[1..][i].src);
        var i' := i + 1;
        assert AdmitsAt(k, ems, r, env, i') && NumberAfter(n, i') == w.value.number;
      }
      assert NumberAfter(n, 0) == n;
    }
  }

  /** No entry that admits the route has a smaller number. */
  lemma {:induction false} LeastIsLeast(k: Kind, ems: seq<Emission>, n: U16, r: Route, env: Environment, i: nat)
    requires i < |ems| && AdmitsAt(k, ems, r, env, i)
    ensures LeastAdmitted(k, ems, n, r, env).Some?
    ensures LeastAdmitted(k, ems, n, r, env).value.number <= NumberAfter(n, i)
    decreases |ems|
  {
    if i > 0 {
      LeastIsLeast(k, ems[1..], NextNumber(n), r, env, i - 1);
    }
  }

  lemma {:induction false} FirstAdmittedConcat(k: Kind, a: seq<Emission>, b: seq<Emission>, r: Route, env: Environment)
    ensures FirstAdmitted(k, a + b, r, env) == OrElse(FirstAdmitted(k, a, r, env), FirstAdmitted(k, b, r, env))
  {
    if a == [] {
      assert a + b == b;
    } else {
      assert (a + b)[1..] == a[1..] + b;
      FirstAdmittedConcat(k, a[1..], b, r, env);
    }
  }

  lemma FirstAdmittedOne(k: Kind, em: Emission, r: Route, env: Environment)
    ensures FirstAdmitted(k, [em], r, env) ==
            if em.kind == k && Admits(em.fabric, k, r, env) then Some(em.src) else None
  {
    assert [em][1..] == [];
  }

  lemma EntryAdmits(e: FabricEntry, node: NodeId, k: Kind, r: Route, env: Environment)
    ensures FirstAdmitted(k, Emissions(e, node), r, env) ==
            if OwnAddress(e, node, k).Some? && Admits(e.fabric, k, r, env) then OwnAddress(e, node, k) else None
  {
    var ems := Emissions(e, node);
    if |ems| >= 1 {
      FirstAdmittedConcat(k, [ems[0]], ems[1..], r, env);
      assert ems == [ems[0]] + ems[1..];
      FirstAdmittedOne(k, ems[0], r, env);
    }
    if |ems| == 2 {
      assert ems[1..] == [ems[1]];
      FirstAdmittedOne(k, ems[1], r, env);
    }
  }

  /** The entries of the compiled map follow the source-level rule. */
  lemma {:induction false} EmissionsFollowRule(es: seq<FabricEntry>, node: NodeId, k: Kind, r: Route, env: Environment)
    ensures FirstAdmitted(k, AllEmissions(es, node), r, env) == SourceRule(es, node, k, r, env)
  {
    if es != [] {
      EntryAdmits(es[0], node, k, r, env);
      EmissionsFollowRule(es[1..], node, k, r, env);
      FirstAdmittedConcat(k, Emissions(es[0], node), AllEmissions(es[1..], node), r, env);
    }
  }

  // ----- Putting the pieces together -----

  lemma EmissionsHead(es: seq<FabricEntry>, node: NodeId)
    requires es != []
    ensures AllEmissions(es, node) == Emissions(es[0], node) + AllEmissions(es[1..], node)
  {
  }

  lemma InConcat<T>(a: seq<T>, b: seq<T>, i: nat)
    requires i < |a + b|
    ensures i < |a| ==> (a + b)[i] in a
    ensures i >= |a| ==> (a + b)[i] == b[i - |a|]
  {
  }

  lemma {:induction false} EmissionOrigin(es: seq<FabricEntry>, node: NodeId, i: nat) returns (j: nat)
    requires i < |AllEmissions(es, node)|
    ensures j < |es| && AllEmissions(es, node)[i] in Emissions(es[j], node)
  {
    var first := Emissions(es[0], node);
    EmissionsHead(es, node);
    InConcat(first, AllEmissions(es[1..], node), i);
    if i < |first| {
      j := 0;
    } else {
      j := EmissionOrigin(es[1..], node, i - |first|);
      j := j + 1;
    }
  }

  lemma SeparateConcat(a: seq<Emission>, b: seq<Emission>)
    requires Separate(a) && Separate(b)
    requires forall x, y :: x in a && y in b ==> x.fabric.id != y.fabric.id
    ensures Separate(a + b)
  {
    var all := a + b;
    forall i, j | 0 <= i < j < |all| ensures all[i].kind != all[j].kind || all[i].fabric.id != all[j].fabric.id {
      if i < |a| <= j {
        assert all[i] in a && all[j] in b;
      }
    }
  }

  lemma OwnEmissions(e: FabricEntry, node: NodeId)
    ensures Separate(Emissions(e, node))
    ensures forall x :: x in Emissions(e, node) ==> x.fabric == e.fabric
  {
  }

  /** Fabric ids are unique, and one fabric emits each kind at most once. */
  lemma {:induction false} EmissionsSeparate(es: seq<FabricEntry>, node: NodeId)
    requires Ordered(es)
    ensures Separate(AllEmissions(es, node))
  {
    if es != [] {
      EmissionsSeparate(es[1..], node);
      OwnEmissions(es[0], node);
      var rest := AllEmissions(es[1..], node);
      forall y | y in rest ensures y.fabric.id != es[0].fabric.id {
        var i :| 0 <= i < |rest| && rest[i] == y;
        var o := EmissionOrigin(es[1..], node, i);
        OwnEmissions(es[1..][o], node);
        assert es[1..][o] == es[o + 1];
      }
      SeparateConcat(Emissions(es[0], node), rest);
    }
  }

  lemma {:induction false} KindEmitted(es: seq<FabricEntry>, node: NodeId, k: Kind, n: U16)
    ensures Numbered(k, AllEmissions(es, node), n) != [] <==>
              exists i :: 0 <= i < |es| && OwnAddress(es[i], node, k).Some?
  {
    if es != [] {
      var first, rest := Emissions(es[0], node), AllEmissions(es[1..], node);
      NumberedConcat(k, first, rest, n);
      KindEmitted(es[1..], node, k, NumberAfter(n, |first|));
      KindEmittedOnce(es[0], node, k, n);
      if i :| 0 <= i < |es[1..]| && OwnAddress(es[1..][i], node, k).Some? {
        assert OwnAddress(es[i + 1], node, k).Some?;
      }
      if i :| 0 <= i < |es| && OwnAddress(es[i], node, k).Some? {
        assert i > 0 ==> es[1..][i - 1] == es[i];
      }
    }
  }

  lemma {:induction false} NumberedConcat(k: Kind, a: seq<Emission>, b: seq<Emission>, n: U16)
    ensures Numbered(k, a + b, n) == Numbered(k, a, n) + Numbered(k, b, NumberAfter(n, |a|))
    decreases |a|
  {
    if a == [] {
      assert a + b == b;
    } else {
      assert (a + b)[1..] == a[1..] + b;
      NumberedConcat(k, a[1..], b, NextNumber(n));
      ConcatAssociative(if a[0].kind == k then [SourceEntry(a[0], n)] else [], Numbered(k, a[1..], NextNumber(n)),
                        Numbered(k, b, NumberAfter(n, |a|)));
    }
  }

  lemma KindEmittedOnce(e: FabricEntry, node: NodeId, k: Kind, n: U16)
    ensures Numbered(k, Emissions(e, node), n) != [] <==> OwnAddress(e, node, k).Some?
  {
    var ems := Emissions(e, node);
    if |ems| == 2 {
      assert ems[1..] == [ems[1]] && ems[1..][1..] == [];
      assert Numbered(k, ems[1..], NextNumber(n)) != [] <==> ems[1].kind == k;
    } else if |ems| == 1 {
      assert ems[1..] == [];
    }
  }

  lemma FinishedMap(m: map<string, seq<RouteMapEntry>>, k: Kind)
    ensures MapName(k) in Finish(Finish(m, Bgp4), Bgp6) <==> MapName(k) in m
    ensures MapName(k) in m ==>
              Finish(Finish(m, Bgp4), Bgp6)[MapName(k)] == m[MapName(k)] + (if IsBgp(k) then [PERMIT_REST] else [])
  {
    MapNamesDiffer(k, Bgp4);
    MapNamesDiffer(k, Bgp6);
    MapNamesDiffer(Bgp4, Bgp6);
  }

  lemma AclsWritten(p: Policy, ems: seq<Emission>, n: U16)
    requires Separate(ems)
    ensures AclsFit(ems, EmitAll(p, ems, n).accessLists)
  {
    forall i | 0 <= i < |ems| && NeedsAcl(ems[i])
      ensures var name, acls := AclName(ems[i].kind, ems[i].fabric.id), EmitAll(p, ems, n).accessLists;
              name in acls && acls[name] == [AclRule(ems[i])]
    {
      AclWritten(p, ems, n, i);
    }
  }

  /** The source address that entry w sets, or what happens to routes that no entry admits. */
  function VerdictOf(w: Option<Ranked>, k: Kind): Verdict {
    if w.Some? then Accepted(Some(w.value.src)) else if IsBgp(k) then Accepted(None) else Denied
  }

  lemma VerdictOfWinner(rm: seq<RouteMapEntry>, w: Option<Ranked>, acls: map<string, seq<AccessListRule>>,
                        env: Environment, r: Route)
    requires IsEntryFor(FirstMatch(rm, acls, env, r), w)
    ensures Evaluate(rm, acls, env, r) == if w.Some? then Accepted(Some(w.value.src)) else Denied
  {
    if w.Some? {
      var sets := [Src(w.value.src)];
      assert SourceSet(sets) == Some(w.value.src);
    }
  }

  lemma VerdictWithRest(rm: seq<RouteMapEntry>, w: Option<Ranked>, acls: map<string, seq<AccessListRule>>,
                        env: Environment, r: Route)
    requires IsEntryFor(FirstMatch(rm, acls, env, r), w) && forall i :: 0 <= i < |rm| ==> rm[i].number < 65535
    ensures Evaluate(rm + [PERMIT_REST], acls, env, r) == Accepted(if w.Some? then Some(w.value.src) else None)
  {
    FirstMatchBeforeLast(rm, PERMIT_REST, acls, env, r);
    if w.Some? {
      VerdictOfWinner(rm + [PERMIT_REST], w, acls, env, r);
    }
  }

  /** The verdict of the finished list of entries. */
  lemma VerdictOfEntries(ems: seq<Emission>, k: Kind, acls: map<string, seq<AccessListRule>>, env: Environment,
                         r: Route)
    requires AclsFit(ems, acls)
    ensures var rm := Numbered(k, ems, INITIAL_NUMBER) + (if IsBgp(k) then [PERMIT_REST] else []);
            Evaluate(rm, acls, env, r) == VerdictOf(LeastAdmitted(k, ems, INITIAL_NUMBER, r, env), k)
  {
    var own, w := Numbered(k, ems, INITIAL_NUMBER), LeastAdmitted(k, ems, INITIAL_NUMBER, r, env);
    NumberedMatch(k, ems, INITIAL_NUMBER, acls, env, r);
    if IsBgp(k) {
      NumberedBelow(k, ems, INITIAL_NUMBER);
      VerdictWithRest(own, w, acls, env, r);
    } else {
      assert own + [] == own;
      VerdictOfWinner(own, w, acls, env, r);
    }
  }

  /** The policy of the finished configuration, whatever was configured before. */
  lemma CompiledPolicy(prior: FrrState, es: seq<FabricEntry>, node: NodeId)
    requires Ordered(es) && ConfigOk(es)
    ensures Build(prior, es, node).Ok?
    ensures var p := EmitAll(prior.policy, AllEmissions(es, node), INITIAL_NUMBER);
            Build(prior, es, node).value.policy == p.(routemaps := Finish(Finish(p.routemaps, Bgp4), Bgp6))
  {
    BuildSucceeds(prior, es, node);
    RunPolicy(Context(prior, INITIAL_NUMBER, None, None), es, node);
  }

  function FinishedEntries(es: seq<FabricEntry>, node: NodeId, k: Kind): seq<RouteMapEntry> {
    Numbered(k, AllEmissions(es, node), INITIAL_NUMBER) + (if IsBgp(k) then [PERMIT_REST] else [])
  }

  /** No route-map of the kind was configured before. */
  predicate IsNew(prior: FrrState, k: Kind) { MapName(k) !in prior.policy.routemaps }

  lemma CompiledMap(prior: FrrState, es: seq<FabricEntry>, node: NodeId, k: Kind)
    requires Ordered(es) && ConfigOk(es) && IsNew(prior, k)
    ensures Build(prior, es, node).Ok?
    ensures var p := Build(prior, es, node).value.policy;
            (MapName(k) in p.routemaps <==> exists i :: 0 <= i < |es| && OwnAddress(es[i], node, k).Some?) &&
            (MapName(k) in p.routemaps ==> p.routemaps[MapName(k)] == FinishedEntries(es, node, k))
  {
    CompiledPolicy(prior, es, node);
    EmittedMap(prior.policy, es, node, k);
  }

  /** Access lists that were there before are replaced. */
  lemma CompiledAcls(prior: FrrState, es: seq<FabricEntry>, node: NodeId)
    requires Ordered(es) && ConfigOk(es)
    ensures Build(prior, es, node).Ok?
    ensures AclsFit(AllEmissions(es, node), Build(prior, es, node).value.policy.accessLists)
  {
    CompiledPolicy(prior, es, node);
    EmissionsSeparate(es, node);
    AclsWritten(prior.policy, AllEmissions(es, node), INITIAL_NUMBER);
  }

  lemma EmittedMap(prior: Policy, es: seq<FabricEntry>, node: NodeId, k: Kind)
    requires MapName(k) !in prior.routemaps
    ensures var m := EmitAll(prior, AllEmissions(es, node), INITIAL_NUMBER).routemaps;
            var finished := Finish(Finish(m, Bgp4), Bgp6);
            (MapName(k) in finished <==> exists i :: 0 <= i < |es| && OwnAddress(es[i], node, k).Some?) &&
            (MapName(k) in finished ==> finished[MapName(k)] == FinishedEntries(es, node, k))
  {
    EmitAllMap(prior, AllEmissions(es, node), INITIAL_NUMBER, k);
    KindEmitted(es, node, k, INITIAL_NUMBER);
    FinishedMap(EmitAll(prior, AllEmissions(es, node), INITIAL_NUMBER).routemaps, k);
  }

  /** The verdict of a compiled route-map, for any number of entries: the fabrics of the kind
      that admit the route compete, and the entry with the smallest number sets the source. */
  lemma RouteMapVerdict(prior: FrrState, es: seq<FabricEntry>, node: NodeId, k: Kind, r: Route, env: Environment)
    requires Ordered(es) && ConfigOk(es) && IsNew(prior, k)
    ensures Build(prior, es, node).Ok?
    ensures var p := Build(prior, es, node).value.policy;
            (MapName(k) in p.routemaps <==> exists i :: 0 <= i < |es| && OwnAddress(es[i], node, k).Some?) &&
            (MapName(k) in p.routemaps ==>
               Evaluate(p.routemaps[MapName(k)], p.accessLists, env, r) ==
               VerdictOf(LeastAdmitted(k, AllEmissions(es, node), INITIAL_NUMBER, r, env), k))
  {
    CompiledMap(prior, es, node, k);
    CompiledAcls(prior, es, node);
    VerdictOfEntries(AllEmissions(es, node), k, Build(prior, es, node).value.policy.accessLists, env, r);
  }

  // ----- Where the route-maps apply -----

  /** The route-map that is applied to the routes of a protocol and family. */
  function Applied(m: map<FrrProtocol, IpProtocolRouteMap>, k: Kind): Option<string> {
    if KindProtocol(k) !in m then None else if IsV6(k) then m[KindProtocol(k)].v6 else m[KindProtocol(k)].v4
  }

  lemma EmitApplied(p: Policy, em: Emission, n: U16, k: Kind)
    ensures Applied(Emit(p, em, n).protocolRoutemaps, k) ==
            if em.kind == k then Some(MapName(k)) else Applied(p.protocolRoutemaps, k)
  {
  }

  lemma {:induction false} EmitAllApplied(p: Policy, ems: seq<Emission>, n: U16, k: Kind)
    ensures Applied(EmitAll(p, ems, n).protocolRoutemaps, k) ==
            if Numbered(k, ems, n) != [] then Some(MapName(k)) else Applied(p.protocolRoutemaps, k)
    decreases |ems|
  {
    if ems != [] {
      EmitApplied(p, ems[0], n, k);
      EmitAllApplied(Emit(p, ems[0], n), ems[1..], NextNumber(n), k);
    }
  }

  /** Every generated source route-map is applied to the routes of its protocol and family,
      and what was applied before stays where no map was generated. */
  lemma SourceMapsApplied(prior: FrrState, es: seq<FabricEntry>, node: NodeId, k: Kind)
    requires Ordered(es) && ConfigOk(es) && IsNew(prior, k)
    ensures Build(prior, es, node).Ok?
    ensures var p := Build(prior, es, node).value.policy;
            Applied(p.protocolRoutemaps, k) ==
            if MapName(k) in p.routemaps then Some(MapName(k)) else Applied(prior.policy.protocolRoutemaps, k)
  {
    var ems := AllEmissions(es, node);
    CompiledPolicy(prior, es, node);
    EmitAllMap(prior.policy, ems, INITIAL_NUMBER, k);
    EmitAllApplied(prior.policy, ems, INITIAL_NUMBER, k);
    FinishedMap(EmitAll(prior.policy, ems, INITIAL_NUMBER).routemaps, k);
  }

  ghost predicate MapInPlace(p: Policy, protocol: FrrProtocol, isV6: bool, name: string) {
    name in p.routemaps && protocol in p.protocolRoutemaps &&
    (if isV6 then p.protocolRoutemaps[protocol].v6 else p.protocolRoutemaps[protocol].v4) == Some(name)
  }

  lemma KindInPlace(prior: FrrState, es: seq<FabricEntry>, node: NodeId, k: Kind, i: nat)
    requires Ordered(es) && ConfigOk(es) && i < |es| && OwnAddress(es[i], node, k).Some?
    ensures Build(prior, es, node).Ok?
    ensures MapInPlace(Build(prior, es, node).value.policy, KindProtocol(k), IsV6(k), MapName(k))
  {
    var ems := AllEmissions(es, node);
    CompiledPolicy(prior, es, node);
    KindEmitted(es, node, k, INITIAL_NUMBER);
    EmitAllMap(prior.policy, ems, INITIAL_NUMBER, k);
    EmitAllApplied(prior.policy, ems, INITIAL_NUMBER, k);
    FinishedMap(EmitAll(prior.policy, ems, INITIAL_NUMBER).routemaps, k);
  }

  /** One route-map for each family in which the node has an address, applied to the routes of the
      protocol it speaks. */
  ghost predicate HasMaps(p: Policy, n: Node) {
    match n.properties
    case OpenfabricNode(_) =>
      (n.ip.Some? ==> MapInPlace(p, FrrOpenfabric, false, "pve_openfabric")) &&
      (n.ip6.Some? ==> MapInPlace(p, FrrOpenfabric, true, "pve_openfabric6"))
    case OspfNode(_) => n.ip.Some? && MapInPlace(p, FrrOspf, false, "pve_ospf")
    case BgpInternal(_, _) =>
      (n.ip.Some? ==> MapInPlace(p, FrrBgp, false, "pve_bgp")) &&
      (n.ip6.Some? ==> MapInPlace(p, FrrBgp, true, "pve_bgp6"))
    case _ => true
  }

  lemma KindsAreMaps(e: FabricEntry, node: NodeId, p: Policy)
    requires node in e.nodes && (e.nodes[node].properties.OspfNode? ==> e.nodes[node].ip.Some?)
    requires forall k :: OwnAddress(e, node, k).Some? ==> MapInPlace(p, KindProtocol(k), IsV6(k), MapName(k))
    ensures HasMaps(p, e.nodes[node])
  {
    var n := e.nodes[node];
    assert n.properties.OpenfabricNode? && n.ip.Some? ==> OwnAddress(e, node, Openfabric4).Some?;
    assert n.properties.OpenfabricNode? && n.ip6.Some? ==> OwnAddress(e, node, Openfabric6).Some?;
    assert n.properties.OspfNode? ==> OwnAddress(e, node, Ospf4).Some?;
    assert n.properties.BgpInternal? && n.ip.Some? ==> OwnAddress(e, node, Bgp4).Some?;
    assert n.properties.BgpInternal? && n.ip6.Some? ==> OwnAddress(e, node, Bgp6).Some?;
  }

  /** Every fabric that a node is in brings about its route-maps, whatever was configured before. */
  lemma MapsInPlace(prior: FrrState, es: seq<FabricEntry>, node: NodeId, i: nat)
    requires Ordered(es) && ConfigOk(es) && i < |es| && node in es[i].nodes
    ensures Build(prior, es, node).Ok?
    ensures HasMaps(Build(prior, es, node).value.policy, es[i].nodes[node])
  {
    BuildSucceeds(prior, es, node);
    var p := Build(prior, es, node).value.policy;
    forall k | OwnAddress(es[i], node, k).Some? ensures MapInPlace(p, KindProtocol(k), IsV6(k), MapName(k)) {
      KindInPlace(prior, es, node, k, i);
    }
    if es[i].nodes[node].properties.OspfNode? {
      OspfNodeHasAddress(es, node, i);
    }
    KindsAreMaps(es[i], node, p);
  }

  lemma OspfNodeHasAddress(es: seq<FabricEntry>, node: NodeId, i: nat)
    requires ConfigOk(es) && i < |es| && node in es[i].nodes && es[i].nodes[node].properties.OspfNode?
    ensures es[i].nodes[node].ip.Some?
  {
    assert EntryOk(es[i]) && NodeOk(es[i].fabric, es[i].nodes[node]);
  }

  // ----- Configurations without route filters -----

  /** Without route filters, at most one fabric of a kind admits any route, because the
      prefixes of a valid configuration are disjoint. */
  lemma AtMostOneFabricAdmits(es: seq<FabricEntry>, node: NodeId, k: Kind, r: Route, env: Environment, i: nat, j: nat)
    requires ConfigOk(es) && i < j < |es|
    requires OwnAddress(es[i], node, k).Some? && OwnAddress(es[j], node, k).Some?
    requires RouteFilter(es[i].fabric).None? && RouteFilter(es[j].fabric).None?
    ensures !(Admits(es[i].fabric, k, r, env) && Admits(es[j].fabric, k, r, env))
  {
    var f, g := es[i].fabric, es[j].fabric;
    assert NodeOk(f, es[i].nodes[node]) && NodeOk(g, es[j].nodes[node]);
    assert Apart4(f, g) && Apart6(f, g);
    if r.Cidr4? && f.ipPrefix.Some? && g.ipPrefix.Some? {
      OverlapIsSharedAddress4(f.ipPrefix.value, g.ipPrefix.value);
    }
    if r.Cidr6? && f.ip6Prefix.Some? && g.ip6Prefix.Some? {
      OverlapIsSharedAddress6(f.ip6Prefix.value, g.ip6Prefix.value);
    }
  }

  lemma EmissionOwner(es: seq<FabricEntry>, node: NodeId, i: nat) returns (o: nat)
    requires Ordered(es) && i < |AllEmissions(es, node)|
    ensures var em := AllEmissions(es, node)[i];
            o < |es| && em.fabric == es[o].fabric && OwnAddress(es[o], node, em.kind) == Some(em.src)
  {
    o := EmissionOrigin(es, node, i);
    OwnEmissions(es[o], node);
  }

  // ----- When the route-maps mean what the rule says -----

  predicate Filtered(em: Emission) { RouteFilter(em.fabric).Some? }

  predicate SameFilter(a: Emission, b: Emission) {
    Filtered(a) && RouteFilter(a.fabric) == RouteFilter(b.fabric)
  }

  /** No entry of the kind before the i-th has the route filter of the i-th or of the j-th. */
  ghost predicate Leads(k: Kind, ems: seq<Emission>, i: nat, j: nat)
    requires i < |ems| && j < |ems|
  {
    forall h: nat :: h < i && ems[h].kind == k ==> !SameFilter(ems[h], ems[i]) && !SameFilter(ems[h], ems[j])
  }

  /** Two entries of a kind, of which at least one has a route filter, such that no earlier entry
      has the filter of either: some route is admitted by both and by no earlier entry. */
  ghost predicate Compete(k: Kind, ems: seq<Emission>, i: nat, j: nat) {
    i < j < |ems| && ems[i].kind == k && ems[j].kind == k && (Filtered(ems[i]) || Filtered(ems[j])) &&
    Leads(k, ems, i, j)
  }

  /** The numbers of competing entries are in the order of the fabrics. */
  ghost predicate OrderKept(k: Kind, ems: seq<Emission>) {
    forall i: nat, j: nat :: Compete(k, ems, i, j) ==> NumberAfter(INITIAL_NUMBER, i) <= NumberAfter(INITIAL_NUMBER, j)
  }

  /** Fabrics without route filters do not admit the same route. */
  lemma FabricsDiffer(ems: seq<Emission>, i: nat, j: nat)
    requires Separate(ems) && i < |ems| && j < |ems| && i != j && ems[i].kind == ems[j].kind
    ensures ems[i].fabric.id != ems[j].fabric.id
  {
    assert i < j ==> ems[i].fabric.id != ems[j].fabric.id;
    assert j < i ==> ems[j].fabric.id != ems[i].fabric.id;
  }

  lemma UnfilteredApart(es: seq<FabricEntry>, node: NodeId, k: Kind, r: Route, env: Environment, i: nat, j: nat)
    requires Ordered(es) && ConfigOk(es) && i < |AllEmissions(es, node)| && j < |AllEmissions(es, node)| && i != j
    requires var ems := AllEmissions(es, node);
             !Filtered(ems[i]) && !Filtered(ems[j]) && AdmitsAt(k, ems, r, env, i)
    ensures !AdmitsAt(k, AllEmissions(es, node), r, env, j)
  {
    var ems := AllEmissions(es, node);
    EmissionsSeparate(es, node);
    var a := EmissionOwner(es, node, i);
    var b := EmissionOwner(es, node, j);
    if ems[j].kind == k {
      FabricsDiffer(ems, i, j);
      AtMostOneFabricAdmits(es, node, k, r, env, if a < b then a else b, if a < b then b else a);
    }
  }

  /** An entry that admits the route after the first one that does competes with that one. */
  lemma FirstCompetes(es: seq<FabricEntry>, node: NodeId, k: Kind, r: Route, env: Environment, f: nat, j: nat)
    requires Ordered(es) && ConfigOk(es) && IsFirst(k, AllEmissions(es, node), r, env, f)
    requires f < j < |AllEmissions(es, node)| && AdmitsAt(k, AllEmissions(es, node), r, env, j)
    ensures Compete(k, AllEmissions(es, node), f, j)
  {
    var ems := AllEmissions(es, node);
    if !Filtered(ems[f]) && !Filtered(ems[j]) {
      UnfilteredApart(es, node, k, r, env, f, j);
    }
    forall h: nat | h < f && ems[h].kind == k ensures !SameFilter(ems[h], ems[f]) && !SameFilter(ems[h], ems[j]) {
      assert !AdmitsAt(k, ems, r, env, h);
    }
  }

  /** Meaning is preserved: compiling a valid configuration for a node into an FRR configuration
      without a route-map of the kind produces, for each protocol and family, a route-map whose
      verdict on every route is the one of the source-level rule, as long as competing entries are
      in order. What else was configured before makes no difference. */
  lemma RouteMapMeaning(prior: FrrState, es: seq<FabricEntry>, node: NodeId, k: Kind, r: Route, env: Environment)
    requires Ordered(es) && ConfigOk(es) && IsNew(prior, k) && OrderKept(k, AllEmissions(es, node))
    ensures Build(prior, es, node).Ok?
    ensures var p := Build(prior, es, node).value.policy;
            (MapName(k) in p.routemaps <==> exists i :: 0 <= i < |es| && OwnAddress(es[i], node, k).Some?) &&
            (MapName(k) in p.routemaps ==>
               Evaluate(p.routemaps[MapName(k)], p.accessLists, env, r) == SourceVerdict(es, node, k, r, env))
  {
    var ems := AllEmissions(es, node);
    RouteMapVerdict(prior, es, node, k, r, env);
    EmissionsFollowRule(es, node, k, r, env);
    var f := FindFirst(k, ems, r, env);
    if f.None? {
      NoneAdmitted(k, ems, INITIAL_NUMBER, r, env);
    } else {
      FirstAdmittedIs(k, ems, r, env, f.value);
      forall j: nat | f.value < j < |ems| && AdmitsAt(k, ems, r, env, j)
        ensures NumberAfter(INITIAL_NUMBER, f.value) <= NumberAfter(INITIAL_NUMBER, j)
      {
        FirstCompetes(es, node, k, r, env, f.value, j);
      }
      LeastIsFirst(k, ems, INITIAL_NUMBER, r, env, f.value);
    }
  }

  /** Numbers that ascend are in order, whatever the filters; without filters nothing competes. */
  lemma OrderKeptIf(es: seq<FabricEntry>, node: NodeId, k: Kind)
    requires Ordered(es) && (NumbersInOrder(k, AllEmissions(es, node), INITIAL_NUMBER) || FilterFree(es, node, k))
    ensures OrderKept(k, AllEmissions(es, node))
  {
    var ems := AllEmissions(es, node);
    if FilterFree(es, node, k) {
      forall i: nat | i < |ems| && ems[i].kind == k ensures !Filtered(ems[i]) {
        var o := EmissionOwner(es, node, i);
      }
    }
  }

  // ----- The order of fabrics -----

  /** No fabric that contributes to the kind has a route filter. */
  ghost predicate FilterFree(es: seq<FabricEntry>, node: NodeId, k: Kind) {
    forall i :: 0 <= i < |es| && OwnAddress(es[i], node, k).Some? ==> RouteFilter(es[i].fabric).None?
  }

  ghost predicate Admitting(e: FabricEntry, node: NodeId, k: Kind, r: Route, env: Environment) {
    OwnAddress(e, node, k).Some? && Admits(e.fabric, k, r, env)
  }

  lemma {:induction false} SourceRuleOrigin(es: seq<FabricEntry>, node: NodeId, k: Kind, r: Route, env: Environment)
    ensures var src := SourceRule(es, node, k, r, env);
            if src.Some? then exists e :: e in es && Admitting(e, node, k, r, env) && OwnAddress(e, node, k) == src
            else forall e :: e in es ==> !Admitting(e, node, k, r, env)
  {
    if es != [] {
      SourceRuleOrigin(es[1..], node, k, r, env);
      assert es == [es[0]] + es[1..];
      assert es[0] in es;
    }
  }

  /** Without route filters the source-level rule does not depend on the order of the fabrics. */
  lemma SourceRuleOrderFree(es: seq<FabricEntry>, es': seq<FabricEntry>, node: NodeId, k: Kind, r: Route,
                            env: Environment)
    requires ConfigOk(es) && FilterFree(es, node, k) && multiset(es) == multiset(es')
    ensures SourceRule(es', node, k, r, env) == SourceRule(es, node, k, r, env)
  {
    SourceRuleOrigin(es, node, k, r, env);
    SourceRuleOrigin(es', node, k, r, env);
    forall e ensures e in es <==> e in es' {
      assert e in es <==> e in multiset(es);
      assert e in es' <==> e in multiset(es');
    }
    forall d, e | d in es && e in es && Admitting(d, node, k, r, env) && Admitting(e, node, k, r, env) ensures d == e {
      var i :| 0 <= i < |es| && es[i] == d;
      var j :| 0 <= j < |es| && es[j] == e;
      if i != j {
        AtMostOneFabricAdmits(es, node, k, r, env, if i < j then i else j, if i < j then j else i);
      }
    }
  }

  // ----- Inbound filters of BGP fabrics -----

  function InboundEntries(k: Kind, f: FabricId, ems: seq<Emission>): seq<RouteMapEntry> {
    if ems == [] then []
    else (if NeedsInbound(ems[0]) && ems[0].kind == k && ems[0].fabric.id == f then [InboundEntry(ems[0])] else []) +
         InboundEntries(k, f, ems[1..])
  }

  lemma InboundNamesDiffer(k: Kind, f: FabricId, l: Kind, g: FabricId)
    requires IsBgp(k) && IsBgp(l)
    ensures InboundName(k, f) == InboundName(l, g) <==> k == l && f == g
  {
    var a, b := InboundName(k, f), InboundName(l, g);
    assert a[7] == (if k.Bgp6? then '6' else '_') && b[7] == (if l.Bgp6? then '6' else '_');
    var start := if k.Bgp6? then 9 else 8;
    if a == b {
      assert f == a[start..|a| - 3] && g == b[start..|b| - 3];
    }
  }

  lemma EmitInbound(p: Policy, em: Emission, n: U16, k: Kind, f: FabricId)
    requires IsBgp(k)
    ensures Entries(Emit(p, em, n).routemaps, InboundName(k, f)) ==
              Entries(p.routemaps, InboundName(k, f)) + InboundEntries(k, f, [em])
  {
    InboundIsNoSourceMap(k, f, em.kind);
    assert [em][1..] == [];
    if IsBgp(em.kind) {
      InboundNamesDiffer(k, f, em.kind, em.fabric.id);
    }
  }

  lemma {:induction false} EmitAllInbound(p: Policy, ems: seq<Emission>, n: U16, k: Kind, f: FabricId)
    requires IsBgp(k)
    ensures Entries(EmitAll(p, ems, n).routemaps, InboundName(k, f)) ==
              Entries(p.routemaps, InboundName(k, f)) + InboundEntries(k, f, ems)
    decreases |ems|
  {
    if ems != [] {
      EmitInbound(p, ems[0], n, k, f);
      EmitAllInbound(Emit(p, ems[0], n), ems[1..], NextNumber(n), k, f);
      InboundHead(k, f, ems);
      ConcatAssociative(Entries(p.routemaps, InboundName(k, f)), InboundEntries(k, f, [ems[0]]),
                        InboundEntries(k, f, ems[1..]));
    }
  }

  lemma InboundHead(k: Kind, f: FabricId, ems: seq<Emission>)
    requires ems != []
    ensures InboundEntries(k, f, ems) == InboundEntries(k, f, [ems[0]]) + InboundEntries(k, f, ems[1..])
  {
    assert [ems[0]][1..] == [];
  }

  lemma {:induction false} NoInbound(ems: seq<Emission>, k: Kind, f: FabricId)
    requires forall i :: 0 <= i < |ems| ==> ems[i].kind != k || ems[i].fabric.id != f
    ensures InboundEntries(k, f, ems) == []
  {
    if ems != [] {
      assert ems[0].kind != k || ems[0].fabric.id != f;
      NoInbound(ems[1..], k, f);
    }
  }

  lemma {:induction false} OneInbound(ems: seq<Emission>, i: nat)
    requires Separate(ems) && i < |ems| && NeedsInbound(ems[i])
    ensures InboundEntries(ems[i].kind, ems[i].fabric.id, ems) == [InboundEntry(ems[i])]
    decreases |ems|
  {
    if i == 0 {
      NoInbound(ems[1..], ems[0].kind, ems[0].fabric.id);
    } else {
      assert ems[0].kind != ems[i].kind || ems[0].fabric.id != ems[i].fabric.id;
      OneInbound(ems[1..], i - 1);
    }
  }

  lemma {:induction false} OwnEmissionIndex(es: seq<FabricEntry>, node: NodeId, k: Kind, i: nat) returns (j: nat)
    requires i < |es| && OwnAddress(es[i], node, k).Some?
    ensures j < |AllEmissions(es, node)| &&
            AllEmissions(es, node)[j] == Emission(k, es[i].fabric, OwnAddress(es[i], node, k).value)
  {
    var first := Emissions(es[0], node);
    if i == 0 {
      var em := Emission(k, es[0].fabric, OwnAddress(es[0], node, k).value);
      assert em in first;
      j :| 0 <= j < |first| && first[j] == em;
    } else {
      j := OwnEmissionIndex(es[1..], node, k, i - 1);
      j := j + |first|;
    }
  }

  lemma FinishedOther(m: map<string, seq<RouteMapEntry>>, name: string)
    requires name != MapName(Bgp4) && name != MapName(Bgp6)
    ensures Entries(Finish(Finish(m, Bgp4), Bgp6), name) == Entries(m, name)
  {
  }

  lemma CompiledInbound(prior: FrrState, es: seq<FabricEntry>, node: NodeId, k: Kind, i: nat) returns (em: Emission)
    requires Ordered(es) && ConfigOk(es) && IsBgp(k)
    requires i < |es| && OwnAddress(es[i], node, k).Some? && InboundName(k, es[i].fabric.id) !in prior.policy.routemaps
    ensures Build(prior, es, node).Ok?
    ensures em == Emission(k, es[i].fabric, OwnAddress(es[i], node, k).value)
    ensures var p, name := Build(prior, es, node).value.policy, InboundName(k, es[i].fabric.id);
            name in p.routemaps && p.routemaps[name] == [InboundEntry(em)] && AclsFit([em], p.accessLists)
  {
    var ems, f := AllEmissions(es, node), es[i].fabric;
    CompiledAcls(prior, es, node);
    CompiledPolicy(prior, es, node);
    EmissionsSeparate(es, node);
    var j := OwnEmissionIndex(es, node, k, i);
    em := ems[j];
    assert NodeOk(f, es[i].nodes[node]);
    EmitAllInbound(prior.policy, ems, INITIAL_NUMBER, k, f.id);
    OneInbound(ems, j);
    InboundIsNoSourceMap(k, f.id, Bgp4);
    InboundIsNoSourceMap(k, f.id, Bgp6);
    FinishedOther(EmitAll(prior.policy, ems, INITIAL_NUMBER).routemaps, InboundName(k, f.id));
    var p := Build(prior, es, node).value.policy;
    assert NeedsAcl(ems[j]) ==> AclName(k, f.id) in p.accessLists &&
                                p.accessLists[AclName(k, f.id)] == [AclRule(ems[j])];
  }

  lemma EvaluateOne(e: RouteMapEntry, acls: map<string, seq<AccessListRule>>, env: Environment, r: Route)
    requires e.action.Permit? && e.sets == [] && e.exitAction.None?
    ensures Evaluate([e], acls, env, r) ==
            if EntryMatches(e, acls, env, r) && (e.call.Some? ==> env.userMaps(e.call.value, r)) then Accepted(None)
               else Denied
  {
    assert [e][1..] == [];
    assert FirstMatch([e][1..], acls, env, r) == None;
    assert SourceSet(e.sets) == None;
  }

  /** What the peers of a BGP fabric may announce: a route passes the fabric's inbound map
      exactly if the fabric admits it and the user's own inbound map, if any, permits it. */
  lemma InboundMeaning(prior: FrrState, es: seq<FabricEntry>, node: NodeId, k: Kind, i: nat, r: Route, env: Environment)
    requires Ordered(es) && ConfigOk(es) && IsBgp(k)
    requires i < |es| && OwnAddress(es[i], node, k).Some? && es[i].fabric.properties.BgpFabric?
    requires InboundName(k, es[i].fabric.id) !in prior.policy.routemaps
    ensures Build(prior, es, node).Ok?
    ensures var p, name, f := Build(prior, es, node).value.policy, InboundName(k, es[i].fabric.id), es[i].fabric;
            name in p.routemaps &&
            Evaluate(p.routemaps[name], p.accessLists, env, r) ==
              if Admits(f, k, r, env) &&
                 (f.properties.routeMapIn.Some? ==> env.userMaps(f.properties.routeMapIn.value, r))
              then Accepted(None) else Denied
  {
    var em := CompiledInbound(prior, es, node, k, i);
    var acls := Build(prior, es, node).value.policy.accessLists;
    SourceEntryMatches(em, INITIAL_NUMBER, acls, env, r);
    assert EntryMatches(InboundEntry(em), acls, env, r) <==>
             EntryMatches(SourceEntry(em, INITIAL_NUMBER), acls, env, r);
    EvaluateOne(InboundEntry(em), acls, env, r);
  }

  /** The access list of a fabric without route filter has one rule: it permits the fabric's prefix of
      the family. */
  lemma AccessListInPlace(prior: FrrState, es: seq<FabricEntry>, node: NodeId, k: Kind, i: nat)
    requires Ordered(es) && ConfigOk(es) && i < |es| && OwnAddress(es[i], node, k).Some?
    requires !es[i].fabric.properties.WireGuardFabric? && es[i].fabric.properties.routeFilter.None?
    ensures Build(prior, es, node).Ok?
    ensures var acls, f := Build(prior, es, node).value.policy.accessLists, es[i].fabric;
            AclName(k, f.id) in acls &&
            if k == Openfabric6 || k == Bgp6
            then f.ip6Prefix.Some? &&
                 acls[AclName(k, f.id)] == [AccessListRule(Permit, Cidr6(f.ip6Prefix.value), true, None)]
            else f.ipPrefix.Some? &&
                 acls[AclName(k, f.id)] == [AccessListRule(Permit, Cidr4(f.ipPrefix.value), false, None)]
  {
    CompiledAcls(prior, es, node);
    assert EntryOk(es[i]) && NodeOk(es[i].fabric, es[i].nodes[node]);
    var j := OwnEmissionIndex(es, node, k, i);
    assert NeedsAcl(AllEmissions(es, node)[j]);
  }
}
