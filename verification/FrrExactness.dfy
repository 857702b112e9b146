/** The exact condition under which the compiled route-maps mean what the fabrics say. */
module FrrExactness {
  import opened Wrappers
  import opened Addresses
  import opened Identifiers
  import opened FabricModel
  import opened FabricRules
  import opened FrrModel
  import opened FrrCompiler
  import opened FrrMeaning

  // ----- Different fabrics keep their prefixes and addresses apart -----

  /** The fabric has a prefix of the family, and the node's address in the fabric lies in it. */
  ghost predicate OwnsPrefix(em: Emission) {
    FamilyPrefix(em.fabric, em.kind).Some? && Contains(FamilyPrefix(em.fabric, em.kind).value, em.src)
  }

  lemma EmissionInPrefix(es: seq<FabricEntry>, node: NodeId, i: nat)
    requires Ordered(es) && ConfigOk(es) && i < |AllEmissions(es, node)|
    ensures OwnsPrefix(AllEmissions(es, node)[i])
  {
    var o := EmissionOwner(es, node, i);
    assert EntryOk(es[o]) && NodeOk(es[o].fabric, es[o].nodes[node]);
  }

  lemma OwnersDiffer(es: seq<FabricEntry>, node: NodeId, i: nat, j: nat) returns (a: nat, b: nat)
    requires Ordered(es) && i < |AllEmissions(es, node)| && j < |AllEmissions(es, node)| && i != j
    requires AllEmissions(es, node)[i].kind == AllEmissions(es, node)[j].kind
    ensures a < |es| && b < |es| && a != b
    ensures AllEmissions(es, node)[i].fabric == es[a].fabric && AllEmissions(es, node)[j].fabric == es[b].fabric
  {
    var ems := AllEmissions(es, node);
    EmissionsSeparate(es, node);
    a := EmissionOwner(es, node, i);
    b := EmissionOwner(es, node, j);
    assert if i < j then ems[i].fabric.id != ems[j].fabric.id else ems[j].fabric.id != ems[i].fabric.id;
  }

  lemma PrefixesApart(es: seq<FabricEntry>, node: NodeId, i: nat, j: nat)
    requires Ordered(es) && ConfigOk(es) && i < |AllEmissions(es, node)| && j < |AllEmissions(es, node)| && i != j
    requires AllEmissions(es, node)[i].kind == AllEmissions(es, node)[j].kind
    ensures var f, g := AllEmissions(es, node)[i].fabric, AllEmissions(es, node)[j].fabric;
            Apart4(f, g) && Apart6(f, g)
  {
    var a, b := OwnersDiffer(es, node, i, j);
    FabricsApart(es, a, b);
  }

  lemma FabricsApart(es: seq<FabricEntry>, a: nat, b: nat)
    requires PrefixesDisjoint(es) && a < |es| && b < |es| && a != b
    ensures Apart4(es[a].fabric, es[b].fabric) && Apart6(es[a].fabric, es[b].fabric)
  {
    if a < b {
      assert Apart4(es[a].fabric, es[b].fabric);
    } else {
      assert Apart4(es[b].fabric, es[a].fabric);
    }
  }

  /** Prefixes that are apart cover none of each other's routes, and share no address. */
  lemma ApartPrefixes(f: Fabric, g: Fabric, k: Kind)
    requires Apart4(f, g) && Apart6(f, g) && FamilyPrefix(f, k).Some? && FamilyPrefix(g, k).Some?
    ensures !Covers(FamilyPrefix(f, k).value, FamilyPrefix(g, k).value)
    ensures forall a :: !(Contains(FamilyPrefix(f, k).value, a) && Contains(FamilyPrefix(g, k).value, a))
  {
    if IsV6(k) {
      OverlapIsSharedAddress6(f.ip6Prefix.value, g.ip6Prefix.value);
    } else {
      OverlapIsSharedAddress4(f.ipPrefix.value, g.ipPrefix.value);
    }
  }

  // ----- A route on which competing entries out of order disagree with the rule -----

  /** A route that the entry admits, and so does no other entry without route filter. */
  function OwnRoute(em: Emission): Route
    requires FamilyPrefix(em.fabric, em.kind).Some?
  {
    FamilyPrefix(em.fabric, em.kind).value
  }

  /** Prefix lists permit everything if they are the route filter of one of the two entries,
      and nothing otherwise. */
  function OnlyFiltersOf(a: Emission, b: Emission): Environment {
    Environment((list, route) => Some(list) == RouteFilter(a.fabric) || Some(list) == RouteFilter(b.fabric),
                (map_, route) => true, (clause, route) => true)
  }

  lemma OwnRouteFamily(em: Emission)
    requires FamilyPrefix(em.fabric, em.kind).Some?
    ensures if IsV6(em.kind) then OwnRoute(em).Cidr6? else OwnRoute(em).Cidr4?
    ensures Covers(FamilyPrefix(em.fabric, em.kind).value, OwnRoute(em))
  {
  }

  /** On the own route of entry x, one of the two, which is the one without filter if there is
      one, both entries admit and no earlier one does. */
  lemma FirstOfTwo(es: seq<FabricEntry>, node: NodeId, k: Kind, i: nat, j: nat, x: nat)
    requires Ordered(es) && ConfigOk(es) && Compete(k, AllEmissions(es, node), i, j)
    requires x == if Filtered(AllEmissions(es, node)[j]) then i else j
    requires FamilyPrefix(AllEmissions(es, node)[x].fabric, k).Some?
    ensures var ems := AllEmissions(es, node);
            var r, env := OwnRoute(ems[x]), OnlyFiltersOf(ems[i], ems[j]);
            IsFirst(k, ems, r, env, i) && AdmitsAt(k, ems, r, env, j)
  {
    var ems := AllEmissions(es, node);
    var r, env := OwnRoute(ems[x]), OnlyFiltersOf(ems[i], ems[j]);
    OwnRouteFamily(ems[x]);
    forall h: nat | h < i ensures !AdmitsAt(k, ems, r, env, h) {
      if ems[h].kind == k && !Filtered(ems[h]) {
        EmissionInPrefix(es, node, h);
        PrefixesApart(es, node, h, x);
        ApartPrefixes(ems[h].fabric, ems[x].fabric, k);
      }
    }
  }

  lemma SourcesDiffer(es: seq<FabricEntry>, node: NodeId, i: nat, j: nat)
    requires Ordered(es) && ConfigOk(es) && i < |AllEmissions(es, node)| && j < |AllEmissions(es, node)| && i != j
    requires AllEmissions(es, node)[i].kind == AllEmissions(es, node)[j].kind
    ensures AllEmissions(es, node)[i].src != AllEmissions(es, node)[j].src
  {
    var ems := AllEmissions(es, node);
    EmissionInPrefix(es, node, i);
    EmissionInPrefix(es, node, j);
    PrefixesApart(es, node, i, j);
    ApartPrefixes(ems[i].fabric, ems[j].fabric, ems[i].kind);
  }

  /** The later of the two entries, or one with a still smaller number, sets its own source. */
  lemma OutOfOrder(es: seq<FabricEntry>, node: NodeId, k: Kind, i: nat, j: nat) returns (r: Route, env: Environment)
    requires Ordered(es) && ConfigOk(es) && Compete(k, AllEmissions(es, node), i, j)
    requires NumberAfter(INITIAL_NUMBER, i) > NumberAfter(INITIAL_NUMBER, j)
    ensures VerdictOf(LeastAdmitted(k, AllEmissions(es, node), INITIAL_NUMBER, r, env), k) !=
            SourceVerdict(es, node, k, r, env)
  {
    var ems := AllEmissions(es, node);
    var x := if Filtered(ems[j]) then i else j;
    EmissionInPrefix(es, node, x);
    r, env := OwnRoute(ems[x]), OnlyFiltersOf(ems[i], ems[j]);
    FirstOfTwo(es, node, k, i, j, x);
    FirstAdmittedIs(k, ems, r, env, i);
    EmissionsFollowRule(es, node, k, r, env);
    LeastIsLeast(k, ems, INITIAL_NUMBER, r, env, j);
    LeastOrigin(k, ems, INITIAL_NUMBER, r, env);
    var w := LeastAdmitted(k, ems, INITIAL_NUMBER, r, env).value;
    var o: nat :| o < |ems| && AdmitsAt(k, ems, r, env, o) && w == Ranked(NumberAfter(INITIAL_NUMBER, o), ems[o].src);
    SourcesDiffer(es, node, o, i);
  }

  /** The compiled route-map gives every route the verdict of the source-level rule, whatever the
      prefix lists mean, exactly if the numbers of competing entries are in order. */
  lemma MeaningKeptExactly(prior: FrrState, es: seq<FabricEntry>, node: NodeId, k: Kind)
    requires Ordered(es) && ConfigOk(es) && IsNew(prior, k)
    ensures Build(prior, es, node).Ok?
    ensures var p := Build(prior, es, node).value.policy;
            MapName(k) in p.routemaps ==>
              ((forall r, env :: Evaluate(p.routemaps[MapName(k)], p.accessLists, env, r) ==
                                   SourceVerdict(es, node, k, r, env)) <==>
               OrderKept(k, AllEmissions(es, node)))
  {
    BuildSucceeds(prior, es, node);
    if OrderKept(k, AllEmissions(es, node)) {
      forall r, env { RouteMapMeaning(prior, es, node, k, r, env); }
    } else {
      var i: nat, j: nat :| Compete(k, AllEmissions(es, node), i, j) &&
                            NumberAfter(INITIAL_NUMBER, i) > NumberAfter(INITIAL_NUMBER, j);
      var r, env := OutOfOrder(es, node, k, i, j);
      RouteMapVerdict(prior, es, node, k, r, env);
    }
  }
}
