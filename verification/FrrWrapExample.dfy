/** Valid configurations of many filtered OSPF fabrics, for which the wrapping counter makes the
    compiled route-map contradict the rule that the first fabric in order decides, descend, and
    repeat a number. */
module FrrWrapExample {
  import opened Wrappers
  import opened Addresses
  import opened Identifiers
  import opened Collections
  import opened Text
  import opened FabricModel
  import opened FabricRules
  import opened FrrModel
  import opened FrrCompiler
  import opened FrrMeaning
  import opened FrrNumbering

  /** The i-th of many OSPF fabrics: a /16 of its own, an area of its own, and a route filter. */
  function FilteredFabric(i: nat): (e: FabricEntry)
    requires i < 0x1_0000
  {
    var id := Pad(i, 16, 4);
    FabricEntry(Fabric(id, Some(Ipv4Cidr(0x1_0000 * i, 16)), None, OspfFabric(Number(i), Some("any"), [])),
                map["n" := Node(NodeSectionId(id, "n"), Some(0x1_0000 * i), None, OspfNode([]))])
  }

  function ManyFabrics(count: nat): (es: seq<FabricEntry>)
    requires count <= 0x1_0000
    ensures |es| == count && forall i :: 0 <= i < count ==> es[i] == FilteredFabric(i)
  {
    seq(count, i requires 0 <= i < count => FilteredFabric(i))
  }

  lemma {:induction false} ShlTimes(a: nat, k: nat)
    ensures Shl(a, k) == a * Pow(2, k)
  {
    if k > 0 {
      ShlTimes(a, k - 1);
    }
  }

  /** The first sixteen bits of the i-th prefix are i. */
  lemma PrefixBits(i: nat)
    ensures Shr(0x1_0000 * i, 16) == i
  {
    assert Pow(2, 4) == 16;
    assert Pow(2, 8) == 16 * Pow(2, 4);
    assert Pow(2, 12) == 16 * Pow(2, 8);
    assert Pow(2, 16) == 16 * Pow(2, 12);
    ShlTimes(i, 16);
    ShlShr(i, 16);
  }

  lemma {:induction false} LexExtend(p: string, q: string, s: string, t: string)
    requires |p| == |q| && p != q && LexLe(p, q)
    ensures LexLe(p + s, q + t) && p + s != q + t
  {
    assert (p + s)[1..] == p[1..] + s && (q + t)[1..] == q[1..] + t;
    if p[0] == q[0] {
      assert p == [p[0]] + p[1..] && q == [q[0]] + q[1..];
      LexExtend(p[1..], q[1..], s, t);
      assert p + s == [p[0]] + (p[1..] + s) && q + t == [q[0]] + (q[1..] + t);
    } else {
      assert (p + s)[0] == p[0] && (q + t)[0] == q[0];
    }
  }

  lemma {:induction false} LexLast(p: string, c: char, d: char)
    requires c < d
    ensures LexLe(p + [c], p + [d]) && p + [c] != p + [d]
  {
    assert (p + [c])[|p|] == c && (p + [d])[|p|] == d;
    if p != [] {
      assert (p + [c])[1..] == p[1..] + [c] && (p + [d])[1..] == p[1..] + [d];
      LexLast(p[1..], c, d);
    }
  }

  lemma PadTail(i: nat, n: nat)
    ensures Pad(i, 16, n + 1) == Pad(i / 16, 16, n) + [DigitChar(i % 16)]
  {
    assert Digits(i, 16, n + 1) == Digits(i / 16, 16, n) + [i % 16];
  }

  lemma TailsBelow(i: nat, j: nat, n: nat)
    requires n > 0 && i < j < Pow(16, n)
    ensures j / 16 < Pow(16, n - 1) && (i / 16 < j / 16 || (i / 16 == j / 16 && i % 16 < j % 16))
  {
    QuotientBound(j, 16, Pow(16, n - 1));
  }

  /** Numbers printed with the same width are ordered like the numbers. */
  lemma {:induction false} PadAscends(i: nat, j: nat, n: nat)
    requires i < j < Pow(16, n)
    ensures LexLe(Pad(i, 16, n), Pad(j, 16, n)) && Pad(i, 16, n) != Pad(j, 16, n)
    decreases n
  {
    if n > 0 {
      PadTail(i, n - 1);
      PadTail(j, n - 1);
      TailsBelow(i, j, n);
      if i / 16 < j / 16 {
        PadAscends(i / 16, j / 16, n - 1);
        LexExtend(Pad(i / 16, 16, n - 1), Pad(j / 16, 16, n - 1), [DigitChar(i % 16)], [DigitChar(j % 16)]);
      } else {
        LexLast(Pad(i / 16, 16, n - 1), DigitChar(i % 16), DigitChar(j % 16));
      }
    }
  }

  // ----- The configuration is valid -----

  lemma ManyOrdered(count: nat)
    requires count <= 0x1_0000
    ensures Ordered(ManyFabrics(count))
  {
    var es := ManyFabrics(count);
    assert Pow(16, 4) == 0x1_0000;
    forall i | 0 <= i < count ensures EntryWellFormed(es[i]) && EntryFormatted(es[i]) {
      assert es[i].nodes.Keys == {"n"};
      HexId(Pad(i, 16, 4));
    }
    forall i, j | 0 <= i < j < count
      ensures es[i].fabric.id != es[j].fabric.id && LexLe(es[i].fabric.id, es[j].fabric.id)
    {
      PadAscends(i, j, 4);
    }
  }

  lemma HexId(s: string)
    requires |s| == 4 && forall c :: c in s ==> IsHex(c)
    ensures IsFabricId(s)
  {
    assert s[0] in s;
  }

  lemma FilteredOk(i: nat)
    requires i < 0x1_0000
    ensures EntryOk(FilteredFabric(i))
  {
    var e := FilteredFabric(i);
    assert e.nodes.Keys == {"n"};
    assert NodeOk(e.fabric, e.nodes["n"]);
  }

  lemma {:induction false} CountingAreas(es: seq<FabricEntry>)
    requires forall i :: 0 <= i < |es| ==> es[i].fabric.properties.OspfFabric? &&
                                           AreaValue(es[i].fabric.properties.area) == i
    ensures |Areas(es)| == |es| && forall i :: 0 <= i < |es| ==> Areas(es)[i] == i
  {
    if es != [] {
      CountingAreas(es[..|es| - 1]);
    }
  }

  lemma ManyAreas(count: nat)
    requires count <= 0x1_0000
    ensures NoDup(Areas(ManyFabrics(count)))
  {
    CountingAreas(ManyFabrics(count));
  }

  lemma {:induction false} ManyClaims(count: nat, n: NodeId)
    requires count <= 0x1_0000
    ensures AllClaims(ManyFabrics(count), n) == []
  {
    if count > 0 {
      ManyClaims(count - 1, n);
      assert ManyFabrics(count)[..count - 1] == ManyFabrics(count - 1);
    }
  }

  lemma ManyOk(count: nat)
    requires count <= 0x1_0000
    ensures ConfigOk(ManyFabrics(count))
  {
    var es := ManyFabrics(count);
    forall i, j | 0 <= i < j < count ensures Apart4(es[i].fabric, es[j].fabric) && Apart6(es[i].fabric, es[j].fabric) {
      PrefixBits(i);
      PrefixBits(j);
    }
    ManyAreas(count);
    forall n: NodeId ensures NoDup(AllClaims(es, n)) {
      ManyClaims(count, n);
    }
    forall i | 0 <= i < count ensures EntryOk(es[i]) {
      FilteredOk(i);
    }
  }

  // ----- The last fabric wins -----

  const ANY_ROUTE: Route := Cidr4(Ipv4Cidr(0, 0))
  const ALL_PASS := Environment((list, route) => true, (map_, route) => true, (clause, route) => true)

  function FilteredEmission(i: nat): Emission
    requires i < 0x1_0000
  {
    Emission(Ospf4, FilteredFabric(i).fabric, V4(0x1_0000 * i))
  }

  lemma OneEmission(i: nat)
    requires i < 0x1_0000
    ensures Emissions(FilteredFabric(i), "n") == [FilteredEmission(i)]
  {
  }

  function EmissionsFrom(count: nat, lo: nat): (ems: seq<Emission>)
    requires lo <= count <= 0x1_0000
    ensures |ems| == count - lo && forall i :: 0 <= i < |ems| ==> ems[i] == FilteredEmission(lo + i)
  {
    seq(count - lo, i requires 0 <= i < count - lo => FilteredEmission(lo + i))
  }

  /** From fabric lo on, each fabric emits one entry. */
  lemma {:induction false} ManyEmissions(count: nat, lo: nat)
    requires lo <= count <= 0x1_0000
    ensures AllEmissions(ManyFabrics(count)[lo..], "n") == EmissionsFrom(count, lo)
    decreases count - lo
  {
    if lo < count {
      var es := ManyFabrics(count)[lo..];
      ManyEmissions(count, lo + 1);
      OneEmission(lo);
      assert es[0] == FilteredFabric(lo) && es[1..] == ManyFabrics(count)[lo + 1..];
      assert [FilteredEmission(lo)] + EmissionsFrom(count, lo + 1) == EmissionsFrom(count, lo);
    }
  }

  lemma EmissionAt(count: nat, i: nat)
    requires i < count <= 0x1_0000
    ensures |AllEmissions(ManyFabrics(count), "n")| == count
    ensures AllEmissions(ManyFabrics(count), "n")[i] == FilteredEmission(i)
  {
    ManyEmissions(count, 0);
    assert ManyFabrics(count)[0..] == ManyFabrics(count);
  }

  /** Every fabric admits the route, and the first one should set the source. The 6545th entry
      gets number 4, below all others, so the last fabric sets it instead. */
  lemma LastFabricWins()
    ensures var es := ManyFabrics(6545);
            Ordered(es) && ConfigOk(es) && Build(EMPTY_STATE, es, "n").Ok? &&
            MapName(Ospf4) in Build(EMPTY_STATE, es, "n").value.policy.routemaps &&
            var p := Build(EMPTY_STATE, es, "n").value.policy;
            SourceVerdict(es, "n", Ospf4, ANY_ROUTE, ALL_PASS) == Accepted(Some(V4(0))) &&
            Evaluate(p.routemaps[MapName(Ospf4)], p.accessLists, ALL_PASS, ANY_ROUTE) ==
              Accepted(Some(V4(0x1_0000 * 6544)))
  {
    var es := ManyFabrics(6545);
    ManyOrdered(6545);
    ManyOk(6545);
    RuleSaysFirst(es);
    assert OwnAddress(es[0], "n", Ospf4).Some?;
    RouteMapVerdict(EMPTY_STATE, es, "n", Ospf4, ANY_ROUTE, ALL_PASS);
    WinnerIsLast();
  }

  lemma RuleSaysFirst(es: seq<FabricEntry>)
    requires es != [] && es[0] == FilteredFabric(0)
    ensures OwnAddress(es[0], "n", Ospf4).Some?
    ensures SourceVerdict(es, "n", Ospf4, ANY_ROUTE, ALL_PASS) == Accepted(Some(V4(0)))
  {
    assert OwnAddress(es[0], "n", Ospf4) == Some(V4(0));
    assert Admits(es[0].fabric, Ospf4, ANY_ROUTE, ALL_PASS);
  }

  lemma WinnerIsLast()
    ensures LeastAdmitted(Ospf4, AllEmissions(ManyFabrics(6545), "n"), INITIAL_NUMBER, ANY_ROUTE, ALL_PASS) ==
            Some(Ranked(4, V4(0x1_0000 * 6544)))
  {
    EmissionAt(6545, 6544);
    LastOneWins(AllEmissions(ManyFabrics(6545), "n"), V4(0x1_0000 * 6544));
  }

  /** The entry at position 6544 gets number 4, and all before it get 100 or more. */
  lemma NumbersAround(i: nat)
    requires i <= 6544
    ensures if i == 6544 then NumberAfter(INITIAL_NUMBER, i) == 4 else NumberAfter(INITIAL_NUMBER, i) >= 100
  {
    if i == 6544 {
      NumberAfterExact(100, 6543);
      NumberAfterStep(100, 6543);
    } else {
      NumberAfterExact(100, i);
    }
  }

  lemma LastOneWins(ems: seq<Emission>, last: IpAddr)
    requires |ems| == 6545 && ems[6544].kind == Ospf4 && ems[6544].src == last
    requires Admits(ems[6544].fabric, Ospf4, ANY_ROUTE, ALL_PASS)
    ensures LeastAdmitted(Ospf4, ems, INITIAL_NUMBER, ANY_ROUTE, ALL_PASS) == Some(Ranked(4, last))
  {
    NumbersAround(6544);
    LeastIsLeast(Ospf4, ems, INITIAL_NUMBER, ANY_ROUTE, ALL_PASS, 6544);
    LeastOrigin(Ospf4, ems, INITIAL_NUMBER, ANY_ROUTE, ALL_PASS);
    var w := LeastAdmitted(Ospf4, ems, INITIAL_NUMBER, ANY_ROUTE, ALL_PASS).value;
    var i: nat :| i < |ems| && AdmitsAt(Ospf4, ems, ANY_ROUTE, ALL_PASS, i) &&
                  w == Ranked(NumberAfter(INITIAL_NUMBER, i), ems[i].src);
    NumbersAround(i);
  }

  // ----- Numbers -----

  lemma FirstHasAddress(es: seq<FabricEntry>)
    requires es != [] && es[0] == FilteredFabric(0)
    ensures exists i :: 0 <= i < |es| && OwnAddress(es[i], "n", Ospf4).Some?
  {
    assert OwnAddress(es[0], "n", Ospf4).Some?;
  }

  lemma ManyHaveMap(count: nat)
    requires 0 < count <= 0x1_0000
    ensures Build(EMPTY_STATE, ManyFabrics(count), "n").Ok?
    ensures MapName(Ospf4) in Build(EMPTY_STATE, ManyFabrics(count), "n").value.policy.routemaps
  {
    var es := ManyFabrics(count);
    ManyOrdered(count);
    ManyOk(count);
    CompiledMap(EMPTY_STATE, es, "n", Ospf4);
    FirstHasAddress(es);
  }

  /** With 6545 fabrics the compiled route-map does not ascend. */
  lemma MapDescends()
    ensures var es := ManyFabrics(6545);
            Ordered(es) && ConfigOk(es) && Build(EMPTY_STATE, es, "n").Ok? &&
            var p := Build(EMPTY_STATE, es, "n").value.policy;
            MapName(Ospf4) in p.routemaps && !AscendingNumbers(p.routemaps[MapName(Ospf4)])
  {
    var es := ManyFabrics(6545);
    ManyOrdered(6545);
    ManyOk(6545);
    ManyHaveMap(6545);
    CompiledMapAscends(EMPTY_STATE, es, "n", Ospf4);
    EmissionAt(6545, 0);
    EmissionAt(6545, 6544);
    TooClose(AllEmissions(es, "n"));
  }

  lemma TooClose(ems: seq<Emission>)
    requires |ems| == 6545 && ems[0].kind == Ospf4 && ems[6544].kind == Ospf4
    ensures !FarApart(Ospf4, ems)
  {
    var i: nat, j: nat := 0, 6544;
    assert Wraps(i) == 0 && Wraps(j) == 1;
  }

  /** With 32769 fabrics the compiled route-map has the number 100 twice. */
  lemma NumberRepeats()
    ensures var es := ManyFabrics(32769);
            Ordered(es) && ConfigOk(es) && Build(EMPTY_STATE, es, "n").Ok? &&
            var p := Build(EMPTY_STATE, es, "n").value.policy;
            MapName(Ospf4) in p.routemaps && !DistinctNumbers(p.routemaps[MapName(Ospf4)])
  {
    var es := ManyFabrics(32769);
    ManyOrdered(32769);
    ManyOk(32769);
    ManyHaveMap(32769);
    CompiledNumbersDistinct(EMPTY_STATE, es, "n", Ospf4);
    EmissionAt(32769, 0);
    EmissionAt(32769, 32768);
    Aligned(AllEmissions(es, "n"));
  }

  lemma Aligned(ems: seq<Emission>)
    requires |ems| == 32769 && ems[0].kind == Ospf4 && ems[32768].kind == Ospf4
    ensures !NeverAligned(Ospf4, ems)
  {
    var i: nat, j: nat := 0, 32768;
    assert (j - i) % 32768 == 0;
  }
}
