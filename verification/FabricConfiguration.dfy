/** The mutable fabric configuration: what editing it keeps, and which edits keep it valid. */
module FabricConfiguration {
  import opened Wrappers
  import opened Addresses
  import opened Identifiers
  import opened Collections
  import opened FabricModel
  import opened FabricRules
  import FabricSections
  import FabricValidation

  type Fabrics = FabricSections.Fabrics

  // ----- What each edit does to the map of fabrics -----

  /** A new fabric keeps only the network bits of its prefixes. */
  function Canonical(f: Fabric): Fabric {
    f.(ipPrefix := if f.ipPrefix.Some? then Some(Canonical4(f.ipPrefix.value)) else None,
       ip6Prefix := if f.ip6Prefix.Some? then Some(Canonical6(f.ip6Prefix.value)) else None)
  }

  datatype Edit =
    | AddFabric(fabric: Fabric)
    | DeleteFabric(id: FabricId)
    | AddNode(to: FabricId, node: Node)
    | DeleteNode(from: FabricId, nodeId: NodeId)

  function Applied(c: Fabrics, edit: Edit): Result<Fabrics, FabricConfigError> {
    match edit
    case AddFabric(f) =>
      if f.id in c then Err(DuplicateFabric) else Ok(c[f.id := FabricEntry(Canonical(f), map[])])
    case DeleteFabric(id) =>
      if id !in c then Err(FabricDoesNotExist) else Ok(c - {id})
    case AddNode(to, n) =>
      if to !in c then Err(FabricDoesNotExist)
      else (match FabricSections.AddNode(c[to], n)
            case Err(e) => Err(e)
            case Ok(entry) => Ok(c[to := entry]))
    case DeleteNode(from, n) =>
      if from !in c then Err(FabricDoesNotExist)
      else if n !in c[from].nodes then Err(NodeDoesNotExist)
      else Ok(c[from := c[from].(nodes := c[from].nodes - {n})])
  }

  /** The configuration after an edit; a failed edit changes nothing. */
  function After(c: Fabrics, edit: Edit): Fabrics {
    var r := Applied(c, edit);
    if r.Ok? then r.value else c
  }

  function AfterAll(c: Fabrics, edits: seq<Edit>): Fabrics {
    if edits == [] then c else After(AfterAll(c, edits[..|edits| - 1]), edits[|edits| - 1])
  }

  predicate EditFormatted(edit: Edit) {
    match edit
    case AddFabric(f) => FabricSections.SectionFormatted(FabricSections.FabricSection(f))
    case AddNode(_, n) => FabricSections.SectionFormatted(FabricSections.NodeSection(n))
    case _ => true
  }

  /** The fabric under the same id and properties, with the prefixes' host bits cleared: each starts
      at the lowest of its addresses and contains the same ones as before. */
  ghost predicate IsCanonicalFabric(g: Fabric, f: Fabric) {
    g.id == f.id && g.properties == f.properties &&
    (g.ipPrefix.Some? <==> f.ipPrefix.Some?) && (g.ip6Prefix.Some? <==> f.ip6Prefix.Some?) &&
    (g.ipPrefix.Some? ==> IsNetwork4(g.ipPrefix.value, f.ipPrefix.value)) &&
    (g.ip6Prefix.Some? ==> IsNetwork6(g.ip6Prefix.value, f.ip6Prefix.value))
  }

  ghost predicate IsNetwork4(q: Ipv4Cidr, p: Ipv4Cidr) {
    q.mask == p.mask && Contains4(p, q.addr) && forall a: Ipv4Addr :: Contains4(p, a) ==> q.addr <= a && Contains4(q, a)
  }

  ghost predicate IsNetwork6(q: Ipv6Cidr, p: Ipv6Cidr) {
    q.mask == p.mask && Contains6(p, q.addr) && forall a: Ipv6Addr :: Contains6(p, a) ==> q.addr <= a && Contains6(q, a)
  }

  lemma CanonicalIsNetwork4(p: Ipv4Cidr)
    ensures IsNetwork4(Canonical4(p), p)
  {
    forall a: Ipv4Addr | Contains4(p, a) ensures Canonical4(p).addr <= a && Contains4(Canonical4(p), a) {
      ShlShr(a, 32 - p.mask);
    }
  }

  lemma CanonicalIsNetwork6(p: Ipv6Cidr)
    ensures IsNetwork6(Canonical6(p), p)
  {
    forall a: Ipv6Addr | Contains6(p, a) ensures Canonical6(p).addr <= a && Contains6(Canonical6(p), a) {
      ShlShr(a, 128 - p.mask);
    }
  }

  lemma CanonicalFabric(f: Fabric)
    ensures IsCanonicalFabric(Canonical(f), f)
  {
    if f.ipPrefix.Some? {
      CanonicalIsNetwork4(f.ipPrefix.value);
    }
    if f.ip6Prefix.Some? {
      CanonicalIsNetwork6(f.ip6Prefix.value);
    }
  }

  class FabricConfig {
    var fabrics: Fabrics

    ghost predicate Valid()
      reads this
    {
      WellFormed(fabrics)
    }

    constructor ()
      ensures Valid() && fabrics == map[]
    {
      fabrics := map[];
    }

    method AddFabric(fabric: Fabric) returns (r: Outcome<FabricConfigError>)
      requires Valid() && EditFormatted(Edit.AddFabric(fabric))
      modifies this
      ensures Valid() && fabrics == After(old(fabrics), Edit.AddFabric(fabric))
      ensures r.Pass? <==> fabric.id !in old(fabrics)
      ensures r.Fail? ==> r.error == DuplicateFabric && fabrics == old(fabrics)
      ensures r.Pass? ==> fabric.id in fabrics && IsCanonicalFabric(fabrics[fabric.id].fabric, fabric) &&
                          fabrics == old(fabrics)[fabric.id := FabricEntry(fabrics[fabric.id].fabric, map[])]
    {
      CanonicalFabric(fabric);
      if fabric.id in fabrics {
        return Fail(DuplicateFabric);
      }
      var added := fabric;
      if fabric.ipPrefix.Some? {
        added := added.(ipPrefix := Some(Canonical4(fabric.ipPrefix.value)));
      }
      if fabric.ip6Prefix.Some? {
        added := added.(ip6Prefix := Some(Canonical6(fabric.ip6Prefix.value)));
      }
      EditKeepsWellFormed(fabrics, Edit.AddFabric(fabric));
      fabrics := fabrics[added.id := FabricEntry(added, map[])];
      r := Pass;
    }

    method DeleteFabric(id: FabricId) returns (r: Result<FabricEntry, FabricConfigError>)
      requires Valid()
      modifies this
      ensures Valid() && fabrics == After(old(fabrics), Edit.DeleteFabric(id))
      ensures r == if id in old(fabrics) then Ok(old(fabrics)[id]) else Err(FabricDoesNotExist)
      ensures fabrics == old(fabrics) - {id}
    {
      if id !in fabrics {
        return Err(FabricDoesNotExist);
      }
      r := Ok(fabrics[id]);
      EditKeepsWellFormed(fabrics, Edit.DeleteFabric(id));
      fabrics := fabrics - {id};
    }

    method AddNode(to: FabricId, node: Node) returns (r: Outcome<FabricConfigError>)
      requires Valid() && EditFormatted(Edit.AddNode(to, node))
      modifies this
      ensures Valid() && fabrics == After(old(fabrics), Edit.AddNode(to, node))
      ensures r == if to !in old(fabrics) then Fail(FabricDoesNotExist)
                   else if NodeProtocol(node) != FabricProtocol(old(fabrics)[to].fabric) then Fail(ProtocolMismatch)
                   else if node.id.nodeId in old(fabrics)[to].nodes then Fail(DuplicateNode)
                   else if node.id.fabricId != to then Fail(FabricIdMismatch)
                   else Pass
      ensures r.Fail? ==> fabrics == old(fabrics)
      ensures r.Pass? ==> fabrics == var e := old(fabrics)[to];
                                     old(fabrics)[to := FabricEntry(e.fabric, e.nodes[node.id.nodeId := node])]
    {
      if to !in fabrics {
        return Fail(FabricDoesNotExist);
      }
      var entry := fabrics[to];
      if NodeProtocol(node) != FabricProtocol(entry.fabric) {
        return Fail(ProtocolMismatch);
      }
      if node.id.nodeId in entry.nodes {
        return Fail(DuplicateNode);
      }
      if node.id.fabricId != entry.fabric.id {
        return Fail(FabricIdMismatch);
      }
      EditKeepsWellFormed(fabrics, Edit.AddNode(to, node));
      fabrics := fabrics[to := entry.(nodes := entry.nodes[node.id.nodeId := node])];
      r := Pass;
    }

    method DeleteNode(from: FabricId, nodeId: NodeId) returns (r: Result<Node, FabricConfigError>)
      requires Valid()
      modifies this
      ensures Valid() && fabrics == After(old(fabrics), Edit.DeleteNode(from, nodeId))
      ensures r.Ok? <==> from in old(fabrics) && nodeId in old(fabrics)[from].nodes
      ensures r.Ok? ==> r.value == old(fabrics)[from].nodes[nodeId]
      ensures r.Err? ==> r.error == if from in old(fabrics) then NodeDoesNotExist else FabricDoesNotExist
      ensures r.Err? ==> fabrics == old(fabrics)
      ensures r.Ok? ==> fabrics == var e := old(fabrics)[from];
                                   old(fabrics)[from := FabricEntry(e.fabric, e.nodes - {nodeId})]
    {
      if from !in fabrics {
        return Err(FabricDoesNotExist);
      }
      var entry := fabrics[from];
      if nodeId !in entry.nodes {
        return Err(NodeDoesNotExist);
      }
      r := Ok(entry.nodes[nodeId]);
      EditKeepsWellFormed(fabrics, Edit.DeleteNode(from, nodeId));
      fabrics := fabrics[from := entry.(nodes := entry.nodes - {nodeId})];
    }

    /** Checks the configuration as it is; it never changes it. */
    method Validate() returns (r: Outcome<FabricConfigError>)
      requires Valid()
      ensures r.Pass? <==> ConfigOk(Values(fabrics))
      ensures r.Fail? ==> ConfigBreaks(Values(fabrics), r.error)
    {
      ValuesOrdered(fabrics);
      r := FabricValidation.Validate(Values(fabrics));
    }
  }

  // ----- Runs of edits -----

  ghost predicate HasCanonicalPrefixes(f: Fabric) {
    (f.ipPrefix.Some? ==> Canonical4(f.ipPrefix.value) == f.ipPrefix.value) &&
    (f.ip6Prefix.Some? ==> Canonical6(f.ip6Prefix.value) == f.ip6Prefix.value)
  }

  ghost predicate AllCanonical(c: Fabrics) {
    forall f :: f in c ==> HasCanonicalPrefixes(c[f].fabric)
  }

  /** Clearing host bits changes no address of a prefix, and doing it again changes nothing. */
  lemma CanonicalPrefix4(p: Ipv4Cidr)
    ensures Canonical4(Canonical4(p)) == Canonical4(p)
    ensures forall a: Ipv4Addr :: Contains4(Canonical4(p), a) <==> Contains4(p, a)
    ensures forall q: Ipv4Cidr :: Overlaps4(Canonical4(p), q) <==> Overlaps4(p, q)
  {
    forall q: Ipv4Cidr ensures Overlaps4(Canonical4(p), q) <==> Overlaps4(p, q) {
      OverlapIsSharedAddress4(p, q);
      OverlapIsSharedAddress4(Canonical4(p), q);
    }
  }

  lemma CanonicalPrefix6(p: Ipv6Cidr)
    ensures Canonical6(Canonical6(p)) == Canonical6(p)
    ensures forall a: Ipv6Addr :: Contains6(Canonical6(p), a) <==> Contains6(p, a)
    ensures forall q: Ipv6Cidr :: Overlaps6(Canonical6(p), q) <==> Overlaps6(p, q)
  {
    forall q: Ipv6Cidr ensures Overlaps6(Canonical6(p), q) <==> Overlaps6(p, q) {
      OverlapIsSharedAddress6(p, q);
      OverlapIsSharedAddress6(Canonical6(p), q);
    }
  }

  lemma EditKeepsWellFormed(c: Fabrics, edit: Edit)
    requires WellFormed(c) && EditFormatted(edit)
    ensures WellFormed(After(c, edit))
    ensures AllCanonical(c) ==> AllCanonical(After(c, edit))
  {
    match edit
    case AddNode(to, n) =>
      if to in c && FabricSections.AddNode(c[to], n).Ok? {
        FabricSections.AddNodeKeepsWellFormed(c[to], n);
      }
    case AddFabric(f) =>
      assert HasCanonicalPrefixes(Canonical(f));
    case _ =>
  }

  /** Every configuration that edits can build is well formed, with canonical prefixes. */
  lemma {:induction false} EditsKeepWellFormed(edits: seq<Edit>)
    requires forall i :: 0 <= i < |edits| ==> EditFormatted(edits[i])
    ensures WellFormed(AfterAll(map[], edits)) && AllCanonical(AfterAll(map[], edits))
  {
    if edits != [] {
      EditsKeepWellFormed(edits[..|edits| - 1]);
      EditKeepsWellFormed(AfterAll(map[], edits[..|edits| - 1]), edits[|edits| - 1]);
    }
  }

  // ----- Deleting a fabric keeps a configuration valid -----

  lemma SortedFirst(s: set<string>, m: string)
    requires IsLeast(m, s)
    ensures SortedKeys(s) == [m] + SortedKeys(s - {m})
  {
    LeastUnique(s);
  }

  lemma {:induction false} SortedWithout(s: set<string>, x: string) returns (i: nat)
    requires x in s
    ensures i < |SortedKeys(s)| && SortedKeys(s)[i] == x
    ensures SortedKeys(s - {x}) == SortedKeys(s)[..i] + SortedKeys(s)[i + 1..]
    decreases |s|
  {
    var m := Least(s);
    var rest := SortedKeys(s - {m});
    if x == m {
      i := 0;
    } else {
      var j := SortedWithout(s - {m}, x);
      i := j + 1;
      LaterWithout(s, x, m);
      ConsWithout(m, rest, j);
    }
  }

  lemma LaterWithout(s: set<string>, x: string, m: string)
    requires IsLeast(m, s) && x in s && x != m
    ensures SortedKeys(s - {x}) == [m] + SortedKeys(s - {m} - {x})
  {
    SortedFirst(s - {x}, m);
    assert s - {x} - {m} == s - {m} - {x};
  }

  lemma ConsWithout<T>(m: T, rest: seq<T>, j: nat)
    requires j < |rest|
    ensures ([m] + rest)[..j + 1] + ([m] + rest)[j + 2..] == [m] + (rest[..j] + rest[j + 1..])
  {
  }

  lemma {:induction false} AreasConcat(a: seq<FabricEntry>, b: seq<FabricEntry>)
    ensures Areas(a + b) == Areas(a) + Areas(b)
    decreases |b|
  {
    if b == [] {
      assert a + b == a;
    } else {
      assert (a + b)[..|a + b| - 1] == a + b[..|b| - 1];
      AreasConcat(a, b[..|b| - 1]);
    }
  }

  lemma {:induction false} AllClaimsConcat(a: seq<FabricEntry>, b: seq<FabricEntry>, n: NodeId)
    ensures AllClaims(a + b, n) == AllClaims(a, n) + AllClaims(b, n)
    decreases |b|
  {
    if b == [] {
      assert a + b == a;
    } else {
      var init, e := b[..|b| - 1], b[|b| - 1];
      assert (a + b)[..|a + b| - 1] == a + init && (a + b)[|a + b| - 1] == e;
      AllClaimsConcat(a, init, n);
      ConcatAssociative(AllClaims(a, n), AllClaims(init, n), Claims(e, n));
    }
  }

  lemma NoDupWithoutMiddle<T>(a: seq<T>, m: seq<T>, b: seq<T>)
    requires NoDup(a + m + b)
    ensures NoDup(a + b)
  {
    NoDupConcat(a + m, b);
    NoDupConcat(a, m);
    NoDupConcat(a, b);
  }

  lemma ConfigOkWithout(a: seq<FabricEntry>, e: FabricEntry, b: seq<FabricEntry>)
    requires ConfigOk(a + [e] + b)
    ensures ConfigOk(a + b)
  {
    var all, es := a + [e] + b, a + b;
    AreasConcat(a + [e], b);
    AreasConcat(a, [e]);
    AreasConcat(a, b);
    NoDupWithoutMiddle(Areas(a), Areas([e]), Areas(b));
    forall n: NodeId ensures NoDup(AllClaims(es, n)) {
      AllClaimsConcat(a + [e], b, n);
      AllClaimsConcat(a, [e], n);
      AllClaimsConcat(a, b, n);
      NoDupWithoutMiddle(AllClaims(a, n), AllClaims([e], n), AllClaims(b, n));
    }
    assert forall i :: 0 <= i < |es| ==> es[i] == all[if i < |a| then i else i + 1];
  }

  lemma ValueAt(c: Fabrics, j: nat)
    requires j < |FabricIds(c)|
    ensures |Values(c)| == |FabricIds(c)| && FabricIds(c)[j] in c && Values(c)[j] == c[FabricIds(c)[j]]
  {
    assert FabricIds(c)[j] in FabricIds(c);
  }

  lemma ValuesWithout(c: Fabrics, id: FabricId) returns (i: nat)
    requires id in c
    ensures i < |Values(c)| && Values(c - {id}) == Values(c)[..i] + Values(c)[i + 1..]
  {
    i := SortedWithout(c.Keys, id);
    assert (c - {id}).Keys == c.Keys - {id};
    forall j | 0 <= j < |FabricIds(c - {id})| ensures Values(c - {id})[j] == Values(c)[if j < i then j else j + 1] {
      ValueWithoutAt(c, id, i, j);
    }
  }

  lemma ValueWithoutAt(c: Fabrics, id: FabricId, i: nat, j: nat)
    requires id in c && i < |FabricIds(c)| && FabricIds(c - {id}) == FabricIds(c)[..i] + FabricIds(c)[i + 1..]
    requires j < |FabricIds(c - {id})|
    ensures Values(c - {id})[j] == Values(c)[if j < i then j else j + 1]
  {
    var k := if j < i then j else j + 1;
    assert FabricIds(c - {id})[j] == FabricIds(c)[k];
    ValueAt(c - {id}, j);
    ValueAt(c, k);
  }

  lemma SplitAt<T>(s: seq<T>, i: nat)
    requires i < |s|
    ensures s == s[..i] + [s[i]] + s[i + 1..]
  {
  }

  /** A valid configuration stays valid when a fabric is deleted from it. */
  lemma DeletingFabricKeepsValid(c: Fabrics, id: FabricId)
    requires ConfigOk(Values(c))
    ensures ConfigOk(Values(After(c, DeleteFabric(id))))
  {
    if id in c {
      var i := ValuesWithout(c, id);
      SplitAt(Values(c), i);
      ConfigOkWithout(Values(c)[..i], Values(c)[i], Values(c)[i + 1..]);
    }
  }
}
