/** Reading a fabric configuration from the sections of its file, and writing it back. */
module FabricSections {
  import opened Wrappers
  import opened Identifiers
  import opened Collections
  import opened FabricModel
  import opened FabricRules
  import FabricValidation

  type Fabrics = map<FabricId, FabricEntry>

  /** One section of the file: a fabric or a node. */
  datatype Section = FabricSection(fabric: Fabric) | NodeSection(node: Node)

  /** The id under which a section is filed. */
  function SectionId(s: Section): string {
    match s
    case FabricSection(f) => f.id
    case NodeSection(n) => PrintNodeSectionId(n.id)
  }

  /** The formats that the types of a section enforce. */
  predicate SectionFormatted(s: Section) {
    match s
    case FabricSection(f) => IsFabricId(f.id)
    case NodeSection(n) =>
      IsNodeSectionId(n.id) && forall x :: x in LinkNames(n.properties) ==> IsInterfaceName(x)
  }

  /** The section describes a part of the configuration. */
  predicate SectionOf(c: Fabrics, s: Section) {
    match s
    case FabricSection(f) => f.id in c && c[f.id].fabric == f
    case NodeSection(n) => n.id.fabricId in c && NodeAt(c[n.id.fabricId], n)
  }

  predicate NodeAt(e: FabricEntry, n: Node) {
    n.id.nodeId in e.nodes && e.nodes[n.id.nodeId] == n
  }

  // ----- Adding a node to its fabric -----

  function AddNode(e: FabricEntry, n: Node): Result<FabricEntry, FabricConfigError> {
    if NodeProtocol(n) != FabricProtocol(e.fabric) then Err(ProtocolMismatch)
    else if n.id.nodeId in e.nodes then Err(DuplicateNode)
    else if n.id.fabricId != e.fabric.id then Err(FabricIdMismatch)
    else Ok(e.(nodes := e.nodes[n.id.nodeId := n]))
  }

  lemma AddNodeKeepsWellFormed(e: FabricEntry, n: Node)
    requires EntryWellFormed(e) && EntryFormatted(e) && SectionFormatted(NodeSection(n)) && AddNode(e, n).Ok?
    ensures EntryWellFormed(AddNode(e, n).value) && EntryFormatted(AddNode(e, n).value)
  {
  }

  // ----- Reading -----

  /** The fabrics among the sections, without their nodes. */
  function FabricsOf(sections: seq<Section>): Fabrics {
    if sections == [] then map[]
    else
      var c, s := FabricsOf(sections[..|sections| - 1]), sections[|sections| - 1];
      if s.FabricSection? then c[s.fabric.id := FabricEntry(s.fabric, map[])] else c
  }

  function NodesOf(sections: seq<Section>): seq<Node> {
    if sections == [] then []
    else
      var s := sections[|sections| - 1];
      NodesOf(sections[..|sections| - 1]) + (if s.NodeSection? then [s.node] else [])
  }

  function PlaceNode(c: Fabrics, n: Node): Result<Fabrics, FabricConfigError> {
    if n.id.fabricId !in c then Err(FabricDoesNotExist)
    else
      match AddNode(c[n.id.fabricId], n)
      case Err(e) => Err(e)
      case Ok(entry) => Ok(c[n.id.fabricId := entry])
  }

  function PlaceNodes(c: Fabrics, nodes: seq<Node>): Result<Fabrics, FabricConfigError> {
    if nodes == [] then Ok(c)
    else
      match PlaceNodes(c, nodes[..|nodes| - 1])
      case Err(e) => Err(e)
      case Ok(c') => PlaceNode(c', nodes[|nodes| - 1])
  }

  /** The configuration that the sections describe, before it is validated. */
  function Assemble(sections: seq<Section>): Result<Fabrics, FabricConfigError> {
    PlaceNodes(FabricsOf(sections), NodesOf(sections))
  }

  /** The first node that cannot be placed stops the reading. */
  lemma {:induction false} PlacingStops(c: Fabrics, nodes: seq<Node>, i: nat)
    requires i <= |nodes| && PlaceNodes(c, nodes[..i]).Err?
    ensures PlaceNodes(c, nodes) == PlaceNodes(c, nodes[..i])
    decreases |nodes|
  {
    if i < |nodes| {
      var init := nodes[..|nodes| - 1];
      assert init[..i] == nodes[..i];
      PlacingStops(c, init, i);
    } else {
      assert nodes[..i] == nodes;
    }
  }

  method Collect(sections: seq<Section>) returns (fabrics: Fabrics, nodes: seq<Node>)
    ensures fabrics == FabricsOf(sections) && nodes == NodesOf(sections)
  {
    fabrics, nodes := map[], [];
    for i := 0 to |sections|
      invariant fabrics == FabricsOf(sections[..i]) && nodes == NodesOf(sections[..i])
    {
      assert sections[..i + 1][..i] == sections[..i];
      match sections[i]
      case FabricSection(f) => fabrics := fabrics[f.id := FabricEntry(f, map[])];
      case NodeSection(n) => nodes := nodes + [n];
    }
    assert sections[..|sections|] == sections;
  }

  /** Accepts exactly the sections that assemble to a valid configuration, and returns it. */
  method FromSectionConfig(sections: seq<Section>) returns (r: Result<Fabrics, FabricConfigError>)
    requires forall s :: s in sections ==> SectionFormatted(s)
    ensures r.Ok? <==> Assemble(sections).Ok? && ConfigOk(Values(Assemble(sections).value))
    ensures r.Ok? ==> Some(r.value) == Assembled(sections)
    ensures r.Err? ==>
              if Assemble(sections).Err? then r.error == Assemble(sections).error
              else ConfigBreaks(Values(Assemble(sections).value), r.error)
  {
    var fabrics, nodes := Collect(sections);
    var placed := PlaceAll(fabrics, nodes);
    if placed.Err? {
      return Err(placed.error);
    }
    AssembledWellFormed(sections);
    ValuesOrdered(placed.value);
    var checked := FabricValidation.Validate(Values(placed.value));
    r := if checked.Fail? then Err(checked.error) else placed;
  }

  method PlaceAll(fabrics: Fabrics, nodes: seq<Node>) returns (r: Result<Fabrics, FabricConfigError>)
    ensures r == PlaceNodes(fabrics, nodes)
  {
    var c := fabrics;
    for i := 0 to |nodes|
      invariant PlaceNodes(fabrics, nodes[..i]) == Ok(c)
    {
      assert nodes[..i + 1][..i] == nodes[..i];
      var id := nodes[i].id.fabricId;
      if id !in c {
        PlacingStops(fabrics, nodes, i + 1);
        return Err(FabricDoesNotExist);
      }
      var entry := AddNode(c[id], nodes[i]);
      if entry.Err? {
        PlacingStops(fabrics, nodes, i + 1);
        return Err(entry.error);
      }
      c := c[id := entry.value];
    }
    assert nodes[..|nodes|] == nodes;
    r := Ok(c);
  }

  function Assembled(sections: seq<Section>): Option<Fabrics> {
    if Assemble(sections).Ok? then Some(Assemble(sections).value) else None
  }

  lemma {:induction false} FabricsOfContents(sections: seq<Section>)
    ensures forall f :: f in FabricsOf(sections) ==>
              FabricsOf(sections)[f].nodes == map[] && FabricsOf(sections)[f].fabric.id == f &&
              FabricSection(FabricsOf(sections)[f].fabric) in sections
    ensures forall f :: FabricSection(f) in sections ==> f.id in FabricsOf(sections)
  {
    if sections != [] {
      FabricsOfContents(sections[..|sections| - 1]);
      assert sections == sections[..|sections| - 1] + [sections[|sections| - 1]];
    }
  }

  lemma {:induction false} NodesOfContents(sections: seq<Section>)
    ensures forall n :: n in NodesOf(sections) <==> NodeSection(n) in sections
  {
    if sections != [] {
      NodesOfContents(sections[..|sections| - 1]);
      assert sections == sections[..|sections| - 1] + [sections[|sections| - 1]];
    }
  }

  lemma {:induction false} NodesOfNoDup(sections: seq<Section>)
    requires NoDup(sections)
    ensures NoDup(NodesOf(sections))
  {
    if sections != [] {
      var init, s := sections[..|sections| - 1], sections[|sections| - 1];
      assert sections == init + [s];
      NoDupAppend(init, s);
      NodesOfNoDup(init);
      NodesOfContents(init);
      if s.NodeSection? {
        NoDupAppend(NodesOf(init), s.node);
      }
    }
  }

  // ----- What placing nodes yields -----

  /** c has the fabrics of base with exactly the given nodes, each under its own fabric. */
  ghost predicate Holds(c: Fabrics, base: Fabrics, nodes: seq<Node>) {
    c.Keys == base.Keys &&
    (forall f :: f in c ==> c[f].fabric == base[f].fabric && HeldNodes(c, f, nodes)) &&
    (forall n :: n in nodes ==> n.id.fabricId in c && NodeAt(c[n.id.fabricId], n))
  }

  ghost predicate HeldNodes(c: Fabrics, f: FabricId, nodes: seq<Node>)
    requires f in c
  {
    forall k :: k in c[f].nodes ==> c[f].nodes[k] in nodes && c[f].nodes[k].id == NodeSectionId(f, k)
  }

  ghost predicate Placeable(base: Fabrics, n: Node) {
    n.id.fabricId in base && NodeProtocol(n) == FabricProtocol(base[n.id.fabricId].fabric)
  }

  /** Every node finds its fabric, speaks its protocol, and has an id of its own. */
  ghost predicate AllPlaceable(base: Fabrics, nodes: seq<Node>) {
    (forall i :: 0 <= i < |nodes| ==> Placeable(base, nodes[i])) &&
    forall i, j :: 0 <= i < j < |nodes| ==> nodes[i].id != nodes[j].id
  }

  ghost predicate IsBase(base: Fabrics) {
    forall f :: f in base ==> base[f].nodes == map[] && base[f].fabric.id == f
  }

  lemma {:induction false} PlaceNodesHolds(base: Fabrics, nodes: seq<Node>)
    requires IsBase(base)
    ensures PlaceNodes(base, nodes).Ok? <==> AllPlaceable(base, nodes)
    ensures PlaceNodes(base, nodes).Ok? ==> Holds(PlaceNodes(base, nodes).value, base, nodes)
  {
    if nodes != [] {
      var init, n := nodes[..|nodes| - 1], nodes[|nodes| - 1];
      assert nodes == init + [n];
      PlaceNodesHolds(base, init);
      if PlaceNodes(base, init).Ok? {
        var c := PlaceNodes(base, init).value;
        PlaceOne(base, c, init, n);
      } else {
        NotPlaceablePrefix(base, nodes);
      }
    }
  }

  lemma NotPlaceablePrefix(base: Fabrics, nodes: seq<Node>)
    requires nodes != [] && !AllPlaceable(base, nodes[..|nodes| - 1])
    ensures !AllPlaceable(base, nodes)
  {
    var init := nodes[..|nodes| - 1];
    assert forall i :: 0 <= i < |init| ==> init[i] == nodes[i];
  }

  lemma PlaceOne(base: Fabrics, c: Fabrics, init: seq<Node>, n: Node)
    requires IsBase(base) && Holds(c, base, init) && AllPlaceable(base, init)
    ensures PlaceNode(c, n).Ok? <==> AllPlaceable(base, init + [n])
    ensures PlaceNode(c, n).Ok? ==> Holds(PlaceNode(c, n).value, base, init + [n])
  {
    if AllPlaceable(base, init + [n]) {
      PlaceablePlaces(base, c, init, n);
    }
    if PlaceNode(c, n).Ok? {
      PlacedPlaceable(base, c, init, n);
      PlacedHolds(base, c, init, n);
    }
  }

  lemma PlaceablePlaces(base: Fabrics, c: Fabrics, init: seq<Node>, n: Node)
    requires IsBase(base) && Holds(c, base, init) && AllPlaceable(base, init + [n])
    ensures PlaceNode(c, n).Ok?
  {
    var nodes, f, k := init + [n], n.id.fabricId, n.id.nodeId;
    assert nodes[|init|] == n && Placeable(base, nodes[|init|]);
    assert HeldNodes(c, f, init);
    forall i | 0 <= i < |init| ensures init[i].id != n.id {
      assert nodes[i] == init[i];
    }
  }

  lemma PlacedPlaceable(base: Fabrics, c: Fabrics, init: seq<Node>, n: Node)
    requires IsBase(base) && Holds(c, base, init) && AllPlaceable(base, init) && PlaceNode(c, n).Ok?
    ensures AllPlaceable(base, init + [n])
  {
    var nodes := init + [n];
    forall i | 0 <= i < |init| ensures init[i].id != n.id {
      assert init[i] in init;
      assert NodeAt(c[init[i].id.fabricId], init[i]);
    }
    forall i | 0 <= i < |nodes| ensures Placeable(base, nodes[i]) {
      assert i < |init| ==> nodes[i] == init[i];
    }
  }

  lemma PlacedHolds(base: Fabrics, c: Fabrics, init: seq<Node>, n: Node)
    requires Holds(c, base, init) && PlaceNode(c, n).Ok?
    ensures Holds(PlaceNode(c, n).value, base, init + [n])
  {
    var nodes, c' := init + [n], PlaceNode(c, n).value;
    assert nodes[|init|] == n;
    forall g | g in c' ensures c'[g].fabric == base[g].fabric && HeldNodes(c', g, nodes) {
      assert HeldNodes(c, g, init);
    }
    forall m | m in nodes ensures m.id.fabricId in c' && NodeAt(c'[m.id.fabricId], m) {
      assert m in init ==> NodeAt(c[m.id.fabricId], m);
    }
  }

  lemma AssembledWellFormed(sections: seq<Section>)
    requires forall s :: s in sections ==> SectionFormatted(s)
    requires Assemble(sections).Ok?
    ensures WellFormed(Assemble(sections).value)
  {
    var base, nodes, c := FabricsOf(sections), NodesOf(sections), Assemble(sections).value;
    FabricsOfContents(sections);
    NodesOfContents(sections);
    PlaceNodesHolds(base, nodes);
    forall f | f in c ensures c[f].fabric.id == f && EntryWellFormed(c[f]) && EntryFormatted(c[f]) {
      assert SectionFormatted(FabricSection(base[f].fabric));
      forall k | k in c[f].nodes
        ensures c[f].nodes[k].id == NodeSectionId(f, k) && NodeProtocol(c[f].nodes[k]) == FabricProtocol(c[f].fabric)
        ensures IsNodeId(k) && forall x :: x in LinkNames(c[f].nodes[k].properties) ==> IsInterfaceName(x)
      {
        assert HeldNodes(c, f, nodes);
        var i :| 0 <= i < |nodes| && nodes[i] == c[f].nodes[k];
        assert SectionFormatted(NodeSection(nodes[i]));
        assert Placeable(base, nodes[i]);
      }
    }
  }

  // ----- Sections and configurations determine each other -----

  /** Sections that assemble are exactly those of the resulting configuration. */
  lemma AssembledSections(sections: seq<Section>)
    requires forall s, t :: FabricSection(s) in sections && FabricSection(t) in sections && s.id == t.id ==> s == t
    requires Assemble(sections).Ok?
    ensures forall s :: s in sections <==> SectionOf(Assemble(sections).value, s)
  {
    var base, nodes, c := FabricsOf(sections), NodesOf(sections), Assemble(sections).value;
    FabricsOfContents(sections);
    NodesOfContents(sections);
    PlaceNodesHolds(base, nodes);
    forall s ensures s in sections <==> SectionOf(c, s) {
      match s
      case FabricSection(f) =>
        if f.id in c {
          assert FabricSection(base[f.id].fabric) in sections;
        }
      case NodeSection(n) =>
        if SectionOf(c, s) {
          assert HeldNodes(c, n.id.fabricId, nodes);
        }
    }
  }

  /** In whatever order the sections of a configuration come, they assemble to it. */
  lemma SectionsAssemble(c: Fabrics, sections: seq<Section>)
    requires WellFormed(c) && NoDup(sections)
    requires forall s :: s in sections <==> SectionOf(c, s)
    ensures Assemble(sections) == Ok(c)
  {
    var base, nodes := FabricsOf(sections), NodesOf(sections);
    FabricsOfContents(sections);
    NodesOfContents(sections);
    NodesOfNoDup(sections);
    forall f ensures f in base <==> f in c {
      if f in c {
        assert SectionOf(c, FabricSection(c[f].fabric));
      }
      if f in base {
        assert SectionOf(c, FabricSection(base[f].fabric));
      }
    }
    forall f | f in c ensures base[f].fabric == c[f].fabric {
      assert SectionOf(c, FabricSection(base[f].fabric));
    }
    forall i | 0 <= i < |nodes| ensures Placeable(base, nodes[i]) && NodeAt(c[nodes[i].id.fabricId], nodes[i]) {
      assert nodes[i] in nodes;
      assert SectionOf(c, NodeSection(nodes[i]));
    }
    forall i, j | 0 <= i < j < |nodes| ensures nodes[i].id != nodes[j].id {
      assert NodeAt(c[nodes[i].id.fabricId], nodes[i]) && NodeAt(c[nodes[j].id.fabricId], nodes[j]);
    }
    PlaceNodesHolds(base, nodes);
    SameContents(c, PlaceNodes(base, nodes).value, base, nodes);
  }

  lemma SameContents(c: Fabrics, c': Fabrics, base: Fabrics, nodes: seq<Node>)
    requires WellFormed(c) && c.Keys == base.Keys && Holds(c', base, nodes)
    requires forall f :: f in c ==> c[f].fabric == base[f].fabric
    requires forall n :: n in nodes <==> SectionOf(c, NodeSection(n))
    ensures c == c'
  {
    forall f | f in c ensures c[f] == c'[f] {
      assert HeldNodes(c', f, nodes);
      forall k ensures k in c[f].nodes <==> k in c'[f].nodes {
        if k in c[f].nodes {
          assert SectionOf(c, NodeSection(c[f].nodes[k]));
        }
      }
      forall k | k in c[f].nodes ensures c[f].nodes[k] == c'[f].nodes[k] {
        assert SectionOf(c, NodeSection(c[f].nodes[k]));
      }
      assert c[f].nodes == c'[f].nodes;
    }
  }

  /** Sections that assemble in one order assemble to the same configuration in every order. */
  lemma OrderOfSectionsIrrelevant(sections: seq<Section>, sections': seq<Section>)
    requires forall s :: s in sections ==> SectionFormatted(s)
    requires NoDup(sections) && multiset(sections) == multiset(sections')
    requires forall s, t :: FabricSection(s) in sections && FabricSection(t) in sections && s.id == t.id ==> s == t
    requires Assemble(sections).Ok?
    ensures Assemble(sections') == Assemble(sections)
  {
    var c := Assemble(sections).value;
    AssembledSections(sections);
    AssembledWellFormed(sections);
    PermutationNoDup(sections, sections');
    forall s ensures s in sections' <==> SectionOf(c, s) {
      assert s in sections <==> s in multiset(sections);
      assert s in sections' <==> s in multiset(sections');
    }
    SectionsAssemble(c, sections');
  }

  // ----- Writing -----

  /** The sections of a file, in order, each under its id. */
  type SectionConfigData = seq<(string, Section)>

  function Ids(data: SectionConfigData): (ids: seq<string>)
    ensures |ids| == |data| && forall i :: 0 <= i < |ids| ==> ids[i] == data[i].0
  {
    Firsts(data)
  }

  function Sections(data: SectionConfigData): (ss: seq<Section>)
    ensures |ss| == |data| && forall i :: 0 <= i < |ss| ==> ss[i] == data[i].1
  {
    seq(|data|, i requires 0 <= i < |data| => data[i].1)
  }

  /** Replaces the section with the same id, or appends a new one. */
  function Insert(data: SectionConfigData, id: string, s: Section): SectionConfigData {
    if data == [] then [(id, s)]
    else if data[0].0 == id then [(id, s)] + data[1..]
    else [data[0]] + Insert(data[1..], id, s)
  }

  lemma {:induction false} InsertNew(data: SectionConfigData, id: string, s: Section)
    requires id !in Ids(data)
    ensures Insert(data, id, s) == data + [(id, s)]
  {
    if data != [] {
      assert data[0].0 in Ids(data);
      forall x | x in Ids(data[1..]) ensures x in Ids(data) {
        var i :| 0 <= i < |data[1..]| && data[1..][i].0 == x;
        assert Ids(data)[i + 1] == x;
      }
      InsertNew(data[1..], id, s);
    }
  }

  /** The nodes of an entry in order of their ids. */
  function EntryNodes(e: FabricEntry): (ns: seq<Node>) {
    var ids := NodeIds(e.nodes);
    seq(|ids|, i requires 0 <= i < |ids| =>
      assert ids[i] in ids;
      e.nodes[ids[i]])
  }

  predicate PartOf(e: FabricEntry, s: Section) {
    match s
    case FabricSection(f) => f == e.fabric
    case NodeSection(n) => n.id.fabricId == e.fabric.id && NodeAt(e, n)
  }

  /** Every section sits under its own id, and no id occurs twice. */
  ghost predicate Filed(data: SectionConfigData) {
    NoDup(Ids(data)) &&
    forall i :: 0 <= i < |data| ==> data[i].0 == SectionId(data[i].1) && SectionFormatted(data[i].1)
  }

  /** Two parts of a configuration under the same id are the same. */
  lemma IdsIdentify(s: Section, t: Section)
    requires SectionFormatted(s) && SectionFormatted(t) && SectionId(s) == SectionId(t)
    ensures if s.FabricSection? then t.FabricSection? && t.fabric.id == s.fabric.id
            else t.NodeSection? && t.node.id == s.node.id
  {
    match s
    case FabricSection(f) =>
      if t.NodeSection? {
        SectionIdsDistinct(f.id, t.node.id, t.node.id);
      }
    case NodeSection(n) =>
      match t
      case FabricSection(g) => SectionIdsDistinct(g.id, n.id, n.id);
      case NodeSection(m) =>
        NodeSectionIdRoundTrip(n.id);
        NodeSectionIdRoundTrip(m.id);
  }

  /** A section whose identity is new goes to the end. */
  lemma FiledInsert(data: SectionConfigData, s: Section)
    requires Filed(data) && SectionFormatted(s)
    requires forall t :: t in Sections(data) ==> SectionId(t) != SectionId(s)
    ensures Filed(Insert(data, SectionId(s), s))
    ensures Sections(Insert(data, SectionId(s), s)) == Sections(data) + [s]
  {
    var id := SectionId(s);
    forall i | 0 <= i < |data| ensures data[i].0 != id {
      assert Sections(data)[i] in Sections(data);
    }
    InsertNew(data, id, s);
    NoDupAppend(Ids(data), id);
    assert Ids(data + [(id, s)]) == Ids(data) + [id];
  }

  /** The sections of an entry: the fabric, followed by its nodes. */
  function EntrySections(e: FabricEntry): (ss: seq<Section>) {
    var ns := EntryNodes(e);
    [FabricSection(e.fabric)] + seq(|ns|, i requires 0 <= i < |ns| => NodeSection(ns[i]))
  }

  function AllSections(es: seq<FabricEntry>): seq<Section> {
    if es == [] then [] else AllSections(es[..|es| - 1]) + EntrySections(es[|es| - 1])
  }

  lemma EntrySectionsMember(e: FabricEntry, s: Section)
    requires EntryWellFormed(e)
    ensures s in EntrySections(e) <==> PartOf(e, s)
  {
    var ids, ss := NodeIds(e.nodes), EntrySections(e);
    assert ss[0] == FabricSection(e.fabric);
    if s.NodeSection? {
      var n := s.node;
      if PartOf(e, s) {
        var i :| 0 <= i < |ids| && ids[i] == n.id.nodeId;
        assert ss[i + 1] == s;
      }
      if s in ss {
        var i :| 0 <= i < |ss| && ss[i] == s;
        assert ids[i - 1] in ids;
      }
    }
  }

  lemma PartFormatted(e: FabricEntry, s: Section)
    requires EntryWellFormed(e) && EntryFormatted(e) && PartOf(e, s)
    ensures SectionFormatted(s)
  {
  }

  ghost predicate PartOfSome(es: seq<FabricEntry>, s: Section) {
    exists i :: 0 <= i < |es| && PartOf(es[i], s)
  }

  lemma PartOfSomeLast(es: seq<FabricEntry>, s: Section)
    requires es != []
    ensures PartOfSome(es, s) <==> PartOfSome(es[..|es| - 1], s) || PartOf(es[|es| - 1], s)
  {
    var init := es[..|es| - 1];
    if i :| 0 <= i < |es| && PartOf(es[i], s) {
      assert i < |init| ==> PartOf(init[i], s);
    }
    if i :| 0 <= i < |init| && PartOf(init[i], s) {
      assert PartOf(es[i], s);
    }
  }

  lemma {:induction false} AllSectionsMember(es: seq<FabricEntry>, s: Section)
    requires forall i :: 0 <= i < |es| ==> EntryWellFormed(es[i])
    ensures s in AllSections(es) <==> PartOfSome(es, s)
  {
    if es != [] {
      AllSectionsMember(es[..|es| - 1], s);
      EntrySectionsMember(es[|es| - 1], s);
      PartOfSomeLast(es, s);
    }
  }

  lemma AllSectionsStep(es: seq<FabricEntry>, i: nat)
    requires i < |es|
    ensures AllSections(es[..i + 1]) == AllSections(es[..i]) + EntrySections(es[i])
  {
    assert es[..i + 1][..i] == es[..i];
  }

  /** A part of a later entry has an id that no part of an earlier entry has. */
  lemma EntriesApart(es: seq<FabricEntry>, i: nat, s: Section, t: Section)
    requires Ordered(es) && i < |es| && s in AllSections(es[..i]) && PartOf(es[i], t)
    ensures SectionId(s) != SectionId(t)
  {
    AllSectionsMember(es[..i], s);
    var j :| 0 <= j < i && PartOf(es[..i][j], s);
    assert es[..i][j] == es[j];
    PartFormatted(es[j], s);
    PartFormatted(es[i], t);
    if SectionId(s) == SectionId(t) {
      IdsIdentify(s, t);
    }
  }

  /** Within an entry ids are distinct, too. */
  lemma PartsApart(e: FabricEntry, a: nat, b: nat)
    requires EntryWellFormed(e) && EntryFormatted(e) && a < b < |EntrySections(e)|
    ensures SectionId(EntrySections(e)[a]) != SectionId(EntrySections(e)[b])
  {
    var ids, ss := NodeIds(e.nodes), EntrySections(e);
    EntrySectionsMember(e, ss[a]);
    EntrySectionsMember(e, ss[b]);
    PartFormatted(e, ss[a]);
    PartFormatted(e, ss[b]);
    NodeIdsDistinct(e.nodes);
    assert ids[b - 1] in ids;
    assert a > 0 ==> ids[a - 1] in ids;
    if SectionId(ss[a]) == SectionId(ss[b]) {
      IdsIdentify(ss[a], ss[b]);
    }
  }

  /** The next section to be written is not filed yet. */
  lemma NextIsNew(data: SectionConfigData, es: seq<FabricEntry>, i: nat, k: nat)
    requires Ordered(es) && i < |es| && k < |EntrySections(es[i])|
    requires Sections(data) == AllSections(es[..i]) + EntrySections(es[i])[..k]
    ensures var s := EntrySections(es[i])[k];
            SectionFormatted(s) && forall t :: t in Sections(data) ==> SectionId(t) != SectionId(s)
  {
    var ss := EntrySections(es[i]);
    EntrySectionsMember(es[i], ss[k]);
    PartFormatted(es[i], ss[k]);
    forall t | t in Sections(data) ensures SectionId(t) != SectionId(ss[k]) {
      if t in AllSections(es[..i]) {
        EntriesApart(es, i, t, ss[k]);
      } else {
        var a :| 0 <= a < k && ss[a] == t;
        PartsApart(es[i], a, k);
      }
    }
  }

  /** Files each fabric, followed by its nodes, without overwriting any section. */
  method IntoSectionConfig(c: Fabrics) returns (data: SectionConfigData)
    requires WellFormed(c)
    ensures Filed(data) && Sections(data) == AllSections(Values(c))
  {
    var es := Values(c);
    ValuesOrdered(c);
    data := [];
    for i := 0 to |es|
      invariant Filed(data) && Sections(data) == AllSections(es[..i])
    {
      AllSectionsStep(es, i);
      data := WriteEntry(data, es, i);
    }
    assert es[..|es|] == es;
  }

  method WriteEntry(data: SectionConfigData, es: seq<FabricEntry>, i: nat) returns (data': SectionConfigData)
    requires Ordered(es) && i < |es| && Filed(data) && Sections(data) == AllSections(es[..i])
    ensures Filed(data') && Sections(data') == AllSections(es[..i]) + EntrySections(es[i])
  {
    var f := es[i].fabric;
    WriteNext(data, es, i, 0);
    data' := Insert(data, f.id, FabricSection(f));
    data' := WriteNodes(data', es, i, EntryNodes(es[i]));
  }

  method WriteNodes(data: SectionConfigData, es: seq<FabricEntry>, i: nat, nodes: seq<Node>)
    returns (data': SectionConfigData)
    requires Ordered(es) && i < |es| && nodes == EntryNodes(es[i])
    requires Filed(data) && Sections(data) == AllSections(es[..i]) + EntrySections(es[i])[..1]
    ensures Filed(data') && Sections(data') == AllSections(es[..i]) + EntrySections(es[i])
  {
    data' := data;
    for k := 0 to |nodes|
      invariant Filed(data') && Sections(data') == AllSections(es[..i]) + EntrySections(es[i])[..k + 1]
    {
      WriteNext(data', es, i, k + 1);
      data' := Insert(data', PrintNodeSectionId(nodes[k].id), NodeSection(nodes[k]));
    }
    assert EntrySections(es[i])[..|nodes| + 1] == EntrySections(es[i]);
  }

  lemma WriteNext(data: SectionConfigData, es: seq<FabricEntry>, i: nat, k: nat)
    requires Ordered(es) && i < |es| && k < |EntrySections(es[i])| && Filed(data)
    requires Sections(data) == AllSections(es[..i]) + EntrySections(es[i])[..k]
    ensures var s := EntrySections(es[i])[k];
            var data' := Insert(data, SectionId(s), s);
            Filed(data') && Sections(data') == AllSections(es[..i]) + EntrySections(es[i])[..k + 1]
  {
    var ss := EntrySections(es[i]);
    NextIsNew(data, es, i, k);
    FiledInsert(data, ss[k]);
    TakeNext(AllSections(es[..i]), ss, k);
  }

  /** Round trip: the sections that a configuration is written to, read back in any order,
      assemble to the configuration again. */
  lemma SectionsRoundTrip(c: Fabrics, data: SectionConfigData, sections: seq<Section>)
    requires WellFormed(c) && Filed(data) && Sections(data) == AllSections(Values(c))
    requires multiset(sections) == multiset(Sections(data))
    ensures Assemble(sections) == Ok(c)
  {
    var written := Sections(data);
    ValuesOrdered(c);
    forall s ensures s in sections <==> SectionOf(c, s) {
      assert s in sections <==> s in multiset(sections);
      assert s in written <==> s in multiset(written);
      WrittenSections(c, s);
    }
    FiledNoDup(data);
    PermutationNoDup(written, sections);
    SectionsAssemble(c, sections);
  }

  lemma WrittenSections(c: Fabrics, s: Section)
    requires WellFormed(c)
    ensures s in AllSections(Values(c)) <==> SectionOf(c, s)
  {
    var es := Values(c);
    ValuesOrdered(c);
    AllSectionsMember(es, s);
    if SectionOf(c, s) {
      var id := if s.FabricSection? then s.fabric.id else s.node.id.fabricId;
      assert c[id] in es;
      var i :| 0 <= i < |es| && es[i] == c[id];
      assert PartOf(es[i], s);
    }
    if PartOfSome(es, s) {
      var i :| 0 <= i < |es| && PartOf(es[i], s);
      assert es[i] in es;
    }
  }

  lemma FiledNoDup(data: SectionConfigData)
    requires Filed(data)
    ensures NoDup(Sections(data))
  {
    forall i, j | 0 <= i < j < |data| ensures Sections(data)[i] != Sections(data)[j] {
      assert Ids(data)[i] != Ids(data)[j];
    }
  }
}
