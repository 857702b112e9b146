/** Identifiers of fabrics, nodes and interfaces, and the ids they get as sections
    of a configuration file. */
module Identifiers {
  import opened Wrappers
  import opened Text

  predicate IsAlnum(c: char) { 'a' <= c <= 'z' || 'A' <= c <= 'Z' || '0' <= c <= '9' }

  /** One to eight characters, starting with an alphanumeric one; the eighth is alphanumeric again. */
  predicate IsFabricId(s: string) {
    1 <= |s| <= 8 && IsAlnum(s[0]) && (|s| == 8 ==> IsAlnum(s[7])) &&
    forall c :: c in s ==> IsAlnum(c) || c == '-'
  }

  predicate IsNodeId(s: string) {
    1 <= |s| <= 63 && IsAlnum(s[0]) && (|s| == 63 ==> IsAlnum(s[62])) &&
    forall c :: c in s ==> IsAlnum(c) || c == '-'
  }

  /** The names of route maps may contain underscores. */
  predicate IsRouteMapId(s: string) {
    1 <= |s| <= 32 && IsAlnum(s[0]) && (|s| == 32 ==> IsAlnum(s[31])) &&
    forall c :: c in s ==> IsAlnum(c) || c == '-' || c == '_'
  }

  predicate IsInterfaceName(s: string) {
    1 <= |s| <= 15 && forall c :: c in s ==> c as int < 128
  }

  // Strings in these roles have the formats above; well-formed configurations say so.
  type FabricId = string
  type NodeId = string
  type RouteMapId = string
  type InterfaceName = string

  // ----- Node section ids: <fabric>_<node> -----

  datatype NodeSectionId = NodeSectionId(fabricId: FabricId, nodeId: NodeId)

  predicate IsNodeSectionId(id: NodeSectionId) { IsFabricId(id.fabricId) && IsNodeId(id.nodeId) }

  function PrintNodeSectionId(id: NodeSectionId): string {
    id.fabricId + ['_'] + id.nodeId
  }

  function ParseNodeSectionId(s: string): Option<NodeSectionId> {
    match SplitOnce(s, '_')
    case None => None
    case Some((fabric, node)) =>
      if IsFabricId(fabric) && IsNodeId(node) then Some(NodeSectionId(fabric, node)) else None
  }

  lemma NodeSectionIdRoundTrip(id: NodeSectionId)
    requires IsNodeSectionId(id)
    ensures ParseNodeSectionId(PrintNodeSectionId(id)) == Some(id)
  {
    SplitOnceConcat(id.fabricId, '_', id.nodeId);
  }

  /** Parsing accepts exactly the ids of a fabric and of a node with an underscore between them. */
  lemma NodeSectionIdParsed(s: string, id: NodeSectionId)
    ensures ParseNodeSectionId(s) == Some(id) <==>
            IsFabricId(id.fabricId) && IsNodeId(id.nodeId) && s == id.fabricId + "_" + id.nodeId
  {
    SplitOnceParts(s, '_');
    if IsNodeSectionId(id) && s == id.fabricId + "_" + id.nodeId {
      NodeSectionIdRoundTrip(id);
    }
  }

  /** Different sections get different ids: a node's id contains an underscore, a
      fabric's does not, and the parts of a node's id can be recovered. */
  lemma SectionIdsDistinct(f: FabricId, id: NodeSectionId, id': NodeSectionId)
    requires IsFabricId(f) && IsNodeSectionId(id) && IsNodeSectionId(id')
    ensures PrintNodeSectionId(id) != f
    ensures PrintNodeSectionId(id) == PrintNodeSectionId(id') ==> id == id'
  {
    assert PrintNodeSectionId(id)[|id.fabricId|] == '_';
    assert '_' !in f;
    NodeSectionIdRoundTrip(id);
    NodeSectionIdRoundTrip(id');
  }

  // ----- Route-map entry ids: <name>_<order> -----

  type U16 = n: nat | n < 0x1_0000
  datatype RouteMapEntryId = RouteMapEntryId(routeMapId: RouteMapId, order: U16)

  function PrintRouteMapEntryId(id: RouteMapEntryId): string {
    id.routeMapId + ['_'] + PrintNat(id.order)
  }

  function ParseRouteMapEntryId(s: string): Option<RouteMapEntryId> {
    match RSplitOnce(s, '_')
    case None => None
    case Some((name, order)) =>
      var n := ParseUnsigned(order, 0xFFFF);
      if IsRouteMapId(name) && n.Some? then Some(RouteMapEntryId(name, n.value)) else None
  }

  /** The id is split at its last underscore, so names with underscores survive. */
  lemma RouteMapEntryIdRoundTrip(id: RouteMapEntryId)
    requires IsRouteMapId(id.routeMapId)
    ensures ParseRouteMapEntryId(PrintRouteMapEntryId(id)) == Some(id)
  {
    RSplitOnceConcat(id.routeMapId, '_', PrintNat(id.order));
    ParsePrintNat(id.order, 0xFFFF);
  }

  /** Parsing accepts exactly a name and a number of 16 bits with an underscore between them; the
      number may have a plus sign and leading zeros. */
  lemma RouteMapEntryIdParsed(s: string, id: RouteMapEntryId)
    ensures ParseRouteMapEntryId(s) == Some(id) <==>
            IsRouteMapId(id.routeMapId) &&
            exists order :: ParseUnsigned(order, 0xFFFF) == Some(id.order) && s == id.routeMapId + "_" + order
  {
    RSplitOnceParts(s, '_');
    if ParseRouteMapEntryId(s) == Some(id) {
      var order := RSplitOnce(s, '_').value.1;
      assert s == id.routeMapId + "_" + order;
    }
    if order :| ParseUnsigned(order, 0xFFFF) == Some(id.order) && s == id.routeMapId + "_" + order {
      NumbersHaveNoUnderscore(order, 0xFFFF);
      RSplitOnceConcat(id.routeMapId, '_', order);
    }
  }

  lemma NumbersHaveNoUnderscore(s: string, max: nat)
    requires ParseUnsigned(s, max).Some?
    ensures '_' !in s
  {
    forall i | 0 <= i < |s| ensures s[i] != '_' {
      if s[0] != '+' {
        assert IsDecimal(WithoutPlus(s)[i]);
      } else if i > 0 {
        assert IsDecimal(WithoutPlus(s)[i - 1]);
      }
    }
  }
}
