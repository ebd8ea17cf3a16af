/** Coordinate extraction from a node record that may be absent. */
module Helpers {
  import opened Wrappers
  import opened GraphData

  /**
   * A point, latitude first, when the node exists and both of its
   * coordinate fields are defined; `None` (the source's `null`) otherwise.
   * Only definedness is tested: the values themselves are passed on as they
   * are, whatever they hold.
   */
  function ParseCoordinates(node: Option<Node>): (r: Option<LatLng>)
    ensures r.Some? <==> node.Some? && node.value.x.Some? && node.value.y.Some?
    ensures r.Some? ==> r.value.lat == node.value.y.value && r.value.lng == node.value.x.value
  {
    if node.Some? && node.value.x.Some? && node.value.y.Some? then
      Some(LatLng(node.value.y.value, node.value.x.value))
    else
      None
  }

  /** Whether a node parses depends only on which coordinate fields are defined. */
  lemma ParseDependsOnlyOnDefinedness(a: Node, b: Node)
    requires a.x.Some? == b.x.Some? && a.y.Some? == b.y.Some?
    ensures ParseCoordinates(Some(a)).Some? == ParseCoordinates(Some(b)).Some?
  {
  }

  /** A missing node, or one lacking either coordinate, gives no point. */
  lemma ParseRejectsMissing(node: Option<Node>)
    requires node.None? || node.value.x.None? || node.value.y.None?
    ensures ParseCoordinates(node) == None
  {
  }

  /**
   * Defined but non-numeric coordinates are not rejected: a `null` longitude
   * and a `"NaN"` latitude still make a point.
   */
  lemma NonNumericCoordinatesParse(id: string)
    ensures ParseCoordinates(Some(Node(id, Some(Null), Some(Text("NaN")), None, None)))
         == Some(LatLng(Text("NaN"), Null))
  {
  }
}
