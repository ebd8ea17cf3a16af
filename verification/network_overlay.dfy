/**
 * The overlay join: colours by transit type, the id index over the nodes,
 * and the filtering of edges into line segments and of nodes into markers.
 */
module NetworkOverlay {
  import opened Wrappers
  import opened GraphData
  import opened Helpers

  const UBahnColor := "#003688"
  const SBahnColor := "#006F35"
  const BusColor := "#FF4900"
  const TramColor := "#D82020"
  /** Grey: unknown or missing types, and links between different types. */
  const DefaultColor := "#7C7C7C"

  /** The four transit types that have a colour of their own. */
  predicate IsKnownType(t: Field) {
    t == Some(Text("u-bahn")) || t == Some(Text("s-bahn")) ||
    t == Some(Text("bus")) || t == Some(Text("strassenbahn"))
  }

  /** Total colour lookup, compared by strict equality, grey by default. */
  function ColorByType(t: Field): (r: string)
    ensures r == DefaultColor <==> !IsKnownType(t)
    ensures |r| == 7 && r[0] == '#'
  {
    if t == Some(Text("u-bahn")) then UBahnColor
    else if t == Some(Text("s-bahn")) then SBahnColor
    else if t == Some(Text("bus")) then BusColor
    else if t == Some(Text("strassenbahn")) then TramColor
    else DefaultColor
  }

  /** The colour of each known type. */
  lemma ColorTable()
    ensures ColorByType(Some(Text("u-bahn"))) == "#003688"
    ensures ColorByType(Some(Text("s-bahn"))) == "#006F35"
    ensures ColorByType(Some(Text("bus"))) == "#FF4900"
    ensures ColorByType(Some(Text("strassenbahn"))) == "#D82020"
    ensures ColorByType(None) == "#7C7C7C"
  {
  }

  /** No two values share a colour unless they are the same known type. */
  lemma KnownColorsDistinct(a: Field, b: Field)
    requires IsKnownType(a)
    ensures ColorByType(a) == ColorByType(b) ==> a == b
  {
  }

  /**
   * A link takes its endpoints' colour when both have the same type, and
   * grey when they differ.
   */
  function LinkColor(source: Node, target: Node): (r: string)
    ensures r != DefaultColor <==> source.nodeType == target.nodeType && IsKnownType(source.nodeType)
    ensures r != DefaultColor ==> r == ColorByType(source.nodeType) && r == ColorByType(target.nodeType)
  {
    if source.nodeType == target.nodeType then ColorByType(source.nodeType) else DefaultColor
  }

  lemma LinkColorSymmetric(a: Node, b: Node)
    ensures LinkColor(a, b) == LinkColor(b, a)
  {
  }

  // ---------------------------------------------------------------------
  // The id index

  /** The position of the last node carrying `id`, or -1 when none does. */
  function LastIndexOf(nodes: seq<Node>, id: string): (i: int)
    ensures -1 <= i < |nodes|
    ensures 0 <= i ==> nodes[i].id == id
    ensures forall j :: i < j < |nodes| ==> nodes[j].id != id
  {
    if |nodes| == 0 then -1
    else if nodes[|nodes| - 1].id == id then |nodes| - 1
    else LastIndexOf(nodes[..|nodes| - 1], id)
  }

  /**
   * `index` holds exactly the ids of `nodes`, each bound to the last node
   * with that id.
   */
  ghost predicate IndexesLastById(nodes: seq<Node>, index: map<string, Node>) {
    && (forall id :: id in index <==> LastIndexOf(nodes, id) >= 0)
    && (forall id | id in index :: LastIndexOf(nodes, id) >= 0 && index[id] == nodes[LastIndexOf(nodes, id)])
  }

  /** Builds the id index by overwriting, one node after the other. */
  method BuildNodeMap(nodes: seq<Node>) returns (index: map<string, Node>)
    ensures IndexesLastById(nodes, index)
  {
    index := map[];
    for i := 0 to |nodes|
      invariant IndexesLastById(nodes[..i], index)
    {
      assert nodes[..i + 1][..i] == nodes[..i];
      index := index[nodes[i].id := nodes[i]];
    }
    assert nodes[..|nodes|] == nodes;
  }

  /** The index property determines the index. */
  lemma IndexUnique(nodes: seq<Node>, a: map<string, Node>, b: map<string, Node>)
    requires IndexesLastById(nodes, a) && IndexesLastById(nodes, b)
    ensures a == b
  {
  }

  /** `nodeMap[id]`: the indexed node, or `undefined`. */
  function Lookup(index: map<string, Node>, id: string): Option<Node> {
    if id in index then Some(index[id]) else None
  }

  // ---------------------------------------------------------------------
  // Edges into segments

  const LinkWeight: nat := 2
  const LinkOpacity: real := 0.6

  /** A drawn line; `key` is the position of its edge in `links`. */
  datatype Polyline = Polyline(key: nat, sourcePos: LatLng, targetPos: LatLng, color: string, weight: nat, opacity: real)

  /** The segment drawn for one edge, or `None` when the edge is skipped. */
  function EdgeSegment(index: map<string, Node>, edge: Edge, key: nat): (r: Option<Polyline>)
    ensures r.Some? <==>
      && edge.source in index && edge.target in index
      && ParseCoordinates(Some(index[edge.source])).Some?
      && ParseCoordinates(Some(index[edge.target])).Some?
    ensures r.Some? ==>
      && r.value.key == key
      && r.value.sourcePos == ParseCoordinates(Some(index[edge.source])).value
      && r.value.targetPos == ParseCoordinates(Some(index[edge.target])).value
      && r.value.color == LinkColor(index[edge.source], index[edge.target])
      && r.value.weight == LinkWeight && r.value.opacity == LinkOpacity
  {
    var sourceNode := Lookup(index, edge.source);
    var targetNode := Lookup(index, edge.target);
    var sourceCoords := ParseCoordinates(sourceNode);
    var targetCoords := ParseCoordinates(targetNode);
    if sourceCoords.None? || targetCoords.None? then None
    else Some(Polyline(key, sourceCoords.value, targetCoords.value,
                       LinkColor(sourceNode.value, targetNode.value), LinkWeight, LinkOpacity))
  }

  /**
   * The segments of all links, skipped edges left out: at most one per
   * link, each the segment of the link at its key, in link order.
   */
  function Segments(index: map<string, Node>, links: seq<Edge>): (r: seq<Polyline>)
    ensures |r| <= |links|
    ensures forall p :: 0 <= p < |r| ==>
      r[p].key < |links| && EdgeSegment(index, links[r[p].key], r[p].key) == Some(r[p])
    ensures forall p, q :: 0 <= p < q < |r| ==> r[p].key < r[q].key
  {
    if |links| == 0 then []
    else
      var n := |links| - 1;
      var before := Segments(index, links[..n]);
      assert forall k :: 0 <= k < n ==> links[..n][k] == links[k];
      match EdgeSegment(index, links[n], n)
      case None => before
      case Some(s) =>
        var r := before + [s];
        assert forall p :: 0 <= p < |before| ==> r[p] == before[p];
        assert r[|before|].key == n;
        r
  }

  /** No segment is lost: every link that yields one has it in the output. */
  lemma {:induction false} SegmentsComplete(index: map<string, Node>, links: seq<Edge>, k: nat)
    requires k < |links| && EdgeSegment(index, links[k], k).Some?
    ensures exists p :: 0 <= p < |Segments(index, links)| && Segments(index, links)[p].key == k
  {
    var n := |links| - 1;
    var before := Segments(index, links[..n]);
    if k == n {
      assert Segments(index, links)[|before|].key == k;
    } else {
      assert links[..n][k] == links[k];
      SegmentsComplete(index, links[..n], k);
      var p :| 0 <= p < |before| && before[p].key == k;
      assert Segments(index, links)[p] == before[p];
    }
  }

  /** An edge naming an id that no node carries, at either end, is always skipped. */
  lemma DanglingEdgeSkipped(nodes: seq<Node>, index: map<string, Node>, edge: Edge, key: nat)
    requires IndexesLastById(nodes, index)
    requires || (forall i :: 0 <= i < |nodes| ==> nodes[i].id != edge.source)
             || (forall i :: 0 <= i < |nodes| ==> nodes[i].id != edge.target)
    ensures EdgeSegment(index, edge, key) == None
  {
  }

  // ---------------------------------------------------------------------
  // Nodes into markers

  /** A drawn station; `key` is the position of its node in `nodes`. */
  datatype Marker = Marker(key: nat, position: LatLng, color: string, popup: Value)

  /** `node_label || "Node " + id`: the label when truthy, else a fallback. */
  function PopupText(node: Node): (r: Value)
    ensures Truthy(Some(r))
    ensures Truthy(node.nodeLabel) ==> r == node.nodeLabel.value
    ensures !Truthy(node.nodeLabel) ==> r == Text("Node " + node.id)
  {
    if Truthy(node.nodeLabel) then node.nodeLabel.value else Text("Node " + node.id)
  }

  /** The marker drawn for one node, or `None` when it does not parse. */
  function MarkerOf(node: Node, key: nat): (r: Option<Marker>)
    ensures r.Some? <==> ParseCoordinates(Some(node)).Some?
    ensures r.Some? ==>
      && r.value.key == key
      && r.value.position == ParseCoordinates(Some(node)).value
      && r.value.color == ColorByType(node.nodeType)
      && r.value.popup == PopupText(node)
  {
    var coords := ParseCoordinates(Some(node));
    if coords.None? then None
    else Some(Marker(key, coords.value, ColorByType(node.nodeType), PopupText(node)))
  }

  /**
   * The markers of all nodes that parse: at most one per node, each the
   * marker of the node at its key, in node order.
   */
  function Markers(nodes: seq<Node>): (r: seq<Marker>)
    ensures |r| <= |nodes|
    ensures forall p :: 0 <= p < |r| ==>
      r[p].key < |nodes| && MarkerOf(nodes[r[p].key], r[p].key) == Some(r[p])
    ensures forall p, q :: 0 <= p < q < |r| ==> r[p].key < r[q].key
  {
    if |nodes| == 0 then []
    else
      var n := |nodes| - 1;
      var before := Markers(nodes[..n]);
      assert forall k :: 0 <= k < n ==> nodes[..n][k] == nodes[k];
      match MarkerOf(nodes[n], n)
      case None => before
      case Some(m) =>
        var r := before + [m];
        assert forall p :: 0 <= p < |before| ==> r[p] == before[p];
        assert r[|before|].key == n;
        r
  }

  /** No marker is lost: every node that parses has its marker in the output. */
  lemma {:induction false} MarkersComplete(nodes: seq<Node>, k: nat)
    requires k < |nodes| && MarkerOf(nodes[k], k).Some?
    ensures exists p :: 0 <= p < |Markers(nodes)| && Markers(nodes)[p].key == k
  {
    var n := |nodes| - 1;
    var before := Markers(nodes[..n]);
    if k == n {
      assert Markers(nodes)[|before|].key == k;
    } else {
      assert nodes[..n][k] == nodes[k];
      MarkersComplete(nodes[..n], k);
      var p :| 0 <= p < |before| && before[p].key == k;
      assert Markers(nodes)[p] == before[p];
    }
  }

  // ---------------------------------------------------------------------
  // The whole overlay

  /** Segments are drawn first, markers on top of them. */
  datatype Drawing = Drawing(segments: seq<Polyline>, markers: seq<Marker>)

  predicate HasMarkerAt(markers: seq<Marker>, pos: LatLng) {
    exists q :: 0 <= q < |markers| && markers[q].position == pos
  }

  /** An endpoint that resolves and parses is also drawn as a marker. */
  lemma EndpointHasMarker(nodes: seq<Node>, index: map<string, Node>, id: string)
    requires IndexesLastById(nodes, index)
    requires id in index && ParseCoordinates(Some(index[id])).Some?
    ensures HasMarkerAt(Markers(nodes), ParseCoordinates(Some(index[id])).value)
  {
    var i := LastIndexOf(nodes, id);
    assert index[id] == nodes[i];
    assert MarkerOf(nodes[i], i).Some?;
    MarkersComplete(nodes, i);
    var marks := Markers(nodes);
    var q :| 0 <= q < |marks| && marks[q].key == i;
    assert marks[q] == MarkerOf(nodes[i], i).value;
  }

  /** Both ends of every segment coincide with a drawn marker. */
  lemma SegmentEndsHaveMarkers(nodes: seq<Node>, index: map<string, Node>, links: seq<Edge>)
    requires IndexesLastById(nodes, index)
    ensures forall p :: 0 <= p < |Segments(index, links)| ==>
      && HasMarkerAt(Markers(nodes), Segments(index, links)[p].sourcePos)
      && HasMarkerAt(Markers(nodes), Segments(index, links)[p].targetPos)
  {
    var segs := Segments(index, links);
    forall p | 0 <= p < |segs|
      ensures HasMarkerAt(Markers(nodes), segs[p].sourcePos) && HasMarkerAt(Markers(nodes), segs[p].targetPos)
    {
      var k := segs[p].key;
      assert EdgeSegment(index, links[k], k) == Some(segs[p]);
      EndpointHasMarker(nodes, index, links[k].source);
      EndpointHasMarker(nodes, index, links[k].target);
    }
  }

  /**
   * The component: build the id index, then map the links to segments and
   * the nodes to markers.
   */
  method Render(graph: Graph) returns (d: Drawing)
    ensures exists index :: IndexesLastById(graph.nodes, index) && d.segments == Segments(index, graph.links)
    ensures forall index :: IndexesLastById(graph.nodes, index) ==> d.segments == Segments(index, graph.links)
    ensures d.markers == Markers(graph.nodes)
    ensures |d.segments| <= |graph.links| && |d.markers| <= |graph.nodes|
    ensures forall p :: 0 <= p < |d.segments| ==>
      HasMarkerAt(d.markers, d.segments[p].sourcePos) && HasMarkerAt(d.markers, d.segments[p].targetPos)
  {
    var nodeMap := BuildNodeMap(graph.nodes);
    d := Drawing(Segments(nodeMap, graph.links), Markers(graph.nodes));
    forall index | IndexesLastById(graph.nodes, index) ensures d.segments == Segments(index, graph.links) {
      IndexUnique(graph.nodes, nodeMap, index);
    }
    SegmentEndsHaveMarkers(graph.nodes, nodeMap, graph.links);
  }
}
