/** Worked examples of the overlay join on small graphs. */
module Scenarios {
  import opened Wrappers
  import opened GraphData
  import opened Helpers
  import opened NetworkOverlay

  function Station(id: string, lng: real, lat: real, kind: Field): Node {
    Node(id, Some(Number(lng)), Some(Number(lat)), kind, None)
  }

  /** Two bus stops joined by one edge: two markers and one bus-coloured segment. */
  lemma BusLine(index: map<string, Node>)
    requires IndexesLastById([Station("1", 13.4, 52.5, Some(Text("bus"))),
                              Station("2", 13.41, 52.51, Some(Text("bus")))], index)
    ensures var nodes := [Station("1", 13.4, 52.5, Some(Text("bus"))),
                          Station("2", 13.41, 52.51, Some(Text("bus")))];
      && |Markers(nodes)| == 2
      && Markers(nodes)[0].popup == Text("Node 1")
      && |Segments(index, [Edge("1", "2")])| == 1
      && Segments(index, [Edge("1", "2")])[0].color == BusColor
      && Segments(index, [Edge("1", "2")])[0].sourcePos == LatLng(Number(52.5), Number(13.4))
  {
  }

  /** An edge to an id no node carries draws nothing; the existing node still gets its marker. */
  lemma DanglingEdge(index: map<string, Node>)
    requires IndexesLastById([Station("1", 13.4, 52.5, None)], index)
    ensures |Markers([Station("1", 13.4, 52.5, None)])| == 1
    ensures Segments(index, [Edge("1", "2")]) == []
  {
  }

  /** With two nodes sharing an id, edges attach to the later one, yet both get a marker. */
  lemma DuplicateId(index: map<string, Node>)
    requires IndexesLastById([Station("7", 1.0, 2.0, None), Station("7", 3.0, 4.0, None)], index)
    ensures index["7"] == Station("7", 3.0, 4.0, None)
    ensures |Markers([Station("7", 1.0, 2.0, None), Station("7", 3.0, 4.0, None)])| == 2
  {
  }

  /** A node lacking a latitude gets no marker, and an edge touching it no segment. */
  lemma MissingLatitude(index: map<string, Node>)
    requires IndexesLastById([Node("1", Some(Number(13.4)), None, None, None),
                              Station("2", 13.41, 52.51, None)], index)
    ensures |Markers([Node("1", Some(Number(13.4)), None, None, None),
                      Station("2", 13.41, 52.51, None)])| == 1
    ensures Segments(index, [Edge("1", "2")]) == []
  {
  }
}
