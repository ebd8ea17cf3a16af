/**
 * The records the overlay receives: the `nodes` and `links` arrays of one
 * fetched `graphData` pair, with their fields as JSON values.
 */
module GraphData {
  import opened Wrappers

  /**
   * A JSON scalar as it can stand in a record field. The fields the overlay
   * reads never hold arrays or objects, and JSON has no NaN or infinity.
   */
  datatype Value = Null | Bool(b: bool) | Number(n: real) | Text(s: string)

  /** A field that may be missing from a record: `None` is `undefined`. */
  type Field = Option<Value>

  /**
   * A station record. `nodeType` is the record's `type` field and
   * `nodeLabel` its `node_label` field; ids are strings, as the backend
   * stores them.
   */
  datatype Node = Node(id: string, x: Field, y: Field, nodeType: Field, nodeLabel: Field)

  /** A line record, referring to two node ids. */
  datatype Edge = Edge(source: string, target: string)

  /** The `[lat, lng]` pair handed to the map widget. */
  datatype LatLng = LatLng(lat: Value, lng: Value)

  /** One fetched pair: the node list and the edge list. */
  datatype Graph = Graph(nodes: seq<Node>, links: seq<Edge>)

  /** JavaScript truthiness of a field value, as `||` tests it. */
  predicate Truthy(v: Field) {
    match v
    case None => false
    case Some(Null) => false
    case Some(Bool(b)) => b
    case Some(Number(n)) => n != 0.0
    case Some(Text(s)) => s != ""
  }
}
