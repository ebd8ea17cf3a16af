# Berlin transit network overlay: a Dafny model

The map front end draws a historical Berlin transit network from one
fetched pair of arrays, `nodes` (stations) and `links` (lines between
station ids). This project models the part of it that turns that pair into
drawable primitives, and proves what it guarantees:

- **Coordinate extraction** (`parseCoordinates`): a node gives the point
  `[y, x]` (latitude first) when it exists and both fields are defined, and
  `null` otherwise.
- **Type colours** (`getColorByType`): a total lookup from the node's `type`
  to one of four line colours, with grey `#7C7C7C` for everything else. The
  overlay and the legend each carry their own copy.
- **Link colour** (`getLinkColor`): the endpoints' colour when both endpoints
  have the same type, grey when the types differ.
- **Id index** (`nodeMap`): built by overwriting in a loop, so the last node
  with a given id wins.
- **Segments and markers**: an edge is drawn only when both endpoint ids
  resolve through the index and both nodes parse. A node is drawn only when
  it parses. A marker's popup is `node_label` when that is truthy and
  `"Node " + id` otherwise.
- **Legend**: one label per category `u-bahn, s-bahn, bus, strassenbahn`, in
  that order, each a colour swatch plus the name, joined by `<br>`.

Files: `wrappers.dfy` (Option), `graph_data.dfy` (JSON values, node, edge
and point records), `helpers.dfy` (coordinate extraction),
`network_overlay.dfy` (colours, index, segments, markers, the component),
`legend.dfy` (the legend), `scenarios.dfy` (small worked graphs).

Record fields are JSON values (`null`, booleans, numbers, strings), and a
missing field is `None`, the model of `undefined`. This matters in three
places. `parseCoordinates` tests only `!== undefined`, so `null` passes.
The popup uses `||`, which also skips `""`, `0`, `false` and `null`. The
type comparison is strict equality, so two missing types count as equal.
Ids are strings, as the backend's `id`, `source` and `target` columns are.

Three facts about the code shape the model:

- A coordinate is tested only for `!== undefined`. A `null` or a string
  such as `"NaN"` still yields a point (`Helpers.NonNumericCoordinatesParse`).
- Skipped nodes and edges are only logged; nothing counts them. The number
  of skipped edges is `|links| - |segments|`.
- There is no generation counter and no guard against stale responses.

Each segment and marker carries its React `key`, which is the position of
its edge or node in the input. This is how the model states that the output
keeps input order.

## Model

| member | source | states |
|---|---|---|
| `Helpers.ParseCoordinates` | new-frontend/my-app/src/utils/helpers.js:6-11 | a point exists iff the node exists and both `x` and `y` are defined; the point is `(y, x)`, latitude first, with the values passed on unchanged |
| `Helpers.ParseRejectsMissing` | new-frontend/my-app/src/utils/helpers.js:7-10 | a missing node, an undefined `x` (whatever `y` is) or an undefined `y` (whatever `x` is) gives `null` |
| `Helpers.ParseDependsOnlyOnDefinedness` | new-frontend/my-app/src/utils/helpers.js:7 | whether a node parses depends only on which coordinate fields are defined, never on their values |
| `Helpers.NonNumericCoordinatesParse` | new-frontend/my-app/src/utils/helpers.js:7-8 | a `null` longitude and a `"NaN"` latitude still make a point: no numeric check |
| `NetworkOverlay.ColorByType` | new-frontend/my-app/src/components/NetworkOverlay.js:15-28 | total; the result is grey exactly when the value is not one of the four known types; every result is a 7-character `#` colour |
| `NetworkOverlay.ColorTable` | new-frontend/my-app/src/components/NetworkOverlay.js:16-27 | `u-bahn`, `s-bahn`, `bus` and `strassenbahn` map to `#003688`, `#006F35`, `#FF4900` and `#D82020`; undefined maps to `#7C7C7C` |
| `NetworkOverlay.KnownColorsDistinct` | new-frontend/my-app/src/components/NetworkOverlay.js:17-26 | a known type shares its colour with no other value |
| `NetworkOverlay.LinkColor` | new-frontend/my-app/src/components/NetworkOverlay.js:7-13 | the link is not grey iff both endpoints have the same known type, and then it has that type's colour; differing types give grey |
| `NetworkOverlay.LinkColorSymmetric` | new-frontend/my-app/src/components/NetworkOverlay.js:9-12 | swapping source and target does not change the colour |
| `NetworkOverlay.BuildNodeMap` | new-frontend/my-app/src/components/NetworkOverlay.js:33-39 | the loop yields an index holding exactly the ids present in `nodes`, each bound to the last node with that id |
| `NetworkOverlay.IndexUnique` | new-frontend/my-app/src/components/NetworkOverlay.js:33-39 | that last-wins property determines the index completely |
| `NetworkOverlay.EdgeSegment` | new-frontend/my-app/src/components/NetworkOverlay.js:44-56 | an edge yields a segment iff both ids are in the index and both nodes parse; the segment runs from the source's point to the target's, coloured by `LinkColor` of the two nodes, with weight 2 and opacity 0.6 |
| `NetworkOverlay.Segments` | new-frontend/my-app/src/components/NetworkOverlay.js:43-58 | at most one segment per link, each the segment of the link at its key, keys strictly increasing, so segments keep link order |
| `NetworkOverlay.SegmentsComplete` | new-frontend/my-app/src/components/NetworkOverlay.js:43-58 | every link that yields a segment has that segment in the output |
| `NetworkOverlay.DanglingEdgeSkipped` | new-frontend/my-app/src/components/NetworkOverlay.js:44-53 | an edge whose source id or target id no node carries is skipped |
| `NetworkOverlay.PopupText` | new-frontend/my-app/src/components/NetworkOverlay.js:77-79 | the popup is `node_label` when truthy, else `"Node " + id`, and is never a falsy value |
| `NetworkOverlay.MarkerOf` | new-frontend/my-app/src/components/NetworkOverlay.js:60-81 | a node yields a marker iff it parses; the marker sits at its point, coloured by `ColorByType` of its type, with its popup text |
| `NetworkOverlay.Markers` | new-frontend/my-app/src/components/NetworkOverlay.js:59-82 | at most one marker per node, each the marker of the node at its key, in node order |
| `NetworkOverlay.MarkersComplete` | new-frontend/my-app/src/components/NetworkOverlay.js:59-82 | every node that parses has its marker in the output |
| `NetworkOverlay.EndpointHasMarker` | new-frontend/my-app/src/components/NetworkOverlay.js:33-75 | an id that resolves and parses has a marker drawn at the same point |
| `NetworkOverlay.SegmentEndsHaveMarkers` | new-frontend/my-app/src/components/NetworkOverlay.js:43-82 | both ends of every drawn segment coincide with a drawn marker |
| `NetworkOverlay.Render` | new-frontend/my-app/src/components/NetworkOverlay.js:30-85 | builds the index with the loop, and there is such a last-wins index whose segments it returns, alongside the markers of the nodes; at most one segment per link and one marker per node; every segment end has a marker |
| `Legend.ColorByType` | new-frontend/my-app/src/components/Legend.js:6-19 | the legend's copy is grey exactly for values that are not one of the listed categories |
| `Legend.ColorMapsAgree` | new-frontend/my-app/src/components/Legend.js:6-19 | the legend's copy and the overlay's lookup agree on every value |
| `Legend.CategoryColorsDistinct` | new-frontend/my-app/src/components/Legend.js:8-17 | the four listed categories have pairwise distinct colours, none of them grey |
| `Legend.Label` | new-frontend/my-app/src/components/Legend.js:34-36 | a label holds the given colour right after the swatch's opening and ends with the category's name |
| `Legend.LabelsOf` | new-frontend/my-app/src/components/Legend.js:29-37 | one label per category, in category order, label `i` built from `getColorByType(types[i])` and `types[i]` |
| `Legend.OnAdd` | new-frontend/my-app/src/components/Legend.js:27-41 | the loop pushes one label per category and the result is the labels joined by `<br>` |
| `Legend.JoinAt` | new-frontend/my-app/src/components/Legend.js:39 | in the joined text each label stands whole at its offset (the sum of the earlier labels and separators) |
| `Legend.JoinSeparatorAt` | new-frontend/my-app/src/components/Legend.js:39 | between label `i` and label `i + 1` the joined text holds exactly the separator `<br>` |
| `Scenarios.BusLine` | new-frontend/my-app/src/components/NetworkOverlay.js:33-82 | two bus stops and one edge give two markers and one bus-coloured segment starting at `(52.5, 13.4)` |
| `Scenarios.DanglingEdge` | new-frontend/my-app/src/components/NetworkOverlay.js:43-53 | an edge to a missing node gives no segment; the existing node still gets a marker |
| `Scenarios.DuplicateId` | new-frontend/my-app/src/components/NetworkOverlay.js:34-37 | with two nodes sharing an id, the index holds the later one and both get markers |
| `Scenarios.MissingLatitude` | new-frontend/my-app/src/components/NetworkOverlay.js:47-62 | a node without `y` gets no marker, and an edge touching it no segment |

## Left out

- Leaflet and React construction is not modelled: `Marker`, `Popup`, `Polyline`, `L.divIcon` (only the colour in its HTML is kept), the icon size and anchor, `useMap` and `useMemo`. `Render` rebuilds the index on every call, and memoisation would give the same value. The polyline's weight 2 and opacity 0.6 are kept as constants.
- `NetworkOverlay.PopupText`: a `node_label` of boolean `true` is truthy, so it is the popup's content, and React draws a boolean child as nothing. The model returns the value `true` and does not model how React renders it, so such a popup shows up empty.
- `console.warn` logging of skipped nodes and edges is left out, because it is output only.
- The `graphData.links &&` and `graphData.nodes &&` guards are not modelled: `App.js` always supplies both arrays, so both lists are taken as present.
- JavaScript object-key semantics of `nodeMap` are not modelled. The model treats the index as a plain dictionary over string ids. This leaves out ids named after inherited properties (`__proto__`, `toString`) and endpoints that are `null` or missing, which JavaScript looks up under the keys `"null"` and `"undefined"`.
- JSON arrays and objects as field values are left out. The fields the overlay reads never hold them.
- In the legend, `L.control`, `L.DomUtil.create`, the assignment to `innerHTML`, and adding and removing the control are left out. `Legend.OnAdd` returns the HTML string that would be assigned.
- `createIcon` and the proj4 projection definition in `helpers.js` are left out. Both are calls into foreign libraries, and no reprojection is applied in the modelled code.
- `App.js` (fetching, loading flag, the `'All'` to `''` query mapping, the wall coordinates swap), `GraphVisualizer.js`, `api.js`, `WMSLayer.js` and the Flask backend are not part of this model. They are HTTP, DOM or database work. The backend sends `station_type` while the overlay reads `type`, so with that backend every node is grey. The model takes records as they arrive.
