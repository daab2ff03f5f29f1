# Marker Layer — a Dafny model

The Marker Layer add-on for Blender keeps, per scene, an ordered list of named
layers of timeline markers plus an active layer index. It copies markers between
the scene's live timeline and the active layer. This project models that state
and its operators, and proves what they do:

- **Layer manager** (`MarkerLayer.Scene.AddLayer`, `RemoveLayer`, `MoveLayer`): add a layer
  named `layer_<n>` and make it active; remove the active layer and step the
  index back; move the active layer one place up or down, with the index following it.
- **Sync engine** (`MarkerLayer.Scene.MarkersToLayer`, `LayerToMarkers`): copy
  timeline markers into the active layer under the clear/append and
  all/selected policies; write the active layer's markers to the timeline under
  replace/append.
- **Count cache** (`MarkerLayer.Scene.UpdateCount`, `Decimal.NatToString`): the
  layer's `count` is Python's `str(len(markers))`. A parser and two round-trip
  lemmas show that the string determines the count and the count the string.
- **Operators** (`MarkerLayer.Scene.Assign`, `Load`, `Poll`): dispatch from the
  enum tag to the sync policy, and the "some layer exists" guard.

Layout, one module per file:

- `wrappers.dfy` — `Option`.
- `decimal.dfy` — `Decimal`: the decimal rendering of counts and its parser.
- `markers.dfy` — `Markers`: the marker, timeline-marker and layer records, plus the
  specification functions of the copy loop (`Copied`, `Store`) and lemmas about them.
- `policy.dfy` — `Policy`: the assign tags and the `(clear, select)` policy each picks.
- `layer_order.dfy` — `LayerOrder`: deleting an entry, the host collection's
  `move(from, to)`, and the up/down move of the active entry.
- `scene.dfy` — `MarkerLayer`: the `Scene` class and its operators.
- `scenarios.dfy` — `Scenarios`: two concrete sessions proved from the operators' contracts.

The scene's host collections are `seq` fields of `Scene`, reassigned by its
methods: `layers: seq<Layer>`, `active: int` and `timeline: seq<TimelineMarker>`.
A `.add()` / `.new()` appends, `.clear()` empties, `.remove(i)` deletes index i,
and `.move(from, to)` takes the entry out and reinserts it at `to`.
`Scene.Valid()` is the state every operator preserves: the active index is
non-negative and names a layer whenever one exists, and every layer's count
agrees with its markers. Each operator ensures `old(Valid()) ==> Valid()`.
The source indexes the active layer without checking it. So `UpdateCount`,
`MarkersToLayer`, `LayerToMarkers` and `RemoveLayer` require
`0 <= active < |layers|`. `MoveLayer` requires the same, except that moving up
from index 0 is allowed on any list, the empty one included: the operator returns
before it touches the list. `Assign` and `Load` require their `poll` guard and the
index invariant. `AsMarkers` (the name/frame/camera view of a timeline) and
`DefaultMarker` (the record `markers.add()` creates, marker_layer.py:211-214) are
plain definitions without contracts of their own.

## Model

| member | source | states |
|---|---|---|
| `Decimal.NatToString` | marker_layer.py:32-35 | `str(n)` of a count is a non-empty digit string with no leading zero, and starts with '0' exactly when n is 0 |
| `Decimal.ParseNatToString` | marker_layer.py:32-35 | reading a rendered count back gives the count |
| `Decimal.NatToStringParse` | marker_layer.py:32-35 | every canonical digit string is the rendering of the number it denotes (the other direction of the round trip) |
| `Decimal.NatToStringInjective` | marker_layer.py:32-35 | different counts render to different strings, so the cached count determines the marker count |
| `Markers.EmptyLayer` | marker_layer.py:216-219 | a freshly added layer has no markers and its default count "0" already agrees with them |
| `Markers.CopiedStep` | marker_layer.py:41-48 | one more iteration of the copy loop appends the next timeline marker exactly when it is taken (not skipped by the selection filter) |
| `Markers.SelectedIndicesSpec` | marker_layer.py:42-44 | the selected positions of a timeline are listed in strictly increasing order, each one selected, and none missing |
| `Markers.CopyAllVerbatim` | marker_layer.py:41-48 | without the selection filter every timeline marker is copied, in order, with name, frame and camera verbatim |
| `Markers.CopySelectedExactly` | marker_layer.py:41-48 | with the selection filter the k-th copied record is the k-th selected timeline marker, and there are exactly as many records as selected markers |
| `Markers.StoreContents` | marker_layer.py:37-49 | after `markers_to_layer`, clear makes the layer's markers equal to the copied ones; append keeps the old markers as an unchanged prefix with the copied ones after them; the name stays and the count agrees |
| `Markers.StoreCountReadsBack` | marker_layer.py:37-49 | after `markers_to_layer` the layer's count reads back as the number of its markers |
| `Markers.AssignAllThenReplace` | marker_layer.py:37-58 | assign-all followed by load-replace gives back the timeline's name/frame/camera sequence and its length |
| `Policy.AssignPolicy` | marker_layer.py:136-143 | a tag gives a policy exactly when it is one of the four menu items; the policy clears exactly when the tag's verb is "assign" (not "append") and filters by selection exactly when it ends in "_selected" |
| `Policy.AssignTag` | marker_layer.py:121-126 | each of the four policies has a menu item |
| `Policy.AssignPolicyBijective` | marker_layer.py:121-143 | the four menu items and the four (clear, select) policies correspond one to one |
| `LayerOrder.RemoveAt` | marker_layer.py:82 | removing entry i shortens the list by one, keeps the entries before i in place and shifts the ones after it down by one, and loses exactly that one entry from the multiset |
| `LayerOrder.MoveItem` | marker_layer.py:111 | the collection's `move(from, to)` keeps the length and the multiset of entries and puts the moved entry at `to` |
| `LayerOrder.Swap` | marker_layer.py:111 | exchanging two entries changes only those two positions and keeps the multiset |
| `LayerOrder.MoveAdjacentIsSwap` | marker_layer.py:111 | `move` between adjacent indices exchanges the two entries |
| `LayerOrder.MoveResult` | marker_layer.py:95-113 | after a move the list keeps its length and the active index still names an entry |
| `LayerOrder.MoveResultSpec` | marker_layer.py:95-113 | moving up at index 0 or down at the last index changes nothing; otherwise the active entry changes places with its neighbour in that direction and the active index follows it; no other entry moves and the multiset of layers is kept |
| `LayerOrder.MoveNeighbour` | marker_layer.py:104-111 | the host `move(neighbour, index)` with the neighbour above (up) or below (down) exchanges the two entries and gives exactly the list and index MoveResult describes |
| `LayerOrder.MoveUpThenDown` | marker_layer.py:95-113 | up then down from an index other than 0 restores the list and the active index |
| `LayerOrder.MoveDownThenUp` | marker_layer.py:95-113 | down then up from an index other than the last restores the list and the active index |
| `MarkerLayer.DefaultLayerName` | marker_layer.py:68-70 | a new layer's name is "layer_" followed by the canonical decimal of the number of layers that existed before it |
| `MarkerLayer.SwapKeepsCounts` | marker_layer.py:111 | exchanging two layers keeps every layer's count cache in agreement with its markers |
| `MarkerLayer.Scene.constructor` | marker_layer.py:242-243 | a scene starts with no layers and active index 0, which satisfies the scene invariant |
| `MarkerLayer.Scene.Poll` | marker_layer.py:130-131 | assign and load are available exactly when the layer list is non-empty, and then, under the invariant, the active layer can be indexed |
| `MarkerLayer.Scene.UpdateCount` | marker_layer.py:32-35 | only the active layer's count changes, to `str` of its marker count |
| `MarkerLayer.Scene.MarkersToLayer` | marker_layer.py:37-49 | only the active layer changes, to `Store` of it (see StoreContents); the timeline, the active index and the other layers stay; the invariant is kept |
| `MarkerLayer.Scene.NewTimelineMarker` | marker_layer.py:57 | the host's `timeline_markers.new` appends one marker with the given name and frame and no camera, leaving the earlier markers unchanged |
| `MarkerLayer.Scene.LayerToMarkers` | marker_layer.py:51-58 | the timeline's name/frame/camera view becomes the active layer's markers (replace) or the old view followed by them (append, the old markers an unchanged prefix); the layers and the index stay |
| `MarkerLayer.Scene.AddLayer` | marker_layer.py:66-72 | one layer named `layer_<old length>` with no markers and count "0" is appended, the old layers are unchanged, and it becomes active |
| `MarkerLayer.Scene.RemoveLayer` | marker_layer.py:79-85 | exactly the active layer is deleted, the others keeping their order; the index steps back by one unless it was 0 |
| `MarkerLayer.Scene.MoveLayer` | marker_layer.py:95-113 | the layers and active index become `MoveResult` of the old ones; moving up from index 0 changes nothing, even on an empty list; the timeline stays; the invariant is kept |
| `MarkerLayer.Scene.Assign` | marker_layer.py:133-145 | the tag's policy is applied as `markers_to_layer`; an unknown tag changes nothing |
| `MarkerLayer.Scene.Load` | marker_layer.py:164-171 | "replace" writes the layer over a cleared timeline, and any other tag appends it |
| `Scenarios.AssignThenAppendSelected` | marker_layer.py:37-49 | with A(1) and B(5) selected, assign-selected stores [A, B] with count "2"; after A is deselected, append-selected gives [A, B, B] with count "3" |
| `Scenarios.AssignAllThenLoadReplace` | marker_layer.py:133-171 | on any scene where assign and load are available, the assign operator with "assign_all" followed by the load operator with "replace" gives back the timeline's name/frame/camera sequence and its length |
| `Scenarios.MoveUpTwice` | marker_layer.py:95-113 | with two layers and the second active, up gives [layer_1, layer_0] with index 0; up again changes nothing |

## Left out

- Drawing the layer list and the panel (`draw_item`, `draw`): presentation over Blender's layout API.
- `register`/`unregister`, the `classes` list and `bl_info`: host registration. Their property defaults (empty list, index 0) are the constructor's state.
- Undo (`bl_options = {'UNDO'}`): supplied by the host.
- Camera object lifetime: a camera is an opaque `ObjId` handle that is copied and never dereferenced.
- Host details of `timeline_markers.new`. New markers are assumed appended at the end. Their selection state is left unspecified. The host's limit on the length of a timeline marker's name is not modelled, so the round trip is stated for names the host stores whole.
- Integer widths: frames and the active index are unbounded integers. Blender's 32-bit `IntProperty` range and the `min = 0` clamp on the index are not modelled. The invariant keeps the index non-negative anyway.
- Object identity of host collection items: a layer is a value in `Scene.layers`, so aliasing of its marker collection is not modelled. `MarkersToLayer` builds the new marker list in a local and writes it back once, which no other code can observe in between.
- Remove and move on an empty list or with an out-of-range index. These two operators have no `poll`, and the panel always draws their buttons (marker_layer.py:198-204). So an empty list is reached by an ordinary click. On it, remove (marker_layer.py:82) and move down (marker_layer.py:111) index an empty host collection, which the host rejects with an error. The model does not describe that error: `RemoveLayer` and `MoveLayer` take an in-range active index as their precondition. Moving up from index 0 needs no layer and is modelled as the no-op it is.
- Assign and load with their `poll` bypassed (an empty list): the host never runs them then, so a non-empty list is their precondition.
- Editing a layer's name in the list: a host UI field with no logic in the add-on.
