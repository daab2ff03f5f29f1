/** Two concrete sessions of the add-on, driven through the operators' contracts. */
module Scenarios {
  import opened Wrappers
  import opened Markers
  import opened Policy
  import opened MarkerLayer

  /** What the copy loop takes from a two-marker timeline. */
  lemma CopiedPair(x: TimelineMarker, y: TimelineMarker, useSelect: bool)
    ensures Copied([x, y], useSelect)
      == (if Taken(x, useSelect) then [ToMarker(x)] else []) + (if Taken(y, useSelect) then [ToMarker(y)] else [])
  {
    CopiedStep([x, y], 0, useSelect);
    CopiedStep([x, y], 1, useSelect);
    assert [x, y][..0] == [] && [x, y][..2] == [x, y];
  }

  /** Markers A (frame 1) and B (frame 5), both selected: a new layer assigned with
      "assign_selected" holds A and B; after A is deselected, "append_selected" adds
      a second B. */
  method AssignThenAppendSelected() returns (first: Layer, second: Layer)
    ensures first.markers == [Marker("A", 1, None), Marker("B", 5, None)]
    ensures first.count == "2"
    ensures second.markers == [Marker("A", 1, None), Marker("B", 5, None), Marker("B", 5, None)]
    ensures second.count == "3"
  {
    var a := TimelineMarker("A", 1, true, None);
    var b := TimelineMarker("B", 5, true, None);
    var scene := new Scene([a, b]);
    CopiedPair(a, b, true);
    scene.AddLayer();
    assert AssignPolicy("assign_selected") == Some(SyncPolicy(true, true));
    scene.Assign("assign_selected");
    first := scene.layers[0];
    var a' := a.(select := false);
    scene.timeline := [a', b];
    CopiedPair(a', b, true);
    assert AssignPolicy("append_selected") == Some(SyncPolicy(false, true));
    scene.Assign("append_selected");
    second := scene.layers[0];
  }

  /** Two added layers with the second active: moving up puts it first and makes
      index 0 active; moving up again changes nothing. */
  method MoveUpTwice() returns (once: seq<Layer>, activeOnce: int, twice: seq<Layer>, activeTwice: int)
    ensures once == [Layer("layer_1", "0", []), Layer("layer_0", "0", [])] && activeOnce == 0
    ensures twice == once && activeTwice == 0
  {
    var scene := new Scene([]);
    scene.AddLayer();
    scene.AddLayer();
    assert DefaultLayerName(0) == "layer_0" && DefaultLayerName(1) == "layer_1";
    var l0, l1 := Layer("layer_0", "0", []), Layer("layer_1", "0", []);
    assert scene.layers == [l0, l1];
    scene.MoveLayer(true);
    assert scene.layers[0] == l1 && scene.layers[1] == l0;
    once, activeOnce := scene.layers, scene.active;
    scene.MoveLayer(true);
    twice, activeTwice := scene.layers, scene.active;
  }

  /** Assign-all followed by load-replace, on any scene where both are available,
      gives the timeline back in name, frame and camera, and in length. */
  method AssignAllThenLoadReplace(s: Scene)
    requires s.Poll() && s.ActiveInRange()
    modifies s
    ensures AsMarkers(s.timeline) == AsMarkers(old(s.timeline))
    ensures |s.timeline| == |old(s.timeline)|
  {
    s.Assign("assign_all");
    s.Load("replace");
    AssignAllThenReplace(old(s.timeline), old(s.layers[s.active]), s.timeline);
  }
}
