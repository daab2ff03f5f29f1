/** The per-scene marker-layer state and the operators that act on it: the layer
    manager (add, remove, move), the sync engine (markers to layer, layer to markers),
    the count cache, and the assign/load operators with their availability guard. */
module MarkerLayer {
  import opened Wrappers
  import opened Decimal
  import opened Markers
  import opened Policy
  import opened LayerOrder

  /** The name given to a new layer when n layers exist: "layer_" followed by str(n). */
  function DefaultLayerName(n: nat): (name: string)
    ensures HasPrefix(name, "layer_")
    ensures IsCanonical(name[6..]) && ParseDecimal(name[6..]) == n
  {
    ParseNatToString(n);
    assert ("layer_" + NatToString(n))[6..] == NatToString(n);
    "layer_" + NatToString(n)
  }

  /** Exchanging two layers keeps every layer's count cache in agreement. */
  lemma SwapKeepsCounts(s: seq<Layer>, i: nat, j: nat)
    requires i < |s| && j < |s|
    requires forall k :: 0 <= k < |s| ==> CountCached(s[k])
    ensures forall k :: 0 <= k < |s| ==> CountCached(Swap(s, i, j)[k])
  {
    var r := Swap(s, i, j);
    forall k | 0 <= k < |s| ensures CountCached(r[k]) {
      if k == i {
        assert r[k] == s[j];
      } else if k == j {
        assert r[k] == s[i];
      } else {
        assert r[k] == s[k];
      }
    }
  }

  class Scene {
    /** The scene's layer list, in display order. */
    var layers: seq<Layer>
    /** The index of the active layer. */
    var active: int
    /** The scene's live timeline markers, in host order. */
    var timeline: seq<TimelineMarker>

    /** The active index is never negative, and names a layer whenever there is one. */
    ghost predicate ActiveInRange()
      reads this
    {
      0 <= active && (|layers| > 0 ==> active < |layers|)
    }

    /** The state every operator keeps: the active index in range and every layer's
        count cache in agreement with its markers. */
    ghost predicate Valid()
      reads this
    {
      && ActiveInRange()
      && forall i :: 0 <= i < |layers| ==> CountCached(layers[i])
    }

    /** A scene before any layer exists: an empty layer list and active index 0. */
    constructor (timeline: seq<TimelineMarker>)
      ensures layers == [] && active == 0 && this.timeline == timeline
      ensures Valid()
    {
      layers := [];
      active := 0;
      this.timeline := timeline;
    }

    /** The guard of the assign and load operators: some layer exists. Under the
        scene invariant this is what makes the active layer safe to index. */
    function Poll(): (available: bool)
      reads this
      ensures available <==> layers != []
      ensures available && ActiveInRange() ==> 0 <= active < |layers|
    {
      |layers| > 0
    }

    /** Recompute the active layer's count from its markers. */
    method UpdateCount()
      requires 0 <= active < |layers|
      modifies this
      ensures active == old(active) && timeline == old(timeline)
      ensures |layers| == |old(layers)| && CountCached(layers[active])
      ensures layers == old(layers)[active := old(layers[active]).(count := NatToString(|old(layers[active]).markers|))]
    {
      var layer := layers[active];
      var count := |layer.markers|;
      layers := layers[active := layer.(count := NatToString(count))];
    }

    /** Copy timeline markers into the active layer, clearing it first when useClear
        holds and skipping unselected markers when useSelect holds; then refresh its count. */
    method MarkersToLayer(useClear: bool, useSelect: bool)
      requires 0 <= active < |layers|
      modifies this
      ensures active == old(active) && timeline == old(timeline)
      ensures layers == old(layers)[old(active) := Store(old(layers[active]), old(timeline), useClear, useSelect)]
      ensures old(Valid()) ==> Valid()
    {
      var markers := layers[active].markers;
      ghost var kept := if useClear then [] else markers;
      if useClear {
        markers := [];
      }
      var ts := timeline;
      for i := 0 to |ts|
        invariant layers == old(layers) && active == old(active) && timeline == old(timeline)
        invariant markers == kept + Copied(ts[..i], useSelect)
      {
        var tMk := ts[i];
        CopiedStep(ts, i, useSelect);
        if useSelect {
          if !tMk.select {
            continue;
          }
        }
        ghost var before := markers;
        markers := markers + [DefaultMarker()];
        var last := |markers| - 1;
        markers := markers[last := markers[last].(name := tMk.name)];
        markers := markers[last := markers[last].(frame := tMk.frame)];
        markers := markers[last := markers[last].(camera := tMk.camera)];
        assert markers == before + [ToMarker(tMk)];
      }
      assert ts[..|ts|] == ts;
      layers := layers[active := layers[active].(markers := markers)];
      UpdateCount();
      assert layers[active] == Store(old(layers[active]), ts, useClear, useSelect);
      if old(Valid()) {
        forall k | 0 <= k < |layers| ensures CountCached(layers[k]) {
          if k != active {
            assert layers[k] == old(layers[k]);
          }
        }
      }
    }

    /** The host's `timeline_markers.new(name, frame)`: a marker with that name and frame
        and no camera is appended; its selection state is left to the host. */
    method NewTimelineMarker(name: string, frame: int) returns (index: nat)
      modifies this
      ensures |timeline| == |old(timeline)| + 1 && index == |old(timeline)|
      ensures timeline[..index] == old(timeline)
      ensures timeline[index].name == name && timeline[index].frame == frame && timeline[index].camera.None?
      ensures layers == old(layers) && active == old(active)
    {
      var initialSelect: bool :| true;
      index := |timeline|;
      timeline := timeline + [TimelineMarker(name, frame, initialSelect, None)];
    }

    /** Write the active layer's markers to the timeline, after clearing the timeline
        when useClear holds. */
    method LayerToMarkers(useClear: bool)
      requires 0 <= active < |layers|
      modifies this
      ensures layers == old(layers) && active == old(active)
      ensures AsMarkers(timeline) == (if useClear then [] else AsMarkers(old(timeline))) + layers[active].markers
      ensures !useClear ==> |old(timeline)| <= |timeline| && timeline[..|old(timeline)|] == old(timeline)
      ensures old(Valid()) ==> Valid()
    {
      if useClear {
        timeline := [];
      }
      ghost var kept := timeline;
      var markers := layers[active].markers;
      for i := 0 to |markers|
        invariant layers == old(layers) && active == old(active)
        invariant |timeline| == |kept| + i
        invariant timeline[..|kept|] == kept
        invariant forall k :: 0 <= k < i ==> ToMarker(timeline[|kept| + k]) == markers[k]
      {
        var mk := markers[i];
        var tMk := NewTimelineMarker(mk.name, mk.frame);
        timeline := timeline[tMk := timeline[tMk].(camera := mk.camera)];
      }
      assert AsMarkers(timeline) == AsMarkers(kept) + markers;
    }

    /** The add operator: append a layer named after the current layer count and make
        it active. */
    method AddLayer()
      modifies this
      ensures layers == old(layers) + [Layer(DefaultLayerName(|old(layers)|), "0", [])]
      ensures active == |old(layers)| == |layers| - 1
      ensures timeline == old(timeline)
      ensures old(Valid()) ==> Valid()
    {
      var count := |layers|;
      layers := layers + [EmptyLayer()];
      layers := layers[count := layers[count].(name := DefaultLayerName(count))];
      active := count;
    }

    /** The remove operator: delete the active layer and step the active index back
        by one unless it was already 0. */
    method RemoveLayer()
      requires 0 <= active < |layers|
      modifies this
      ensures layers == RemoveAt(old(layers), old(active))
      ensures active == if old(active) != 0 then old(active) - 1 else 0
      ensures timeline == old(timeline)
      ensures old(Valid()) ==> Valid()
    {
      var index := active;
      layers := RemoveAt(layers, index);
      if index != 0 {
        active := index - 1;
      }
    }

    /** The move operator: exchange the active layer with its neighbour above (up) or
        below (down), the active index following it; nothing happens at the boundary. */
    method MoveLayer(up: bool)
      requires 0 <= active
      requires active < |layers| || (up && active == 0)
      modifies this
      ensures if old(active) < |old(layers)|
        then layers == MoveResult(old(layers), old(active), up).0
          && active == MoveResult(old(layers), old(active), up).1
        else layers == old(layers) && active == old(active)
      ensures timeline == old(timeline)
      ensures old(Valid()) ==> Valid()
    {
      var index := active;
      var maxIndex := |layers| - 1;
      var neighbour: nat;
      if up {
        if index == 0 {
          return;
        }
        neighbour := index - 1;
      } else {
        if index == maxIndex {
          return;
        }
        neighbour := index + 1;
      }
      ghost var before := layers;
      MoveNeighbour(layers, index, up, neighbour);
      layers := MoveItem(layers, neighbour, index);
      active := neighbour;
      if old(Valid()) {
        SwapKeepsCounts(before, neighbour, index);
      }
    }

    /** The assign operator: run the sync policy its tag selects; an unknown tag
        changes nothing. */
    method Assign(tag: string)
      requires Poll() && ActiveInRange()
      modifies this
      ensures AssignPolicy(tag).None? ==> layers == old(layers)
      ensures active == old(active) && timeline == old(timeline)
      ensures AssignPolicy(tag).Some? ==>
        var p := AssignPolicy(tag).value;
        layers == old(layers)[old(active) := Store(old(layers[active]), old(timeline), p.clear, p.select)]
      ensures old(Valid()) ==> Valid()
    {
      match AssignPolicy(tag)
      case Some(p) =>
        MarkersToLayer(p.clear, p.select);
      case None =>
    }

    /** The load operator: "replace" clears the timeline before writing the active
        layer to it; every other tag appends. */
    method Load(tag: string)
      requires Poll() && ActiveInRange()
      modifies this
      ensures layers == old(layers) && active == old(active)
      ensures AsMarkers(timeline) == (if tag == ReplaceTag then [] else AsMarkers(old(timeline))) + layers[active].markers
      ensures tag != ReplaceTag ==> |old(timeline)| <= |timeline| && timeline[..|old(timeline)|] == old(timeline)
      ensures old(Valid()) ==> Valid()
    {
      if tag == ReplaceTag {
        LayerToMarkers(true);
      } else {
        LayerToMarkers(false);
      }
    }
  }
}
