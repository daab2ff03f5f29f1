/** Stored marker records, live timeline markers, layers, and the pure
    specifications of what the sync engine copies between them. */
module Markers {
  import opened Wrappers
  import opened Decimal

  /** An opaque handle to a scene object; it is copied, never dereferenced. */
  datatype ObjId = ObjId(id: nat)

  /** One stored marker record of a layer. */
  datatype Marker = Marker(name: string, frame: int, camera: Option<ObjId>)

  /** One live timeline marker of the scene. */
  datatype TimelineMarker = TimelineMarker(name: string, frame: int, select: bool, camera: Option<ObjId>)

  /** A named layer of stored markers with its cached marker count. */
  datatype Layer = Layer(name: string, count: string, markers: seq<Marker>)

  /** A marker record as the host creates it, before its fields are assigned. */
  function DefaultMarker(): Marker {
    Marker("", 0, None)
  }

  /** A layer as the host creates it: no name, no markers, count "0". */
  function EmptyLayer(): (l: Layer)
    ensures l.markers == [] && CountCached(l)
  {
    Layer("", "0", [])
  }

  /** The count cache agrees with the markers it counts. */
  predicate CountCached(l: Layer) {
    l.count == NatToString(|l.markers|)
  }

  /** The name/frame/camera part of a timeline marker, as a stored record. */
  function ToMarker(t: TimelineMarker): Marker {
    Marker(t.name, t.frame, t.camera)
  }

  /** The name/frame/camera view of a whole timeline. */
  function AsMarkers(ts: seq<TimelineMarker>): seq<Marker> {
    seq(|ts|, k requires 0 <= k < |ts| => ToMarker(ts[k]))
  }

  /** Whether the copy loop takes timeline marker t. */
  predicate Taken(t: TimelineMarker, useSelect: bool) {
    !useSelect || t.select
  }

  /** The records the copy loop appends for timeline ts, one iteration at a time. */
  function Copied(ts: seq<TimelineMarker>, useSelect: bool): seq<Marker>
    decreases |ts|
  {
    if ts == [] then []
    else
      var last := ts[|ts| - 1];
      Copied(ts[..|ts| - 1], useSelect) + (if Taken(last, useSelect) then [ToMarker(last)] else [])
  }

  /** One more iteration of the copy loop appends the next marker if it is taken. */
  lemma CopiedStep(ts: seq<TimelineMarker>, i: nat, useSelect: bool)
    requires i < |ts|
    ensures Copied(ts[..i + 1], useSelect)
      == Copied(ts[..i], useSelect) + (if Taken(ts[i], useSelect) then [ToMarker(ts[i])] else [])
  {
    assert ts[..i + 1][..i] == ts[..i];
  }

  /** The positions of the selected markers of ts, in timeline order. */
  function SelectedIndices(ts: seq<TimelineMarker>): seq<nat>
    decreases |ts|
  {
    if ts == [] then []
    else SelectedIndices(ts[..|ts| - 1]) + (if ts[|ts| - 1].select then [|ts| - 1] else [])
  }

  /** SelectedIndices lists exactly the selected positions, each once, in increasing order. */
  lemma {:induction false} SelectedIndicesSpec(ts: seq<TimelineMarker>)
    ensures forall k :: 0 <= k < |SelectedIndices(ts)| ==>
      SelectedIndices(ts)[k] < |ts| && ts[SelectedIndices(ts)[k]].select
    ensures forall k, l :: 0 <= k < l < |SelectedIndices(ts)| ==>
      SelectedIndices(ts)[k] < SelectedIndices(ts)[l]
    ensures forall i :: 0 <= i < |ts| && ts[i].select ==> i in SelectedIndices(ts)
    decreases |ts|
  {
    if ts != [] {
      var n := |ts| - 1;
      var p := ts[..n];
      SelectedIndicesSpec(p);
      var idx := SelectedIndices(p);
      var extra: seq<nat> := if ts[n].select then [n] else [];
      assert SelectedIndices(ts) == idx + extra;
      forall k | 0 <= k < |idx| ensures idx[k] < n && ts[idx[k]].select {
        assert p[idx[k]] == ts[idx[k]];
      }
      forall i | 0 <= i < |ts| && ts[i].select ensures i in idx + extra {
        if i < n {
          assert p[i] == ts[i];
        }
      }
    }
  }

  /** Copying all markers copies every one verbatim, in timeline order. */
  lemma {:induction false} CopyAllVerbatim(ts: seq<TimelineMarker>)
    ensures Copied(ts, false) == AsMarkers(ts)
    decreases |ts|
  {
    if ts != [] {
      var p := ts[..|ts| - 1];
      CopyAllVerbatim(p);
      assert AsMarkers(ts) == AsMarkers(p) + [ToMarker(ts[|ts| - 1])];
    }
  }

  /** Copying selected markers copies the k-th selected marker to position k, verbatim,
      and nothing else. */
  lemma {:induction false} CopySelectedExactly(ts: seq<TimelineMarker>)
    ensures |Copied(ts, true)| == |SelectedIndices(ts)|
    ensures forall k :: 0 <= k < |SelectedIndices(ts)| ==>
      SelectedIndices(ts)[k] < |ts| && Copied(ts, true)[k] == ToMarker(ts[SelectedIndices(ts)[k]])
    decreases |ts|
  {
    if ts != [] {
      var p := ts[..|ts| - 1];
      CopySelectedExactly(p);
      SelectedIndicesSpec(p);
      assert forall i :: 0 <= i < |p| ==> p[i] == ts[i];
    }
  }

  /** The active layer after `markers_to_layer`: cleared or kept, the copied markers
      appended, and the count recomputed. */
  function Store(l: Layer, ts: seq<TimelineMarker>, useClear: bool, useSelect: bool): Layer {
    var ms := (if useClear then [] else l.markers) + Copied(ts, useSelect);
    Layer(l.name, NatToString(|ms|), ms)
  }

  /** Assign replaces the layer's markers by the copied ones; append keeps the old
      markers as an unchanged prefix and puts the copied ones after them. The name
      stays and the count agrees with the new markers. */
  lemma StoreContents(l: Layer, ts: seq<TimelineMarker>, useClear: bool, useSelect: bool)
    ensures Store(l, ts, useClear, useSelect).name == l.name
    ensures useClear ==> Store(l, ts, useClear, useSelect).markers == Copied(ts, useSelect)
    ensures !useClear ==>
      && |l.markers| <= |Store(l, ts, useClear, useSelect).markers|
      && Store(l, ts, useClear, useSelect).markers[..|l.markers|] == l.markers
      && Store(l, ts, useClear, useSelect).markers[|l.markers|..] == Copied(ts, useSelect)
    ensures CountCached(Store(l, ts, useClear, useSelect))
  {
    var r := Store(l, ts, useClear, useSelect);
    if !useClear {
      assert r.markers == l.markers + Copied(ts, useSelect);
    }
  }

  /** The layer's count reads back as the number of its markers. */
  lemma StoreCountReadsBack(l: Layer, ts: seq<TimelineMarker>, useClear: bool, useSelect: bool)
    ensures ParseDecimal(Store(l, ts, useClear, useSelect).count) == |Store(l, ts, useClear, useSelect).markers|
  {
    ParseNatToString(|Store(l, ts, useClear, useSelect).markers|);
  }

  /** Assign-all then load-replace: the timeline written back has the name/frame/camera
      sequence, and the length, of the timeline that was stored. */
  lemma AssignAllThenReplace(t0: seq<TimelineMarker>, l: Layer, t2: seq<TimelineMarker>)
    requires AsMarkers(t2) == Store(l, t0, true, false).markers
    ensures AsMarkers(t2) == AsMarkers(t0)
    ensures |t2| == |t0|
  {
    CopyAllVerbatim(t0);
  }
}
