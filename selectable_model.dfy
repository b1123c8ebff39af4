/** `SelectableModel`: the render-time split of the mesh into a selected
    and an unselected geometry, and the click handler that turns a ray hit
    into face-selection, measurement and annotation callbacks. */
module SelectableModel {
  import opened Common
  import opened AdjacencyGrouping

  // ------------------------------------------------------------ partition

  /** An index buffer made of whole triangles (three entries per face). */
  predicate IsTriangleBuffer(buf: seq<nat>) {
    |buf| % 3 == 0
  }

  /** The triples of faces `0 .. n-1` whose membership in `selected` is
      `want`, in increasing face order. */
  function Bucket(buf: seq<nat>, selected: set<int>, n: nat, want: bool): seq<nat>
    requires 3 * n <= |buf|
  {
    if n == 0 then []
    else Bucket(buf, selected, n - 1, want)
         + (if ((n - 1) in selected) == want then buf[3 * (n - 1) .. 3 * n] else [])
  }

  /** The faces below `n` that are selected. */
  function SelectedBelow(selected: set<int>, n: nat): set<int> {
    set i | 0 <= i < n && i in selected
  }

  /** A derived geometry: a full `geometry.clone()`, or a new geometry that
      reuses the source's position attribute with its own index list. */
  datatype Geometry = CopyOfMesh | SharedPositions(indices: seq<nat>)

  datatype Partition = Partition(selectedGeometry: Option<Geometry>, unselectedGeometry: Geometry)

  /** The `useMemo` of lines 61-112. */
  method PartitionGeometry(index: Option<seq<nat>>, selectedFaces: set<int>) returns (p: Partition)
    requires index.Some? ==> IsTriangleBuffer(index.value)
    ensures (selectedFaces == {} || index.None?) ==> p == Partition(None, CopyOfMesh)
    ensures selectedFaces != {} && index.Some? ==>
      var buf := index.value;
      var sel := Bucket(buf, selectedFaces, |buf| / 3, true);
      var unsel := Bucket(buf, selectedFaces, |buf| / 3, false);
      && p.selectedGeometry == (if sel != [] then Some(SharedPositions(sel)) else None)
      && p.unselectedGeometry == (if unsel != [] then SharedPositions(unsel) else CopyOfMesh)
  {
    if selectedFaces == {} {
      return Partition(None, CopyOfMesh);
    }
    if index.None? {
      return Partition(None, CopyOfMesh);
    }
    var buf := index.value;
    var selectedIndices: seq<nat> := [];
    var unselectedIndices: seq<nat> := [];
    var faceCount := |buf| / 3;
    for i := 0 to faceCount
      invariant selectedIndices == Bucket(buf, selectedFaces, i, true)
      invariant unselectedIndices == Bucket(buf, selectedFaces, i, false)
    {
      var idx := i * 3;
      if i in selectedFaces {
        selectedIndices := selectedIndices + [buf[idx], buf[idx + 1], buf[idx + 2]];
      } else {
        unselectedIndices := unselectedIndices + [buf[idx], buf[idx + 1], buf[idx + 2]];
      }
    }
    var selectedGeo := if |selectedIndices| > 0 then Some(SharedPositions(selectedIndices)) else None;
    var unselectedGeo := if |unselectedIndices| > 0 then SharedPositions(unselectedIndices) else CopyOfMesh;
    p := Partition(selectedGeo, unselectedGeo);
  }

  /** Every triangle below `n` lands in exactly one bucket: the two buckets
      hold `3 * n` entries together, the selected one three per selected face. */
  lemma {:induction false} BucketSizes(buf: seq<nat>, selected: set<int>, n: nat)
    requires 3 * n <= |buf|
    ensures |Bucket(buf, selected, n, true)| == 3 * |SelectedBelow(selected, n)|
    ensures |Bucket(buf, selected, n, true)| + |Bucket(buf, selected, n, false)| == 3 * n
  {
    if n > 0 {
      BucketSizes(buf, selected, n - 1);
      if n - 1 in selected {
        assert SelectedBelow(selected, n) == SelectedBelow(selected, n - 1) + {n - 1};
      } else {
        assert SelectedBelow(selected, n) == SelectedBelow(selected, n - 1);
      }
    }
  }

  /** Selected ids that are not faces below `n` change neither bucket. */
  lemma {:induction false} OutOfRangeIdsIgnored(buf: seq<nat>, selected: set<int>, extra: set<int>, n: nat, want: bool)
    requires 3 * n <= |buf|
    requires forall x :: x in extra ==> x < 0 || x >= n
    ensures Bucket(buf, selected + extra, n, want) == Bucket(buf, selected, n, want)
  {
    if n > 0 {
      OutOfRangeIdsIgnored(buf, selected, extra, n - 1, want);
    }
  }

  /** With nothing selected the unselected bucket is the whole buffer. */
  lemma {:induction false} NothingSelectedKeepsAll(buf: seq<nat>, n: nat)
    requires 3 * n <= |buf|
    ensures Bucket(buf, {}, n, false) == buf[..3 * n]
    ensures Bucket(buf, {}, n, true) == []
  {
    if n > 0 {
      NothingSelectedKeepsAll(buf, n - 1);
      assert buf[..3 * n] == buf[..3 * (n - 1)] + buf[3 * (n - 1) .. 3 * n];
    }
  }

  /** The selected geometry exists exactly when some face of the mesh is
      selected; the unselected one falls back to a full copy exactly when
      every face is. */
  lemma PartitionShape(buf: seq<nat>, selected: set<int>)
    requires IsTriangleBuffer(buf)
    ensures Bucket(buf, selected, |buf| / 3, true) != []
        <==> exists i :: 0 <= i < |buf| / 3 && i in selected
    ensures Bucket(buf, selected, |buf| / 3, false) == []
        <==> forall i :: 0 <= i < |buf| / 3 ==> i in selected
  {
    var n := |buf| / 3;
    BucketSizes(buf, selected, n);
    if exists i :: 0 <= i < n && i in selected {
      var i :| 0 <= i < n && i in selected;
      assert i in SelectedBelow(selected, n);
    }
    UnselectedEmptyIff(buf, selected, n);
  }

  lemma {:induction false} UnselectedEmptyIff(buf: seq<nat>, selected: set<int>, n: nat)
    requires 3 * n <= |buf|
    ensures Bucket(buf, selected, n, false) == [] <==> forall i :: 0 <= i < n ==> i in selected
  {
    if n > 0 {
      UnselectedEmptyIff(buf, selected, n - 1);
    }
  }

  // -------------------------------------------------- fallback face lookup

  /** Face `i`'s triple holds vertex `v`; a slot outside the buffer is
      `undefined` and never equals a vertex number. */
  predicate FaceHasVertex(buf: seq<nat>, i: int, v: nat) {
    VertexAt(buf, 3 * i) == Some(v) || VertexAt(buf, 3 * i + 1) == Some(v) || VertexAt(buf, 3 * i + 2) == Some(v)
  }

  /** The first face at or after `from` whose triple holds `v`. */
  function FirstFaceWithVertex(buf: seq<nat>, v: nat, from: nat): Option<nat>
    decreases |buf| - 3 * from
  {
    if 3 * from >= |buf| then None
    else if FaceHasVertex(buf, from, v) then Some(from)
    else FirstFaceWithVertex(buf, v, from + 1)
  }

  /** The lookup returns the LOWEST face holding `v`, or nothing when no
      face of the buffer does. */
  lemma {:induction false} FirstFaceWithVertexIsLowest(buf: seq<nat>, v: nat, from: nat)
    ensures var r := FirstFaceWithVertex(buf, v, from);
      && (r.Some? ==> from <= r.value && 3 * r.value < |buf| && FaceHasVertex(buf, r.value, v)
                      && forall j :: from <= j < r.value ==> !FaceHasVertex(buf, j, v))
      && (r.None? ==> forall j :: from <= j && 3 * j < |buf| ==> !FaceHasVertex(buf, j, v))
    decreases |buf| - 3 * from
  {
    if 3 * from < |buf| && !FaceHasVertex(buf, from, v) {
      FirstFaceWithVertexIsLowest(buf, v, from + 1);
    }
  }

  /** The `for` loop with `break` of lines 141-152. */
  method FindFaceWithVertex(buf: seq<nat>, vertexIndex: nat) returns (faceIndex: Option<nat>)
    ensures faceIndex == FirstFaceWithVertex(buf, vertexIndex, 0)
  {
    faceIndex := None;
    var i := 0;
    while 3 * i < |buf|
      invariant FirstFaceWithVertex(buf, vertexIndex, 0) == FirstFaceWithVertex(buf, vertexIndex, i)
      decreases |buf| - 3 * i
    {
      var idx := i * 3;
      var a := VertexAt(buf, idx);
      var b := VertexAt(buf, idx + 1);
      var c := VertexAt(buf, idx + 2);
      if a == Some(vertexIndex) || b == Some(vertexIndex) || c == Some(vertexIndex) {
        faceIndex := Some(i);
        break;
      }
      i := i + 1;
    }
  }

  // ------------------------------------------------------- click dispatch

  /** The nearest intersection: `faceIndex` when three.js reports it, the
      first vertex `face.a` of the hit face when it reports a face, and the
      world point. */
  datatype Hit = Hit(faceIndex: Option<int>, faceA: Option<nat>, point: Point)

  /** Which optional callbacks the parent passed. */
  datatype Callbacks = Callbacks(onFaceSelect: bool, onMedicaoClick: bool, onAnotacaoClick: bool)

  datatype ClickEvent = FaceSelected(face: int) | MeasurePoint(point: Point) | AnnotationPoint(point: Point)

  /** The face a hit selects: its `faceIndex`, else the fallback lookup from
      `face.a` on an indexed geometry. */
  function ResolvedFace(index: Option<seq<nat>>, hit: Hit): Option<int> {
    if hit.faceIndex.Some? then hit.faceIndex
    else if hit.faceA.Some? && index.Some? then
      match FirstFaceWithVertex(index.value, hit.faceA.value, 0)
      case Some(i) => Some(i)
      case None => None
    else None
  }

  /** The callbacks one click fires, in order: none when no mode is active
      (no listener is installed) or the ray misses, otherwise one per active
      mode with its callback, each decided by its own `if`. */
  function ClickEvents(modes: Modes, cbs: Callbacks, index: Option<seq<nat>>, pick: Option<Hit>): seq<ClickEvent> {
    if !AnyMode(modes) || pick.None? then []
    else
      var hit := pick.value;
      var face := ResolvedFace(index, hit);
      (if modes.selecao && cbs.onFaceSelect && face.Some? then [FaceSelected(face.value)] else [])
      + (if modes.medicao && cbs.onMedicaoClick then [MeasurePoint(hit.point)] else [])
      + (if modes.anotacao && cbs.onAnotacaoClick then [AnnotationPoint(hit.point)] else [])
  }

  /** The click listener of lines 115-172 (`pick` is the first intersection). */
  method HandleClick(modes: Modes, cbs: Callbacks, index: Option<seq<nat>>, pick: Option<Hit>)
    returns (events: seq<ClickEvent>)
    ensures events == ClickEvents(modes, cbs, index, pick)
  {
    events := [];
    if !modes.selecao && !modes.medicao && !modes.anotacao {
      return;
    }
    if pick.None? {
      return;
    }
    var intersection := pick.value;
    if modes.selecao && cbs.onFaceSelect {
      var faceIndex: Option<int> := None;
      if intersection.faceIndex.Some? {
        faceIndex := intersection.faceIndex;
      } else if intersection.faceA.Some? && index.Some? {
        var found := FindFaceWithVertex(index.value, intersection.faceA.value);
        if found.Some? {
          faceIndex := Some(found.value);
        }
      }
      if faceIndex.Some? {
        events := events + [FaceSelected(faceIndex.value)];
      }
    }
    if modes.medicao && cbs.onMedicaoClick {
      events := events + [MeasurePoint(intersection.point)];
    }
    if modes.anotacao && cbs.onAnotacaoClick {
      events := events + [AnnotationPoint(intersection.point)];
    }
  }

  /** Each mode's callback fires on a hit exactly when that mode and that
      callback are present, independently of the other modes. */
  lemma ModesFireIndependently(modes: Modes, cbs: Callbacks, index: Option<seq<nat>>, hit: Hit)
    ensures var ev := ClickEvents(modes, cbs, index, Some(hit));
      && (MeasurePoint(hit.point) in ev <==> modes.medicao && cbs.onMedicaoClick)
      && (AnnotationPoint(hit.point) in ev <==> modes.anotacao && cbs.onAnotacaoClick)
      && ((exists f :: FaceSelected(f) in ev) <==>
            modes.selecao && cbs.onFaceSelect && ResolvedFace(index, hit).Some?)
  {
    var ev := ClickEvents(modes, cbs, index, Some(hit));
    var face := ResolvedFace(index, hit);
    if modes.selecao && cbs.onFaceSelect && face.Some? {
      assert FaceSelected(face.value) in ev;
    }
  }

  /** A miss, or a click with no mode active, fires nothing. */
  lemma MissFiresNothing(modes: Modes, cbs: Callbacks, index: Option<seq<nat>>, pick: Option<Hit>)
    requires pick.None? || !AnyMode(modes)
    ensures ClickEvents(modes, cbs, index, pick) == []
  {
  }

  /** Without a reported face index, the fallback picks the lowest face of
      the buffer holding `face.a`. */
  lemma FallbackPicksLowestFace(buf: seq<nat>, hit: Hit)
    requires hit.faceIndex.None? && hit.faceA.Some?
    ensures var r := ResolvedFace(Some(buf), hit);
      && (r.Some? ==> 0 <= r.value && 3 * r.value < |buf| && FaceHasVertex(buf, r.value, hit.faceA.value)
                      && forall j :: 0 <= j < r.value ==> !FaceHasVertex(buf, j, hit.faceA.value))
      && (r.None? ==> forall j :: 0 <= j && 3 * j < |buf| ==> !FaceHasVertex(buf, j, hit.faceA.value))
  {
    FirstFaceWithVertexIsLowest(buf, hit.faceA.value, 0);
  }
}
