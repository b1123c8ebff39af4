/** `Viewer3DWithSelection`: the viewer used by the page. It owns its own
    selection hook and measurement points, highlights the live selection
    together with every saved selection, and forwards face clicks. */
module Viewer3DWithSelection {
  import opened Common
  import opened Records
  import opened MeasureGesture
  import opened UseSelection
  import SelectableModel
  import Viewer3D

  /** The faces drawn highlighted: the viewer's live selection plus the
      faces of every saved selection. */
  method AllSelectedFaces(live: seq<int>, saved: seq<Selecao>) returns (faces: set<int>)
    ensures forall f :: f in faces <==> f in live || exists k :: 0 <= k < |saved| && f in saved[k].faces
  {
    faces := set f | f in live;
    for i := 0 to |saved|
      invariant forall f :: f in faces <==> f in live || exists k :: 0 <= k < i && f in saved[k].faces
    {
      var sf := saved[i].faces;
      for j := 0 to |sf|
        invariant forall f :: f in faces <==>
          f in live || (exists k :: 0 <= k < i && f in saved[k].faces) || f in sf[..j]
      {
        faces := faces + {sf[j]};
      }
      assert sf[..|sf|] == sf;
    }
  }

  /** The orbit controls follow the mouse only when no mode is active. */
  function ControlsEnabled(modes: Modes): bool {
    !AnyMode(modes)
  }

  /** The callbacks `ModelWithSelection` hands to its `SelectableModel`: its
      own face and measure handlers are always there, the annotation one is
      the page's. */
  function ModelCallbacks(hasOnAnotacaoClick: bool): SelectableModel.Callbacks {
    SelectableModel.Callbacks(true, true, hasOnAnotacaoClick)
  }

  /** The plain viewer fires one callback per click (measure wins); the
      selectable model fires one per active mode, so with measure and
      annotate both on a click both measures and annotates. */
  lemma BothModesDispatchDiffers(hit: SelectableModel.Hit, index: Option<seq<nat>>)
    ensures Viewer3D.MeshDispatch(true, true, true, true, hit.point) == Viewer3D.ToMeasure(hit.point)
    ensures SelectableModel.ClickEvents(Modes(false, true, true), ModelCallbacks(true), index, Some(hit))
         == [SelectableModel.MeasurePoint(hit.point), SelectableModel.AnnotationPoint(hit.point)]
  {
  }

  class SelectionViewer {
    const hook: SelectionHook
    const picker: PointPicker

    ghost predicate Valid()
      reads this, hook
    {
      hook.Valid()
    }

    constructor ()
      ensures Valid() && fresh(hook) && fresh(picker)
      ensures hook.State() == Fresh() && picker.Current() == NoPoints
    {
      hook := new SelectionHook();
      picker := new PointPicker();
    }

    /** A face click as it reaches the viewer: `ModelWithSelection` forwards
        it only in selection mode, the viewer then toggles the face in its
        own selection and hands it to the page's `onFaceSelect`. */
    method HandleFaceSelect(modoSelecao: bool, hasOnFaceSelect: bool, faceIndex: int)
      returns (forwarded: Option<int>)
      requires Valid()
      modifies hook
      ensures Valid()
      ensures modoSelecao ==> hook.State() == Step(old(hook.State()), Op.SelectFace(faceIndex))
      ensures !modoSelecao ==> hook.State() == old(hook.State())
      ensures forwarded == (if modoSelecao && hasOnFaceSelect then Some(faceIndex) else None)
    {
      forwarded := None;
      if modoSelecao {
        hook.SelectFace(faceIndex);
        if hasOnFaceSelect {
          forwarded := Some(faceIndex);
        }
      }
    }

    /** The faces highlighted on screen. */
    method HighlightedFaces(saved: seq<Selecao>) returns (faces: set<int>)
      ensures forall f :: f in faces <==>
        f in hook.selection.faces || exists k :: 0 <= k < |saved| && f in saved[k].faces
    {
      faces := AllSelectedFaces(hook.selection.faces, saved);
    }
  }
}
