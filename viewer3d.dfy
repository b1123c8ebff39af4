/** `Viewer3D`: the plain viewer (measure and annotate only), its loader
    choice and its click dispatch. */
module Viewer3D {
  import opened Common
  import opened MeasureGesture

  datatype Loader = STLLoader | PLYLoader

  /** Lower-case the URL, take its last four characters, compare with ".stl". */
  function LoaderFor(url: string): Loader {
    if LastChars(Lower(url), 4) == ".stl" then STLLoader else PLYLoader
  }

  /** STL exactly when the URL ends in ".stl" in any letter case; every
      other URL, however short, goes to the PLY loader. */
  lemma LoaderForSuffix(url: string)
    ensures LoaderFor(url) == STLLoader <==>
      |url| >= 4 && forall i :: 0 <= i < 4 ==> LowerChar(url[|url| - 4 + i]) == ".stl"[i]
  {
    var tail := LastChars(Lower(url), 4);
    if |url| >= 4 {
      assert tail == Lower(url)[|url| - 4..];
      if forall i :: 0 <= i < 4 ==> LowerChar(url[|url| - 4 + i]) == ".stl"[i] {
        assert forall i :: 0 <= i < 4 ==> tail[i] == ".stl"[i];
      }
    }
  }

  /** An upper-case extension still selects STL. */
  lemma UpperCaseStlUsesStl()
    ensures LoaderFor("m.STL") == STLLoader
  {
    LoaderForSuffix("m.STL");
    assert LowerChar('S') == 's' && LowerChar('T') == 't' && LowerChar('L') == 'l';
  }

  /** A URL shorter than four characters never selects STL. */
  lemma ShortUrlUsesPly()
    ensures LoaderFor("stl") == PLYLoader
  {
    LoaderForSuffix("stl");
  }

  /** Where `ClickableMesh` sends a click on the model. */
  datatype MeshClick = Ignored | ToMeasure(point: Point) | ToAnnotate(point: Point)

  function MeshDispatch(modoMedicao: bool, modoAnotacao: bool, hasOnMedicaoClick: bool,
                        hasOnAnotacaoClick: bool, p: Point): MeshClick
  {
    if !modoMedicao && !modoAnotacao then Ignored
    else if modoMedicao && hasOnMedicaoClick then ToMeasure(p)
    else if modoAnotacao && hasOnAnotacaoClick then ToAnnotate(p)
    else Ignored
  }

  /** At most one callback fires per click; with neither mode on none does;
      measurement wins when both flags are set; annotation fires only when
      the measurement path is not taken. */
  lemma MeshDispatchProperties(modoMedicao: bool, modoAnotacao: bool, hasM: bool, hasA: bool, p: Point)
    ensures var d := MeshDispatch(modoMedicao, modoAnotacao, hasM, hasA, p);
      && (!modoMedicao && !modoAnotacao ==> d == Ignored)
      && (d.ToMeasure? <==> modoMedicao && hasM)
      && (d.ToAnnotate? <==> modoAnotacao && hasA && !(modoMedicao && hasM))
      && (!d.Ignored? ==> d.point == p)
  {
  }

  /** The `Viewer3D` component: its two measurement points. `Model` always
      hands `handleMedicaoClick` to the mesh, so the measure callback is
      always present at the mesh. */
  class Viewer {
    const picker: PointPicker

    constructor ()
      ensures fresh(picker) && picker.Current() == NoPoints
    {
      picker := new PointPicker();
    }

    /** A click on the mesh: the dispatch, then the measurement step or the
        forwarded annotation point. */
    method HandleMeshClick(modoMedicao: bool, modoAnotacao: bool, hasOnAnotacaoClick: bool,
                           hasOnMedicaoComplete: bool, point: Point)
      returns (annotated: Option<Point>, completed: Option<(Point, Point)>)
      modifies picker
      ensures var d := MeshDispatch(modoMedicao, modoAnotacao, true, hasOnAnotacaoClick, point);
        var r := Click(old(picker.Current()), point, hasOnMedicaoComplete);
        && (d.ToMeasure? ==> picker.Current() == r.next && completed == r.completed && annotated == None)
        && (d.ToAnnotate? ==> picker.Current() == old(picker.Current()) && completed == None && annotated == Some(point))
        && (d.Ignored? ==> picker.Current() == old(picker.Current()) && completed == None && annotated == None)
    {
      annotated, completed := None, None;
      if !modoMedicao && !modoAnotacao {
        return;
      }
      if modoMedicao {
        completed := picker.HandleMedicaoClick(point, hasOnMedicaoComplete);
      } else if modoAnotacao && hasOnAnotacaoClick {
        annotated := Some(point);
      }
    }
  }
}
