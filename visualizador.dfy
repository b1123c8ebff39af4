/** `Visualizador`: the model page. It owns the three mode flags, the
    lists of measurements, annotations and saved selections, the pending
    annotation point, its own selection hook, and the viewer (which owns
    a second, separate selection hook). */
module Visualizador {
  import opened Common
  import opened Records
  import opened UseSelection
  import SelectableModel
  import Storage
  import Viewer3DWithSelection
  import MeasureGesture

  // ---------------------------------------------------------------- modes

  /** "Selecionar": flip selection mode, switch the other two off. */
  function PressSelecionar(m: Modes): Modes {
    Modes(!m.selecao, false, false)
  }

  /** "Medir": flip measure mode, switch the other two off. */
  function PressMedir(m: Modes): Modes {
    Modes(false, !m.medicao, false)
  }

  /** "Anotar": flip annotate mode, switch the other two off. */
  function PressAnotar(m: Modes): Modes {
    Modes(false, false, !m.anotacao)
  }

  predicate AtMostOneMode(m: Modes) {
    !(m.selecao && m.medicao) && !(m.selecao && m.anotacao) && !(m.medicao && m.anotacao)
  }

  const AllOff: Modes := Modes(false, false, false)

  /** Every button leaves at most one mode on, from any state. */
  lemma PressLeavesAtMostOne(m: Modes)
    ensures AtMostOneMode(PressSelecionar(m))
    ensures AtMostOneMode(PressMedir(m))
    ensures AtMostOneMode(PressAnotar(m))
  {
  }

  /** Pressing a button twice keeps only that button's old flag; from
      all-off it is back to all-off. */
  lemma PressTwice(m: Modes)
    ensures PressSelecionar(PressSelecionar(m)) == Modes(m.selecao, false, false)
    ensures PressMedir(PressMedir(m)) == Modes(false, m.medicao, false)
    ensures PressAnotar(PressAnotar(m)) == Modes(false, false, m.anotacao)
    ensures PressSelecionar(PressSelecionar(AllOff)) == AllOff
    ensures PressMedir(PressMedir(AllOff)) == AllOff
    ensures PressAnotar(PressAnotar(AllOff)) == AllOff
  {
  }

  /** A press returns the camera controls exactly when it switches the
      pressed mode off. */
  lemma ControlsAfterPress(m: Modes)
    ensures Viewer3DWithSelection.ControlsEnabled(PressSelecionar(m)) <==> m.selecao
    ensures Viewer3DWithSelection.ControlsEnabled(PressMedir(m)) <==> m.medicao
    ensures Viewer3DWithSelection.ControlsEnabled(PressAnotar(m)) <==> m.anotacao
  {
  }

  /** `handleAnotacaoClick` sets annotate mode without clearing the others;
      it still keeps at most one mode on, because the viewer only reports
      an annotation point while annotate mode is on. */
  lemma AnnotationClickKeepsOneMode(m: Modes, cbs: SelectableModel.Callbacks, index: Option<seq<nat>>,
                                    hit: SelectableModel.Hit)
    requires AtMostOneMode(m)
    requires SelectableModel.AnnotationPoint(hit.point) in SelectableModel.ClickEvents(m, cbs, index, Some(hit))
    ensures m.anotacao
    ensures AtMostOneMode(m.(anotacao := true)) && m.(anotacao := true) == m
  {
    SelectableModel.ModesFireIndependently(m, cbs, index, hit);
  }

  // ------------------------------------------------------------------ url

  /** `arquivo_url` made absolute: kept when it starts with '/', otherwise
      prefixed with one. */
  function ModelPath(arquivoUrl: string): (r: string)
    ensures |r| > 0 && r[0] == '/'
    ensures (arquivoUrl != [] && arquivoUrl[0] == '/') ==> r == arquivoUrl
    ensures !(arquivoUrl != [] && arquivoUrl[0] == '/') ==> r == "/" + arquivoUrl
  {
    if arquivoUrl != [] && arquivoUrl[0] == '/' then arquivoUrl else "/" + arquivoUrl
  }

  const DefaultApiUrl: string := "http://localhost:3001"

  /** `VITE_API_URL || 'http://localhost:3001'`: an unset or empty
      variable falls back to the default. */
  function BaseUrl(env: Option<string>): string {
    if env.Some? && env.value != "" then env.value else DefaultApiUrl
  }

  function ModelUrl(env: Option<string>, arquivoUrl: string): string {
    BaseUrl(env) + ModelPath(arquivoUrl)
  }

  /** Making a path absolute twice changes nothing, and a URL the storage
      service hands out is used as it is. */
  lemma ModelPathIdempotent(arquivoUrl: string)
    ensures ModelPath(ModelPath(arquivoUrl)) == ModelPath(arquivoUrl)
    ensures ModelPath(Storage.GetFileUrl(arquivoUrl)) == Storage.GetFileUrl(arquivoUrl)
    ensures ModelUrl(None, Storage.GetFileUrl(arquivoUrl)) == DefaultApiUrl + "/uploads/" + arquivoUrl
  {
  }

  // ---------------------------------------------------------- list edits

  /** `filter(x => x.id !== id)`. */
  function RemoveById<T>(xs: seq<T>, idOf: T -> int, id: int): seq<T> {
    if xs == [] then []
    else (if idOf(xs[0]) == id then [] else [xs[0]]) + RemoveById(xs[1..], idOf, id)
  }

  /** Exactly the records with that id disappear. */
  lemma {:induction false} RemoveByIdMembers<T>(xs: seq<T>, idOf: T -> int, id: int)
    ensures forall x :: x in RemoveById(xs, idOf, id) <==> x in xs && idOf(x) != id
  {
    if xs != [] {
      RemoveByIdMembers(xs[1..], idOf, id);
      assert xs == [xs[0]] + xs[1..];
    }
  }

  /** The survivors keep their order: filtering a concatenation filters
      each part. */
  lemma {:induction false} RemoveByIdAppend<T>(a: seq<T>, b: seq<T>, idOf: T -> int, id: int)
    ensures RemoveById(a + b, idOf, id) == RemoveById(a, idOf, id) + RemoveById(b, idOf, id)
  {
    if a != [] {
      assert (a + b)[1..] == a[1..] + b;
      RemoveByIdAppend(a[1..], b, idOf, id);
    } else {
      assert a + b == b;
    }
  }

  /** Deleting an id no record carries leaves the list as it was. */
  lemma {:induction false} RemoveAbsentId<T>(xs: seq<T>, idOf: T -> int, id: int)
    requires forall k :: 0 <= k < |xs| ==> idOf(xs[k]) != id
    ensures RemoveById(xs, idOf, id) == xs
  {
    if xs != [] {
      assert idOf(xs[0]) != id;
      RemoveAbsentId(xs[1..], idOf, id);
      assert xs == [xs[0]] + xs[1..];
    }
  }

  /** Creating a record with a fresh id and deleting it restores the list. */
  lemma CreateThenDelete<T>(xs: seq<T>, x: T, idOf: T -> int)
    requires forall k :: 0 <= k < |xs| ==> idOf(xs[k]) != idOf(x)
    ensures RemoveById(xs + [x], idOf, idOf(x)) == xs
  {
    RemoveByIdAppend(xs, [x], idOf, idOf(x));
    RemoveAbsentId(xs, idOf, idOf(x));
    assert RemoveById([x], idOf, idOf(x)) == [] + RemoveById([x][1..], idOf, idOf(x));
  }

  function MedicaoId(m: Medicao): int { m.id }
  function AnotacaoId(a: Anotacao): int { a.id }
  function SelecaoId(s: Selecao): int { s.id }

  // ------------------------------------------------------- two selections

  /** The page and the viewer each call `useSelection`. A face click
      toggles the face in both; the sidebar's clear, undo and redo reach only
      the page's. After one click and a clear, the page holds no face while
      the viewer still highlights and counts the clicked one. */
  lemma SidebarClearLeavesViewerBehind(f: int)
    ensures var page := Run(Fresh(), [Op.SelectFace(f), Op.ClearSelection]);
      var viewer := Run(Fresh(), [Op.SelectFace(f)]);
      page.selection.faces == [] && viewer.selection.faces == [f]
  {
    var s1 := Step(Fresh(), Op.SelectFace(f));
    assert s1.selection.faces == [f];
    RunCons(Fresh(), Op.SelectFace(f), [Op.ClearSelection]);
    RunCons(s1, Op.ClearSelection, []);
    RunCons(Fresh(), Op.SelectFace(f), []);
  }

  // ----------------------------------------------------------------- page

  /** The arguments of `createMedicao`: the model and the two picked points. */
  datatype MedicaoRequest = MedicaoRequest(modeloId: int, pontoA: Point, pontoB: Point)

  class Page {
    var modes: Modes
    var medicoes: seq<Medicao>
    var anotacoes: seq<Anotacao>
    var selecoes: seq<Selecao>
    var coordenadaAnotacao: Option<Point>
    const selection: SelectionHook
    const viewer: Viewer3DWithSelection.SelectionViewer

    ghost predicate Valid()
      reads this, selection, viewer, viewer.hook
    {
      selection.Valid() && viewer.Valid() && selection != viewer.hook
    }

    constructor ()
      ensures Valid() && fresh(selection) && fresh(viewer) && fresh(viewer.hook)
      ensures modes == AllOff && medicoes == [] && anotacoes == [] && selecoes == []
      ensures coordenadaAnotacao == None
      ensures selection.State() == Fresh() && viewer.hook.State() == Fresh()
    {
      modes := AllOff;
      medicoes, anotacoes, selecoes := [], [], [];
      coordenadaAnotacao := None;
      selection := new SelectionHook();
      viewer := new Viewer3DWithSelection.SelectionViewer();
    }

    method PressSelecionarButton()
      modifies this
      ensures modes == PressSelecionar(old(modes)) && AtMostOneMode(modes)
      ensures medicoes == old(medicoes) && anotacoes == old(anotacoes) && selecoes == old(selecoes)
      ensures coordenadaAnotacao == old(coordenadaAnotacao)
    {
      var m := modes;
      modes := modes.(selecao := !m.selecao);
      modes := modes.(medicao := false);
      modes := modes.(anotacao := false);
    }

    method PressMedirButton()
      modifies this
      ensures modes == PressMedir(old(modes)) && AtMostOneMode(modes)
      ensures medicoes == old(medicoes) && anotacoes == old(anotacoes) && selecoes == old(selecoes)
      ensures coordenadaAnotacao == old(coordenadaAnotacao)
    {
      var m := modes;
      modes := modes.(medicao := !m.medicao);
      modes := modes.(anotacao := false);
      modes := modes.(selecao := false);
    }

    method PressAnotarButton()
      modifies this
      ensures modes == PressAnotar(old(modes)) && AtMostOneMode(modes)
      ensures medicoes == old(medicoes) && anotacoes == old(anotacoes) && selecoes == old(selecoes)
      ensures coordenadaAnotacao == old(coordenadaAnotacao)
    {
      var m := modes;
      modes := modes.(anotacao := !m.anotacao);
      modes := modes.(medicao := false);
      modes := modes.(selecao := false);
    }

    /** `handleMedicaoComplete`: `request` is what is sent to create the
        measurement; `created` is the stored measurement, or nothing when
        the request failed (an alert, no change). */
    method HandleMedicaoComplete(modeloId: int, pontoA: Point, pontoB: Point, created: Option<Medicao>)
      returns (request: MedicaoRequest, alerted: bool)
      modifies this
      ensures request == MedicaoRequest(modeloId, pontoA, pontoB)
      ensures alerted <==> created.None?
      ensures created.Some? ==> medicoes == old(medicoes) + [created.value] && modes == old(modes).(medicao := false)
      ensures created.None? ==> medicoes == old(medicoes) && modes == old(modes)
      ensures anotacoes == old(anotacoes) && selecoes == old(selecoes)
      ensures coordenadaAnotacao == old(coordenadaAnotacao)
      ensures AtMostOneMode(old(modes)) ==> AtMostOneMode(modes)
    {
      request := MedicaoRequest(modeloId, pontoA, pontoB);
      alerted := created.None?;
      if created.Some? {
        medicoes := medicoes + [created.value];
        modes := modes.(medicao := false);
      }
    }

    /** A measure click in the viewer: the viewer's picker takes the point,
        and a completed pair reaches `handleMedicaoComplete`, which sends
        exactly that pair. */
    method MeasureClick(modeloId: int, point: Point, created: Option<Medicao>)
      returns (request: Option<MedicaoRequest>, alerted: bool)
      requires Valid()
      modifies this, viewer.picker
      ensures Valid()
      ensures var c := MeasureGesture.Click(old(viewer.picker.Current()), point, true);
        && viewer.picker.Current() == c.next
        && (c.completed.None? ==>
              request == None && !alerted && medicoes == old(medicoes) && modes == old(modes))
        && (c.completed.Some? ==>
              && request == Some(MedicaoRequest(modeloId, c.completed.value.0, c.completed.value.1))
              && (alerted <==> created.None?)
              && (created.Some? ==> medicoes == old(medicoes) + [created.value] && modes == old(modes).(medicao := false))
              && (created.None? ==> medicoes == old(medicoes) && modes == old(modes)))
      ensures anotacoes == old(anotacoes) && selecoes == old(selecoes)
      ensures coordenadaAnotacao == old(coordenadaAnotacao)
      ensures selection.State() == old(selection.State()) && viewer.hook.State() == old(viewer.hook.State())
    {
      request, alerted := None, false;
      var completed := viewer.picker.HandleMedicaoClick(point, true);
      if completed.Some? {
        var r;
        r, alerted := HandleMedicaoComplete(modeloId, completed.value.0, completed.value.1, created);
        request := Some(r);
      }
    }

    method HandleAnotacaoClick(position: Point)
      modifies this
      ensures coordenadaAnotacao == Some(position) && modes == old(modes).(anotacao := true)
      ensures medicoes == old(medicoes) && anotacoes == old(anotacoes) && selecoes == old(selecoes)
    {
      coordenadaAnotacao := Some(position);
      modes := modes.(anotacao := true);
    }

    method HandleAnotacaoCreated(anotacao: Anotacao)
      modifies this
      ensures anotacoes == old(anotacoes) + [anotacao]
      ensures modes == old(modes).(anotacao := false) && coordenadaAnotacao == None
      ensures medicoes == old(medicoes) && selecoes == old(selecoes)
      ensures AtMostOneMode(old(modes)) ==> AtMostOneMode(modes)
    {
      anotacoes := anotacoes + [anotacao];
      modes := modes.(anotacao := false);
      coordenadaAnotacao := None;
    }

    /** The three delete handlers: `deleted` says whether the delete
        request succeeded; the list is filtered only then, and a failure
        alerts. */
    method HandleDeleteMedicao(id: int, deleted: bool) returns (alerted: bool)
      modifies this
      ensures alerted <==> !deleted
      ensures medicoes == (if deleted then RemoveById(old(medicoes), MedicaoId, id) else old(medicoes))
      ensures anotacoes == old(anotacoes) && selecoes == old(selecoes) && modes == old(modes)
      ensures coordenadaAnotacao == old(coordenadaAnotacao)
    {
      alerted := !deleted;
      if deleted {
        medicoes := RemoveById(medicoes, MedicaoId, id);
      }
    }

    method HandleDeleteAnotacao(id: int, deleted: bool) returns (alerted: bool)
      modifies this
      ensures alerted <==> !deleted
      ensures anotacoes == (if deleted then RemoveById(old(anotacoes), AnotacaoId, id) else old(anotacoes))
      ensures medicoes == old(medicoes) && selecoes == old(selecoes) && modes == old(modes)
      ensures coordenadaAnotacao == old(coordenadaAnotacao)
    {
      alerted := !deleted;
      if deleted {
        anotacoes := RemoveById(anotacoes, AnotacaoId, id);
      }
    }

    method HandleDeleteSelecao(id: int, deleted: bool) returns (alerted: bool)
      modifies this
      ensures alerted <==> !deleted
      ensures selecoes == (if deleted then RemoveById(old(selecoes), SelecaoId, id) else old(selecoes))
      ensures medicoes == old(medicoes) && anotacoes == old(anotacoes) && modes == old(modes)
      ensures coordenadaAnotacao == old(coordenadaAnotacao)
    {
      alerted := !deleted;
      if deleted {
        selecoes := RemoveById(selecoes, SelecaoId, id);
      }
    }

    method HandleSelecaoSaved(selecao: Selecao)
      modifies this
      ensures selecoes == old(selecoes) + [selecao]
      ensures medicoes == old(medicoes) && anotacoes == old(anotacoes) && modes == old(modes)
      ensures coordenadaAnotacao == old(coordenadaAnotacao)
    {
      selecoes := selecoes + [selecao];
    }

    /** `handleSaveSelecao`: the faces in insertion order; with none, an
        alert and nothing else. `created` is the stored record, or nothing
        when the request failed (an alert, no change). The handler never
        throws, so the panel treats every call as a success. */
    method HandleSaveSelecao(modeloId: int, tipo: Tipo, identificador: Option<string>, cor: string,
                             observacoes: Option<string>, created: Option<Selecao>)
      returns (request: Option<CreateSelecaoDto>, alerted: bool)
      requires Valid()
      modifies this, selection
      ensures Valid()
      ensures viewer.hook.State() == old(viewer.hook.State())
      ensures medicoes == old(medicoes) && anotacoes == old(anotacoes) && modes == old(modes)
      ensures coordenadaAnotacao == old(coordenadaAnotacao)
      ensures old(selection.selection.faces) == [] ==>
        request == None && alerted && selecoes == old(selecoes) && selection.State() == old(selection.State())
      ensures old(selection.selection.faces) != [] ==>
        && request == Some(CreateSelecaoDto(modeloId, tipo, identificador, old(selection.selection.faces), cor, observacoes))
        && (created.Some? ==>
              selecoes == old(selecoes) + [created.value] && !alerted
              && selection.State() == Step(old(selection.State()), Op.ClearSelection))
        && (created.None? ==> selecoes == old(selecoes) && alerted && selection.State() == old(selection.State()))
    {
      request, alerted := None, false;
      var faces := selection.selection.faces;
      if |faces| == 0 {
        alerted := true;
        return;
      }
      request := Some(CreateSelecaoDto(modeloId, tipo, identificador, faces, cor, observacoes));
      if created.Some? {
        HandleSelecaoSaved(created.value);
        selection.ClearSelection();
      } else {
        alerted := true;
      }
    }

    /** A face click in the viewer: the viewer toggles its own selection and
        forwards the face, which the page toggles in its selection. */
    method FaceClick(faceIndex: int)
      requires Valid()
      modifies selection, viewer.hook
      ensures Valid()
      ensures modes.selecao ==>
        && viewer.hook.State() == Step(old(viewer.hook.State()), Op.SelectFace(faceIndex))
        && selection.State() == Step(old(selection.State()), Op.SelectFace(faceIndex))
      ensures !modes.selecao ==>
        viewer.hook.State() == old(viewer.hook.State()) && selection.State() == old(selection.State())
    {
      var forwarded := viewer.HandleFaceSelect(modes.selecao, true, faceIndex);
      if forwarded.Some? {
        selection.SelectFace(forwarded.value);
      }
    }

    /** The sidebar's clear, undo and redo act on the page's hook only. */
    method SidebarAction(op: Op)
      requires Valid()
      requires op.ClearSelection? || op.Undo? || op.Redo?
      modifies selection
      ensures Valid()
      ensures selection.State() == Step(old(selection.State()), op)
      ensures viewer.hook.State() == old(viewer.hook.State())
    {
      match op {
        case ClearSelection => selection.ClearSelection();
        case Undo => selection.Undo();
        case Redo => selection.Redo();
      }
    }
  }
}
