/** `SelecaoTool`: the selection panel. It builds the save request from
    the form, resets the form after a successful save, and enables its
    buttons from the page's selection hook. */
module SelecaoTool {
  import opened Common
  import opened Records
  import opened UseSelection

  /** `s || null` on a string. */
  function NullIfEmpty(s: string): Option<string> {
    if s == [] then None else Some(s)
  }

  const DefaultTipo: Tipo := Face
  const DefaultCor: string := "#FFD700"

  /** What a save sends: through the page's `onSaveSelection` when given,
      otherwise a create request of its own. */
  datatype SaveRequest =
    | PageSave(tipo: Tipo, identificador: Option<string>, cor: string, observacoes: Option<string>)
    | DirectCreate(dto: CreateSelecaoDto)

  /** Which buttons are disabled. */
  datatype DisabledButtons = DisabledButtons(undo: bool, redo: bool, clear: bool, openSave: bool)

  function Disabled(canUndo: bool, canRedo: bool, selectedFaces: seq<int>): DisabledButtons {
    DisabledButtons(!canUndo, !canRedo, |selectedFaces| == 0, |selectedFaces| == 0)
  }

  /** The page wires the panel to its hook: undo (redo) is disabled
      exactly when pressing it would change nothing, clear and save exactly
      when nothing is selected. */
  lemma ButtonsMatchHook(st: HookState)
    requires IndexInRange(st)
    ensures var d := Disabled(CanUndo(st), CanRedo(st), st.selection.faces);
      && (d.undo <==> Step(st, Op.Undo) == st)
      && (d.redo <==> Step(st, Op.Redo) == st)
      && (d.clear <==> st.selection.faces == [])
      && (d.openSave <==> st.selection.faces == [])
  {
    UndoGuard(st);
    RedoGuard(st);
  }

  class SelectionPanel {
    var showSaveForm: bool
    var tipo: Tipo
    var identificador: string
    var cor: string
    var observacoes: string
    var loading: bool

    predicate IsReset()
      reads this
    {
      !showSaveForm && identificador == "" && observacoes == "" && tipo == DefaultTipo && cor == DefaultCor
    }

    constructor ()
      ensures IsReset() && !loading
    {
      showSaveForm := false;
      tipo := DefaultTipo;
      identificador := "";
      cor := DefaultCor;
      observacoes := "";
      loading := false;
    }

    /** The request a save sends from the current form fields. */
    function RequestFor(selectedFaces: seq<int>, modeloId: int, hasOnSaveSelection: bool): SaveRequest
      reads this
    {
      if hasOnSaveSelection then
        PageSave(tipo, NullIfEmpty(identificador), cor, NullIfEmpty(observacoes))
      else
        DirectCreate(CreateSelecaoDto(modeloId, tipo, NullIfEmpty(identificador), selectedFaces, cor,
                                      NullIfEmpty(observacoes)))
    }

    /** `handleSave`. `succeeded` says whether the awaited save resolved;
        `created` is the record a direct create returns. Returns the request
        sent, the record handed to `onSelecaoSaved`, and whether an alert
        was shown. */
    method HandleSave(selectedFaces: seq<int>, modeloId: int, hasOnSaveSelection: bool,
                      succeeded: bool, created: Selecao)
      returns (request: Option<SaveRequest>, saved: Option<Selecao>, alerted: bool)
      modifies this
      ensures |selectedFaces| == 0 ==>
        && request == None && saved == None && alerted
        && showSaveForm == old(showSaveForm) && tipo == old(tipo) && identificador == old(identificador)
        && cor == old(cor) && observacoes == old(observacoes) && loading == old(loading)
      ensures |selectedFaces| > 0 ==>
        && request == Some(old(RequestFor(selectedFaces, modeloId, hasOnSaveSelection)))
        && saved == (if succeeded && !hasOnSaveSelection then Some(created) else None)
        && alerted == !succeeded
        && !loading
        && (succeeded ==> IsReset())
        && (!succeeded ==>
              showSaveForm == old(showSaveForm) && tipo == old(tipo) && identificador == old(identificador)
              && cor == old(cor) && observacoes == old(observacoes))
    {
      request, saved, alerted := None, None, false;
      if |selectedFaces| == 0 {
        alerted := true;
        return;
      }
      loading := true;
      if hasOnSaveSelection {
        request := Some(PageSave(tipo, NullIfEmpty(identificador), cor, NullIfEmpty(observacoes)));
      } else {
        var data := CreateSelecaoDto(modeloId, tipo, NullIfEmpty(identificador), selectedFaces, cor,
                                     NullIfEmpty(observacoes));
        request := Some(DirectCreate(data));
        if succeeded {
          saved := Some(created);
        }
      }
      if succeeded {
        showSaveForm := false;
        identificador := "";
        observacoes := "";
        tipo := DefaultTipo;
        cor := DefaultCor;
      } else {
        alerted := true;
      }
      loading := false;
    }

    /** A press of the form's own save button. A disabled button does
        nothing; an enabled one runs `handleSave` on a non-empty selection,
        so it always sends the request and never shows the empty-selection
        alert. */
    method PressFormSave(selectedFaces: seq<int>, modeloId: int, hasOnSaveSelection: bool,
                         succeeded: bool, created: Selecao)
      returns (request: Option<SaveRequest>, saved: Option<Selecao>, alerted: bool)
      modifies this
      ensures SaveDisabled(old(loading), selectedFaces) ==>
        request == None && saved == None && !alerted && unchanged(this)
      ensures !SaveDisabled(old(loading), selectedFaces) ==>
        && request == Some(old(RequestFor(selectedFaces, modeloId, hasOnSaveSelection)))
        && saved == (if succeeded && !hasOnSaveSelection then Some(created) else None)
        && (alerted <==> !succeeded)
        && !loading
        && (succeeded ==> IsReset())
        && (!succeeded ==>
              showSaveForm == old(showSaveForm) && tipo == old(tipo) && identificador == old(identificador)
              && cor == old(cor) && observacoes == old(observacoes))
    {
      if SaveDisabled(loading, selectedFaces) {
        return None, None, false;
      }
      request, saved, alerted := HandleSave(selectedFaces, modeloId, hasOnSaveSelection, succeeded, created);
    }

    /** The save button in the toolbar toggles the form. */
    method ToggleSaveForm()
      modifies this
      ensures showSaveForm == !old(showSaveForm)
      ensures tipo == old(tipo) && identificador == old(identificador) && cor == old(cor)
      ensures observacoes == old(observacoes) && loading == old(loading)
    {
      showSaveForm := !showSaveForm;
    }

    /** Cancel hides the form and keeps what was typed. */
    method CancelSaveForm()
      modifies this
      ensures !showSaveForm
      ensures tipo == old(tipo) && identificador == old(identificador) && cor == old(cor)
      ensures observacoes == old(observacoes) && loading == old(loading)
    {
      showSaveForm := false;
    }
  }

  /** The form's own save button is disabled while a save is running or
      when nothing is selected. */
  function SaveDisabled(loading: bool, selectedFaces: seq<int>): bool {
    loading || |selectedFaces| == 0
  }
}
