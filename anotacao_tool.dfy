/** `AnotacaoTool`: the annotation panel. A non-blank text together with
    the clicked point (or the origin) becomes a create-annotation request;
    the form opens when a point is picked in annotation mode. */
module AnotacaoTool {
  import opened Common
  import opened Records

  /** The characters `String.prototype.trim` removes: the ECMAScript
      white-space and line-terminator code points. */
  predicate IsSpace(c: char) {
    var n := c as int;
    n == 0x09 || n == 0x0A || n == 0x0B || n == 0x0C || n == 0x0D || n == 0x20
    || n == 0xA0 || n == 0x1680 || (0x2000 <= n <= 0x200A) || n == 0x2028 || n == 0x2029
    || n == 0x202F || n == 0x205F || n == 0x3000 || n == 0xFEFF
  }

  function TrimStart(s: string): string {
    if s != [] && IsSpace(s[0]) then TrimStart(s[1..]) else s
  }

  function TrimEnd(s: string): string {
    if s != [] && IsSpace(s[|s| - 1]) then TrimEnd(s[..|s| - 1]) else s
  }

  function Trim(s: string): string {
    TrimStart(TrimEnd(s))
  }

  predicate AllSpace(s: string) {
    forall i :: 0 <= i < |s| ==> IsSpace(s[i])
  }

  lemma {:induction false} TrimEndShape(s: string)
    ensures var t := TrimEnd(s);
      && |t| <= |s| && t == s[..|t|] && AllSpace(s[|t|..])
      && (t != [] ==> !IsSpace(t[|t| - 1]))
  {
    if s != [] && IsSpace(s[|s| - 1]) {
      var u := s[..|s| - 1];
      TrimEndShape(u);
      var t := TrimEnd(u);
      assert s[|t|..] == u[|t|..] + [s[|s| - 1]];
    }
  }

  lemma {:induction false} TrimStartEmptyIff(s: string)
    ensures TrimStart(s) == [] <==> AllSpace(s)
    decreases |s|
  {
    if s != [] {
      TrimStartEmptyIff(s[1..]);
      if IsSpace(s[0]) && AllSpace(s[1..]) {
        forall i | 0 <= i < |s|
          ensures IsSpace(s[i])
        {
          if i > 0 {
            assert s[i] == s[1..][i - 1];
          }
        }
      }
    }
  }

  /** The trimmed text is blank exactly when every character is white space. */
  lemma TrimBlankIff(s: string)
    ensures Trim(s) == [] <==> AllSpace(s)
  {
    var t := TrimEnd(s);
    TrimEndShape(s);
    TrimStartEmptyIff(t);
    if t != [] {
      assert !IsSpace(t[|t| - 1]);
      assert !AllSpace(t);
      assert !AllSpace(s) by {
        assert s[|t| - 1] == t[|t| - 1];
      }
    } else {
      assert s[|t|..] == s;
    }
  }

  /** The coordinates sent: the picked point's, or the origin without one. */
  function CoordsOf(coordenadaSelecionada: Option<Point>): Point {
    match coordenadaSelecionada
    case Some(p) => Point(p.x, p.y, p.z)
    case None => Point(0.0, 0.0, 0.0)
  }

  datatype AnnotationRequest = AnnotationRequest(modeloId: int, coordenadas: Point, texto: string)

  class AnnotationForm {
    var texto: string
    var mostrarForm: bool
    var loading: bool

    constructor ()
      ensures texto == "" && !mostrarForm && !loading
    {
      texto := "";
      mostrarForm := false;
      loading := false;
    }

    /** The effect on the picked point and the mode: it only ever opens the form. */
    method CoordinateEffect(coordenadaSelecionada: Option<Point>, modoAnotacao: bool)
      modifies this
      ensures mostrarForm == (old(mostrarForm) || (coordenadaSelecionada.Some? && modoAnotacao))
      ensures texto == old(texto) && loading == old(loading)
    {
      if coordenadaSelecionada.Some? && modoAnotacao {
        mostrarForm := true;
      }
    }

    /** The "new annotation" button. */
    method OpenForm()
      modifies this
      ensures mostrarForm && texto == old(texto) && loading == old(loading)
    {
      mostrarForm := true;
    }

    /** Cancel hides the form and discards the text. */
    method Cancel()
      modifies this
      ensures !mostrarForm && texto == "" && loading == old(loading)
    {
      mostrarForm := false;
      texto := "";
    }

    /** `handleSubmit`: `created` is the record the server returned, or
        nothing when the request failed. Returns the request sent and the
        record handed to `onAnotacaoCreated`, and whether it alerted. */
    method HandleSubmit(modeloId: int, coordenadaSelecionada: Option<Point>, created: Option<Anotacao>)
      returns (request: Option<AnnotationRequest>, delivered: Option<Anotacao>, alerted: bool)
      modifies this
      ensures alerted <==> Trim(old(texto)) != [] && created.None?
      ensures Trim(old(texto)) == [] ==>
        request == None && delivered == None
        && texto == old(texto) && mostrarForm == old(mostrarForm) && loading == old(loading)
      ensures Trim(old(texto)) != [] ==>
        && request == Some(AnnotationRequest(modeloId, CoordsOf(coordenadaSelecionada), old(texto)))
        && delivered == created
        && !loading
        && (created.Some? ==> texto == "" && !mostrarForm)
        && (created.None? ==> texto == old(texto) && mostrarForm == old(mostrarForm))
    {
      request, delivered, alerted := None, None, false;
      if Trim(texto) == [] {
        return;
      }
      loading := true;
      var coordenadas := CoordsOf(coordenadaSelecionada);
      request := Some(AnnotationRequest(modeloId, coordenadas, texto));
      if created.Some? {
        delivered := created;
        texto := "";
        mostrarForm := false;
      } else {
        alerted := true;
      }
      loading := false;
    }
  }
}
