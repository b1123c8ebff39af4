/** `Records`: the front end's view of the persisted records (the
    `Medicao`, `Anotacao` and `Selecao` interfaces of its HTTP clients),
    keeping only the fields the interaction logic reads or writes. */
module Records {
  import opened Common

  datatype Tipo = Dente | Regiao | Face

  datatype Medicao = Medicao(id: int, pontoA: Point, pontoB: Point, distancia: real)

  datatype Anotacao = Anotacao(id: int, coordenadas: Point, texto: string)

  datatype Selecao = Selecao(
    id: int, modelo3dId: int, tipo: Tipo, identificador: Option<string>,
    faces: seq<int>, cor: string, observacoes: Option<string>)

  /** The body of a create-selection request. */
  datatype CreateSelecaoDto = CreateSelecaoDto(
    modelo3dId: int, tipo: Tipo, identificador: Option<string>,
    faces: seq<int>, cor: string, observacoes: Option<string>)
}
