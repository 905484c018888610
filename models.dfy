/**
 * The records the screens and the store exchange: an asset (`IBem`), the
 * condition enum, the import and listing results, filters, paging, and an
 * inventory campaign.
 *
 * Optional TypeScript properties are `Option`s, `None` standing for
 * `undefined`. A parsed spreadsheet or PDF row is a map from header to cell
 * text; a header that is absent from the map reads as `undefined`.
 */
module Models {
  import opened Wrappers
  import opened Numbers

  /** `EstadoConservacao`. */
  datatype Estado = EXCELENTE | BOM | REGULAR | RUIM | PESSIMO

  /** The text the enum member stands for, which is also what the store keeps. */
  function EstadoName(e: Estado): (s: string)
    ensures |s| >= 3
  {
    match e
    case EXCELENTE => "EXCELENTE"
    case BOM => "BOM"
    case REGULAR => "REGULAR"
    case RUIM => "RUIM"
    case PESSIMO => "PESSIMO"
  }

  /** The enum member whose text is `s`, if any. */
  function EstadoFromName(s: string): (r: Option<Estado>)
    ensures r.Some? ==> EstadoName(r.value) == s
  {
    if s == "EXCELENTE" then Some(EXCELENTE)
    else if s == "BOM" then Some(BOM)
    else if s == "REGULAR" then Some(REGULAR)
    else if s == "RUIM" then Some(RUIM)
    else if s == "PESSIMO" then Some(PESSIMO)
    else None
  }

  /** Every member's text reads back as that member, so the names are distinct. */
  lemma EstadoNameRoundTrip(e: Estado)
    ensures EstadoFromName(EstadoName(e)) == Some(e)
  {
  }

  /**
   * `IBem`, as the import screens build it and `addBem`/`updateBem` receive it.
   * `classificacao` may be undefined (one import screen can produce that);
   * `valorAquisicao` is the number `parseCurrency` produced, NaN included.
   * `conferido` undefined and `false` behave alike everywhere, so it is a
   * plain flag.
   */
  datatype Bem = Bem(
    idBem: Option<int>,
    classificacao: Option<string>,
    numeroPatrimonio: string,
    descricaoBem: string,
    dataAquisicao: string,
    valorAquisicao: JsNumber,
    empenhoSiafi: Option<string>,
    notaFiscal: Option<string>,
    brCode: string,
    estadoConservacao: Option<Estado>,
    conferido: bool,
    dataConferencia: Option<string>,
    idServidorResponsavel: Option<int>,
    idAmbienteAtual: Option<int>,
    ambienteNome: Option<string>)

  /** One failed row of an import: its code (or "N/A") and the error text. */
  datatype ErrorDetail = ErrorDetail(patrimonio: string, error: string)

  /** `IImportResult`. */
  datatype ImportResult = ImportResult(success: bool, imported: nat, errors: nat, errorDetails: seq<ErrorDetail>)

  /** `IFiltroBens`: each filter is optional; an empty text or a zero id is ignored by the queries. */
  datatype Filtro = Filtro(
    search: Option<string>,
    classificacao: Option<string>,
    estadoConservacao: Option<Estado>,
    idCampus: Option<int>,
    idBloco: Option<int>,
    idAmbiente: Option<int>,
    idServidorResponsavel: Option<int>)

  /** The filter with nothing set. */
  const NoFilter := Filtro(None, None, None, None, None, None, None)

  /** `IPaginacao`: a 1-based page number and a page size. */
  datatype Paginacao = Paginacao(page: int, pageSize: int)

  /** The default paging of `searchBens` and `getBensFiltrados`. */
  const DefaultPaginacao := Paginacao(1, 50)

  /** `IInventario`, the fields the home screen reads. */
  datatype Inventario = Inventario(
    ano: int,
    dataInicio: string,
    dataFim: Option<string>,
    totalBens: Option<int>,
    bensConferidos: Option<int>)

  /** One entry of an import screen's error list. */
  datatype ImportError = ImportError(linha: int, patrimonio: string, erros: seq<string>)

  /** A parsed row: header to cell text; an absent header is `undefined`. */
  type Row = map<string, string>

  /** `row[key]`, `undefined` when absent. */
  function Cell(row: Row, key: string): Option<string> {
    if key in row then Some(row[key]) else None
  }

  /** JavaScript truthiness of an optional string: undefined and "" are falsy. */
  predicate TruthyText(s: Option<string>) {
    s.Some? && s.value != ""
  }

  /** `a || b` on optional strings. */
  function Or(a: Option<string>, b: Option<string>): Option<string> {
    if TruthyText(a) then a else b
  }

  /** `a || "default"`. */
  function OrText(a: Option<string>, default: string): string {
    if TruthyText(a) then a.value else default
  }
}
