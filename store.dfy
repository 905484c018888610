/**
 * The BEM table as a value: its rows, the AUTOINCREMENT counter, the
 * constraints SQLite enforces on an INSERT or UPDATE, and the insert-or-update
 * fold of `importBens`.
 *
 * The values bound to a statement cross a JSON bridge into SQLite, where
 * `undefined`, NaN and the infinities all arrive as NULL. The failures
 * modelled are the ones the schema makes possible for the values the screens
 * send: NOT NULL on `classificacao` and `valor_aquisicao`, UNIQUE on
 * `numero_patrimonio` and on `br_code` (where NULLs never clash).
 */
module Store {
  import opened Wrappers
  import opened Numbers
  import opened Models

  /** One stored row of BEM; `None` is NULL. `conferido` is kept as 1 or 0. */
  datatype BemRow = BemRow(
    id: nat,
    classificacao: string,
    numeroPatrimonio: string,
    descricaoBem: string,
    dataAquisicao: string,
    valorAquisicao: real,
    empenhoSiafi: Option<string>,
    notaFiscal: Option<string>,
    brCode: Option<string>,
    estadoConservacao: Estado,
    conferido: int,
    dataConferencia: Option<string>,
    idServidorResponsavel: Option<int>,
    idAmbienteAtual: Option<int>)

  /** The values bound to the placeholders of `addBem`'s INSERT and `updateBem`'s UPDATE. */
  datatype Bound = Bound(
    classificacao: Option<string>,
    numeroPatrimonio: string,
    descricaoBem: string,
    dataAquisicao: string,
    valorAquisicao: Option<real>,
    empenhoSiafi: Option<string>,
    notaFiscal: Option<string>,
    brCode: Option<string>,
    estadoConservacao: Estado,
    conferido: int,
    dataConferencia: Option<string>,
    idServidorResponsavel: Option<int>,
    idAmbienteAtual: Option<int>)

  /** A constraint SQLite reports as violated, naming the column. */
  datatype DbError = NotNull(column: string) | Unique(column: string)

  /** SQLite's text for a constraint violation. */
  function Message(e: DbError): (m: string)
    ensures m != ""
  {
    match e
    case NotNull(c) => "NOT NULL constraint failed: BEM." + c
    case Unique(c) => "UNIQUE constraint failed: BEM." + c
  }

  /** The table: rows in rowid order and the next AUTOINCREMENT id. */
  datatype Table = Table(rows: seq<BemRow>, nextId: nat)

  /** An empty table. */
  const Empty := Table([], 1)

  /**
   * What the schema and AUTOINCREMENT guarantee: codes are unique, non-NULL
   * scan codes are unique, ids are positive, below the counter and increase
   * in row order.
   */
  ghost predicate Valid(t: Table) {
    && (forall i, j :: 0 <= i < j < |t.rows| ==> t.rows[i].numeroPatrimonio != t.rows[j].numeroPatrimonio)
    && (forall i, j :: 0 <= i < j < |t.rows| && t.rows[i].brCode.Some? ==> t.rows[i].brCode != t.rows[j].brCode)
    && (forall i, j :: 0 <= i < j < |t.rows| ==> t.rows[i].id < t.rows[j].id)
    && (forall i :: 0 <= i < |t.rows| ==> 1 <= t.rows[i].id < t.nextId)
    && t.nextId >= 1
  }

  lemma EmptyValid()
    ensures Valid(Empty)
  {
  }

  /** `s || null` for an optional text. */
  function TextOrNull(s: Option<string>): (r: Option<string>)
    ensures r.None? <==> !TruthyText(s)
    ensures r.Some? ==> r == s
  {
    if TruthyText(s) then s else None
  }

  /** `n || null` for an optional id: 0 and undefined become NULL. */
  function IdOrNull(n: Option<int>): (r: Option<int>)
    ensures r.None? <==> (n.None? || n.value == 0)
    ensures r.Some? ==> r == n
  {
    if n.Some? && n.value != 0 then n else None
  }

  /** A number as SQLite receives it: NaN and the infinities arrive as NULL. */
  function SqlNumber(n: JsNumber): (r: Option<real>)
    ensures r.Some? <==> n.Finite?
    ensures n.Finite? ==> r == Some(n.value)
  {
    match n
    case Finite(v) => Some(v)
    case _ => None
  }

  /**
   * The placeholder values of `addBem` and `updateBem`: classification,
   * code, description and date pass through unchanged; the rest are
   * converted as `BindBemDefaults` states.
   */
  function BindBem(bem: Bem): (b: Bound)
    ensures b.classificacao == bem.classificacao && b.numeroPatrimonio == bem.numeroPatrimonio
    ensures b.descricaoBem == bem.descricaoBem && b.dataAquisicao == bem.dataAquisicao
  {
    Bound(
      bem.classificacao,
      bem.numeroPatrimonio,
      bem.descricaoBem,
      bem.dataAquisicao,
      SqlNumber(bem.valorAquisicao),
      TextOrNull(bem.empenhoSiafi),
      TextOrNull(bem.notaFiscal),
      TextOrNull(Some(bem.brCode)),
      bem.estadoConservacao.GetOr(BOM),
      if bem.conferido then 1 else 0,
      TextOrNull(bem.dataConferencia),
      IdOrNull(bem.idServidorResponsavel),
      IdOrNull(bem.idAmbienteAtual))
  }

  /** The defaults of the bound values: condition BOM, flag 1/0, empty texts and zero ids NULL. */
  lemma BindBemDefaults(bem: Bem)
    ensures BindBem(bem).estadoConservacao == (if bem.estadoConservacao.Some? then bem.estadoConservacao.value else BOM)
    ensures BindBem(bem).conferido == 1 <==> bem.conferido
    ensures BindBem(bem).conferido in {0, 1}
    ensures BindBem(bem).brCode.None? <==> bem.brCode == ""
    ensures BindBem(bem).empenhoSiafi.None? <==> (bem.empenhoSiafi.None? || bem.empenhoSiafi.value == "")
    ensures BindBem(bem).notaFiscal.None? <==> (bem.notaFiscal.None? || bem.notaFiscal.value == "")
    ensures BindBem(bem).idAmbienteAtual.None? <==> (bem.idAmbienteAtual.None? || bem.idAmbienteAtual.value == 0)
    ensures BindBem(bem).valorAquisicao.None? <==> !bem.valorAquisicao.Finite?
  {
  }

  /** The NOT NULL checks, in column order. */
  function NotNullViolation(b: Bound): (r: Option<DbError>)
    ensures r.None? <==> b.classificacao.Some? && b.valorAquisicao.Some?
  {
    if b.classificacao.None? then Some(NotNull("classificacao"))
    else if b.valorAquisicao.None? then Some(NotNull("valor_aquisicao"))
    else None
  }

  /** The index of the row holding `numero`, if any. */
  function FindNumero(rows: seq<BemRow>, numero: string): (r: Option<nat>)
    ensures r.Some? ==> r.value < |rows| && rows[r.value].numeroPatrimonio == numero
    ensures r.None? ==> forall i :: 0 <= i < |rows| ==> rows[i].numeroPatrimonio != numero
  {
    if rows == [] then None
    else if rows[|rows| - 1].numeroPatrimonio == numero then Some(|rows| - 1)
    else FindNumero(rows[..|rows| - 1], numero)
  }

  /** In a valid table the row holding a code is the only one, so the search finds exactly it. */
  lemma FindNumeroUnique(t: Table, j: nat)
    requires Valid(t) && j < |t.rows|
    ensures FindNumero(t.rows, t.rows[j].numeroPatrimonio) == Some(j)
  {
  }

  /** The index of the row with id `id`, if any. */
  function FindId(rows: seq<BemRow>, id: int): (r: Option<nat>)
    ensures r.Some? ==> r.value < |rows| && rows[r.value].id == id
    ensures r.None? ==> forall i :: 0 <= i < |rows| ==> rows[i].id != id
  {
    if rows == [] then None
    else if rows[|rows| - 1].id == id then Some(|rows| - 1)
    else FindId(rows[..|rows| - 1], id)
  }

  /** Whether a non-NULL scan code is held by a row other than the one with id `self`. */
  function BrCodeClash(rows: seq<BemRow>, code: Option<string>, self: int): (r: bool)
    ensures r <==> code.Some? && exists i :: 0 <= i < |rows| && rows[i].brCode == code && rows[i].id != self
  {
    if code.None? || rows == [] then false
    else
      var last := rows[|rows| - 1];
      (last.brCode == code && last.id != self) || BrCodeClash(rows[..|rows| - 1], code, self)
  }

  /** The row an INSERT creates. */
  function NewRow(id: nat, b: Bound): BemRow
    requires b.classificacao.Some? && b.valorAquisicao.Some?
  {
    BemRow(id, b.classificacao.value, b.numeroPatrimonio, b.descricaoBem, b.dataAquisicao,
           b.valorAquisicao.value, b.empenhoSiafi, b.notaFiscal, b.brCode, b.estadoConservacao,
           b.conferido, b.dataConferencia, b.idServidorResponsavel, b.idAmbienteAtual)
  }

  /** The row an UPDATE leaves: every column set from `b` except the id and the code. */
  function UpdatedRow(r: BemRow, b: Bound): BemRow
    requires b.classificacao.Some? && b.valorAquisicao.Some?
  {
    NewRow(r.id, b).(numeroPatrimonio := r.numeroPatrimonio)
  }

  /** `addBem`: the table after the INSERT and the new row's id, or the violated constraint. */
  function Insert(t: Table, bem: Bem): (r: Result<(Table, nat), DbError>)
    ensures r.Success? <==>
      && bem.classificacao.Some? && bem.valorAquisicao.Finite?
      && FindNumero(t.rows, bem.numeroPatrimonio).None?
      && !BrCodeClash(t.rows, BindBem(bem).brCode, -1)
    ensures r.Success? ==> r.value.1 == t.nextId
    ensures r.Success? ==> r.value.0.rows == t.rows + [NewRow(t.nextId, BindBem(bem))]
    ensures r.Success? ==> r.value.0.nextId == t.nextId + 1
  {
    var b := BindBem(bem);
    match NotNullViolation(b)
    case Some(e) => Failure(e)
    case None =>
      if FindNumero(t.rows, bem.numeroPatrimonio).Some? then Failure(Unique("numero_patrimonio"))
      else if BrCodeClash(t.rows, b.brCode, -1) then Failure(Unique("br_code"))
      else Success((Table(t.rows + [NewRow(t.nextId, b)], t.nextId + 1), t.nextId))
  }

  /**
   * `updateBem`: the table after `UPDATE … WHERE id_bem = ?`. No row with that
   * id (or an undefined id) matches nothing and succeeds unchanged. Otherwise
   * the statement fails exactly when a NOT NULL column would be NULL or the
   * scan code is held by another row, and on success that row alone is
   * rewritten from the bound values.
   */
  function Update(t: Table, bem: Bem): (r: Result<Table, DbError>)
    ensures r.Success? ==> r.value.nextId == t.nextId && |r.value.rows| == |t.rows|
    ensures bem.idBem.None? || FindId(t.rows, bem.idBem.value).None? ==> r == Success(t)
    ensures bem.idBem.Some? && FindId(t.rows, bem.idBem.value).Some? ==>
      var i := FindId(t.rows, bem.idBem.value).value;
      && (r.Success? <==>
            bem.classificacao.Some? && bem.valorAquisicao.Finite? && !BrCodeClash(t.rows, BindBem(bem).brCode, t.rows[i].id))
      && (r.Success? ==> r.value.rows == t.rows[i := UpdatedRow(t.rows[i], BindBem(bem))])
    ensures r.Failure? ==> r.error in {NotNull("classificacao"), NotNull("valor_aquisicao"), Unique("br_code")}
  {
    if bem.idBem.None? then Success(t)
    else
      match FindId(t.rows, bem.idBem.value)
      case None => Success(t)
      case Some(i) =>
        var b := BindBem(bem);
        match NotNullViolation(b)
        case Some(e) => Failure(e)
        case None =>
          if BrCodeClash(t.rows, b.brCode, t.rows[i].id) then Failure(Unique("br_code"))
          else Success(Table(t.rows[i := UpdatedRow(t.rows[i], b)], t.nextId))
  }

  /** The id a scan code may share: that of the row holding `numero` (the UPDATE's own row), or none (-1) for an INSERT. */
  function SelfId(t: Table, numero: string): int {
    match FindNumero(t.rows, numero)
    case Some(i) => t.rows[i].id
    case None => -1
  }

  /** The table that the statement left, whether it succeeded or not. */
  function After<E>(t: Table, r: Result<Table, E>): Table {
    match r
    case Success(t') => t'
    case Failure(_) => t
  }

  /**
   * The statement one pass of `importBens` runs: UPDATE of the row holding
   * the code (with its id), or INSERT. On success the code is in the table.
   */
  function Attempt(t: Table, bem: Bem): (r: Result<Table, DbError>)
    ensures r.Success? ==> HasNumero(r.value, bem.numeroPatrimonio)
  {
    match FindNumero(t.rows, bem.numeroPatrimonio)
    case Some(i) =>
      var u := bem.(idBem := Some(t.rows[i].id));
      var r := Update(t, u);
      if r.Success? then UpdateFrame(t, u); assert r.value.rows[i].numeroPatrimonio == bem.numeroPatrimonio; r else r
    case None =>
      match Insert(t, bem)
      case Success((t', _)) => Success(t')
      case Failure(e) => Failure(e)
  }

  /** The detail recorded for a failed row: its code or "N/A", and the error text or "Erro desconhecido". */
  function Detail(bem: Bem, e: DbError): (d: ErrorDetail)
    ensures d.patrimonio != "" && (bem.numeroPatrimonio != "" ==> d.patrimonio == bem.numeroPatrimonio)
    ensures d.error != "" && (Message(e) != "" ==> d.error == Message(e))
  {
    ErrorDetail(if bem.numeroPatrimonio != "" then bem.numeroPatrimonio else "N/A",
                OrText(Some(Message(e)), "Erro desconhecido"))
  }

  /**
   * One pass of `importBens`'s loop: a failure leaves the table and yields
   * the detail to record; a success leaves the code in the table.
   */
  function ImportStep(t: Table, bem: Bem): (r: (Table, Option<ErrorDetail>))
    ensures r.1.Some? ==> r.0 == t
    ensures r.1.None? ==> HasNumero(r.0, bem.numeroPatrimonio)
  {
    match Attempt(t, bem)
    case Success(t') => (t', None)
    case Failure(e) => (t, Some(Detail(bem, e)))
  }

  /**
   * When a pass of the loop fails: exactly when a NOT NULL column would be
   * NULL or a row other than the one holding the code has the scan code.
   */
  lemma StepOutcome(t: Table, bem: Bem)
    ensures var ok := && bem.classificacao.Some? && bem.valorAquisicao.Finite?
                      && !BrCodeClash(t.rows, BindBem(bem).brCode, SelfId(t, bem.numeroPatrimonio));
      && (Attempt(t, bem).Success? <==> ok)
      && (ImportStep(t, bem).1.None? <==> ok)
  {
  }

  /** The state of `importBens` after the rows `bens`: table, count of writes, details of failures. */
  function ImportFold(t: Table, bens: seq<Bem>): (r: (Table, nat, seq<ErrorDetail>))
    ensures r.1 + |r.2| == |bens|
  {
    if bens == [] then (t, 0, [])
    else Advance(ImportFold(t, bens[..|bens| - 1]), bens[|bens| - 1])
  }

  /** One pass of the loop on its state: the step's table, and the write counted or the failure recorded. */
  function Advance(s: (Table, nat, seq<ErrorDetail>), bem: Bem): (r: (Table, nat, seq<ErrorDetail>))
    ensures r.1 + |r.2| == s.1 + |s.2| + 1
  {
    var (t2, err) := ImportStep(s.0, bem);
    match err
    case None => (t2, s.1 + 1, s.2)
    case Some(d) => (t2, s.1, s.2 + [d])
  }

  /** One more row of the batch runs one more step on the state of the rows before it. */
  lemma FoldSnoc(t: Table, bens: seq<Bem>, i: nat)
    requires i < |bens|
    ensures ImportFold(t, bens[..i + 1]) == Advance(ImportFold(t, bens[..i]), bens[i])
  {
    assert bens[..i + 1][..i] == bens[..i];
  }

  /** The result object `importBens` returns for a final loop state. */
  function ResultOf(imported: nat, details: seq<ErrorDetail>): ImportResult {
    ImportResult(|details| == 0, imported, |details|, details)
  }

  /**
   * `importBens` on a table: the table stays valid, and an import that
   * reports success leaves every code of the batch in the table.
   */
  function ImportBens(t: Table, bens: seq<Bem>): (r: (Table, ImportResult))
    ensures Valid(t) ==> Valid(r.0)
    ensures r.1.success ==> forall b :: b in bens ==> HasNumero(r.0, b.numeroPatrimonio)
  {
    var (t', imported, details) := ImportFold(t, bens);
    ImportValid(t, bens);
    ImportStoresAll(t, bens);
    (t', ResultOf(imported, details))
  }

  /** The counters of an import: every row is either written or reported, and success means no report. */
  lemma ImportCounts(t: Table, bens: seq<Bem>)
    ensures var r := ImportBens(t, bens).1;
      && r.imported + r.errors == |bens|
      && r.errors == |r.errorDetails|
      && (r.success <==> r.errors == 0)
  {
  }

  /** Whether some row holds `numero`. */
  predicate HasNumero(t: Table, numero: string) {
    FindNumero(t.rows, numero).Some?
  }

  /** An INSERT keeps the table valid. */
  lemma InsertValid(t: Table, bem: Bem)
    requires Valid(t) && Insert(t, bem).Success?
    ensures Valid(Insert(t, bem).value.0)
  {
    var b := BindBem(bem);
    AppendValid(t, NewRow(t.nextId, b));
  }

  /** Appending a row with a new code, an unheld scan code and the counter's id keeps a table valid. */
  lemma AppendValid(t: Table, row: BemRow)
    requires Valid(t) && row.id == t.nextId
    requires forall i :: 0 <= i < |t.rows| ==> t.rows[i].numeroPatrimonio != row.numeroPatrimonio
    requires row.brCode.Some? ==> forall i :: 0 <= i < |t.rows| ==> t.rows[i].brCode != row.brCode
    ensures Valid(Table(t.rows + [row], t.nextId + 1))
  {
    var rows := t.rows + [row];
    forall i, j | 0 <= i < j < |rows| && rows[i].brCode.Some?
      ensures rows[i].brCode != rows[j].brCode
    {
      if j == |t.rows| {
        assert rows[i] == t.rows[i];
      }
    }
  }

  /** An UPDATE changes only the row with the given id, and never its id or its code. */
  lemma UpdateFrame(t: Table, bem: Bem)
    requires Update(t, bem).Success?
    ensures var t' := Update(t, bem).value;
      && |t'.rows| == |t.rows| && t'.nextId == t.nextId
      && (forall k :: 0 <= k < |t.rows| ==> t'.rows[k].id == t.rows[k].id)
      && (forall k :: 0 <= k < |t.rows| ==> t'.rows[k].numeroPatrimonio == t.rows[k].numeroPatrimonio)
      && (forall k :: 0 <= k < |t.rows| && Some(t.rows[k].id) != bem.idBem ==> t'.rows[k] == t.rows[k])
  {
  }

  /** An UPDATE keeps the table valid. */
  lemma UpdateValid(t: Table, bem: Bem)
    requires Valid(t) && Update(t, bem).Success?
    ensures Valid(Update(t, bem).value)
  {
    var t' := Update(t, bem).value;
    UpdateFrame(t, bem);
    if bem.idBem.Some? && FindId(t.rows, bem.idBem.value).Some? {
      var k := FindId(t.rows, bem.idBem.value).value;
      forall i, j | 0 <= i < j < |t'.rows| && t'.rows[i].brCode.Some?
        ensures t'.rows[i].brCode != t'.rows[j].brCode
      {
        if i == k {
          assert t'.rows[j] == t.rows[j];
          assert t.rows[j].id != t.rows[k].id;
        } else if j == k {
          assert t'.rows[i] == t.rows[i];
          assert t.rows[i].id != t.rows[k].id;
        }
      }
    }
  }

  /** One import step keeps the table valid. */
  lemma ImportStepValid(t: Table, bem: Bem)
    requires Valid(t)
    ensures Valid(ImportStep(t, bem).0)
  {
    match FindNumero(t.rows, bem.numeroPatrimonio)
    case Some(i) =>
      var u := bem.(idBem := Some(t.rows[i].id));
      if Update(t, u).Success? { UpdateValid(t, u); }
    case None =>
      if Insert(t, bem).Success? { InsertValid(t, bem); }
  }

  /** `importBens` keeps the table valid, whatever the batch. */
  lemma {:induction false} ImportValid(t: Table, bens: seq<Bem>)
    ensures Valid(t) ==> Valid(ImportFold(t, bens).0)
  {
    if Valid(t) && bens != [] {
      ImportValid(t, bens[..|bens| - 1]);
      ImportStepValid(ImportFold(t, bens[..|bens| - 1]).0, bens[|bens| - 1]);
    }
  }

  /**
   * The upsert: when the code is present, a successful step rewrites that
   * row (in a valid table, that row alone) from the asset, keeping its id
   * and code, and keeps the row count; when it is absent, a successful step
   * adds exactly one row, holding the code and the next id.
   */
  lemma ImportStepUpsert(t: Table, bem: Bem)
    requires ImportStep(t, bem).1.None?
    ensures var t' := ImportStep(t, bem).0;
      match FindNumero(t.rows, bem.numeroPatrimonio)
      case Some(i) =>
        |t'.rows| == |t.rows| && t'.nextId == t.nextId
        && t'.rows[i].id == t.rows[i].id && t'.rows[i].numeroPatrimonio == bem.numeroPatrimonio
        && (Valid(t) ==> t'.rows == t.rows[i := UpdatedRow(t.rows[i], BindBem(bem))])
      case None =>
        t'.rows == t.rows + [NewRow(t.nextId, BindBem(bem))] && t'.nextId == t.nextId + 1
        && t'.rows[|t.rows|].numeroPatrimonio == bem.numeroPatrimonio
  {
    match FindNumero(t.rows, bem.numeroPatrimonio)
    case Some(i) =>
      var u := bem.(idBem := Some(t.rows[i].id));
      UpdateFrame(t, u);
      if Valid(t) {
        FindIdUnique(t, i);
        assert BindBem(u) == BindBem(bem);
      }
    case None =>
  }

  /** In a valid table the row with a given id is the only one, so the search finds exactly it. */
  lemma FindIdUnique(t: Table, j: nat)
    requires Valid(t) && j < |t.rows|
    ensures FindId(t.rows, t.rows[j].id) == Some(j)
  {
  }

  /** No step removes a code: one present before an import step is present after it. */
  lemma StepKeepsNumero(t: Table, bem: Bem, numero: string)
    requires HasNumero(t, numero)
    ensures HasNumero(ImportStep(t, bem).0, numero)
  {
    var k := FindNumero(t.rows, numero).value;
    var t' := ImportStep(t, bem).0;
    if ImportStep(t, bem).1.None? {
      match FindNumero(t.rows, bem.numeroPatrimonio)
      case Some(i) =>
        UpdateFrame(t, bem.(idBem := Some(t.rows[i].id)));
        assert t'.rows[k].numeroPatrimonio == numero;
      case None =>
        assert t'.rows[k] == t.rows[k];
    }
  }

  /** A successful step leaves its own code present. */
  lemma StepAddsNumero(t: Table, bem: Bem)
    requires ImportStep(t, bem).1.None?
    ensures HasNumero(ImportStep(t, bem).0, bem.numeroPatrimonio)
  {
    ImportStepUpsert(t, bem);
    var t' := ImportStep(t, bem).0;
    match FindNumero(t.rows, bem.numeroPatrimonio)
    case Some(i) =>
      assert t'.rows[i].numeroPatrimonio == bem.numeroPatrimonio;
    case None =>
      assert t'.rows[|t.rows|].numeroPatrimonio == bem.numeroPatrimonio;
  }

  /** After an import that reported no failure, every code of the batch is in the table. */
  lemma {:induction false} ImportStoresAll(t: Table, bens: seq<Bem>)
    ensures |ImportFold(t, bens).2| == 0 ==> forall b :: b in bens ==> HasNumero(ImportFold(t, bens).0, b.numeroPatrimonio)
  {
    if |ImportFold(t, bens).2| == 0 && bens != [] {
      var front := bens[..|bens| - 1];
      var last := bens[|bens| - 1];
      var t1 := ImportFold(t, front).0;
      CleanFoldLast(t, bens);
      ImportStoresAll(t, front);
      forall b | b in bens
        ensures HasNumero(ImportStep(t1, last).0, b.numeroPatrimonio)
      {
        if b != last {
          InFront(bens, b);
          StepKeepsNumero(t1, last, b.numeroPatrimonio);
        }
      }
    }
  }

  /** A step on a code already present never inserts: row count and counter stay. */
  lemma StepNoInsert(t: Table, bem: Bem)
    requires HasNumero(t, bem.numeroPatrimonio)
    ensures |ImportStep(t, bem).0.rows| == |t.rows|
    ensures ImportStep(t, bem).0.nextId == t.nextId
  {
  }

  /** Importing a batch whose codes are all present performs no insert. */
  lemma {:induction false} ImportNoInsert(t: Table, bens: seq<Bem>)
    requires forall b :: b in bens ==> HasNumero(t, b.numeroPatrimonio)
    ensures |ImportFold(t, bens).0.rows| == |t.rows|
    ensures ImportFold(t, bens).0.nextId == t.nextId
    ensures forall b :: b in bens ==> HasNumero(ImportFold(t, bens).0, b.numeroPatrimonio)
  {
    if bens != [] {
      var front := bens[..|bens| - 1];
      var last := bens[|bens| - 1];
      assert forall b :: b in front ==> b in bens;
      ImportNoInsert(t, front);
      var t1 := ImportFold(t, front).0;
      assert HasNumero(t1, last.numeroPatrimonio) by {
        assert last in bens;
        if last !in front {
          // `last` is present in `t`, and no step of `front` removes a code.
          PresentThroughFold(t, front, last.numeroPatrimonio);
        }
      }
      StepNoInsert(t1, last);
      forall b | b in bens
        ensures HasNumero(ImportFold(t, bens).0, b.numeroPatrimonio)
      {
        StepKeepsNumero(t1, last, b.numeroPatrimonio);
      }
    }
  }

  /** A code present before an import is present after it. */
  lemma {:induction false} PresentThroughFold(t: Table, bens: seq<Bem>, numero: string)
    requires HasNumero(t, numero)
    ensures HasNumero(ImportFold(t, bens).0, numero)
  {
    if bens != [] {
      PresentThroughFold(t, bens[..|bens| - 1], numero);
      StepKeepsNumero(ImportFold(t, bens[..|bens| - 1]).0, bens[|bens| - 1], numero);
    }
  }

  /**
   * Importing the same batch twice: when the first import reported no
   * failure, the second one inserts nothing, so the row count and the
   * counter are those the first import left.
   */
  lemma ImportTwice(t: Table, bens: seq<Bem>)
    requires ImportBens(t, bens).1.success
    ensures var t1 := ImportBens(t, bens).0;
      |ImportBens(t1, bens).0.rows| == |t1.rows| && ImportBens(t1, bens).0.nextId == t1.nextId
  {
    ImportStoresAll(t, bens);
    ImportNoInsert(ImportFold(t, bens).0, bens);
  }

  /**
   * A row holds what the import wrote for `bem`: it has the asset's code,
   * the asset passes the NOT NULL checks, and rewriting the row from the
   * asset leaves it as it is.
   */
  ghost predicate Holds(row: BemRow, bem: Bem) {
    var b := BindBem(bem);
    && row.numeroPatrimonio == bem.numeroPatrimonio
    && b.classificacao.Some? && b.valorAquisicao.Some?
    && UpdatedRow(row, b) == row
  }

  /** The row holding the asset's code holds what the import wrote for it. */
  ghost predicate Stored(t: Table, bem: Bem) {
    match FindNumero(t.rows, bem.numeroPatrimonio)
    case Some(j) => Holds(t.rows[j], bem)
    case None => false
  }

  /** Importing an asset that is already stored is a successful no-op. */
  lemma RewriteNoOp(t: Table, bem: Bem)
    requires Valid(t) && Stored(t, bem)
    ensures ImportStep(t, bem) == (t, None)
  {
    var j := FindNumero(t.rows, bem.numeroPatrimonio).value;
    var row := t.rows[j];
    var u := bem.(idBem := Some(row.id));
    var b := BindBem(bem);
    assert BindBem(u) == b;
    FindIdUnique(t, j);
    assert row.brCode == b.brCode by { assert UpdatedRow(row, b).brCode == b.brCode; }
    assert t.rows[j := UpdatedRow(row, b)] == t.rows;
  }

  /** A successful step stores its asset. */
  lemma StepStores(t: Table, bem: Bem)
    requires Valid(t) && ImportStep(t, bem).1.None?
    ensures Stored(ImportStep(t, bem).0, bem)
  {
    var t' := ImportStep(t, bem).0;
    ImportStepValid(t, bem);
    ImportStepUpsert(t, bem);
    match FindNumero(t.rows, bem.numeroPatrimonio)
    case Some(i) =>
      FindNumeroUnique(t', i);
    case None =>
      FindNumeroUnique(t', |t.rows|);
  }

  /** A step on another code leaves a stored asset stored. */
  lemma StepKeepsStored(t: Table, bem: Bem, other: Bem)
    requires Valid(t) && Stored(t, bem)
    requires other.numeroPatrimonio != bem.numeroPatrimonio
    ensures Stored(ImportStep(t, other).0, bem)
  {
    var t' := ImportStep(t, other).0;
    var j := FindNumero(t.rows, bem.numeroPatrimonio).value;
    ImportStepValid(t, other);
    if ImportStep(t, other).1.None? {
      match FindNumero(t.rows, other.numeroPatrimonio)
      case Some(i) =>
        var u := other.(idBem := Some(t.rows[i].id));
        UpdateFrame(t, u);
        assert i != j;
        assert t.rows[i].id != t.rows[j].id by {
          if i < j { assert t.rows[i].id < t.rows[j].id; } else { assert t.rows[j].id < t.rows[i].id; }
        }
        assert t'.rows[j] == t.rows[j];
      case None =>
        assert t'.rows[j] == t.rows[j];
    }
    FindNumeroUnique(t', j);
  }

  /** No code occurs twice in the batch. */
  predicate DistinctCodes(bens: seq<Bem>) {
    forall i, j :: 0 <= i < j < |bens| ==> bens[i].numeroPatrimonio != bens[j].numeroPatrimonio
  }

  /** After an import of distinct codes that reported no failure, every asset of the batch is stored. */
  lemma {:induction false} ImportStoresEach(t: Table, bens: seq<Bem>)
    requires Valid(t) && DistinctCodes(bens) && |ImportFold(t, bens).2| == 0
    ensures forall b :: b in bens ==> Stored(ImportFold(t, bens).0, b)
  {
    if bens != [] {
      var n := |bens| - 1;
      var front := bens[..n];
      CleanFoldLast(t, bens);
      FrontDistinct(bens);
      ImportStoresEach(t, front);
      StoresAfterFold(t, front, bens[n]);
      var t2 := ImportStep(ImportFold(t, front).0, bens[n]).0;
      forall b | b in bens ensures Stored(t2, b) {
        if b != bens[n] { InFront(bens, b); }
      }
    }
  }

  /** An import that reported no failure did so for the rows before the last, and the last step succeeded. */
  lemma CleanFoldLast(t: Table, bens: seq<Bem>)
    requires bens != [] && |ImportFold(t, bens).2| == 0
    ensures var t1 := ImportFold(t, bens[..|bens| - 1]).0;
      && |ImportFold(t, bens[..|bens| - 1]).2| == 0
      && ImportStep(t1, bens[|bens| - 1]).1.None?
      && ImportFold(t, bens).0 == ImportStep(t1, bens[|bens| - 1]).0
  {
  }

  /** An element of a sequence other than its last is in the part before the last. */
  lemma InFront(bens: seq<Bem>, b: Bem)
    requires b in bens && b != bens[|bens| - 1]
    ensures b in bens[..|bens| - 1]
  {
    var k :| 0 <= k < |bens| && bens[k] == b;
    assert bens[..|bens| - 1][k] == b;
  }

  /** The codes before the last are distinct and differ from the last one. */
  lemma FrontDistinct(bens: seq<Bem>)
    requires bens != [] && DistinctCodes(bens)
    ensures DistinctCodes(bens[..|bens| - 1])
    ensures forall b :: b in bens[..|bens| - 1] ==> b.numeroPatrimonio != bens[|bens| - 1].numeroPatrimonio
  {
    forall b | b in bens[..|bens| - 1] ensures b.numeroPatrimonio != bens[|bens| - 1].numeroPatrimonio {
      var k :| 0 <= k < |bens| - 1 && bens[..|bens| - 1][k] == b;
      assert b == bens[k];
    }
  }

  /** `StoresStep` on the table an import of `front` left. */
  lemma StoresAfterFold(t: Table, front: seq<Bem>, last: Bem)
    requires Valid(t)
    requires forall b :: b in front ==> Stored(ImportFold(t, front).0, b)
    requires forall b :: b in front ==> b.numeroPatrimonio != last.numeroPatrimonio
    requires ImportStep(ImportFold(t, front).0, last).1.None?
    ensures forall b :: b in front || b == last ==> Stored(ImportStep(ImportFold(t, front).0, last).0, b)
  {
    ImportValid(t, front);
    StoresStep(ImportFold(t, front).0, front, last);
  }

  /** A successful step on a new code stores its asset and keeps the earlier ones stored. */
  lemma StoresStep(t: Table, front: seq<Bem>, last: Bem)
    requires Valid(t)
    requires forall b :: b in front ==> Stored(t, b)
    requires forall b :: b in front ==> b.numeroPatrimonio != last.numeroPatrimonio
    requires ImportStep(t, last).1.None?
    ensures forall b :: b in front || b == last ==> Stored(ImportStep(t, last).0, b)
  {
    forall b | b in front || b == last
      ensures Stored(ImportStep(t, last).0, b)
    {
      if b == last {
        StepStores(t, last);
      } else {
        StepKeepsStored(t, b, last);
      }
    }
  }

  /** Importing assets that are all stored changes nothing and reports no failure. */
  lemma {:induction false} RefoldNoOp(t: Table, bens: seq<Bem>)
    requires Valid(t)
    requires forall k :: 0 <= k < |bens| ==> Stored(t, bens[k])
    ensures ImportFold(t, bens) == (t, |bens|, [])
  {
    if bens != [] {
      var n := |bens| - 1;
      RefoldNoOp(t, bens[..n]);
      RewriteNoOp(t, bens[n]);
    }
  }

  /**
   * Importing a batch of distinct codes twice: when the first import
   * reported no failure, the second one changes nothing and succeeds for
   * every row.
   */
  lemma ImportIdempotent(t: Table, bens: seq<Bem>)
    requires Valid(t) && DistinctCodes(bens)
    requires ImportBens(t, bens).1.success
    ensures var t1 := ImportBens(t, bens).0;
      ImportBens(t1, bens) == (t1, ImportResult(true, |bens|, 0, []))
  {
    ImportStoresEach(t, bens);
    var t1 := ImportFold(t, bens).0;
    assert forall k :: 0 <= k < |bens| ==> Stored(t1, bens[k]) by {
      forall k | 0 <= k < |bens| ensures Stored(t1, bens[k]) { assert bens[k] in bens; }
    }
    RefoldNoOp(t1, bens);
  }
}
