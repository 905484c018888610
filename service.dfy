/**
 * `DatabaseService` over an in-memory BEM table: the object holds the rows
 * and the AUTOINCREMENT counter, and the location tables the listings join
 * with. Each method is proved against the table functions of `Store` and
 * `Query`.
 */
module Service {
  import opened Wrappers
  import opened Seqs
  import opened Numbers
  import opened Models
  import opened Store
  import opened Query

  /** One condition of a WHERE clause, as `searchBens` and `getBensFiltrados` append them. */
  datatype Cond =
    | SearchLike(q: QueryKind, pattern: string)
    | ClassLike(pattern: string)
    | ClassEquals(value: string)
    | EstadoEquals(estado: Estado)
    | CampusEquals(campus: int)
    | BlocoEquals(bloco: int)
    | AmbienteEquals(ambiente: int)
    | ServidorEquals(servidor: int)

  /** Whether a listed row satisfies one condition. */
  predicate Holds(c: Cond, b: ListedBem) {
    match c
    case SearchLike(q, p) => SearchHit(q, p, b)
    case ClassLike(p) => Like(p, b.row.classificacao)
    case ClassEquals(v) => b.row.classificacao == v
    case EstadoEquals(e) => b.row.estadoConservacao == e
    case CampusEquals(id) => b.idCampus == Some(id)
    case BlocoEquals(id) => b.idBloco == Some(id)
    case AmbienteEquals(id) => b.row.idAmbienteAtual == Some(id)
    case ServidorEquals(id) => b.row.idServidorResponsavel == Some(id)
  }

  /** `WHERE 1=1 AND c1 AND c2 …`. */
  predicate AllHold(cs: seq<Cond>, b: ListedBem) {
    forall i :: 0 <= i < |cs| ==> Holds(cs[i], b)
  }

  /** The k-th filter of the WHERE clause, numbered in the order the source appends them. */
  predicate FilterHolds(q: QueryKind, f: Filtro, k: int, b: ListedBem) {
    if k == 1 then TruthyText(f.search) ==> SearchHit(q, "%" + f.search.value + "%", b)
    else if k == 2 then TruthyText(f.classificacao) ==> ClassHit(q, f.classificacao.value, b)
    else if k == 3 then f.estadoConservacao.Some? ==> b.row.estadoConservacao == f.estadoConservacao.value
    else if k == 4 then IdActive(f.idCampus) ==> b.idCampus == f.idCampus
    else if k == 5 then IdActive(f.idBloco) ==> b.idBloco == f.idBloco
    else if k == 6 then IdActive(f.idAmbiente) ==> b.row.idAmbienteAtual == f.idAmbiente
    else IdActive(f.idServidorResponsavel) ==> b.row.idServidorResponsavel == f.idServidorResponsavel
  }

  /** What the search filter appends: the `%search%` condition, when the text is set. */
  function SearchCond(q: QueryKind, f: Filtro): seq<Cond> {
    if TruthyText(f.search) then [SearchLike(q, "%" + f.search.value + "%")] else []
  }

  /** What the class filter appends: a prefix LIKE for `searchBens`, an equality for `getBensFiltrados`. */
  function ClassCond(q: QueryKind, f: Filtro): seq<Cond> {
    if !TruthyText(f.classificacao) then []
    else if q == SearchBens then [ClassLike(f.classificacao.value + "%")]
    else [ClassEquals(f.classificacao.value)]
  }

  function EstadoCond(f: Filtro): seq<Cond> {
    if f.estadoConservacao.Some? then [EstadoEquals(f.estadoConservacao.value)] else []
  }

  function CampusCond(f: Filtro): seq<Cond> {
    if IdActive(f.idCampus) then [CampusEquals(f.idCampus.value)] else []
  }

  function BlocoCond(f: Filtro): seq<Cond> {
    if IdActive(f.idBloco) then [BlocoEquals(f.idBloco.value)] else []
  }

  function AmbienteCond(f: Filtro): seq<Cond> {
    if IdActive(f.idAmbiente) then [AmbienteEquals(f.idAmbiente.value)] else []
  }

  function ServidorCond(f: Filtro): seq<Cond> {
    if IdActive(f.idServidorResponsavel) then [ServidorEquals(f.idServidorResponsavel.value)] else []
  }

  /** The condition list of the k-th filter, numbered in the order the source appends them. */
  function Added(q: QueryKind, f: Filtro, k: int): seq<Cond> {
    if k == 1 then SearchCond(q, f)
    else if k == 2 then ClassCond(q, f)
    else if k == 3 then EstadoCond(f)
    else if k == 4 then CampusCond(f)
    else if k == 5 then BlocoCond(f)
    else if k == 6 then AmbienteCond(f)
    else ServidorCond(f)
  }

  /** Each filter's appended condition holds exactly when that filter does. */
  lemma AddedMeaning(q: QueryKind, f: Filtro, k: int, b: ListedBem)
    requires 1 <= k <= 7
    ensures AllHold(Added(q, f, k), b) <==> FilterHolds(q, f, k, b)
  {
    var a := Added(q, f, k);
    if a != [] {
      assert AllHold(a, b) <==> Holds(a[0], b);
    }
  }

  /** A clause made of two parts holds exactly when both parts do. */
  lemma AllHoldConcat(x: seq<Cond>, y: seq<Cond>, b: ListedBem)
    ensures AllHold(x + y, b) <==> AllHold(x, b) && AllHold(y, b)
  {
    if AllHold(x + y, b) {
      forall i | 0 <= i < |x|
        ensures Holds(x[i], b)
      {
        assert (x + y)[i] == x[i];
      }
      forall i | 0 <= i < |y|
        ensures Holds(y[i], b)
      {
        assert (x + y)[|x| + i] == y[i];
      }
    }
  }

  /** The whole clause: the seven filters' conditions in the order they are appended. */
  function Clause(q: QueryKind, f: Filtro): seq<Cond> {
    SearchCond(q, f) + ClassCond(q, f) + EstadoCond(f) + CampusCond(f)
      + BlocoCond(f) + AmbienteCond(f) + ServidorCond(f)
  }

  /** The clause holds on a row exactly when every filter that is set does. */
  lemma ClauseMeaning(q: QueryKind, f: Filtro, b: ListedBem)
    ensures AllHold(Clause(q, f), b) <==> Matches(q, f, b)
  {
    var a1, a2, a3, a4 := Added(q, f, 1), Added(q, f, 2), Added(q, f, 3), Added(q, f, 4);
    var a5, a6, a7 := Added(q, f, 5), Added(q, f, 6), Added(q, f, 7);
    AllHoldConcat(a1, a2, b);
    AllHoldConcat(a1 + a2, a3, b);
    AllHoldConcat(a1 + a2 + a3, a4, b);
    AllHoldConcat(a1 + a2 + a3 + a4, a5, b);
    AllHoldConcat(a1 + a2 + a3 + a4 + a5, a6, b);
    AllHoldConcat(a1 + a2 + a3 + a4 + a5 + a6, a7, b);
    AddedMeaning(q, f, 1, b);
    AddedMeaning(q, f, 2, b);
    AddedMeaning(q, f, 3, b);
    AddedMeaning(q, f, 4, b);
    AddedMeaning(q, f, 5, b);
    AddedMeaning(q, f, 6, b);
    AddedMeaning(q, f, 7, b);
  }

  /**
   * The WHERE clause, appended one filter at a time in the order the source
   * does it: it holds on a row exactly when every filter that is set does.
   */
  method WhereClause(q: QueryKind, f: Filtro) returns (conds: seq<Cond>)
    ensures forall b :: AllHold(conds, b) <==> Matches(q, f, b)
  {
    conds := [];
    if TruthyText(f.search) {
      conds := conds + [SearchLike(q, "%" + f.search.value + "%")];
    }
    assert conds == SearchCond(q, f);
    if TruthyText(f.classificacao) {
      var c := match q
        case SearchBens => ClassLike(f.classificacao.value + "%")
        case BensFiltrados => ClassEquals(f.classificacao.value);
      conds := conds + [c];
    }
    assert conds == SearchCond(q, f) + ClassCond(q, f);
    conds := AppendIdConds(conds, f);
    ClauseMeaningAll(q, f);
  }

  lemma ClauseMeaningAll(q: QueryKind, f: Filtro)
    ensures forall b :: AllHold(Clause(q, f), b) <==> Matches(q, f, b)
  {
    forall b
      ensures AllHold(Clause(q, f), b) <==> Matches(q, f, b)
    {
      ClauseMeaning(q, f, b);
    }
  }

  /** The equality conditions on the state and the location and person ids, appended in the source's order. */
  method AppendIdConds(conds: seq<Cond>, f: Filtro) returns (r: seq<Cond>)
    ensures r == conds + EstadoCond(f) + CampusCond(f) + BlocoCond(f) + AmbienteCond(f) + ServidorCond(f)
  {
    r := conds;
    if f.estadoConservacao.Some? {
      r := r + [EstadoEquals(f.estadoConservacao.value)];
    }
    ghost var clause := conds + EstadoCond(f);
    assert r == clause;
    if IdActive(f.idCampus) {
      r := r + [CampusEquals(f.idCampus.value)];
    }
    clause := clause + CampusCond(f);
    assert r == clause;
    if IdActive(f.idBloco) {
      r := r + [BlocoEquals(f.idBloco.value)];
    }
    clause := clause + BlocoCond(f);
    assert r == clause;
    if IdActive(f.idAmbiente) {
      r := r + [AmbienteEquals(f.idAmbiente.value)];
    }
    clause := clause + AmbienteCond(f);
    assert r == clause;
    if IdActive(f.idServidorResponsavel) {
      r := r + [ServidorEquals(f.idServidorResponsavel.value)];
    }
  }

  /** The BEM table and the tables it joins with. */
  class BemDatabase {
    var rows: seq<BemRow>
    var nextId: nat
    const locs: Locations

    /** The table as a value. */
    function Snapshot(): Table
      reads this
    {
      Table(rows, nextId)
    }

    ghost predicate Valid()
      reads this
    {
      Store.Valid(Snapshot())
    }

    /** A new, empty table. */
    constructor(locations: Locations)
      ensures Valid() && rows == [] && nextId == 1 && locs == locations
    {
      rows := [];
      nextId := 1;
      locs := locations;
    }

    /**
     * `addBem`: the NOT NULL and UNIQUE checks, then the INSERT; the result is
     * the new row's id, or the violated constraint with the table unchanged.
     */
    method AddBem(bem: Bem) returns (r: Result<nat, DbError>)
      requires Valid()
      modifies this
      ensures Valid()
      ensures match Insert(old(Snapshot()), bem)
        case Success((t, id)) => r == Success(id) && Snapshot() == t
        case Failure(e) => r == Failure(e) && Snapshot() == old(Snapshot())
    {
      var b := BindBem(bem);
      var missing := NotNullViolation(b);
      if missing.Some? {
        return Failure(missing.value);
      }
      if FindNumero(rows, bem.numeroPatrimonio).Some? {
        return Failure(Unique("numero_patrimonio"));
      }
      if BrCodeClash(rows, b.brCode, -1) {
        return Failure(Unique("br_code"));
      }
      InsertValid(Snapshot(), bem);
      rows := rows + [NewRow(nextId, b)];
      r := Success(nextId);
      nextId := nextId + 1;
    }

    /**
     * `updateBem`: rewrites every column but the code of the row with the
     * given id; no such row, or no id, changes nothing and reports nothing.
     */
    method UpdateBem(bem: Bem) returns (r: Option<DbError>)
      requires Valid()
      modifies this
      ensures Valid()
      ensures match Update(old(Snapshot()), bem)
        case Success(t) => r.None? && Snapshot() == t
        case Failure(e) => r == Some(e) && Snapshot() == old(Snapshot())
    {
      if bem.idBem.None? {
        return None;
      }
      var found := FindId(rows, bem.idBem.value);
      if found.None? {
        return None;
      }
      var i := found.value;
      var b := BindBem(bem);
      var missing := NotNullViolation(b);
      if missing.Some? {
        return missing;
      }
      if BrCodeClash(rows, b.brCode, rows[i].id) {
        return Some(Unique("br_code"));
      }
      UpdateValid(Snapshot(), bem);
      rows := rows[i := UpdatedRow(rows[i], b)];
      r := None;
    }

    /** `getBemByPatrimonio`: the joined row holding the code, or null. */
    method GetBemByPatrimonio(numero: string) returns (r: Option<ListedBem>)
      requires Valid()
      ensures r.Some? <==> exists i :: 0 <= i < |rows| && rows[i].numeroPatrimonio == numero
      ensures r.Some? ==> r.value.row in rows && r.value.row.numeroPatrimonio == numero
      ensures r.Some? ==> r == Some(Joined(locs, rows[FindNumero(rows, numero).value]))
    {
      var i := 0;
      while i < |rows|
        invariant 0 <= i <= |rows|
        invariant forall k :: 0 <= k < i ==> rows[k].numeroPatrimonio != numero
      {
        if rows[i].numeroPatrimonio == numero {
          FindNumeroUnique(Snapshot(), i);
          return Some(Joined(locs, rows[i]));
        }
        i := i + 1;
      }
      return None;
    }

    /**
     * One pass of `importBens`'s loop: update the row holding the asset's code
     * (keeping that row's id) or insert the asset; a failure leaves the table.
     */
    method ImportOne(bem: Bem) returns (err: Option<DbError>)
      requires Valid()
      modifies this
      ensures Valid()
      ensures match Attempt(old(Snapshot()), bem)
        case Success(t) => err.None? && Snapshot() == t
        case Failure(e) => err == Some(e) && Snapshot() == old(Snapshot())
    {
      var existing := GetBemByPatrimonio(bem.numeroPatrimonio);
      if existing.Some? {
        err := UpdateBem(bem.(idBem := Some(existing.value.row.id)));
      } else {
        var added := AddBem(bem);
        err := if added.Failure? then Some(added.error) else None;
      }
    }

    /**
     * `importBens`: for each asset in order, update the row holding its code
     * (keeping that row's id) or insert it; a failure is recorded and the loop
     * goes on.
     */
    method ImportBens(bens: seq<Bem>) returns (r: ImportResult)
      requires Valid()
      modifies this
      ensures Valid()
      ensures (Snapshot(), r) == Store.ImportBens(old(Snapshot()), bens)
    {
      var imported, errorDetails := ImportLoop(bens);
      r := ImportResult(|errorDetails| == 0, imported, |errorDetails|, errorDetails);
      assert r == ResultOf(imported, errorDetails);
    }

    /** The loop of `importBens`: the write count and the failure details it gathers. */
    method ImportLoop(bens: seq<Bem>) returns (imported: nat, errorDetails: seq<ErrorDetail>)
      requires Valid()
      modifies this
      ensures Valid()
      ensures (Snapshot(), imported, errorDetails) == ImportFold(old(Snapshot()), bens)
    {
      ghost var t0 := Snapshot();
      imported := 0;
      errorDetails := [];
      var i := 0;
      while i < |bens|
        invariant 0 <= i <= |bens|
        invariant Valid()
        invariant (Snapshot(), imported, errorDetails) == ImportFold(t0, bens[..i])
      {
        var bem := bens[i];
        ghost var before := (Snapshot(), imported, errorDetails);
        var err := ImportOne(bem);
        if err.None? {
          imported := imported + 1;
        } else {
          errorDetails := errorDetails + [ErrorDetail(
            if bem.numeroPatrimonio != "" then bem.numeroPatrimonio else "N/A",
            OrText(Some(Message(err.value)), "Erro desconhecido"))];
        }
        StepAdvances(before, bem, err, Snapshot(), imported, errorDetails);
        FoldSnoc(t0, bens, i);
        i := i + 1;
      }
      assert bens[..i] == bens;
    }

    /** The joined rows satisfying the WHERE clause of `q`, in table order. */
    method SelectRows(q: QueryKind, f: Filtro) returns (matching: seq<ListedBem>)
      ensures matching == Select(rows, locs, q, f)
    {
      var conds := WhereClause(q, f);
      matching := [];
      var i := 0;
      while i < |rows|
        invariant 0 <= i <= |rows|
        invariant matching == Select(rows[..i], locs, q, f)
      {
        var b := Joined(locs, rows[i]);
        SelectRowsStep(i, q, f);
        if AllHold(conds, b) {
          matching := matching + [b];
        }
        i := i + 1;
      }
      assert rows[..i] == rows;
    }

    /** One step of `SelectRows`: row `i` is appended exactly when it matches. */
    lemma SelectRowsStep(i: int, q: QueryKind, f: Filtro)
      requires 0 <= i < |rows|
      ensures var b := Joined(locs, rows[i]);
        Select(rows[..i + 1], locs, q, f) == Select(rows[..i], locs, q, f) + if Matches(q, f, b) then [b] else []
    {
      assert rows[..i + 1][..i] == rows[..i];
      assert rows[..i + 1][i] == rows[i];
      SelectSnoc(rows[..i + 1], locs, q, f);
    }

    /** The loop state after one pass of `ImportBens` is the fold's next state. */
    static lemma StepAdvances(before: (Table, nat, seq<ErrorDetail>), bem: Bem, err: Option<DbError>,
                              t: Table, imported: nat, errorDetails: seq<ErrorDetail>)
      requires match Attempt(before.0, bem)
        case Success(t') => err.None? && t == t'
        case Failure(e) => err == Some(e) && t == before.0
      requires err.None? ==> imported == before.1 + 1 && errorDetails == before.2
      requires err.Some? ==> imported == before.1 && errorDetails == before.2 + [Detail(bem, err.value)]
      ensures (t, imported, errorDetails) == Advance(before, bem)
    {
    }

    /** `searchBens`: the page of matching rows in code order, the match count, and whether rows remain. */
    method SearchBens(f: Filtro, pg: Paginacao) returns (r: BensResult)
      ensures r == ListPage(rows, locs, Query.SearchBens, f, pg)
    {
      var offset := (pg.page - 1) * pg.pageSize;
      var matching := SelectRows(Query.SearchBens, f);
      var total := |matching|;
      var bens := Window(SortByNumero(matching), offset, pg.pageSize);
      r := BensResult(bens, total, offset + |bens| < total);
    }

    /** `getBensFiltrados`: as `searchBens`, with its own WHERE clause. */
    method GetBensFiltrados(f: Filtro, pg: Paginacao) returns (r: BensResult)
      ensures r == ListPage(rows, locs, BensFiltrados, f, pg)
    {
      var offset := (pg.page - 1) * pg.pageSize;
      var matching := SelectRows(BensFiltrados, f);
      var total := |matching|;
      var bens := Window(SortByNumero(matching), offset, pg.pageSize);
      r := BensResult(bens, total, offset + |bens| < total);
    }

    /** `getBens(offset, limit)`: the unfiltered listing. */
    method GetBens(offset: int, limit: int) returns (r: BensResult)
      ensures r == AllPage(rows, locs, offset, limit)
    {
      var all := JoinAll(rows, locs);
      var bens := Window(SortByNumero(all), offset, limit);
      r := BensResult(bens, |rows|, offset + |bens| < |rows|);
    }

    /** `getInventarioStats`: count, checked count, value sum and the rounded percentage. */
    method GetInventarioStats() returns (r: Stats)
      ensures r == InventarioStats(rows)
    {
      var conferidos := 0;
      var valorTotal := 0.0;
      var i := 0;
      while i < |rows|
        invariant 0 <= i <= |rows|
        invariant conferidos == CountConferidos(rows[..i])
        invariant valorTotal == SumValor(rows[..i])
      {
        assert rows[..i + 1][..i] == rows[..i];
        if rows[i].conferido == 1 {
          conferidos := conferidos + 1;
        }
        valorTotal := valorTotal + rows[i].valorAquisicao;
        i := i + 1;
      }
      assert rows[..i] == rows;
      var total := |rows|;
      var percentual := if total > 0 then RoundPercent(conferidos, total) else 0;
      r := Stats(total, if total == 0 then None else Some(conferidos), valorTotal, percentual);
    }
  }
}
