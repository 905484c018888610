// The live import screen (ImportacaoPage6.tsx): reading a CSV file, turning
// its rows into assets, importing them and reloading the paged list.

module Page6 {
  import opened Wrappers
  import opened Seqs
  import opened Text
  import opened Models
  import opened ImportCommon
  import opened Query
  import Store
  import Service

  // ---------------------------------------------------------------------
  // Reading the file
  // ---------------------------------------------------------------------

  /**
   * `processCsvFile` once the text is parsed: a parse error drops the file
   * silently; otherwise the rows are kept for the confirmation.
   */
  function ProcessCsv(result: CsvResult): (o: Outcome)
    ensures o.Confirm? || o.Dropped?
    ensures o.Confirm? <==> result.errors == []
    ensures o.Confirm? ==> o.rows == result.data
  {
    if |result.errors| > 0 then Dropped else Confirm(result.data)
  }

  // ---------------------------------------------------------------------
  // Row to asset
  // ---------------------------------------------------------------------

  /** `parseDate`: a "DD/MM/YYYY" text becomes "YYYY-MM-DD"; anything else, or no text, becomes "". */
  function ParseDate(dateStr: Option<string>): string {
    if !TruthyText(dateStr) then ""
    else if IsSlashDate(dateStr.value) then SlashToIso(dateStr.value)
    else ""
  }

  /** Exactly the slash dates are recognised, and the result keeps their digits. */
  lemma ParseDateMeaning(dateStr: Option<string>)
    ensures ParseDate(dateStr) != "" <==> dateStr.Some? && IsSlashDate(dateStr.value)
    ensures ParseDate(dateStr) != "" ==> IsIsoDate(ParseDate(dateStr)) && IsoToSlash(ParseDate(dateStr)) == dateStr.value
  {
    if dateStr.Some? && IsSlashDate(dateStr.value) {
      var t := SlashToIso(dateStr.value);
      SlashIsoRoundTrip(dateStr.value, t);
    }
  }

  /** The acquisition date: a date ending the description wins over "DATA AQU"; an empty result becomes today. */
  function AcquisitionDate(row: Row, today: string): string {
    var descricao := OrText(Cell(row, "DESCRIÇÃO DO BEM"), "");
    var dateMatch := TrailingDate(descricao);
    var parsed := if dateMatch.Some? then ParseDate(dateMatch) else ParseDate(Cell(row, "DATA AQU"));
    if parsed != "" then parsed else today
  }

  /** Where the acquisition date comes from, case by case. */
  lemma AcquisitionDateMeaning(row: Row, today: string)
    ensures var descricao := OrText(Cell(row, "DESCRIÇÃO DO BEM"), "");
      var d := AcquisitionDate(row, today);
      && (TrailingDate(descricao).Some? ==> d == SlashToIso(TrailingDate(descricao).value))
      && (TrailingDate(descricao).None? && Cell(row, "DATA AQU").Some? && IsSlashDate(Cell(row, "DATA AQU").value) ==>
            d == SlashToIso(Cell(row, "DATA AQU").value))
      && (TrailingDate(descricao).None? && !(Cell(row, "DATA AQU").Some? && IsSlashDate(Cell(row, "DATA AQU").value)) ==>
            d == today)
  {
    var descricao := OrText(Cell(row, "DESCRIÇÃO DO BEM"), "");
    var m := TrailingDate(descricao);
    if m.Some? {
      assert |m.value| == 10;
      assert TruthyText(m);
    } else {
      ParseDateMeaning(Cell(row, "DATA AQU"));
    }
  }

  /** The first sample row: the description ends in "C04/03/2008", so the date is "2008-03-04". */
  lemma SampleDateFromDescription(row: Row, prefix: string, today: string)
    requires Cell(row, "DESCRIÇÃO DO BEM") == Some(prefix + "C04/03/2008")
    ensures AcquisitionDate(row, today) == "2008-03-04"
  {
    var date := "04/03/2008";
    TrailingDateMeaning(prefix + "C", date);
    assert prefix + "C" + date == prefix + "C04/03/2008";
    assert IsSlashDate(date);
    assert date[6..10] == "2008" && date[3..5] == "03" && date[0..2] == "04";
    assert ParseDate(Some(date)) == "2008-03-04";
  }

  /** The second sample row: " 4/03/2008" is not a date and "DATA AQU" is empty, so the date is today. */
  lemma SampleDateFallsBack(row: Row, prefix: string, today: string)
    requires Cell(row, "DESCRIÇÃO DO BEM") == Some(prefix + " 4/03/2008")
    requires Cell(row, "DATA AQU") == Some("")
    ensures AcquisitionDate(row, today) == today
  {
    TrailingDateMeaning(prefix, " 4/03/2008");
  }

  /** `transformToBemModel`: the condition is never RUIM, and the asset is unchecked with both ids 1. */
  function TransformToBem(row: Row, today: string): (b: Bem)
    ensures
      && b.estadoConservacao.Some? && b.estadoConservacao.value != RUIM
      && !b.conferido && b.idServidorResponsavel == Some(1) && b.idAmbienteAtual == Some(1)
  {
    var descricao := OrText(Cell(row, "DESCRIÇÃO DO BEM"), "");
    var code := Cell(row, "CÓD BEM");
    Bem(
      idBem := None,
      classificacao := Some(OrText(Cell(row, "CLASS"), "")),
      numeroPatrimonio := if code.Some? then Trim(code.value) else "",
      descricaoBem := Trim(descricao),
      dataAquisicao := AcquisitionDate(row, today),
      valorAquisicao := ParseCurrencyKeepDots(OrText(Cell(row, "VALOR"), "0")),
      empenhoSiafi := Some(OrText(Cell(row, "EMPENHO"), "")),
      notaFiscal := Some(OrText(Cell(row, "NOTA FIS"), "")),
      brCode := BrCode(code),
      estadoConservacao := Some(DetermineEstado(Cell(row, "CONSERVAÇÃO"))),
      conferido := false,
      dataConferencia := None,
      idServidorResponsavel := Some(1),
      idAmbienteAtual := Some(1),
      ambienteNome := Some("INDEFINIDO"))
  }

  /**
   * The code of the asset made from a row with a code is the row's code
   * trimmed, so it is not empty and carries no surrounding whitespace, while
   * its scan code is "PAT-" followed by the untrimmed code.
   */
  lemma TransformCode(row: Row, today: string)
    requires HasCode(row)
    ensures var b := TransformToBem(row, today);
      && b.numeroPatrimonio == Trim(Cell(row, "CÓD BEM").value)
      && Trim(b.numeroPatrimonio) == b.numeroPatrimonio && b.numeroPatrimonio != ""
      && b.brCode == "PAT-" + Cell(row, "CÓD BEM").value
  {
    TrimIdempotent(Cell(row, "CÓD BEM").value);
  }

  /** The description is the row's description trimmed ("" when the cell is missing or empty), so it is stored trimmed. */
  lemma TransformDescricao(row: Row, today: string)
    ensures TransformToBem(row, today).descricaoBem == Trim(OrText(Cell(row, "DESCRIÇÃO DO BEM"), ""))
    ensures Trim(TransformToBem(row, today).descricaoBem) == TransformToBem(row, today).descricaoBem
  {
    TrimIdempotent(OrText(Cell(row, "DESCRIÇÃO DO BEM"), ""));
  }

  // ---------------------------------------------------------------------
  // The rows that are imported
  // ---------------------------------------------------------------------

  /** The `validRows` test: "CÓD BEM" is present and not only whitespace. */
  predicate HasCode(row: Row) {
    TruthyText(Cell(row, "CÓD BEM")) && Trim(Cell(row, "CÓD BEM").value) != ""
  }

  /** `parsedRows.filter(...)`. */
  function ValidRows(rows: seq<Row>): seq<Row> {
    Filter(rows, HasCode)
  }

  /** A row is kept exactly when it has a code, so the filter keeps every row exactly when all have one. */
  lemma ValidRowsMembers(rows: seq<Row>)
    ensures forall row :: row in ValidRows(rows) <==> row in rows && HasCode(row)
    ensures ValidRows(rows) == rows <==> forall row :: row in rows ==> HasCode(row)
  {
    FilterMembers(rows, HasCode);
    FilterAll(rows, HasCode);
  }

  /**
   * The rows with a code are kept in their order and as often as they
   * occur, and the rows dropped are exactly those without a code.
   */
  lemma ValidRowsOrder(rows: seq<Row>)
    ensures Subsequence(ValidRows(rows), rows)
    ensures forall row :: multiset(ValidRows(rows))[row] == if HasCode(row) then multiset(rows)[row] else 0
    ensures |ValidRows(rows)| + |Filter(rows, Not(HasCode))| == |rows|
  {
    FilterSubsequence(rows, HasCode);
    FilterMultiset(rows, HasCode);
    FilterSplit(rows, HasCode);
  }

  /** A row whose code is missing or only whitespace is never imported. */
  lemma BlankCodeSkipped(rows: seq<Row>, row: Row)
    requires row in rows
    requires Cell(row, "CÓD BEM").None? || IsBlank(Cell(row, "CÓD BEM").value)
    ensures row !in ValidRows(rows)
  {
    ValidRowsMembers(rows);
    if Cell(row, "CÓD BEM").Some? {
      TrimEmptyIffBlank(Cell(row, "CÓD BEM").value);
    }
  }

  /** `validRows.map(transformToBemModel)`. */
  function TransformAll(rows: seq<Row>, today: string): (r: seq<Bem>)
    ensures |r| == |rows|
    ensures forall i :: 0 <= i < |r| ==> r[i] == TransformToBem(rows[i], today)
  {
    Map(rows, ToBem(today))
  }

  /** `transformToBemModel` with today's date fixed, as the `map` callback. */
  function ToBem(today: string): Row -> Bem {
    row => TransformToBem(row, today)
  }

  /**
   * The assets handed to the store are those of the rows with a code, one
   * each and in row order; each carries its row's code trimmed, which is
   * non-empty and has no surrounding whitespace.
   */
  lemma ImportedCodes(parsedRows: seq<Row>, today: string)
    ensures var valid := ValidRows(parsedRows);
      var bens := TransformAll(valid, today);
      && |bens| == |valid|
      && forall i :: 0 <= i < |bens| ==>
        && bens[i] == TransformToBem(valid[i], today)
        && HasCode(valid[i])
        && bens[i].numeroPatrimonio == Trim(Cell(valid[i], "CÓD BEM").value)
        && bens[i].numeroPatrimonio != "" && Trim(bens[i].numeroPatrimonio) == bens[i].numeroPatrimonio
  {
    var valid := ValidRows(parsedRows);
    forall i | 0 <= i < |valid|
      ensures var b := TransformToBem(valid[i], today);
        b.numeroPatrimonio == Trim(Cell(valid[i], "CÓD BEM").value) && b.numeroPatrimonio != "" && Trim(b.numeroPatrimonio) == b.numeroPatrimonio
    {
      assert valid[i] in valid;
      TransformCode(valid[i], today);
    }
  }

  // ---------------------------------------------------------------------
  // The paged list
  // ---------------------------------------------------------------------

  /** The `bensResult` state and the current page. */
  datatype ListState = ListState(bens: seq<ListedBem>, total: int, hasMore: bool, page: int)

  /**
   * `carregarBens(page, ...)` once the query has answered (`Some`) or thrown
   * (`None`): page 1 replaces the list, a later page appends to it, and an
   * error empties it without moving the page.
   */
  function AfterLoad(s: ListState, page: int, outcome: Option<BensResult>): ListState {
    match outcome
    case None => ListState([], 0, false, s.page)
    case Some(res) =>
      if page == 1 then ListState(res.bens, res.total, res.hasMore, page)
      else ListState(s.bens + res.bens, res.total, res.hasMore, page)
  }

  /** The state after loading pages 1 to k of the same ordered listing, in order. */
  function Scrolled(sorted: seq<ListedBem>, pageSize: int, s: ListState, k: nat): (r: ListState)
    requires k >= 1
    ensures r.page == k && r.total == |sorted|
  {
    var res := PageOf(sorted, Paginacao(k, pageSize));
    if k == 1 then AfterLoad(s, 1, Some(res))
    else AfterLoad(Scrolled(sorted, pageSize, s, k - 1), k, Some(res))
  }

  /** Loading page k ≥ 2 after the first k - 1 pages of size p extends the list to the first k·p rows. */
  lemma NextPage(sorted: seq<ListedBem>, p: nat, s: ListState, k: nat)
    requires k >= 2 && s.bens == Window(sorted, 0, (k - 1) * p)
    ensures AfterLoad(s, k, Some(PageOf(sorted, Paginacao(k, p)))).bens == Window(sorted, 0, k * p)
  {
    var m := (k - 1) * p;
    assert m + p == k * p;
    assert Offset(Paginacao(k, p)) == m;
    WindowConsecutive(sorted, 0, m, p);
  }

  /**
   * Scrolling through k pages of size p shows exactly the first k·p rows of
   * the listing.
   */
  lemma {:induction false} ScrolledPrefix(sorted: seq<ListedBem>, p: nat, s: ListState, k: nat)
    requires k >= 1
    ensures Scrolled(sorted, p, s, k).bens == Window(sorted, 0, k * p)
  {
    if k == 1 {
      assert Offset(Paginacao(1, p)) == 0 && 1 * p == p;
    } else {
      ScrolledPrefix(sorted, p, s, k - 1);
      NextPage(sorted, p, Scrolled(sorted, p, s, k - 1), k);
    }
  }

  /** The list shown by the screen. */
  class BensList {
    var bens: seq<ListedBem>
    var total: int
    var hasMore: bool
    var page: int
    const pageSize: int

    function State(): ListState
      reads this
    {
      ListState(bens, total, hasMore, page)
    }

    /** The initial state: nothing listed, page 1 of `ITENS_POR_PAGINA` (20) rows. */
    constructor()
      ensures State() == ListState([], 0, false, 1) && pageSize == 20
    {
      bens := [];
      total := 0;
      hasMore := false;
      page := 1;
      pageSize := 20;
    }

    /**
     * `carregarBens(page, ...)` once `getBensFiltrados` has answered with a
     * result (`Some`) or thrown (`None`): replace or append, then move to the page.
     */
    method CarregarBens(p: int, outcome: Option<BensResult>)
      modifies this
      ensures State() == AfterLoad(old(State()), p, outcome)
    {
      if outcome.None? {
        bens, total, hasMore := [], 0, false;
        return;
      }
      var resultado := outcome.value;
      if p == 1 {
        bens, total, hasMore := resultado.bens, resultado.total, resultado.hasMore;
      } else {
        bens, total, hasMore := bens + resultado.bens, resultado.total, resultado.hasMore;
      }
      page := p;
    }
  }

  /**
   * `startImport`: the rows without a code are skipped, the rest become
   * assets, the store is called only when there is at least one, and the list
   * is reloaded from page 1 without filters. The success count is the number
   * of assets sent, whatever the store reports.
   */
  method StartImport(db: Service.BemDatabase, list: BensList, parsedRows: seq<Row>, today: string, reloadFails: bool)
    returns (skipped: nat, success: nat)
    requires db.Valid()
    modifies db, list
    ensures db.Valid()
    ensures skipped == |parsedRows| - |ValidRows(parsedRows)| == |Filter(parsedRows, Not(HasCode))|
    ensures success == |ValidRows(parsedRows)|
    ensures var bens := TransformAll(ValidRows(parsedRows), today);
      db.Snapshot() == (if bens == [] then old(db.Snapshot()) else Store.ImportBens(old(db.Snapshot()), bens).0)
    ensures list.State() == AfterLoad(old(list.State()), 1,
      if reloadFails then None else Some(ListPage(db.rows, db.locs, BensFiltrados, NoFilter, Paginacao(1, list.pageSize))))
  {
    skipped, success := ImportRows(db, parsedRows, today);
    ReloadFirstPage(db, list, reloadFails);
  }

  /** The first half of `startImport`: skip the rows without a code and send the rest, if any, to the store. */
  method ImportRows(db: Service.BemDatabase, parsedRows: seq<Row>, today: string) returns (skipped: nat, success: nat)
    requires db.Valid()
    modifies db
    ensures db.Valid()
    ensures skipped == |parsedRows| - |ValidRows(parsedRows)| == |Filter(parsedRows, Not(HasCode))|
    ensures success == |ValidRows(parsedRows)|
    ensures var bens := TransformAll(ValidRows(parsedRows), today);
      db.Snapshot() == (if bens == [] then old(db.Snapshot()) else Store.ImportBens(old(db.Snapshot()), bens).0)
  {
    FilterSplit(parsedRows, HasCode);
    var validRows := ValidRows(parsedRows);
    skipped := |parsedRows| - |validRows|;
    var bens := TransformAll(validRows, today);
    if |bens| > 0 {
      var _ := db.ImportBens(bens);
    }
    success := |bens|;
  }

  /** The second half of `startImport`: reload page 1 of the list without filters. */
  method ReloadFirstPage(db: Service.BemDatabase, list: BensList, reloadFails: bool)
    modifies list
    ensures list.State() == AfterLoad(old(list.State()), 1,
      if reloadFails then None else Some(ListPage(db.rows, db.locs, BensFiltrados, NoFilter, Paginacao(1, list.pageSize))))
  {
    var outcome: Option<BensResult> := None;
    if !reloadFails {
      var resultado := db.GetBensFiltrados(NoFilter, Paginacao(1, list.pageSize));
      outcome := Some(resultado);
    }
    list.CarregarBens(1, outcome);
  }
}
