// An earlier import screen (ImportacaoPage2.tsx): PDF text and CSV files
// read into rows, and rows turned into assets. It accepts a second date
// format and keeps the code and the description as they were read.

module Page2 {
  import opened Wrappers
  import opened Text
  import opened Numbers
  import opened Models
  import opened ImportCommon

  // ---------------------------------------------------------------------
  // Dates
  // ---------------------------------------------------------------------

  /** `/^\d{8}$/`: eight digits, day, month and year run together. */
  predicate IsCompactDate(s: string) {
    |s| == 8 && AllDigits(s)
  }

  /** `` `${year}-${month}-${day}` `` from the slices of `DDMMYYYY`. */
  function CompactToIso(s: string): (t: string)
    requires IsCompactDate(s)
    ensures IsIsoDate(t)
  {
    s[4..8] + "-" + s[2..4] + "-" + s[0..2]
  }

  /** `parseDate`: "DD/MM/YYYY" and "DDMMYYYY" become "YYYY-MM-DD"; empty or other text becomes "". */
  function ParseDate(dateStr: string): string {
    if dateStr == "" then ""
    else if IsSlashDate(dateStr) then SlashToIso(dateStr)
    else if IsCompactDate(dateStr) then CompactToIso(dateStr)
    else ""
  }

  /** Exactly the two formats are recognised, and anything recognised becomes an ISO date. */
  lemma ParseDateMeaning(dateStr: string)
    ensures ParseDate(dateStr) != "" <==> IsSlashDate(dateStr) || IsCompactDate(dateStr)
    ensures ParseDate(dateStr) != "" ==> IsIsoDate(ParseDate(dateStr))
  {
  }

  /** The slash date written without its slashes. */
  function Compact(s: string): (c: string)
    requires IsSlashDate(s)
    ensures IsCompactDate(c)
  {
    s[0..2] + s[3..5] + s[6..10]
  }

  /** Both formats of the same day give the same ISO date, and that date turns back into the slash form. */
  lemma FormatsAgree(s: string)
    requires IsSlashDate(s)
    ensures ParseDate(Compact(s)) == ParseDate(s)
    ensures IsoToSlash(ParseDate(s)) == s
  {
    var c := Compact(s);
    assert c[4..8] == s[6..10] && c[2..4] == s[3..5] && c[0..2] == s[0..2];
    assert !IsSlashDate(c);
    SlashIsoRoundTrip(s, SlashToIso(s));
  }

  // ---------------------------------------------------------------------
  // Reading the file
  // ---------------------------------------------------------------------

  /**
   * The header map of the CSV reader. Every name maps to itself; the
   * lookup `headersMap[header.trim()] || header.trim()` falls back to the
   * trimmed header for names not in the map.
   */
  const HeadersMap: map<string, string> := map[
    "SEQ" := "SEQ", "CLASS" := "CLASS", "CÓD BEM" := "CÓD BEM",
    "DESCRIÇÃO DO BEM" := "DESCRIÇÃO DO BEM", "DATA AQU" := "DATA AQU",
    "DATA DES" := "DATA DES", "CONSERVAÇÃO" := "CONSERVAÇÃO",
    "NOTA FIS" := "NOTA FIS", "EMPENHO" := "EMPENHO", "VALOR" := "VALOR"]

  /** `transformHeader`. */
  function TransformHeader(header: string): string {
    var t := Trim(header);
    if t in HeadersMap && HeadersMap[t] != "" then HeadersMap[t] else t
  }

  /** Because every entry of the map is the identity, the header is only trimmed. */
  lemma TransformHeaderIsTrim(header: string)
    ensures TransformHeader(header) == Trim(header)
  {
    HeadersMapIdentity();
  }

  /** Every entry of the header map is the identity. */
  lemma HeadersMapIdentity()
    ensures forall k :: k in HeadersMap ==> HeadersMap[k] == k
  {
  }

  // ---------------------------------------------------------------------
  // Row to asset
  // ---------------------------------------------------------------------

  /**
   * The acquisition date: a date ending the description wins; otherwise a
   * non-empty "DATA AQU" in either format; an empty result becomes today.
   */
  function AcquisitionDate(row: Row, today: string): string {
    var descricao := OrText(Cell(row, "DESCRIÇÃO DO BEM"), "");
    var dateMatch := TrailingDate(descricao);
    var parsed :=
      if dateMatch.Some? then ParseDate(dateMatch.value)
      else if TruthyText(Cell(row, "DATA AQU")) then ParseDate(Cell(row, "DATA AQU").value)
      else "";
    if parsed != "" then parsed else today
  }

  /** Where the acquisition date comes from, case by case. */
  lemma AcquisitionDateMeaning(row: Row, today: string)
    ensures var m := TrailingDate(OrText(Cell(row, "DESCRIÇÃO DO BEM"), ""));
      var aqu := OrText(Cell(row, "DATA AQU"), "");
      var d := AcquisitionDate(row, today);
      && (m.Some? ==> d == SlashToIso(m.value))
      && (m.None? && IsSlashDate(aqu) ==> d == SlashToIso(aqu))
      && (m.None? && IsCompactDate(aqu) ==> d == CompactToIso(aqu))
      && (m.None? && !IsSlashDate(aqu) && !IsCompactDate(aqu) ==> d == today)
  {
    var m := TrailingDate(OrText(Cell(row, "DESCRIÇÃO DO BEM"), ""));
    if m.Some? {
      assert |m.value| == 10;
    }
  }

  /** A sample row whose "DATA AQU" is written without slashes. */
  lemma SampleCompactDate(row: Row, today: string)
    requires Cell(row, "DESCRIÇÃO DO BEM") == Some("MESA")
    requires Cell(row, "DATA AQU") == Some("04032008")
    ensures AcquisitionDate(row, today) == "2008-03-04"
  {
    var c := "04032008";
    assert IsCompactDate(c) && !IsSlashDate(c);
    assert c[4..8] == "2008" && c[2..4] == "03" && c[0..2] == "04";
  }

  /** `transformToBemModel`: the description is kept as read, the room is SALA_201ET, and the asset is unchecked with both ids 1. */
  function TransformToBem(row: Row, today: string): (b: Bem)
    ensures
      && b.descricaoBem == OrText(Cell(row, "DESCRIÇÃO DO BEM"), "")
      && b.ambienteNome == Some("SALA_201ET")
      && !b.conferido && b.idServidorResponsavel == Some(1) && b.idAmbienteAtual == Some(1)
  {
    var code := Cell(row, "CÓD BEM");
    Bem(
      idBem := None,
      classificacao := Some(OrText(Cell(row, "CLASS"), "")),
      numeroPatrimonio := OrText(code, ""),
      descricaoBem := OrText(Cell(row, "DESCRIÇÃO DO BEM"), ""),
      dataAquisicao := AcquisitionDate(row, today),
      valorAquisicao := ParseCurrencyKeepDots(OrText(Cell(row, "VALOR"), "0")),
      empenhoSiafi := Some(OrText(Cell(row, "EMPENHO"), "")),
      notaFiscal := Some(OrText(Cell(row, "NOTA FIS"), "")),
      brCode := BrCode(code),
      estadoConservacao := Some(DetermineEstado(Or(Cell(row, "CONSERVAÇÃO"), Cell(row, "ESTADO")))),
      conferido := false,
      dataConferencia := None,
      idServidorResponsavel := Some(1),
      idAmbienteAtual := Some(1),
      ambienteNome := Some("SALA_201ET"))
  }

  /**
   * The code is kept exactly as read, and the scan code is "PAT-" followed
   * by it; without a code both fall back.
   */
  lemma TransformCode(row: Row, today: string)
    ensures var b := TransformToBem(row, today);
      && (TruthyText(Cell(row, "CÓD BEM")) ==>
            b.numeroPatrimonio == Cell(row, "CÓD BEM").value && b.brCode == "PAT-" + b.numeroPatrimonio)
      && (!TruthyText(Cell(row, "CÓD BEM")) ==> b.numeroPatrimonio == "" && b.brCode == "PAT-SEM-CODIGO")
  {
    BrCodeMeaning(Cell(row, "CÓD BEM"));
  }

  /** The condition comes from "CONSERVAÇÃO" when it has text and from "ESTADO" otherwise, and is never RUIM. */
  lemma TransformEstado(row: Row, today: string)
    ensures var e := TransformToBem(row, today).estadoConservacao;
      && e.Some? && e.value != RUIM
      && (TruthyText(Cell(row, "CONSERVAÇÃO")) ==> e.value == DetermineEstado(Cell(row, "CONSERVAÇÃO")))
      && (!TruthyText(Cell(row, "CONSERVAÇÃO")) ==> e.value == DetermineEstado(Cell(row, "ESTADO")))
  {
  }

}
