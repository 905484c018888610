// An earlier import screen (ImportacaoPage4.tsx): PDF headers repaired by
// literal replacements and checked against the PDF-to-model map, and rows
// turned into assets with each field falling back from its PDF label to
// its model key.

module Page4 {
  import opened Wrappers
  import opened Seqs
  import opened Text
  import opened Numbers
  import opened Models
  import opened ImportCommon
  import PdfText

  // ---------------------------------------------------------------------
  // Headers
  // ---------------------------------------------------------------------

  /** `PDF_TO_MODEL_MAP` in declaration order, the order `Object.keys` lists it. */
  const PdfToModelMap: seq<(string, string)> := [
    ("CÓD BEM", "numero_patrimonio"),
    ("CLASS", "classificacao"),
    ("DESCRIÇÃO DO BEM", "descricao_bem"),
    ("LOCALIZAÇÃO", "ambiente_nome"),
    ("AQUISIÇÃO CONS.", "data_aquisicao"),
    ("NOTA FIS", "nota_fiscal"),
    ("EMPENHO", "empenho_siafi"),
    ("VALOR", "valor_aquisicao")]

  /** `Object.keys(map)`. */
  function Keys(m: seq<(string, string)>): (r: seq<string>)
    ensures |r| == |m|
    ensures forall i :: 0 <= i < |r| ==> r[i] == m[i].0
  {
    if m == [] then [] else [m[0].0] + Keys(m[1..])
  }

  /** The map's labels are the eight headers every PDF reader requires, in the same order. */
  lemma MapKeysAreRequired()
    ensures Keys(PdfToModelMap) == RequiredHeaders
  {
  }

  /** `normalizeHeader`: three first-occurrence replacements, in order, then a trim. */
  function NormalizeHeader(header: string): string {
    var r1 := ReplaceFirst(header, "NOTA FISCONS.", "NOTA FIS");
    var r2 := ReplaceFirst(r1, "VALORLOCALIZAÇÃO", "VALOR LOCALIZAÇÃO");
    var r3 := ReplaceFirst(r2, "AQUISIÇÃO", "AQUISIÇÃO CONS.");
    Trim(r3)
  }

  /** A header with none of the three patterns and no surrounding whitespace is left as it is. */
  lemma NormalizeUntouched(header: string)
    requires !Contains(header, "NOTA FISCONS.") && !Contains(header, "VALORLOCALIZAÇÃO")
    requires !Contains(header, "AQUISIÇÃO")
    requires header == [] || (!IsSpace(header[0]) && !IsSpace(header[|header| - 1]))
    ensures NormalizeHeader(header) == header
  {
    ReplaceFirstSpec(header, "NOTA FISCONS.", "NOTA FIS");
    ReplaceFirstSpec(header, "VALORLOCALIZAÇÃO", "VALOR LOCALIZAÇÃO");
    ReplaceFirstSpec(header, "AQUISIÇÃO", "AQUISIÇÃO CONS.");
    TrimUnchanged(header);
  }

  /** The glued cells the replacements were written for come out repaired ("VALOR LOCALIZAÇÃO" stays one header). */
  lemma NormalizeRepairs()
    ensures NormalizeHeader("NOTA FISCONS.") == "NOTA FIS"
    ensures NormalizeHeader("VALORLOCALIZAÇÃO") == "VALOR LOCALIZAÇÃO"
    ensures NormalizeHeader("AQUISIÇÃO") == "AQUISIÇÃO CONS."
  {
    RepairNota("NOTA FISCONS.");
    RepairValor("VALORLOCALIZAÇÃO");
    RepairAquisicao("AQUISIÇÃO");
  }

  /**
   * One replacement step whose outcome is decided at a glance: the
   * pattern begins the text, or its first two characters never occur
   * together in the text.
   */
  predicate Step(s: string, pat: string, rep: string, r: string) {
    || (pat <= s && r == rep + s[|pat|..])
    || (|pat| >= 2 && r == s && forall i :: 0 <= i <= |s| - |pat| ==> s[i] != pat[0] || s[i + 1] != pat[1])
  }

  /** Such a step is what `ReplaceFirst` does. */
  lemma StepMeaning(s: string, pat: string, rep: string, r: string)
    requires Step(s, pat, rep, r)
    ensures ReplaceFirst(s, pat, rep) == r
  {
    if pat <= s && r == rep + s[|pat|..] {
      ReplaceFirstAtStart(s, pat, rep);
    } else {
      NotContainedPair(s, pat);
      ReplaceFirstSpec(s, pat, rep);
    }
  }

  /** `NormalizeHeader` through three such steps and a trim that finds nothing to remove. */
  lemma NormalizeSteps(h: string, r1: string, r2: string, r3: string)
    requires Step(h, "NOTA FISCONS.", "NOTA FIS", r1)
    requires Step(r1, "VALORLOCALIZAÇÃO", "VALOR LOCALIZAÇÃO", r2)
    requires Step(r2, "AQUISIÇÃO", "AQUISIÇÃO CONS.", r3)
    requires r3 == [] || (!IsSpace(r3[0]) && !IsSpace(r3[|r3| - 1]))
    ensures NormalizeHeader(h) == r3
  {
    StepMeaning(h, "NOTA FISCONS.", "NOTA FIS", r1);
    StepMeaning(r1, "VALORLOCALIZAÇÃO", "VALOR LOCALIZAÇÃO", r2);
    StepMeaning(r2, "AQUISIÇÃO", "AQUISIÇÃO CONS.", r3);
    TrimUnchanged(r3);
  }

  /** "NOTA FISCONS." loses the glued "CONS.". */
  lemma RepairNota(h: string)
    requires h == "NOTA FISCONS."
    ensures NormalizeHeader(h) == "NOTA FIS"
  {
    var r := "NOTA FIS";
    NormalizeSteps(h, r, r, r);
  }

  /** "VALORLOCALIZAÇÃO" gains the missing space. */
  lemma RepairValor(h: string)
    requires h == "VALORLOCALIZAÇÃO"
    ensures NormalizeHeader(h) == "VALOR LOCALIZAÇÃO"
  {
    var r := "VALOR LOCALIZAÇÃO";
    NormalizeSteps(h, h, r, r);
  }

  /** "AQUISIÇÃO" gains its " CONS.". */
  lemma RepairAquisicao(h: string)
    requires h == "AQUISIÇÃO"
    ensures NormalizeHeader(h) == "AQUISIÇÃO CONS."
  {
    var r := "AQUISIÇÃO CONS.";
    NormalizeSteps(h, h, h, r);
  }

  /**
   * The normalisation is not idempotent: a header that already reads
   * "AQUISIÇÃO CONS." gains a second " CONS.", so normalising the repaired
   * "AQUISIÇÃO" again changes it.
   */
  lemma NormalizeNotIdempotent()
    ensures NormalizeHeader("AQUISIÇÃO CONS.") == "AQUISIÇÃO CONS. CONS."
    ensures NormalizeHeader(NormalizeHeader("AQUISIÇÃO")) != NormalizeHeader("AQUISIÇÃO")
  {
    RepairAquisicao("AQUISIÇÃO");
    RepairTwice("AQUISIÇÃO CONS.");
  }

  /** The already repaired header gains a second " CONS.". */
  lemma RepairTwice(h: string)
    requires h == "AQUISIÇÃO CONS."
    ensures NormalizeHeader(h) == "AQUISIÇÃO CONS. CONS."
  {
    var r := "AQUISIÇÃO CONS. CONS.";
    assert "AQUISIÇÃO CONS." + h[9..] == r;
    NormalizeSteps(h, h, h, r);
  }

  /** The other seven required headers normalise to themselves. */
  lemma NormalizeKeepsOtherKeys()
    ensures forall i :: 0 <= i < |RequiredHeaders| && i != 4 ==> NormalizeHeader(RequiredHeaders[i]) == RequiredHeaders[i]
  {
    forall i | 0 <= i < |RequiredHeaders| && i != 4
      ensures NormalizeHeader(RequiredHeaders[i]) == RequiredHeaders[i]
    {
      KeepsKey(RequiredHeaders[i]);
    }
  }

  /** One of the seven required headers without a pattern in it. */
  lemma KeepsKey(h: string)
    requires h == "CÓD BEM" || h == "CLASS" || h == "DESCRIÇÃO DO BEM" || h == "LOCALIZAÇÃO"
      || h == "NOTA FIS" || h == "EMPENHO" || h == "VALOR"
    ensures NormalizeHeader(h) == h
  {
    Untouched(h);
  }

  /** `NormalizeUntouched` for a header whose pattern checks are decided by its first two characters. */
  lemma Untouched(h: string)
    requires h != [] && !IsSpace(h[0]) && !IsSpace(h[|h| - 1])
    requires forall i :: 0 <= i <= |h| - 13 ==> h[i] != 'N' || h[i + 1] != 'O'
    requires forall i :: 0 <= i <= |h| - 16 ==> h[i] != 'V' || h[i + 1] != 'A'
    requires forall i :: 0 <= i <= |h| - 9 ==> h[i] != 'A' || h[i + 1] != 'Q'
    ensures NormalizeHeader(h) == h
  {
    NotContainedPair(h, "NOTA FISCONS.");
    NotContainedPair(h, "VALORLOCALIZAÇÃO");
    NotContainedPair(h, "AQUISIÇÃO");
    NormalizeUntouched(h);
  }

  /** `validateHeaders`: one message per map key absent from the headers, in map order. */
  function ValidateHeaders(headers: seq<string>): (r: seq<string>)
    ensures |r| == |MissingHeaders(Keys(PdfToModelMap), headers)|
  {
    MissingMessages(MissingHeaders(Keys(PdfToModelMap), headers))
  }

  /** `missing.map(h => "Cabeçalho faltante: " + h)`. */
  function MissingMessages(missing: seq<string>): (r: seq<string>)
    ensures |r| == |missing|
    ensures forall i :: 0 <= i < |r| ==> r[i] == MissingHeaderMessage(missing[i])
  {
    if missing == [] then [] else [MissingHeaderMessage(missing[0])] + MissingMessages(missing[1..])
  }

  /** No message exactly when every required header is present; each message names a required header that is absent. */
  lemma ValidateHeadersMeaning(headers: seq<string>)
    ensures ValidateHeaders(headers) == [] <==> forall h :: h in RequiredHeaders ==> h in headers
    ensures var missing := MissingHeaders(Keys(PdfToModelMap), headers);
      forall i :: 0 <= i < |ValidateHeaders(headers)| ==>
        missing[i] in RequiredHeaders && missing[i] !in headers && ValidateHeaders(headers)[i] == MissingHeaderMessage(missing[i])
  {
    MapKeysAreRequired();
    var missing := MissingHeaders(RequiredHeaders, headers);
    MissingHeadersMeaning(RequiredHeaders, headers);
    forall i | 0 <= i < |missing|
      ensures missing[i] in RequiredHeaders && missing[i] !in headers
    {
      assert missing[i] in missing;
    }
  }

  /**
   * A PDF whose header cells read exactly the eight required names is
   * rejected, with a single message for "AQUISIÇÃO CONS.", because
   * normalising that name lengthens it.
   */
  lemma ExactHeadersRejected()
    ensures ValidateHeaders(Map(RequiredHeaders, NormalizeHeader)) == [MissingHeaderMessage("AQUISIÇÃO CONS.")]
  {
    var hs := Map(RequiredHeaders, NormalizeHeader);
    NormalizedRequired();
    MapKeysAreRequired();
    ExactMissing();
    assert MissingMessages(["AQUISIÇÃO CONS."]) == [MissingHeaderMessage("AQUISIÇÃO CONS.")];
  }

  /** The eight required names after normalisation: only "AQUISIÇÃO CONS." changes. */
  lemma NormalizedRequired()
    ensures Map(RequiredHeaders, NormalizeHeader) == RequiredHeaders[4 := "AQUISIÇÃO CONS. CONS."]
  {
    NormalizeKeepsOtherKeys();
    RepairTwice(RequiredHeaders[4]);
    CleanAllUpdate(RequiredHeaders, NormalizeHeader, 4, "AQUISIÇÃO CONS. CONS.");
  }

  /** Cleaning that changes only the cell at `k` is that one update. */
  lemma CleanAllUpdate(cells: seq<string>, clean: string -> string, k: nat, v: string)
    requires k < |cells| && clean(cells[k]) == v
    requires forall i :: 0 <= i < |cells| && i != k ==> clean(cells[i]) == cells[i]
    ensures Map(cells, clean) == cells[k := v]
  {
    var r := Map(cells, clean);
    var u := cells[k := v];
    forall i | 0 <= i < |r|
      ensures r[i] == u[i]
    {
      if i != k {
        assert u[i] == cells[i];
      }
    }
    assert |r| == |u|;
  }

  /** The only required name missing from the normalised list. */
  lemma ExactMissing()
    ensures MissingHeaders(RequiredHeaders, RequiredHeaders[4 := "AQUISIÇÃO CONS. CONS."]) == ["AQUISIÇÃO CONS."]
  {
    var r := RequiredHeaders;
    var hs := r[4 := "AQUISIÇÃO CONS. CONS."];
    forall i | 0 <= i < |hs| ensures hs[i] != r[4] {
      assert |hs[i]| != 15;
    }
    forall j | 0 <= j < |r| && j != 4 ensures r[j] in hs {
      assert hs[j] == r[j];
    }
    OnlyOneMissing(r, hs, 4);
  }

  /** When exactly the required name at `k` is absent, it is the only one reported. */
  lemma {:induction false} OnlyOneMissing(required: seq<string>, headers: seq<string>, k: nat)
    requires k < |required| && required[k] !in headers
    requires forall j :: 0 <= j < |required| && j != k ==> required[j] in headers
    ensures MissingHeaders(required, headers) == [required[k]]
  {
    if k == 0 {
      MissingHeadersMeaning(required[1..], headers);
      assert forall h :: h in required[1..] ==> h in headers;
    } else {
      OnlyOneMissing(required[1..], headers, k - 1);
    }
  }

  // ---------------------------------------------------------------------
  // Reading the file
  // ---------------------------------------------------------------------

  /** `headerErrors.map(msg => ({linha: 0, patrimonio: "", erros: [msg]}))`. */
  function MessageErrors(msgs: seq<string>): (r: seq<ImportError>)
    ensures |r| == |msgs|
    ensures forall i :: 0 <= i < |r| ==> r[i] == ImportError(0, "", [msgs[i]])
  {
    if msgs == [] then [] else [ImportError(0, "", [msgs[0]])] + MessageErrors(msgs[1..])
  }

  /** The header step of `processPdfFile`: errors when any message is produced, else the rows for the confirmation. */
  function HeaderCheck(headers: seq<string>, rows: seq<Row>): Outcome {
    var errs := ValidateHeaders(headers);
    if |errs| > 0 then Errors(MessageErrors(errs)) else Confirm(rows)
  }

  /** Building the messages first and wrapping them later gives the same outcome as the shared header check. */
  lemma HeaderCheckIsCommon(headers: seq<string>, rows: seq<Row>)
    ensures HeaderCheck(headers, rows) == CheckHeaders(RequiredHeaders, headers, rows)
  {
    MapKeysAreRequired();
    MessagesAreErrors(MissingHeaders(RequiredHeaders, headers));
  }

  /** Wrapping the messages one per error is the shared list of header errors. */
  lemma MessagesAreErrors(missing: seq<string>)
    ensures MessageErrors(MissingMessages(missing)) == HeaderErrors(missing)
  {
    var a := MessageErrors(MissingMessages(missing));
    var b := HeaderErrors(missing);
    assert |a| == |b|;
    assert forall i :: 0 <= i < |a| ==> a[i] == b[i];
  }

  /** `processPdfFile`: blank text throws at `lines[0]`; otherwise the normalised headers are checked. */
  function ProcessPdfFile(text: string): Outcome {
    var e := PdfText.Extracted(text, NormalizeHeader);
    if e.None? then Failed else HeaderCheck(e.value.0, e.value.1)
  }

  /** The file fails exactly when its text is blank. */
  lemma ProcessPdfFileFails(text: string)
    ensures ProcessPdfFile(text).Failed? <==> IsBlank(text)
  {
    PdfText.ExtractedFails(text, NormalizeHeader);
    var e := PdfText.Extracted(text, NormalizeHeader);
    if e.Some? {
      HeaderCheckIsCommon(e.value.0, e.value.1);
    }
  }

  // ---------------------------------------------------------------------
  // Row to asset
  // ---------------------------------------------------------------------

  /** `parseCurrency`: 0 for empty text; otherwise the cleaned text read as a float, with NaN and 0 both giving 0. */
  function ParseCurrency(value: string): JsNumber {
    if value == "" then Finite(0.0)
    else OrZero(ParseFloat(ReplaceFirst(KeepNumeric(value), ",", ".")))
  }

  /** This variant is the dot-keeping reader with NaN turned into 0, so it never yields NaN. */
  lemma ParseCurrencyAgrees(value: string)
    ensures ParseCurrency(value) == OrZero(ParseCurrencyKeepDots(value))
    ensures ParseCurrency(value) != NaN
  {
    ParseFloatNatToString(0);
    assert NatToString(0) == "0";
    if value == "" {
      assert KeepNumeric(value) == "";
      ReplaceFirstSpec("", ",", ".");
    } else {
      var cleaned := ReplaceFirst(KeepNumeric(value), ",", ".");
      if cleaned == "" {
        assert TrimStart("") == "";
        assert DecimalPrefix("") == None;
      }
    }
  }

  /** A whole number of reais reads back as itself. */
  lemma ParseCurrencyWhole(n: nat)
    ensures ParseCurrency(NatToString(n)) == Finite(n as real)
  {
    ParseCurrencyAgrees(NatToString(n));
    ParseCurrencyKeepDotsWhole(n, "");
  }

  /** `formatDate`: the text itself, or today when it is missing or empty. */
  function FormatDate(dateStr: Option<string>, today: string): string {
    OrText(dateStr, today)
  }

  /** `transformToBemModel`: the scan code follows the stored code, the condition is BOM, the value is never NaN, and the asset is unchecked with both ids 1. */
  function TransformToBem(row: Row, today: string): (b: Bem)
    ensures
      && b.brCode == (if b.numeroPatrimonio == "" then "PAT-SEM-CODIGO" else "PAT-" + b.numeroPatrimonio)
      && b.estadoConservacao == Some(BOM) && b.valorAquisicao != NaN
      && !b.conferido && b.idServidorResponsavel == Some(1) && b.idAmbienteAtual == Some(1)
  {
    var code := Or(Cell(row, "CÓD BEM"), Cell(row, "numero_patrimonio"));
    BrCodeMeaning(code);
    ParseCurrencyAgrees(OrText(Or(Cell(row, "VALOR"), Cell(row, "valor_aquisicao")), ""));
    Bem(
      idBem := None,
      classificacao := Or(Cell(row, "CLASS"), Cell(row, "classificacao")),
      numeroPatrimonio := OrText(code, ""),
      descricaoBem := OrText(Or(Cell(row, "DESCRIÇÃO DO BEM"), Cell(row, "descricao_bem")), ""),
      dataAquisicao := FormatDate(Or(Cell(row, "AQUISIÇÃO CONS."), Cell(row, "data_aquisicao")), today),
      valorAquisicao := ParseCurrency(OrText(Or(Cell(row, "VALOR"), Cell(row, "valor_aquisicao")), "")),
      empenhoSiafi := Some(OrText(Or(Cell(row, "EMPENHO"), Cell(row, "empenho_siafi")), "")),
      notaFiscal := Some(OrText(Or(Cell(row, "NOTA FIS"), Cell(row, "nota_fiscal")), "")),
      brCode := BrCode(code),
      estadoConservacao := Some(BOM),
      conferido := false,
      dataConferencia := None,
      idServidorResponsavel := Some(1),
      idAmbienteAtual := Some(1),
      ambienteNome := Some(OrText(Or(Cell(row, "LOCALIZAÇÃO"), Cell(row, "ambiente_nome")), "")))
  }

  /** The text field of an asset that a model key of the map names (the value field is a number and has none). */
  function Field(b: Bem, key: string): Option<string> {
    if key == "numero_patrimonio" then Some(b.numeroPatrimonio)
    else if key == "classificacao" then b.classificacao
    else if key == "descricao_bem" then Some(b.descricaoBem)
    else if key == "ambiente_nome" then b.ambienteNome
    else if key == "data_aquisicao" then Some(b.dataAquisicao)
    else if key == "nota_fiscal" then b.notaFiscal
    else if key == "empenho_siafi" then b.empenhoSiafi
    else None
  }

  /**
   * For every text column of the map, the asset's field is the PDF label's
   * cell when it has text, and otherwise the model key's cell when that has
   * text.
   */
  lemma TransformFallsBack(row: Row, today: string)
    ensures var b := TransformToBem(row, today);
      forall i :: 0 <= i < 7 ==>
        var pdf := PdfToModelMap[i].0;
        var key := PdfToModelMap[i].1;
        && (TruthyText(Cell(row, pdf)) ==> Field(b, key) == Cell(row, pdf))
        && (!TruthyText(Cell(row, pdf)) && TruthyText(Cell(row, key)) ==> Field(b, key) == Cell(row, key))
  {
  }

  /** Without either cell, a text field is empty, the class is whatever the model key held, and the date is today. */
  lemma TransformDefaults(row: Row, today: string)
    ensures var b := TransformToBem(row, today);
      && (!TruthyText(Cell(row, "CÓD BEM")) && !TruthyText(Cell(row, "numero_patrimonio")) ==> b.numeroPatrimonio == "")
      && (!TruthyText(Cell(row, "AQUISIÇÃO CONS.")) && !TruthyText(Cell(row, "data_aquisicao")) ==> b.dataAquisicao == today)
      && (!TruthyText(Cell(row, "VALOR")) && !TruthyText(Cell(row, "valor_aquisicao")) ==> b.valorAquisicao == Finite(0.0))
      && (!TruthyText(Cell(row, "CLASS")) ==> b.classificacao == Cell(row, "classificacao"))
  {
  }

}
