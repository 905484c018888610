// An earlier import screen (ImportacaoPage3.tsx): PDF headers compared
// after accents are stripped and letters upper-cased, currency read with
// the thousands dots removed, and row cells looked up under the unaccented
// and then the accented names.

module Page3 {
  import opened Wrappers
  import opened Seqs
  import opened Text
  import opened Numbers
  import opened Models
  import opened ImportCommon
  import PdfText

  // ---------------------------------------------------------------------
  // Header normalisation
  // ---------------------------------------------------------------------

  /** `normalizeHeader`: canonical decomposition, combining marks removed, then upper case. */
  function NormalizeHeader(h: string): string {
    Upper(StripAccents(h))
  }

  /** A character that accent stripping leaves as it is. */
  predicate Plain(c: char) {
    !IsCombiningMark(c) && BaseLetter(c) == c
  }

  /** A character that upper-casing leaves as it is. */
  predicate Capital(c: char) {
    UpperChar(c) == c && c != '\U{00DF}'
  }

  lemma BaseLetterPlain(c: char)
    requires !IsCombiningMark(c)
    ensures Plain(BaseLetter(c))
  {
  }

  lemma UpperCharKeeps(c: char)
    requires c != '\U{00DF}'
    ensures Capital(UpperChar(c))
    ensures Plain(c) ==> Plain(UpperChar(c))
  {
  }

  /** Accent stripping leaves only plain characters. */
  lemma {:induction false} StripAccentsPlain(s: string)
    ensures forall i :: 0 <= i < |StripAccents(s)| ==> Plain(StripAccents(s)[i])
  {
    if s != [] {
      StripAccentsPlain(s[1..]);
      if !IsCombiningMark(s[0]) {
        BaseLetterPlain(s[0]);
      }
    }
  }

  /** Plain text has nothing to strip. */
  lemma {:induction false} StripAccentsOfPlain(s: string)
    requires forall i :: 0 <= i < |s| ==> Plain(s[i])
    ensures StripAccents(s) == s
  {
    if s != [] {
      StripAccentsOfPlain(s[1..]);
      assert s == [s[0]] + s[1..];
    }
  }

  /** Upper-casing gives capitals only, and keeps plain text plain. */
  lemma {:induction false} UpperCapital(s: string)
    ensures forall i :: 0 <= i < |Upper(s)| ==> Capital(Upper(s)[i])
    ensures (forall i :: 0 <= i < |s| ==> Plain(s[i])) ==> forall i :: 0 <= i < |Upper(s)| ==> Plain(Upper(s)[i])
  {
    if s != [] {
      UpperCapital(s[1..]);
      assert forall i :: 0 <= i < |s[1..]| ==> s[1..][i] == s[i + 1];
      if s[0] != '\U{00DF}' {
        UpperCharKeeps(s[0]);
      }
    }
  }

  /** Text made of capitals is its own upper case. */
  lemma {:induction false} UpperOfCapital(s: string)
    requires forall i :: 0 <= i < |s| ==> Capital(s[i])
    ensures Upper(s) == s
  {
    if s != [] {
      UpperOfCapital(s[1..]);
      assert s == [s[0]] + s[1..];
    }
  }

  /**
   * The result has no combining marks and no small letters, and
   * normalising it again changes nothing.
   */
  lemma NormalizeIdempotent(h: string)
    ensures forall i :: 0 <= i < |NormalizeHeader(h)| ==> Plain(NormalizeHeader(h)[i]) && Capital(NormalizeHeader(h)[i])
    ensures NormalizeHeader(NormalizeHeader(h)) == NormalizeHeader(h)
  {
    var n := NormalizeHeader(h);
    StripAccentsPlain(h);
    UpperCapital(StripAccents(h));
    StripAccentsOfPlain(n);
    UpperOfCapital(n);
  }

  /** `t` is `s` with each character stripped of its accent and upper-cased, one for one. */
  predicate CharsNormalizeTo(s: string, t: string) {
    && |s| == |t|
    && forall i :: 0 <= i < |s| ==>
         !IsCombiningMark(s[i]) && s[i] != '\U{00DF}' && UpperChar(BaseLetter(s[i])) == t[i]
  }

  /** Such a character-by-character match is what the normalisation computes. */
  lemma {:induction false} NormalizeTo(s: string, t: string)
    requires CharsNormalizeTo(s, t)
    ensures NormalizeHeader(s) == t
  {
    if s != [] {
      assert CharsNormalizeTo(s[1..], t[1..]) by {
        assert forall i :: 0 <= i < |s[1..]| ==> s[1..][i] == s[i + 1] && t[1..][i] == t[i + 1];
      }
      NormalizeTo(s[1..], t[1..]);
      var x := StripAccents(s);
      assert x == [BaseLetter(s[0])] + StripAccents(s[1..]);
      assert x[0] == BaseLetter(s[0]) && x[1..] == StripAccents(s[1..]);
      assert t == [t[0]] + t[1..];
    }
  }

  /** Accented names normalise to the unaccented capitals. */
  lemma NormalizeSamples(a: string, b: string)
    requires a == "CÓD BEM" && b == "DESCRIÇÃO DO BEM"
    ensures NormalizeHeader(a) == "COD BEM"
    ensures NormalizeHeader(b) == "DESCRICAO DO BEM"
  {
    SampleCod();
    SampleDescricao();
    NormalizeTo(a, "COD BEM");
    NormalizeTo(b, "DESCRICAO DO BEM");
  }

  lemma SampleCod()
    ensures CharsNormalizeTo("CÓD BEM", "COD BEM")
  {
  }

  lemma SampleDescricao()
    ensures CharsNormalizeTo("DESCRIÇÃO DO BEM", "DESCRICAO DO BEM")
  {
  }

  // ---------------------------------------------------------------------
  // Reading the file
  // ---------------------------------------------------------------------

  /** The unaccented header names this screen requires. */
  const RequiredHeaders3: seq<string> :=
    ["COD BEM", "CLASS", "DESCRICAO DO BEM", "LOCALIZACAO", "AQUISICAO CONS.", "NOTA FIS", "EMPENHO", "VALOR"]

  /**
   * `processPdfFile`: blank text throws at `lines[0]`; otherwise the
   * normalised headers must hold every required name. The rows stay keyed
   * by the trimmed headers as read.
   */
  function ProcessPdfFile(text: string): Outcome {
    var e := PdfText.Extracted(text, Trim);
    if e.None? then Failed
    else CheckHeaders(RequiredHeaders3, Map(e.value.0, NormalizeHeader), e.value.1)
  }

  /**
   * The file fails exactly when its text is blank; otherwise it is
   * confirmed exactly when every required name is the normalised form of
   * some header, and then with the extracted rows.
   */
  lemma ProcessPdfFileMeaning(text: string)
    ensures ProcessPdfFile(text).Failed? <==> IsBlank(text)
    ensures !IsBlank(text) ==>
      var e := PdfText.Extracted(text, Trim).value;
      && (ProcessPdfFile(text).Confirm? <==>
            forall h :: h in RequiredHeaders3 ==> exists j :: 0 <= j < |e.0| && NormalizeHeader(e.0[j]) == h)
      && (ProcessPdfFile(text).Confirm? ==> ProcessPdfFile(text).rows == e.1)
  {
    PdfText.ExtractedFails(text, Trim);
    if !IsBlank(text) {
      var e := PdfText.Extracted(text, Trim).value;
      NormalizedCheck(RequiredHeaders3, e.0, e.1);
    }
  }

  /** The required-header check on normalised headers, in terms of the headers as read. */
  lemma NormalizedCheck(required: seq<string>, headers: seq<string>, rows: seq<Row>)
    ensures var o := CheckHeaders(required, Map(headers, NormalizeHeader), rows);
      && (o.Confirm? <==> forall h :: h in required ==> exists j :: 0 <= j < |headers| && NormalizeHeader(headers[j]) == h)
      && (o.Confirm? ==> o.rows == rows)
  {
    CheckHeadersMeaning(required, Map(headers, NormalizeHeader), rows);
    PdfText.CleanAllMembers(headers, NormalizeHeader);
  }

  // ---------------------------------------------------------------------
  // Row to asset
  // ---------------------------------------------------------------------

  /** `value.replace(/\./g, "").replace(",", ".")`: thousands dots dropped, the decimal comma made a point. */
  function CleanCurrency(value: string): string {
    ReplaceFirst(RemoveAll(value, '.'), ",", ".")
  }

  /** `parseCurrency`: 0 for empty text; otherwise the cleaned text read as a float, with NaN and 0 both giving 0. */
  function ParseCurrency(value: string): JsNumber {
    if value == "" then Finite(0.0) else OrZero(ParseFloat(CleanCurrency(value)))
  }

  /**
   * The cleaned text has at most one point, and none unless the text had a
   * comma; the result is never NaN, and a text that does not read as a
   * number gives 0.
   */
  lemma CleanCurrencyOnePoint(value: string)
    ensures forall i, j :: 0 <= i < j < |CleanCurrency(value)| ==> CleanCurrency(value)[i] != '.' || CleanCurrency(value)[j] != '.'
    ensures ',' !in value ==> '.' !in CleanCurrency(value)
    ensures ParseCurrency(value) != NaN
    ensures ParseFloat(CleanCurrency(value)) == NaN ==> ParseCurrency(value) == Finite(0.0)
  {
    var s := RemoveAll(value, '.');
    ReplaceFirstSpec(s, ",", ".");
    RemoveAllSubset(value, '.');
    ContainsChar(s, ',');
  }

  /** A whole number of reais reads back as itself. */
  lemma ParseCurrencyWhole(n: nat)
    ensures ParseCurrency(NatToString(n)) == Finite(n as real)
  {
    CleanDigits(NatToString(n));
    ParseFloatNatToString(n);
  }

  /** Cleaning leaves a string of digits alone. */
  lemma CleanDigits(s: string)
    requires AllDigits(s)
    ensures CleanCurrency(s) == s
  {
    assert '.' !in s && ',' !in s by {
      assert forall i :: 0 <= i < |s| ==> IsDigit(s[i]);
    }
    RemoveAllNone(s, '.');
    ContainsChar(s, ',');
    ReplaceFirstSpec(s, ",", ".");
  }

  /**
   * Digits grouped by thousands dots, a decimal comma and decimal digits
   * ("1.234,56") read as the number those digits write (1234.56).
   */
  lemma ParseCurrencyThousands(w: string, f: string)
    requires ',' !in w && RemoveAll(w, '.') != [] && AllDigits(RemoveAll(w, '.'))
    requires f != [] && AllDigits(f)
    ensures CleanCurrency(w + "," + f) == RemoveAll(w, '.') + "." + f
    ensures ParseCurrency(w + "," + f) == Finite((DigitsValue(RemoveAll(w, '.') + f) as real) / (Pow10(|f|) as real))
  {
    CleanThousands(w, f);
    ReadCleaned(w + "," + f, RemoveAll(w, '.'), f);
  }

  /** The cleaning step alone. */
  lemma CleanThousands(w: string, f: string)
    requires ',' !in w && AllDigits(f)
    ensures CleanCurrency(w + "," + f) == RemoveAll(w, '.') + "." + f
  {
    DropThousandsDots(w, f);
    RemoveAllSubset(w, '.');
    ReplaceFirstChar(RemoveAll(w, '.'), ',', f, ".");
  }

  /** Text that cleans to "digits.digits" reads as that decimal. */
  lemma ReadCleaned(v: string, d: string, f: string)
    requires v != "" && CleanCurrency(v) == d + "." + f
    requires d != [] && AllDigits(d) && f != [] && AllDigits(f)
    ensures ParseCurrency(v) == Finite((DigitsValue(d + f) as real) / (Pow10(|f|) as real))
  {
    ParseFloatDecimal(d, f, "");
    assert d + "." + f + "" == d + "." + f;
  }

  /** Removing the dots leaves the digits, the comma and the decimals. */
  lemma DropThousandsDots(w: string, f: string)
    requires AllDigits(f)
    ensures RemoveAll(w + "," + f, '.') == RemoveAll(w, '.') + [','] + f
  {
    assert '.' !in f by {
      assert forall i :: 0 <= i < |f| ==> IsDigit(f[i]);
    }
    assert w + "," + f == w + ("," + f);
    RemoveAllAppend(w, "," + f, '.');
    RemoveAllAppend(",", f, '.');
    RemoveAllNone(f, '.');
    RemoveAllNone(",", '.');
  }

  /** `transformToBemModel`: each field tries the unaccented name, then the accented one or the model key; the scan code follows the stored code, the condition is BOM, the value is never NaN, and the asset is unchecked with both ids 1. */
  function TransformToBem(row: Row, today: string): (b: Bem)
    ensures
      && b.brCode == (if b.numeroPatrimonio == "" then "PAT-SEM-CODIGO" else "PAT-" + b.numeroPatrimonio)
      && b.estadoConservacao == Some(BOM) && b.valorAquisicao != NaN
      && !b.conferido && b.idServidorResponsavel == Some(1) && b.idAmbienteAtual == Some(1)
  {
    var code := Or(Cell(row, "COD BEM"), Cell(row, "CÓD BEM"));
    BrCodeMeaning(code);
    CleanCurrencyOnePoint(OrText(Or(Cell(row, "VALOR"), Cell(row, "valor_aquisicao")), "0"));
    Bem(
      idBem := None,
      classificacao := Some(OrText(Or(Cell(row, "CLASS"), Cell(row, "classificacao")), "")),
      numeroPatrimonio := OrText(code, ""),
      descricaoBem := OrText(Or(Cell(row, "DESCRICAO DO BEM"), Cell(row, "DESCRIÇÃO DO BEM")), ""),
      dataAquisicao := OrText(Or(Cell(row, "AQUISICAO CONS."), Cell(row, "AQUISIÇÃO CONS.")), today),
      valorAquisicao := ParseCurrency(OrText(Or(Cell(row, "VALOR"), Cell(row, "valor_aquisicao")), "0")),
      empenhoSiafi := Some(OrText(Or(Cell(row, "EMPENHO"), Cell(row, "empenho_siafi")), "")),
      notaFiscal := Some(OrText(Or(Cell(row, "NOTA FIS"), Cell(row, "nota_fiscal")), "")),
      brCode := BrCode(code),
      estadoConservacao := Some(BOM),
      conferido := false,
      dataConferencia := None,
      idServidorResponsavel := Some(1),
      idAmbienteAtual := Some(1),
      ambienteNome := Some(OrText(Or(Cell(row, "LOCALIZACAO"), Cell(row, "LOCALIZAÇÃO")), "")))
  }

  /**
   * Rows keyed by the accented headers as read still fill the asset: the
   * unaccented name wins when it has text, and the accented one is used
   * otherwise.
   */
  lemma TransformAccentFallback(row: Row, today: string)
    ensures var b := TransformToBem(row, today);
      && (TruthyText(Cell(row, "COD BEM")) ==> b.numeroPatrimonio == Cell(row, "COD BEM").value)
      && (!TruthyText(Cell(row, "COD BEM")) ==> b.numeroPatrimonio == OrText(Cell(row, "CÓD BEM"), ""))
      && (TruthyText(Cell(row, "DESCRICAO DO BEM")) ==> b.descricaoBem == Cell(row, "DESCRICAO DO BEM").value)
      && (!TruthyText(Cell(row, "DESCRICAO DO BEM")) ==> b.descricaoBem == OrText(Cell(row, "DESCRIÇÃO DO BEM"), ""))
      && (TruthyText(Cell(row, "LOCALIZACAO")) ==> b.ambienteNome == Cell(row, "LOCALIZACAO"))
      && (!TruthyText(Cell(row, "LOCALIZACAO")) ==> b.ambienteNome == Some(OrText(Cell(row, "LOCALIZAÇÃO"), "")))
      && (!TruthyText(Cell(row, "AQUISICAO CONS.")) && !TruthyText(Cell(row, "AQUISIÇÃO CONS.")) ==> b.dataAquisicao == today)
  {
  }

}
