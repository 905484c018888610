/**
 * Helpers the import screens share, each written identically in the
 * screens that use it: delimiter sniffing, the DD/MM/YYYY date pieces, the
 * condition-word match, currency cleaning that keeps the dots, the scan
 * code, and the header and CSV error lists.
 */
module ImportCommon {
  import opened Wrappers
  import opened Text
  import opened Numbers
  import opened Models
  import PdfText

  // ---------------------------------------------------------------------
  // Delimiter
  // ---------------------------------------------------------------------

  /** `csvText.split("\n")[0].includes(";") ? ";" : ","`. */
  function DetectDelimiter(csvText: string): char {
    if ';' in SplitOn(csvText, '\n')[0] then ';' else ','
  }

  /** The delimiter is ";" exactly when a ";" occurs before the first line break. */
  lemma DelimiterMeaning(csvText: string)
    ensures DetectDelimiter(csvText) == ';' <==>
      exists i :: 0 <= i < |csvText| && csvText[i] == ';' && '\n' !in csvText[..i]
  {
    var first := SplitOn(csvText, '\n')[0];
    SplitOnFirst(csvText, '\n');
    assert first <= csvText;
    if ';' in first {
      var i :| 0 <= i < |first| && first[i] == ';';
      assert csvText[i] == ';';
      assert csvText[..i] == first[..i];
    }
    if exists i :: 0 <= i < |csvText| && csvText[i] == ';' && '\n' !in csvText[..i] {
      var i :| 0 <= i < |csvText| && csvText[i] == ';' && '\n' !in csvText[..i];
      assert forall k :: 0 <= k < i ==> csvText[k] != '\n' by {
        forall k | 0 <= k < i ensures csvText[k] != '\n' { assert csvText[..i][k] == csvText[k]; }
      }
      if '\n' in csvText {
        var j :| 0 <= j < |csvText| && csvText[j] == '\n' && first == csvText[..j];
        assert first[i] == ';';
      } else {
        assert first == csvText;
      }
    }
  }

  // ---------------------------------------------------------------------
  // Dates
  // ---------------------------------------------------------------------

  /** `/^\d{2}\/\d{2}\/\d{4}$/`. */
  predicate IsSlashDate(s: string) {
    && |s| == 10
    && IsDigit(s[0]) && IsDigit(s[1]) && s[2] == '/'
    && IsDigit(s[3]) && IsDigit(s[4]) && s[5] == '/'
    && IsDigit(s[6]) && IsDigit(s[7]) && IsDigit(s[8]) && IsDigit(s[9])
  }

  /** A `YYYY-MM-DD` string of digits. */
  predicate IsIsoDate(t: string) {
    && |t| == 10
    && IsDigit(t[0]) && IsDigit(t[1]) && IsDigit(t[2]) && IsDigit(t[3]) && t[4] == '-'
    && IsDigit(t[5]) && IsDigit(t[6]) && t[7] == '-'
    && IsDigit(t[8]) && IsDigit(t[9])
  }

  /** `` `${year}-${month}-${day}` `` from the three pieces of `day/month/year`. */
  function SlashToIso(s: string): (t: string)
    requires IsSlashDate(s)
    ensures IsIsoDate(t)
  {
    s[6..10] + "-" + s[3..5] + "-" + s[0..2]
  }

  /** The inverse: `DD/MM/YYYY` from `YYYY-MM-DD`. */
  function IsoToSlash(t: string): (s: string)
    requires IsIsoDate(t)
    ensures IsSlashDate(s)
  {
    t[8..10] + "/" + t[5..7] + "/" + t[0..4]
  }

  /** Round trip in both directions: the conversion keeps every digit. */
  lemma SlashIsoRoundTrip(s: string, t: string)
    requires IsSlashDate(s) && IsIsoDate(t)
    ensures IsoToSlash(SlashToIso(s)) == s
    ensures SlashToIso(IsoToSlash(t)) == t
  {
    var t' := SlashToIso(s);
    assert IsoToSlash(t') == s by {
      assert t'[8..10] == s[0..2] && t'[5..7] == s[3..5] && t'[0..4] == s[6..10];
      assert s == s[0..2] + "/" + s[3..5] + "/" + s[6..10];
    }
    var s' := IsoToSlash(t);
    assert SlashToIso(s') == t by {
      assert s'[6..10] == t[0..4] && s'[3..5] == t[5..7] && s'[0..2] == t[8..10];
      assert t == t[0..4] + "-" + t[5..7] + "-" + t[8..10];
    }
  }

  /** `descricao.match(/(\d{2}\/\d{2}\/\d{4})$/)`: the date that ends the description, if any. */
  function TrailingDate(descricao: string): (r: Option<string>)
    ensures r.Some? ==> IsSlashDate(r.value) && |r.value| <= |descricao| && descricao[|descricao| - |r.value|..] == r.value
  {
    if |descricao| >= 10 && IsSlashDate(descricao[|descricao| - 10..]) then Some(descricao[|descricao| - 10..])
    else None
  }

  /** A description that ends in a date yields that date; one whose last ten characters are not a date yields none. */
  lemma TrailingDateMeaning(prefix: string, date: string)
    ensures IsSlashDate(date) ==> TrailingDate(prefix + date) == Some(date)
    ensures !IsSlashDate(date) && |date| == 10 ==> TrailingDate(prefix + date) == None
  {
    var d := prefix + date;
    if |date| == 10 {
      assert d[|d| - 10..] == date;
    }
  }

  // ---------------------------------------------------------------------
  // Condition
  // ---------------------------------------------------------------------

  /** `determineEstadoConservacao`: the first of excelente, bom, regular, péssimo/pessimo the lower-cased text contains; BOM otherwise. */
  function DetermineEstado(conservacao: Option<string>): (e: Estado)
    ensures e != RUIM
  {
    if !TruthyText(conservacao) then BOM
    else
      var lower := Lower(conservacao.value);
      if Contains(lower, "excelente") then EXCELENTE
      else if Contains(lower, "bom") then BOM
      else if Contains(lower, "regular") then REGULAR
      else if Contains(lower, "péssimo") || Contains(lower, "pessimo") then PESSIMO
      else BOM
  }

  /** An absent or empty text gives BOM; each word wins over the ones after it. */
  lemma DetermineEstadoCases(conservacao: Option<string>)
    ensures !TruthyText(conservacao) ==> DetermineEstado(conservacao) == BOM
    ensures TruthyText(conservacao) ==>
      var lower := Lower(conservacao.value);
      && (DetermineEstado(conservacao) == EXCELENTE <==> Contains(lower, "excelente"))
      && (DetermineEstado(conservacao) == REGULAR <==>
            !Contains(lower, "excelente") && !Contains(lower, "bom") && Contains(lower, "regular"))
      && (DetermineEstado(conservacao) == PESSIMO <==>
            && !Contains(lower, "excelente") && !Contains(lower, "bom") && !Contains(lower, "regular")
            && (Contains(lower, "péssimo") || Contains(lower, "pessimo")))
  {
  }

  /** A string whose first character does not occur in `s` is not contained in `s`. */
  lemma NotContainedByFirst(s: string, t: string)
    requires t != [] && t[0] !in s
    ensures !Contains(s, t)
  {
    ContainsIff(s, t);
    forall i | 0 <= i <= |s| ensures !(t <= s[i..]) {
      if i < |s| { assert s[i..][0] == s[i]; }
    }
  }

  /** The enum's own names in capitals are recognised, except RUIM, which falls back to BOM. */
  lemma DetermineEstadoRuimIsBom()
    ensures DetermineEstado(Some("RUIM")) == BOM
  {
    assert Lower("RUIM") == "ruim";
    NotContainedByFirst("ruim", "excelente");
    NotContainedByFirst("ruim", "bom");
    assert !Contains("ruim", "regular");
    NotContainedByFirst("ruim", "péssimo");
    NotContainedByFirst("ruim", "pessimo");
  }

  // ---------------------------------------------------------------------
  // Currency
  // ---------------------------------------------------------------------

  predicate IsNumericChar(c: char) { IsDigit(c) || c == ',' || c == '.' || c == '-' }

  /** `value.replace(/[^\d,.-]/g, "")`: keeps digits, commas, dots and minus signs, in order. */
  function KeepNumeric(s: string): (r: string)
    ensures |r| <= |s|
    ensures forall i :: 0 <= i < |r| ==> IsNumericChar(r[i])
  {
    if s == [] then []
    else (if IsNumericChar(s[0]) then [s[0]] else []) + KeepNumeric(s[1..])
  }

  /** Text made only of kept characters is left as it is. */
  lemma {:induction false} KeepNumericKeeps(s: string)
    requires forall i :: 0 <= i < |s| ==> IsNumericChar(s[i])
    ensures KeepNumeric(s) == s
  {
    if s != [] {
      KeepNumericKeeps(s[1..]);
      assert [s[0]] + s[1..] == s;
    }
  }

  /** Cleaning twice is cleaning once. */
  lemma KeepNumericIdempotent(s: string)
    ensures KeepNumeric(KeepNumeric(s)) == KeepNumeric(s)
  {
    KeepNumericKeeps(KeepNumeric(s));
  }

  /** `parseFloat(value.replace(/[^\d,.-]/g, "").replace(",", ".") || "0")`. */
  function ParseCurrencyKeepDots(value: string): JsNumber {
    var cleaned := ReplaceFirst(KeepNumeric(value), ",", ".");
    ParseFloat(if cleaned == "" then "0" else cleaned)
  }

  /** The digits of a whole number of reais read back as that number; text with nothing numeric reads as 0. */
  lemma ParseCurrencyKeepDotsWhole(n: nat, junk: string)
    requires forall i :: 0 <= i < |junk| ==> !IsNumericChar(junk[i])
    ensures ParseCurrencyKeepDots(NatToString(n)) == Finite(n as real)
    ensures ParseCurrencyKeepDots(junk) == Finite(0.0)
  {
    var s := NatToString(n);
    KeepNumericKeeps(s);
    assert !Contains(s, ",") by {
      ContainsIff(s, ",");
      forall i | 0 <= i <= |s| ensures !("," <= s[i..]) {
        if i < |s| { assert s[i..][0] == s[i]; }
      }
    }
    ReplaceFirstSpec(s, ",", ".");
    ParseFloatNatToString(n);
    assert KeepNumeric(junk) == [] by { KeepNumericNone(junk); }
    assert ReplaceFirst("", ",", ".") == "" by { ReplaceFirstSpec("", ",", "."); }
    ParseFloatNatToString(0);
    assert NatToString(0) == "0";
  }

  /** Text with no kept character cleans to nothing. */
  lemma {:induction false} KeepNumericNone(s: string)
    requires forall i :: 0 <= i < |s| ==> !IsNumericChar(s[i])
    ensures KeepNumeric(s) == []
  {
    if s != [] {
      KeepNumericNone(s[1..]);
    }
  }

  // ---------------------------------------------------------------------
  // Scan code
  // ---------------------------------------------------------------------

  /** `` `PAT-${code || "SEM-CODIGO"}` ``. */
  function BrCode(code: Option<string>): string {
    "PAT-" + OrText(code, "SEM-CODIGO")
  }

  /** The code follows the "PAT-" prefix, and a missing or empty code is SEM-CODIGO. */
  lemma BrCodeMeaning(code: Option<string>)
    ensures "PAT-" <= BrCode(code) && |BrCode(code)| > 4
    ensures TruthyText(code) ==> BrCode(code)[4..] == code.value
    ensures !TruthyText(code) ==> BrCode(code) == "PAT-SEM-CODIGO"
  {
  }

  // ---------------------------------------------------------------------
  // Header and CSV errors
  // ---------------------------------------------------------------------

  /** The columns the PDF import needs, in the order the screens list them. */
  const RequiredHeaders: seq<string> :=
    ["CÓD BEM", "CLASS", "DESCRIÇÃO DO BEM", "LOCALIZAÇÃO", "AQUISIÇÃO CONS.", "NOTA FIS", "EMPENHO", "VALOR"]

  /** `required.filter(h => !headers.includes(h))`. */
  function MissingHeaders(required: seq<string>, headers: seq<string>): (r: seq<string>)
    ensures |r| <= |required|
  {
    if required == [] then []
    else (if required[0] !in headers then [required[0]] else []) + MissingHeaders(required[1..], headers)
  }

  /** A header is reported exactly when it is required and absent, so nothing is reported exactly when all are present. */
  lemma {:induction false} MissingHeadersMeaning(required: seq<string>, headers: seq<string>)
    ensures forall h :: h in MissingHeaders(required, headers) <==> h in required && h !in headers
    ensures MissingHeaders(required, headers) == [] <==> forall h :: h in required ==> h in headers
  {
    if required != [] {
      MissingHeadersMeaning(required[1..], headers);
      assert required == [required[0]] + required[1..];
    }
  }

  /** The error text for a missing header. */
  function MissingHeaderMessage(h: string): string {
    "Cabeçalho faltante: " + h
  }

  /** One entry per missing header: line 0, no code, the header named in the message. */
  function HeaderErrors(missing: seq<string>): (r: seq<ImportError>)
    ensures |r| == |missing|
    ensures forall i :: 0 <= i < |r| ==> r[i] == ImportError(0, "", [MissingHeaderMessage(missing[i])])
  {
    if missing == [] then [] else [ImportError(0, "", [MissingHeaderMessage(missing[0])])] + HeaderErrors(missing[1..])
  }

  /**
   * The required-header check of the PDF readers: one error per missing
   * header, and the rows kept for the confirmation only when none is missing.
   */
  function CheckHeaders(required: seq<string>, headers: seq<string>, rows: seq<Row>): (o: Outcome)
    ensures o.Errors? || o.Confirm?
  {
    var missing := MissingHeaders(required, headers);
    if |missing| > 0 then Errors(HeaderErrors(missing)) else Confirm(rows)
  }

  /**
   * The rows are confirmed exactly when every required header is present;
   * otherwise the i-th error is the line-0 entry naming the i-th absent
   * required header.
   */
  lemma CheckHeadersMeaning(required: seq<string>, headers: seq<string>, rows: seq<Row>)
    ensures var o := CheckHeaders(required, headers, rows);
      && (o.Confirm? <==> forall h :: h in required ==> h in headers)
      && (o.Confirm? ==> o.rows == rows)
      && (o.Errors? ==> |o.errors| > 0 && forall i :: 0 <= i < |o.errors| ==>
            var h := MissingHeaders(required, headers)[i];
            h in required && h !in headers && o.errors[i] == ImportError(0, "", [MissingHeaderMessage(h)]))
  {
    var missing := MissingHeaders(required, headers);
    MissingHeadersMeaning(required, headers);
    forall i | 0 <= i < |missing|
      ensures missing[i] in required && missing[i] !in headers
    {
      assert missing[i] in missing;
    }
  }

  /**
   * `processPdfFile` once the text is split: no header line at all makes the
   * call throw (`lines[0]` is undefined) and only a toast is shown;
   * otherwise the required headers are checked.
   */
  function ReadPdf(extracted: Option<(seq<string>, seq<Row>)>, required: seq<string>): (o: Outcome)
    ensures o.Failed? <==> extracted.None?
    ensures extracted.Some? ==> o == CheckHeaders(required, extracted.value.0, extracted.value.1)
  {
    if extracted.None? then Failed else CheckHeaders(required, extracted.value.0, extracted.value.1)
  }

  /**
   * `processPdfFile` of the two screens that compare the trimmed headers as
   * read (ImportacaoPage.tsx and ImportacaoPage2.tsx): blank text throws at
   * `lines[0]`, otherwise the eight required names are checked.
   */
  function ProcessPdfFile(text: string): Outcome {
    ReadPdf(PdfText.Extracted(text, Trim), RequiredHeaders)
  }

  /**
   * The file fails exactly when its text is blank; otherwise it is
   * confirmed exactly when every required name is among the headers, and
   * each error names one that is not.
   */
  lemma ProcessPdfFileMeaning(text: string)
    ensures ProcessPdfFile(text).Failed? <==> IsBlank(text)
    ensures !IsBlank(text) ==>
      var headers := PdfText.Extracted(text, Trim).value.0;
      var o := ProcessPdfFile(text);
      && (o.Confirm? <==> forall h :: h in RequiredHeaders ==> h in headers)
      && (o.Errors? ==> |o.errors| > 0 && forall i :: 0 <= i < |o.errors| ==>
            o.errors[i] == ImportError(0, "", [MissingHeaderMessage(MissingHeaders(RequiredHeaders, headers)[i])]))
  {
    PdfText.ExtractedFails(text, Trim);
    if !IsBlank(text) {
      var e := PdfText.Extracted(text, Trim).value;
      CheckHeadersMeaning(RequiredHeaders, e.0, e.1);
    }
  }

  /** A confirmed text keeps only rows with a value, each keyed by exactly the trimmed headers. */
  lemma ProcessPdfFileRows(text: string)
    requires ProcessPdfFile(text).Confirm?
    ensures var headers := PdfText.Extracted(text, Trim).value.0;
      forall r :: r in ProcessPdfFile(text).rows ==> PdfText.HasValue(r) && forall k :: k in r <==> k in headers
  {
    PdfText.ExtractedRows(text, Trim);
  }

  /** One error reported by the CSV parser: its 0-based row, when it has one, and its message. */
  datatype CsvError = CsvError(row: Option<int>, message: string)

  /** What the CSV parser hands back: the rows, keyed by header, and the errors. */
  datatype CsvResult = CsvResult(data: seq<Row>, errors: seq<CsvError>)

  /** `err.row || 0` (a row of 0 gives 0 either way). */
  function ErrorLine(e: CsvError): (linha: int)
    ensures e.row.Some? ==> linha == e.row.value
    ensures e.row.None? ==> linha == 0
  {
    match e.row
    case Some(r) => r
    case None => 0
  }

  /** `result.errors.map(err => ({linha: err.row || 0, patrimonio: "", erros: [err.message]}))`. */
  function CsvErrors(errors: seq<CsvError>): (r: seq<ImportError>)
    ensures |r| == |errors|
    ensures forall i :: 0 <= i < |r| ==> r[i] == ImportError(ErrorLine(errors[i]), "", [errors[i].message])
  {
    if errors == [] then [] else [ImportError(ErrorLine(errors[0]), "", [errors[0].message])] + CsvErrors(errors[1..])
  }

  /**
   * Where reading a file leaves the screen: an error list shown and nothing
   * stored, the rows stored and the confirmation shown, a failure
   * reported by a toast, or the file dropped without a word (in the last two
   * nothing is stored either).
   */
  datatype Outcome = Errors(errors: seq<ImportError>) | Confirm(rows: seq<Row>) | Failed | Dropped

  /** `processCsvFile` of the screens that report parse errors: any error stops the file before its rows are stored. */
  function ProcessCsv(result: CsvResult): (o: Outcome)
    ensures o.Confirm? <==> result.errors == []
    ensures o.Confirm? ==> o.rows == result.data
    ensures o.Errors? ==> |o.errors| == |result.errors|
  {
    if |result.errors| > 0 then Errors(CsvErrors(result.errors)) else Confirm(result.data)
  }
}
