// The first import screen (ImportacaoPage.tsx): PDF text and CSV files are
// read by the shared helpers, and each row becomes an asset under the
// accented PDF labels, with currency read without removing the dots.

module Page1 {
  import opened Wrappers
  import opened Text
  import opened Numbers
  import opened Models
  import opened ImportCommon
  import Page3

  /** `transformToBemModel`: the new asset is unstored, unchecked, in condition BOM, with both ids 1. */
  function TransformToBem(row: Row, today: string): (b: Bem)
    ensures
      && b.estadoConservacao == Some(BOM) && !b.conferido && b.dataConferencia.None?
      && b.idServidorResponsavel == Some(1) && b.idAmbienteAtual == Some(1) && b.idBem.None?
      && b.ambienteNome.Some? && b.classificacao.Some?
  {
    var code := Cell(row, "CÓD BEM");
    Bem(
      idBem := None,
      classificacao := Some(OrText(Or(Cell(row, "CLASS"), Cell(row, "classificacao")), "")),
      numeroPatrimonio := OrText(code, ""),
      descricaoBem := OrText(Cell(row, "DESCRIÇÃO DO BEM"), ""),
      dataAquisicao := OrText(Cell(row, "AQUISIÇÃO CONS."), today),
      valorAquisicao := ParseCurrencyKeepDots(OrText(Or(Cell(row, "VALOR"), Cell(row, "valor_aquisicao")), "0")),
      empenhoSiafi := Some(OrText(Or(Cell(row, "EMPENHO"), Cell(row, "empenho_siafi")), "")),
      notaFiscal := Some(OrText(Or(Cell(row, "NOTA FIS"), Cell(row, "nota_fiscal")), "")),
      brCode := BrCode(code),
      estadoConservacao := Some(BOM),
      conferido := false,
      dataConferencia := None,
      idServidorResponsavel := Some(1),
      idAmbienteAtual := Some(1),
      ambienteNome := Some(OrText(Cell(row, "LOCALIZAÇÃO"), "")))
  }

  /**
   * The code is stored exactly as read, untrimmed, and the scan code is
   * "PAT-" followed by it; without a code they are "" and "PAT-SEM-CODIGO".
   */
  lemma TransformCode(row: Row, today: string)
    ensures var b := TransformToBem(row, today);
      && (TruthyText(Cell(row, "CÓD BEM")) ==>
            b.numeroPatrimonio == Cell(row, "CÓD BEM").value && b.brCode == "PAT-" + b.numeroPatrimonio)
      && (!TruthyText(Cell(row, "CÓD BEM")) ==> b.numeroPatrimonio == "" && b.brCode == "PAT-SEM-CODIGO")
  {
    BrCodeMeaning(Cell(row, "CÓD BEM"));
  }

  /**
   * The acquisition date is the cell as read, not parsed, or today when
   * the cell is empty; classification, invoice and commitment fall back
   * from the PDF label to the model's own key.
   */
  lemma TransformFallbacks(row: Row, today: string)
    ensures var b := TransformToBem(row, today);
      && (TruthyText(Cell(row, "AQUISIÇÃO CONS.")) ==> b.dataAquisicao == Cell(row, "AQUISIÇÃO CONS.").value)
      && (!TruthyText(Cell(row, "AQUISIÇÃO CONS.")) ==> b.dataAquisicao == today)
      && (!TruthyText(Cell(row, "CLASS")) ==> b.classificacao == Some(OrText(Cell(row, "classificacao"), "")))
      && (!TruthyText(Cell(row, "NOTA FIS")) ==> b.notaFiscal == Some(OrText(Cell(row, "nota_fiscal"), "")))
      && (!TruthyText(Cell(row, "EMPENHO")) ==> b.empenhoSiafi == Some(OrText(Cell(row, "empenho_siafi"), "")))
  {
  }

  // ---------------------------------------------------------------------
  // Currency, compared with the dot-removing reading
  // ---------------------------------------------------------------------

  /**
   * A Brazilian amount with a thousands dot, "d1.d2,f": this screen keeps
   * the dot, turns the comma into a second point and reads only "d1.d2",
   * where the dot-removing reading gives the intended "d1d2.f".
   */
  lemma KeepDotsThousands(d1: string, d2: string, f: string)
    requires d1 != [] && AllDigits(d1) && d2 != [] && AllDigits(d2) && f != [] && AllDigits(f)
    ensures AllDigits(d1 + d2) && AllDigits(d1 + d2 + f)
    ensures ParseCurrencyKeepDots(d1 + "." + d2 + "," + f) == Finite((DigitsValue(d1 + d2) as real) / (Pow10(|d2|) as real))
    ensures Page3.ParseCurrency(d1 + "." + d2 + "," + f) == Finite((DigitsValue(d1 + d2 + f) as real) / (Pow10(|f|) as real))
  {
    KeepDotsReading(d1, d2, f);
    RemoveDotsReading(d1, d2, f);
  }

  /** This screen's reading of "d1.d2,f". */
  lemma KeepDotsReading(d1: string, d2: string, f: string)
    requires d1 != [] && AllDigits(d1) && d2 != [] && AllDigits(d2) && f != [] && AllDigits(f)
    ensures AllDigits(d1 + d2)
    ensures ParseCurrencyKeepDots(d1 + "." + d2 + "," + f) == Finite((DigitsValue(d1 + d2) as real) / (Pow10(|d2|) as real))
  {
    KeepDotsClean(d1, d2, f);
    SecondPointValue(d1, d2, f);
    CleanedReads(d1 + "." + d2 + "," + f, d1 + "." + d2 + "." + f, Finite((DigitsValue(d1 + d2) as real) / (Pow10(|d2|) as real)));
  }

  /** "d1.d2.f" reads as "d1.d2": the second point ends the number. */
  lemma SecondPointValue(d1: string, d2: string, f: string)
    requires d1 != [] && AllDigits(d1) && d2 != [] && AllDigits(d2)
    ensures AllDigits(d1 + d2)
    ensures ParseFloat(d1 + "." + d2 + "." + f) == Finite((DigitsValue(d1 + d2) as real) / (Pow10(|d2|) as real))
  {
    assert d1 + "." + d2 + "." + f == d1 + "." + d2 + ("." + f);
    ParseFloatDecimal(d1, d2, "." + f);
  }

  /** What the cleaned text reads as is what the amount reads as. */
  lemma CleanedReads(v: string, c: string, x: JsNumber)
    requires c != "" && ReplaceFirst(KeepNumeric(v), ",", ".") == c && ParseFloat(c) == x
    ensures ParseCurrencyKeepDots(v) == x
  {
  }

  /** Cleaning "d1.d2,f" keeps every character and turns the comma into a point. */
  lemma KeepDotsClean(d1: string, d2: string, f: string)
    requires AllDigits(d1) && AllDigits(d2) && AllDigits(f)
    ensures ReplaceFirst(KeepNumeric(d1 + "." + d2 + "," + f), ",", ".") == d1 + "." + d2 + "." + f
  {
    var x := d1 + "." + d2;
    assert d1 + "." + d2 + "," + f == x + [','] + f;
    assert forall i :: 0 <= i < |x + [','] + f| ==> IsNumericChar((x + [','] + f)[i]);
    KeepNumericKeeps(x + [','] + f);
    assert ',' !in x by {
      assert forall i :: 0 <= i < |x| ==> x[i] == '.' || IsDigit(x[i]);
    }
    ReplaceFirstChar(x, ',', f, ".");
  }

  /** The dot-removing reading of "d1.d2,f". */
  lemma RemoveDotsReading(d1: string, d2: string, f: string)
    requires d1 != [] && AllDigits(d1) && d2 != [] && AllDigits(d2) && f != [] && AllDigits(f)
    ensures AllDigits(d1 + d2 + f)
    ensures Page3.ParseCurrency(d1 + "." + d2 + "," + f) == Finite((DigitsValue(d1 + d2 + f) as real) / (Pow10(|f|) as real))
  {
    var w := d1 + "." + d2;
    DotsRemoved(d1, d2);
    assert ',' !in w by {
      assert forall i :: 0 <= i < |w| ==> w[i] == '.' || IsDigit(w[i]);
    }
    Page3.ParseCurrencyThousands(w, f);
  }

  /** Removing the dots from "d1.d2" leaves "d1d2". */
  lemma DotsRemoved(d1: string, d2: string)
    requires AllDigits(d1) && AllDigits(d2)
    ensures RemoveAll(d1 + "." + d2, '.') == d1 + d2 && AllDigits(d1 + d2)
  {
    assert '.' !in d1 by { assert forall i :: 0 <= i < |d1| ==> IsDigit(d1[i]); }
    assert '.' !in d2 by { assert forall i :: 0 <= i < |d2| ==> IsDigit(d2[i]); }
    assert d1 + "." + d2 == d1 + ['.'] + d2;
    RemoveSeparator(d1, d2, '.');
  }

  /** Removing a separator that occurs only between two pieces joins the pieces. */
  lemma RemoveSeparator(a: string, b: string, c: char)
    requires c !in a && c !in b
    ensures RemoveAll(a + [c] + b, c) == a + b
  {
    RemoveAllAppend(a + [c], b, c);
    RemoveAllAppend(a, [c], c);
    RemoveAllNone(a, c);
    RemoveAllNone(b, c);
    RemoveAllOnly(c);
    assert RemoveAll(a + [c], c) == a;
  }

  /** Removing a character from itself leaves nothing. */
  lemma RemoveAllOnly(c: char)
    ensures RemoveAll([c], c) == []
  {
    assert [c][1..] == [];
  }

  /** A lone minus sign survives the cleaning and reads as NaN, which the dot-removing reading turns into 0. */
  lemma LoneMinus()
    ensures ParseCurrencyKeepDots("-") == NaN
    ensures Page3.ParseCurrency("-") == Finite(0.0)
  {
    assert KeepNumeric("-") == "-";
    ReplaceFirstSpec("-", ",", ".");
    assert ReplaceFirst("-", ",", ".") == "-";
    assert DecimalPrefix("-") == None;
    assert RemoveAll("-", '.') == "-";
  }
}
