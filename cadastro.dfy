// The asset registration screen (CadastrarBemPage.tsx): the form check on
// the scanned code, then the check-then-insert decision of the submit
// button against the BEM table.

module Cadastro {
  import opened Wrappers
  import opened Text
  import opened Models

  /** The form, which is also the row the screen inserts: `(br_code, descricao, localizacao, data_aquisicao, status)`. */
  datatype NovoBem = NovoBem(brCode: string, descricao: string, localizacao: string, dataAquisicao: string, status: string)

  /** A call the screen makes on the store. */
  datatype StoreCall = QueryCall(brCode: string) | InsertCall(row: NovoBem)

  /** Where the store throws, if it does: before the duplicate query answers, or in the insert. */
  datatype Failure = NoFailure | QueryFails | InsertFails

  /** The alerts of the screen. */
  datatype Aviso = Obrigatorio | CurtoDemais | Duplicado | ErroCadastro

  /** The text of an alert. */
  function Texto(a: Aviso): string {
    match a
    case Obrigatorio => "Código do bem é obrigatório"
    case CurtoDemais => "Código do bem deve ter pelo menos 3 caracteres"
    case Duplicado => "Já existe um bem cadastrado com este código"
    case ErroCadastro => "Erro ao cadastrar bem. Tente novamente."
  }

  /** The four alerts read differently: each has its own length. */
  lemma TextoInjective(a: Aviso, b: Aviso)
    ensures Texto(a) == Texto(b) ==> a == b
  {
    TextoLength(a);
    TextoLength(b);
  }

  /** The lengths of the four alert texts. */
  lemma TextoLength(a: Aviso)
    ensures |Texto(a)| == match a case Obrigatorio => 27 case CurtoDemais => 46 case Duplicado => 43 case ErroCadastro => 39
  {
  }

  /**
   * `validateForm`'s verdict: `None` when the form may be sent, otherwise
   * the alert it raises. `!br_code.trim()` holds exactly for a blank code
   * (`Text.TrimEmptyIffBlank`), and `br_code.length` counts UTF-16 code units.
   */
  function FormError(brCode: string): Option<Aviso> {
    if IsBlank(brCode) then Some(Obrigatorio)
    else if Utf16Length(brCode) < 3 then Some(CurtoDemais)
    else None
  }

  /**
   * The form is accepted exactly when the code is not blank and has at
   * least three UTF-16 code units. A blank code is reported as missing even
   * when it is also short, and the length counts the untrimmed code. Three
   * characters always suffice and one never does.
   */
  lemma FormErrorMeaning(brCode: string)
    ensures FormError(brCode).None? <==> Trim(brCode) != "" && Utf16Length(brCode) >= 3
    ensures Trim(brCode) == "" ==> FormError(brCode) == Some(Obrigatorio)
    ensures Trim(brCode) != "" && Utf16Length(brCode) < 3 ==> FormError(brCode) == Some(CurtoDemais)
    ensures Trim(brCode) != "" && |brCode| >= 3 ==> FormError(brCode).None?
    ensures |brCode| == 1 ==> FormError(brCode).Some?
  {
    TrimEmptyIffBlank(brCode);
    if |brCode| == 1 {
      assert brCode[1..] == [];
    }
  }

  /**
   * A character outside the Basic Multilingual Plane counts as two: one
   * emoji and a letter make a code long enough, one emoji alone does not.
   */
  lemma FormErrorSurrogates()
    ensures FormError("\U{1F600}a") == None
    ensures FormError("\U{1F600}") == Some(CurtoDemais)
  {
    var e := "\U{1F600}a";
    assert e[1..] == "a" && "a"[1..] == [];
    assert !IsSpace(e[0]);
    assert "\U{1F600}"[1..] == [];
    assert !IsSpace("\U{1F600}"[0]);
  }

  /** Two spaces and one character make a code long enough, though its trimmed form has one character. */
  lemma FormErrorUntrimmed(c: char)
    requires !IsSpace(c)
    ensures FormError([' ', ' ', c]) == None
    ensures |Trim([' ', ' ', c])| == 1
  {
    var s := [' ', ' ', c];
    assert Utf16Length(s) >= |s|;
    var r := TrimStart(s);
    assert s[0] == ' ' && s[1] == ' ' && s[2] == c;
    assert |r| == 1;
    assert r == [c] by { assert r[0] == s[2]; }
    assert !IsSpace(s[2]);
    assert TrimEnd([c]) == [c];
  }

  /** Some stored row has the code: what `SELECT 1 FROM BEM WHERE br_code = ? LIMIT 1` finds. */
  predicate Taken(table: seq<NovoBem>, code: string) {
    exists i :: 0 <= i < |table| && table[i].brCode == code
  }

  /** No two stored rows share a code. */
  predicate UniqueCodes(table: seq<NovoBem>) {
    forall i, j :: 0 <= i < j < |table| ==> table[i].brCode != table[j].brCode
  }

  /** What one press of the submit button leaves behind. */
  datatype Outcome = Outcome(table: seq<NovoBem>, calls: seq<StoreCall>, alert: Option<Aviso>, success: bool)

  /** `handleSubmit` on the stored rows and the form, with the store's failure point. */
  function Submit(table: seq<NovoBem>, form: NovoBem, failure: Failure): Outcome {
    match FormError(form.brCode)
    case Some(m) => Outcome(table, [], Some(m), false)
    case None => Send(table, form, failure)
  }

  /** The part of `handleSubmit` after the form check: the duplicate query, then the insert. */
  function Send(table: seq<NovoBem>, form: NovoBem, failure: Failure): Outcome {
    if failure == QueryFails then Outcome(table, [], Some(ErroCadastro), false)
    else if Taken(table, form.brCode) then Outcome(table, [QueryCall(form.brCode)], Some(Duplicado), false)
    else if failure == InsertFails then Outcome(table, [QueryCall(form.brCode)], Some(ErroCadastro), false)
    else Outcome(table + [form], [QueryCall(form.brCode), InsertCall(form)], None, true)
  }

  /** The rows a sequence of store calls inserts, in order. */
  function Inserted(calls: seq<StoreCall>): (r: seq<NovoBem>)
    ensures |r| <= |calls|
  {
    if calls == [] then []
    else (if calls[0].InsertCall? then [calls[0].row] else []) + Inserted(calls[1..])
  }

  /**
   * `handleSubmit` as the source is written. `DatabaseService.initialize()`
   * always throws: the trigger script it runs does not parse as SQLite, and
   * `isInitialized` is set only after that script succeeds. So every press
   * that passes the form check reaches the `catch` before the duplicate
   * query, which is the `QueryFails` case of `Submit`.
   */
  function SubmitAsWritten(table: seq<NovoBem>, form: NovoBem): Outcome {
    Submit(table, form, QueryFails)
  }

  /**
   * As written, the submit never stores a row, never makes a store call and
   * never succeeds; a form that passes the check always ends with the
   * registration error, so the duplicate alert is never shown.
   */
  lemma SubmitAsWrittenFails(table: seq<NovoBem>, form: NovoBem)
    ensures var o := SubmitAsWritten(table, form);
      && o.table == table && o.calls == [] && !o.success && o.alert.Some?
      && o.alert != Some(Duplicado)
      && (FormError(form.brCode).None? ==> o == Outcome(table, [], Some(ErroCadastro), false))
  {
  }

  /**
   * The code "ABC123" on an empty table: the submit as written shows the
   * registration error and stores nothing, while the intended submit stores
   * the form and succeeds.
   */
  lemma SubmitAsWrittenDiverges(form: NovoBem)
    requires form.brCode == "ABC123"
    ensures SubmitAsWritten([], form) == Outcome([], [], Some(ErroCadastro), false)
    ensures Submit([], form, NoFailure) == Outcome([form], [QueryCall("ABC123"), InsertCall(form)], None, true)
  {
    assert !IsSpace(form.brCode[0]);
    assert Utf16Length(form.brCode) >= |form.brCode|;
  }

  /**
   * The INSERT as written names the columns `descricao`, `localizacao` and
   * `status`, which BEM does not have, so even past `initialize()` it fails
   * (`InsertFails`): no row is ever inserted, while a taken code still gets
   * the duplicate alert.
   */
  lemma InsertAsWrittenFails(table: seq<NovoBem>, form: NovoBem)
    ensures var o := Submit(table, form, InsertFails);
      && o.table == table && Inserted(o.calls) == [] && !o.success
      && (FormError(form.brCode).None? ==>
            o.alert == Some(if Taken(table, form.brCode) then Duplicado else ErroCadastro))
  {
    assert Inserted([QueryCall(form.brCode)]) == [];
  }

  /**
   * A form that fails the check reaches no store call and raises the
   * check's alert; a code that is already stored raises the duplicate
   * alert and inserts nothing.
   */
  lemma SubmitRejects(table: seq<NovoBem>, form: NovoBem, failure: Failure)
    ensures var o := Submit(table, form, failure);
      && (FormError(form.brCode).Some? ==> o.calls == [] && o.table == table && o.alert == FormError(form.brCode))
      && (FormError(form.brCode).None? && failure != QueryFails && Taken(table, form.brCode) ==>
            o.table == table && Inserted(o.calls) == [] && o.alert == Some(Duplicado))
  {
    var code := form.brCode;
    assert Inserted([QueryCall(code)]) == [];
  }

  /**
   * The submit succeeds exactly when the form is accepted, the code is not
   * stored and the store does not throw; then exactly one row, the form,
   * is inserted and no alert is raised. Otherwise nothing is inserted and
   * an alert is raised. Either way the table is the old one plus the rows
   * the calls inserted.
   */
  lemma SubmitMeaning(table: seq<NovoBem>, form: NovoBem, failure: Failure)
    ensures var o := Submit(table, form, failure);
      && (o.success <==> FormError(form.brCode).None? && !Taken(table, form.brCode) && failure == NoFailure)
      && (o.success ==> Inserted(o.calls) == [form] && o.alert.None?)
      && (!o.success ==> Inserted(o.calls) == [] && o.alert.Some?)
      && o.table == table + Inserted(o.calls)
  {
    var code := form.brCode;
    assert Inserted([QueryCall(code)]) == [];
    assert Inserted([InsertCall(form)]) == [form];
    assert Inserted([QueryCall(code), InsertCall(form)]) == [form] by {
      assert [QueryCall(code), InsertCall(form)][1..] == [InsertCall(form)];
    }
  }

  /** The screen never stores a second row with a code already in the table. */
  lemma SubmitKeepsCodesUnique(table: seq<NovoBem>, form: NovoBem, failure: Failure)
    requires UniqueCodes(table)
    ensures UniqueCodes(Submit(table, form, failure).table)
  {
    if FormError(form.brCode).None? && failure == NoFailure && !Taken(table, form.brCode) {
      AppendUnique(table, form);
    }
  }

  /** A row whose code is not stored keeps the codes unique. */
  lemma AppendUnique(table: seq<NovoBem>, x: NovoBem)
    requires UniqueCodes(table) && !Taken(table, x.brCode)
    ensures UniqueCodes(table + [x])
  {
    var t := table + [x];
    forall i, j | 0 <= i < j < |t| ensures t[i].brCode != t[j].brCode {
      assert t[i] == table[i];
      if j < |table| { assert t[j] == table[j]; }
    }
  }

  /** The BEM table as the screen sees it, with the log of the calls made on it. */
  class BemTable {
    var rows: seq<NovoBem>
    var calls: seq<StoreCall>

    constructor(rows0: seq<NovoBem>)
      ensures rows == rows0 && calls == []
    {
      rows := rows0;
      calls := [];
    }

    /** `SELECT 1 FROM BEM WHERE br_code = ? LIMIT 1`: whether a row has the code. */
    method Query(code: string) returns (found: bool)
      modifies this
      ensures found <==> Taken(rows, code)
      ensures rows == old(rows) && calls == old(calls) + [QueryCall(code)]
    {
      calls := calls + [QueryCall(code)];
      found := false;
      var i := 0;
      while i < |rows| && !found
        invariant 0 <= i <= |rows|
        invariant found <==> exists k :: 0 <= k < i && rows[k].brCode == code
      {
        found := rows[i].brCode == code;
        i := i + 1;
      }
    }

    /** `INSERT INTO BEM (...) VALUES (?, ?, ?, ?, ?)` with the form's fields. */
    method Insert(row: NovoBem)
      modifies this
      ensures rows == old(rows) + [row] && calls == old(calls) + [InsertCall(row)]
    {
      rows := rows + [row];
      calls := calls + [InsertCall(row)];
    }
  }

  /** What the registration screen holds: the form, the alert, the success banner and the spinner. */
  datatype ScreenState = ScreenState(form: NovoBem, alertMessage: string, showAlert: bool, success: bool, loading: bool)

  /** The screen once `alert`, if there is one, has been raised. */
  function WithAlert(s: ScreenState, alert: Option<Aviso>): ScreenState {
    if alert.Some? then s.(alertMessage := Texto(alert.value), showAlert := true) else s
  }

  /**
   * The screen after a submit whose outcome is `o`: its alert raised, the
   * success banner set when it succeeded, and the spinner off once the
   * form passed the check.
   */
  function AfterSubmit(s: ScreenState, o: Outcome): ScreenState {
    var s' := WithAlert(s, o.alert).(success := s.success || o.success);
    if FormError(s.form.brCode).Some? then s' else s'.(loading := false)
  }

  /** The registration screen. */
  class CadastroScreen {
    var form: NovoBem
    var alertMessage: string
    var showAlert: bool
    var success: bool
    var loading: bool

    function State(): ScreenState
      reads this
    {
      ScreenState(form, alertMessage, showAlert, success, loading)
    }

    /**
     * The screen as it opens: the code from the query string or "",
     * `today` (the date part of `new Date().toISOString()`), status "ATIVO".
     */
    constructor(brCodeFromQuery: Option<string>, today: string)
      ensures State() == ScreenState(NovoBem(OrText(brCodeFromQuery, ""), "", "", today, "ATIVO"), "", false, false, false)
    {
      form := NovoBem(OrText(brCodeFromQuery, ""), "", "", today, "ATIVO");
      alertMessage := "";
      showAlert := false;
      success := false;
      loading := false;
    }

    /** Raises an alert. */
    method Alert(a: Aviso)
      modifies this
      ensures State() == WithAlert(old(State()), Some(a))
    {
      alertMessage := Texto(a);
      showAlert := true;
    }

    /** `validateForm`: raises the alert of a rejected form. */
    method ValidateForm() returns (ok: bool)
      modifies this
      ensures ok <==> FormError(form.brCode).None?
      ensures State() == WithAlert(old(State()), FormError(old(form).brCode))
    {
      TrimEmptyIffBlank(form.brCode);
      if Trim(form.brCode) == "" {
        Alert(Obrigatorio);
        return false;
      }
      if Utf16Length(form.brCode) < 3 {
        Alert(CurtoDemais);
        return false;
      }
      return true;
    }

    /** `handleSubmit`: the table and its call log end as `Submit` says, and so does the screen. */
    method HandleSubmit(db: BemTable, failure: Failure)
      modifies this, db
      ensures var o := Submit(old(db.rows), old(form), failure);
        && db.rows == o.table && db.calls == old(db.calls) + o.calls
        && State() == AfterSubmit(old(State()), o)
    {
      ghost var table := db.rows;
      var ok := ValidateForm();
      if !ok {
        assert db.calls + [] == db.calls;
        return;
      }
      assert Submit(table, form, failure) == Send(table, form, failure);
      loading := true;
      SendForm(db, failure);
      loading := false;
    }

    /** The `try` block of `handleSubmit`, on a form that passed the check. */
    method SendForm(db: BemTable, failure: Failure)
      modifies this, db
      ensures var o := Send(old(db.rows), old(form), failure);
        && db.rows == o.table && db.calls == old(db.calls) + o.calls
        && State() == WithAlert(old(State()), o.alert).(success := old(success) || o.success)
    {
      if failure == QueryFails {
        Alert(ErroCadastro);
        return;
      }
      var found := db.Query(form.brCode);
      if found {
        Alert(Duplicado);
        return;
      }
      if failure == InsertFails {
        Alert(ErroCadastro);
        return;
      }
      db.Insert(form);
      success := true;
    }
  }
}
