// `validateBem` (src/utils/validateBem.ts): six checks on an untyped asset
// record, each adding its own message, in a fixed order.

module Validate {
  import opened Numbers
  import opened Models
  import Text

  /** The untyped record the validator receives: each field may hold any JavaScript value. */
  datatype BemInput = BemInput(
    numeroPatrimonio: JsValue,
    descricaoBem: JsValue,
    brCode: JsValue,
    dataAquisicao: JsValue,
    valorAquisicao: JsValue,
    estadoConservacao: JsValue)

  /** JavaScript truthiness of any value. */
  predicate JsTruthy(v: JsValue) {
    match v
    case Undefined => false
    case Null => false
    case Bool(b) => b
    case Num(n) => Truthy(n)
    case Str(s) => s != ""
    case Obj(_) => true
  }

  /** The six checks, in the order they run. */
  datatype Check = NumeroAusente | DescricaoAusente | CodigoAusente | DataInvalida | ValorInvalido | EstadoInvalido

  /** The position of a check in the order they run. */
  function Rank(c: Check): (r: nat)
    ensures r < 6
  {
    match c
    case NumeroAusente => 0
    case DescricaoAusente => 1
    case CodigoAusente => 2
    case DataInvalida => 3
    case ValorInvalido => 4
    case EstadoInvalido => 5
  }

  /** The message a failed check adds. */
  function Message(c: Check): string {
    match c
    case NumeroAusente => "Número de patrimônio ausente"
    case DescricaoAusente => "Descrição ausente"
    case CodigoAusente => "Código de barras ausente"
    case DataInvalida => "Data de aquisição inválida"
    case ValorInvalido => "Valor de aquisição inválido"
    case EstadoInvalido => "Estado de conservação inválido"
  }

  /** The condition names the validator accepts; PESSIMO is not among them. */
  const AcceptedEstados: seq<string> := ["EXCELENTE", "BOM", "REGULAR", "RUIM"]

  /**
   * Whether a check fails. `dateParses(v)` stands for `!isNaN(Date.parse(v))`,
   * which depends on the runtime's date parser.
   */
  predicate Fails(c: Check, data: BemInput, dateParses: JsValue -> bool) {
    match c
    case NumeroAusente => !JsTruthy(data.numeroPatrimonio)
    case DescricaoAusente => !JsTruthy(data.descricaoBem)
    case CodigoAusente => !JsTruthy(data.brCode)
    case DataInvalida => !JsTruthy(data.dataAquisicao) || !dateParses(data.dataAquisicao)
    case ValorInvalido => NumberIsNaN(data.valorAquisicao)
    case EstadoInvalido => !(data.estadoConservacao.Str? && data.estadoConservacao.s in AcceptedEstados)
  }

  /** The checks failed so far, after check `c` has run. */
  function AddIf(failed: seq<Check>, c: Check, data: BemInput, dateParses: JsValue -> bool): seq<Check> {
    if Fails(c, data, dateParses) then failed + [c] else failed
  }

  /** The failed checks, in the order they run. */
  function Failed(data: BemInput, dateParses: JsValue -> bool): seq<Check> {
    var f1 := AddIf([], NumeroAusente, data, dateParses);
    var f2 := AddIf(f1, DescricaoAusente, data, dateParses);
    var f3 := AddIf(f2, CodigoAusente, data, dateParses);
    var f4 := AddIf(f3, DataInvalida, data, dateParses);
    var f5 := AddIf(f4, ValorInvalido, data, dateParses);
    AddIf(f5, EstadoInvalido, data, dateParses)
  }

  /** The messages of a list of checks. */
  function Messages(cs: seq<Check>): (r: seq<string>)
    ensures |r| == |cs| && forall i :: 0 <= i < |cs| ==> r[i] == Message(cs[i])
  {
    if cs == [] then [] else [Message(cs[0])] + Messages(cs[1..])
  }

  /** The messages pushed so far, after check `c` has run. */
  function PushIf(errors: seq<string>, c: Check, data: BemInput, dateParses: JsValue -> bool): seq<string> {
    if Fails(c, data, dateParses) then errors + [Message(c)] else errors
  }

  /** The messages the six checks push, one after the other. */
  function Pushed(data: BemInput, dateParses: JsValue -> bool): seq<string> {
    var e1 := PushIf([], NumeroAusente, data, dateParses);
    var e2 := PushIf(e1, DescricaoAusente, data, dateParses);
    var e3 := PushIf(e2, CodigoAusente, data, dateParses);
    var e4 := PushIf(e3, DataInvalida, data, dateParses);
    var e5 := PushIf(e4, ValorInvalido, data, dateParses);
    PushIf(e5, EstadoInvalido, data, dateParses)
  }

  /** `validateBem`: each failing check pushes its message; the record is valid when none failed. */
  method ValidateBem(data: BemInput, dateParses: JsValue -> bool) returns (valid: bool, errors: seq<string>)
    ensures errors == Messages(Failed(data, dateParses))
    ensures valid <==> errors == []
  {
    errors := [];
    errors := RunCheck(errors, NumeroAusente, data, dateParses);
    errors := RunCheck(errors, DescricaoAusente, data, dateParses);
    errors := RunCheck(errors, CodigoAusente, data, dateParses);
    errors := RunCheck(errors, DataInvalida, data, dateParses);
    errors := RunCheck(errors, ValorInvalido, data, dateParses);
    errors := RunCheck(errors, EstadoInvalido, data, dateParses);
    PushedMessages(data, dateParses);
    valid := |errors| == 0;
  }

  /** One `if (…) errors.push(…)` of the validator. */
  method RunCheck(errors: seq<string>, c: Check, data: BemInput, dateParses: JsValue -> bool) returns (errors': seq<string>)
    ensures errors' == PushIf(errors, c, data, dateParses)
  {
    errors' := errors;
    match c
    case NumeroAusente =>
      if !JsTruthy(data.numeroPatrimonio) {
        errors' := errors + ["Número de patrimônio ausente"];
      }
    case DescricaoAusente =>
      if !JsTruthy(data.descricaoBem) {
        errors' := errors + ["Descrição ausente"];
      }
    case CodigoAusente =>
      if !JsTruthy(data.brCode) {
        errors' := errors + ["Código de barras ausente"];
      }
    case DataInvalida =>
      if !JsTruthy(data.dataAquisicao) || !dateParses(data.dataAquisicao) {
        errors' := errors + ["Data de aquisição inválida"];
      }
    case ValorInvalido =>
      if NumberIsNaN(data.valorAquisicao) {
        errors' := errors + ["Valor de aquisição inválido"];
      }
    case EstadoInvalido =>
      if !(data.estadoConservacao.Str? && data.estadoConservacao.s in AcceptedEstados) {
        errors' := errors + ["Estado de conservação inválido"];
      }
  }

  /** Pushing a check's message follows adding the check. */
  lemma PushIfMessages(failed: seq<Check>, c: Check, data: BemInput, dateParses: JsValue -> bool)
    ensures Messages(AddIf(failed, c, data, dateParses)) == PushIf(Messages(failed), c, data, dateParses)
  {
    if Fails(c, data, dateParses) {
      var m := Messages(failed + [c]);
      assert |m| == |Messages(failed) + [Message(c)]|;
      assert forall i :: 0 <= i < |m| ==> m[i] == (Messages(failed) + [Message(c)])[i];
    }
  }

  /** The pushed messages are the messages of the failed checks. */
  lemma PushedMessages(data: BemInput, dateParses: JsValue -> bool)
    ensures Pushed(data, dateParses) == Messages(Failed(data, dateParses))
  {
    var f1 := AddIf([], NumeroAusente, data, dateParses);
    var f2 := AddIf(f1, DescricaoAusente, data, dateParses);
    var f3 := AddIf(f2, CodigoAusente, data, dateParses);
    var f4 := AddIf(f3, DataInvalida, data, dateParses);
    var f5 := AddIf(f4, ValorInvalido, data, dateParses);
    PushIfMessages([], NumeroAusente, data, dateParses);
    PushIfMessages(f1, DescricaoAusente, data, dateParses);
    PushIfMessages(f2, CodigoAusente, data, dateParses);
    PushIfMessages(f3, DataInvalida, data, dateParses);
    PushIfMessages(f4, ValorInvalido, data, dateParses);
    PushIfMessages(f5, EstadoInvalido, data, dateParses);
  }

  /** Running check `c` adds it exactly when it fails. */
  lemma AddIfMembers(failed: seq<Check>, c: Check, data: BemInput, dateParses: JsValue -> bool)
    ensures forall d :: d in AddIf(failed, c, data, dateParses) <==> d in failed || (d == c && Fails(c, data, dateParses))
  {
  }

  /** A check appears among the failed ones exactly when it fails. */
  lemma FailedMeaning(data: BemInput, dateParses: JsValue -> bool)
    ensures forall c :: c in Failed(data, dateParses) <==> Fails(c, data, dateParses)
  {
    var f1 := AddIf([], NumeroAusente, data, dateParses);
    var f2 := AddIf(f1, DescricaoAusente, data, dateParses);
    var f3 := AddIf(f2, CodigoAusente, data, dateParses);
    var f4 := AddIf(f3, DataInvalida, data, dateParses);
    var f5 := AddIf(f4, ValorInvalido, data, dateParses);
    AddIfMembers([], NumeroAusente, data, dateParses);
    AddIfMembers(f1, DescricaoAusente, data, dateParses);
    AddIfMembers(f2, CodigoAusente, data, dateParses);
    AddIfMembers(f3, DataInvalida, data, dateParses);
    AddIfMembers(f4, ValorInvalido, data, dateParses);
    AddIfMembers(f5, EstadoInvalido, data, dateParses);
    forall c ensures c in Failed(data, dateParses) <==> Fails(c, data, dateParses) {
      match c
      case NumeroAusente =>
      case DescricaoAusente =>
      case CodigoAusente =>
      case DataInvalida =>
      case ValorInvalido =>
      case EstadoInvalido =>
    }
  }

  /** Checks listed in strictly increasing rank. */
  predicate Ordered(cs: seq<Check>) {
    forall i, j :: 0 <= i < j < |cs| ==> Rank(cs[i]) < Rank(cs[j])
  }

  /** Running a check that ranks after every failed one keeps the list ordered and adds at most one entry. */
  lemma AddIfOrdered(failed: seq<Check>, c: Check, data: BemInput, dateParses: JsValue -> bool)
    requires Ordered(failed) && forall i :: 0 <= i < |failed| ==> Rank(failed[i]) < Rank(c)
    ensures var f := AddIf(failed, c, data, dateParses);
      && Ordered(f) && |f| <= |failed| + 1
      && forall i :: 0 <= i < |f| ==> Rank(f[i]) <= Rank(c)
  {
  }

  /** The failed checks come in the order the checks run, so each appears at most once and there are at most six. */
  lemma FailedOrdered(data: BemInput, dateParses: JsValue -> bool)
    ensures Ordered(Failed(data, dateParses)) && |Failed(data, dateParses)| <= 6
  {
    var f1 := AddIf([], NumeroAusente, data, dateParses);
    var f2 := AddIf(f1, DescricaoAusente, data, dateParses);
    var f3 := AddIf(f2, CodigoAusente, data, dateParses);
    var f4 := AddIf(f3, DataInvalida, data, dateParses);
    var f5 := AddIf(f4, ValorInvalido, data, dateParses);
    AddIfOrdered([], NumeroAusente, data, dateParses);
    AddIfOrdered(f1, DescricaoAusente, data, dateParses);
    AddIfOrdered(f2, CodigoAusente, data, dateParses);
    AddIfOrdered(f3, DataInvalida, data, dateParses);
    AddIfOrdered(f4, ValorInvalido, data, dateParses);
    AddIfOrdered(f5, EstadoInvalido, data, dateParses);
  }

  /** Different checks have different messages. */
  lemma MessageInjective(a: Check, b: Check)
    ensures Message(a) == Message(b) ==> a == b
  {
    MessageLength(a);
    MessageLength(b);
  }

  /** The messages have six different lengths, so the length tells the check. */
  lemma MessageLength(c: Check)
    ensures |Message(c)| == [28, 17, 24, 26, 27, 30][Rank(c)]
  {
  }

  /**
   * The errors are exactly the messages of the failing checks, in the
   * order the checks run, each at most once and at most six of them; the
   * record is valid exactly when no check fails.
   */
  lemma ErrorsMeaning(data: BemInput, dateParses: JsValue -> bool)
    ensures var e := Messages(Failed(data, dateParses));
      && |e| <= 6
      && (forall c :: Message(c) in e <==> Fails(c, data, dateParses))
      && (forall i, j :: 0 <= i < j < |e| ==> e[i] != e[j])
      && (e == [] <==> forall c :: !Fails(c, data, dateParses))
  {
    var f := Failed(data, dateParses);
    FailedMeaning(data, dateParses);
    FailedOrdered(data, dateParses);
    MessagesMembers(f);
    MessagesDistinct(f);
    if f != [] {
      assert f[0] in f;
    }
  }

  /** A message is among those of a list of checks exactly when its check is. */
  lemma MessagesMembers(f: seq<Check>)
    ensures forall c :: Message(c) in Messages(f) <==> c in f
  {
    var e := Messages(f);
    forall c ensures Message(c) in e <==> c in f {
      if Message(c) in e {
        var i :| 0 <= i < |e| && e[i] == Message(c);
        MessageInjective(f[i], c);
      }
      if c in f {
        var i :| 0 <= i < |f| && f[i] == c;
        assert e[i] == Message(c);
      }
    }
  }

  /** Checks in strictly increasing rank have pairwise different messages. */
  lemma MessagesDistinct(f: seq<Check>)
    requires Ordered(f)
    ensures var e := Messages(f); forall i, j :: 0 <= i < j < |e| ==> e[i] != e[j]
  {
    var e := Messages(f);
    forall i, j | 0 <= i < j < |e| ensures e[i] != e[j] {
      MessageInjective(f[i], f[j]);
    }
  }

  /**
   * Of the enum's members only PESSIMO is refused, although the enum and
   * the table's check constraint both allow it.
   */
  lemma EstadoCheck(data: BemInput, dateParses: JsValue -> bool, e: Estado)
    requires data.estadoConservacao == Str(EstadoName(e))
    ensures Fails(EstadoInvalido, data, dateParses) <==> e == PESSIMO
  {
  }

  /**
   * An empty amount passes, because `Number("")` is 0; a missing amount
   * fails, because `Number(undefined)` is NaN.
   */
  lemma ValorCheck(data: BemInput, dateParses: JsValue -> bool)
    ensures data.valorAquisicao == Str("") ==> !Fails(ValorInvalido, data, dateParses)
    ensures data.valorAquisicao == Undefined ==> Fails(ValorInvalido, data, dateParses)
  {
  }

  /**
   * Objects are truthy: `{}` or `[]` as the code passes the presence check.
   * As the value, `[]` reads as 0 and passes, while `{}` reads as NaN and fails.
   */
  lemma ObjectChecks(data: BemInput, dateParses: JsValue -> bool)
    ensures data.numeroPatrimonio.Obj? ==> !Fails(NumeroAusente, data, dateParses)
    ensures data.valorAquisicao == Obj("") ==> !Fails(ValorInvalido, data, dateParses)
    ensures data.valorAquisicao == Obj("[object Object]") ==> Fails(ValorInvalido, data, dateParses)
  {
    var o := "[object Object]";
    Text.TrimUnchanged(o);
    assert DigitRun(o) == 0;
    assert !("Infinity" <= o);
    assert UnsignedPrefix(o).None?;
  }
}
