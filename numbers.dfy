/**
 * JavaScript numbers as the screens and the store see them: `parseFloat` on a
 * cleaned currency string, `Number(x)` in the validator, `Math.round` of a
 * percentage, and the decimal text of an integer year.
 *
 * Finite values are exact decimals (`real`); rounding to IEEE-754 doubles,
 * overflow to Infinity and the sign of zero are not modelled.
 */
module Numbers {
  import opened Wrappers
  import Text

  /** A JavaScript number: NaN, a finite value, or an infinity of the given sign. */
  datatype JsNumber = NaN | Finite(value: real) | Infinity(negative: bool)

  /**
   * A JavaScript value, as far as `Number(x)` and truthiness need one. An
   * object or an array is carried with the text its `toString` gives
   * ("[object Object]" for `{}`, "" for `[]`), which is what `Number` reads.
   */
  datatype JsValue = Undefined | Null | Bool(b: bool) | Num(n: JsNumber) | Str(s: string) | Obj(text: string)

  predicate IsDigit(c: char) { '0' <= c <= '9' }

  predicate AllDigits(s: string) { forall i :: 0 <= i < |s| ==> IsDigit(s[i]) }

  /** The value of one decimal digit. */
  function DigitValue(c: char): nat
    requires IsDigit(c)
  {
    c as int - '0' as int
  }

  /** The value of a string of decimal digits (0 for the empty string). */
  function DigitsValue(d: string): nat
    requires AllDigits(d)
  {
    if d == [] then 0 else DigitsValue(d[..|d| - 1]) * 10 + DigitValue(d[|d| - 1])
  }

  function Pow10(n: nat): (r: nat)
    ensures r >= 1
  {
    if n == 0 then 1 else 10 * Pow10(n - 1)
  }

  /** The length of the run of digits at the start of `s`. */
  function DigitRun(s: string): (n: nat)
    ensures n <= |s| && AllDigits(s[..n])
    ensures n < |s| ==> !IsDigit(s[n])
  {
    if s != [] && IsDigit(s[0]) then
      var k := DigitRun(s[1..]);
      assert s[..k + 1] == [s[0]] + s[1..][..k];
      k + 1
    else 0
  }

  /** `e`/`E`, an optional sign and at least one digit at the start of `s`: the signed exponent and its length. */
  function ExponentPrefix(s: string): (r: Option<(int, nat)>)
    ensures r.Some? ==> 2 <= r.value.1 <= |s|
  {
    if s == [] || (s[0] != 'e' && s[0] != 'E') then None
    else
      var signLen := if |s| > 1 && (s[1] == '+' || s[1] == '-') then 1 else 0;
      var k := DigitRun(s[1 + signLen..]);
      if k == 0 then None
      else
        var v: int := DigitsValue(s[1 + signLen..][..k]);
        Some((if signLen == 1 && s[1] == '-' then -v else v, 1 + signLen + k))
  }

  /** `m * 10^e` for a signed exponent. */
  function Scale(m: real, e: int): real {
    if e >= 0 then m * (Pow10(e) as real) else m / (Pow10(-e) as real)
  }

  /**
   * The longest prefix of `s` that is an unsigned StrDecimalLiteral of
   * ECMAScript (digits, an optional fraction, an optional exponent, or
   * `Infinity`): its value and its length.
   */
  function UnsignedPrefix(s: string): (r: Option<(JsNumber, nat)>)
    ensures r.Some? ==> 1 <= r.value.1 <= |s|
  {
    if "Infinity" <= s then Some((Infinity(false), 8)) else FinitePrefix(s)
  }

  /** The digits, optional point and digits, and optional exponent of a finite StrUnsignedDecimalLiteral. */
  function FinitePrefix(s: string): (r: Option<(JsNumber, nat)>)
    ensures r.Some? ==> 1 <= r.value.1 <= |s|
  {
    var i := DigitRun(s);
    if i < |s| && s[i] == '.' then PointPrefix(s, i, DigitRun(s[i + 1..]))
    else if i == 0 then None
    else WithExponent(DigitsValue(s[..i]) as real, i, ExponentPrefix(s[i..]))
  }

  /** `i` digits, the point at `s[i]` and `j` digits after it: at least one digit is needed, on either side. */
  function PointPrefix(s: string, i: nat, j: nat): (r: Option<(JsNumber, nat)>)
    requires i < |s| && s[i] == '.' && AllDigits(s[..i]) && j <= |s| - i - 1 && AllDigits(s[i + 1..][..j])
    ensures r.Some? ==> 1 <= r.value.1 <= |s|
  {
    if i == 0 && j == 0 then None
    else
      AllDigitsJoin(s[..i], s[i + 1..][..j]);
      WithExponent((DigitsValue(s[..i] + s[i + 1..][..j]) as real) / (Pow10(j) as real), i + 1 + j, ExponentPrefix(s[i + 1 + j..]))
  }

  /** The mantissa `mant`, `mantLen` characters long, scaled by the exponent that follows it, if any. */
  function WithExponent(mant: real, mantLen: nat, exponent: Option<(int, nat)>): (r: Option<(JsNumber, nat)>)
    ensures r.Some? && r.value.1 >= mantLen
    ensures exponent.None? ==> r.value.1 == mantLen
    ensures exponent.Some? ==> r.value.1 == mantLen + exponent.value.1
  {
    match exponent
    case Some((e, len)) => Some((Finite(Scale(mant, e)), mantLen + len))
    case None => Some((Finite(mant), mantLen))
  }

  /** The longest prefix of `s` that is a StrDecimalLiteral (with an optional sign). */
  function DecimalPrefix(s: string): (r: Option<(JsNumber, nat)>)
    ensures r.Some? ==> 1 <= r.value.1 <= |s|
  {
    if s != [] && (s[0] == '+' || s[0] == '-') then
      match UnsignedPrefix(s[1..])
      case None => None
      case Some((n, len)) =>
        var neg := s[0] == '-';
        Some((if !neg then n
              else match n
                   case Finite(v) => Finite(-v)
                   case Infinity(_) => Infinity(true)
                   case NaN => NaN,
              len + 1))
    else UnsignedPrefix(s)
  }

  /** `parseFloat(s)`: skip leading whitespace, read the longest decimal prefix, NaN when there is none. */
  function ParseFloat(s: string): JsNumber {
    match DecimalPrefix(Text.TrimStart(s))
    case Some((n, _)) => n
    case None => NaN
  }

  /** JavaScript truthiness of a number: NaN and zero are falsy. */
  predicate Truthy(n: JsNumber) {
    match n
    case NaN => false
    case Finite(v) => v != 0.0
    case Infinity(_) => true
  }

  /** `n || 0`. */
  function OrZero(n: JsNumber): (r: JsNumber)
    ensures r != NaN
    ensures Truthy(n) ==> r == n
    ensures !Truthy(n) ==> r == Finite(0.0)
  {
    if Truthy(n) then n else Finite(0.0)
  }

  predicate IsHexDigit(c: char) {
    IsDigit(c) || 'a' <= c <= 'f' || 'A' <= c <= 'F'
  }

  /** A NonDecimalIntegerLiteral: `0x`/`0o`/`0b` and at least one digit of that base. */
  predicate IsNonDecimalLiteral(t: string) {
    && |t| >= 3 && t[0] == '0'
    && (|| ((t[1] == 'x' || t[1] == 'X') && (forall i :: 2 <= i < |t| ==> IsHexDigit(t[i])))
        || ((t[1] == 'o' || t[1] == 'O') && (forall i :: 2 <= i < |t| ==> '0' <= t[i] <= '7'))
        || ((t[1] == 'b' || t[1] == 'B') && (forall i :: 2 <= i < |t| ==> t[i] == '0' || t[i] == '1')))
  }

  /**
   * Whether `Number(s)` is NaN for a string `s`: after trimming, the empty
   * string is 0, and anything else must be a numeric literal in full.
   */
  predicate StringIsNaN(s: string) {
    var t := Text.Trim(s);
    && t != ""
    && !IsNonDecimalLiteral(t)
    && (match DecimalPrefix(t)
        case Some((_, len)) => len != |t|
        case None => true)
  }

  /** `isNaN(Number(v))`. */
  predicate NumberIsNaN(v: JsValue) {
    match v
    case Undefined => true
    case Null => false
    case Bool(_) => false
    case Num(n) => n == NaN
    case Str(s) => StringIsNaN(s)
    case Obj(text) => StringIsNaN(text)
  }

  /** `Math.round(c / t * 100)` for a positive denominator, computed exactly on integers. */
  function RoundPercent(c: int, t: int): (r: int)
    requires t > 0
    ensures 2 * r * t - t <= 200 * c < 2 * r * t + t
  {
    var q := (200 * c + t) / (2 * t);
    DivBounds(200 * c + t, 2 * t);
    q
  }

  /** Euclidean division by a positive divisor brackets the dividend. */
  lemma DivBounds(a: int, b: int)
    requires b > 0
    ensures (a / b) * b <= a < (a / b) * b + b
  {
  }

  /** A count out of a positive total rounds to a percentage between 0 and 100. */
  lemma RoundPercentRange(c: int, t: int)
    requires t > 0 && 0 <= c <= t
    ensures 0 <= RoundPercent(c, t) <= 100
  {
    var r := RoundPercent(c, t);
    assert (2 * r + 1) * t > 0 by { assert (2 * r + 1) * t == 2 * r * t + t; }
    PositiveFactor(2 * r + 1, t);
    assert (201 - 2 * r) * t >= 0 by { assert (201 - 2 * r) * t == 200 * t - (2 * r * t - t); MulMono(c, t, 200); }
    if 201 - 2 * r < 0 {
      MulMono(201 - 2 * r, -1, t);
    }
  }

  /** A product with a positive factor is positive only if the other factor is. */
  lemma PositiveFactor(x: int, t: int)
    requires t > 0 && x * t > 0
    ensures x > 0
  {
    if x <= 0 {
      MulMono(x, 0, t);
    }
  }

  /** The quotient is the one integer whose multiple brackets the dividend. */
  lemma DivUnique(a: int, b: int, q: int)
    requires b > 0 && q * b <= a < q * b + b
    ensures a / b == q
  {
    var d := a / b;
    DivBounds(a, b);
    if d > q {
      assert d * b >= (q + 1) * b by { MulMono(q + 1, d, b); }
    } else if d < q {
      assert q * b >= (d + 1) * b by { MulMono(d + 1, q, b); }
    }
  }

  lemma MulMono(x: int, y: int, b: int)
    requires x <= y && b > 0
    ensures x * b <= y * b
  {
    assert y * b - x * b == (y - x) * b;
  }

  /** All of a positive total is 100%, none of it 0%. */
  lemma RoundPercentEnds(t: int)
    requires t > 0
    ensures RoundPercent(t, t) == 100
    ensures RoundPercent(0, t) == 0
  {
    DivUnique(200 * t + t, 2 * t, 100);
    DivUnique(t, 2 * t, 0);
  }

  /** The decimal digits of a natural number. */
  function NatToString(n: nat): (s: string)
    ensures |s| >= 1 && AllDigits(s)
  {
    var d := ['0' + (n % 10) as char];
    if n < 10 then d else NatToString(n / 10) + d
  }

  /** `n.toString()` for an integer. */
  function IntToString(n: int): string {
    if n < 0 then "-" + NatToString(-n) else NatToString(n)
  }

  /** Round trip: reading back the digits of `n` gives `n`. */
  lemma {:induction false} NatToStringValue(n: nat)
    ensures DigitsValue(NatToString(n)) == n
  {
    var s := NatToString(n);
    if n >= 10 {
      NatToStringValue(n / 10);
      assert s[..|s| - 1] == NatToString(n / 10);
    }
  }

  /** A run of digits is read in full. */
  lemma {:induction false} DigitRunAll(d: string)
    requires AllDigits(d)
    ensures DigitRun(d) == |d|
  {
    if d != [] {
      DigitRunAll(d[1..]);
    }
  }

  /** Round trip: `parseFloat(String(n))` is `n` for every natural number. */
  lemma ParseFloatNatToString(n: nat)
    ensures ParseFloat(NatToString(n)) == Finite(n as real)
  {
    var s := NatToString(n);
    assert !Text.IsSpace(s[0]);
    assert Text.TrimStart(s) == s;
    DigitRunAll(s);
    NatToStringValue(n);
    assert !("Infinity" <= s) by { assert s[0] != 'I'; }
    assert s[0] != '+' && s[0] != '-';
    assert s[..|s|] == s;
    assert s[|s|..] == [];
    assert ExponentPrefix(s[|s|..]) == None;
    assert UnsignedPrefix(s) == Some((Finite(n as real), |s|));
  }

  /** A run of digits followed by a non-digit is read up to the non-digit. */
  lemma {:induction false} DigitRunPrefix(d: string, rest: string)
    requires AllDigits(d) && (rest == [] || !IsDigit(rest[0]))
    ensures DigitRun(d + rest) == |d|
  {
    if d != [] {
      assert (d + rest)[1..] == d[1..] + rest;
      DigitRunPrefix(d[1..], rest);
    } else {
      assert d + rest == rest;
    }
  }

  /**
   * `parseFloat` reads "digits.digits" as the decimal it writes, and stops
   * there when a character follows that cannot continue the number.
   */
  lemma ParseFloatDecimal(d: string, f: string, rest: string)
    requires AllDigits(d) && d != [] && AllDigits(f) && f != []
    requires rest == [] || (!IsDigit(rest[0]) && rest[0] != 'e' && rest[0] != 'E')
    ensures AllDigits(d + f)
    ensures ParseFloat(d + "." + f + rest) == Finite((DigitsValue(d + f) as real) / (Pow10(|f|) as real))
  {
    var s := d + "." + f + rest;
    DecimalRuns(s, d, f, rest);
    ParseFloatAt(s, |d|, |f|);
  }

  /** `ParseFloat` on a digit run, a point and a second digit run with no exponent after it. */
  lemma ParseFloatAt(s: string, i: nat, j: nat)
    requires !("Infinity" <= s) && DigitRun(s) == i && 0 < i < |s| && s[i] == '.'
    requires DigitRun(s[i + 1..]) == j && j > 0 && ExponentPrefix(s[i + 1 + j..]) == None
    ensures AllDigits(s[..i] + s[i + 1..][..j])
    ensures ParseFloat(s) == Finite((DigitsValue(s[..i] + s[i + 1..][..j]) as real) / (Pow10(j) as real))
  {
    assert IsDigit(s[0]) by { assert s[..i][0] == s[0]; }
    assert Text.TrimStart(s) == s;
    UnsignedAt(s, i, j);
    UnsignedOnly(s, UnsignedPrefix(s));
  }

  /** Text that starts with a digit has no sign for `DecimalPrefix` to read. */
  lemma UnsignedOnly(s: string, u: Option<(JsNumber, nat)>)
    requires s != [] && IsDigit(s[0]) && u == UnsignedPrefix(s)
    ensures DecimalPrefix(s) == u
  {
  }

  /** The facts `UnsignedAt` needs about "digits.digits" followed by neither a digit nor an exponent. */
  lemma DecimalRuns(s: string, d: string, f: string, rest: string)
    requires AllDigits(d) && d != [] && AllDigits(f) && f != [] && s == d + "." + f + rest
    requires rest == [] || (!IsDigit(rest[0]) && rest[0] != 'e' && rest[0] != 'E')
    ensures !("Infinity" <= s) && |d| < |s| && s[|d|] == '.'
    ensures DigitRun(s) == |d| && DigitRun(s[|d| + 1..]) == |f|
    ensures ExponentPrefix(s[|d| + 1 + |f|..]) == None
    ensures s[..|d|] + s[|d| + 1..][..|f|] == d + f
  {
    DecimalPieces(s, d, f, rest);
    assert !("Infinity" <= s) by { assert s[0] != 'I'; }
    NoExponent(rest);
    var tail := s[|d|..];
    assert s == d + tail && tail[0] == '.';
    DigitRunPrefix(d, tail);
    DigitRunPrefix(f, rest);
  }

  /** `UnsignedPrefix` on a digit run, a point and a second digit run with no exponent after it. */
  lemma UnsignedAt(s: string, i: nat, j: nat)
    requires !("Infinity" <= s) && DigitRun(s) == i && i < |s| && s[i] == '.'
    requires DigitRun(s[i + 1..]) == j && j > 0 && ExponentPrefix(s[i + 1 + j..]) == None
    ensures AllDigits(s[..i] + s[i + 1..][..j])
    ensures UnsignedPrefix(s) == Some((Finite((DigitsValue(s[..i] + s[i + 1..][..j]) as real) / (Pow10(j) as real)), i + 1 + j))
  {
    var digits := s[..i] + s[i + 1..][..j];
    AllDigitsJoin(s[..i], s[i + 1..][..j]);
    FiniteAt(s, i, j, digits);
  }

  /** `FinitePrefix` on a digit run, a point and a second digit run with no exponent after it. */
  lemma FiniteAt(s: string, i: nat, j: nat, digits: string)
    requires DigitRun(s) == i && i < |s| && s[i] == '.'
    requires DigitRun(s[i + 1..]) == j && j > 0 && ExponentPrefix(s[i + 1 + j..]) == None
    requires digits == s[..i] + s[i + 1..][..j] && AllDigits(digits)
    ensures FinitePrefix(s) == Some((Finite((DigitsValue(digits) as real) / (Pow10(j) as real)), i + 1 + j))
  {
    assert FinitePrefix(s) == PointPrefix(s, i, j);
  }

  /** Two digit strings joined are a digit string. */
  lemma AllDigitsJoin(a: string, b: string)
    requires AllDigits(a) && AllDigits(b)
    ensures AllDigits(a + b)
  {
    assert forall k :: |a| <= k < |a + b| ==> (a + b)[k] == b[k - |a|];
  }

  /** Text that does not start with `e` or `E` has no exponent. */
  lemma NoExponent(rest: string)
    requires rest == [] || (rest[0] != 'e' && rest[0] != 'E')
    ensures ExponentPrefix(rest) == None
  {
  }

  /** How "digits.digits" and what follows split around the point. */
  lemma DecimalPieces(s: string, d: string, f: string, rest: string)
    requires d != [] && s == d + "." + f + rest
    ensures s == d + ("." + f + rest) && s[0] == d[0]
    ensures s[|d|] == '.' && s[|d| + 1..] == f + rest && |s| == |d| + 1 + |f| + |rest|
    ensures s[..|d|] + s[|d| + 1..][..|f|] == d + f
    ensures s[|d| + 1 + |f|..] == rest
  {
    assert s[|d| + 1..] == f + rest;
  }

  /** `Number(String(n))` is not NaN. */
  lemma NatToStringIsNumber(n: nat)
    ensures !StringIsNaN(NatToString(n))
  {
    var s := NatToString(n);
    assert !Text.IsSpace(s[0]) && !Text.IsSpace(s[|s| - 1]);
    assert Text.Trim(s) == s;
    DigitRunAll(s);
    assert !("Infinity" <= s) by { assert s[0] != 'I'; }
  }
}
