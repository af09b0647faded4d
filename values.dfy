/** JavaScript values as the service receives them, and the JavaScript
    conversions its handlers apply to them.

    Everything the handlers read is parsed JSON: the bodies of the two
    upstream HTTP responses and the request body (server.js installs the
    JSON body parser). A missing property reads as `undefined`. JSON has no
    NaN, and every JSON number literal is read as its exact real, one too
    large for a double (`1e400`, which `JSON.parse` turns into `Infinity`)
    included, so `Num` holds a finite number; floating-point rounding and
    overflow are not modelled. NaN only arises from `Number(...)`, modelled
    by `ToNumber`. */
module Values {

  datatype Option<+T> = None | Some(value: T)

  /** A JSON value, or `undefined`. The handlers also pass `Null` to the
      database where they mean SQL NULL. */
  datatype Js =
    | Undefined
    | Null
    | Bool(b: bool)
    | Num(n: real)
    | Str(s: string)
    | Arr(items: seq<Js>)
    | Obj(fields: map<string, Js>)

  /** What `Number(v)` evaluates to: a finite number or NaN. */
  datatype Number = Finite(value: real) | NaN

  /** JavaScript truthiness: what `if (v)` and `v || w` test. */
  predicate Truthy(v: Js) {
    match v
    case Undefined => false
    case Null => false
    case Bool(b) => b
    case Num(n) => n != 0.0
    case Str(s) => s != ""
    case Arr(_) => true
    case Obj(_) => true
  }

  predicate Nullish(v: Js) {
    v.Undefined? || v.Null?
  }

  /** `v || null`: a truthy value is kept, anything falsy becomes null. */
  function OrNull(v: Js): (r: Js)
    ensures Truthy(r) || r == Null
    ensures Truthy(v) ==> r == v
    ensures !Truthy(v) ==> r == Null
  {
    if Truthy(v) then v else Null
  }

  /** `v?.key`: the own property of an object, `undefined` otherwise. On a
      non-nullish value this is also what `v.key` gives; on a nullish one
      `v.key` throws, which callers check with `Nullish` first. */
  function Prop(v: Js, key: string): Js {
    if v.Obj? && key in v.fields then v.fields[key] else Undefined
  }

  // ---------------------------------------------------------------------
  // String.prototype.trim

  /** The characters `trim()` removes: WhiteSpace and LineTerminator of
      ECMAScript (tab, vertical tab, form feed, space, no-break space,
      byte-order mark, the Unicode space separators, LF, CR, LS, PS). */
  predicate IsJsSpace(c: char) {
    c == '\t' || c == '\n' || c == '\U{0B}' || c == '\U{0C}' || c == '\r' ||
    c == ' ' || c == '\U{A0}' || c == '\U{1680}' ||
    ('\U{2000}' <= c <= '\U{200A}') ||
    c == '\U{2028}' || c == '\U{2029}' || c == '\U{202F}' || c == '\U{205F}' ||
    c == '\U{3000}' || c == '\U{FEFF}'
  }

  /** The suffix of `s` left after dropping its leading white space. */
  function TrimStart(s: string): (r: string)
    ensures |r| <= |s| && r == s[|s| - |r|..]
    ensures r != [] ==> !IsJsSpace(r[0])
    ensures forall i :: 0 <= i < |s| - |r| ==> IsJsSpace(s[i])
  {
    if s != [] && IsJsSpace(s[0]) then TrimStart(s[1..]) else s
  }

  /** The prefix of `s` left after dropping its trailing white space. */
  function TrimEnd(s: string): (r: string)
    ensures |r| <= |s| && r == s[..|r|]
    ensures r != [] ==> !IsJsSpace(r[|r| - 1])
    ensures forall i :: |r| <= i < |s| ==> IsJsSpace(s[i])
  {
    if s != [] && IsJsSpace(s[|s| - 1]) then TrimEnd(s[..|s| - 1]) else s
  }

  /** `s.trim()` */
  function Trim(s: string): string {
    TrimEnd(TrimStart(s))
  }

  predicate AllSpace(s: string) {
    forall i :: 0 <= i < |s| ==> IsJsSpace(s[i])
  }

  /** `s.trim()` is empty exactly when `s` is white space only. */
  lemma TrimEmptyIffAllSpace(s: string)
    ensures Trim(s) == "" <==> AllSpace(s)
  {
  }

  /** A trimmed string neither starts nor ends with white space, and
      trimming it again changes nothing. */
  lemma TrimShape(s: string)
    ensures Trim(s) != "" ==> !IsJsSpace(Trim(s)[0]) && !IsJsSpace(Trim(s)[|Trim(s)| - 1])
    ensures Trim(Trim(s)) == Trim(s)
  {
    var t := TrimStart(s);
    var r := TrimEnd(t);
    if r != "" {
      assert r[0] == t[0];
    }
    NoEdgeSpaceTrimsToItself(r);
  }

  /** A string that neither starts nor ends with white space is its own trim. */
  lemma NoEdgeSpaceTrimsToItself(s: string)
    requires s != "" ==> !IsJsSpace(s[0]) && !IsJsSpace(s[|s| - 1])
    ensures Trim(s) == s
  {
  }

  // ---------------------------------------------------------------------
  // Number(...)

  predicate IsDigit(c: char) {
    '0' <= c <= '9'
  }

  predicate AllDigits(s: string) {
    forall i :: 0 <= i < |s| ==> IsDigit(s[i])
  }

  function DigitValue(c: char): nat
    requires IsDigit(c)
  {
    c as int - '0' as int
  }

  /** The value of a string of decimal digits, most significant first. */
  function DigitsValue(s: string): nat
    requires AllDigits(s)
  {
    if s == [] then 0 else DigitsValue(s[..|s| - 1]) * 10 + DigitValue(s[|s| - 1])
  }

  function Pow10(n: nat): (r: real)
    ensures r >= 1.0
  {
    if n == 0 then 1.0 else 10.0 * Pow10(n - 1)
  }

  /** 10 to the power `e`, for any integer `e`. */
  function Scale(e: int): (r: real)
    ensures r > 0.0
  {
    if e >= 0 then Pow10(e) else 1.0 / Pow10(-e)
  }

  /** The index of the first occurrence of `a` or `b` in `s`, or `|s|`. */
  function FindEither(s: string, a: char, b: char): (k: nat)
    ensures k <= |s|
    ensures forall i :: 0 <= i < k ==> s[i] != a && s[i] != b
    ensures k < |s| ==> s[k] == a || s[k] == b
  {
    if s == [] then 0
    else if s[0] == a || s[0] == b then 0
    else 1 + FindEither(s[1..], a, b)
  }

  /** A digit string, optionally signed: the exponent of a decimal literal. */
  function SignedDigits(s: string): Option<int> {
    if s != [] && (s[0] == '+' || s[0] == '-') then
      var d := s[1..];
      if d != [] && AllDigits(d) then
        var v: int := DigitsValue(d);
        Some(if s[0] == '-' then -v else v)
      else None
    else if s != [] && AllDigits(s) then Some(DigitsValue(s))
    else None
  }

  /** An unsigned decimal literal: digits with an optional fraction (at
      least one digit in all) and an optional exponent `e`/`E`. */
  function UnsignedDecimal(s: string): Option<real> {
    var k := FindEither(s, 'e', 'E');
    var mantissa := s[..k];
    var exponent := if k < |s| then SignedDigits(s[k + 1..]) else Some(0);
    var dot := FindEither(mantissa, '.', '.');
    var whole := mantissa[..dot];
    var fraction := if dot < |mantissa| then mantissa[dot + 1..] else "";
    if exponent.Some? && AllDigits(whole) && AllDigits(fraction) && |whole| + |fraction| > 0 then
      var m := DigitsValue(whole) as real + DigitsValue(fraction) as real / Pow10(|fraction|);
      Some(m * Scale(exponent.value))
    else None
  }

  /** `Number(s)` for a string: surrounding white space is ignored, the
      empty string is 0, otherwise a signed decimal literal or NaN. */
  function StringToNumber(s: string): Number {
    var t := Trim(s);
    if t == "" then Finite(0.0)
    else
      var negative := t[0] == '-';
      var body := if t[0] == '-' || t[0] == '+' then t[1..] else t;
      match UnsignedDecimal(body)
      case Some(v) => Finite(if negative then -v else v)
      case None => NaN
  }

  /** `Number(v)`. An array converts through its string form
      `items.join(",")`: empty is 0, one item converts like that item
      (null and undefined print as the empty string, booleans and objects
      as words), two or more contain a comma and give NaN. */
  function ToNumber(v: Js): Number {
    match v
    case Undefined => NaN
    case Null => Finite(0.0)
    case Bool(b) => Finite(if b then 1.0 else 0.0)
    case Num(n) => Finite(n)
    case Str(s) => StringToNumber(s)
    case Obj(_) => NaN
    case Arr(items) =>
      if |items| == 0 then Finite(0.0)
      else if |items| > 1 then NaN
      else
        match items[0]
        case Undefined => Finite(0.0)
        case Null => Finite(0.0)
        case Bool(_) => NaN
        case Obj(_) => NaN
        case _ => ToNumber(items[0])
  }

  /** The canonical decimal spelling of a natural number. */
  function NatToString(n: nat): (s: string)
    ensures s != [] && AllDigits(s)
  {
    var d := ['0' + (n % 10) as char];
    if n < 10 then d else NatToString(n / 10) + d
  }

  lemma {:induction false} DigitsValueOfNatToString(n: nat)
    ensures DigitsValue(NatToString(n)) == n
  {
    var s := NatToString(n);
    if n >= 10 {
      DigitsValueOfNatToString(n / 10);
      assert s[..|s| - 1] == NatToString(n / 10);
    }
  }

  /** A non-empty digit string is an unsigned decimal literal of its value. */
  lemma DigitStringDecimal(s: string)
    requires s != [] && AllDigits(s)
    ensures UnsignedDecimal(s) == Some(DigitsValue(s) as real)
  {
    var k := FindEither(s, 'e', 'E');
    assert k == |s| && s[..k] == s;
    var dot := FindEither(s, '.', '.');
    assert dot == |s| && s[..dot] == s;
    assert DigitsValue("") == 0;
    assert Scale(0) == 1.0;
  }

  /** A plain string of digits is read as its decimal value. */
  lemma DigitStringNumber(s: string)
    requires s != [] && AllDigits(s)
    ensures StringToNumber(s) == Finite(DigitsValue(s) as real)
  {
    assert !IsJsSpace(s[0]) && !IsJsSpace(s[|s| - 1]);
    NoEdgeSpaceTrimsToItself(s);
    DigitStringDecimal(s);
  }

  /** `Number` reads back the decimal spelling of every natural number. */
  lemma NumberOfNatString(n: nat)
    ensures ToNumber(Str(NatToString(n))) == Finite(n as real)
  {
    DigitStringNumber(NatToString(n));
    DigitsValueOfNatToString(n);
  }
}
