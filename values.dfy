/** The JSON-like values that requirement and catalogue specifications hold,
    with the Python operations the matcher applies to them: truthiness,
    `float()` and `==`. A Python float is a real number here. */
module Values {
  import opened Strings

  datatype Value =
    | Null
    | Bool(b: bool)
    | Int(i: int)
    | Float(r: real)
    | Str(s: string)
    | List(items: seq<Value>)

  /** A catalogue model's specifications (a JSON object; only lookup and size are used). */
  type Specs = map<string, Value>

  /** bool(v). */
  predicate Truthy(v: Value) {
    match v
    case Null => false
    case Bool(b) => b
    case Int(i) => i != 0
    case Float(r) => r != 0.0
    case Str(s) => s != ""
    case List(items) => items != []
  }

  /** isinstance(v, (int, float)); a Python bool is an int. */
  predicate IsNumber(v: Value) {
    v.Bool? || v.Int? || v.Float?
  }

  /** float(v) for a number (True is 1.0, False is 0.0). */
  function NumberValue(v: Value): real
    requires IsNumber(v)
  {
    match v
    case Bool(b) => if b then 1.0 else 0.0
    case Int(i) => i as real
    case Float(r) => r
  }

  /** The value of the decimal literal with whole part `whole` and fraction digits `frac`. */
  function DecimalValue(whole: string, frac: string): real
    requires AllDigits(whole) && AllDigits(frac)
  {
    NatValue(whole) as real + NatValue(frac) as real / Pow10(|frac|) as real
  }

  /** A decimal literal: digits, optionally a point and more digits, not both parts empty. */
  function ParseDecimal(u: string): (r: Option<real>)
    ensures r.Some? ==> r.value >= 0.0
  {
    var i := IndexOfChar(u, '.');
    if i == |u| then
      (if IsDigitString(u) then Some(NatValue(u) as real) else None)
    else
      var a := u[..i];
      var b := u[i + 1..];
      if AllDigits(a) && AllDigits(b) && |a| + |b| > 0 then
        Some(DecimalValue(a, b))
      else None
  }

  /** Python's float() on a string: surrounding whitespace, an optional sign, a decimal literal. */
  function ParseFloat(s: string): Option<real> {
    var t := Strip(s);
    if |t| > 0 && (t[0] == '-' || t[0] == '+') then
      match ParseDecimal(t[1..])
      case Some(x) => Some(if t[0] == '-' then -x else x)
      case None => None
    else ParseDecimal(t)
  }

  /** The number a value stands for when the matcher compares numerically:
      a number itself, or a string that float() accepts once every comma is a point. */
  function NumOf(v: Value): Option<real> {
    if IsNumber(v) then Some(NumberValue(v))
    else if v.Str? then ParseFloat(ReplaceAll(v.s, ",", "."))
    else None
  }

  /** Python's `==` on these values: numbers by value across bool/int/float, lists element by element. */
  predicate PyEq(a: Value, b: Value)
    decreases a
  {
    if IsNumber(a) && IsNumber(b) then NumberValue(a) == NumberValue(b)
    else match (a, b)
      case (Null, Null) => true
      case (Str(x), Str(y)) => x == y
      case (List(x), List(y)) => |x| == |y| && forall i | 0 <= i < |x| :: PyEq(x[i], y[i])
      case _ => false
  }

  lemma {:induction false} PyEqReflexive(a: Value)
    ensures PyEq(a, a)
    decreases a
  {
    if a.List? {
      forall i | 0 <= i < |a.items| ensures PyEq(a.items[i], a.items[i]) {
        PyEqReflexive(a.items[i]);
      }
    }
  }

  /** A digit string is a decimal literal with its own value. */
  lemma ParseDecimalOfDigits(u: string)
    requires IsDigitString(u)
    ensures ParseDecimal(u) == Some(NatValue(u) as real)
  {
    assert IndexOfChar(u, '.') == |u| by {
      assert forall k | 0 <= k < |u| :: IsDigit(u[k]);
    }
  }

  /** float(str(i)) == i. */
  lemma {:induction false} ParseFloatOfInt(i: int)
    ensures ParseFloat(IntToString(i)) == Some(i as real)
  {
    var s := IntToString(i);
    StripIntToString(i);
    if i < 0 {
      var u := NatToString(-i);
      assert s[0] == '-' && s[1..] == u;
      NatValueOfNatToString(-i);
      ParseDecimalOfDigits(u);
    } else {
      assert IsDigit(s[0]);
      NatValueOfNatToString(i);
      ParseDecimalOfDigits(s);
    }
  }

  /** float("<a>.<b>") for digit strings a and b. */
  lemma {:induction false} ParseFloatOfDecimal(a: string, b: string)
    requires AllDigits(a) && AllDigits(b) && |a| + |b| > 0
    ensures ParseFloat(a + "." + b) == Some(DecimalValue(a, b))
  {
    DecimalTextPlain(a, b);
    ParseDecimalSplit(a, b);
  }

  /** The text "<a>.<b>" has no surrounding whitespace and no sign. */
  lemma DecimalTextPlain(a: string, b: string)
    requires AllDigits(a) && AllDigits(b) && |a| + |b| > 0
    ensures var s := a + "." + b; Strip(s) == s && s[0] != '-' && s[0] != '+'
  {
    var s := a + "." + b;
    if |a| > 0 { assert s[0] == a[0]; } else { assert s[0] == '.'; }
    if |b| > 0 { assert s[|s| - 1] == b[|b| - 1]; } else { assert s[|s| - 1] == '.'; }
    StripNoSpace(s);
  }

  /** The decimal literal "<a>.<b>" splits at its point. */
  lemma ParseDecimalSplit(a: string, b: string)
    requires AllDigits(a) && AllDigits(b) && |a| + |b| > 0
    ensures ParseDecimal(a + "." + b) == Some(DecimalValue(a, b))
  {
    var s := a + "." + b;
    assert s[|a|] == '.';
    assert forall k | 0 <= k < |a| :: s[k] == a[k];
    assert IndexOfChar(s, '.') == |a|;
    assert s[..|a|] == a && s[|a| + 1..] == b;
  }
}
