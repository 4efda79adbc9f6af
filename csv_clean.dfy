/** clean_spec_value of the catalogue import: a CSV cell becomes a catalogue
    value according to the class of its canonical key — numeric keys keep
    the first whole number unless the text looks like an expression, the
    power key prefers a number followed by a watt unit, boolean keys look
    for yes/no phrases, and every other key keeps the trimmed text. */
module CsvClean {
  import opened Strings
  import Values

  /** A pandas cell as read from a CSV file. A float cell carries its value and the text str() gives for it. */
  datatype Cell = NaN | Str(s: string) | Int(i: int) | Float(x: real, repr: string) | Bool(b: bool)

  /** str() of a cell. */
  function CellText(c: Cell): string {
    match c
    case NaN => "nan"
    case Str(s) => s
    case Int(i) => IntToString(i)
    case Float(_, repr) => repr
    case Bool(b) => if b then "True" else "False"
  }

  /** bool() of a cell; NaN is truthy. */
  predicate CellTruthy(c: Cell) {
    match c
    case NaN => true
    case Str(s) => s != ""
    case Int(i) => i != 0
    case Float(x, _) => x != 0.0
    case Bool(b) => b
  }

  /** The texts that stand for "no value". */
  const Placeholders: seq<string> := ["", "-", "—", "н/д", "N/A", "n/a"]

  const NumericKeys: set<string> := {
    "ports_1g_sfp", "ports_10g_sfp", "ports_1000base_t",
    "ports_100base_t", "ports_25g_sfp", "ports_40g_qsfp",
    "ports_100g_qsfp", "ports_combo", "ports_poe",
    "ram_gb", "flash_mb", "packet_buffer_mb",
    "mac_table_size", "vlan_count", "max_routes",
    "mtbf_hours", "weight_kg"}

  const BooleanKeys: set<string> := {
    "ipv6_support", "poe_support", "vlan_support",
    "snmp_support", "ssh_support", "redundancy_support",
    "stacking_support", "mpls_support", "bgp_support",
    "ospf_support", "igmp_support", "qos_support",
    "acl_support", "sflow_support", "netflow_support"}

  const PowerKey: string := "power_watt"

  /** "supported", and its negation, which contains it. */
  const Supported: string := "поддерживается"
  const NotSupported: string := "не " + Supported

  const Positive: seq<string> := ["да", "yes", "+", "true", Supported, "есть", "имеется"]
  const Negative: seq<string> := ["нет", "no", "-", "false", NotSupported, "отсутствует"]

  // ───────────────────────── expression markers ─────────────────────────

  /** The lower-case word `w` occurs at `i`, in any case, between word boundaries (`\bw\b` ignoring case). */
  predicate WordAt(s: string, w: string, i: nat) {
    i + |w| <= |s| && Lower(s[i..i + |w|]) == w
    && (i == 0 || !IsWordChar(s[i - 1])) && (i + |w| == |s| || !IsWordChar(s[i + |w|]))
  }

  predicate HasWord(s: string, w: string) {
    exists i: nat | i <= |s| :: WordAt(s, w, i)
  }

  predicate IsOperatorChar(c: char) {
    c == '+' || c == '-' || c == '*' || c == '/'
  }

  /** The text looks like an expression: the word "по", the Cyrillic or Latin "x", or an arithmetic sign. */
  predicate IsComplex(s: string) {
    HasWord(s, "по") || HasWord(s, "х") || HasWord(s, "x")
    || exists i | 0 <= i < |s| :: IsOperatorChar(s[i])
  }

  // ───────────────────────── power ─────────────────────────

  /** Where `\d+\.?\d*` begun at the digit `i` has to end for anything to follow it:
      the digit run, and when a point follows, the point and the next digit run. */
  function NumberEnd(s: string, i: nat): (e: nat)
    requires i < |s| && IsDigit(s[i])
    ensures i < e <= |s|
  {
    var r := DigitRunEnd(s, i);
    if r < |s| && s[r] == '.' then DigitRunEnd(s, r + 1) else r
  }

  /** The first position at or after `j` that is not whitespace. */
  function SkipSpaces(s: string, j: nat): (k: nat)
    requires j <= |s|
    ensures j <= k <= |s|
    ensures forall i | j <= i < k :: IsSpace(s[i])
    ensures k < |s| ==> !IsSpace(s[k])
    decreases |s| - j
  {
    if j < |s| && IsSpace(s[j]) then SkipSpaces(s, j + 1) else j
  }

  /** A watt unit starts at `j`: Вт or W in any case. */
  predicate UnitAt(s: string, j: nat) {
    (j + 2 <= |s| && Lower(s[j..j + 2]) == "вт") || (j < |s| && LowerChar(s[j]) == 'w')
  }

  /** `(\d+\.?\d*)\s*(?:Вт|W|вт|w)` matches at `i`. */
  predicate PowerAt(s: string, i: nat) {
    i < |s| && IsDigit(s[i]) && UnitAt(s, SkipSpaces(s, NumberEnd(s, i)))
  }

  /** The first position at or after `j` where the power pattern matches, or |s|. */
  function FirstPowerFrom(s: string, j: nat): (k: nat)
    requires j <= |s|
    ensures j <= k <= |s|
    ensures k < |s| ==> PowerAt(s, k)
    ensures forall i | j <= i < k :: !PowerAt(s, i)
    decreases |s| - j
  {
    if j == |s| || PowerAt(s, j) then j
    else
      var k := FirstPowerFrom(s, j + 1);
      assert forall i | j + 1 <= i < k :: !PowerAt(s, i);
      k
  }

  /** int(float(group 1)) of the leftmost power match: its whole part. */
  function PowerNumber(s: string): (r: Option<nat>)
    ensures r.Some? <==> exists i | 0 <= i < |s| :: PowerAt(s, i)
  {
    var k := FirstPowerFrom(s, 0);
    if k == |s| then None else Some(NatValue(s[k..DigitRunEnd(s, k)]))
  }

  // ───────────────────────── booleans ─────────────────────────

  /** Some phrase of `ps` occurs in `s`. */
  predicate AnyIn(ps: seq<string>, s: string) {
    exists i | 0 <= i < |ps| :: Contains(s, ps[i])
  }

  /** The boolean branch as written: the positive phrases are looked for first. */
  function BooleanOfAsWritten(t: string): (r: Option<bool>)
    ensures r == Some(true) <==> AnyIn(Positive, Lower(t))
    ensures r == Some(false) <==> !AnyIn(Positive, Lower(t)) && AnyIn(Negative, Lower(t))
  {
    var v := Lower(t);
    if AnyIn(Positive, v) then Some(true)
    else if AnyIn(Negative, v) then Some(false)
    else None
  }

  /** The boolean branch with the negated phrase "не поддерживается" looked for before the
      positive phrase it contains. */
  function BooleanOf(t: string): (r: Option<bool>)
    ensures Contains(Lower(t), NotSupported) ==> r == Some(false)
    ensures !Contains(Lower(t), NotSupported) ==> r == BooleanOfAsWritten(t)
  {
    if Contains(Lower(t), NotSupported) then Some(false) else BooleanOfAsWritten(t)
  }

  // ───────────────────────── the cleaner ─────────────────────────

  /** The trimmed text of a cell that holds a value, or None for NaN and the placeholders. */
  function Trimmed(value: Cell): (r: Option<string>)
    ensures r.None? <==> value.NaN? || Strip(CellText(value)) in Placeholders
    ensures r.Some? ==> r.value == Strip(CellText(value)) && r.value != ""
  {
    if value.NaN? then None
    else
      var t := Strip(CellText(value));
      if t in Placeholders then None else Some(t)
  }

  /** The numeric branch: None for an expression, else the whole part of the first number. */
  function NumericOf(t: string): (r: Option<nat>)
    ensures IsComplex(t) ==> r.None?
    ensures !IsComplex(t) ==> (r.None? <==> forall i | 0 <= i < |t| :: !IsDigit(t[i]))
  {
    if IsComplex(t) then None else FirstNumber(t)
  }

  /** A text that is no expression reads as the digit run that follows its digit-free beginning. */
  lemma NumericOfFirstRun(p: string, digits: string, rest: string)
    requires !IsComplex(p + digits + rest)
    requires forall i | 0 <= i < |p| :: !IsDigit(p[i])
    requires IsDigitString(digits)
    requires rest == [] || !IsDigit(rest[0])
    ensures NumericOf(p + digits + rest) == Some(NatValue(digits))
  {
    FirstNumberAfter(p, digits, rest);
  }

  /** The power branch: the number before a watt unit, else the first number. */
  function PowerOf(t: string): (r: Option<nat>)
    ensures PowerNumber(t).Some? ==> r == PowerNumber(t)
    ensures PowerNumber(t).None? ==> r == FirstNumber(t)
    ensures r.None? <==> forall i | 0 <= i < |t| :: !IsDigit(t[i])
  {
    if PowerNumber(t).Some? then PowerNumber(t) else FirstNumber(t)
  }

  function IntValue(n: Option<nat>): Option<Values.Value> {
    if n.Some? then Some(Values.Int(n.value)) else None
  }

  function BoolValue(b: Option<bool>): Option<Values.Value> {
    if b.Some? then Some(Values.Bool(b.value)) else None
  }

  /** Which branch of the cleaner a canonical key takes; the numeric set is looked at first. */
  datatype KeyClass = Numeric | Power | Boolean | Text

  function ClassOf(key: string): KeyClass {
    if key in NumericKeys then Numeric
    else if key == PowerKey then Power
    else if key in BooleanKeys then Boolean
    else Text
  }

  /** clean_spec_value as written: its boolean branch reports "не поддерживается" as supported. */
  function CleanSpecValueAsWritten(key: string, value: Cell): (r: Option<Values.Value>)
    ensures ClassOf(key) == Boolean && Trimmed(value).Some? ==> r == BoolValue(BooleanOfAsWritten(Trimmed(value).value))
    ensures !(ClassOf(key) == Boolean && Trimmed(value).Some?) ==> r == CleanSpecValue(key, value)
  {
    if ClassOf(key) == Boolean && Trimmed(value).Some? then BoolValue(BooleanOfAsWritten(Trimmed(value).value))
    else CleanSpecValue(key, value)
  }

  /** clean_spec_value: None for a missing value or a placeholder; otherwise by the class of the key. */
  function CleanSpecValue(key: string, value: Cell): (r: Option<Values.Value>)
    ensures Trimmed(value).None? ==> r.None?
    ensures ClassOf(key) == Numeric && r.Some? ==> r.value.Int? && r.value.i >= 0
    ensures ClassOf(key) == Power && r.Some? ==> r.value.Int? && r.value.i >= 0
    ensures ClassOf(key) == Boolean && r.Some? ==> r.value.Bool?
    ensures ClassOf(key) == Text ==> r == if Trimmed(value).Some? then Some(Values.Str(Trimmed(value).value)) else None
  {
    CleanByClass(ClassOf(key), value)
  }

  /** The cleaner once the class of the key is known. */
  function CleanByClass(c: KeyClass, value: Cell): (r: Option<Values.Value>)
    ensures Trimmed(value).None? ==> r.None?
    ensures (c == Numeric || c == Power) && r.Some? ==> r.value.Int? && r.value.i >= 0
    ensures c == Boolean && r.Some? ==> r.value.Bool?
    ensures c == Text ==> r == if Trimmed(value).Some? then Some(Values.Str(Trimmed(value).value)) else None
  {
    match Trimmed(value)
    case None => None
    case Some(t) =>
      match c
      case Numeric => IntValue(NumericOf(t))
      case Power => IntValue(PowerOf(t))
      case Boolean => BoolValue(BooleanOf(t))
      case Text => Some(Values.Str(t))
  }

  // ───────────────────────── properties ─────────────────────────

  /** A word that starts with a character no character of `s` lowers to does not occur in `s`. */
  lemma NoWordAt(s: string, w: string)
    requires |w| > 0 && forall k | 0 <= k < |s| :: LowerChar(s[k]) != w[0]
    ensures !HasWord(s, w)
  {
    forall i: nat | i <= |s| ensures !WordAt(s, w, i) {
      if i + |w| <= |s| {
        assert Lower(s[i..i + |w|])[0] == LowerChar(s[i]);
      }
    }
  }

  /** A text of digits and points is not an expression. */
  lemma DigitsNotComplex(s: string)
    requires forall k | 0 <= k < |s| :: IsDigit(s[k]) || s[k] == '.'
    ensures !IsComplex(s)
  {
    NoWordAt(s, "по");
    NoWordAt(s, "х");
    NoWordAt(s, "x");
  }

  /** A text that no placeholder starts like is kept by the trimming step. */
  lemma TrimmedAs(c: Cell, t: string)
    requires !c.NaN? && Strip(CellText(c)) == t
    requires |t| > 3 || (|t| > 0 && IsDigit(t[0]))
    ensures Trimmed(c) == Some(t)
  {
    forall i | 0 <= i < |Placeholders| ensures Placeholders[i] != t {
      PlaceholderShape(i);
    }
  }

  /** Every placeholder is short and starts with no digit. */
  lemma PlaceholderShape(i: nat)
    requires i < |Placeholders|
    ensures |Placeholders[i]| <= 3 && (Placeholders[i] == "" || !IsDigit(Placeholders[i][0]))
  {
  }

  /** The numeric branch on a text of digits and points: the whole part of its first number. */
  lemma NumericOfDigitText(w: string, rest: string)
    requires IsDigitString(w) && forall k | 0 <= k < |rest| :: rest[k] == '.' || IsDigit(rest[k])
    requires rest == [] || rest[0] == '.'
    ensures NumericOf(w + rest) == Some(NatValue(w))
  {
    var t := w + rest;
    assert forall k | 0 <= k < |t| :: IsDigit(t[k]) || t[k] == '.' by {
      assert forall k | 0 <= k < |w| :: t[k] == w[k];
      assert forall k | |w| <= k < |t| :: t[k] == rest[k - |w|];
    }
    DigitsNotComplex(t);
    FirstNumberLeading(w, rest);
  }

  /** A cell of a numeric column that holds a value goes through the numeric branch. */
  lemma CleanNumeric(key: string, c: Cell, t: string)
    requires ClassOf(key) == Numeric && Trimmed(c) == Some(t)
    ensures CleanSpecValue(key, c) == IntValue(NumericOf(t))
  {
  }

  /** A whole number in a numeric column is kept as it is. */
  lemma NumericOfNat(key: string, n: nat)
    requires ClassOf(key) == Numeric
    ensures CleanSpecValue(key, Int(n)) == Some(Values.Int(n))
  {
    var t := IntToString(n);
    StripIntToString(n);
    assert t == t + "";
    TrimmedAs(Int(n), t);
    NumericOfDigitText(t, "");
    CleanNumeric(key, Int(n), t);
    NatValueOfNatToString(n);
  }

  /** A negative number in a numeric column is dropped: its minus sign reads as an expression. */
  lemma NumericOfNegative(key: string, i: int)
    requires ClassOf(key) == Numeric && i < 0
    ensures CleanSpecValue(key, Int(i)) == None
  {
    var t := IntToString(i);
    StripIntToString(i);
    assert IsOperatorChar(t[0]);
  }

  /** A float in a numeric column keeps its whole part (int() truncates). */
  lemma NumericOfFloat(key: string, x: real, whole: nat, fraction: string)
    requires ClassOf(key) == Numeric && AllDigits(fraction)
    ensures CleanSpecValue(key, Float(x, NatToString(whole) + "." + fraction)) == Some(Values.Int(whole))
  {
    var t := NatToString(whole) + "." + fraction;
    FloatText(x, whole, fraction);
    CleanNumeric(key, Float(x, t), t);
  }

  /** The text of such a float is kept by the trimming step and reads as its whole part. */
  lemma FloatText(x: real, whole: nat, fraction: string)
    requires AllDigits(fraction)
    ensures var t := NatToString(whole) + "." + fraction;
      Trimmed(Float(x, t)) == Some(t) && NumericOf(t) == Some(whole)
  {
    var w := NatToString(whole);
    var t := w + ("." + fraction);
    assert t == w + "." + fraction;
    FloatTextStripped(w, fraction);
    assert t[0] == w[0];
    TrimmedAs(Float(x, t), t);
    DotDigits(fraction);
    NumericOfDigitText(w, "." + fraction);
    NatValueOfNatToString(whole);
  }

  /** A point followed by digits holds only points and digits. */
  lemma DotDigits(fraction: string)
    requires AllDigits(fraction)
    ensures forall k | 0 <= k < |"." + fraction| :: ("." + fraction)[k] == '.' || IsDigit(("." + fraction)[k])
  {
    forall k | 0 <= k < |"." + fraction| ensures ("." + fraction)[k] == '.' || IsDigit(("." + fraction)[k]) {
      if k > 0 {
        assert ("." + fraction)[k] == fraction[k - 1];
      }
    }
  }

  /** The text of a float written as digits, a point and digits has no space to strip. */
  lemma FloatTextStripped(w: string, fraction: string)
    requires IsDigitString(w) && AllDigits(fraction)
    ensures Strip(w + ("." + fraction)) == w + ("." + fraction)
  {
    var t := w + ("." + fraction);
    forall i | 0 <= i < |t| ensures !IsSpace(t[i]) {
      if i < |w| {
        assert t[i] == w[i];
      } else if i > |w| {
        assert t[i] == fraction[i - |w| - 1];
      }
    }
    StripNoSpaceAnywhere(t);
  }

  lemma FirstPowerFromAt(s: string, j: nat, k: nat)
    requires j <= k < |s| && PowerAt(s, k)
    requires forall i | j <= i < k :: !PowerAt(s, i)
    ensures FirstPowerFrom(s, j) == k
    decreases k - j
  {
    if j < k {
      FirstPowerFromAt(s, j + 1, k);
    }
  }

  /** The power branch takes the whole part of the leftmost power match. */
  lemma PowerOfAt(s: string, k: nat)
    requires k < |s| && PowerAt(s, k) && forall i | 0 <= i < k :: !PowerAt(s, i)
    ensures PowerOf(s) == Some(NatValue(s[k..DigitRunEnd(s, k)]))
  {
    FirstPowerFromAt(s, 0, k);
  }

  /** Digits directly followed by a watt unit match the power pattern where they start. */
  lemma PowerAtDigits(p: string, d: string, u: string)
    requires IsDigitString(d) && UnitAt(u, 0)
    ensures PowerAt(p + d + u, |p|)
    ensures DigitRunEnd(p + d + u, |p|) == |p| + |d|
  {
    var s := p + d + u;
    var e := |p| + |d|;
    assert s[e] == u[0];
    DigitRunEndAt(s, |p|, e);
    assert NumberEnd(s, |p|) == e;
    assert SkipSpaces(s, e) == e;
    if e + 2 <= |s| {
      assert s[e..e + 2] == u[..2];
    }
  }

  /** A number followed by a watt unit is taken when no earlier number is. */
  lemma PowerOfMarked(p: string, d: string, u: string)
    requires forall i | 0 <= i < |p| :: !IsDigit(p[i])
    requires IsDigitString(d) && UnitAt(u, 0)
    ensures PowerOf(p + d + u) == Some(NatValue(d))
  {
    PowerOfMarkedAfter(p, d, u);
  }

  /** The first marked number is taken, whatever text comes before it. */
  lemma PowerOfMarkedAfter(p: string, d: string, u: string)
    requires IsDigitString(d) && UnitAt(u, 0)
    requires forall i | 0 <= i < |p| :: !PowerAt(p + d + u, i)
    ensures PowerOf(p + d + u) == Some(NatValue(d))
  {
    var s := p + d + u;
    PowerAtDigits(p, d, u);
    PowerOfAt(s, |p|);
    assert s[|p|..|p| + |d|] == d;
  }

  /** A digit run followed by a character that starts neither a fraction, a space nor a unit
      does not match the power pattern at any of its digits. */
  lemma NoPowerInRun(s: string, i: nat, e: nat)
    requires i < e < |s| && forall k | i <= k < e :: IsDigit(s[k])
    requires !IsDigit(s[e]) && s[e] != '.' && !IsSpace(s[e]) && LowerChar(s[e]) != 'w' && LowerChar(s[e]) != 'в'
    ensures !PowerAt(s, i)
  {
    DigitRunEndAt(s, i, e);
    assert NumberEnd(s, i) == e;
    assert SkipSpaces(s, e) == e;
    if e + 2 <= |s| {
      assert Lower(s[e..e + 2])[0] == LowerChar(s[e]);
    }
  }

  /** No power match starts in an unmarked leading number or in the digit-free text after it. */
  lemma NoPowerBefore(d1: string, m: string, rest: string)
    requires IsDigitString(d1)
    requires |m| > 0 && forall i | 0 <= i < |m| :: !IsDigit(m[i])
    requires m[0] != '.' && !IsSpace(m[0]) && LowerChar(m[0]) != 'w' && LowerChar(m[0]) != 'в'
    ensures forall i | 0 <= i < |d1 + m| :: !PowerAt(d1 + m + rest, i)
  {
    var s := d1 + m + rest;
    forall i | 0 <= i < |d1 + m| ensures !PowerAt(s, i) {
      if i < |d1| {
        NoPowerInRun(s, i, |d1|);
      } else {
        assert s[i] == m[i - |d1|];
      }
    }
  }

  lemma MarkedAfter(d1: string, m: string, d2: string, u: string)
    requires IsDigitString(d1) && IsDigitString(d2) && UnitAt(u, 0)
    requires |m| > 0 && forall i | 0 <= i < |m| :: !IsDigit(m[i])
    requires m[0] != '.' && !IsSpace(m[0]) && LowerChar(m[0]) != 'w' && LowerChar(m[0]) != 'в'
    ensures PowerOf(d1 + m + d2 + u) == Some(NatValue(d2))
  {
    NoPowerBefore(d1, m, d2 + u);
    assert d1 + m + (d2 + u) == d1 + m + d2 + u;
    PowerOfMarkedAfter(d1 + m, d2, u);
  }

  /** The power branch prefers a number marked with a watt unit over an earlier unmarked one. */
  lemma PowerPrefersUnit(d1: string, m: string, d2: string, u: string)
    requires IsDigitString(d1) && IsDigitString(d2) && UnitAt(u, 0)
    requires |m| > 0 && forall i | 0 <= i < |m| :: !IsDigit(m[i])
    requires m[0] != '.' && !IsSpace(m[0]) && LowerChar(m[0]) != 'w' && LowerChar(m[0]) != 'в'
    ensures FirstNumber(d1 + m + d2 + u) == Some(NatValue(d1))
    ensures PowerOf(d1 + m + d2 + u) == Some(NatValue(d2))
  {
    var p := d1 + m;
    var s := p + d2 + u;
    assert s == d1 + (m + d2 + u);
    FirstNumberLeading(d1, m + d2 + u);
    MarkedAfter(d1, m, d2, u);
  }

  lemma NotSupportedLower()
    ensures AllLower(NotSupported)
  {
  }

  lemma NotSupportedStripped()
    ensures Strip(NotSupported) == NotSupported
  {
    StripNoSpace(NotSupported);
  }

  /** The negated phrase reads as a bare text of its own. */
  lemma NotSupportedTrimmed()
    ensures Trimmed(Str(NotSupported)) == Some(NotSupported)
    ensures Lower(NotSupported) == NotSupported
  {
    NotSupportedStripped();
    TrimmedAs(Str(NotSupported), NotSupported);
    NotSupportedLower();
    LowerOfLower(NotSupported);
  }

  /** As written, "не поддерживается" in a boolean column is read as supported: the positive
      phrase "поддерживается" inside it is looked for first. */
  lemma AsWrittenReadsNotSupportedAsTrue(key: string)
    requires ClassOf(key) == Boolean
    ensures CleanSpecValueAsWritten(key, Str(NotSupported)) == Some(Values.Bool(true))
  {
    NotSupportedTrimmed();
    NotSupportedHasPositive();
  }

  /** The written and the corrected cleaner differ only on a boolean-column cell containing
      "не поддерживается". */
  lemma CleanAsWrittenAgrees(key: string, value: Cell)
    requires Trimmed(value).Some? ==> !Contains(Lower(Trimmed(value).value), NotSupported)
    ensures CleanSpecValueAsWritten(key, value) == CleanSpecValue(key, value)
  {
  }

  /** Even there both cleaners keep the cell: they differ in the boolean only, never in whether a
      value is stored. */
  lemma CleanAsWrittenSameKeys(key: string, value: Cell)
    ensures CleanSpecValueAsWritten(key, value).None? <==> CleanSpecValue(key, value).None?
  {
    if ClassOf(key) == Boolean && Trimmed(value).Some? {
      var v := Lower(Trimmed(value).value);
      if Contains(v, NotSupported) {
        NotSupportedReadsPositive(v);
      }
    }
  }

  /** A text containing "не поддерживается" contains a positive phrase. */
  lemma NotSupportedReadsPositive(v: string)
    requires Contains(v, NotSupported)
    ensures AnyIn(Positive, v)
  {
    assert Supported <= NotSupported[3..];
    ContainsTrans(v, NotSupported, Supported);
    assert Contains(v, Positive[4]);
  }

  /** The positive phrase "поддерживается" occurs inside its own negation. */
  lemma NotSupportedHasPositive()
    ensures AnyIn(Positive, NotSupported)
  {
    assert Positive[4] == Supported;
    assert Supported <= NotSupported[3..];
    assert Contains(NotSupported, Positive[4]);
  }

  /** Corrected, "не поддерживается" in a boolean column is read as not supported. */
  lemma NotSupportedIsFalse(key: string)
    requires ClassOf(key) == Boolean
    ensures CleanSpecValue(key, Str(NotSupported)) == Some(Values.Bool(false))
  {
    NotSupportedTrimmed();
    assert NotSupported <= NotSupported[0..];
  }

  /** Corrected, each positive phrase on its own reads as supported. */
  lemma PositivePhrase(i: nat)
    requires i < |Positive|
    ensures BooleanOf(Positive[i]) == Some(true)
  {
    var p := Positive[i];
    assert AllLower(p);
    LowerOfLower(p);
    ContainsSelf(p);
  }

  /** Corrected, each negative phrase on its own reads as not supported. */
  lemma NegativePhrase(j: nat)
    requires j < |Negative|
    ensures BooleanOf(Negative[j]) == Some(false)
  {
    var q := Negative[j];
    assert AllLower(q);
    LowerOfLower(q);
    ContainsSelf(q);
    if j != 4 {
      forall i | 0 <= i < |Positive| ensures !Contains(q, Positive[i]) {
        NotContainsAt(q, Positive[i]);
      }
    }
  }
}
