/** parse_value of the table parser: the text of one "value" cell becomes a
    boolean, a number, a number with its comparison operator kept in front
    (as text), or the trimmed text itself. The unit cell is never read. */
module ValueParser {
  import opened Strings
  import opened Values

  const TrueWords: seq<string> := ["да", "yes", "истина", "true"]
  const FalseWords: seq<string> := ["нет", "no", "ложь", "false"]

  /** One of the yes/no words. */
  predicate IsYesNo(l: string) {
    l in TrueWords || l in FalseWords
  }

  /** A text that does not start with a lower-case letter is no yes/no word. */
  lemma NotYesNo(l: string)
    requires |l| > 0 && !('a' <= l[0] <= 'z') && !('а' <= l[0] <= 'я')
    ensures !IsYesNo(l)
  {
    forall w | w in TrueWords || w in FalseWords ensures |w| > 0 && w[0] != l[0] {
    }
  }

  // ───────────────────────── scanners ─────────────────────────

  /** The end of the run of whitespace that starts at `j`. */
  function SpaceRunEnd(s: string, j: nat): (e: nat)
    requires j <= |s|
    ensures j <= e <= |s|
    ensures forall k | j <= k < e :: IsSpace(s[k])
    ensures e < |s| ==> !IsSpace(s[e])
    decreases |s| - j
  {
    if j < |s| && IsSpace(s[j]) then SpaceRunEnd(s, j + 1) else j
  }

  /** The characters of the class [≥≤><≠]. */
  predicate IsOperatorChar(c: char) {
    c == '≥' || c == '≤' || c == '>' || c == '<' || c == '≠'
  }

  /** The end of the run of characters of the class [≥≤><≠=] that starts at `j`. */
  function OperatorRunEnd(s: string, j: nat): (e: nat)
    requires j <= |s|
    ensures j <= e <= |s|
    ensures forall k | j <= k < e :: IsOperatorChar(s[k]) || s[k] == '='
    ensures e < |s| ==> !(IsOperatorChar(s[e]) || s[e] == '=')
    decreases |s| - j
  {
    if j < |s| && (IsOperatorChar(s[j]) || s[j] == '=') then OperatorRunEnd(s, j + 1) else j
  }

  /** A character of the class [\d,]. */
  predicate IsRunChar(c: char) {
    IsDigit(c) || c == ','
  }

  /** The end of the run of digits and commas that starts at `j`. */
  function RunCharEnd(s: string, j: nat): (e: nat)
    requires j <= |s|
    ensures j <= e <= |s|
    ensures forall k | j <= k < e :: IsRunChar(s[k])
    ensures e < |s| ==> !IsRunChar(s[e])
    decreases |s| - j
  {
    if j < |s| && IsRunChar(s[j]) then RunCharEnd(s, j + 1) else j
  }

  // ───────────────────────── the operator ─────────────────────────

  /** The token `^([≥≤><≠]=?|>=|<=|!=)` matches at the start of the text. */
  function OperatorToken(t: string): (raw: Option<string>)
    ensures raw.Some? ==> raw.value <= t && |raw.value| > 0
  {
    if |t| > 0 && IsOperatorChar(t[0]) then Some(if |t| > 1 && t[1] == '=' then t[..2] else t[..1])
    else if |t| >= 2 && t[0] == '!' && t[1] == '=' then Some("!=")
    else None
  }

  /** The ASCII spelling of a token: the three one-character Unicode operators are translated,
      every other token is kept as it is. */
  function AsciiOperator(raw: string): string {
    if raw == "≥" then ">=" else if raw == "≤" then "<=" else if raw == "≠" then "!=" else raw
  }

  /** Where `w1`, one or more spaces and then `w2` end, when they start the text, ignoring case. */
  function PhraseEnd(t: string, w1: string, w2: string): (e: Option<nat>)
    ensures e.Some? ==> |w1| < e.value <= |t|
  {
    var l := Lower(t);
    if !(w1 <= l) then None
    else
      var e := SpaceRunEnd(l, |w1|);
      if e == |w1| || !(w2 <= l[e..]) then None else Some(e + |w2|)
  }

  /** The phrase ends at a word boundary (`\b` after a word character). */
  predicate EndsWord(t: string, e: Option<nat>) {
    e.Some? && e.value <= |t| && (e.value == |t| || !IsWordChar(t[e.value]))
  }

  /** The operator a leading phrase stands for: "не менее" is >=, "не более" and "до" are <=. */
  function TextOperator(t: string): Option<string> {
    if EndsWord(t, PhraseEnd(t, "не", "менее")) then Some(">=")
    else if EndsWord(t, PhraseEnd(t, "не", "более")) then Some("<=")
    else if PhraseEnd(t, "до", "").Some? then Some("<=")
    else None
  }

  /** The operator of the value: a leading symbol first, else a leading phrase. */
  function Operator(t: string): Option<string> {
    match OperatorToken(t)
    case Some(raw) => Some(AsciiOperator(raw))
    case None => TextOperator(t)
  }

  // ───────────────────────── the number ─────────────────────────

  /** The text the numbers are read from: a leading run of operator symbols and the spaces after
      it are removed, then a leading "не менее", "не более" or "до" with the spaces after it. */
  function NumberText(t: string): (v: string)
    ensures |v| <= |t|
  {
    var i := OperatorRunEnd(t, 0);
    var u := if i > 0 then t[SpaceRunEnd(t, i)..] else t;
    u[PhrasePrefixEnd(u)..]
  }

  /** The length of `^(?:не\s+менее|не\s+более|до)\s+` at the start of the text (0 when absent). */
  function PhrasePrefixEnd(u: string): (e: nat)
    ensures e <= |u|
  {
    var l := Lower(u);
    var a := PhraseEnd(u, "не", "менее");
    var b := PhraseEnd(u, "не", "более");
    var d := PhraseEnd(u, "до", "");
    if a.Some? && a.value < |l| && IsSpace(l[a.value]) then SpaceRunEnd(l, a.value)
    else if b.Some? && b.value < |l| && IsSpace(l[b.value]) then SpaceRunEnd(l, b.value)
    else if d.Some? then d.value
    else 0
  }

  /** Where the match of `[\d,]+\.?\d*` that starts at `j` ends. */
  function MatchEnd(s: string, j: nat): (e: nat)
    requires j < |s| && IsRunChar(s[j])
    ensures j < e <= |s|
  {
    var k := RunCharEnd(s, j);
    if k < |s| && s[k] == '.' then DigitRunEnd(s, k + 1) else k
  }

  /** re.findall(r'[\d,]+\.?\d*', s)[-1], as the span of the last match: matches are found left
      to right from `j` without overlapping; `last` is the latest one found before `j`. */
  function LastMatch(s: string, j: nat, last: Option<(nat, nat)>): (r: Option<(nat, nat)>)
    requires j <= |s|
    requires last.Some? ==> last.value.0 < last.value.1 <= j && IsRunChar(s[last.value.0])
    ensures r.None? <==> last.None? && forall k | j <= k < |s| :: !IsRunChar(s[k])
    ensures r.Some? ==> r.value.0 < r.value.1 <= |s| && IsRunChar(s[r.value.0])
    ensures r.Some? && r != last ==> j <= r.value.0 && r.value.1 == MatchEnd(s, r.value.0)
    ensures r.Some? ==> forall k | r.value.1 <= k < |s| && j <= k :: !IsRunChar(s[k])
    decreases |s| - j
  {
    if j == |s| then last
    else if IsRunChar(s[j]) then LastMatch(s, MatchEnd(s, j), Some((j, MatchEnd(s, j))))
    else LastMatch(s, j + 1, last)
  }

  /** The match text with its commas deleted. */
  function WithoutCommas(s: string): (r: string)
    ensures |r| <= |s|
    ensures forall k | 0 <= k < |r| :: r[k] != ','
    ensures (forall k | 0 <= k < |s| :: s[k] != ',') ==> r == s
  {
    if s == [] then [] else (if s[0] == ',' then [] else [s[0]]) + WithoutCommas(s[1..])
  }

  /** Trailing zeros removed. */
  function TrimZeros(s: string): (r: string)
    ensures r <= s
    ensures |r| > 0 ==> r[|r| - 1] != '0'
  {
    if |s| > 0 && s[|s| - 1] == '0' then TrimZeros(s[..|s| - 1]) else s
  }

  /** str() of the float that float("<a>.<b>") reads: the integer part without leading zeros, a point,
      and the fraction without trailing zeros (at least one digit). */
  function FloatRepr(a: string, b: string): string
    requires AllDigits(a)
  {
    var f := TrimZeros(b);
    NatToString(NatValue(a)) + "." + (if f == "" then "0" else f)
  }

  /** A number read from the text, with the text str() gives it. */
  datatype Number = Number(value: Value, text: string)

  /** int() of the match when it has no point, float() when it has one; None when that raises. */
  function NumberAt(s: string, j: nat): (n: Option<Number>)
    requires j < |s| && IsRunChar(s[j])
    ensures n.Some? ==> n.value.value.Int? || n.value.value.Float?
  {
    var k := RunCharEnd(s, j);
    var whole := WithoutCommas(s[j..k]);
    assert AllDigits(whole) by {
      assert forall i | 0 <= i < |whole| :: IsRunChar(whole[i]) by {
        WithoutCommasFrom(s[j..k]);
      }
    }
    if k < |s| && s[k] == '.' then
      var frac := s[k + 1..DigitRunEnd(s, k + 1)];
      if |whole| + |frac| == 0 then None
      else Some(Number(Float(DecimalValue(whole, frac)),
                       FloatRepr(whole, frac)))
    else if whole == "" then None
    else Some(Number(Int(NatValue(whole)), NatToString(NatValue(whole))))
  }

  /** Every character WithoutCommas keeps comes from its input. */
  lemma {:induction false} WithoutCommasFrom(s: string)
    ensures forall i | 0 <= i < |WithoutCommas(s)| :: WithoutCommas(s)[i] in s
  {
    if s != [] {
      WithoutCommasFrom(s[1..]);
      var r := WithoutCommas(s);
      var head: string := if s[0] == ',' then [] else [s[0]];
      assert r == head + WithoutCommas(s[1..]);
      forall i | 0 <= i < |r| ensures r[i] in s {
        if i < |head| {
          assert r[i] == s[0];
        } else {
          assert r[i] == WithoutCommas(s[1..])[i - |head|];
          assert r[i] in s[1..];
        }
      }
    }
  }

  /** The number of the last match, if there is one and it converts. */
  function LastNumber(v: string): Option<Number> {
    match LastMatch(v, 0, None)
    case None => None
    case Some(span) => NumberAt(v, span.0)
  }

  // ───────────────────────── parse_value ─────────────────────────

  /** parse_value. */
  function ParseValue(valueStr: string): (r: Value)
    ensures r == Null <==> valueStr == ""
    ensures r.Bool? ==> IsYesNo(Lower(Strip(valueStr)))
  {
    if valueStr == "" then Null
    else
      var t := Strip(valueStr);
      var l := Lower(t);
      if l in TrueWords then Bool(true)
      else if l in FalseWords then Bool(false)
      else NumberOrText(t)
  }

  /** What a trimmed text that is no yes/no word reads as: its last number, marked with a leading
      operator, or else the text itself. */
  function NumberOrText(t: string): (r: Value)
    ensures !r.Null? && !r.Bool?
  {
    match LastNumber(NumberText(t))
    case None => Str(t)
    case Some(n) =>
      match Operator(t)
      case Some(op) => Str(op + n.text)
      case None => n.value
  }

  // ───────────────────────── properties ─────────────────────────

  /** The yes/no words are read as booleans before anything else is tried. */
  lemma ParseValueBooleans(valueStr: string)
    requires valueStr != ""
    ensures Lower(Strip(valueStr)) in TrueWords ==> ParseValue(valueStr) == Bool(true)
    ensures Lower(Strip(valueStr)) in FalseWords ==> ParseValue(valueStr) == Bool(false)
  {
    var l := Lower(Strip(valueStr));
    if l in FalseWords {
      YesNoDisjoint(l);
    }
  }

  /** No word is both a yes-word and a no-word. */
  lemma YesNoDisjoint(l: string)
    requires l in FalseWords
    ensures l !in TrueWords
  {
    assert l[0] == 'н' || l[0] == 'n' || l[0] == 'л' || l[0] == 'f';
  }

  /** One step of parse_value past the yes/no words, for the lemmas below: the last number of the
      number text decides, marked with the operator when one leads. */
  lemma ParseValueNumbers(valueStr: string)
    requires valueStr != ""
    requires !IsYesNo(Lower(Strip(valueStr)))
    ensures var t := Strip(valueStr);
      match LastNumber(NumberText(t))
      case None => ParseValue(valueStr) == Str(t)
      case Some(n) =>
        match Operator(t)
        case None => ParseValue(valueStr) == n.value
        case Some(op) => ParseValue(valueStr) == Str(op + n.text)
  {
  }

  /** A digit string reads as the integer it spells. */
  lemma DigitsParse(t: string)
    requires IsDigitString(t)
    ensures LastNumber(t) == Some(Number(Int(NatValue(t)), NatToString(NatValue(t))))
  {
    RunCharEndAll(t, 0);
    assert t[0..|t|] == t;
  }

  /** A text that starts with a digit has no operator and is its own number text. */
  lemma DigitLed(t: string)
    requires |t| > 0 && IsDigit(t[0])
    ensures Operator(t).None?
    ensures PhrasePrefixEnd(t) == 0 && NumberText(t) == t
    ensures !IsYesNo(Lower(t))
  {
    assert Lower(t)[0] == t[0];
    NotYesNo(Lower(t));
    assert PhraseEnd(t, "не", "менее").None? && PhraseEnd(t, "не", "более").None? && PhraseEnd(t, "до", "").None?;
    assert OperatorRunEnd(t, 0) == 0;
    assert PhrasePrefixEnd(t) == 0;
  }

  /** str(n) reads back as the integer n: parse_value inverts str() on natural numbers. */
  lemma ParseValueOfNat(n: nat)
    ensures ParseValue(NatToString(n)) == Int(n)
  {
    var t := NatToString(n);
    StripNoSpaceAnywhere(t);
    DigitLed(t);
    DigitsParse(t);
    NatValueOfNatToString(n);
  }

  /** A text with no digit and no comma, and no yes/no word, comes back trimmed: "Управляемый",
      "AC". */
  lemma ParseValueText(valueStr: string)
    requires valueStr != ""
    requires forall k | 0 <= k < |Strip(valueStr)| :: !IsRunChar(Strip(valueStr)[k])
    requires !IsYesNo(Lower(Strip(valueStr)))
    ensures ParseValue(valueStr) == Str(Strip(valueStr))
  {
    NoRunNoNumber(Strip(valueStr));
    ParseValueNumbers(valueStr);
  }

  /** Without a digit or a comma there is no match, so no number. */
  lemma NoRunNoNumber(t: string)
    requires forall k | 0 <= k < |t| :: !IsRunChar(t[k])
    ensures LastNumber(NumberText(t)).None?
  {
    var v := NumberText(t);
    NumberTextSuffix(t);
    forall k | 0 <= k < |v| ensures !IsRunChar(v[k]) {
      assert v[k] == t[|t| - |v| + k];
    }
    assert LastMatch(v, 0, None).None?;
  }

  /** The number text is what is left of the text once a leading part is removed. */
  lemma NumberTextSuffix(t: string)
    ensures NumberText(t) == t[|t| - |NumberText(t)|..]
  {
    var i := OperatorRunEnd(t, 0);
    var u := if i > 0 then t[SpaceRunEnd(t, i)..] else t;
    assert u == t[|t| - |u|..];
  }

  /** Digits, a point and digits read as the float they spell: "1.5" is 1.5. */
  lemma ParseValueDecimal(a: string, b: string)
    requires IsDigitString(a) && IsDigitString(b)
    ensures ParseValue(a + "." + b) == Float(DecimalValue(a, b))
  {
    var t := a + "." + b;
    assert t[0] == a[0] && t[|t| - 1] == b[|b| - 1];
    StripNoSpace(t);
    DigitLed(t);
    DecimalNumber(a, b);
    ParseValueNumbers(t);
  }

  /** The one match in "<a>.<b>" spans the whole text and converts with float(). */
  lemma DecimalNumber(a: string, b: string)
    requires IsDigitString(a) && IsDigitString(b)
    ensures LastNumber(a + "." + b) == Some(Number(Float(DecimalValue(a, b)), FloatRepr(a, b)))
  {
    var t := a + "." + b;
    forall k | 0 <= k < |a| ensures IsRunChar(t[k]) && t[k] != ',' {
      assert t[k] == a[k];
    }
    forall k | |a| < k < |t| ensures IsDigit(t[k]) {
      assert t[k] == b[k - |a| - 1];
    }
    assert t[|a|] == '.';
    var k := RunCharEnd(t, 0);
    assert k == |a|;
    assert DigitRunEnd(t, |a| + 1) == |t|;
    assert MatchEnd(t, 0) == |t|;
    assert LastMatch(t, 0, None) == LastMatch(t, |t|, Some((0, |t|)));
    assert t[0..k] == a && t[k + 1..|t|] == b;
  }

  /** A character that ends every match before it: neither a digit, a comma nor a point. */
  predicate Breaks(c: char) {
    !IsRunChar(c) && c != '.'
  }

  /** Scanning from anywhere up to just after the breaker `s[b]` finds the digit run
      `s[b + 1..]` last. */
  lemma {:induction false} LastMatchTrailing(s: string, b: nat, j: nat, last: Option<(nat, nat)>)
    requires b + 1 < |s| && Breaks(s[b]) && AllDigits(s[b + 1..])
    requires j <= b + 1
    requires last.Some? ==> last.value.0 < last.value.1 <= j && IsRunChar(s[last.value.0])
    ensures LastMatch(s, j, last) == Some((b + 1, |s|))
    decreases |s| - j
  {
    if j == b + 1 {
      TrailingRun(s, b);
    } else if IsRunChar(s[j]) {
      MatchBeforeBreak(s, b, j);
      LastMatchTrailing(s, b, MatchEnd(s, j), Some((j, MatchEnd(s, j))));
    } else {
      LastMatchTrailing(s, b, j + 1, last);
    }
  }

  /** The digits after the breaker form one run to the end of the text. */
  lemma TrailingRun(s: string, b: nat)
    requires b + 1 < |s| && AllDigits(s[b + 1..])
    ensures IsRunChar(s[b + 1]) && MatchEnd(s, b + 1) == |s|
  {
    assert s[b + 1..][0] == s[b + 1];
    forall k | b + 1 <= k < |s| ensures IsRunChar(s[k]) { assert s[k] == s[b + 1..][k - b - 1]; }
    RunCharEndAll(s, b + 1);
  }

  /** A match that starts before the breaker ends at it at the latest. */
  lemma MatchBeforeBreak(s: string, b: nat, j: nat)
    requires b < |s| && Breaks(s[b]) && j < b && IsRunChar(s[j])
    ensures MatchEnd(s, j) <= b
  {
    var k := RunCharEnd(s, j);
    assert k <= b;
    if k < |s| && s[k] == '.' {
      assert k < b;
      assert DigitRunEnd(s, k + 1) <= b;
    }
  }

  lemma {:induction false} RunCharEndAll(s: string, j: nat)
    requires j <= |s| && forall k | j <= k < |s| :: IsRunChar(s[k])
    ensures RunCharEnd(s, j) == |s|
    decreases |s| - j
  {
    if j < |s| {
      RunCharEndAll(s, j + 1);
    }
  }

  /** The number is the last digit run: a text ending in a breaker and digits reads as those digits,
      whatever numbers come before. */
  lemma LastNumberTrailing(p: string, c: char, d: string)
    requires Breaks(c) && IsDigitString(d)
    ensures LastNumber(p + [c] + d) == Some(Number(Int(NatValue(d)), NatToString(NatValue(d))))
  {
    var s := p + [c] + d;
    assert s[|p| + 1..] == d;
    LastMatchTrailing(s, |p|, 0, None);
    RunCharEndAll(s, |p| + 1);
    assert s[|p| + 1..|s|] == d;
  }

  /** The operator tokens the leading-operator pattern accepts in front of a digit:
      ≥ ≤ ≠ > < >= <= and !=. */
  predicate IsOperatorToken(raw: string) {
    || (|raw| == 1 && IsOperatorChar(raw[0]))
    || (|raw| == 2 && (raw[0] == '>' || raw[0] == '<') && raw[1] == '=')
    || raw == "!="
  }

  /** The number text after an operator token is the digits, or the token and the digits for "!=",
      whose '!' the symbol-stripping pattern does not know. */
  lemma OperatorNumberText(raw: string, d: string)
    requires IsOperatorToken(raw) && IsDigitString(d)
    ensures OperatorToken(raw + d) == Some(raw)
    ensures raw != "!=" ==> NumberText(raw + d) == d
    ensures raw == "!=" ==> NumberText(raw + d) == raw + d
  {
    var t := raw + d;
    assert t[|raw|] == d[0];
    if raw == "!=" {
      assert OperatorRunEnd(t, 0) == 0;
      assert PhrasePrefixEnd(t) == 0 by {
        assert Lower(t)[0] == '!';
      }
    } else {
      assert OperatorRunEnd(t, 0) == |raw| by {
        if |raw| == 2 {
          assert OperatorRunEnd(t, 1) == 2;
        }
      }
      assert SpaceRunEnd(t, |raw|) == |raw|;
      assert t[|raw|..] == d;
      DigitLed(d);
      assert NumberText(t) == d[PhrasePrefixEnd(d)..];
    }
  }

  /** An operator and digits: no whitespace to strip and not a yes/no word. */
  lemma OperatorTextPlain(raw: string, d: string)
    requires IsOperatorToken(raw) && IsDigitString(d)
    ensures Strip(raw + d) == raw + d
    ensures !IsYesNo(Lower(raw + d))
  {
    var t := raw + d;
    assert forall k | 0 <= k < |t| :: !IsSpace(t[k]) by {
      forall k | 0 <= k < |t| ensures !IsSpace(t[k]) {
        if k >= |raw| { assert t[k] == d[k - |raw|]; }
      }
    }
    StripNoSpaceAnywhere(t);
    assert Lower(t)[0] == t[0];
    NotYesNo(Lower(t));
  }

  /** The number after an operator token is the digits that follow it. */
  lemma OperatorTextNumber(raw: string, d: string)
    requires IsOperatorToken(raw) && IsDigitString(d)
    ensures LastNumber(NumberText(raw + d)) == Some(Number(Int(NatValue(d)), NatToString(NatValue(d))))
  {
    OperatorNumberText(raw, d);
    if raw == "!=" {
      NotEqualNumber(d);
    } else {
      DigitsParse(d);
    }
  }

  lemma NotEqualNumber(d: string)
    requires IsDigitString(d)
    ensures LastNumber("!=" + d) == Some(Number(Int(NatValue(d)), NatToString(NatValue(d))))
  {
    LastNumberTrailing("!", '=', d);
    assert "!" + ['='] == "!=";
  }

  /** An operator and a natural number read as the ASCII operator and the number, as text. */
  lemma ParseValueOperatorOfNat(raw: string, n: nat)
    requires IsOperatorToken(raw)
    ensures ParseValue(raw + NatToString(n)) == Str(AsciiOperator(raw) + NatToString(n))
  {
    var d := NatToString(n);
    OperatorTextPlain(raw, d);
    OperatorNumberText(raw, d);
    OperatorTextNumber(raw, d);
    NatValueOfNatToString(n);
    ParseValueNumbers(raw + d);
  }

  /** The ASCII spelling is itself a token and spells itself. */
  lemma AsciiOperatorToken(raw: string)
    requires IsOperatorToken(raw)
    ensures IsOperatorToken(AsciiOperator(raw)) && AsciiOperator(AsciiOperator(raw)) == AsciiOperator(raw)
  {
  }

  /** parse_value leaves its own operator results unchanged: reading ">=24" again gives ">=24". */
  lemma ParseValueOperatorFixpoint(raw: string, n: nat)
    requires IsOperatorToken(raw)
    ensures var r := ParseValue(raw + NatToString(n));
      r.Str? && ParseValue(r.s) == r
  {
    ParseValueOperatorOfNat(raw, n);
    AsciiOperatorToken(raw);
    ParseValueOperatorOfNat(AsciiOperator(raw), n);
  }

  /** "до N" is read as an upper bound "<=N". */
  lemma ParseValueUpTo(n: nat)
    ensures ParseValue("до " + NatToString(n)) == Str("<=" + NatToString(n))
  {
    var d := NatToString(n);
    UpToText(d);
    UpToOperator(d);
    DigitsParse(d);
    NatValueOfNatToString(n);
    ParseValueNumbers("до " + d);
  }

  lemma UpToText(d: string)
    requires IsDigitString(d)
    ensures Lower("до " + d) == "до " + d
    ensures Strip("до " + d) == "до " + d
    ensures !IsYesNo("до " + d)
  {
    var t := "до " + d;
    LowerAppend("до ", d);
    assert Lower(d) == d;
    assert t[|t| - 1] == d[|d| - 1];
    StripNoSpace(t);
    NotYesNoSpaced(t);
  }

  /** No yes/no word has a space in it. */
  lemma NotYesNoSpaced(l: string)
    requires |l| > 2 && l[2] == ' '
    ensures !IsYesNo(l)
  {
    assert forall w | w in TrueWords || w in FalseWords :: |w| <= 2 || w[2] != ' ';
  }

  lemma UpToOperator(d: string)
    requires IsDigitString(d) && Lower("до " + d) == "до " + d
    ensures Operator("до " + d) == Some("<=")
    ensures NumberText("до " + d) == d
  {
    var t := "до " + d;
    var l := Lower(t);
    assert SpaceRunEnd(l, 2) == 3;
    assert OperatorToken(t).None?;
    assert PhraseEnd(t, "не", "менее").None? && PhraseEnd(t, "не", "более").None?;
    assert PhraseEnd(t, "до", "") == Some(3);
    assert OperatorRunEnd(t, 0) == 0;
    assert PhrasePrefixEnd(t) == 3;
    assert t[3..] == d;
  }

  /** "не менее N" is read as a lower bound ">=N". */
  lemma ParseValueAtLeast(n: nat)
    ensures ParseValue("не менее " + NatToString(n)) == Str(">=" + NatToString(n))
  {
    var d := NatToString(n);
    BoundText("не менее ", d);
    AtLeastOperator(d);
    DigitsParse(d);
    NatValueOfNatToString(n);
    ParseValueNumbers("не менее " + d);
  }

  /** The two bound phrases that take a space before the number. */
  predicate IsBoundPhrase(p: string) {
    p == "не менее " || p == "не более "
  }

  lemma BoundText(p: string, d: string)
    requires IsBoundPhrase(p) && IsDigitString(d)
    ensures Lower(p + d) == p + d
    ensures Strip(p + d) == p + d
    ensures !IsYesNo(p + d)
  {
    BoundLower(p, d);
    BoundStripped(p, d);
    NotYesNoSpaced(p + d);
  }

  lemma BoundLower(p: string, d: string)
    requires IsBoundPhrase(p) && IsDigitString(d)
    ensures Lower(p + d) == p + d
  {
    LowerAppend(p, d);
    assert Lower(d) == d;
    forall i | 0 <= i < |p| ensures LowerChar(p[i]) == p[i] {
      assert p[i] == ' ' || '\U{430}' <= p[i] <= '\U{44F}';
    }
    assert Lower(p) == p;
  }

  lemma BoundStripped(p: string, d: string)
    requires IsBoundPhrase(p) && IsDigitString(d)
    ensures Strip(p + d) == p + d
  {
    var t := p + d;
    assert t[0] == p[0] && t[|t| - 1] == d[|d| - 1];
    StripNoSpace(t);
  }

  lemma AtLeastOperator(d: string)
    requires IsDigitString(d) && Lower("не менее " + d) == "не менее " + d
    ensures Operator("не менее " + d) == Some(">=")
    ensures NumberText("не менее " + d) == d
  {
    var t := "не менее " + d;
    var l := Lower(t);
    assert SpaceRunEnd(l, 2) == 3;
    assert SpaceRunEnd(l, 8) == 9;
    assert OperatorToken(t).None?;
    assert "менее" <= l[3..];
    assert PhraseEnd(t, "не", "менее") == Some(8);
    assert EndsWord(t, Some(8));
    assert OperatorRunEnd(t, 0) == 0;
    assert PhrasePrefixEnd(t) == 9;
    assert t[9..] == d;
  }

  /** "не более N" is read as an upper bound "<=N". */
  lemma ParseValueAtMost(n: nat)
    ensures ParseValue("не более " + NatToString(n)) == Str("<=" + NatToString(n))
  {
    var d := NatToString(n);
    BoundText("не более ", d);
    AtMostOperator(d);
    DigitsParse(d);
    NatValueOfNatToString(n);
    ParseValueNumbers("не более " + d);
  }

  lemma AtMostOperator(d: string)
    requires IsDigitString(d) && Lower("не более " + d) == "не более " + d
    ensures Operator("не более " + d) == Some("<=")
    ensures NumberText("не более " + d) == d
  {
    var t := "не более " + d;
    var l := Lower(t);
    assert SpaceRunEnd(l, 2) == 3;
    assert SpaceRunEnd(l, 8) == 9;
    assert OperatorToken(t).None?;
    assert !("менее" <= l[3..]) by {
      assert l[3] == 'б';
    }
    assert PhraseEnd(t, "не", "менее").None?;
    assert "более" <= l[3..];
    assert PhraseEnd(t, "не", "более") == Some(8);
    assert EndsWord(t, Some(8));
    assert OperatorRunEnd(t, 0) == 0;
    assert PhrasePrefixEnd(t) == 9;
    assert t[9..] == d;
  }

  lemma {:induction false} WithoutCommasAppend(a: string, b: string)
    ensures WithoutCommas(a + b) == WithoutCommas(a) + WithoutCommas(b)
    decreases |a|
  {
    if a != [] {
      var h := if a[0] == ',' then [] else [a[0]];
      assert (a + b)[0] == a[0] && (a + b)[1..] == a[1..] + b;
      assert WithoutCommas(a + b) == h + WithoutCommas(a[1..] + b);
      WithoutCommasAppend(a[1..], b);
      assert h + (WithoutCommas(a[1..]) + WithoutCommas(b)) == (h + WithoutCommas(a[1..])) + WithoutCommas(b);
    } else {
      assert a + b == b;
    }
  }

  /** A comma between digits is a thousands separator: "6,000" reads as 6000. */
  lemma ParseValueGrouped(a: string, b: string)
    requires IsDigitString(a) && IsDigitString(b)
    ensures ParseValue(a + "," + b) == Int(NatValue(a + b))
  {
    var t := a + "," + b;
    GroupedText(a, b);
    DigitLed(t);
    GroupedNumber(a, b);
    ParseValueNumbers(t);
  }

  lemma GroupedText(a: string, b: string)
    requires IsDigitString(a) && IsDigitString(b)
    ensures var t := a + "," + b;
      && t[0] == a[0] && Strip(t) == t
      && forall k | 0 <= k < |t| :: IsRunChar(t[k])
  {
    var t := a + "," + b;
    assert t[|t| - 1] == b[|b| - 1];
    StripNoSpace(t);
    forall k | 0 <= k < |t| ensures IsRunChar(t[k]) {
      if k < |a| { assert t[k] == a[k]; } else if k > |a| { assert t[k] == b[k - |a| - 1]; }
    }
  }

  lemma GroupedNumber(a: string, b: string)
    requires IsDigitString(a) && IsDigitString(b)
    requires forall k | 0 <= k < |a + "," + b| :: IsRunChar((a + "," + b)[k])
    ensures AllDigits(a + b)
    ensures LastNumber(a + "," + b) == Some(Number(Int(NatValue(a + b)), NatToString(NatValue(a + b))))
  {
    var t := a + "," + b;
    RunCharEndAll(t, 0);
    assert LastMatch(t, 0, None) == Some((0, |t|));
    assert t[0..|t|] == a + ("," + b);
    WithoutCommasAppend(a, "," + b);
    assert WithoutCommas("," + b) == WithoutCommas(b);
    assert AllDigits(a + b);
  }
}
