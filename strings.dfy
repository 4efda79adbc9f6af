/** Text helpers with Python's semantics for the string operations the
    matcher, the table parser and the import scripts use: strip(), lower(),
    `in` on strings, replace(), split(), int() and str() on integers, and
    the code-point order that `<` and sorted() use on str. */
module Strings {

  datatype Option<+T> = None | Some(value: T)

  // ───────────────────────── characters ─────────────────────────

  /** Python's str.isspace() on the ASCII controls and the Unicode space characters. */
  predicate IsSpace(c: char) {
    c == ' ' || ('\t' <= c <= '\r') || ('\U{1C}' <= c <= '\U{1F}') || c == '\U{85}' || c == '\U{A0}'
    || c == '\U{1680}' || ('\U{2000}' <= c <= '\U{200A}') || c == '\U{2028}' || c == '\U{2029}'
    || c == '\U{202F}' || c == '\U{205F}' || c == '\U{3000}'
  }

  predicate IsDigit(c: char) {
    '0' <= c <= '9'
  }

  predicate AllDigits(s: string) {
    forall i | 0 <= i < |s| :: IsDigit(s[i])
  }

  /** Python's str.isdigit(): non-empty and made of digits. */
  predicate IsDigitString(s: string) {
    |s| > 0 && AllDigits(s)
  }

  /** A character of the regex class \w: letters, digits and the underscore (ASCII and Cyrillic). */
  predicate IsWordChar(c: char) {
    IsDigit(c) || ('a' <= c <= 'z') || ('A' <= c <= 'Z') || c == '_' || ('\U{400}' <= c <= '\U{4FF}')
  }

  /** str.lower() on ASCII and on the Cyrillic capitals (А–Я and Ѐ–Џ). */
  function LowerChar(c: char): (r: char)
    ensures !IsDigit(c) ==> !IsDigit(r)
    ensures IsDigit(c) ==> r == c
  {
    if 'A' <= c <= 'Z' then (c as int + 32) as char
    else if '\U{410}' <= c <= '\U{42F}' then (c as int + 32) as char
    else if '\U{400}' <= c <= '\U{40F}' then (c as int + 80) as char
    else c
  }

  function Lower(s: string): (r: string)
    ensures |r| == |s|
    ensures forall i | 0 <= i < |s| :: r[i] == LowerChar(s[i])
  {
    seq(|s|, i requires 0 <= i < |s| => LowerChar(s[i]))
  }

  lemma LowerAppend(a: string, b: string)
    ensures Lower(a + b) == Lower(a) + Lower(b)
  {
  }

  // ───────────────────────── strip ─────────────────────────

  function TrimLeft(s: string): (r: string)
    ensures |r| <= |s| && r == s[|s| - |r|..]
    ensures |r| > 0 ==> !IsSpace(r[0])
    ensures forall i | 0 <= i < |s| - |r| :: IsSpace(s[i])
  {
    if |s| > 0 && IsSpace(s[0]) then TrimLeft(s[1..]) else s
  }

  function TrimRight(s: string): (r: string)
    ensures |r| <= |s| && r == s[..|r|]
    ensures |r| > 0 ==> !IsSpace(r[|r| - 1])
    ensures forall i | |r| <= i < |s| :: IsSpace(s[i])
  {
    if |s| > 0 && IsSpace(s[|s| - 1]) then TrimRight(s[..|s| - 1]) else s
  }

  /** str.strip(): leading and trailing whitespace removed. */
  function Strip(s: string): string {
    TrimRight(TrimLeft(s))
  }

  /** A string with no space at either end is its own strip. */
  lemma StripNoSpace(s: string)
    requires |s| > 0 ==> !IsSpace(s[0]) && !IsSpace(s[|s| - 1])
    ensures Strip(s) == s
  {
  }

  lemma StripEnds(s: string)
    ensures var r := Strip(s); |r| > 0 ==> !IsSpace(r[0]) && !IsSpace(r[|r| - 1])
  {
    var l := TrimLeft(s);
    var r := TrimRight(l);
    if |r| > 0 {
      assert r[0] == l[0];
    }
  }

  lemma StripIdempotent(s: string)
    ensures Strip(Strip(s)) == Strip(s)
  {
    StripEnds(s);
    StripNoSpace(Strip(s));
  }

  /** Strip of a string with no space anywhere is the identity. */
  lemma StripNoSpaceAnywhere(s: string)
    requires forall i | 0 <= i < |s| :: !IsSpace(s[i])
    ensures Strip(s) == s
  {
    StripNoSpace(s);
  }

  // ───────────────────────── substrings ─────────────────────────

  /** Python's `sub in s`. */
  predicate Contains(s: string, sub: string) {
    exists i | 0 <= i <= |s| - |sub| :: sub <= s[i..]
  }

  lemma ContainsEmpty(s: string)
    ensures Contains(s, "")
  {
    assert "" <= s[0..];
  }

  lemma ContainsSelf(s: string)
    ensures Contains(s, s)
  {
    assert s <= s[0..];
  }

  /** A substring of a substring of `s` is a substring of `s`. */
  lemma ContainsTrans(s: string, mid: string, sub: string)
    requires Contains(s, mid) && Contains(mid, sub)
    ensures Contains(s, sub)
  {
    var i :| 0 <= i <= |s| - |mid| && mid <= s[i..];
    var j :| 0 <= j <= |mid| - |sub| && sub <= mid[j..];
    assert sub <= s[i + j..] by {
      forall k | 0 <= k < |sub| ensures sub[k] == s[i + j..][k] {
        assert sub[k] == mid[j + k] == s[i..][j + k];
      }
    }
  }

  /** A pattern that starts with a character absent from `s` never occurs in `s`. */
  lemma NotContainsByChar(s: string, sub: string)
    requires |sub| > 0 && forall i | 0 <= i < |s| :: s[i] != sub[0]
    ensures !Contains(s, sub)
  {
    forall i | 0 <= i <= |s| - |sub|
      ensures !(sub <= s[i..])
    {
      assert s[i..][0] == s[i];
    }
  }

  /** A pattern whose first character is at none of the places it could start does not occur. */
  lemma NotContainsAt(s: string, sub: string)
    requires |sub| > 0 && forall i | 0 <= i <= |s| - |sub| :: s[i] != sub[0]
    ensures !Contains(s, sub)
  {
    forall i | 0 <= i <= |s| - |sub| ensures !(sub <= s[i..]) {
      assert s[i..][0] == s[i];
    }
  }

  /** str.replace(p, q) for a non-empty pattern: left-to-right, non-overlapping. */
  function ReplaceAll(s: string, p: string, q: string): string
    requires |p| > 0
    decreases |s|
  {
    if s == [] then []
    else if p <= s then q + ReplaceAll(s[|p|..], p, q)
    else [s[0]] + ReplaceAll(s[1..], p, q)
  }

  /** Replacing a pattern does not change a string it does not occur in. */
  lemma {:induction false} ReplaceAbsent(s: string, p: string, q: string)
    requires |p| > 0 && !Contains(s, p)
    ensures ReplaceAll(s, p, q) == s
    decreases |s|
  {
    if s != [] {
      assert s[0..] == s;
      forall i | 0 <= i <= |s[1..]| - |p|
        ensures !(p <= s[1..][i..])
      {
        assert s[1..][i..] == s[i + 1..];
      }
      ReplaceAbsent(s[1..], p, q);
    }
  }

  /** When `p` starts nowhere inside `s` in `s + p`, replacing it in `s + p` replaces just the tail. */
  lemma {:induction false} ReplaceTail(s: string, p: string, q: string)
    requires |p| > 0 && forall i | 0 <= i < |s| :: !(p <= (s + p)[i..])
    ensures ReplaceAll(s + p, p, q) == s + q
    decreases |s|
  {
    var t := s + p;
    if s == [] {
      assert t == p && p <= t;
      assert t[|p|..] == [];
    } else {
      assert t[0..] == t;
      assert t[1..] == s[1..] + p;
      forall i | 0 <= i < |s[1..]| ensures !(p <= (s[1..] + p)[i..]) {
        assert (s[1..] + p)[i..] == t[i + 1..];
      }
      ReplaceTail(s[1..], p, q);
    }
  }

  /** Replacing a character by a different one keeps a first character that is neither. */
  lemma ReplaceKeepsHead(s: string, p: char, q: char)
    requires |s| > 0 && s[0] != p
    ensures var r := ReplaceAll(s, [p], [q]); |r| > 0 && r[0] == s[0]
  {
  }

  /** str.split(sep) for a one-character separator: the empty string gives [""]. */
  function Split(s: string, sep: char): (r: seq<string>)
    ensures |r| >= 1
  {
    if s == [] then [""]
    else
      var rest := Split(s[1..], sep);
      if s[0] == sep then [""] + rest else [[s[0]] + rest[0]] + rest[1..]
  }

  /** sep.join(pieces). */
  function Join(pieces: seq<string>, sep: char): string {
    if |pieces| == 0 then ""
    else if |pieces| == 1 then pieces[0]
    else pieces[0] + [sep] + Join(pieces[1..], sep)
  }

  lemma {:induction false} SplitPiece(a: string, rest: string, sep: char)
    requires forall i | 0 <= i < |a| :: a[i] != sep
    ensures Split(a + rest, sep) == [a + Split(rest, sep)[0]] + Split(rest, sep)[1..]
    decreases |a|
  {
    if a != [] {
      assert (a + rest)[1..] == a[1..] + rest;
      SplitPiece(a[1..], rest, sep);
      var r := Split(rest, sep);
      assert [a[0]] + (a[1..] + r[0]) == a + r[0];
    } else {
      var r := Split(rest, sep);
      assert a + rest == rest && a + r[0] == r[0];
      assert [r[0]] + r[1..] == r;
    }
  }

  /** Splitting a join of separator-free pieces gives the pieces back. */
  lemma {:induction false} SplitJoin(pieces: seq<string>, sep: char)
    requires |pieces| >= 1
    requires forall k, i | 0 <= k < |pieces| && 0 <= i < |pieces[k]| :: pieces[k][i] != sep
    ensures Split(Join(pieces, sep), sep) == pieces
    decreases |pieces|
  {
    if |pieces| == 1 {
      SplitPiece(pieces[0], "", sep);
      assert pieces[0] + "" == pieces[0];
    } else {
      var tail := Join(pieces[1..], sep);
      SplitJoin(pieces[1..], sep);
      assert pieces[0] + [sep] + tail == pieces[0] + ([sep] + tail);
      SplitPiece(pieces[0], [sep] + tail, sep);
      assert ([sep] + tail)[1..] == tail;
      assert Split([sep] + tail, sep) == [""] + Split(tail, sep);
      assert pieces[0] + "" == pieces[0];
      assert pieces == [pieces[0]] + pieces[1..];
    }
  }

  /** The index of the first occurrence of `c` in `s` (|s| when absent), like str.find. */
  function IndexOfChar(s: string, c: char): (i: nat)
    ensures i <= |s|
    ensures i < |s| ==> s[i] == c
    ensures forall j | 0 <= j < i :: s[j] != c
  {
    if s == [] then 0 else if s[0] == c then 0 else 1 + IndexOfChar(s[1..], c)
  }

  // ───────────────────────── word runs ─────────────────────────

  /** The leading run of non-word characters dropped. */
  function DropNonWord(s: string): (r: string)
    ensures |r| <= |s| && r == s[|s| - |r|..]
    ensures |r| > 0 ==> IsWordChar(r[0])
    ensures forall i | 0 <= i < |s| - |r| :: !IsWordChar(s[i])
  {
    if |s| > 0 && !IsWordChar(s[0]) then
      var t := s[1..];
      assert forall i | 0 <= i < |t| :: t[i] == s[i + 1];
      DropNonWord(t)
    else s
  }

  /** re.sub(r'\W+', '_', s): every maximal run of non-word characters becomes one underscore. */
  function CollapseNonWord(s: string): (r: string)
    ensures forall i | 0 <= i < |r| :: IsWordChar(r[i])
    ensures |r| <= |s|
    decreases |s|
  {
    if s == [] then []
    else if IsWordChar(s[0]) then [s[0]] + CollapseNonWord(s[1..])
    else "_" + CollapseNonWord(DropNonWord(s))
  }

  function TrimUnderscoreLeft(s: string): (r: string)
    ensures |r| <= |s| && r == s[|s| - |r|..]
    ensures r == [] || r[0] != '_'
  {
    if s != [] && s[0] == '_' then TrimUnderscoreLeft(s[1..]) else s
  }

  function TrimUnderscoreRight(s: string): (r: string)
    ensures |r| <= |s| && r == s[..|r|]
    ensures r == [] || r[|r| - 1] != '_'
  {
    if s != [] && s[|s| - 1] == '_' then TrimUnderscoreRight(s[..|s| - 1]) else s
  }

  /** strip('_'): a slice of the input without an underscore at either end. */
  function StripUnderscores(c: string): (r: string)
    ensures r == [] || (r[0] != '_' && r[|r| - 1] != '_')
    ensures |TrimUnderscoreLeft(c)| >= |r|
    ensures forall i | 0 <= i < |r| :: r[i] == c[|c| - |TrimUnderscoreLeft(c)| + i]
  {
    var l := TrimUnderscoreLeft(c);
    var r := TrimUnderscoreRight(l);
    assert r != [] ==> r[0] == l[0];
    r
  }

  /** Characters that lower() leaves alone. */
  predicate AllLower(s: string) {
    forall i | 0 <= i < |s| :: LowerChar(s[i]) == s[i]
  }

  predicate AllWord(s: string) {
    forall i | 0 <= i < |s| :: IsWordChar(s[i])
  }

  lemma LowerLower(s: string)
    ensures AllLower(Lower(s))
  {
  }

  lemma LowerOfLower(s: string)
    requires AllLower(s)
    ensures Lower(s) == s
  {
  }

  /** Word characters are not whitespace. */
  lemma StripWord(s: string)
    requires AllWord(s)
    ensures Strip(s) == s
  {
    StripNoSpaceAnywhere(s);
  }

  /** Collapsing keeps lower-case text lower-case. */
  lemma {:induction false} CollapseLower(s: string)
    requires AllLower(s)
    ensures AllLower(CollapseNonWord(s))
    decreases |s|
  {
    if s != [] {
      if IsWordChar(s[0]) {
        CollapseLower(s[1..]);
      } else {
        var d := DropNonWord(s);
        assert forall i | 0 <= i < |d| :: d[i] == s[|s| - |d| + i];
        CollapseLower(d);
      }
    }
  }

  /** Text made of word characters is left as it is. */
  lemma {:induction false} CollapseWord(s: string)
    requires AllWord(s)
    ensures CollapseNonWord(s) == s
    decreases |s|
  {
    if s != [] {
      CollapseWord(s[1..]);
    }
  }

  lemma StripUnderscoresSlice(c: string)
    ensures AllWord(c) ==> AllWord(StripUnderscores(c))
    ensures AllLower(c) ==> AllLower(StripUnderscores(c))
  {
  }

  lemma StripUnderscoresFixed(c: string)
    requires c == [] || (c[0] != '_' && c[|c| - 1] != '_')
    ensures StripUnderscores(c) == c
  {
  }

  // ───────────────────────── numbers as text ─────────────────────────

  /** The end of the run of digits that starts at `j`. */
  function DigitRunEnd(s: string, j: nat): (e: nat)
    requires j <= |s|
    ensures j <= e <= |s|
    ensures forall k | j <= k < e :: IsDigit(s[k])
    ensures e < |s| ==> !IsDigit(s[e])
    decreases |s| - j
  {
    if j < |s| && IsDigit(s[j]) then DigitRunEnd(s, j + 1) else j
  }

  /** Any `e` that closes a digit run begun at `j` is where DigitRunEnd stops. */
  lemma DigitRunEndAt(s: string, j: nat, e: nat)
    requires j <= e <= |s|
    requires forall k | j <= k < e :: IsDigit(s[k])
    requires e < |s| ==> !IsDigit(s[e])
    ensures DigitRunEnd(s, j) == e
    decreases e - j
  {
    if j < e {
      DigitRunEndAt(s, j + 1, e);
    }
  }

  /** The first digit at or after `j`, or |s| when there is none. */
  function FirstDigitFrom(s: string, j: nat): (k: nat)
    requires j <= |s|
    ensures j <= k <= |s|
    ensures k < |s| ==> IsDigit(s[k])
    ensures forall i | j <= i < k :: !IsDigit(s[i])
    decreases |s| - j
  {
    if j == |s| || IsDigit(s[j]) then j else FirstDigitFrom(s, j + 1)
  }

  /** The value of the first run of digits, as `re.findall(r'\d+', s)[0]`; None without a digit. */
  function FirstNumber(s: string): (r: Option<nat>)
    ensures r.None? <==> forall i | 0 <= i < |s| :: !IsDigit(s[i])
  {
    var k := FirstDigitFrom(s, 0);
    if k == |s| then None else Some(NatValue(s[k..DigitRunEnd(s, k)]))
  }

  /** The first number of a text: digits after a digit-free prefix, up to a non-digit. */
  lemma FirstNumberAfter(p: string, digits: string, rest: string)
    requires forall i | 0 <= i < |p| :: !IsDigit(p[i])
    requires IsDigitString(digits)
    requires rest == [] || !IsDigit(rest[0])
    ensures FirstNumber(p + digits + rest) == Some(NatValue(digits))
  {
    var s := p + digits + rest;
    assert FirstDigitFrom(s, 0) == |p| by {
      FirstDigitFromAt(s, 0, |p|);
    }
    DigitRunEndAt(s, |p|, |p| + |digits|);
    assert s[|p|..|p| + |digits|] == digits;
  }

  /** A text that starts with a number: that number comes first. */
  lemma FirstNumberLeading(digits: string, rest: string)
    requires IsDigitString(digits)
    requires rest == [] || !IsDigit(rest[0])
    ensures FirstNumber(digits + rest) == Some(NatValue(digits))
  {
    var s := digits + rest;
    assert FirstDigitFrom(s, 0) == 0;
    DigitRunEndAt(s, 0, |digits|);
    assert s[0..|digits|] == digits;
  }

  lemma FirstDigitFromAt(s: string, j: nat, k: nat)
    requires j <= k < |s| && IsDigit(s[k])
    requires forall i | j <= i < k :: !IsDigit(s[i])
    ensures FirstDigitFrom(s, j) == k
    decreases k - j
  {
    if j < k {
      FirstDigitFromAt(s, j + 1, k);
    }
  }

  function DigitValue(c: char): nat
    requires IsDigit(c)
  {
    c as int - '0' as int
  }

  function DigitChar(d: nat): (c: char)
    requires d < 10
    ensures IsDigit(c) && DigitValue(c) == d
  {
    ('0' as int + d) as char
  }

  /** The value of a string of decimal digits (int() of a digit string; "" is 0). */
  function NatValue(s: string): nat
    requires AllDigits(s)
  {
    if |s| == 0 then 0 else NatValue(s[..|s| - 1]) * 10 + DigitValue(s[|s| - 1])
  }

  /** str() of a natural number: decimal, no leading zeros. */
  function NatToString(n: nat): (s: string)
    ensures IsDigitString(s)
    ensures |s| > 1 ==> s[0] != '0'
    decreases n
  {
    if n < 10 then [DigitChar(n)] else NatToString(n / 10) + [DigitChar(n % 10)]
  }

  /** str() of an integer: digits, with a leading minus sign when negative. */
  function IntToString(i: int): (s: string)
    ensures |s| > 0 && forall k | 0 <= k < |s| :: IsDigit(s[k]) || (k == 0 && s[k] == '-')
  {
    if i < 0 then "-" + NatToString(-i) else NatToString(i)
  }

  /** The text of an integer has no whitespace, so strip() leaves it alone. */
  lemma StripIntToString(i: int)
    ensures Strip(IntToString(i)) == IntToString(i)
  {
    var t := IntToString(i);
    forall k | 0 <= k < |t| ensures !IsSpace(t[k]) {
      assert IsDigit(t[k]) || t[k] == '-';
    }
    StripNoSpaceAnywhere(t);
  }

  lemma {:induction false} NatValueOfNatToString(n: nat)
    ensures NatValue(NatToString(n)) == n
    decreases n
  {
    if n >= 10 {
      NatValueOfNatToString(n / 10);
      var s := NatToString(n);
      assert s[..|s| - 1] == NatToString(n / 10);
    }
  }

  lemma {:induction false} NatValueAppend(a: string, b: string)
    requires AllDigits(a) && AllDigits(b)
    ensures AllDigits(a + b)
    ensures NatValue(a + b) == NatValue(a) * Pow10(|b|) + NatValue(b)
    decreases |b|
  {
    if |b| > 0 {
      var ab := a + b;
      var b' := b[..|b| - 1];
      var d := DigitValue(b[|b| - 1]);
      assert ab[..|ab| - 1] == a + b' && ab[|ab| - 1] == b[|b| - 1];
      NatValueAppend(a, b');
      assert NatValue(ab) == NatValue(a + b') * 10 + d;
      assert NatValue(b) == NatValue(b') * 10 + d;
      assert Pow10(|b|) == 10 * Pow10(|b'|);
      ShiftDigit(NatValue(a), Pow10(|b'|), NatValue(b'), d);
    } else {
      assert a + b == a;
    }
  }

  /** Appending a digit to x·p + y multiplies both parts by ten. */
  lemma ShiftDigit(x: int, p: int, y: int, d: int)
    ensures (x * p + y) * 10 + d == x * (10 * p) + (y * 10 + d)
  {
  }

  function Pow10(n: nat): (p: nat)
    ensures p >= 1
  {
    if n == 0 then 1 else 10 * Pow10(n - 1)
  }

  /** Python's int() on an already stripped string: an optional sign and one or more digits. */
  function ParseInt(s: string): Option<int> {
    if |s| > 0 && (s[0] == '-' || s[0] == '+') then
      (if IsDigitString(s[1..]) then
         var n: int := NatValue(s[1..]);
         Some(if s[0] == '-' then -n else n)
       else None)
    else if IsDigitString(s) then Some(NatValue(s))
    else None
  }

  /** int(str(i)) == i. */
  lemma ParseIntToString(i: int)
    ensures ParseInt(IntToString(i)) == Some(i)
  {
    if i < 0 {
      var s := IntToString(i);
      assert s[1..] == NatToString(-i);
      NatValueOfNatToString(-i);
    } else {
      NatValueOfNatToString(i);
    }
  }

  // ───────────────────────── order ─────────────────────────

  /** Python's `<` on str: lexicographic by code point. */
  predicate LexLt(a: string, b: string) {
    if |a| == 0 then |b| > 0
    else if |b| == 0 then false
    else if a[0] != b[0] then a[0] < b[0]
    else LexLt(a[1..], b[1..])
  }

  lemma {:induction false} LexLtIrreflexive(a: string)
    ensures !LexLt(a, a)
  {
    if |a| > 0 {
      LexLtIrreflexive(a[1..]);
    }
  }

  lemma {:induction false} LexLtTransitive(a: string, b: string, c: string)
    requires LexLt(a, b) && LexLt(b, c)
    ensures LexLt(a, c)
  {
    if |a| > 0 && |b| > 0 && |c| > 0 && a[0] == b[0] && b[0] == c[0] {
      LexLtTransitive(a[1..], b[1..], c[1..]);
    }
  }

  lemma {:induction false} LexLtTotal(a: string, b: string)
    requires a != b
    ensures LexLt(a, b) || LexLt(b, a)
  {
    if |a| > 0 && |b| > 0 && a[0] == b[0] {
      assert a == [a[0]] + a[1..] && b == [b[0]] + b[1..];
      LexLtTotal(a[1..], b[1..]);
    }
  }
}
