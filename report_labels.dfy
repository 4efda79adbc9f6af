/** The display texts of the Excel report: the version label read from a
    catalogue row's source file name, and the short description of how a
    required value compares with the catalogue's. The label reads the same
    tags as the deduplicator's revision priority and agrees with it. */
module ReportLabels {
  import opened Strings
  import opened Values
  import Deduplicator

  // ───────────────────────── _parse_version ─────────────────────────

  /** The groups X and Y when `finalUPDv(\d+)\.(\d+)` matches at `p`. */
  function FinalUpdGroupsAt(s: string, p: nat): (r: Option<(string, string)>)
    requires p <= |s|
    ensures r.Some? <==> Deduplicator.FinalUpdAt(s, p).Some?
    ensures r.Some? ==> IsDigitString(r.value.0) && IsDigitString(r.value.1)
    ensures r.Some? ==> Deduplicator.FinalUpdAt(s, p).value == NatValue(r.value.1)
  {
    if !("finalUPDv." <= s[p..]) then None
    else
      var e1 := DigitRunEnd(s, p + 10);
      if e1 == p + 10 || e1 == |s| || s[e1] != '.' then None
      else
        var e2 := DigitRunEnd(s, e1 + 1);
        if e2 == e1 + 1 then None else Some((s[p + 10..e1], s[e1 + 1..e2]))
  }

  /** The groups N and, when present, M when `v(\d+)(?:\.(\d+))?` matches at `p`. */
  function VersionGroupsAt(s: string, p: nat): (r: Option<(string, Option<string>)>)
    requires p <= |s|
    ensures r.Some? <==> Deduplicator.VersionAt(s, p).Some?
    ensures r.Some? ==> IsDigitString(r.value.0) && (r.value.1.Some? ==> IsDigitString(r.value.1.value))
    ensures r.Some? ==> Deduplicator.VersionAt(s, p).value == NatValue(r.value.0)
  {
    if Deduplicator.VersionAt(s, p).None? then None
    else
      var e := DigitRunEnd(s, p + 1);
      var major := s[p + 1..e];
      if e + 1 < |s| && s[e] == '.' && IsDigit(s[e + 1]) then
        Some((major, Some(s[e + 1..DigitRunEnd(s, e + 1)])))
      else Some((major, None))
  }

  predicate EndsWith(s: string, suffix: string) {
    |suffix| <= |s| && s[|s| - |suffix|..] == suffix
  }

  const NewMark: string := " (new)"

  /** _parse_version: the leftmost `finalUPDv.X.Y` as "finalUPD vX.Y"; else "finalUPD" when the name holds
      it; else the leftmost `vN[.M]` as "vN[.M]", marked " (new)" when the name holds `_new`; else the name. */
  function ParseVersion(sourceFile: string): (r: string)
    ensures sourceFile == "" ==> r == "—"
    ensures sourceFile != "" && Contains(sourceFile, "finalUPD") ==> "finalUPD" <= r && !EndsWith(r, NewMark)
    ensures sourceFile != "" && Contains(sourceFile, "finalUPD") && Deduplicator.FinalUpdMinor(sourceFile).None? ==>
      r == "finalUPD"
    ensures sourceFile != "" && !Contains(sourceFile, "finalUPD") && Deduplicator.FirstVersion(sourceFile).Some? ==>
      "v" <= r && (EndsWith(r, NewMark) <==> Contains(sourceFile, "_new"))
    ensures sourceFile != "" && !Contains(sourceFile, "finalUPD") && Deduplicator.FirstVersion(sourceFile).None? ==>
      r == sourceFile
  {
    if sourceFile == "" then "—"
    else
      match FinalUpdGroupsAt(sourceFile, Deduplicator.FinalUpdPos(sourceFile, 0))
      case Some((x, y)) =>
        assert sourceFile[Deduplicator.FinalUpdPos(sourceFile, 0)..][..8] == "finalUPD";
        FinalUpdLabel(x, y)
      case None =>
        if Contains(sourceFile, "finalUPD") then "finalUPD"
        else
          match VersionGroupsAt(sourceFile, Deduplicator.VersionPos(sourceFile, 0))
          case Some((n, m)) => VersionLabel(n, m, Contains(sourceFile, "_new"))
          case None => sourceFile
  }

  /** "finalUPD vX.Y". */
  function FinalUpdLabel(x: string, y: string): (r: string)
    requires IsDigitString(y)
    ensures "finalUPD" <= r && !EndsWith(r, NewMark)
  {
    var r := "finalUPD v" + x + "." + y;
    assert r[|r| - 1] == y[|y| - 1];
    r
  }

  /** "vN", then ".M" when the minor number is present, then " (new)" for a `_new` name. */
  function VersionLabel(n: string, m: Option<string>, isNew: bool): (r: string)
    requires IsDigitString(n) && (m.Some? ==> IsDigitString(m.value))
    ensures "v" <= r && (EndsWith(r, NewMark) <==> isNew)
  {
    var v := if m.Some? then "v" + n + "." + m.value else "v" + n;
    var r := if isNew then v + NewMark else v;
    assert r[..|v|] == v;
    assert r[|v|..] == if isNew then NewMark else "";
    assert !isNew ==> r[|r| - 1] != NewMark[|NewMark| - 1] by {
      if !isNew {
        assert r[|r| - 1] == v[|v| - 1] == (if m.Some? then m.value[|m.value| - 1] else n[|n| - 1]);
      }
    }
    r
  }

  /** The label of a final revision: its two numbers; any `_new` is not shown. */
  lemma FinalUpdVersion(prefix: string, x: string, y: string, rest: string)
    requires forall i | 0 <= i < |prefix| :: prefix[i] != 'f'
    requires IsDigitString(x) && IsDigitString(y)
    requires |rest| == 0 || !IsDigit(rest[0])
    ensures ParseVersion(prefix + "finalUPDv." + x + "." + y + rest) == "finalUPD v" + x + "." + y
  {
    FinalUpdFound(prefix, x, y, rest);
  }

  /** The priority of a final revision: 1000 plus its second number, whatever the first, plus one half
      for `_new`. */
  lemma FinalUpdPriority(prefix: string, x: string, y: string, rest: string)
    requires forall i | 0 <= i < |prefix| :: prefix[i] != 'f'
    requires IsDigitString(x) && IsDigitString(y)
    requires |rest| == 0 || !IsDigit(rest[0])
    ensures var s := prefix + "finalUPDv." + x + "." + y + rest;
      Deduplicator.Priority(s) == (1000 + NatValue(y)) as real + (if Contains(s, "_new") then 0.5 else 0.0)
  {
    var s := prefix + "finalUPDv." + x + "." + y + rest;
    FinalUpdFound(prefix, x, y, rest);
    assert Deduplicator.FinalUpdMinor(s) == Some(NatValue(y));
  }

  /** The first `finalUPD` match of such a name is the one after the prefix, with groups X and Y. */
  lemma FinalUpdFound(prefix: string, x: string, y: string, rest: string)
    requires forall i | 0 <= i < |prefix| :: prefix[i] != 'f'
    requires IsDigitString(x) && IsDigitString(y)
    requires |rest| == 0 || !IsDigit(rest[0])
    ensures var s := prefix + "finalUPDv." + x + "." + y + rest;
      Deduplicator.FinalUpdPos(s, 0) == |prefix| < |s| && FinalUpdGroupsAt(s, |prefix|) == Some((x, y))
  {
    var s := prefix + "finalUPDv." + x + "." + y + rest;
    var p := |prefix|;
    assert s == prefix + ("finalUPDv." + x + "." + y + rest);
    FinalUpdGroupsOf(s, p, x, y);
    forall q | 0 <= q < p ensures Deduplicator.FinalUpdAt(s, q).None? {
      assert s[q] == prefix[q];
      NoFinalUpdAtOther(s, q);
    }
    FinalUpdPosFirst(s, 0, p);
  }

  /** No `finalUPD` match starts at a character other than `f`. */
  lemma NoFinalUpdAtOther(s: string, q: nat)
    requires q < |s| && s[q] != 'f'
    ensures Deduplicator.FinalUpdAt(s, q).None?
  {
    assert s[q..][0] == s[q];
  }

  /** The groups read at a place where `finalUPDv.X.Y` stands, followed by a non-digit or the end. */
  lemma FinalUpdGroupsOf(s: string, p: nat, x: string, y: string)
    requires IsDigitString(x) && IsDigitString(y)
    requires p + 11 + |x| + |y| <= |s|
    requires s[p..] == "finalUPDv." + x + "." + y + s[p + 11 + |x| + |y|..]
    requires p + 11 + |x| + |y| < |s| ==> !IsDigit(s[p + 11 + |x| + |y|])
    ensures FinalUpdGroupsAt(s, p) == Some((x, y))
  {
    FinalUpdLayout(s, p, x, y);
    var e1 := p + 10 + |x|;
    DigitRunEndAt(s, p + 10, e1);
    DigitRunEndAt(s, e1 + 1, e1 + 1 + |y|);
  }

  /** Where the pieces of `finalUPDv.X.Y` sit in `s` when it stands at `p`. */
  lemma FinalUpdLayout(s: string, p: nat, x: string, y: string)
    requires IsDigitString(x) && IsDigitString(y)
    requires p + 11 + |x| + |y| <= |s|
    requires s[p..] == "finalUPDv." + x + "." + y + s[p + 11 + |x| + |y|..]
    ensures "finalUPDv." <= s[p..]
    ensures forall k | p + 10 <= k < p + 10 + |x| :: IsDigit(s[k])
    ensures s[p + 10 + |x|] == '.'
    ensures forall k | p + 11 + |x| <= k < p + 11 + |x| + |y| :: IsDigit(s[k])
    ensures s[p + 10..p + 10 + |x|] == x
    ensures s[p + 11 + |x|..p + 11 + |x| + |y|] == y
  {
    var t := s[p..];
    var u := "finalUPDv." + x;
    var w := u + "." + y;
    assert t == w + s[p + 11 + |x| + |y|..];
    assert t[..10] == u[..10] == "finalUPDv.";
    var e1 := p + 10 + |x|;
    forall k | 0 <= k < |x| ensures s[p + 10 + k] == x[k] {
      assert s[p + 10 + k] == t[10 + k] == w[10 + k] == u[10 + k];
    }
    assert s[e1] == t[10 + |x|] == w[|u|];
    forall k | 0 <= k < |y| ensures s[e1 + 1 + k] == y[k] {
      assert s[e1 + 1 + k] == t[11 + |x| + k] == w[|u| + 1 + k];
    }
    forall k | p + 10 <= k < e1 ensures IsDigit(s[k]) {
      assert s[p + 10 + (k - p - 10)] == x[k - p - 10];
    }
    forall k | e1 + 1 <= k < e1 + 1 + |y| ensures IsDigit(s[k]) {
      assert s[e1 + 1 + (k - e1 - 1)] == y[k - e1 - 1];
    }
  }

  lemma {:induction false} FinalUpdPosFirst(s: string, p: nat, q: nat)
    requires p <= q < |s|
    requires forall q' | p <= q' < q :: Deduplicator.FinalUpdAt(s, q').None?
    ensures Deduplicator.FinalUpdPos(s, p) == Deduplicator.FinalUpdPos(s, q)
    decreases q - p
  {
    if p < q {
      FinalUpdPosFirst(s, p + 1, q);
    }
  }

  /** The label of a tag `<prefix>vN<rest>` with no earlier `v`, no `finalUPD` and no `.M` after N: "vN",
      marked when the name holds `_new`. */
  lemma VersionWithoutMinor(prefix: string, major: string, rest: string)
    requires forall i | 0 <= i < |prefix| :: prefix[i] != 'v'
    requires IsDigitString(major)
    requires |rest| == 0 || !IsDigit(rest[0])
    requires !(|rest| > 1 && rest[0] == '.' && IsDigit(rest[1]))
    requires !Contains(prefix + "v" + major + rest, "finalUPD")
    ensures var s := prefix + "v" + major + rest;
      ParseVersion(s) == if Contains(s, "_new") then "v" + major + NewMark else "v" + major
  {
    var s := prefix + "v" + major + rest;
    var p := |prefix|;
    assert s == prefix + ("v" + major + rest);
    VersionGroupsNoMinor(s, p, major);
    forall q | 0 <= q < p ensures Deduplicator.VersionAt(s, q).None? {
      assert s[q] == prefix[q];
    }
    Deduplicator.VersionPosFirst(s, 0, p);
    Deduplicator.NoFinalUpdMinor(s);
    assert FinalUpdGroupsAt(s, Deduplicator.FinalUpdPos(s, 0)).None?;
    assert ParseVersion(s) == VersionLabel(major, None, Contains(s, "_new"));
  }

  /** The groups read at a place where `vN` stands, followed by neither a digit nor a point and a digit. */
  lemma VersionGroupsNoMinor(s: string, p: nat, major: string)
    requires IsDigitString(major)
    requires p + 1 + |major| <= |s|
    requires s[p..] == "v" + major + s[p + 1 + |major|..]
    requires p + 1 + |major| < |s| ==> !IsDigit(s[p + 1 + |major|])
    requires !(p + 2 + |major| < |s| && s[p + 1 + |major|] == '.' && IsDigit(s[p + 2 + |major|]))
    ensures VersionGroupsAt(s, p) == Some((major, None))
  {
    var t := s[p..];
    var u := "v" + major;
    assert t == u + s[p + 1 + |major|..];
    assert s[p] == t[0] == u[0];
    var e := p + 1 + |major|;
    forall k | 0 <= k < |major| ensures s[p + 1 + k] == major[k] {
      assert s[p + 1 + k] == t[1 + k] == u[1 + k];
    }
    forall k | p + 1 <= k < e ensures IsDigit(s[k]) {
      assert s[p + 1 + (k - p - 1)] == major[k - p - 1];
    }
    DigitRunEndAt(s, p + 1, e);
    assert s[p + 1..e] == major;
  }

  /** The label of a tag `<prefix>vN.M<rest>` with no earlier `v` and no `finalUPD`: "vN.M", marked when
      the name holds `_new`; the minor number is shown although the priority ignores it. */
  lemma VersionWithMinor(prefix: string, major: string, minor: string, rest: string)
    requires forall i | 0 <= i < |prefix| :: prefix[i] != 'v'
    requires IsDigitString(major) && IsDigitString(minor)
    requires |rest| == 0 || !IsDigit(rest[0])
    requires !Contains(prefix + "v" + major + "." + minor + rest, "finalUPD")
    ensures var s := prefix + "v" + major + "." + minor + rest;
      ParseVersion(s) == if Contains(s, "_new") then "v" + major + "." + minor + NewMark else "v" + major + "." + minor
  {
    var s := prefix + "v" + major + "." + minor + rest;
    var p := |prefix|;
    assert s == prefix + ("v" + major + "." + minor + rest);
    VersionGroupsOf(s, p, major, minor);
    forall q | 0 <= q < p ensures Deduplicator.VersionAt(s, q).None? {
      assert s[q] == prefix[q];
    }
    Deduplicator.VersionPosFirst(s, 0, p);
    Deduplicator.NoFinalUpdMinor(s);
    assert FinalUpdGroupsAt(s, Deduplicator.FinalUpdPos(s, 0)).None?;
    assert ParseVersion(s) == VersionLabel(major, Some(minor), Contains(s, "_new"));
  }

  /** The groups read at a place where `vN.M` stands, followed by a non-digit or the end. */
  lemma VersionGroupsOf(s: string, p: nat, major: string, minor: string)
    requires IsDigitString(major) && IsDigitString(minor)
    requires p + 2 + |major| + |minor| <= |s|
    requires s[p..] == "v" + major + "." + minor + s[p + 2 + |major| + |minor|..]
    requires p + 2 + |major| + |minor| < |s| ==> !IsDigit(s[p + 2 + |major| + |minor|])
    ensures VersionGroupsAt(s, p) == Some((major, Some(minor)))
  {
    VersionLayout(s, p, major, minor);
    var e := p + 1 + |major|;
    DigitRunEndAt(s, p + 1, e);
    DigitRunEndAt(s, e + 1, e + 1 + |minor|);
  }

  /** Where the pieces of `vN.M` sit in `s` when it stands at `p`. */
  lemma VersionLayout(s: string, p: nat, major: string, minor: string)
    requires IsDigitString(major) && IsDigitString(minor)
    requires p + 2 + |major| + |minor| <= |s|
    requires s[p..] == "v" + major + "." + minor + s[p + 2 + |major| + |minor|..]
    ensures s[p] == 'v'
    ensures forall k | p + 1 <= k < p + 1 + |major| :: IsDigit(s[k])
    ensures s[p + 1 + |major|] == '.'
    ensures forall k | p + 2 + |major| <= k < p + 2 + |major| + |minor| :: IsDigit(s[k])
    ensures s[p + 1..p + 1 + |major|] == major
    ensures s[p + 2 + |major|..p + 2 + |major| + |minor|] == minor
  {
    var t := s[p..];
    var u := "v" + major;
    var w := u + "." + minor;
    assert t == w + s[p + 2 + |major| + |minor|..];
    assert s[p] == t[0] == u[0];
    var e := p + 1 + |major|;
    forall k | 0 <= k < |major| ensures s[p + 1 + k] == major[k] {
      assert s[p + 1 + k] == t[1 + k] == w[1 + k] == u[1 + k];
    }
    assert s[e] == t[1 + |major|] == w[|u|];
    forall k | 0 <= k < |minor| ensures s[e + 1 + k] == minor[k] {
      assert s[e + 1 + k] == t[2 + |major| + k] == w[|u| + 1 + k];
    }
    forall k | p + 1 <= k < e ensures IsDigit(s[k]) {
      assert s[p + 1 + (k - p - 1)] == major[k - p - 1];
    }
    forall k | e + 1 <= k < e + 1 + |minor| ensures IsDigit(s[k]) {
      assert s[e + 1 + (k - e - 1)] == minor[k - e - 1];
    }
  }

  // ───────────────────────── _comparison_detail ─────────────────────────

  /** `.strip().lower()`. */
  function Normalized(s: string): string {
    Lower(Strip(s))
  }

  /** "'req' found in 'mod'". */
  function FoundIn(req: string, mod: string): (r: string)
    ensures r != "" && r != "Exact text match"
  {
    var r := "'" + req + "' found in '" + mod + "'";
    assert r[0] == '\'';
    r
  }

  /** _comparison_detail as it runs: the numeric branch's import always fails and is swallowed, so only the
      text branch decides. Two strings equal after normalising give "Exact text match"; a required text
      inside the catalogue text gives "'req' found in 'mod'"; anything else gives "". */
  function ComparisonDetail(reqVal: Value, modVal: Value): (r: string)
    ensures r == "Exact text match" <==> reqVal.Str? && modVal.Str? && Normalized(reqVal.s) == Normalized(modVal.s)
    ensures r == "" <==> !(reqVal.Str? && modVal.Str? && Contains(Normalized(modVal.s), Normalized(reqVal.s)))
    ensures r != "" && r != "Exact text match" ==> r == FoundIn(reqVal.s, modVal.s)
  {
    if reqVal.Str? && modVal.Str? then
      var r := Normalized(reqVal.s);
      var m := Normalized(modVal.s);
      if r == m then
        ContainsSelf(m);
        "Exact text match"
      else if Contains(m, r) then FoundIn(reqVal.s, modVal.s)
      else ""
    else ""
  }
}
