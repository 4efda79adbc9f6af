/** The version deduplicator: a revision priority read from a catalogue
    row's source file name, and the choice of one row per model name. */
module Deduplicator {
  import opened Strings
  import opened Dicts
  import opened Catalogue

  // ───────────────────────── revision priority ─────────────────────────

  /** The minor number Y when `finalUPDv.X.Y` (X and Y digit runs) starts at `p`. */
  function FinalUpdAt(s: string, p: nat): Option<nat>
    requires p <= |s|
  {
    if !("finalUPDv." <= s[p..]) then None
    else
      var e1 := DigitRunEnd(s, p + 10);
      if e1 == p + 10 || e1 == |s| || s[e1] != '.' then None
      else
        var e2 := DigitRunEnd(s, e1 + 1);
        if e2 == e1 + 1 then None else Some(NatValue(s[e1 + 1..e2]))
  }

  /** The number N when `v<N>` (N a digit run) starts at `p`. */
  function VersionAt(s: string, p: nat): Option<nat>
    requires p <= |s|
  {
    if p + 1 < |s| && s[p] == 'v' && IsDigit(s[p + 1]) then
      Some(NatValue(s[p + 1..DigitRunEnd(s, p + 1)]))
    else None
  }

  /** Where re.search finds `finalUPDv.X.Y` at or after `p`: the first position with a match (|s| when none). */
  function FinalUpdPos(s: string, p: nat): (q: nat)
    requires p <= |s|
    ensures p <= q <= |s|
    ensures forall q' | p <= q' < q :: FinalUpdAt(s, q').None?
    ensures q < |s| ==> FinalUpdAt(s, q).Some?
    decreases |s| - p
  {
    if p == |s| || FinalUpdAt(s, p).Some? then p else FinalUpdPos(s, p + 1)
  }

  /** Where re.search finds `v<N>` at or after `p` (|s| when none; no match can start there). */
  function VersionPos(s: string, p: nat): (q: nat)
    requires p <= |s|
    ensures p <= q <= |s|
    ensures forall q' | p <= q' < q :: VersionAt(s, q').None?
    ensures q < |s| ==> VersionAt(s, q).Some?
    decreases |s| - p
  {
    if p == |s| || VersionAt(s, p).Some? then p else VersionPos(s, p + 1)
  }

  /** The Y of the leftmost `finalUPDv.X.Y`. */
  function FinalUpdMinor(s: string): Option<nat> {
    FinalUpdAt(s, FinalUpdPos(s, 0))
  }

  /** The N of the leftmost `v<N>`. */
  function FirstVersion(s: string): Option<nat> {
    VersionAt(s, VersionPos(s, 0))
  }

  /** The priority before the `_new` bonus. */
  function BasePriority(s: string): nat {
    match FinalUpdMinor(s)
    case Some(y) => 1000 + y
    case None =>
      if Contains(s, "finalUPD") then 1000
      else match FirstVersion(s)
        case Some(n) => n
        case None => 0
  }

  /** _parse_version_priority: a whole number from the version tag, plus one half for `_new`. */
  function Priority(sourceFile: string): (r: real)
    ensures r >= 0.0
    ensures Contains(sourceFile, "finalUPD") ==> r >= 1000.0
    ensures r == r.Floor as real + (if Contains(sourceFile, "_new") then 0.5 else 0.0)
  {
    if sourceFile == "" then 0.0
    else
      var n := BasePriority(sourceFile);
      assert (n as real + 0.5).Floor == n;
      n as real + (if Contains(sourceFile, "_new") then 0.5 else 0.0)
  }

  /** The rules of the priority: 1000 + Y for `finalUPDv.X.Y`, 1000 for another `finalUPD`, N for the first
      `v<N>`, 0 without a version; one half more for `_new`. */
  lemma PriorityRules(s: string)
    ensures var half := if Contains(s, "_new") then 0.5 else 0.0;
      && (s != "" && FinalUpdMinor(s).Some? ==> Priority(s) == (1000 + FinalUpdMinor(s).value) as real + half)
      && (s != "" && Contains(s, "finalUPD") && FinalUpdMinor(s).None? ==> Priority(s) == 1000.0 + half)
      && (!Contains(s, "finalUPD") && FirstVersion(s).Some? ==> Priority(s) == FirstVersion(s).value as real + half)
      && (!Contains(s, "finalUPD") && FirstVersion(s).None? ==> Priority(s) == half)
  {
    if !Contains(s, "finalUPD") {
      NoFinalUpdMinor(s);
    }
    if s == "" {
      assert !Contains(s, "_new");
    }
  }

  /** A tag without `finalUPD` and whose first `v<N>` has N below 1000 ranks below every `finalUPD` tag. */
  lemma FinalUpdOutranks(s: string, t: string)
    requires Contains(s, "finalUPD") && !Contains(t, "finalUPD")
    requires FirstVersion(t).None? || FirstVersion(t).value < 999
    ensures Priority(t) < Priority(s)
  {
    NoFinalUpdMinor(t);
  }

  /** Within tags of the same form, a higher first version number ranks higher. */
  lemma VersionOrder(s: string, t: string)
    requires !Contains(s, "finalUPD") && !Contains(t, "finalUPD")
    requires Contains(s, "_new") == Contains(t, "_new")
    requires FirstVersion(s).Some? && FirstVersion(t).Some?
    requires FirstVersion(s).value < FirstVersion(t).value
    ensures Priority(s) < Priority(t)
  {
    NoFinalUpdMinor(s);
    NoFinalUpdMinor(t);
  }

  /** Without `finalUPD` in the tag there is no `finalUPDv.X.Y` either. */
  lemma NoFinalUpdMinor(s: string)
    requires !Contains(s, "finalUPD")
    ensures FinalUpdMinor(s).None?
  {
  }

  /** A tag `<prefix>v<major><rest>` with no earlier `v`, no `finalUPD` and no `_new` has priority `major`;
      whatever follows the major number (a `.M` minor number, an extension) is ignored. */
  lemma VersionTag(prefix: string, major: string, rest: string)
    requires IsDigitString(major)
    requires forall i | 0 <= i < |prefix| :: prefix[i] != 'v'
    requires |rest| == 0 || !IsDigit(rest[0])
    requires !Contains(prefix + "v" + major + rest, "finalUPD") && !Contains(prefix + "v" + major + rest, "_new")
    ensures Priority(prefix + "v" + major + rest) == NatValue(major) as real
  {
    var s := prefix + "v" + major + rest;
    NoFinalUpdMinor(s);
    FirstVersionOf(prefix, major, rest);
    assert s != "" && BasePriority(s) == NatValue(major);
  }

  /** The first `v<N>` of `<prefix>v<major><rest>`, with no `v` in the prefix, is the major number. */
  lemma FirstVersionOf(prefix: string, major: string, rest: string)
    requires IsDigitString(major)
    requires forall i | 0 <= i < |prefix| :: prefix[i] != 'v'
    requires |rest| == 0 || !IsDigit(rest[0])
    ensures FirstVersion(prefix + "v" + major + rest) == Some(NatValue(major))
  {
    var s := prefix + "v" + major + rest;
    var p := |prefix|;
    assert s[p] == 'v' && s[p + 1] == major[0];
    var e := DigitRunEnd(s, p + 1);
    assert e == p + 1 + |major| by {
      forall k | p + 1 <= k < p + 1 + |major| ensures IsDigit(s[k]) {
        assert s[k] == major[k - p - 1];
      }
      if p + 1 + |major| < |s| {
        assert s[p + 1 + |major|] == rest[0];
      }
      DigitRunEndAt(s, p + 1, p + 1 + |major|);
    }
    assert s[p + 1..e] == major;
    forall q | 0 <= q < p ensures VersionAt(s, q).None? {
      assert s[q] == prefix[q];
    }
    VersionPosFirst(s, 0, p);
  }

  lemma {:induction false} VersionPosFirst(s: string, p: nat, q: nat)
    requires p <= q < |s|
    requires forall q' | p <= q' < q :: VersionAt(s, q').None?
    ensures VersionPos(s, p) == VersionPos(s, q)
    decreases q - p
  {
    if p < q {
      VersionPosFirst(s, p + 1, q);
    }
  }

  // ───────────────────────── deduplication ─────────────────────────

  function ModelName(m: CatalogueModel): string {
    m.modelName
  }

  /** The ranking key of a row: its number of specifications, then its revision priority. */
  function Rank(m: CatalogueModel): (nat, real) {
    (|m.specifications|, Priority(m.sourceFile))
  }

  /** The lexicographic order on ranking keys that Python's tuple comparison uses. */
  predicate RankLt(a: (nat, real), b: (nat, real)) {
    a.0 < b.0 || (a.0 == b.0 && a.1 < b.1)
  }

  /** The rows with a non-empty specification map, in order. */
  function NonEmpty(models: seq<CatalogueModel>): (r: seq<CatalogueModel>)
    ensures |r| <= |models|
    ensures forall m :: m in r <==> m in models && |m.specifications| > 0
  {
    if models == [] then []
    else
      var init := NonEmpty(models[..|models| - 1]);
      var last := models[|models| - 1];
      assert models == models[..|models| - 1] + [last];
      if |last.specifications| > 0 then init + [last] else init
  }

  /** The ranks of a group's rows, in order. */
  function Ranks(group: seq<CatalogueModel>): (r: seq<(nat, real)>)
    ensures |r| == |group| && forall j | 0 <= j < |group| :: r[j] == Rank(group[j])
  {
    seq(|group|, j requires 0 <= j < |group| => Rank(group[j]))
  }

  /** The position max() picks among the ranks: the first of the largest. */
  function BestIndex(ranks: seq<(nat, real)>): (i: nat)
    requires |ranks| > 0
    ensures i < |ranks|
    ensures forall j | 0 <= j < |ranks| :: !RankLt(ranks[i], ranks[j])
    ensures forall j | 0 <= j < i :: RankLt(ranks[j], ranks[i])
  {
    if |ranks| == 1 then 0
    else
      var b := BestIndex(ranks[..|ranks| - 1]);
      assert forall j | 0 <= j < |ranks| - 1 :: ranks[..|ranks| - 1][j] == ranks[j];
      if RankLt(ranks[b], ranks[|ranks| - 1]) then |ranks| - 1 else b
  }

  /** The row max(group, key=rank) returns. */
  function Best(group: seq<CatalogueModel>): (w: CatalogueModel)
    requires |group| > 0
    ensures w in group
    ensures forall j | 0 <= j < |group| :: !RankLt(Rank(w), Rank(group[j]))
    ensures exists k | 0 <= k < |group| :: group[k] == w && forall j | 0 <= j < k :: RankLt(Rank(group[j]), Rank(w))
  {
    var ranks := Ranks(group);
    var k := BestIndex(ranks);
    assert forall j | 0 <= j < k :: RankLt(Rank(group[j]), Rank(group[k])) by {
      forall j | 0 <= j < k ensures RankLt(Rank(group[j]), Rank(group[k])) {
        assert ranks[j] == Rank(group[j]) && ranks[k] == Rank(group[k]);
      }
    }
    group[k]
  }

  /** The winner of each group, in group order. */
  function Winners(groups: Dict<string, seq<CatalogueModel>>): (r: seq<CatalogueModel>)
    requires forall j | 0 <= j < |groups| :: |groups[j].1| > 0
    ensures |r| == |groups|
    ensures forall j | 0 <= j < |groups| :: r[j] == Best(groups[j].1)
  {
    seq(|groups|, j requires 0 <= j < |groups| => Best(groups[j].1))
  }

  /** The groups of the non-empty rows by model name, in order of first appearance. */
  function Groups(models: seq<CatalogueModel>): (g: Dict<string, seq<CatalogueModel>>)
    ensures forall j | 0 <= j < |g| :: |g[j].1| > 0
    ensures forall j | 0 <= j < |g| :: g[j].1 == FilterKey(NonEmpty(models), ModelName, g[j].0)
  {
    var g := GroupBy(NonEmpty(models), ModelName);
    assert forall j | 0 <= j < |g| :: |g[j].1| > 0 && g[j].1 == FilterKey(NonEmpty(models), ModelName, g[j].0) by {
      forall j | 0 <= j < |g| ensures |g[j].1| > 0 && g[j].1 == FilterKey(NonEmpty(models), ModelName, g[j].0) {
        GroupByEntries(NonEmpty(models), ModelName, j);
      }
    }
    g
  }

  /** The list deduplicate_models returns. */
  function Dedup(models: seq<CatalogueModel>): seq<CatalogueModel> {
    Winners(Groups(models))
  }

  /** deduplicate_models: filter, group by name into a dict, then keep one row per group. */
  method DeduplicateModels(models: seq<CatalogueModel>) returns (result: seq<CatalogueModel>)
    ensures result == Dedup(models)
  {
    var nonEmpty := FilterNonEmpty(models);
    var groups := GroupByName(nonEmpty);
    assert groups == Groups(models);
    result := PickWinners(groups);
  }

  /** The result loop: a single row passes through, a larger group gives its max(). */
  method PickWinners(groups: Dict<string, seq<CatalogueModel>>) returns (result: seq<CatalogueModel>)
    requires forall j | 0 <= j < |groups| :: |groups[j].1| > 0
    ensures result == Winners(groups)
  {
    result := [];
    for i := 0 to |groups|
      invariant |result| == i
      invariant forall j | 0 <= j < i :: result[j] == Best(groups[j].1)
    {
      var group := groups[i].1;
      if |group| == 1 {
        result := result + [group[0]];
      } else {
        var best := MaxByRank(group);
        result := result + [best];
      }
    }
  }

  /** `[m for m in models if m.specifications]`. */
  method FilterNonEmpty(models: seq<CatalogueModel>) returns (nonEmpty: seq<CatalogueModel>)
    ensures nonEmpty == NonEmpty(models)
  {
    nonEmpty := [];
    for i := 0 to |models|
      invariant nonEmpty == NonEmpty(models[..i])
    {
      assert models[..i + 1][..i] == models[..i];
      if |models[i].specifications| > 0 {
        nonEmpty := nonEmpty + [models[i]];
      }
    }
    assert models[..|models|] == models;
  }

  /** `for m in rows: groups[m.model_name].append(m)` on a defaultdict(list). */
  method GroupByName(rows: seq<CatalogueModel>) returns (groups: Dict<string, seq<CatalogueModel>>)
    ensures groups == GroupBy(rows, ModelName)
  {
    groups := [];
    for i := 0 to |rows|
      invariant groups == GroupBy(rows[..i], ModelName)
    {
      assert rows[..i + 1][..i] == rows[..i];
      groups := AppendTo(groups, rows[i].modelName, rows[i]);
    }
    assert rows[..|rows|] == rows;
  }

  /** `max(group, key=rank)`: a scan that replaces the current best only by a strictly larger rank. */
  method MaxByRank(group: seq<CatalogueModel>) returns (best: CatalogueModel)
    requires |group| > 0
    ensures best == Best(group)
  {
    var ranks := Ranks(group);
    var b := 0;
    for j := 1 to |group|
      invariant 0 <= b < j
      invariant b == BestIndex(ranks[..j])
    {
      assert ranks[..j + 1][..j] == ranks[..j];
      if RankLt(Rank(group[b]), Rank(group[j])) {
        b := j;
      }
    }
    assert ranks[..|group|] == ranks;
    best := group[b];
  }

  /** Each row of the result is a non-empty row of the input whose rank no other non-empty row of
      its name exceeds, and it is the first row of its name with that rank. */
  lemma DedupWinner(models: seq<CatalogueModel>, i: nat)
    requires i < |Dedup(models)|
    ensures var w := Dedup(models)[i];
      && w in models && |w.specifications| > 0
      && (forall m | m in models && m.modelName == w.modelName && |m.specifications| > 0 :: !RankLt(Rank(w), Rank(m)))
      && w == Best(FilterKey(NonEmpty(models), ModelName, w.modelName))
  {
    var g := Groups(models);
    var group := g[i].1;
    var w := Best(group);
    FilterKeyMembers(NonEmpty(models), ModelName, g[i].0, w);
    assert w.modelName == g[i].0;
    forall m | m in models && m.modelName == w.modelName && |m.specifications| > 0 ensures !RankLt(Rank(w), Rank(m)) {
      FilterKeyMembers(NonEmpty(models), ModelName, g[i].0, m);
      BestOfGroupBeats(group, m);
    }
  }

  /** The best row of a group ranks at least as high as every row in it. */
  lemma BestOfGroupBeats(group: seq<CatalogueModel>, m: CatalogueModel)
    requires m in group
    ensures !RankLt(Rank(Best(group)), Rank(m))
  {
    var k :| 0 <= k < |group| && group[k] == m;
  }

  /** No two rows of the result share a model name, and the result is no longer than the input. */
  lemma DedupUnique(models: seq<CatalogueModel>)
    ensures |Dedup(models)| <= |models|
    ensures forall i, j | 0 <= i < j < |Dedup(models)| :: Dedup(models)[i].modelName != Dedup(models)[j].modelName
  {
    GroupByKeys(NonEmpty(models), ModelName);
    DedupNames(models);
  }

  /** The i-th row of the result carries the i-th group's name. */
  lemma DedupNames(models: seq<CatalogueModel>)
    ensures |Dedup(models)| == |Groups(models)|
    ensures forall i | 0 <= i < |Dedup(models)| :: Dedup(models)[i].modelName == Groups(models)[i].0
  {
    var g := Groups(models);
    var r := Dedup(models);
    forall i | 0 <= i < |r| ensures r[i].modelName == g[i].0 {
      var w := r[i];
      assert w in g[i].1;
      FilterKeyMembers(NonEmpty(models), ModelName, g[i].0, w);
    }
  }

  /** Every model name that has a non-empty row survives, and the groups keep their order of first appearance. */
  lemma DedupCoversAndOrders(models: seq<CatalogueModel>)
    ensures forall m | m in models && |m.specifications| > 0 :: exists i | 0 <= i < |Dedup(models)| :: Dedup(models)[i].modelName == m.modelName
    ensures forall i, j | 0 <= i < j < |Dedup(models)| ::
      FirstIndex(NonEmpty(models), ModelName, Dedup(models)[i].modelName) < FirstIndex(NonEmpty(models), ModelName, Dedup(models)[j].modelName)
  {
    DedupNames(models);
    DedupCovers(models);
    GroupByKeys(NonEmpty(models), ModelName);
  }

  /** A non-empty row's name is the name of some group. */
  lemma DedupCovers(models: seq<CatalogueModel>)
    ensures forall m | m in models && |m.specifications| > 0 :: exists i | 0 <= i < |Groups(models)| :: Groups(models)[i].0 == m.modelName
  {
    var ne := NonEmpty(models);
    var g := Groups(models);
    forall m | m in models && |m.specifications| > 0 ensures exists i | 0 <= i < |g| :: g[i].0 == m.modelName {
      var k :| 0 <= k < |ne| && ne[k] == m;
      GroupByGet(ne, ModelName, m.modelName);
      var i := IndexOf(g, m.modelName);
    }
  }

  /** Grouping rows with distinct names gives one singleton group per row, in order. */
  lemma {:induction false} GroupDistinct(s: seq<CatalogueModel>)
    requires forall i, j | 0 <= i < j < |s| :: s[i].modelName != s[j].modelName
    ensures |GroupBy(s, ModelName)| == |s|
    ensures forall j | 0 <= j < |s| :: GroupBy(s, ModelName)[j] == (s[j].modelName, [s[j]])
  {
    if s != [] {
      var init := s[..|s| - 1];
      var last := s[|s| - 1];
      GroupDistinct(init);
      assert s == init + [last];
      GroupDistinctSnoc(init, last);
    }
  }

  /** The step of GroupDistinct: a row with a new name adds a singleton group at the end. */
  lemma GroupDistinctSnoc(init: seq<CatalogueModel>, last: CatalogueModel)
    requires |GroupBy(init, ModelName)| == |init|
    requires forall j | 0 <= j < |init| :: GroupBy(init, ModelName)[j] == (init[j].modelName, [init[j]])
    requires forall j | 0 <= j < |init| :: init[j].modelName != last.modelName
    ensures |GroupBy(init + [last], ModelName)| == |init| + 1
    ensures forall j | 0 <= j <= |init| :: GroupBy(init + [last], ModelName)[j] == ((init + [last])[j].modelName, [(init + [last])[j]])
  {
    var g := GroupBy(init, ModelName);
    assert !HasKey(g, last.modelName) by {
      forall j | 0 <= j < |g| ensures g[j].0 != last.modelName {
        assert g[j].0 == init[j].modelName;
      }
    }
    GroupFreshSnoc(init, last);
    var s := init + [last];
    var r := g + [(last.modelName, [last])];
    forall j | 0 <= j <= |init| ensures r[j] == (s[j].modelName, [s[j]]) {
      if j < |init| {
        assert r[j] == g[j] && s[j] == init[j];
      }
    }
  }

  /** A row whose name is new to the rows before it opens a group of its own at the end. */
  lemma GroupFreshSnoc(init: seq<CatalogueModel>, last: CatalogueModel)
    requires !HasKey(GroupBy(init, ModelName), last.modelName)
    ensures GroupBy(init + [last], ModelName) == GroupBy(init, ModelName) + [(last.modelName, [last])]
  {
    var s := init + [last];
    assert s[..|s| - 1] == init;
    var g := GroupBy(init, ModelName);
    assert GroupBy(s, ModelName) == AppendTo(g, ModelName(last), last);
    assert Get(g, last.modelName, []) + [last] == [last];
    assert Put(g, last.modelName, [last]) == g + [(last.modelName, [last])];
  }

  /** Deduplicating a deduplicated list changes nothing. */
  lemma DedupIdempotent(models: seq<CatalogueModel>)
    ensures Dedup(Dedup(models)) == Dedup(models)
  {
    var r := Dedup(models);
    DedupUnique(models);
    forall i | 0 <= i < |r| ensures |r[i].specifications| > 0 {
      DedupWinner(models, i);
    }
    assert NonEmpty(r) == r by {
      NonEmptyKeepsAll(r);
    }
    GroupDistinct(r);
    var g := Groups(r);
    forall j | 0 <= j < |r| ensures Dedup(r)[j] == r[j] {
      assert g[j].1 == [r[j]];
    }
  }

  lemma {:induction false} NonEmptyKeepsAll(s: seq<CatalogueModel>)
    requires forall i | 0 <= i < |s| :: |s[i].specifications| > 0
    ensures NonEmpty(s) == s
  {
    if s != [] {
      NonEmptyKeepsAll(s[..|s| - 1]);
      assert s[..|s| - 1] + [s[|s| - 1]] == s;
    }
  }
}
