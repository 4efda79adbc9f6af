/** The aggregation rules of the Excel report's sheets, apart from the
    workbook itself: the top-10 list of the summary sheet, the fill colour
    of a match row, and the requirements listed as unmatched. */
module ReportSummary {
  import opened Strings
  import opened Dicts
  import opened StableSort
  import opened Catalogue
  import opened Categorizer
  import opened Orchestrator

  datatype Fill = Green | Yellow | Orange | Red

  /** The fill of a row of the top list and of the all-matches sheet. It is the colour of the band the
      categoriser puts the percentage in. */
  function RowFill(pct: real, threshold: int): (f: Fill)
    ensures f == Green <==> BandOf(pct, threshold) == Ideal
    ensures f == Yellow <==> BandOf(pct, threshold) == Partial
    ensures f == Orange <==> BandOf(pct, threshold) == NotMatched
  {
    if pct == 100.0 then Green else if pct >= threshold as real then Yellow else Orange
  }

  // ───────────────────────── top-10 of the summary sheet ─────────────────────────

  /** A match offered to the top list, with the number of required specs of its item. */
  datatype TopEntry = TopEntry(m: Match, totalSpecs: nat)

  function EntryPct(e: TopEntry): real {
    e.m.percentage
  }

  /** The matches of one band, each with the item's spec count. */
  function Tagged(ms: seq<Match>, totalSpecs: nat): (r: seq<TopEntry>)
    ensures |r| == |ms| && forall i | 0 <= i < |ms| :: r[i] == TopEntry(ms[i], totalSpecs)
  {
    seq(|ms|, i requires 0 <= i < |ms| => TopEntry(ms[i], totalSpecs))
  }

  /** What one result offers: its ideal matches, then its partial ones; not-matched ones are never offered. */
  function OffersOf(r: RequirementResult): seq<TopEntry> {
    var total := |r.requirement.requiredSpecs|;
    Tagged(r.matches.ideal, total) + Tagged(r.matches.partial, total)
  }

  /** The offers of all results, in result order. */
  function Offers(results: seq<RequirementResult>): seq<TopEntry> {
    if results == [] then [] else Offers(results[..|results| - 1]) + OffersOf(results[|results| - 1])
  }

  /** One step of the top_models loop: an offer at or above the display minimum replaces the entry of its
      model name only when it is strictly better; a new name goes at the end. */
  function Keep(top: Dict<string, TopEntry>, e: TopEntry, minPct: real): Dict<string, TopEntry> {
    var name := e.m.modelName;
    if e.m.percentage >= minPct && (!HasKey(top, name) || e.m.percentage > top[IndexOf(top, name)].1.m.percentage)
    then Put(top, name, e)
    else top
  }

  /** The top_models dictionary after the offers `es`, starting from `top`. */
  function KeepAll(top: Dict<string, TopEntry>, es: seq<TopEntry>, minPct: real): Dict<string, TopEntry> {
    if es == [] then top else Keep(KeepAll(top, es[..|es| - 1], minPct), es[|es| - 1], minPct)
  }

  /** The top_models dictionary of a run. */
  function TopModels(results: seq<RequirementResult>, minPct: real): Dict<string, TopEntry> {
    KeepAll([], Offers(results), minPct)
  }

  /** The top_models loop of the summary sheet. */
  method CollectTopModels(results: seq<RequirementResult>, minPct: real) returns (top: Dict<string, TopEntry>)
    ensures top == TopModels(results, minPct)
  {
    top := [];
    for i := 0 to |results|
      invariant top == KeepAll([], Offers(results[..i]), minPct)
    {
      var result := results[i];
      var totalSpecs := |result.requirement.requiredSpecs|;
      var before := top;
      top := OfferAll(top, result.matches.ideal, totalSpecs, minPct);
      top := OfferAll(top, result.matches.partial, totalSpecs, minPct);
      KeepAllAppend(before, Tagged(result.matches.ideal, totalSpecs), Tagged(result.matches.partial, totalSpecs), minPct);
      KeepAllAppend([], Offers(results[..i]), OffersOf(result), minPct);
      assert results[..i + 1][..i] == results[..i];
    }
    assert results[..|results|] == results;
  }

  /** The innermost loop: the matches of one band offered one by one. */
  method OfferAll(top0: Dict<string, TopEntry>, ms: seq<Match>, totalSpecs: nat, minPct: real)
    returns (top: Dict<string, TopEntry>)
    ensures top == KeepAll(top0, Tagged(ms, totalSpecs), minPct)
  {
    top := top0;
    for j := 0 to |ms|
      invariant top == KeepAll(top0, Tagged(ms[..j], totalSpecs), minPct)
    {
      var m := ms[j];
      assert Tagged(ms[..j + 1], totalSpecs)[..j] == Tagged(ms[..j], totalSpecs);
      if m.percentage >= minPct {
        var name := m.modelName;
        if !HasKey(top, name) || m.percentage > top[IndexOf(top, name)].1.m.percentage {
          top := Put(top, name, TopEntry(m, totalSpecs));
        }
      }
    }
    assert ms[..|ms|] == ms;
  }

  lemma {:induction false} KeepAllAppend(top: Dict<string, TopEntry>, a: seq<TopEntry>, b: seq<TopEntry>, minPct: real)
    ensures KeepAll(top, a + b, minPct) == KeepAll(KeepAll(top, a, minPct), b, minPct)
  {
    if b == [] {
      assert a + b == a;
    } else {
      KeepAllAppend(top, a, b[..|b| - 1], minPct);
      assert (a + b)[..|a + b| - 1] == a + b[..|b| - 1];
    }
  }

  /** The entry of a model name in the dictionary. */
  function EntryOf(top: Dict<string, TopEntry>, name: string): TopEntry
    requires HasKey(top, name)
  {
    top[IndexOf(top, name)].1
  }

  /** A model name has an entry iff some offer of that name reaches the minimum. The entry is the first of
      the offers of that name with the highest percentage, and it reaches the minimum. */
  lemma {:induction false} KeepAllEntry(es: seq<TopEntry>, minPct: real, name: string)
    ensures var top := KeepAll([], es, minPct);
      HasKey(top, name) <==> exists i | 0 <= i < |es| :: es[i].m.modelName == name && es[i].m.percentage >= minPct
    ensures var top := KeepAll([], es, minPct);
      HasKey(top, name) ==>
        var e := EntryOf(top, name);
        && e.m.modelName == name && e.m.percentage >= minPct
        && (forall i | 0 <= i < |es| && es[i].m.modelName == name && es[i].m.percentage >= minPct ::
              es[i].m.percentage <= e.m.percentage)
        && (exists j | 0 <= j < |es| :: es[j] == e
              && forall i | 0 <= i < j && es[i].m.modelName == name :: es[i].m.percentage < e.m.percentage)
  {
    if es != [] {
      var init := es[..|es| - 1];
      var last := es[|es| - 1];
      KeepAllEntry(init, minPct, name);
      assert es == init + [last];
      KeepStep(KeepAll([], init, minPct), init, last, minPct, name);
    }
  }

  /** The step of KeepAllEntry: what one more offer does to the entry of `name`. */
  lemma KeepStep(top: Dict<string, TopEntry>, init: seq<TopEntry>, last: TopEntry, minPct: real, name: string)
    requires HasKey(top, name) <==> exists i | 0 <= i < |init| :: init[i].m.modelName == name && init[i].m.percentage >= minPct
    requires HasKey(top, name) ==>
        var e := EntryOf(top, name);
        && e.m.modelName == name && e.m.percentage >= minPct
        && (forall i | 0 <= i < |init| && init[i].m.modelName == name && init[i].m.percentage >= minPct ::
              init[i].m.percentage <= e.m.percentage)
        && (exists j | 0 <= j < |init| :: init[j] == e
              && forall i | 0 <= i < j && init[i].m.modelName == name :: init[i].m.percentage < e.m.percentage)
    ensures var es := init + [last]; var top' := Keep(top, last, minPct);
      HasKey(top', name) <==> exists i | 0 <= i < |es| :: es[i].m.modelName == name && es[i].m.percentage >= minPct
    ensures var es := init + [last]; var top' := Keep(top, last, minPct);
      HasKey(top', name) ==>
        var e := EntryOf(top', name);
        && e.m.modelName == name && e.m.percentage >= minPct
        && (forall i | 0 <= i < |es| && es[i].m.modelName == name && es[i].m.percentage >= minPct ::
              es[i].m.percentage <= e.m.percentage)
        && (exists j | 0 <= j < |es| :: es[j] == e
              && forall i | 0 <= i < j && es[i].m.modelName == name :: es[i].m.percentage < e.m.percentage)
  {
    var es := init + [last];
    var top' := Keep(top, last, minPct);
    var n := |init|;
    assert es[n] == last;
    assert forall i | 0 <= i < n :: es[i] == init[i];
    if top' != top {
      var k := last.m.modelName;
      GetPut(top, k, last, name, last);
      assert HasKey(top', k) by {
        if HasKey(top, k) {
          assert top'[IndexOf(top, k)].0 == k;
        } else {
          assert top'[|top|].0 == k;
        }
      }
      if name == k {
        assert HasKey(top', name);
        assert EntryOf(top', name) == Get(top', name, last) == last;
        assert es[n] == last;
      } else {
        if HasKey(top', name) {
          assert Get(top', name, last) == EntryOf(top', name);
          assert HasKey(top, name);
          assert Get(top, name, last) == EntryOf(top, name);
        }
        if HasKey(top, name) {
          var j := IndexOf(top, name);
          assert top'[j].0 == name;
          assert Get(top', name, last) == EntryOf(top', name);
          assert Get(top, name, last) == EntryOf(top, name);
        }
      }
    }
  }

  /** The entries of the dictionary, in its order. */
  function EntriesOf(top: Dict<string, TopEntry>): (r: seq<TopEntry>)
    ensures |r| == |top| && forall i | 0 <= i < |top| :: r[i] == top[i].1
  {
    seq(|top|, i requires 0 <= i < |top| => top[i].1)
  }

  const TopCount: nat := 10

  /** sorted(top_models.values(), key=percentage, reverse=True)[:10]. */
  function SortedTop(top: Dict<string, TopEntry>): (r: seq<TopEntry>)
    ensures |r| == if |top| < TopCount then |top| else TopCount
    ensures forall e | e in r :: e in EntriesOf(top)
  {
    var sorted := SortBy(EntriesOf(top), EntryPct, Greater);
    var r := if |sorted| < TopCount then sorted else sorted[..TopCount];
    forall e | e in r ensures e in EntriesOf(top) {
      assert e in multiset(sorted);
    }
    r
  }

  /** The top list is in descending order of percentage, and every entry left out of it is at or below
      every entry in it. */
  lemma SortedTopIsTop(top: Dict<string, TopEntry>)
    ensures forall i, j | 0 <= i < j < |SortedTop(top)| :: EntryPct(SortedTop(top)[i]) >= EntryPct(SortedTop(top)[j])
    ensures forall e, x | e in EntriesOf(top) && e !in SortedTop(top) && x in SortedTop(top) :: EntryPct(e) <= EntryPct(x)
  {
    var sorted := SortBy(EntriesOf(top), EntryPct, Greater);
    GreaterStrictTotal();
    SortBySorted(EntriesOf(top), EntryPct, Greater);
    var r := SortedTop(top);
    assert r == sorted[..|r|];
    forall e, x | e in EntriesOf(top) && e !in r && x in r ensures EntryPct(e) <= EntryPct(x) {
      assert e in multiset(sorted);
      var j :| 0 <= j < |sorted| && sorted[j] == e;
      var i :| 0 <= i < |r| && r[i] == x;
      assert j >= |r|;
      assert !Greater(EntryPct(sorted[j]), EntryPct(sorted[i]));
    }
  }

  // ───────────────────────── the unmatched sheet ─────────────────────────

  /** All candidates of a result: ideal, then partial, then not matched. */
  function AllMatches(r: RequirementResult): seq<Match> {
    r.matches.ideal + r.matches.partial + r.matches.notMatched
  }

  /** max(percentages, default=0.0). */
  function MaxPct(ms: seq<Match>): (best: real)
    ensures ms == [] ==> best == 0.0
    ensures forall m | m in ms :: m.percentage <= best
    ensures ms != [] ==> exists m | m in ms :: m.percentage == best
  {
    if ms == [] then 0.0
    else if |ms| == 1 then ms[0].percentage
    else
      var b := MaxPct(ms[..|ms| - 1]);
      assert forall m | m in ms :: m in ms[..|ms| - 1] || m == ms[|ms| - 1];
      if ms[|ms| - 1].percentage > b then ms[|ms| - 1].percentage else b
  }

  /** The best percentage of a requirement over all its candidates, 0.0 without any. */
  function BestPercentage(r: RequirementResult): real {
    MaxPct(AllMatches(r))
  }

  /** A requirement gets a row of the unmatched sheet when its best percentage is below the minimum. */
  predicate Listed(r: RequirementResult, minPct: real) {
    BestPercentage(r) < minPct
  }

  /** The test of the has_unmatched loop: no candidate reaches the minimum. */
  predicate NoneReaches(r: RequirementResult, minPct: real) {
    forall m | m in AllMatches(r) :: m.percentage < minPct
  }

  /** The has_unmatched loop: stops at the first requirement none of whose candidates reaches the minimum. */
  method HasUnmatched(results: seq<RequirementResult>, minPct: real) returns (hasUnmatched: bool)
    ensures hasUnmatched <==> exists i | 0 <= i < |results| :: NoneReaches(results[i], minPct)
  {
    hasUnmatched := false;
    for i := 0 to |results|
      invariant forall k | 0 <= k < i :: !NoneReaches(results[k], minPct)
    {
      var allAbove := AnyReaches(AllMatches(results[i]), minPct);
      if !allAbove {
        hasUnmatched := true;
        return;
      }
    }
  }

  /** any(m.percentage >= minPct for m in ms). */
  method AnyReaches(ms: seq<Match>, minPct: real) returns (found: bool)
    ensures found <==> exists m | m in ms :: m.percentage >= minPct
  {
    found := false;
    for k := 0 to |ms|
      invariant forall j | 0 <= j < k :: ms[j].percentage < minPct
    {
      if ms[k].percentage >= minPct {
        return true;
      }
    }
  }

  /** A listed requirement has no candidate reaching the minimum; the converse holds whenever it has a
      candidate or the minimum is positive. */
  lemma ListedIffNoneReaches(r: RequirementResult, minPct: real)
    ensures Listed(r, minPct) ==> NoneReaches(r, minPct)
    ensures NoneReaches(r, minPct) && (AllMatches(r) != [] || minPct > 0.0) ==> Listed(r, minPct)
  {
    var ms := AllMatches(r);
    if ms != [] && NoneReaches(r, minPct) {
      var best := MaxPct(ms);
      assert exists m | m in ms :: m.percentage == best;
      var m :| m in ms && m.percentage == best;
      assert m.percentage < minPct;
    }
  }

  /** With a minimum of zero or less, a requirement without candidates makes the sheet a list of unmatched
      requirements, yet gets no row of it. */
  lemma EmptyResultAtZeroMinimum(r: RequirementResult, minPct: real)
    requires AllMatches(r) == [] && minPct <= 0.0
    ensures NoneReaches(r, minPct) && !Listed(r, minPct)
  {
  }

  /** One row of the unmatched sheet: its number, the category (or "—"), the best percentage, the number
      of required specs and the fill. */
  datatype UnmatchedRow = UnmatchedRow(number: nat, category: string, best: real, specCount: nat, fill: Fill)

  /** Red when no candidate scored above zero, else orange. */
  function UnmatchedFill(best: real): Fill {
    if best == 0.0 then Red else Orange
  }

  function RowOf(r: RequirementResult, number: nat): UnmatchedRow {
    var category := if Given(r.requirement.category) then r.requirement.category.value else "—";
    var best := BestPercentage(r);
    UnmatchedRow(number, category, best, |r.requirement.requiredSpecs|, UnmatchedFill(best))
  }

  /** The listed requirements, in order. */
  function ListedResults(results: seq<RequirementResult>, minPct: real): (r: seq<RequirementResult>)
    ensures |r| <= |results|
    ensures forall x | x in r :: x in results && Listed(x, minPct)
    ensures forall x | x in results && Listed(x, minPct) :: x in r
  {
    if results == [] then []
    else
      var init := ListedResults(results[..|results| - 1], minPct);
      var last := results[|results| - 1];
      assert forall x | x in results :: x in results[..|results| - 1] || x == last;
      if Listed(last, minPct) then init + [last] else init
  }

  /** The rows of the unmatched sheet: one per listed requirement, numbered from 1. */
  function UnmatchedRows(results: seq<RequirementResult>, minPct: real): (rows: seq<UnmatchedRow>)
    ensures |rows| == |ListedResults(results, minPct)|
    ensures forall k | 0 <= k < |rows| :: rows[k] == RowOf(ListedResults(results, minPct)[k], k + 1)
  {
    NumberedRows(ListedResults(results, minPct))
  }

  /** One row per requirement, numbered from 1. */
  function NumberedRows(listed: seq<RequirementResult>): (rows: seq<UnmatchedRow>)
    ensures |rows| == |listed|
    ensures forall k | 0 <= k < |rows| :: rows[k] == RowOf(listed[k], k + 1)
  {
    seq(|listed|, k requires 0 <= k < |listed| => RowOf(listed[k], k + 1))
  }

  /** The row loop of the unmatched sheet. */
  method BuildUnmatchedRows(results: seq<RequirementResult>, minPct: real) returns (rows: seq<UnmatchedRow>)
    ensures rows == UnmatchedRows(results, minPct)
  {
    rows := [];
    var rowNum := 1;
    for i := 0 to |results|
      invariant rowNum == |rows| + 1
      invariant rows == NumberedRows(ListedResults(results[..i], minPct))
    {
      var result := results[i];
      ListedStep(results, i, minPct);
      var best := MaxPctOf(AllMatches(result));
      if best < minPct {
        NumberedRowsSnoc(ListedResults(results[..i], minPct), result);
        rows := rows + [RowOf(result, rowNum)];
        rowNum := rowNum + 1;
      }
    }
    assert results[..|results|] == results;
  }

  lemma ListedStep(results: seq<RequirementResult>, i: nat, minPct: real)
    requires i < |results|
    ensures ListedResults(results[..i + 1], minPct) ==
      ListedResults(results[..i], minPct) + (if Listed(results[i], minPct) then [results[i]] else [])
  {
    assert results[..i + 1][..i] == results[..i] && results[..i + 1][i] == results[i];
  }

  lemma NumberedRowsSnoc(listed: seq<RequirementResult>, r: RequirementResult)
    ensures NumberedRows(listed + [r]) == NumberedRows(listed) + [RowOf(r, |listed| + 1)]
  {
    var a, b := NumberedRows(listed + [r]), NumberedRows(listed) + [RowOf(r, |listed| + 1)];
    assert |a| == |b|;
    forall k | 0 <= k < |a| ensures a[k] == b[k] {
      if k < |listed| {
        assert (listed + [r])[k] == listed[k];
      }
    }
  }

  /** The generator max of the unmatched sheet. */
  method MaxPctOf(ms: seq<Match>) returns (best: real)
    ensures best == MaxPct(ms)
  {
    if ms == [] {
      return 0.0;
    }
    best := ms[0].percentage;
    for k := 1 to |ms|
      invariant best == MaxPct(ms[..k])
    {
      assert ms[..k + 1][..k] == ms[..k];
      if ms[k].percentage > best {
        best := ms[k].percentage;
      }
    }
    assert ms[..|ms|] == ms;
  }

  /** Every row is below the minimum, the rows are numbered 1, 2, … in order, and a requirement whose
      candidates all scored zero (or that has none) is red. */
  lemma UnmatchedRowsShape(results: seq<RequirementResult>, minPct: real)
    ensures forall k | 0 <= k < |UnmatchedRows(results, minPct)| ::
      var row := UnmatchedRows(results, minPct)[k];
      row.number == k + 1 && row.best < minPct && (row.fill == Red <==> row.best == 0.0)
  {
    var listed := ListedResults(results, minPct);
    forall k | 0 <= k < |listed| ensures Listed(listed[k], minPct) {
      assert listed[k] in listed;
    }
  }
}
