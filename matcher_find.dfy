/** The matching orchestrator: for each requirement item, choose a pool of
    catalogue rows, deduplicate it, score every candidate, categorise the
    scores and count the results. The catalogue is a snapshot of the
    `models` table; the three database queries are functions over it. */
module Orchestrator {
  import opened Strings
  import opened Values
  import opened Dicts
  import opened Catalogue
  import opened Scorer
  import opened Categorizer
  import opened Deduplicator
  import Config

  /** One requirement item: `model_name`, `category` and `required_specs`. */
  datatype Item = Item(modelName: Option<string>, category: Option<string>, requiredSpecs: Dict<string, Value>)

  datatype RequirementResult = RequirementResult(requirement: Item, matches: Categorized)

  datatype Summary = Summary(totalRequirements: nat, totalModelsFound: nat, idealMatches: nat, partialMatches: nat)

  datatype MatchRun = MatchRun(results: seq<RequirementResult>, summary: Summary)

  /** The category whose rows are also searched under the managed-switch category. */
  const Switches: string := "Коммутаторы"
  const ManagedSwitches: string := "Управляемый"
  /** The cap on the pool when neither a model name nor a category is given. */
  const AllModelsLimit: nat := 200

  /** A truthy optional string: present and not empty. */
  predicate Given(o: Option<string>) {
    o.Some? && o.value != ""
  }

  /** The candidate pool: by name, else by category (with the managed-switch rows for switches),
      else the first 200 rows of the whole table. */
  function Pool(db: seq<CatalogueModel>, item: Item): (pool: seq<CatalogueModel>)
    ensures Given(item.modelName) ==> pool == ModelsByName(db, item.modelName.value)
    ensures !Given(item.modelName) && Given(item.category) ==>
      forall m :: m in pool <==> m in db && (m.category == item.category
                                           || (item.category == Some(Switches) && m.category == Some(ManagedSwitches)))
    ensures !Given(item.modelName) && !Given(item.category) ==>
      |pool| == if |db| < AllModelsLimit then |db| else AllModelsLimit
    ensures !Given(item.modelName) && !Given(item.category) ==> pool <= db
  {
    if Given(item.modelName) then ModelsByName(db, item.modelName.value)
    else if Given(item.category) then
      var c := item.category.value;
      ModelsByCategory(db, c) + (if c == Switches then ModelsByCategory(db, ManagedSwitches) else [])
    else if |db| < AllModelsLimit then db
    else db[..AllModelsLimit]
  }

  /** The rows scored for an item: the pool, deduplicated when the setting asks for it. */
  function Candidates(db: seq<CatalogueModel>, item: Item, settings: Config.Settings): seq<CatalogueModel> {
    if settings.deduplicateModels then Dedup(Pool(db, item)) else Pool(db, item)
  }

  /** The match record of every candidate, in candidate order. */
  function MatchesFor(candidates: seq<CatalogueModel>, req: Dict<string, Value>, allowLower: bool): (ms: seq<Match>)
    ensures |ms| == |candidates|
    ensures forall i | 0 <= i < |ms| :: ms[i] == MatchOf(candidates[i], Score(req, candidates[i].specifications, allowLower))
  {
    seq(|candidates|, i requires 0 <= i < |candidates| =>
      MatchOf(candidates[i], Score(req, candidates[i].specifications, allowLower)))
  }

  /** The result of one item. */
  function ResultFor(db: seq<CatalogueModel>, item: Item, settings: Config.Settings): RequirementResult {
    var ms := MatchesFor(Candidates(db, item, settings), item.requiredSpecs, settings.allowLowerValues);
    RequirementResult(item, Categorize(ms, settings.matchThreshold))
  }

  /** The result of each item, in item order. */
  function ResultsFor(db: seq<CatalogueModel>, items: seq<Item>, settings: Config.Settings): (rs: seq<RequirementResult>)
  {
    Each((item: Item) => ResultFor(db, item, settings), items)
  }

  /** f applied to each element, built front to back as the loop builds it. */
  function Each<A, B>(f: A -> B, xs: seq<A>): seq<B> {
    if xs == [] then [] else Each(f, xs[..|xs| - 1]) + [f(xs[|xs| - 1])]
  }

  lemma {:induction false} EachAt<A, B>(f: A -> B, xs: seq<A>)
    ensures |Each(f, xs)| == |xs|
    ensures forall i | 0 <= i < |xs| :: Each(f, xs)[i] == f(xs[i])
  {
    if xs != [] {
      EachAt(f, xs[..|xs| - 1]);
    }
  }

  /** The number of candidates scored over the results: the sizes of all three bands. */
  function CountAll(rs: seq<RequirementResult>): nat {
    if rs == [] then 0
    else
      var c := rs[|rs| - 1].matches;
      CountAll(rs[..|rs| - 1]) + |c.ideal| + |c.partial| + |c.notMatched|
  }

  /** The total size of the ideal bands. */
  function CountIdeal(rs: seq<RequirementResult>): nat {
    if rs == [] then 0 else CountIdeal(rs[..|rs| - 1]) + |rs[|rs| - 1].matches.ideal|
  }

  /** The total size of the partial bands. */
  function CountPartial(rs: seq<RequirementResult>): nat {
    if rs == [] then 0 else CountPartial(rs[..|rs| - 1]) + |rs[|rs| - 1].matches.partial|
  }

  /** find_matching_models: one result per item, in item order, each a function of its item alone,
      and the summary counts over them. */
  method FindMatchingModels(db: seq<CatalogueModel>, items: seq<Item>, settings: Config.Settings) returns (run: MatchRun)
    ensures run.results == ResultsFor(db, items, settings)
    ensures run.summary == Summary(|items|, CountAll(run.results), CountIdeal(run.results), CountPartial(run.results))
  {
    if |items| == 0 {
      return MatchRun([], Summary(0, 0, 0, 0));
    }
    var results: seq<RequirementResult> := [];
    var totalModelsFound, idealMatches, partialMatches := 0, 0, 0;
    for i := 0 to |items|
      invariant |results| == i
      invariant results == ResultsFor(db, items[..i], settings)
      invariant totalModelsFound == CountAll(results)
      invariant idealMatches == CountIdeal(results)
      invariant partialMatches == CountPartial(results)
    {
      var result, found := MatchItem(db, items[i], settings);
      ResultsForStep(db, items, i, settings);
      CountsStep(results, result);
      results := results + [result];
      totalModelsFound := totalModelsFound + found;
      idealMatches := idealMatches + |result.matches.ideal|;
      partialMatches := partialMatches + |result.matches.partial|;
    }
    assert items[..|items|] == items;
    run := MatchRun(results, Summary(|items|, totalModelsFound, idealMatches, partialMatches));
  }

  lemma ResultsForStep(db: seq<CatalogueModel>, items: seq<Item>, i: nat, settings: Config.Settings)
    requires i < |items|
    ensures ResultsFor(db, items[..i + 1], settings) == ResultsFor(db, items[..i], settings) + [ResultFor(db, items[i], settings)]
  {
    assert items[..i + 1][..i] == items[..i] && items[..i + 1][i] == items[i];
  }

  lemma CountsStep(rs: seq<RequirementResult>, r: RequirementResult)
    ensures CountAll(rs + [r]) == CountAll(rs) + |r.matches.ideal| + |r.matches.partial| + |r.matches.notMatched|
    ensures CountIdeal(rs + [r]) == CountIdeal(rs) + |r.matches.ideal|
    ensures CountPartial(rs + [r]) == CountPartial(rs) + |r.matches.partial|
  {
    assert (rs + [r])[..|rs|] == rs;
  }

  /** The body of the item loop: search, deduplicate, score, categorise. */
  method MatchItem(db: seq<CatalogueModel>, item: Item, settings: Config.Settings) returns (result: RequirementResult, found: nat)
    ensures result == ResultFor(db, item, settings)
    ensures found == |Candidates(db, item, settings)|
    ensures found == |result.matches.ideal| + |result.matches.partial| + |result.matches.notMatched|
  {
    var candidates := PoolOf(db, item);
    if settings.deduplicateModels {
      candidates := DeduplicateModels(candidates);
    }
    var matches := ScoreAll(candidates, item.requiredSpecs, settings.allowLowerValues);
    var categorized := CategorizeMatches(matches, settings.matchThreshold);
    result := RequirementResult(item, categorized);
    found := |matches|;
    ResultCoversCandidates(db, item, settings);
  }

  /** The three-way search strategy of find_matching_models. */
  method PoolOf(db: seq<CatalogueModel>, item: Item) returns (candidates: seq<CatalogueModel>)
    ensures candidates == Pool(db, item)
  {
    if Given(item.modelName) {
      candidates := ModelsByName(db, item.modelName.value);
    } else if Given(item.category) {
      var category := item.category.value;
      candidates := ModelsByCategory(db, category);
      if category == Switches {
        candidates := candidates + ModelsByCategory(db, ManagedSwitches);
      }
    } else {
      var allModels := db;
      candidates := if |allModels| < AllModelsLimit then allModels else allModels[..AllModelsLimit];
    }
  }

  /** The scoring loop: one match record appended per candidate. */
  method ScoreAll(candidates: seq<CatalogueModel>, req: Dict<string, Value>, allowLower: bool) returns (matches: seq<Match>)
    ensures matches == MatchesFor(candidates, req, allowLower)
  {
    matches := [];
    for i := 0 to |candidates|
      invariant |matches| == i
      invariant forall j | 0 <= j < i :: matches[j] == MatchOf(candidates[j], Score(req, candidates[j].specifications, allowLower))
    {
      var model := candidates[i];
      var s := CalculateMatchPercentage(req, model.specifications, allowLower);
      matches := matches + [MatchOf(model, s)];
    }
  }

  // ───────────────────────── properties ─────────────────────────

  /** Each item's three bands together hold exactly its candidates' scores. */
  lemma ResultCoversCandidates(db: seq<CatalogueModel>, item: Item, settings: Config.Settings)
    ensures var r := ResultFor(db, item, settings).matches;
      |r.ideal| + |r.partial| + |r.notMatched| == |Candidates(db, item, settings)|
  {
    var ms := MatchesFor(Candidates(db, item, settings), item.requiredSpecs, settings.allowLowerValues);
    CategorizePartition(ms, settings.matchThreshold);
    var r := Categorize(ms, settings.matchThreshold);
    assert |multiset(r.ideal) + multiset(r.partial) + multiset(r.notMatched)| == |multiset(ms)|;
  }

  /** One result per item, in item order, each a function of its own item alone. */
  lemma {:induction false} ResultsForAt(db: seq<CatalogueModel>, items: seq<Item>, settings: Config.Settings)
    ensures |ResultsFor(db, items, settings)| == |items|
    ensures forall i | 0 <= i < |items| :: ResultsFor(db, items, settings)[i] == ResultFor(db, items[i], settings)
  {
    EachAt((item: Item) => ResultFor(db, item, settings), items);
  }

  /** The ideal and partial counts never exceed the number of candidates scored. */
  lemma {:induction false} CountsBounded(rs: seq<RequirementResult>)
    ensures CountIdeal(rs) + CountPartial(rs) <= CountAll(rs)
  {
    if rs != [] {
      CountsBounded(rs[..|rs| - 1]);
    }
  }

  /** The candidates scored over a run are the sum of each item's candidates. */
  lemma {:induction false} CountAllIsCandidates(db: seq<CatalogueModel>, items: seq<Item>, settings: Config.Settings)
    ensures CountAll(ResultsFor(db, items, settings)) == TotalCandidates(db, items, settings)
  {
    if items != [] {
      var rs := ResultsFor(db, items, settings);
      CountAllIsCandidates(db, items[..|items| - 1], settings);
      ResultCoversCandidates(db, items[|items| - 1], settings);
      assert rs[..|rs| - 1] == ResultsFor(db, items[..|items| - 1], settings);
    }
  }

  /** The sum of the candidate counts of the items. */
  function TotalCandidates(db: seq<CatalogueModel>, items: seq<Item>, settings: Config.Settings): nat {
    if items == [] then 0
    else TotalCandidates(db, items[..|items| - 1], settings) + |Candidates(db, items[|items| - 1], settings)|
  }

  /** Every candidate of an item comes from its pool, and with deduplication no two share a model name. */
  lemma CandidatesFromPool(db: seq<CatalogueModel>, item: Item, settings: Config.Settings)
    ensures forall m | m in Candidates(db, item, settings) :: m in Pool(db, item)
    ensures settings.deduplicateModels ==>
      forall a, b | 0 <= a < b < |Candidates(db, item, settings)| ::
        Candidates(db, item, settings)[a].modelName != Candidates(db, item, settings)[b].modelName
  {
    if settings.deduplicateModels {
      var pool := Pool(db, item);
      DedupUnique(pool);
      forall m | m in Dedup(pool) ensures m in pool {
        var i :| 0 <= i < |Dedup(pool)| && Dedup(pool)[i] == m;
        DedupWinner(pool, i);
      }
    }
  }
}
