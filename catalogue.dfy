/** The equipment catalogue as the matcher sees it: a snapshot of the
    `models` table and the three queries the matcher issues against it. */
module Catalogue {
  import opened Strings
  import opened Values
  import opened Scorer

  /** One row of the `models` table. */
  datatype CatalogueModel = CatalogueModel(
    id: int,
    modelName: string,
    category: Option<string>,
    sourceFile: string,
    specifications: Specs,
    rawSpecifications: Option<map<string, string>>)

  /** One scored candidate, as find_matching_models records it. */
  datatype Match = Match(
    modelId: int,
    modelName: string,
    category: Option<string>,
    sourceFile: string,
    percentage: real,
    matched: seq<string>,
    missing: seq<string>,
    different: seq<(string, (Value, Value))>,
    specifications: Specs,
    rawSpecifications: Option<map<string, string>>)

  /** The match record of a catalogue model and its score. */
  function MatchOf(m: CatalogueModel, s: ScoreResult): (r: Match)
    ensures r.modelName == m.modelName && r.percentage == s.percentage
  {
    Match(m.id, m.modelName, m.category, m.sourceFile, s.percentage, s.matched, s.missing, s.different,
          m.specifications, m.rawSpecifications)
  }

  /** get_models_by_category: the rows whose category equals `c`, in table order. */
  function ModelsByCategory(db: seq<CatalogueModel>, c: string): (r: seq<CatalogueModel>)
    ensures forall m :: m in r <==> m in db && m.category == Some(c)
    ensures |r| <= |db|
  {
    if db == [] then []
    else
      var init := ModelsByCategory(db[..|db| - 1], c);
      assert db == db[..|db| - 1] + [db[|db| - 1]];
      if db[|db| - 1].category == Some(c) then init + [db[|db| - 1]] else init
  }

  /** ILIKE '%name%': `name` occurs in the model name, ignoring case. */
  predicate NameMatches(m: CatalogueModel, name: string) {
    Contains(Lower(m.modelName), Lower(name))
  }

  /** get_model_by_name: the rows whose name contains `name` case-insensitively, in table order. */
  function ModelsByName(db: seq<CatalogueModel>, name: string): (r: seq<CatalogueModel>)
    ensures forall m :: m in r <==> m in db && NameMatches(m, name)
    ensures |r| <= |db|
  {
    if db == [] then []
    else
      var init := ModelsByName(db[..|db| - 1], name);
      assert db == db[..|db| - 1] + [db[|db| - 1]];
      if NameMatches(db[|db| - 1], name) then init + [db[|db| - 1]] else init
  }
}
