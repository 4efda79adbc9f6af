/** The per-file part of the catalogue import: a CSV frame becomes catalogue
    rows. Column names are mapped to canonical keys, the model-name column
    is found among known spellings, the source tag comes from the file name
    and the category from the row or the tag; each row with a model name
    gives one catalogue row with its cleaned and its raw specifications. */
module CsvImport {
  import opened Strings
  import opened Dicts
  import opened Seqs
  import Values
  import opened CsvClean

  /** The category each source-tag prefix stands for, in table order. */
  const CategoryMapping: seq<(string, string)> := [
    ("MES", "Коммутаторы"), ("ESR", "Маршрутизаторы"), ("ISS", "Коммутаторы"),
    ("Fastpath", "Коммутаторы"), ("ME", "Коммутаторы"), ("ROS4", "Коммутаторы"), ("ROS6", "Коммутаторы")]

  /** The spellings of the model-name column, most preferred first. */
  const ModelNameCandidates: seq<string> := [
    "model_name", "Model", "Модель", "Наименование", "Наименование модели", "Название модели", "Unnamed: 0"]

  /** Columns that never become specifications. */
  const SkipColumns: set<string> := {"model_name", "category", "Категория", "Тип коммутатора", "Тип устройства"}

  /** The columns a row may name its category in, in the order they are looked at. */
  const CategoryColumns: seq<string> := ["Тип коммутатора", "Тип устройства", "Категория"]

  /** The `canonical_keys` part of the normalisation map: each canonical key with its synonyms. */
  type NormalizationMap = Dict<string, seq<string>>

  // ───────────────────────── column names ─────────────────────────

  /** normalize_column_name: the first canonical key listing the column among its synonyms, else the column. */
  function NormalizeColumnName(column: string, nmap: seq<(string, seq<string>)>): (r: string)
    ensures (forall i | 0 <= i < |nmap| :: column !in nmap[i].1) ==> r == column
  {
    if nmap == [] then column
    else if column in nmap[0].1 then nmap[0].0
    else NormalizeColumnName(column, nmap[1..])
  }

  /** The first canonical key whose synonyms hold the column is the one chosen. */
  lemma {:induction false} NormalizeFirst(column: string, nmap: seq<(string, seq<string>)>, i: nat)
    requires i < |nmap| && column in nmap[i].1
    requires forall j | 0 <= j < i :: column !in nmap[j].1
    ensures NormalizeColumnName(column, nmap) == nmap[i].0
  {
    if i > 0 {
      forall j | 0 <= j < i - 1 ensures column !in nmap[1..][j].1 {
        assert nmap[1..][j] == nmap[j + 1];
      }
      NormalizeFirst(column, nmap[1..], i - 1);
    }
  }

  predicate AnyColumn(c: string) {
    true
  }

  /** The form a column name is compared in: stripped and lower-cased. */
  function NormalForm(c: string): string {
    Lower(Strip(c))
  }

  function SameColumn(c: string): string {
    c
  }

  /** `{c.lower().strip(): c for c in columns}`: a later column with the same form replaces an earlier one. */
  function ColsLower(columns: seq<string>): Dict<string, string> {
    PutEach(columns, AnyColumn, NormalForm, SameColumn)
  }

  /** The position of the last column with the given form. */
  function LastWithForm(columns: seq<string>, k: string): (i: nat)
    requires exists i | 0 <= i < |columns| :: NormalForm(columns[i]) == k
    ensures i < |columns| && NormalForm(columns[i]) == k
    ensures forall j | i < j < |columns| :: NormalForm(columns[j]) != k
  {
    LastWith(columns, NormalForm, k)
  }

  /** The value under a form is the last column with that form. */
  lemma ColsLowerGet(columns: seq<string>, k: string)
    requires exists i | 0 <= i < |columns| :: NormalForm(columns[i]) == k
    ensures HasKey(ColsLower(columns), k)
    ensures Get(ColsLower(columns), k, "") == columns[LastWithForm(columns, k)]
  {
    PutEachKeys(columns, AnyColumn, NormalForm, SameColumn, k);
    PutEachLast(columns, AnyColumn, NormalForm, SameColumn, LastWithForm(columns, k), "");
  }

  /** The column of the first candidate spelling present in the columns. */
  function FromCandidates(cands: seq<string>, cl: Dict<string, string>): (r: Option<string>)
    ensures r.None? <==> forall i | 0 <= i < |cands| :: !HasKey(cl, Lower(cands[i]))
  {
    if cands == [] then None
    else if HasKey(cl, Lower(cands[0])) then Some(Get(cl, Lower(cands[0]), ""))
    else
      var r := FromCandidates(cands[1..], cl);
      assert forall i | 1 <= i < |cands| :: cands[i] == cands[1..][i - 1];
      r
  }

  lemma {:induction false} FromCandidatesFirst(cands: seq<string>, cl: Dict<string, string>, i: nat)
    requires i < |cands| && HasKey(cl, Lower(cands[i]))
    requires forall j | 0 <= j < i :: !HasKey(cl, Lower(cands[j]))
    ensures FromCandidates(cands, cl) == Some(Get(cl, Lower(cands[i]), ""))
  {
    if i > 0 {
      forall j | 0 <= j < i - 1 ensures !HasKey(cl, Lower(cands[1..][j])) {
        assert cands[1..][j] == cands[j + 1];
      }
      FromCandidatesFirst(cands[1..], cl, i - 1);
    }
  }

  /** detect_model_name_column: the column of the first known spelling, else the first column. */
  function DetectModelNameColumn(columns: seq<string>): (r: Option<string>)
    ensures r.Some? <==> columns != []
  {
    var found := FromCandidates(ModelNameCandidates, ColsLower(columns));
    if found.Some? then
      assert columns != [] by {
        var i :| 0 <= i < |ModelNameCandidates| && HasKey(ColsLower(columns), Lower(ModelNameCandidates[i]));
      }
      found
    else if columns != [] then Some(columns[0])
    else None
  }

  /** The column chosen for the first known spelling present is the last column spelled that way,
      in its own spelling. */
  lemma ModelNameColumnByCandidate(columns: seq<string>, i: nat)
    requires i < |ModelNameCandidates|
    requires exists c | 0 <= c < |columns| :: NormalForm(columns[c]) == Lower(ModelNameCandidates[i])
    requires forall j, c | 0 <= j < i && 0 <= c < |columns| :: NormalForm(columns[c]) != Lower(ModelNameCandidates[j])
    ensures DetectModelNameColumn(columns) == Some(columns[LastWithForm(columns, Lower(ModelNameCandidates[i]))])
  {
    var cl := ColsLower(columns);
    ColsLowerGet(columns, Lower(ModelNameCandidates[i]));
    forall j | 0 <= j < i ensures !HasKey(cl, Lower(ModelNameCandidates[j])) {
      PutEachKeys(columns, AnyColumn, NormalForm, SameColumn, Lower(ModelNameCandidates[j]));
    }
    FromCandidatesFirst(ModelNameCandidates, cl, i);
  }

  /** With no known spelling present, the first column is taken. */
  lemma ModelNameColumnFallback(columns: seq<string>)
    requires columns != []
    requires forall j, c | 0 <= j < |ModelNameCandidates| && 0 <= c < |columns| ::
      NormalForm(columns[c]) != Lower(ModelNameCandidates[j])
    ensures DetectModelNameColumn(columns) == Some(columns[0])
  {
    var cl := ColsLower(columns);
    forall j | 0 <= j < |ModelNameCandidates| ensures !HasKey(cl, Lower(ModelNameCandidates[j])) {
      PutEachKeys(columns, AnyColumn, NormalForm, SameColumn, Lower(ModelNameCandidates[j]));
    }
  }

  // ───────────────────────── source tag ─────────────────────────

  /** str.rfind(c): the last position of `c`, or -1. */
  function LastIndex(s: string, c: char): (r: int)
    ensures -1 <= r < |s|
    ensures r >= 0 ==> s[r] == c
    ensures forall k | r < k < |s| :: s[k] != c
  {
    if s == [] then -1
    else if s[|s| - 1] == c then |s| - 1
    else LastIndex(s[..|s| - 1], c)
  }

  /** os.path.splitext(p)[0]: drop the text from the last point on, unless that point is in a directory
      name or only points come before it in the file name. */
  function SplitExtRoot(p: string): (root: string)
    ensures root <= p
  {
    var sep := LastIndex(p, '/');
    var dot := LastIndex(p, '.');
    if dot > sep && exists k | sep < k < dot :: p[k] != '.' then p[..dot] else p
  }

  /** extract_source_from_filename: the file name without extension, with the suffixes
      `_cleaned`, `_Лист1` and `_Лист2` replaced by nothing, in that order. */
  function ExtractSourceFromFilename(filename: string): string {
    ReplaceAll(ReplaceAll(ReplaceAll(SplitExtRoot(filename), "_cleaned", ""), "_Лист1", ""), "_Лист2", "")
  }

  /** The stem of `stem.ext` when the stem has a character other than a point and the extension has no point. */
  lemma SplitExtOf(stem: string, ext: string)
    requires forall k | 0 <= k < |stem| :: stem[k] != '/'
    requires forall k | 0 <= k < |ext| :: ext[k] != '.' && ext[k] != '/'
    requires exists k | 0 <= k < |stem| :: stem[k] != '.'
    ensures SplitExtRoot(stem + "." + ext) == stem
  {
    var p := stem + "." + ext;
    assert p[|stem|] == '.';
    var dot := LastIndex(p, '.');
    assert dot == |stem|;
    assert LastIndex(p, '/') == -1;
    var k :| 0 <= k < |stem| && stem[k] != '.';
    assert p[k] == stem[k];
    assert p[..dot] == stem;
  }

  /** A file name with none of the suffixes gives its stem. */
  lemma SourceOfPlainName(stem: string, ext: string)
    requires forall k | 0 <= k < |stem| :: stem[k] != '/'
    requires forall k | 0 <= k < |ext| :: ext[k] != '.' && ext[k] != '/'
    requires exists k | 0 <= k < |stem| :: stem[k] != '.'
    requires !Contains(stem, "_cleaned") && !Contains(stem, "_Лист1") && !Contains(stem, "_Лист2")
    ensures ExtractSourceFromFilename(stem + "." + ext) == stem
  {
    SplitExtOf(stem, ext);
    ReplaceAbsent(stem, "_cleaned", "");
    ReplaceAbsent(stem, "_Лист1", "");
    ReplaceAbsent(stem, "_Лист2", "");
  }

  /** A `_cleaned` suffix before the extension is dropped. */
  lemma SourceDropsCleaned(stem: string, ext: string)
    requires forall k | 0 <= k < |stem| :: stem[k] != '/'
    requires forall k | 0 <= k < |ext| :: ext[k] != '.' && ext[k] != '/'
    requires exists k | 0 <= k < |stem| :: stem[k] != '.'
    requires forall i | 0 <= i < |stem| :: !("_cleaned" <= (stem + "_cleaned")[i..])
    requires !Contains(stem, "_Лист1") && !Contains(stem, "_Лист2")
    ensures ExtractSourceFromFilename(stem + "_cleaned" + "." + ext) == stem
  {
    var s := stem + "_cleaned";
    forall k | 0 <= k < |s| ensures s[k] != '/' {
      if k >= |stem| {
        assert s[k] == "_cleaned"[k - |stem|];
      }
    }
    assert exists k | 0 <= k < |s| :: s[k] != '.' by {
      assert s[|stem|] == '_';
    }
    SplitExtOf(s, ext);
    ReplaceTail(stem, "_cleaned", "");
    assert stem + "" == stem;
    ReplaceAbsent(stem, "_Лист1", "");
    ReplaceAbsent(stem, "_Лист2", "");
  }

  // ───────────────────────── category ─────────────────────────

  /** row.get(column): the cell under a column, or None when the row has no such column. */
  function Lookup(row: Dict<string, Cell>, column: string): Option<Cell> {
    if HasKey(row, column) then Some(Get(row, column, NaN)) else None
  }

  /** The category a column gives: the stripped text of a truthy cell that is not blank. */
  function ColumnCategory(row: Dict<string, Cell>, column: string): Option<string> {
    match Lookup(row, column)
    case None => None
    case Some(v) => if CellTruthy(v) && Strip(CellText(v)) != "" then Some(Strip(CellText(v))) else None
  }

  /** The category of the first of the columns that gives one. */
  function CategoryFromColumns(row: Dict<string, Cell>, columns: seq<string>): (r: Option<string>)
    ensures r.None? <==> forall i | 0 <= i < |columns| :: ColumnCategory(row, columns[i]).None?
  {
    if columns == [] then None
    else if ColumnCategory(row, columns[0]).Some? then ColumnCategory(row, columns[0])
    else
      var r := CategoryFromColumns(row, columns[1..]);
      RestOfColumns(row, columns);
      r
  }

  /** When the first column gives nothing, no column gives anything exactly when none of the rest does. */
  lemma RestOfColumns(row: Dict<string, Cell>, columns: seq<string>)
    requires |columns| > 0 && ColumnCategory(row, columns[0]).None?
    ensures (forall i | 0 <= i < |columns| :: ColumnCategory(row, columns[i]).None?)
      <==> (forall i | 0 <= i < |columns[1..]| :: ColumnCategory(row, columns[1..][i]).None?)
  {
    assert forall i | 1 <= i < |columns| :: columns[i] == columns[1..][i - 1];
  }

  /** The first column that gives a category decides it. */
  lemma {:induction false} CategoryFromColumnsFirst(row: Dict<string, Cell>, columns: seq<string>, i: nat)
    requires i < |columns| && ColumnCategory(row, columns[i]).Some?
    requires forall j | 0 <= j < i :: ColumnCategory(row, columns[j]).None?
    ensures CategoryFromColumns(row, columns) == ColumnCategory(row, columns[i])
  {
    if i > 0 {
      forall j | 0 <= j < i - 1 ensures ColumnCategory(row, columns[1..][j]).None? {
        assert columns[1..][j] == columns[j + 1] && ColumnCategory(row, columns[j + 1]).None?;
      }
      CategoryFromColumnsFirst(row, columns[1..], i - 1);
    }
  }

  /** The category of the first prefix that occurs in the source tag, ignoring case. */
  function CategoryFromSource(source: string, mapping: seq<(string, string)>): (r: Option<string>)
    ensures r.None? <==> forall i | 0 <= i < |mapping| :: !Contains(Lower(source), Lower(mapping[i].0))
  {
    if mapping == [] then None
    else if Contains(Lower(source), Lower(mapping[0].0)) then Some(mapping[0].1)
    else
      var r := CategoryFromSource(source, mapping[1..]);
      assert forall i | 1 <= i < |mapping| :: mapping[i] == mapping[1..][i - 1];
      r
  }

  /** The first prefix that occurs in the source tag decides the category. */
  lemma {:induction false} CategoryFromSourceFirst(source: string, mapping: seq<(string, string)>, i: nat)
    requires i < |mapping| && Contains(Lower(source), Lower(mapping[i].0))
    requires forall j | 0 <= j < i :: !Contains(Lower(source), Lower(mapping[j].0))
    ensures CategoryFromSource(source, mapping) == Some(mapping[i].1)
  {
    if i > 0 {
      forall j | 0 <= j < i - 1 ensures !Contains(Lower(source), Lower(mapping[1..][j].0)) {
        assert mapping[1..][j] == mapping[j + 1];
      }
      CategoryFromSourceFirst(source, mapping[1..], i - 1);
    }
  }

  /** extract_category: a category column of the row first, then the source tag, else none. */
  function ExtractCategory(source: string, row: Dict<string, Cell>): (r: Option<string>)
    ensures CategoryFromColumns(row, CategoryColumns).Some? ==> r == CategoryFromColumns(row, CategoryColumns)
    ensures CategoryFromColumns(row, CategoryColumns).None? ==> r == CategoryFromSource(source, CategoryMapping)
  {
    var fromRow := CategoryFromColumns(row, CategoryColumns);
    if fromRow.Some? then fromRow else CategoryFromSource(source, CategoryMapping)
  }

  /** A NaN in the first category column is truthy, so the category is the text "nan". */
  lemma NaNCategory(source: string, row: Dict<string, Cell>)
    requires Lookup(row, CategoryColumns[0]) == Some(NaN)
    ensures ExtractCategory(source, row) == Some("nan")
  {
    NaNColumnCategory(row, CategoryColumns);
  }

  lemma NaNColumnCategory(row: Dict<string, Cell>, columns: seq<string>)
    requires |columns| > 0 && Lookup(row, columns[0]) == Some(NaN)
    ensures CategoryFromColumns(row, columns) == Some("nan")
  {
    NaNTextStripped();
    TruthyColumn(row, columns[0], NaN);
  }

  lemma NaNTextStripped()
    ensures Strip(CellText(NaN)) == CellText(NaN)
  {
    StripNoSpace(CellText(NaN));
  }

  /** A truthy cell whose text needs no stripping gives its text as the category. */
  lemma TruthyColumn(row: Dict<string, Cell>, column: string, v: Cell)
    requires Lookup(row, column) == Some(v) && CellTruthy(v)
    requires Strip(CellText(v)) == CellText(v) && |CellText(v)| > 0
    ensures ColumnCategory(row, column) == Some(CellText(v))
  {
  }

  /** Without a category column, a source tag containing "mes" in any case gives the switch category. */
  lemma CategoryOfMesSource(source: string, row: Dict<string, Cell>)
    requires forall i | 0 <= i < |CategoryColumns| :: ColumnCategory(row, CategoryColumns[i]).None?
    requires Contains(Lower(source), "mes")
    ensures ExtractCategory(source, row) == Some("Коммутаторы")
  {
    assert Lower(CategoryMapping[0].0) == "mes";
    CategoryFromSourceFirst(source, CategoryMapping, 0);
  }

  // ───────────────────────── rows ─────────────────────────

  /** A catalogue row ready for insertion. */
  datatype CsvModel = CsvModel(
    modelName: string,
    category: Option<string>,
    sourceFile: string,
    specifications: Dict<string, Values.Value>,
    rawSpecifications: Dict<string, string>)

  datatype RawFrame = RawFrame(columns: seq<string>, rows: seq<seq<Cell>>)

  /** A data frame read from a CSV file: one cell per column in every row. */
  type Frame = f: RawFrame | forall i | 0 <= i < |f.rows| :: |f.rows[i]| == |f.columns| witness RawFrame([], [])

  /** The column names with surrounding whitespace removed. */
  function StripAll(columns: seq<string>): (r: seq<string>)
    ensures |r| == |columns| && forall i | 0 <= i < |columns| :: r[i] == Strip(columns[i])
  {
    seq(|columns|, i requires 0 <= i < |columns| => Strip(columns[i]))
  }

  predicate AnyEntry(p: (string, Cell)) {
    true
  }

  function EntryColumn(p: (string, Cell)): string {
    p.0
  }

  function EntryCell(p: (string, Cell)): Cell {
    p.1
  }

  /** row.to_dict(): each column with its cell, in column order. */
  function RowDict(columns: seq<string>, cells: seq<Cell>): Dict<string, Cell> {
    var n := if |columns| < |cells| then |columns| else |cells|;
    PutEach(seq(n, i requires 0 <= i < n => (columns[i], cells[i])), AnyEntry, EntryColumn, EntryCell)
  }

  /** A column that can hold a specification: neither the model column nor a skipped one. */
  predicate SpecColumn(modelCol: string, column: string) {
    column != modelCol && column !in SkipColumns
  }

  /** The cleaned value of an entry under its canonical key. */
  function Cleaned(nmap: NormalizationMap, p: (string, Cell)): Option<Values.Value> {
    CleanSpecValue(NormalizeColumnName(p.0, nmap), p.1)
  }

  function KeepSpec(modelCol: string, nmap: NormalizationMap): ((string, Cell)) -> bool {
    (p: (string, Cell)) => SpecColumn(modelCol, p.0) && Cleaned(nmap, p).Some?
  }

  function SpecKey(nmap: NormalizationMap): ((string, Cell)) -> string {
    (p: (string, Cell)) => NormalizeColumnName(p.0, nmap)
  }

  function SpecValue(nmap: NormalizationMap): ((string, Cell)) -> Values.Value {
    (p: (string, Cell)) => match Cleaned(nmap, p) case Some(v) => v case None => Values.Null
  }

  function KeepRaw(modelCol: string): ((string, Cell)) -> bool {
    (p: (string, Cell)) => SpecColumn(modelCol, p.0) && !p.1.NaN?
  }

  function RawText(p: (string, Cell)): string {
    CellText(p.1)
  }

  /** `specifications`: every cleaned value that is not None, under its canonical key. */
  function Specifications(row: Dict<string, Cell>, modelCol: string, nmap: NormalizationMap): Dict<string, Values.Value> {
    PutEach(row, KeepSpec(modelCol, nmap), SpecKey(nmap), SpecValue(nmap))
  }

  /** `raw_specifications`: str() of every cell that is not NaN, under its own column. */
  function RawSpecifications(row: Dict<string, Cell>, modelCol: string): Dict<string, string> {
    PutEach(row, KeepRaw(modelCol), EntryColumn, RawText)
  }

  /** The catalogue row of one CSV row; none when the model name is missing or blank. */
  function RowModel(row: Dict<string, Cell>, modelCol: string, source: string, nmap: NormalizationMap): Option<CsvModel> {
    match Lookup(row, modelCol)
    case None => None
    case Some(v) =>
      if v.NaN? || Strip(CellText(v)) == "" then None
      else Some(CsvModel(Strip(CellText(v)), ExtractCategory(source, row), source,
                         Specifications(row, modelCol, nmap), RawSpecifications(row, modelCol)))
  }

  function RowModelOf(columns: seq<string>, modelCol: string, source: string, nmap: NormalizationMap): seq<Cell> -> Option<CsvModel> {
    (cells: seq<Cell>) => RowModel(RowDict(columns, cells), modelCol, source, nmap)
  }

  /** parse_csv_file after reading: nothing for an empty frame, else one catalogue row per named CSV row. */
  function ParseCsv(frame: Frame, filename: string, nmap: NormalizationMap): seq<CsvModel> {
    if |frame.rows| == 0 || |frame.columns| == 0 then []
    else
      var columns := StripAll(frame.columns);
      match DetectModelNameColumn(columns)
      case None => []
      case Some(modelCol) => Collect(frame.rows, RowModelOf(columns, modelCol, ExtractSourceFromFilename(filename), nmap))
  }

  /** parse_csv_file: the row loop over a frame already read. */
  method ParseCsvFile(frame: Frame, filename: string, nmap: NormalizationMap) returns (models: seq<CsvModel>)
    ensures models == ParseCsv(frame, filename, nmap)
  {
    if |frame.rows| == 0 || |frame.columns| == 0 {
      return [];
    }
    var columns := StripAll(frame.columns);
    var modelCol := DetectModelNameColumn(columns);
    if modelCol.None? {
      return [];
    }
    models := ParseRows(frame.rows, columns, modelCol.value, ExtractSourceFromFilename(filename), nmap);
  }

  /** The row loop of parse_csv_file: one catalogue row per CSV row with a model name. */
  method ParseRows(rows: seq<seq<Cell>>, columns: seq<string>, modelCol: string, sourceFile: string, nmap: NormalizationMap)
    returns (models: seq<CsvModel>)
    ensures models == Collect(rows, RowModelOf(columns, modelCol, sourceFile, nmap))
  {
    models := [];
    ghost var f := RowModelOf(columns, modelCol, sourceFile, nmap);
    for i := 0 to |rows|
      invariant models == Collect(rows[..i], f)
    {
      var row := RowDict(columns, rows[i]);
      ghost var y := RowModel(row, modelCol, sourceFile, nmap);
      assert rows[..i + 1][..i] == rows[..i] && rows[..i + 1][i] == rows[i];
      assert Collect(rows[..i + 1], f) == if y.Some? then models + [y.value] else models;
      var name := Lookup(row, modelCol);
      if name.None? || name.value.NaN? {
        assert y == None;
        continue;
      }
      var modelName := Strip(CellText(name.value));
      if modelName == "" {
        assert y == None;
        continue;
      }
      var specifications, rawSpecifications := BuildSpecifications(row, modelCol, nmap);
      var category := ExtractCategory(sourceFile, row);
      assert y == Some(CsvModel(modelName, category, sourceFile, specifications, rawSpecifications));
      models := models + [CsvModel(modelName, category, sourceFile, specifications, rawSpecifications)];
    }
    assert rows[..|rows|] == rows;
  }

  /** The column loop of one row: the cleaned and the raw specifications. */
  method BuildSpecifications(row: Dict<string, Cell>, modelCol: string, nmap: NormalizationMap)
    returns (specifications: Dict<string, Values.Value>, rawSpecifications: Dict<string, string>)
    ensures specifications == Specifications(row, modelCol, nmap)
    ensures rawSpecifications == RawSpecifications(row, modelCol)
  {
    specifications, rawSpecifications := [], [];
    for j := 0 to |row|
      invariant specifications == PutEach(row[..j], KeepSpec(modelCol, nmap), SpecKey(nmap), SpecValue(nmap))
      invariant rawSpecifications == PutEach(row[..j], KeepRaw(modelCol), EntryColumn, RawText)
    {
      var (column, value) := row[j];
      PutEachStep(row, j, KeepSpec(modelCol, nmap), SpecKey(nmap), SpecValue(nmap));
      PutEachStep(row, j, KeepRaw(modelCol), EntryColumn, RawText);
      if column == modelCol || column in SkipColumns {
        continue;
      }
      if !value.NaN? {
        rawSpecifications := Put(rawSpecifications, column, CellText(value));
      }
      var canonicalKey := NormalizeColumnName(column, nmap);
      var cleanValue := CleanSpecValue(canonicalKey, value);
      if cleanValue.Some? {
        specifications := Put(specifications, canonicalKey, cleanValue.value);
      }
    }
    assert row[..|row|] == row;
  }

  // ───────────────────────── row properties ─────────────────────────

  /** Every catalogue row has a stripped, non-empty name and the file's source tag,
      and there are no more of them than CSV rows. */
  lemma ParsedModelsNamed(frame: Frame, filename: string, nmap: NormalizationMap)
    ensures |ParseCsv(frame, filename, nmap)| <= |frame.rows|
    ensures forall m | m in ParseCsv(frame, filename, nmap) ::
      m.modelName != "" && Strip(m.modelName) == m.modelName && m.sourceFile == ExtractSourceFromFilename(filename)
  {
    if |frame.rows| > 0 && |frame.columns| > 0 {
      var columns := StripAll(frame.columns);
      var modelCol := DetectModelNameColumn(columns);
      if modelCol.Some? {
        var f := RowModelOf(columns, modelCol.value, ExtractSourceFromFilename(filename), nmap);
        var ms := Collect(frame.rows, f);
        CollectFrom(frame.rows, f);
        forall m | m in ms
          ensures m.modelName != "" && Strip(m.modelName) == m.modelName && m.sourceFile == ExtractSourceFromFilename(filename)
        {
          var j :| 0 <= j < |ms| && ms[j] == m;
          var i :| 0 <= i < |frame.rows| && f(frame.rows[i]) == Some(ms[j]);
          RowModelNamed(RowDict(columns, frame.rows[i]), modelCol.value, ExtractSourceFromFilename(filename), nmap);
        }
      }
    }
  }

  /** The catalogue row of one CSV row has a stripped, non-empty name and the given source tag. */
  lemma RowModelNamed(row: Dict<string, Cell>, modelCol: string, source: string, nmap: NormalizationMap)
    ensures RowModel(row, modelCol, source, nmap).Some? ==>
      var m := RowModel(row, modelCol, source, nmap).value;
      m.modelName != "" && Strip(m.modelName) == m.modelName && m.sourceFile == source
  {
    if RowModel(row, modelCol, source, nmap).Some? {
      StripIdempotent(CellText(Lookup(row, modelCol).value));
    }
  }

  /** A canonical key is in `specifications` exactly when some specification column maps to it
      and cleans to a value. */
  lemma SpecificationsKeys(row: Dict<string, Cell>, modelCol: string, nmap: NormalizationMap, k: string)
    ensures HasKey(Specifications(row, modelCol, nmap), k) <==>
      exists j | 0 <= j < |row| :: SpecColumn(modelCol, row[j].0) && NormalizeColumnName(row[j].0, nmap) == k
        && CleanSpecValue(k, row[j].1).Some?
  {
    PutEachKeys(row, KeepSpec(modelCol, nmap), SpecKey(nmap), SpecValue(nmap), k);
  }

  /** Of several columns with the same canonical key, the last one with a value wins. */
  lemma SpecificationsLastWins(row: Dict<string, Cell>, modelCol: string, nmap: NormalizationMap, j: nat)
    requires j < |row| && SpecColumn(modelCol, row[j].0)
    requires CleanSpecValue(NormalizeColumnName(row[j].0, nmap), row[j].1).Some?
    requires forall l | j < l < |row| ::
               !(SpecColumn(modelCol, row[l].0) && Cleaned(nmap, row[l]).Some?
                 && NormalizeColumnName(row[l].0, nmap) == NormalizeColumnName(row[j].0, nmap))
    ensures Get(Specifications(row, modelCol, nmap), NormalizeColumnName(row[j].0, nmap), Values.Null)
      == CleanSpecValue(NormalizeColumnName(row[j].0, nmap), row[j].1).value
  {
    PutEachLast(row, KeepSpec(modelCol, nmap), SpecKey(nmap), SpecValue(nmap), j, Values.Null);
  }

  /** `raw_specifications` holds exactly the specification columns whose cell is not NaN,
      each with the text of its cell; the model column and the skipped columns never appear. */
  lemma RawSpecificationsEntries(row: Dict<string, Cell>, modelCol: string, j: nat)
    requires j < |row|
    ensures HasKey(RawSpecifications(row, modelCol), row[j].0) <==> SpecColumn(modelCol, row[j].0) && !row[j].1.NaN?
    ensures SpecColumn(modelCol, row[j].0) && !row[j].1.NaN? ==>
      Get(RawSpecifications(row, modelCol), row[j].0, "") == CellText(row[j].1)
  {
    var raw := RawSpecifications(row, modelCol);
    PutEachKeys(row, KeepRaw(modelCol), EntryColumn, RawText, row[j].0);
    if SpecColumn(modelCol, row[j].0) && !row[j].1.NaN? {
      PutEachLast(row, KeepRaw(modelCol), EntryColumn, RawText, j, "");
    }
  }

  /** The model column and the skipped columns are never raw specifications. */
  lemma RawExcludesSkipped(row: Dict<string, Cell>, modelCol: string, c: string)
    requires c == modelCol || c in SkipColumns
    ensures !HasKey(RawSpecifications(row, modelCol), c)
  {
    PutEachKeys(row, KeepRaw(modelCol), EntryColumn, RawText, c);
  }
}
