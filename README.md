# Equipment matcher: a verified model of the matching core

The equipment matcher bot reads a tender document (a DOCX whose tables list,
for each requested item, a characteristic name, a value and a unit). It turns
each table row into a required specification and scores every catalogue model
against each item. The scores sort the models into three bands: ideal (100 %),
partial (at or above the threshold) and not matched. The catalogue itself is
imported from supplier CSV sheets. The results are written to an Excel report.
Access to the bot is limited by a whitelist middleware.

This project models the core of that system in Dafny and proves what each
piece promises.

- **Matching engine** (`services/matcher.py`):
  - the value comparator (`Comparator`);
  - the specification scorer (`Scorer`);
  - the categoriser, with its stable sorts (`Categorizer`, `StableSort`);
  - the revision priority and the per-name deduplicator (`Deduplicator`);
  - the orchestrator `find_matching_models` (`Orchestrator`). It runs over a catalogue snapshot whose two queries are given by `Catalogue`.
- **Table parser** (`services/table_parser.py`):
  - cell value parsing (`ValueParser`);
  - header-column detection (`TableColumns`);
  - the equipment-list table (`Equipment`);
  - row parsing with merged-cell carry-forward (`TableRows`);
  - grouping, item building and the two-pass driver (`TableItems`).
- **CSV import** (`scripts/import_csv.py`):
  - value cleaning per key class (`CsvClean`);
  - column, source, category and model-name rules, and the row loop (`CsvImport`).
- **Readable names** (`scripts/generate_reverse_mapping.py`): `ReverseMapping`.
- **Report rules** (`services/excel_generator.py`):
  - the version label and the comparison detail (`ReportLabels`);
  - the top-10 list, the colour bands and the unmatched sheet's rules (`ReportSummary`).
- **Settings** (`config.py`): the defaults, the database URL and the administrator id list (`Config`).
- **Whitelist** (`middleware/auth.py`): `Auth`. It is a class holding the users table and a log of effects.

Modelling choices:

- **Python values** are `Values.Value`: `Null | Bool | Int | Float(real) | Str | List`. Python's `==` is `Values.PyEq`. Numbers are reals.
- **Dicts.** A Python dict (insertion ordered; an overwrite keeps the key's position) is `Dicts.Dict`. It is a sequence of pairs with unique keys.
- **Sorting.** `list.sort`/`sorted` is `StableSort.SortBy`, a stable insertion sort. It is proved to be sorted, a permutation of its input, and order-preserving among equal keys.
- **Loops.** Where the source loops and mutates, the model has a method with loop invariants. Each such method is proved equal to a specification function, and the properties are lemmas about that function.
- **Regular expressions.** Short regular expressions are written as scanners. The header pattern lists of the table parser are abstract predicates.

## Model

| member | source | states |
|---|---|---|
| Comparator.LowerBound | services/matcher.py:81-88 | corrected half of the first Findings row: the numeric bound a model value must reach: the requirement itself, or 5 % of its magnitude lower under allow_lower; never above the requirement |
| Comparator.AbsentNeverSatisfies | services/matcher.py:52-53 | an absent catalogue value never satisfies any requirement |
| Comparator.BoolRequirement | services/matcher.py:56-57 | a boolean requirement holds iff the truthiness of the catalogue value equals it, so True is met by 1 |
| Comparator.NumericRule | services/matcher.py:64-88 | corrected half of the first Findings row: when both sides read as numbers the result is model >= required, or model >= the lowered bound under allow_lower |
| Comparator.BoolModelIsZeroOrOne | services/matcher.py:72-88 | a boolean catalogue value compares as 0 or 1 against a numeric requirement |
| Comparator.TextRule | services/matcher.py:91-93 | two strings that are not both numbers match iff equal after trimming and lower-casing |
| Comparator.FallbackRule | services/matcher.py:96 | every other non-numeric pair is decided by Python equality |
| Comparator.Reflexive | services/matcher.py:52-96 | corrected half of the first Findings row: every present value satisfies itself |
| Comparator.AllowLowerRelaxes | services/matcher.py:81-88 | allow_lower never rejects what the strict comparison accepts |
| Comparator.MonotoneInModel | services/matcher.py:81-88 | corrected half of the first Findings row: against a numeric requirement, a larger model value satisfies whenever a smaller one does |
| Comparator.NumericRuleAsWritten | services/matcher.py:81-88 | as written: when both sides read as numbers the result is model >= required, or model >= required*0.95 under allow_lower |
| Comparator.ReflexiveAsWritten | services/matcher.py:52-96 | as written, a present value satisfies itself unless allow_lower is on and it reads as a negative number |
| Comparator.MonotoneInModelAsWritten | services/matcher.py:81-88 | as written too, against a numeric requirement a larger model value satisfies whenever a smaller one does |
| Comparator.AsWrittenRejectsEqualNegative | services/matcher.py:82-85 | as written, req*0.95 rejects -100 against a requirement of -100 under allow_lower, although the strict rule accepts it |
| Comparator.AsWrittenAgrees | services/matcher.py:27-96 | the written and the corrected comparator agree except on negative numeric requirements under allow_lower |
| Values.ParseFloatOfInt | services/matcher.py:66-70 | float() of an integer's decimal text gives that integer |
| Values.ParseFloatOfDecimal | services/matcher.py:66-70 | float() of a digits-dot-digits text gives its decimal value |
| Values.PyEqReflexive | services/matcher.py:96 | Python equality is reflexive on the modelled values |
| Scorer.CalculateMatchPercentage | services/matcher.py:104-161 | the counting loop produces exactly the scorer's result: percentage, matched, missing and different |
| Scorer.DifferentSpecs | services/matcher.py:152 | every key of different_specs is a required key |
| Scorer.Partition | services/matcher.py:139-152 | a required key is missing iff the model lacks it, matched iff present and satisfied, different iff present and not satisfied; different holds the literal (required, model) pair |
| Scorer.PartitionCounts | services/matcher.py:139-152 | the three key collections come from the requirement and their sizes add up to the number of required keys |
| Scorer.PercentageAsInt | services/matcher.py:154-157 | round(100*m/n, 2) is the half-up integer division (20000m+n)/(2n) divided by 100 |
| Scorer.PercentageRange | services/matcher.py:154-157 | the percentage lies between 0 and 100 |
| Scorer.PercentageExtremes | services/matcher.py:154-157 | below 20000 keys the percentage is 100 iff all matched and 0 iff none matched |
| Scorer.ScoreProperties | services/matcher.py:125-157 | empty requirements give 100 % with empty lists; otherwise the bounds and the 100 %/0 % equivalences hold |
| Categorizer.InBand | services/matcher.py:189-196 | each filtered band holds only matches of that band |
| Categorizer.CategorizeMatches | services/matcher.py:169-207 | the append-then-sort loop produces exactly the three sorted bands |
| Categorizer.BandsSplit | services/matcher.py:189-196 | the three bands together are a permutation of the input |
| Categorizer.CategorizePartition | services/matcher.py:189-196 | the output bands are a permutation of the input: 100.0 in ideal, >= threshold in partial, the rest in not matched |
| Categorizer.CategorizeOrder | services/matcher.py:199-201 | ideal is ordered by name, partial and not matched by percentage descending, and equal keys keep input order |
| Categorizer.ByPercentage | services/matcher.py:200-201 | sorting by percentage in reverse is descending and stable |
| Categorizer.ByName | services/matcher.py:199 | sorting by name is ascending and stable |
| Categorizer.BandBoundaries | services/matcher.py:191-193 | at threshold 70, exactly 70.0 is partial and 69.9 is not matched; 100.0 is ideal at any threshold |
| StableSort.SortBy | services/matcher.py:199-201 | sorting keeps the length and is a permutation |
| StableSort.SortBySorted | services/matcher.py:199-201 | the sorted list is ordered by the key |
| StableSort.SortByStable | services/matcher.py:199-201 | items with equal keys keep their input order |
| Catalogue.ModelsByCategory | database/crud.py:52-57 | the category query returns exactly the models whose category equals the given one |
| Catalogue.ModelsByName | database/crud.py:60-65 | the name query returns exactly the models whose name contains the text case-insensitively |
| Catalogue.MatchOf | services/matcher.py:428-440 | a match record carries the model's name and the scorer's percentage |
| Deduplicator.Priority | services/matcher.py:215-248 | the priority is non-negative, at least 1000 for finalUPD tags, and has a half exactly when `_new` occurs |
| Deduplicator.PriorityRules | services/matcher.py:228-248 | the exact priority: 1000+Y for finalUPDv.X.Y, 1000 for another finalUPD, N for a first vN, 0 without any version; plus one half iff `_new` occurs |
| Deduplicator.FinalUpdOutranks | services/matcher.py:233-242 | a finalUPD tag outranks a tag whose version is below 1000 |
| Deduplicator.VersionOrder | services/matcher.py:238-246 | without finalUPD and with the same `_new` status, a lower first version ranks lower |
| Deduplicator.VersionTag | services/matcher.py:240-242 | the first `v<N>` gives priority N, and a `.M` after it is ignored |
| Deduplicator.FirstVersionOf | services/matcher.py:240-242 | the first `v<N>` of a name whose prefix holds no `v` reads as N |
| Deduplicator.NonEmpty | services/matcher.py:262 | the filter keeps exactly the models with non-empty specifications |
| Deduplicator.Groups | services/matcher.py:268-270 | each group is non-empty and holds that name's rows in input order |
| Deduplicator.BestIndex | services/matcher.py:279-285 | the chosen index has a maximal (spec count, priority) rank, and every earlier index ranks strictly lower |
| Deduplicator.Best | services/matcher.py:273-286 | the winner is a member of its group, has the maximal rank, and is the first that reaches it |
| Deduplicator.Winners | services/matcher.py:273-286 | one winner per group, in group order |
| Deduplicator.DeduplicateModels | services/matcher.py:251-293 | the filter, group and pick loops produce exactly the specified deduplication |
| Deduplicator.FilterNonEmpty | services/matcher.py:262 | the filter loop keeps exactly the non-empty rows |
| Deduplicator.GroupByName | services/matcher.py:268-270 | the grouping loop builds the name-keyed groups |
| Deduplicator.PickWinners | services/matcher.py:273-286 | the picking loop appends each group's winner |
| Deduplicator.MaxByRank | services/matcher.py:279-285 | the max loop returns the first row of maximal rank |
| Deduplicator.DedupWinner | services/matcher.py:273-286 | each output row is a non-empty input row that no same-name non-empty row outranks |
| Deduplicator.DedupUnique | services/matcher.py:268-286 | no two output rows share a name, and the output is no longer than the input |
| Deduplicator.DedupCoversAndOrders | services/matcher.py:262-286 | every name with a non-empty row appears, and groups come in first-appearance order |
| Deduplicator.DedupIdempotent | services/matcher.py:251-293 | deduplicating twice gives the same list |
| Orchestrator.Pool | services/matcher.py:383-411 | the pool is the by-name query when a model name is given; else the category query (plus managed switches for switches); else the first 200 models |
| Orchestrator.MatchesFor | services/matcher.py:420-441 | one match per candidate, in order, each the scorer's result for that candidate |
| Orchestrator.FindMatchingModels | services/matcher.py:347-465 | the loop yields one result per item and a summary whose counts are the sums over the results |
| Orchestrator.MatchItem | services/matcher.py:372-452 | one item's result is the categorised scoring of its candidates, and the three bands together have as many entries as there are candidates |
| Orchestrator.PoolOf | services/matcher.py:383-411 | the pool-selection branches yield the specified pool |
| Orchestrator.ScoreAll | services/matcher.py:420-441 | the scoring loop yields the specified matches |
| Orchestrator.ResultCoversCandidates | services/matcher.py:445-450 | the three bands together hold as many entries as there are candidates |
| Orchestrator.ResultsForAt | services/matcher.py:372-447 | the results follow the items one for one, in order |
| Orchestrator.CountsBounded | services/matcher.py:449-452 | ideal plus partial never exceeds total_models_found |
| Orchestrator.CountAllIsCandidates | services/matcher.py:449-452 | total_models_found is the sum of the candidate counts |
| Orchestrator.CandidatesFromPool | services/matcher.py:413-416 | candidates come from the pool, and with deduplication on no two share a name |
| Config.DefaultSettings | config.py:11-28 | the defaults: threshold 70, allow_lower off, dedup on, host db, port 5432, database tender_matcher, user postgres, no admin ids |
| Config.DatabaseUrl | config.py:34-38 | the URL starts with the asyncpg scheme and the user, and ends with "/" and the database name |
| Config.DefaultDatabaseUrl | config.py:34-38 | the URL of the default settings, written out in full |
| Config.NonBlankPieces | config.py:44 | every kept piece is stripped and non-blank, and there are no more of them than pieces |
| Config.NonBlankAppend | config.py:44 | keeping the non-blank pieces of two lists joined is keeping each list's and joining them, so order is kept |
| Config.NonBlankMembers | config.py:44 | the kept pieces are exactly the stripped forms of the pieces that are not blank |
| Config.NonBlankSource | config.py:44 | each kept piece is the stripped form of some piece |
| Config.NonBlankKeeps | config.py:44 | each piece that is not blank once stripped is kept, stripped |
| Config.ParseAll | config.py:44 | the list parses iff every piece is an integer; the result is the pieces' values in order; otherwise the error names the first piece that is not an integer |
| Config.AdminIdsList | config.py:41-44 | an empty setting gives the empty list |
| Config.AdminIdsListPieces | config.py:41-44 | comma-free pieces joined with commas, padded or blank ones included, read as int() of their non-blank stripped pieces in order, so " 1, ,2 " reads as [1, 2] |
| Config.AdminIdsListErr | config.py:44 | a non-empty setting raises exactly when some non-blank stripped piece is not an integer, so "1,a" raises |
| Config.NonBlankErr | config.py:44 | int() fails on the kept pieces exactly when some non-blank stripped piece is not an integer |
| Config.AdminIdsRoundTrip | config.py:41-44 | reading a comma-joined list of ids gives back exactly those ids |
| ValueParser.ParseValue | services/table_parser.py:82-153 | the result is None iff the text is empty, and a boolean only for a yes/no word |
| ValueParser.NumberOrText | services/table_parser.py:111-153 | a text that is no yes/no word never reads as None or as a boolean |
| ValueParser.ParseValueBooleans | services/table_parser.py:105-109 | the yes words give True and the no words give False, before any number parsing |
| ValueParser.ParseValueOfNat | services/table_parser.py:133-148 | a plain digit string parses to its integer |
| ValueParser.ParseValueOperatorOfNat | services/table_parser.py:112-145 | an operator followed by a number gives the ASCII operator joined to the number, e.g. "≥24" gives ">=24" |
| ValueParser.ParseValueOperatorFixpoint | services/table_parser.py:112-145 | parsing an operator result again gives the same string |
| ValueParser.ParseValueUpTo | services/table_parser.py:126-145 | "до N" gives "<=N" |
| ValueParser.ParseValueAtLeast | services/table_parser.py:122-145 | "не менее N" gives ">=N" |
| ValueParser.ParseValueAtMost | services/table_parser.py:123-145 | "не более N" gives "<=N" |
| ValueParser.ParseValueText | services/table_parser.py:133-153 | a text with no digit and no comma that is no yes/no word comes back stripped, as a string |
| ValueParser.NoRunNoNumber | services/table_parser.py:133-134 | without a digit or a comma no number is found |
| ValueParser.ParseValueDecimal | services/table_parser.py:133-148 | digits, a point and digits give the float a.b, e.g. "1.5" gives 1.5 |
| ValueParser.DecimalNumber | services/table_parser.py:133-143 | the one match of "a.b" spans the text and converts with float() |
| ValueParser.ParseValueGrouped | services/table_parser.py:133-139 | "a,b" gives the integer of ab, because commas are deleted (so "2,5" is 25) |
| ValueParser.LastMatch | services/table_parser.py:133-136 | the scan finds the last run of digits and commas, or reports that there is none |
| ValueParser.LastNumberTrailing | services/table_parser.py:133-136 | the last run wins: a trailing digit run is the number read |
| ValueParser.OperatorToken | services/table_parser.py:112-118 | a recognised operator is a non-empty prefix of the text |
| ValueParser.WithoutCommas | services/table_parser.py:136 | the result has no commas and equals the input when it had none |
| ValueParser.AsciiOperatorToken | services/table_parser.py:117-118 | the ASCII form of an operator is an operator and is its own ASCII form |
| TableColumns.GetCell | services/table_parser.py:261-265 | the cell at the index, or "" when the index is absent or out of range |
| TableColumns.DetectCharacteristicsColumns | services/table_parser.py:199-258 | the nested scan loops produce the specified column map |
| TableColumns.ScanCell | services/table_parser.py:222-244 | one cell claims each still-unclaimed role whose pattern it matches, and raises header_rows to its row |
| TableColumns.ScanRow | services/table_parser.py:219-244 | after a row the scan state is that of all hits so far |
| TableColumns.Finish | services/table_parser.py:246-258 | None iff no characteristic-name column; a missing value column falls back to the next column when it exists |
| TableColumns.HeaderRowsOf | services/table_parser.py:217-244 | header_rows is at least 1 and at least every row that supplied a role, and equals 1 or one of them |
| TableColumns.HeaderArea | services/table_parser.py:219 | at most the first three rows are searched |
| TableColumns.DetectIff | services/table_parser.py:246-255 | columns are detected iff some cell of the first three rows is a characteristic-name header |
| TableColumns.DetectedCharIsFirst | services/table_parser.py:219-236 | the characteristic-name column is the first such header in row-major order |
| TableColumns.HeaderRowsBounded | services/table_parser.py:217-244 | header_rows lies between 1 and 3 and within the table |
| TableColumns.ValueColumnFallback | services/table_parser.py:247-253 | the value column is missing iff no value header exists and the grid ends after the name column |
| TableColumns.CharacteristicsTableIff | services/table_parser.py:273-289 | a characteristics table has at least two rows and a characteristic-name header among its first three |
| Equipment.HeaderTexts | services/table_parser.py:316 | the header texts are the stripped, lower-cased first-row cells |
| Equipment.ExtractEquipmentList | services/table_parser.py:297-362 | the loops produce the specified name-to-quantity dict |
| Equipment.HeaderColumns | services/table_parser.py:331-337 | the name and quantity columns are the first cells holding their key words |
| Equipment.ListRows | services/table_parser.py:342-359 | the row loop produces the specified entries |
| Equipment.CellQuantity | services/table_parser.py:352-357 | a row's quantity is the first digit run of its quantity cell, else 1 |
| Equipment.EquipmentListNeedsHeaders | services/table_parser.py:312-340 | a non-empty list needs two rows and both a name and a quantity header in the first |
| Equipment.ListEntriesKeys | services/table_parser.py:343-359 | the keys are exactly the lower-cased names of rows with a name |
| Equipment.ListEntriesLast | services/table_parser.py:359 | a later duplicate name overwrites an earlier one |
| Equipment.RowQuantityDefault | services/table_parser.py:352-357 | a quantity cell without digits gives 1 |
| Equipment.MatchQuantity | services/table_parser.py:365-382 | the quantity of the first entry whose name contains, or is contained in, the stripped lower-cased item name; None iff there is none |
| Equipment.MatchQuantityEmptyName | services/table_parser.py:378-381 | an empty item name matches the first entry |
| TableRows.NormalizeCharacteristicName | services/table_parser.py:63-74 | the map's entry for the stripped lower-cased name, or None when it has none |
| TableRows.SnakeCase | services/table_parser.py:440 | the fallback key is lower-case word characters with no leading or trailing underscore |
| TableRows.SnakeCaseIdempotent | services/table_parser.py:440 | the fallback key is its own fallback key |
| TableRows.CanonicalKey | services/table_parser.py:436-440 | the mapped key when the map has a non-empty entry, else the snake-case fallback |
| TableRows.ParseTableRows | services/table_parser.py:390-455 | the carry-forward loop produces the specified rows |
| TableRows.ParseRow | services/table_parser.py:409-453 | one row updates the carried name and number from its non-empty cells, and is kept or dropped as specified |
| TableRows.CarriedIsLast | services/table_parser.py:415-425 | the carried value is the last non-empty cell of that column so far, or "" if none |
| TableRows.ParseRowsSource | services/table_parser.py:408-453 | every parsed row comes from a kept data row, with the name and number carried up to it |
| TableRows.ParsedNamesKept | services/table_parser.py:427-433 | a parsed row has a non-empty characteristic name that is not a sub-header |
| TableRows.CarryThroughDroppedRow | services/table_parser.py:421-429 | a row dropped for its characteristic name still passes its item name on |
| TableItems.GroupKey | services/table_parser.py:474-484 | the group key is never empty |
| TableItems.GroupKeyOfSubItem | services/table_parser.py:476-479 | item number "n.rest" groups under n |
| TableItems.GroupKeyWithoutNumber | services/table_parser.py:480-484 | without a leading digit the key is the item name, else "default" |
| TableItems.GroupRequirementsByItem | services/table_parser.py:458-488 | the grouping loop builds the key-grouped rows |
| TableItems.GroupsHoldRows | services/table_parser.py:471-486 | each group holds exactly its key's rows in order, and every row's key is present |
| TableItems.FirstItemName | services/table_parser.py:518-519 | the first non-empty item name, or none when all are empty |
| TableItems.CategoryOf | services/table_parser.py:522-527 | the inferred category is switches or routers when present |
| TableItems.BuildItemDict | services/table_parser.py:491-546 | the spec-filling loop produces the specified item |
| TableItems.RequiredSpecsKeys | services/table_parser.py:530-535 | required_specs has exactly the keys of rows with a non-None parsed value |
| TableItems.RequiredSpecsLastWins | services/table_parser.py:530-535 | a later row with the same key overwrites an earlier one |
| TableItems.BuildItemShape | services/table_parser.py:514-546 | an item always exists for a non-empty group; model_name is None; " (позиция p)" is added iff p is all digits; "Позиция p" is used when no name exists |
| TableItems.ParseRequirementsFromTables | services/table_parser.py:554-633 | the two-pass driver produces the specified result |
| TableItems.ScanTables | services/table_parser.py:580-594 | pass 1 collects the characteristics tables and merges the equipment lists of the others |
| TableItems.CollectRows | services/table_parser.py:603-608 | pass 2 concatenates the rows of every characteristics table |
| TableItems.BuildItems | services/table_parser.py:619-624 | one item per prefix, in the given order |
| TableItems.CharacteristicsTablesMembers | services/table_parser.py:584-588 | the list is empty iff no table is detected, and each entry carries its detected column map |
| TableItems.ParseRequirementsItems | services/table_parser.py:596-626 | None iff no characteristics table or no rows; otherwise one item per group, ordered by numeric prefix |
| TableItems.ItemsOfAll | services/table_parser.py:620-624 | one built item per prefix with a non-empty group |
| TableItems.PrefixesOrdered | services/table_parser.py:621 | the prefixes are sorted by integer value (non-digits as 0), stably |
| CsvClean.Trimmed | scripts/import_csv.py:105-109 | None iff the cell is NaN or a placeholder after stripping; otherwise the stripped non-empty text |
| CsvClean.NumericOf | scripts/import_csv.py:112-120 | an expression gives None; otherwise a number is read exactly when the text holds a digit |
| CsvClean.NumericOfFirstRun | scripts/import_csv.py:117-119 | a text that is no expression reads as the value of the digit run after its digit-free beginning |
| CsvClean.PowerNumber | scripts/import_csv.py:124-126 | a number is found iff some number is followed by a watt unit |
| CsvClean.PowerOf | scripts/import_csv.py:123-130 | the number before a watt unit, else the first number; none iff no digit |
| CsvClean.BooleanOfAsWritten | scripts/import_csv.py:133-141 | as written: True iff a positive phrase occurs; False iff no positive phrase but a negative one |
| CsvClean.BooleanOf | scripts/import_csv.py:133-141 | corrected: "не поддерживается" gives False; otherwise as written |
| CsvClean.CleanSpecValueAsWritten | scripts/import_csv.py:103-144 | the cleaner with the boolean phrases in source order |
| CsvClean.CleanAsWrittenAgrees | scripts/import_csv.py:103-144 | the written and the corrected cleaner agree on every cell whose lowered text does not contain "не поддерживается" |
| CsvClean.CleanAsWrittenSameKeys | scripts/import_csv.py:103-144 | the written and the corrected cleaner keep exactly the same cells; they can differ only in the boolean stored |
| CsvClean.CleanSpecValue | scripts/import_csv.py:103-144 | placeholders give None; numeric and power keys give non-negative ints; boolean keys give booleans; others give the stripped text |
| CsvClean.CleanByClass | scripts/import_csv.py:110-144 | by class: numeric and power give non-negative ints, boolean gives booleans, text gives the stripped text; placeholders give None |
| CsvClean.CleanNumeric | scripts/import_csv.py:112-120 | a numeric key's value is the truncated first number unless complex |
| CsvClean.NumericOfNat | scripts/import_csv.py:117-119 | a non-negative integer cell stays that integer |
| CsvClean.NumericOfNegative | scripts/import_csv.py:114-116 | a negative number is complex (the minus sign), so it gives None |
| CsvClean.NumericOfFloat | scripts/import_csv.py:117-119 | a decimal cell is truncated to its whole part |
| CsvClean.NumericOfDigitText | scripts/import_csv.py:117-119 | digit text gives its leading number |
| CsvClean.DigitsNotComplex | scripts/import_csv.py:98-114 | text of digits and dots is not complex |
| CsvClean.PowerOfMarked | scripts/import_csv.py:124-126 | a number followed by Вт/W is the power |
| CsvClean.PowerOfMarkedAfter | scripts/import_csv.py:124-126 | the first number followed by a unit is the power |
| CsvClean.PowerPrefersUnit | scripts/import_csv.py:123-129 | a unit-marked later number wins over an unmarked first number |
| CsvClean.AsWrittenReadsNotSupportedAsTrue | scripts/import_csv.py:135-138 | as written, "не поддерживается" reads as True, because it contains "поддерживается" |
| CsvClean.NotSupportedIsFalse | scripts/import_csv.py:133-141 | corrected, "не поддерживается" reads as False |
| CsvClean.PositivePhrase | scripts/import_csv.py:135-138 | every positive phrase reads as True |
| CsvClean.NegativePhrase | scripts/import_csv.py:136-140 | every negative phrase reads as False under the corrected order |
| CsvImport.NormalizeColumnName | scripts/import_csv.py:71-76 | a column in no synonym list is unchanged |
| CsvImport.NormalizeFirst | scripts/import_csv.py:73-75 | the first canonical key whose synonyms contain the column exactly |
| CsvImport.ColsLowerGet | scripts/import_csv.py:175 | the lower-case lookup maps a form to the last column with that form |
| CsvImport.FromCandidates | scripts/import_csv.py:176-178 | none iff no candidate's lower-case form is a column form |
| CsvImport.FromCandidatesFirst | scripts/import_csv.py:176-178 | the first candidate present gives its original column spelling |
| CsvImport.DetectModelNameColumn | scripts/import_csv.py:173-180 | a column is found iff there are columns |
| CsvImport.ModelNameColumnByCandidate | scripts/import_csv.py:175-178 | the first candidate in list order wins |
| CsvImport.ModelNameColumnFallback | scripts/import_csv.py:179-180 | with no candidate, the first column |
| CsvImport.SplitExtRoot | scripts/import_csv.py:152 | the root is a prefix of the path |
| CsvImport.SplitExtOf | scripts/import_csv.py:152 | splitext drops one extension |
| CsvImport.SourceOfPlainName | scripts/import_csv.py:150-156 | a name without the suffixes loses only its extension |
| CsvImport.SourceDropsCleaned | scripts/import_csv.py:154-155 | "_cleaned" is removed |
| CsvImport.CategoryFromColumns | scripts/import_csv.py:162-165 | none iff no category column gives a value |
| CsvImport.CategoryFromColumnsFirst | scripts/import_csv.py:162-165 | the first category column with a value wins |
| CsvImport.CategoryFromSource | scripts/import_csv.py:167-169 | none iff no mapping prefix occurs case-insensitively in the source |
| CsvImport.CategoryFromSourceFirst | scripts/import_csv.py:167-169 | the first prefix in table order that occurs wins |
| CsvImport.ExtractCategory | scripts/import_csv.py:159-170 | the column category when there is one, else the source category |
| CsvImport.NaNCategory | scripts/import_csv.py:163-165 | a NaN category cell is truthy and gives "nan" |
| CsvImport.CategoryOfMesSource | scripts/import_csv.py:167-169 | a source containing "mes" maps to switches |
| CsvImport.StripAll | scripts/import_csv.py:202 | column names are stripped one by one |
| CsvImport.ParseCsvFile | scripts/import_csv.py:186-246 | the row loop produces the specified models |
| CsvImport.ParseRows | scripts/import_csv.py:212-244 | the row loop yields, in row order, the model of each row that has a non-blank name |
| CsvImport.BuildSpecifications | scripts/import_csv.py:220-234 | the column loop produces the specified cleaned and raw dicts |
| CsvImport.ParsedModelsNamed | scripts/import_csv.py:212-244 | every model has a stripped non-empty name and the file's source tag; at most one model per row |
| CsvImport.RowModelNamed | scripts/import_csv.py:209-218 | a row that gives a model gives it a stripped non-empty name and the file's source tag |
| CsvImport.SpecificationsKeys | scripts/import_csv.py:224-234 | the keys are the canonical keys of kept columns whose cleaned value is not None |
| CsvImport.SpecificationsLastWins | scripts/import_csv.py:231-234 | a later column with the same canonical key overwrites an earlier one |
| CsvImport.RawSpecificationsEntries | scripts/import_csv.py:227-229 | a raw entry exists iff the column is kept and the cell is not NaN, and holds str(value) |
| CsvImport.RawExcludesSkipped | scripts/import_csv.py:225-226 | the model column and the skipped columns never appear |
| ReverseMapping.DropNumberSuffix | scripts/generate_reverse_mapping.py:21 | the result is the name or the name without a final "." and digits |
| ReverseMapping.DropOptionalNote | scripts/generate_reverse_mapping.py:23 | the result is a prefix of the name |
| ReverseMapping.DropNumberSuffixOf | scripts/generate_reverse_mapping.py:21 | "x.digits" loses exactly ".digits" |
| ReverseMapping.DropOptionalNoteOf | scripts/generate_reverse_mapping.py:23 | a trailing optional-characteristic note is removed |
| ReverseMapping.CleanSuffixedOptional | scripts/generate_reverse_mapping.py:18-24 | note plus number suffix are both removed, then whitespace |
| ReverseMapping.CleanPlainName | scripts/generate_reverse_mapping.py:18-24 | a plain name is unchanged |
| ReverseMapping.CleanAll | scripts/generate_reverse_mapping.py:33 | each synonym is cleaned in place |
| ReverseMapping.Deduplicate | scripts/generate_reverse_mapping.py:35-40 | the seen-set loop keeps the first occurrence of each non-empty name |
| ReverseMapping.UniqueNamesMembers | scripts/generate_reverse_mapping.py:35-40 | the unique names are exactly the non-empty names, without duplicates |
| ReverseMapping.WithoutParens | scripts/generate_reverse_mapping.py:48 | exactly the names without "(" |
| ReverseMapping.ShortestAt | scripts/generate_reverse_mapping.py:50-52 | min by length: a shortest name, and the first among equals |
| ReverseMapping.Shortest | scripts/generate_reverse_mapping.py:50-52 | the chosen name is a member no longer than any other |
| ReverseMapping.ChooseOf | scripts/generate_reverse_mapping.py:48-52 | a paren-free name is preferred, and the shortest wins |
| ReverseMapping.SelectBestName | scripts/generate_reverse_mapping.py:27-52 | the loop and choice produce the specified best name |
| ReverseMapping.BestNameFallback | scripts/generate_reverse_mapping.py:42-43 | when every cleaned name is empty the first synonym, uncleaned |
| ReverseMapping.BestNameChoice | scripts/generate_reverse_mapping.py:45-52 | a non-empty cleaned name, shortest among paren-free ones, or shortest overall when all have "(" |
| ReverseMapping.GenerateReverseMapping | scripts/generate_reverse_mapping.py:65-71 | the loop maps each canonical key to the best name of its synonyms |
| ReverseMapping.ReverseMappingEntries | scripts/generate_reverse_mapping.py:68-71 | one entry per canonical key, in order, each the best name |
| ReportLabels.FinalUpdGroupsAt | services/excel_generator.py:62 | the label groups are read exactly where the priority parser sees finalUPDv.X.Y, and agree with it |
| ReportLabels.VersionGroupsAt | services/excel_generator.py:67 | the label groups are read exactly where the priority parser sees vN, and agree with it |
| ReportLabels.ParseVersion | services/excel_generator.py:59-75 | "—" for empty input; a finalUPD label without a "(new)" mark, exactly "finalUPD" when no v.X.Y follows; a "v" label marked iff `_new` occurs; else the input unchanged |
| ReportLabels.FinalUpdLabel | services/excel_generator.py:62-66 | a finalUPD label never carries the new mark |
| ReportLabels.VersionLabel | services/excel_generator.py:68-74 | a version label starts with "v" and carries the mark iff the name is new |
| ReportLabels.FinalUpdVersion | services/excel_generator.py:62-64 | finalUPDv.X.Y is labelled "finalUPD vX.Y", even with `_new` |
| ReportLabels.FinalUpdPriority | services/matcher.py:233-246 | finalUPDv.X.Y has priority 1000+Y, whatever X, plus one half for `_new` |
| ReportLabels.FinalUpdFound | services/matcher.py:233-234 | the first `finalUPD` match of `<prefix>finalUPDv.X.Y<rest>` is after the prefix, with groups X and Y |
| ReportLabels.VersionWithMinor | services/excel_generator.py:67-74 | vN.M is labelled "vN.M", with " (new)" iff `_new` occurs |
| ReportLabels.VersionWithoutMinor | services/excel_generator.py:67-74 | without finalUPD, a tag whose first "v" starts vN not followed by ".digit" is labelled "vN", with " (new)" iff `_new` occurs |
| ReportLabels.FoundIn | services/excel_generator.py:136 | the substring message is never empty and never the exact-match text |
| ReportLabels.ComparisonDetail | services/excel_generator.py:120-137 | "Exact text match" iff two strings are equal after normalising; "" iff they are not two strings, or the normalised required text does not occur inside the normalised catalogue text; else the found-in message |
| ReportSummary.RowFill | services/excel_generator.py:237-243 | green, yellow and orange exactly for the ideal, partial and not-matched bands |
| ReportSummary.Tagged | services/excel_generator.py:220-227 | each offered match is tagged with its item's spec count |
| ReportSummary.CollectTopModels | services/excel_generator.py:218-227 | the collecting loops produce the specified top dict |
| ReportSummary.OfferAll | services/excel_generator.py:222-227 | the inner loop offers each match in turn |
| ReportSummary.KeepAllAppend | services/excel_generator.py:220-227 | offering two runs equals offering their concatenation |
| ReportSummary.KeepAllEntry | services/excel_generator.py:222-227 | a name is kept iff some offer of it reaches the minimum; its entry has the highest percentage and is the first offer to reach it |
| ReportSummary.KeepStep | services/excel_generator.py:224-227 | one strict-improvement update keeps that characterisation |
| ReportSummary.EntriesOf | services/excel_generator.py:229 | the values of the top dict, in order |
| ReportSummary.SortedTop | services/excel_generator.py:229 | at most 10 entries, all from the top dict |
| ReportSummary.SortedTopIsTop | services/excel_generator.py:229 | the list is descending, and nothing left out beats anything kept |
| ReportSummary.MaxPct | services/excel_generator.py:464 | the max of the percentages, 0.0 for none, and attained |
| ReportSummary.MaxPctOf | services/excel_generator.py:464 | the max loop computes the best percentage |
| ReportSummary.HasUnmatched | services/excel_generator.py:429-439 | the flag is set iff some result has no match reaching the minimum |
| ReportSummary.AnyReaches | services/excel_generator.py:432-436 | true iff some match reaches the minimum |
| ReportSummary.ListedIffNoneReaches | services/excel_generator.py:429-466 | a listed result has no match reaching the minimum; the converse holds when it has matches or the minimum is positive |
| ReportSummary.EmptyResultAtZeroMinimum | services/excel_generator.py:429-466 | with no matches and a minimum of 0, the sheet is headed as unmatched but lists no row |
| ReportSummary.ListedResults | services/excel_generator.py:452-466 | exactly the results whose best percentage is below the minimum |
| ReportSummary.UnmatchedRows | services/excel_generator.py:451-472 | one row per listed result, numbered from 1 |
| ReportSummary.BuildUnmatchedRows | services/excel_generator.py:451-472 | the counter loop produces the specified rows |
| ReportSummary.UnmatchedRowsShape | services/excel_generator.py:466-472 | row k is numbered k+1, its best is below the minimum, and it is red iff the best is 0 |
| Auth.Decide | middleware/auth.py:27-62 | each of the five decisions, characterised by the event, the table and the id list |
| Auth.AuthMiddleware.Call | middleware/auth.py:21-62 | the outcome, the new table and the appended effects follow the decision on the old table |
| Auth.AuthMiddleware.Newcomer | middleware/auth.py:44-62 | for a user without a row the same holds of the decision on the old table: a listed user is inserted as administrator and handled, an unlisted one is answered and dropped, an unreadable list raises |
| Auth.DenyTextShowsId | middleware/auth.py:58-61 | the denial message contains the user's id |
| Auth.RegisteredThenAllowed | middleware/auth.py:37-54 | a registered newcomer is allowed next time by the table alone |
| Auth.DenialIsStable | middleware/auth.py:56-62 | a denial leaves the table unchanged, so the user stays denied |
| Auth.ListedNonAdminDenied | middleware/auth.py:40-44 | a non-admin already in the table is denied even if listed |
| Auth.HandlerRunsIffAdmitted | middleware/auth.py:27-62 | the handler runs iff the event is let through; a registration's row is created first, with the admin flag |

## Left out

- File, database and network I/O are left out:
  - DOCX opening, pandas CSV reading, JSON map loading, openpyxl workbook creation, styling and saving;
  - SQLAlchemy sessions and the OpenAI client.
  Maps are parameters, and the catalogue is a snapshot sequence.
- `async`/`await`, logging and the Telegram bot handlers are not modelled.
- The handler's own return value is abstracted as `Handled`.
- `import_all_csv` (the loop over files) is outside the model. Of `parse_csv_file`, the column strip, the empty-frame return, the model-column detection and the row loop are modelled. Its `model_col is None` return cannot be reached once the frame has columns, as CsvImport.DetectModelNameColumn shows.
- Strings.ParseInt: Python `int()` is modelled for an optional sign and ASCII digits only. Underscore grouping such as "1_000" and non-ASCII digits are not covered.
- Python `float()` is modelled for decimal literals only. Exponents, `inf`, `nan` and underscores are not covered, and numbers are exact reals rather than IEEE doubles. `round(x, 2)` is half-up on reals, not banker's rounding on doubles.
- A `float` cell is given together with its textual form (`str(value)`). Python's float repr is not computed for cells. ValueParser.FloatRepr renders a decimal literal's value exactly (leading zeros and trailing fraction zeros dropped); the shortest-round-trip digits of an IEEE double are not modelled.
- Regular expressions:
  - the five header pattern lists of the table parser are abstract predicates;
  - `$` before a final newline is not modelled;
  - `\d`, `\w` and case folding cover ASCII and Cyrillic only.
- `unit` in `parse_value` is never used by the source. It is not a parameter of the model.
- ILIKE wildcards (`%`, `_` inside a requested model name) are treated as literal text.
- A CSV frame whose column names collide after stripping is not modelled. Columns are distinct.
- `None` cells in a CSV frame are modelled as NaN only.
- `os.path.splitext` is modelled for `/` separators only, without `altsep`.
- Excel report:
  - only the rules are modelled: the top list, the colours, the unmatched rows and the labels;
  - left out are the all-matches and details sheets beyond their colour rule, the statistics block of the summary sheet, the requirement display name, and the cell formatting;
  - `_readable_key` is a dictionary lookup with a title-case fallback and is not modelled.
- `_comparison_detail` is modelled on its text branch only. Its first branch imports `extract_number` and `extract_number_with_operator` from the matcher, which does not define them. The import error is swallowed, so the text branch is the behaviour of this code.
- The pool of all models is capped at 200 as the code does. A test expecting 300 candidates describes a different revision.
- Comparator.LowerBound: states the corrected bound. The written bound is Comparator.ScaledLowerBound, which lies above a negative requirement; see the first Findings row.
- Comparator.NumericRule: states the corrected rule; the written rule `model >= req * 0.95` is Comparator.NumericRuleAsWritten.
- Comparator.Reflexive: holds of the corrected comparator only; as written, a negative number fails against itself under allow_lower, as Comparator.ReflexiveAsWritten states.
- Comparator.MonotoneInModel: proved of the corrected comparator; Comparator.MonotoneInModelAsWritten proves the same of the written one.
- Scorer.CalculateMatchPercentage: the comparator the rest of the model uses is the corrected half of the first Findings row (bound `req - |req|/20`), not the written `req * 0.95`; Comparator.AsWrittenAgrees shows the two give the same answer unless allow_lower is on and the required value reads as a negative number. For required -100, model -100 and allow_lower on, the source scores 0 % where the model scores 100 %.
- Scorer.DifferentSpecs: the comparator the rest of the model uses is the corrected half of the first Findings row (bound `req - |req|/20`), not the written `req * 0.95`; Comparator.AsWrittenAgrees shows the two give the same answer unless allow_lower is on and the required value reads as a negative number. For required -100, model -100 and allow_lower on, the source scores 0 % where the model scores 100 %.
- Scorer.Partition: the comparator the rest of the model uses is the corrected half of the first Findings row (bound `req - |req|/20`), not the written `req * 0.95`; Comparator.AsWrittenAgrees shows the two give the same answer unless allow_lower is on and the required value reads as a negative number. For required -100, model -100 and allow_lower on, the source scores 0 % where the model scores 100 %.
- Orchestrator.ScoreAll: the comparator the rest of the model uses is the corrected half of the first Findings row (bound `req - |req|/20`), not the written `req * 0.95`; Comparator.AsWrittenAgrees shows the two give the same answer unless allow_lower is on and the required value reads as a negative number. For required -100, model -100 and allow_lower on, the source scores 0 % where the model scores 100 %.
- Orchestrator.MatchesFor: the comparator the rest of the model uses is the corrected half of the first Findings row (bound `req - |req|/20`), not the written `req * 0.95`; Comparator.AsWrittenAgrees shows the two give the same answer unless allow_lower is on and the required value reads as a negative number. For required -100, model -100 and allow_lower on, the source scores 0 % where the model scores 100 %.
- Orchestrator.MatchItem: the comparator the rest of the model uses is the corrected half of the first Findings row (bound `req - |req|/20`), not the written `req * 0.95`; Comparator.AsWrittenAgrees shows the two give the same answer unless allow_lower is on and the required value reads as a negative number. For required -100, model -100 and allow_lower on, the source scores 0 % where the model scores 100 %.
- Orchestrator.FindMatchingModels: the comparator the rest of the model uses is the corrected half of the first Findings row (bound `req - |req|/20`), not the written `req * 0.95`; Comparator.AsWrittenAgrees shows the two give the same answer unless allow_lower is on and the required value reads as a negative number. For required -100, model -100 and allow_lower on, the source scores 0 % where the model scores 100 %.
- CsvClean.CleanSpecValue: the cleaner the import uses is the corrected half of the second Findings row; CsvClean.CleanAsWrittenAgrees shows it gives the written result on every cell whose lowered text does not contain "не поддерживается", and CsvClean.CleanAsWrittenSameKeys that both keep the same cells. A boolean-column cell "не поддерживается" is stored as True by the source and as False here.
- CsvClean.CleanByClass: the cleaner the import uses is the corrected half of the second Findings row; CsvClean.CleanAsWrittenAgrees shows it gives the written result on every cell whose lowered text does not contain "не поддерживается", and CsvClean.CleanAsWrittenSameKeys that both keep the same cells. A boolean-column cell "не поддерживается" is stored as True by the source and as False here.
- CsvImport.ParseCsvFile: the cleaner the import uses is the corrected half of the second Findings row; CsvClean.CleanAsWrittenAgrees shows it gives the written result on every cell whose lowered text does not contain "не поддерживается", and CsvClean.CleanAsWrittenSameKeys that both keep the same cells. A boolean-column cell "не поддерживается" is stored as True by the source and as False here.
- CsvImport.ParseRows: the cleaner the import uses is the corrected half of the second Findings row; CsvClean.CleanAsWrittenAgrees shows it gives the written result on every cell whose lowered text does not contain "не поддерживается", and CsvClean.CleanAsWrittenSameKeys that both keep the same cells. A boolean-column cell "не поддерживается" is stored as True by the source and as False here.
- CsvImport.BuildSpecifications: the cleaner the import uses is the corrected half of the second Findings row; CsvClean.CleanAsWrittenAgrees shows it gives the written result on every cell whose lowered text does not contain "не поддерживается", and CsvClean.CleanAsWrittenSameKeys that both keep the same cells. A boolean-column cell "не поддерживается" is stored as True by the source and as False here.
- CsvImport.SpecificationsLastWins: the cleaner the import uses is the corrected half of the second Findings row; CsvClean.CleanAsWrittenAgrees shows it gives the written result on every cell whose lowered text does not contain "не поддерживается", and CsvClean.CleanAsWrittenSameKeys that both keep the same cells. A boolean-column cell "не поддерживается" is stored as True by the source and as False here.
- The catalogue queries (`get_all_models`, `get_models_by_category`, `get_model_by_name` in database/crud.py:46-66) have no ORDER BY, so the database fixes the pool's order. The model takes the order of the snapshot sequence as given. Deduplicator.DedupWinner keeps the first of equal priorities, and the stable sorts keep ties in pool order, so ties are decided by an order the source does not fix.
- Values.Value has no dictionary (JSON object) case. A specification value that is itself a JSON object is not modelled, although `compare_spec_values` would accept one and decide it by Python `==`. For the specification map itself only lookup and size are used.

## Findings

| source | as written | input that shows it | evidently intended | confidence | as-written member | corrected member |
|---|---|---|---|---|---|---|
| services/matcher.py:82-85 | with allow_lower the bound is `req * 0.95`, which lies above a negative requirement | required -100, model -100, allow_lower on: rejected, although the strict rule accepts it | a 5 % tolerance downwards, `req - 0.05*abs(req)`, so that allow_lower only relaxes | not executed | Comparator.AsWrittenRejectsEqualNegative | Comparator.AllowLowerRelaxes |
| scripts/import_csv.py:135-140 | positive phrases are checked first, and "поддерживается" is a substring of the negative phrase "не поддерживается" | boolean key, value "не поддерживается": cleaned to True | "не поддерживается" reads as False | not executed | CsvClean.AsWrittenReadsNotSupportedAsTrue | CsvClean.NotSupportedIsFalse |
