/** From parsed rows to requirement items: rows grouped by item, one item
    built per group, and the document-level passes over all tables. */
module TableItems {
  import opened Strings
  import opened Values
  import opened Dicts
  import opened Seqs
  import opened StableSort
  import opened TableColumns
  import opened Equipment
  import opened TableRows

  // ───────────────────────── grouping ─────────────────────────

  /** The group of a row: the leading digits of its item number ("2.3" is item 2), else its item
      name, else "default". */
  function GroupKey(r: ParsedRow): (k: string)
    ensures k != ""
  {
    var e := DigitRunEnd(r.itemNumber, 0);
    if e > 0 then r.itemNumber[..e] else if r.itemName != "" then r.itemName else "default"
  }

  /** _group_requirements_by_item: the rows appended to their group, groups in first-appearance order. */
  method GroupRequirementsByItem(rows: seq<ParsedRow>) returns (groups: Dict<string, seq<ParsedRow>>)
    ensures groups == GroupBy(rows, GroupKey)
  {
    groups := [];
    for i := 0 to |rows|
      invariant groups == GroupBy(rows[..i], GroupKey)
    {
      assert rows[..i + 1][..i] == rows[..i];
      var row := rows[i];
      var prefix: string;
      var e := DigitRunEnd(row.itemNumber, 0);
      if e > 0 {
        prefix := row.itemNumber[..e];
      } else if row.itemName != "" {
        prefix := row.itemName;
      } else {
        prefix := "default";
      }
      groups := AppendTo(groups, prefix, row);
    }
    assert rows[..|rows|] == rows;
  }

  /** Each row lands in exactly the group of its key, and a group holds its rows in their order. */
  lemma GroupsHoldRows(rows: seq<ParsedRow>, k: string)
    ensures Get(GroupBy(rows, GroupKey), k, []) == FilterKey(rows, GroupKey, k)
    ensures HasKey(GroupBy(rows, GroupKey), k) <==> exists i | 0 <= i < |rows| :: GroupKey(rows[i]) == k
  {
    GroupByGet(rows, GroupKey, k);
  }

  /** Sub-items "n.m" fall into the group of their item number n. */
  lemma GroupKeyOfSubItem(r: ParsedRow, n: nat, rest: string)
    requires r.itemNumber == NatToString(n) + "." + rest
    ensures GroupKey(r) == NatToString(n)
  {
    var d := NatToString(n);
    DigitRunEndAt(r.itemNumber, 0, |d|);
    assert r.itemNumber[..|d|] == d;
  }

  /** Without an item number, rows group by item name, and without either under "default". */
  lemma GroupKeyWithoutNumber(r: ParsedRow)
    requires r.itemNumber == "" || !IsDigit(r.itemNumber[0])
    ensures GroupKey(r) == if r.itemName != "" then r.itemName else "default"
  {
  }

  // ───────────────────────── one item ─────────────────────────

  /** One requirement item in the shape the matcher consumes. */
  datatype RequirementItem = RequirementItem(
    itemName: string,
    quantity: Option<nat>,
    modelName: Option<string>,
    category: Option<string>,
    requiredSpecs: Dict<string, Value>)

  const Switches: string := "Коммутаторы"
  const Routers: string := "Маршрутизаторы"

  /** The first non-empty item name of the group's rows. */
  function FirstItemName(reqs: seq<ParsedRow>): (r: Option<string>)
    ensures r.None? <==> forall i | 0 <= i < |reqs| :: reqs[i].itemName == ""
    ensures r.Some? ==> exists i | 0 <= i < |reqs| ::
      r.value == reqs[i].itemName && r.value != "" && forall j | 0 <= j < i :: reqs[j].itemName == ""
  {
    if reqs == [] then None
    else if reqs[0].itemName != "" then Some(reqs[0].itemName)
    else
      var r := FirstItemName(reqs[1..]);
      assert forall i | 0 <= i < |reqs[1..]| :: reqs[1..][i] == reqs[i + 1];
      r
  }

  /** The item name: the first non-empty one, else "Позиция <prefix>". */
  function ItemNameOf(prefix: string, reqs: seq<ParsedRow>): string {
    var n := FirstItemName(reqs);
    if n.Some? then n.value else "Позиция " + prefix
  }

  /** The category read off the item name: switches, then routers, else none. */
  function CategoryOf(itemName: string): (c: Option<string>)
    ensures c.Some? ==> c.value == Switches || c.value == Routers
  {
    var l := Lower(itemName);
    if Contains(l, "коммутатор") || Contains(l, "switch") then Some(Switches)
    else if Contains(l, "маршрутизатор") || Contains(l, "router") then Some(Routers)
    else None
  }

  function HasValue(): ParsedRow -> bool {
    (r: ParsedRow) => r.parsedValue != Null
  }

  function KeyOf(): ParsedRow -> string {
    (r: ParsedRow) => r.canonicalKey
  }

  function ValueOf(): ParsedRow -> Value {
    (r: ParsedRow) => r.parsedValue
  }

  /** required_specs: the parsed value of each row under its key, skipping None; later rows overwrite. */
  function RequiredSpecs(reqs: seq<ParsedRow>): Dict<string, Value> {
    PutEach(reqs, HasValue(), KeyOf(), ValueOf())
  }

  /** The displayed item name: " (позиция p)" is added exactly when the prefix is a number. */
  function DisplayName(itemName: string, prefix: string): string {
    if IsDigitString(prefix) then itemName + " (позиция " + prefix + ")" else itemName
  }

  /** _build_item_dict: no item for an empty group. */
  function BuildItem(prefix: string, reqs: seq<ParsedRow>, equipment: Dict<string, nat>): Option<RequirementItem> {
    if reqs == [] then None
    else
      var itemName := ItemNameOf(prefix, reqs);
      Some(RequirementItem(DisplayName(itemName, prefix), MatchQuantity(itemName, equipment), None,
                           CategoryOf(itemName), RequiredSpecs(reqs)))
  }

  /** _build_item_dict as the code computes it, with the loop that fills required_specs. */
  method BuildItemDict(prefix: string, reqs: seq<ParsedRow>, equipment: Dict<string, nat>) returns (item: Option<RequirementItem>)
    ensures item == BuildItem(prefix, reqs, equipment)
  {
    if reqs == [] {
      return None;
    }
    var itemName := ItemNameOf(prefix, reqs);
    var category: Option<string> := None;
    var itemLower := Lower(itemName);
    if Contains(itemLower, "коммутатор") || Contains(itemLower, "switch") {
      category := Some(Switches);
    } else if Contains(itemLower, "маршрутизатор") || Contains(itemLower, "router") {
      category := Some(Routers);
    }
    var requiredSpecs: Dict<string, Value> := [];
    for i := 0 to |reqs|
      invariant requiredSpecs == RequiredSpecs(reqs[..i])
    {
      assert reqs[..i + 1][..i] == reqs[..i];
      var req := reqs[i];
      if req.parsedValue != Null {
        requiredSpecs := Put(requiredSpecs, req.canonicalKey, req.parsedValue);
      }
    }
    assert reqs[..|reqs|] == reqs;
    var quantity := MatchQuantity(itemName, equipment);
    item := Some(RequirementItem(DisplayName(itemName, prefix), quantity, None, category, requiredSpecs));
  }

  /** required_specs never holds None, and its keys are exactly the keys of the rows with a value. */
  lemma RequiredSpecsKeys(reqs: seq<ParsedRow>, k: string)
    ensures HasKey(RequiredSpecs(reqs), k) <==> exists i | 0 <= i < |reqs| :: reqs[i].parsedValue != Null && reqs[i].canonicalKey == k
  {
    PutEachKeys(reqs, HasValue(), KeyOf(), ValueOf(), k);
  }

  /** A later row with the same key wins. */
  lemma RequiredSpecsLastWins(reqs: seq<ParsedRow>, i: nat)
    requires i < |reqs| && reqs[i].parsedValue != Null
    requires forall j | i < j < |reqs| :: !(reqs[j].parsedValue != Null && reqs[j].canonicalKey == reqs[i].canonicalKey)
    ensures Get(RequiredSpecs(reqs), reqs[i].canonicalKey, Null) == reqs[i].parsedValue
  {
    PutEachLast(reqs, HasValue(), KeyOf(), ValueOf(), i, Null);
  }

  /** The item of a non-empty group: model name always None, the position suffix exactly for a
      numeric prefix, and the name of a group without item names taken from the prefix. */
  lemma BuildItemShape(prefix: string, reqs: seq<ParsedRow>, equipment: Dict<string, nat>)
    requires reqs != []
    ensures var item := BuildItem(prefix, reqs, equipment);
      && item.Some? && item.value.modelName.None?
      && (IsDigitString(prefix) ==> item.value.itemName == ItemNameOf(prefix, reqs) + " (позиция " + prefix + ")")
      && (!IsDigitString(prefix) ==> item.value.itemName == ItemNameOf(prefix, reqs))
      && ((forall i | 0 <= i < |reqs| :: reqs[i].itemName == "") ==> ItemNameOf(prefix, reqs) == "Позиция " + prefix)
  {
  }

  // ───────────────────────── the document ─────────────────────────

  /** The ordering key of a group prefix: its integer value when it is a number, else 0. */
  function PrefixOrder(p: string): int {
    if IsDigitString(p) then NatValue(p) else 0
  }

  predicate IntLt(a: int, b: int) {
    a < b
  }

  lemma IntLtStrictTotal()
    ensures StrictTotal(IntLt)
  {
  }

  /** d.update(e): each entry of e put in order. */
  function Update<K(==), V>(d: Dict<K, V>, e: seq<(K, V)>): Dict<K, V> {
    if e == [] then d else Put(Update(d, e[..|e| - 1]), e[|e| - 1].0, e[|e| - 1].1)
  }

  function Detector(pats: HeaderPatterns): Table -> Option<ColumnMap> {
    (t: Table) => DetectColumns(t, pats)
  }

  /** Pass 1: the tables with detected columns, with their column maps, in document order. */
  function CharacteristicsTables(tables: seq<Table>, pats: HeaderPatterns): seq<(Table, ColumnMap)> {
    Pick(tables, Detector(pats))
  }

  /** Pass 1: the equipment lists of the other tables merged in document order. */
  function MergedEquipment(tables: seq<Table>, pats: HeaderPatterns): Dict<string, nat> {
    if tables == [] then []
    else
      var init := MergedEquipment(tables[..|tables| - 1], pats);
      var t := tables[|tables| - 1];
      if DetectColumns(t, pats).Some? then init else Update(init, EquipmentList(t))
  }

  /** Pass 2: the parsed rows of all characteristics tables, table after table. */
  function AllRows(ct: seq<(Table, ColumnMap)>, pats: HeaderPatterns, normMap: map<string, string>): seq<ParsedRow> {
    if ct == [] then []
    else
      var (t, cm) := ct[|ct| - 1];
      AllRows(ct[..|ct| - 1], pats, normMap) + ParseRows(DataRows(t, cm), cm, pats, normMap)
  }

  function ItemBuilder(groups: Dict<string, seq<ParsedRow>>, equipment: Dict<string, nat>): string -> Option<RequirementItem> {
    (p: string) => BuildItem(p, Get(groups, p, []), equipment)
  }

  /** The items of the groups, taken in the given order of prefixes. */
  function ItemsOf(prefixes: seq<string>, groups: Dict<string, seq<ParsedRow>>, equipment: Dict<string, nat>): seq<RequirementItem> {
    Collect(prefixes, ItemBuilder(groups, equipment))
  }

  /** parse_requirements_from_tables after the document is opened: None when no table has
      characteristics columns or they hold no rows; otherwise one item per group, groups ordered by
      the integer value of their prefix (non-numbers as 0), ties in first-appearance order. */
  function ParseRequirements(tables: seq<Table>, pats: HeaderPatterns, normMap: map<string, string>): Option<seq<RequirementItem>> {
    var ct := CharacteristicsTables(tables, pats);
    if ct == [] then None
    else
      var rows := AllRows(ct, pats, normMap);
      if rows == [] then None
      else
        var groups := GroupBy(rows, GroupKey);
        Some(ItemsOf(SortBy(Keys(groups), PrefixOrder, IntLt), groups, MergedEquipment(tables, pats)))
  }

  /** parse_requirements_from_tables: the two passes over the tables and the item loop. */
  method ParseRequirementsFromTables(tables: seq<Table>, pats: HeaderPatterns, normMap: map<string, string>)
    returns (result: Option<seq<RequirementItem>>)
    ensures result == ParseRequirements(tables, pats, normMap)
  {
    var characteristicsTables, equipmentList := ScanTables(tables, pats);
    if characteristicsTables == [] {
      return None;
    }
    var allParsedRows := CollectRows(characteristicsTables, pats, normMap);
    if allParsedRows == [] {
      return None;
    }
    var groups := GroupRequirementsByItem(allParsedRows);
    var prefixes := SortBy(Keys(groups), PrefixOrder, IntLt);
    var items := BuildItems(prefixes, groups, equipmentList);
    result := Some(items);
  }

  /** Pass 1: each table is a characteristics table or, failing that, perhaps an equipment list. */
  method ScanTables(tables: seq<Table>, pats: HeaderPatterns)
    returns (characteristicsTables: seq<(Table, ColumnMap)>, equipmentList: Dict<string, nat>)
    ensures characteristicsTables == CharacteristicsTables(tables, pats)
    ensures equipmentList == MergedEquipment(tables, pats)
  {
    characteristicsTables, equipmentList := [], [];
    for idx := 0 to |tables|
      invariant characteristicsTables == CharacteristicsTables(tables[..idx], pats)
      invariant equipmentList == MergedEquipment(tables[..idx], pats)
    {
      assert tables[..idx + 1][..idx] == tables[..idx];
      var table := tables[idx];
      var colMap := DetectCharacteristicsColumns(table, pats);
      if colMap.Some? {
        characteristicsTables := characteristicsTables + [(table, colMap.value)];
      } else {
        var eqList := ExtractEquipmentList(table);
        if eqList != [] {
          equipmentList := Update(equipmentList, eqList);
        }
      }
    }
    assert tables[..|tables|] == tables;
  }

  /** Pass 2: the rows of every characteristics table, appended table after table. */
  method CollectRows(ct: seq<(Table, ColumnMap)>, pats: HeaderPatterns, normMap: map<string, string>)
    returns (allParsedRows: seq<ParsedRow>)
    ensures allParsedRows == AllRows(ct, pats, normMap)
  {
    allParsedRows := [];
    for i := 0 to |ct|
      invariant allParsedRows == AllRows(ct[..i], pats, normMap)
    {
      assert ct[..i + 1][..i] == ct[..i];
      var (table, colMap) := ct[i];
      var rows := ParseTableRows(table, colMap, pats, normMap);
      allParsedRows := allParsedRows + rows;
    }
    assert ct[..|ct|] == ct;
  }

  /** The item loop over the ordered prefixes. */
  method BuildItems(prefixes: seq<string>, groups: Dict<string, seq<ParsedRow>>, equipment: Dict<string, nat>)
    returns (items: seq<RequirementItem>)
    ensures items == ItemsOf(prefixes, groups, equipment)
  {
    items := [];
    for i := 0 to |prefixes|
      invariant items == ItemsOf(prefixes[..i], groups, equipment)
    {
      assert prefixes[..i + 1][..i] == prefixes[..i];
      var prefix := prefixes[i];
      var itemDict := BuildItemDict(prefix, Get(groups, prefix, []), equipment);
      if itemDict.Some? {
        items := items + [itemDict.value];
      }
    }
    assert prefixes[..|prefixes|] == prefixes;
  }

  // ───────────────────────── document properties ─────────────────────────

  /** A table is kept for pass 2 exactly when its columns are detected, with those columns. */
  lemma CharacteristicsTablesMembers(tables: seq<Table>, pats: HeaderPatterns)
    ensures CharacteristicsTables(tables, pats) == [] <==> forall i | 0 <= i < |tables| :: DetectColumns(tables[i], pats).None?
    ensures forall j | 0 <= j < |CharacteristicsTables(tables, pats)| ::
      DetectColumns(CharacteristicsTables(tables, pats)[j].0, pats) == Some(CharacteristicsTables(tables, pats)[j].1)
  {
    PickMembers(tables, Detector(pats));
  }

  /** No result without a characteristics table or without a parsed row; otherwise one item per group,
      in the order of the sorted prefixes, each built from its own group. */
  lemma ParseRequirementsItems(tables: seq<Table>, pats: HeaderPatterns, normMap: map<string, string>)
    ensures var ct := CharacteristicsTables(tables, pats);
      ParseRequirements(tables, pats, normMap).None? <==> ct == [] || AllRows(ct, pats, normMap) == []
    ensures var r := ParseRequirements(tables, pats, normMap);
      r.Some? ==>
        var groups := GroupBy(AllRows(CharacteristicsTables(tables, pats), pats, normMap), GroupKey);
        var prefixes := SortBy(Keys(groups), PrefixOrder, IntLt);
        && |r.value| == |groups|
        && forall i | 0 <= i < |r.value| ::
             Some(r.value[i]) == BuildItem(prefixes[i], Get(groups, prefixes[i], []), MergedEquipment(tables, pats))
  {
    var ct := CharacteristicsTables(tables, pats);
    if ct != [] && AllRows(ct, pats, normMap) != [] {
      var rows := AllRows(ct, pats, normMap);
      var groups := GroupBy(rows, GroupKey);
      var prefixes := SortBy(Keys(groups), PrefixOrder, IntLt);
      PrefixGroupsNonEmpty(rows, groups, prefixes);
      ItemsOfAll(prefixes, groups, MergedEquipment(tables, pats));
    }
  }

  /** Every sorted prefix names a group that holds at least one row. */
  lemma PrefixGroupsNonEmpty(rows: seq<ParsedRow>, groups: Dict<string, seq<ParsedRow>>, prefixes: seq<string>)
    requires groups == GroupBy(rows, GroupKey) && prefixes == SortBy(Keys(groups), PrefixOrder, IntLt)
    ensures forall i | 0 <= i < |prefixes| :: Get(groups, prefixes[i], []) != []
  {
    forall i | 0 <= i < |prefixes| ensures Get(groups, prefixes[i], []) != [] {
      assert prefixes[i] in multiset(Keys(groups));
      var j :| 0 <= j < |groups| && Keys(groups)[j] == prefixes[i];
      GroupByEntries(rows, GroupKey, j);
      IndexOfAt(groups, j);
    }
  }

  /** When every prefix has a non-empty group, there is one item per prefix, in order. */
  lemma ItemsOfAll(prefixes: seq<string>, groups: Dict<string, seq<ParsedRow>>, equipment: Dict<string, nat>)
    requires forall i | 0 <= i < |prefixes| :: Get(groups, prefixes[i], []) != []
    ensures |ItemsOf(prefixes, groups, equipment)| == |prefixes|
    ensures forall i | 0 <= i < |prefixes| ::
      Some(ItemsOf(prefixes, groups, equipment)[i]) == BuildItem(prefixes[i], Get(groups, prefixes[i], []), equipment)
  {
    CollectAll(prefixes, ItemBuilder(groups, equipment));
  }

  /** The prefixes are in ascending order of their integer value, and prefixes with equal values
      keep the order in which their groups first appeared. */
  lemma PrefixesOrdered(groups: Dict<string, seq<ParsedRow>>, v: int)
    ensures SortedBy(SortBy(Keys(groups), PrefixOrder, IntLt), PrefixOrder, IntLt)
    ensures FilterKey(SortBy(Keys(groups), PrefixOrder, IntLt), PrefixOrder, v) == FilterKey(Keys(groups), PrefixOrder, v)
  {
    IntLtStrictTotal();
    SortBySorted(Keys(groups), PrefixOrder, IntLt);
    SortByStable(Keys(groups), PrefixOrder, IntLt, v);
  }
}
