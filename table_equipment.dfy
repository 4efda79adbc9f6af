/** The equipment-list table of a tender document: item names with their
    quantities, and the lookup of a characteristics item's quantity in it. */
module Equipment {
  import opened Strings
  import opened Dicts
  import opened TableColumns

  /** A first-row cell (lower-cased and stripped) that names the item column. */
  predicate IsNameHeader(cell: string) {
    Contains(cell, "наименование") || Contains(cell, "оборудование") || Contains(cell, "товар")
  }

  /** A first-row cell (lower-cased and stripped) that names the quantity column. */
  predicate IsQtyHeader(cell: string) {
    Contains(cell, "количество") || Contains(cell, "кол-во") || Contains(cell, "шт") || Contains(cell, "qty")
  }

  /** The first row as the header test sees it: each cell stripped and lower-cased. */
  function HeaderTexts(cells: seq<string>): (r: seq<string>)
    ensures |r| == |cells| && forall i | 0 <= i < |cells| :: r[i] == Lower(Strip(cells[i]))
  {
    seq(|cells|, i requires 0 <= i < |cells| => Lower(Strip(cells[i])))
  }

  /** A data row as the parser sees it: each cell stripped. */
  function StripCells(cells: seq<string>): (r: seq<string>)
    ensures |r| == |cells| && forall i | 0 <= i < |cells| :: r[i] == Strip(cells[i])
  {
    seq(|cells|, i requires 0 <= i < |cells| => Strip(cells[i]))
  }

  /** any(cells): some cell is not empty. */
  predicate AnyNonEmpty(cells: seq<string>) {
    exists i | 0 <= i < |cells| :: cells[i] != ""
  }

  /** The quantity of a data row: the first number of its quantity cell, else 1. */
  function RowQuantity(cells: seq<string>, qtyCol: Option<nat>): nat {
    if qtyCol.None? then 1
    else
      match FirstNumber(GetCell(cells, qtyCol))
      case None => 1
      case Some(n) => n
  }

  /** A data row enters the list when some cell is non-empty and its name cell is non-empty. */
  predicate Listed(row: seq<string>, nameCol: nat) {
    var cells := StripCells(row);
    AnyNonEmpty(cells) && GetCell(cells, Some(nameCol)) != ""
  }

  /** The key of a listed row: its lower-cased name. */
  function ListKey(row: seq<string>, nameCol: nat): string {
    Lower(GetCell(StripCells(row), Some(nameCol)))
  }

  function RowListed(nameCol: nat): seq<string> -> bool {
    (row: seq<string>) => Listed(row, nameCol)
  }

  function RowKey(nameCol: nat): seq<string> -> string {
    (row: seq<string>) => ListKey(row, nameCol)
  }

  function RowQty(qtyCol: Option<nat>): seq<string> -> nat {
    (row: seq<string>) => RowQuantity(StripCells(row), qtyCol)
  }

  /** The entries of the data rows, in row order; a later row with the same key overwrites the
      quantity and keeps the position. */
  function ListEntries(rows: seq<seq<string>>, nameCol: nat, qtyCol: Option<nat>): Dict<string, nat> {
    PutEach(rows, RowListed(nameCol), RowKey(nameCol), RowQty(qtyCol))
  }

  /** _extract_equipment_list: only a table of two or more rows whose first row has both a name
      and a quantity header; the name and quantity columns are the first such headers. */
  function EquipmentList(t: Table): Dict<string, nat> {
    if |t.rows| < 2 then []
    else
      var first := HeaderTexts(t.rows[0]);
      var nameCol := FirstWhere(first, IsNameHeader);
      var qtyCol := FirstWhere(first, IsQtyHeader);
      if nameCol.None? || qtyCol.None? then [] else ListEntries(t.rows[1..], nameCol.value, qtyCol)
  }

  /** _extract_equipment_list as the loops compute it. */
  method ExtractEquipmentList(t: Table) returns (result: Dict<string, nat>)
    ensures result == EquipmentList(t)
  {
    if |t.rows| < 2 {
      return [];
    }
    var firstRow := HeaderTexts(t.rows[0]);
    var nameCol, qtyCol := HeaderColumns(firstRow);
    // has_name and has_qty: some cell of the first row is such a header
    if nameCol.None? || qtyCol.None? {
      return [];
    }
    result := ListRows(t.rows[1..], nameCol.value, qtyCol);
  }

  /** The loop that finds the first name and the first quantity header. */
  method HeaderColumns(firstRow: seq<string>) returns (nameCol: Option<nat>, qtyCol: Option<nat>)
    ensures nameCol == FirstWhere(firstRow, IsNameHeader)
    ensures qtyCol == FirstWhere(firstRow, IsQtyHeader)
  {
    nameCol, qtyCol := None, None;
    for idx := 0 to |firstRow|
      invariant nameCol == FirstWhere(firstRow[..idx], IsNameHeader)
      invariant qtyCol == FirstWhere(firstRow[..idx], IsQtyHeader)
    {
      FirstWhereSnoc(firstRow, idx, IsNameHeader);
      FirstWhereSnoc(firstRow, idx, IsQtyHeader);
      var cell := firstRow[idx];
      if nameCol.None? && IsNameHeader(cell) {
        nameCol := Some(idx);
      }
      if qtyCol.None? && IsQtyHeader(cell) {
        qtyCol := Some(idx);
      }
    }
    assert firstRow[..|firstRow|] == firstRow;
  }

  /** The loop over the data rows. */
  method ListRows(dataRows: seq<seq<string>>, nameCol: nat, qtyCol: Option<nat>) returns (result: Dict<string, nat>)
    ensures result == ListEntries(dataRows, nameCol, qtyCol)
  {
    result := [];
    for r := 0 to |dataRows|
      invariant result == ListEntries(dataRows[..r], nameCol, qtyCol)
    {
      ListEntriesSnoc(dataRows, r, nameCol, qtyCol);
      var cells := StripCells(dataRows[r]);
      if !(exists i | 0 <= i < |cells| :: cells[i] != "") {
        continue;
      }
      var name := GetCell(cells, Some(nameCol));
      if name == "" {
        continue;
      }
      var qty := CellQuantity(cells, qtyCol);
      result := Put(result, Lower(name), qty);
    }
    assert dataRows[..|dataRows|] == dataRows;
  }

  /** The quantity of a row: 1 unless the quantity cell holds a number. */
  method CellQuantity(cells: seq<string>, qtyCol: Option<nat>) returns (qty: nat)
    ensures qty == RowQuantity(cells, qtyCol)
  {
    qty := 1;
    if qtyCol.Some? {
      var qtyStr := GetCell(cells, qtyCol);
      var digits := FirstNumber(qtyStr);
      if digits.Some? {
        qty := digits.value;
      }
    }
  }

  lemma ListEntriesSnoc(rows: seq<seq<string>>, r: nat, nameCol: nat, qtyCol: Option<nat>)
    requires r < |rows|
    ensures ListEntries(rows[..r + 1], nameCol, qtyCol) ==
      if Listed(rows[r], nameCol)
      then Put(ListEntries(rows[..r], nameCol, qtyCol), ListKey(rows[r], nameCol), RowQuantity(StripCells(rows[r]), qtyCol))
      else ListEntries(rows[..r], nameCol, qtyCol)
  {
    assert rows[..r + 1][..r] == rows[..r];
  }

  lemma FirstWhereSnoc<T>(xs: seq<T>, i: nat, q: T -> bool)
    requires i < |xs|
    ensures FirstWhere(xs[..i + 1], q) ==
      if FirstWhere(xs[..i], q).Some? then FirstWhere(xs[..i], q) else if q(xs[i]) then Some(i) else None
  {
    assert xs[..i + 1][..i] == xs[..i];
  }

  /** _match_quantity: the quantity of the first entry whose name contains the lower-cased, stripped
      item name or is contained in it. */
  function MatchQuantity(itemName: string, list: Dict<string, nat>): (r: Option<nat>)
    ensures r.None? <==> forall i | 0 <= i < |list| :: !NamesMatch(Lower(Strip(itemName)), list[i].0)
    ensures r.Some? ==> exists i | 0 <= i < |list| ::
      && NamesMatch(Lower(Strip(itemName)), list[i].0) && r.value == list[i].1
      && forall j | 0 <= j < i :: !NamesMatch(Lower(Strip(itemName)), list[j].0)
  {
    FirstMatch(Lower(Strip(itemName)), list)
  }

  /** Either name is a substring of the other. */
  predicate NamesMatch(name: string, listName: string) {
    Contains(listName, name) || Contains(name, listName)
  }

  /** The test of an entry against the item name. */
  function EntryMatches(name: string): ((string, nat)) -> bool {
    (e: (string, nat)) => NamesMatch(name, e.0)
  }

  function FirstMatch(name: string, entries: seq<(string, nat)>): (r: Option<nat>)
    ensures r.None? <==> forall i | 0 <= i < |entries| :: !NamesMatch(name, entries[i].0)
    ensures r.Some? ==> exists i | 0 <= i < |entries| ::
      && NamesMatch(name, entries[i].0) && r.value == entries[i].1
      && forall j | 0 <= j < i :: !NamesMatch(name, entries[j].0)
  {
    var i := FirstWhere(entries, EntryMatches(name));
    if i.None? then None else Some(entries[i.value].1)
  }

  // ───────────────────────── properties ─────────────────────────

  /** A non-empty list comes from a table of at least two rows with both headers in its first row. */
  lemma EquipmentListNeedsHeaders(t: Table)
    requires EquipmentList(t) != []
    ensures |t.rows| >= 2
    ensures exists i | 0 <= i < |t.rows[0]| :: IsNameHeader(Lower(Strip(t.rows[0][i])))
    ensures exists i | 0 <= i < |t.rows[0]| :: IsQtyHeader(Lower(Strip(t.rows[0][i])))
  {
    var first := HeaderTexts(t.rows[0]);
    var n := FirstWhere(first, IsNameHeader).value;
    var q := FirstWhere(first, IsQtyHeader).value;
    assert IsNameHeader(Lower(Strip(t.rows[0][n])));
    assert IsQtyHeader(Lower(Strip(t.rows[0][q])));
  }

  /** Every key of the list is the lower-cased name of a listed row, and every listed row's name is a key. */
  lemma ListEntriesKeys(rows: seq<seq<string>>, nameCol: nat, qtyCol: Option<nat>, k: string)
    ensures HasKey(ListEntries(rows, nameCol, qtyCol), k) <==>
      exists i | 0 <= i < |rows| :: Listed(rows[i], nameCol) && ListKey(rows[i], nameCol) == k
  {
    PutEachKeys(rows, RowListed(nameCol), RowKey(nameCol), RowQty(qtyCol), k);
  }

  /** The quantity under a key is that of the last listed row with that key: a later duplicate
      name overwrites an earlier one. */
  lemma ListEntriesLast(rows: seq<seq<string>>, nameCol: nat, qtyCol: Option<nat>, i: nat)
    requires i < |rows| && Listed(rows[i], nameCol)
    requires forall j | i < j < |rows| :: !(Listed(rows[j], nameCol) && ListKey(rows[j], nameCol) == ListKey(rows[i], nameCol))
    ensures Get(ListEntries(rows, nameCol, qtyCol), ListKey(rows[i], nameCol), 0) == RowQuantity(StripCells(rows[i]), qtyCol)
  {
    PutEachLast(rows, RowListed(nameCol), RowKey(nameCol), RowQty(qtyCol), i, 0);
  }

  /** A quantity cell without a digit gives the default quantity 1. */
  lemma RowQuantityDefault(cells: seq<string>, qtyCol: Option<nat>)
    requires forall i | 0 <= i < |GetCell(cells, qtyCol)| :: !IsDigit(GetCell(cells, qtyCol)[i])
    ensures RowQuantity(cells, qtyCol) == 1
  {
  }

  /** An empty item name is a substring of every entry name, so it takes the first entry's quantity. */
  lemma MatchQuantityEmptyName(itemName: string, list: Dict<string, nat>)
    requires Strip(itemName) == ""
    ensures MatchQuantity(itemName, list) == if list == [] then None else Some(list[0].1)
  {
    if list != [] {
      ContainsEmpty(list[0].0);
    }
  }
}
