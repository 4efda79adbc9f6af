/** The data rows of a characteristics table: merged-cell carry-forward of
    the item name and number, sub-header and empty rows dropped, the
    characteristic name mapped to a canonical key and the value parsed. */
module TableRows {
  import opened Strings
  import opened Values
  import opened TableColumns
  import opened Equipment
  import ValueParser

  /** One parsed requirement row. */
  datatype ParsedRow = ParsedRow(
    itemName: string,
    itemNumber: string,
    characteristicName: string,
    canonicalKey: string,
    value: string,
    unit: string,
    parsedValue: Value)

  // ───────────────────────── canonical keys ─────────────────────────

  /** normalize_characteristic_name: the map from lower-cased variants to canonical keys, looked up
      with the lower-cased, stripped name. */
  function NormalizeCharacteristicName(normMap: map<string, string>, name: string): (r: Option<string>)
    ensures r.Some? <==> Lower(Strip(name)) in normMap
    ensures r.Some? ==> r.value == normMap[Lower(Strip(name))]
  {
    var cleanName := Lower(Strip(name));
    if cleanName in normMap then Some(normMap[cleanName]) else None
  }

  /** The snake_case fallback key: lower-case and strip, collapse non-word runs to "_", strip "_". */
  function SnakeCase(name: string): (r: string)
    ensures AllWord(r) && AllLower(r)
    ensures r == [] || (r[0] != '_' && r[|r| - 1] != '_')
  {
    var c := CollapseNonWord(Lower(Strip(name)));
    LowerLower(Strip(name));
    CollapseLower(Lower(Strip(name)));
    StripUnderscoresSlice(c);
    StripUnderscores(c)
  }

  /** The fallback key is already in snake_case form, so applying it again changes nothing. */
  lemma SnakeCaseIdempotent(name: string)
    ensures SnakeCase(SnakeCase(name)) == SnakeCase(name)
  {
    var r := SnakeCase(name);
    StripWord(r);
    LowerOfLower(r);
    CollapseWord(r);
    StripUnderscoresFixed(r);
  }

  /** The canonical key of a row: the mapped key when the map has a non-empty one, else snake_case. */
  function CanonicalKey(normMap: map<string, string>, charName: string): (k: string)
    ensures Lower(Strip(charName)) in normMap && normMap[Lower(Strip(charName))] != "" ==>
      k == normMap[Lower(Strip(charName))]
    ensures !(Lower(Strip(charName)) in normMap && normMap[Lower(Strip(charName))] != "") ==> k == SnakeCase(charName)
  {
    var canonical := NormalizeCharacteristicName(normMap, charName);
    if canonical.Some? && canonical.value != "" then canonical.value else SnakeCase(charName)
  }

  // ───────────────────────── rows ─────────────────────────

  /** The last non-empty f(x) over the elements so far; "" when there is none. */
  function LastNonEmpty<T>(xs: seq<T>, f: T -> string): string {
    if xs == [] then ""
    else if f(xs[|xs| - 1]) != "" then f(xs[|xs| - 1])
    else LastNonEmpty(xs[..|xs| - 1], f)
  }

  /** The stripped cell of a column in a row. */
  function CellOf(col: Option<nat>): seq<string> -> string {
    (row: seq<string>) => GetCell(StripCells(row), col)
  }

  /** The last non-empty cell of a column over the rows so far (the merged-cell carry). */
  function Carried(rows: seq<seq<string>>, col: Option<nat>): string {
    LastNonEmpty(rows, CellOf(col))
  }

  /** A data row is kept when it has a non-empty cell and a characteristic name that is not a sub-header. */
  predicate Kept(row: seq<string>, cm: ColumnMap, pats: HeaderPatterns) {
    var cells := StripCells(row);
    var charName := GetCell(cells, cm.charName);
    AnyNonEmpty(cells) && charName != "" && !MatchAny(charName, pats.charName)
  }

  /** The record of a kept row, given the carried item name and number. */
  function RowRecord(row: seq<string>, cm: ColumnMap, normMap: map<string, string>, itemName: string, itemNumber: string): ParsedRow {
    var cells := StripCells(row);
    var charName := GetCell(cells, cm.charName);
    var value := GetCell(cells, cm.value);
    ParsedRow(itemName, itemNumber, charName, CanonicalKey(normMap, charName), value, GetCell(cells, cm.unit),
              ValueParser.ParseValue(value))
  }

  /** out(prefix, x) for each kept x, where prefix runs up to and including x, in order. */
  function Emit<T, R>(xs: seq<T>, keep: T -> bool, out: (seq<T>, T) -> R): seq<R> {
    if xs == [] then []
    else Emit(xs[..|xs| - 1], keep, out) + (if keep(xs[|xs| - 1]) then [out(xs, xs[|xs| - 1])] else [])
  }

  function KeepRow(cm: ColumnMap, pats: HeaderPatterns): seq<string> -> bool {
    (row: seq<string>) => Kept(row, cm, pats)
  }

  function RecordOf(cm: ColumnMap, normMap: map<string, string>): (seq<seq<string>>, seq<string>) -> ParsedRow {
    (prefix: seq<seq<string>>, row: seq<string>) =>
      RowRecord(row, cm, normMap, Carried(prefix, cm.itemName), Carried(prefix, cm.itemNumber))
  }

  /** The parsed rows of the data rows, in order. */
  function ParseRows(rows: seq<seq<string>>, cm: ColumnMap, pats: HeaderPatterns, normMap: map<string, string>): seq<ParsedRow> {
    Emit(rows, KeepRow(cm, pats), RecordOf(cm, normMap))
  }

  /** The rows after the header rows (none when the header covers the table). */
  function DataRows(t: Table, cm: ColumnMap): seq<seq<string>> {
    if cm.headerRows <= |t.rows| then t.rows[cm.headerRows..] else []
  }

  /** _parse_table_rows: the loop over the data rows, carrying the last item name and number. */
  method ParseTableRows(t: Table, cm: ColumnMap, pats: HeaderPatterns, normMap: map<string, string>)
    returns (parsedRows: seq<ParsedRow>)
    ensures parsedRows == ParseRows(DataRows(t, cm), cm, pats, normMap)
  {
    var data := DataRows(t, cm);
    parsedRows := [];
    var lastItemName, lastItemNumber := "", "";
    for i := 0 to |data|
      invariant parsedRows == ParseRows(data[..i], cm, pats, normMap)
      invariant lastItemName == Carried(data[..i], cm.itemName)
      invariant lastItemNumber == Carried(data[..i], cm.itemNumber)
    {
      RowStep(data, i, cm, pats, normMap);
      var parsed;
      parsed, lastItemName, lastItemNumber := ParseRow(data[i], cm, pats, normMap, lastItemName, lastItemNumber);
      if parsed.Some? {
        parsedRows := parsedRows + [parsed.value];
      }
    }
    assert data[..|data|] == data;
  }

  /** The body of the row loop: the record of a kept row, and the carried item name and number. */
  method ParseRow(row: seq<string>, cm: ColumnMap, pats: HeaderPatterns, normMap: map<string, string>,
                  lastItemName: string, lastItemNumber: string)
    returns (parsed: Option<ParsedRow>, newItemName: string, newItemNumber: string)
    ensures var cells := StripCells(row);
      && newItemName == (if GetCell(cells, cm.itemName) != "" then GetCell(cells, cm.itemName) else lastItemName)
      && newItemNumber == (if GetCell(cells, cm.itemNumber) != "" then GetCell(cells, cm.itemNumber) else lastItemNumber)
    ensures parsed == if Kept(row, cm, pats) then Some(RowRecord(row, cm, normMap, newItemName, newItemNumber)) else None
  {
    newItemName, newItemNumber := lastItemName, lastItemNumber;
    var cells := StripCells(row);
    if !(exists j | 0 <= j < |cells| :: cells[j] != "") {
      EmptyRowCells(cells, cm.itemName);
      EmptyRowCells(cells, cm.itemNumber);
      return None, newItemName, newItemNumber;
    }
    var itemName := GetCell(cells, cm.itemName);
    if itemName == "" {
      itemName := lastItemName;
    }
    var itemNumber := GetCell(cells, cm.itemNumber);
    if itemNumber == "" {
      itemNumber := lastItemNumber;
    }
    var charName := GetCell(cells, cm.charName);
    var value := GetCell(cells, cm.value);
    var unit := GetCell(cells, cm.unit);
    if GetCell(cells, cm.itemName) != "" {
      newItemName := itemName;
    }
    if GetCell(cells, cm.itemNumber) != "" {
      newItemNumber := itemNumber;
    }
    if charName == "" {
      return None, newItemName, newItemNumber;
    }
    if MatchAny(charName, pats.charName) {
      return None, newItemName, newItemNumber;
    }
    var canonicalKey := NormalizeCharacteristicName(normMap, charName);
    var key := if canonicalKey.Some? && canonicalKey.value != "" then canonicalKey.value else SnakeCase(charName);
    var parsedValue := ValueParser.ParseValue(value);
    parsed := Some(ParsedRow(itemName, itemNumber, charName, key, value, unit, parsedValue));
  }

  /** Every cell of an all-empty row is empty. */
  lemma EmptyRowCells(cells: seq<string>, col: Option<nat>)
    requires !AnyNonEmpty(cells)
    ensures GetCell(cells, col) == ""
  {
  }

  /** One data row: how the parsed rows and the carried cells grow. */
  lemma RowStep(data: seq<seq<string>>, i: nat, cm: ColumnMap, pats: HeaderPatterns, normMap: map<string, string>)
    requires i < |data|
    ensures var rows := data[..i + 1];
      && rows[..i] == data[..i] && rows[i] == data[i]
      && Carried(rows, cm.itemName) ==
         (if GetCell(StripCells(data[i]), cm.itemName) != "" then GetCell(StripCells(data[i]), cm.itemName)
          else Carried(data[..i], cm.itemName))
      && Carried(rows, cm.itemNumber) ==
         (if GetCell(StripCells(data[i]), cm.itemNumber) != "" then GetCell(StripCells(data[i]), cm.itemNumber)
          else Carried(data[..i], cm.itemNumber))
      && ParseRows(rows, cm, pats, normMap) ==
         (if Kept(data[i], cm, pats)
          then ParseRows(data[..i], cm, pats, normMap)
               + [RowRecord(data[i], cm, normMap, Carried(rows, cm.itemName), Carried(rows, cm.itemNumber))]
          else ParseRows(data[..i], cm, pats, normMap))
  {
    assert data[..i + 1][..i] == data[..i];
  }

  // ───────────────────────── properties ─────────────────────────

  /** The last non-empty value is that of some element after which every value is empty; it is ""
      exactly when every value is empty. */
  lemma {:induction false} LastNonEmptyIsLast<T>(xs: seq<T>, f: T -> string)
    ensures LastNonEmpty(xs, f) == "" <==> forall i | 0 <= i < |xs| :: f(xs[i]) == ""
    ensures LastNonEmpty(xs, f) != "" ==> exists i | 0 <= i < |xs| ::
      f(xs[i]) == LastNonEmpty(xs, f) && forall j | i < j < |xs| :: f(xs[j]) == ""
  {
    if xs != [] {
      var init := xs[..|xs| - 1];
      LastNonEmptyIsLast(init, f);
      assert forall i | 0 <= i < |init| :: init[i] == xs[i];
      if f(xs[|xs| - 1]) == "" && LastNonEmpty(init, f) != "" {
        var i :| 0 <= i < |init| && f(init[i]) == LastNonEmpty(init, f) && forall j | i < j < |init| :: f(init[j]) == "";
        assert f(xs[i]) == LastNonEmpty(xs, f);
      }
    }
  }

  /** The carried cell is the last non-empty cell of the column, or "" when every such cell is empty. */
  lemma CarriedIsLast(rows: seq<seq<string>>, col: Option<nat>)
    ensures Carried(rows, col) == "" <==> forall i | 0 <= i < |rows| :: GetCell(StripCells(rows[i]), col) == ""
    ensures Carried(rows, col) != "" ==> exists i | 0 <= i < |rows| ::
      && GetCell(StripCells(rows[i]), col) == Carried(rows, col)
      && forall j | i < j < |rows| :: GetCell(StripCells(rows[j]), col) == ""
  {
    LastNonEmptyIsLast(rows, CellOf(col));
  }

  /** Every output comes from a kept element, in order, given the prefix up to that element. */
  lemma {:induction false} EmitSource<T, R>(xs: seq<T>, keep: T -> bool, out: (seq<T>, T) -> R, j: nat)
    requires j < |Emit(xs, keep, out)|
    ensures exists i | 0 <= i < |xs| :: keep(xs[i]) && Emit(xs, keep, out)[j] == out(xs[..i + 1], xs[i])
  {
    var init := xs[..|xs| - 1];
    var p := Emit(init, keep, out);
    if j < |p| {
      EmitSource(init, keep, out, j);
      var i :| 0 <= i < |init| && keep(init[i]) && p[j] == out(init[..i + 1], init[i]);
      assert init[..i + 1] == xs[..i + 1];
    } else {
      assert xs[..|xs|] == xs;
    }
  }

  lemma {:induction false} EmitLength<T, R>(xs: seq<T>, keep: T -> bool, out: (seq<T>, T) -> R)
    ensures |Emit(xs, keep, out)| <= |xs|
  {
    if xs != [] {
      EmitLength(xs[..|xs| - 1], keep, out);
    }
  }

  /** Every parsed row comes from a kept data row, in order, with the item name and number carried
      up to and including that row; there are never more parsed rows than data rows. */
  lemma ParseRowsSource(rows: seq<seq<string>>, cm: ColumnMap, pats: HeaderPatterns, normMap: map<string, string>, j: nat)
    requires j < |ParseRows(rows, cm, pats, normMap)|
    ensures |ParseRows(rows, cm, pats, normMap)| <= |rows|
    ensures exists i | 0 <= i < |rows| ::
      && Kept(rows[i], cm, pats)
      && ParseRows(rows, cm, pats, normMap)[j]
         == RowRecord(rows[i], cm, normMap, Carried(rows[..i + 1], cm.itemName), Carried(rows[..i + 1], cm.itemNumber))
  {
    EmitLength(rows, KeepRow(cm, pats), RecordOf(cm, normMap));
    EmitSource(rows, KeepRow(cm, pats), RecordOf(cm, normMap), j);
  }

  /** Every parsed row has a characteristic name that is not empty and is not a sub-header. */
  lemma ParsedNamesKept(rows: seq<seq<string>>, cm: ColumnMap, pats: HeaderPatterns, normMap: map<string, string>, j: nat)
    requires j < |ParseRows(rows, cm, pats, normMap)|
    ensures var r := ParseRows(rows, cm, pats, normMap)[j];
      r.characteristicName != "" && !MatchAny(r.characteristicName, pats.charName)
  {
    ParseRowsSource(rows, cm, pats, normMap, j);
  }

  /** The item name carries over a row that is itself dropped for an empty characteristic name. */
  lemma CarryThroughDroppedRow(dropped: seq<string>, kept: seq<string>, cm: ColumnMap, pats: HeaderPatterns,
                               normMap: map<string, string>)
    requires !Kept(dropped, cm, pats) && GetCell(StripCells(dropped), cm.itemName) != ""
    requires Kept(kept, cm, pats) && GetCell(StripCells(kept), cm.itemName) == ""
    ensures |ParseRows([dropped, kept], cm, pats, normMap)| == 1
    ensures ParseRows([dropped, kept], cm, pats, normMap)[0].itemName == GetCell(StripCells(dropped), cm.itemName)
  {
    var keep, out, cell := KeepRow(cm, pats), RecordOf(cm, normMap), CellOf(cm.itemName);
    assert !keep(dropped) && keep(kept);
    assert cell(kept) == "";
    EmitPair(dropped, kept, keep, out);
    LastPair(dropped, kept, cell);
    RecordItemName(cm, normMap, [dropped, kept], kept);
  }

  lemma RecordItemName(cm: ColumnMap, normMap: map<string, string>, prefix: seq<seq<string>>, row: seq<string>)
    ensures RecordOf(cm, normMap)(prefix, row).itemName == Carried(prefix, cm.itemName)
  {
  }

  lemma EmitPair<T, R>(a: T, b: T, keep: T -> bool, out: (seq<T>, T) -> R)
    requires !keep(a) && keep(b)
    ensures Emit([a, b], keep, out) == [out([a, b], b)]
  {
    assert [a, b][..1] == [a];
    assert [a][..0] == [];
    assert Emit([a], keep, out) == Emit([], keep, out) + [];
    assert Emit([a, b], keep, out) == Emit([a], keep, out) + [out([a, b], b)];
  }

  lemma LastPair<T>(a: T, b: T, f: T -> string)
    requires f(b) == ""
    ensures LastNonEmpty([a, b], f) == f(a)
  {
    assert [a, b][..1] == [a];
    assert [a][..0] == [];
    assert LastNonEmpty([a, b], f) == LastNonEmpty([a], f);
    assert LastNonEmpty([a], f) == if f(a) != "" then f(a) else LastNonEmpty([], f);
  }
}
