/** Column detection for a characteristics table: which column holds the
    item name, the item number, the characteristic name, the value and the
    unit, found by header patterns in the first (at most three) rows. */
module TableColumns {
  import opened Strings

  /** A table as the document shows it: the text of every cell, row by row,
      and the number of columns of its grid. */
  datatype Table = Table(rows: seq<seq<string>>, columnCount: nat)

  /** The five header pattern lists; each is a test on lower-cased, stripped header text
      (whether any of the list's regular expressions is found in it). */
  datatype HeaderPatterns = HeaderPatterns(
    itemName: string -> bool,
    itemNumber: string -> bool,
    charName: string -> bool,
    value: string -> bool,
    unit: string -> bool)

  /** The detected columns and the number of header rows to skip. */
  datatype ColumnMap = ColumnMap(
    itemName: Option<nat>,
    itemNumber: Option<nat>,
    charName: Option<nat>,
    value: Option<nat>,
    unit: Option<nat>,
    headerRows: nat)

  /** How many rows are searched for headers. */
  const HeaderScanRows: nat := 3

  /** _match_any_pattern: the patterns are tried on the lower-cased, stripped text. */
  predicate MatchAny(text: string, patterns: string -> bool) {
    patterns(Lower(Strip(text)))
  }

  /** _get_cell: the cell at `idx`, or "" when there is no index or the row is too short. */
  function GetCell(cells: seq<string>, idx: Option<nat>): (r: string)
    ensures idx.Some? && idx.value < |cells| ==> r == cells[idx.value]
    ensures idx.None? || idx.value >= |cells| ==> r == ""
  {
    if idx.None? || idx.value >= |cells| then "" else cells[idx.value]
  }

  // ───────────────────────── the first header of a role ─────────────────────────

  /** A cell is taken as a header of a role when its stripped text is not empty and matches. */
  predicate Claims(cell: string, p: string -> bool) {
    Strip(cell) != "" && MatchAny(Strip(cell), p)
  }

  /** The test of one role on a header cell. */
  function Claimer(p: string -> bool): string -> bool {
    (cell: string) => Claims(cell, p)
  }

  /** The first element that passes the test. */
  function FirstWhere<T>(xs: seq<T>, q: T -> bool): (c: Option<nat>)
    ensures c.Some? ==> c.value < |xs| && q(xs[c.value])
    ensures c.Some? ==> forall j | 0 <= j < c.value :: !q(xs[j])
    ensures c.None? ==> forall j | 0 <= j < |xs| :: !q(xs[j])
  {
    if xs == [] then None
    else
      match FirstWhere(xs[..|xs| - 1], q)
      case Some(c) => Some(c)
      case None => if q(xs[|xs| - 1]) then Some(|xs| - 1) else None
  }

  /** The first element, in row-major order, that passes the test: its row and its column. */
  function FirstHit<T>(rows: seq<seq<T>>, q: T -> bool): (h: Option<(nat, nat)>)
    ensures h.Some? ==> h.value.0 < |rows| && FirstWhere(rows[h.value.0], q) == Some(h.value.1)
    ensures h.Some? ==> forall r | 0 <= r < h.value.0 :: FirstWhere(rows[r], q).None?
    ensures h.None? ==> forall r | 0 <= r < |rows| :: FirstWhere(rows[r], q).None?
  {
    if rows == [] then None
    else
      match FirstHit(rows[..|rows| - 1], q)
      case Some(h) => Some(h)
      case None =>
        match FirstWhere(rows[|rows| - 1], q)
        case Some(c) => Some((|rows| - 1, c))
        case None => None
  }

  function Col(h: Option<(nat, nat)>): Option<nat> {
    if h.Some? then Some(h.value.1) else None
  }

  /** One more than the row of a hit; 0 without a hit. */
  function RowEnd(h: Option<(nat, nat)>): nat {
    if h.Some? then h.value.0 + 1 else 0
  }

  function Max(a: nat, b: nat): nat {
    if a < b then b else a
  }

  /** The hits of the five roles. */
  datatype Hits = Hits(
    itemName: Option<(nat, nat)>,
    itemNumber: Option<(nat, nat)>,
    charName: Option<(nat, nat)>,
    value: Option<(nat, nat)>,
    unit: Option<(nat, nat)>)

  function HitsOf(rows: seq<seq<string>>, pats: HeaderPatterns): Hits {
    Hits(FirstHit(rows, Claimer(pats.itemName)), FirstHit(rows, Claimer(pats.itemNumber)),
         FirstHit(rows, Claimer(pats.charName)), FirstHit(rows, Claimer(pats.value)), FirstHit(rows, Claimer(pats.unit)))
  }

  /** header_rows: at least 1, and past the last row that supplied a header. */
  function HeaderRowsOf(h: Hits): (n: nat)
    ensures n >= 1
    ensures n >= RowEnd(h.itemName) && n >= RowEnd(h.itemNumber) && n >= RowEnd(h.charName)
    ensures n >= RowEnd(h.value) && n >= RowEnd(h.unit)
    ensures n == 1 || n == RowEnd(h.itemName) || n == RowEnd(h.itemNumber) || n == RowEnd(h.charName)
                   || n == RowEnd(h.value) || n == RowEnd(h.unit)
  {
    Max(Max(Max(Max(Max(1, RowEnd(h.itemName)), RowEnd(h.itemNumber)), RowEnd(h.charName)), RowEnd(h.value)),
        RowEnd(h.unit))
  }

  /** The rows searched for headers: the first three, or all when there are fewer. */
  function HeaderArea(t: Table): (rows: seq<seq<string>>)
    ensures |rows| <= HeaderScanRows && rows <= t.rows
  {
    if |t.rows| < HeaderScanRows then t.rows else t.rows[..HeaderScanRows]
  }

  /** _detect_characteristics_columns: the columns of the first header of each role in the header
      area, with the value-column fallback applied. */
  function DetectColumns(t: Table, pats: HeaderPatterns): Option<ColumnMap> {
    Finish(StateOf(HitsOf(HeaderArea(t), pats)), t.columnCount)
  }

  /** No column map without a characteristic-name column; a missing value column falls back to the
      column after the characteristic name when the grid has it. */
  function Finish(cm: ColumnMap, columnCount: nat): (r: Option<ColumnMap>)
    ensures r.None? <==> cm.charName.None?
    ensures r.Some? ==> r.value.(value := cm.value) == cm
    ensures r.Some? && cm.value.None? ==>
      r.value.value == if cm.charName.value + 1 < columnCount then Some(cm.charName.value + 1) else None
    ensures r.Some? && cm.value.Some? ==> r.value.value == cm.value
  {
    if cm.charName.None? then None
    else if cm.value.None? && cm.charName.value + 1 < columnCount then Some(cm.(value := Some(cm.charName.value + 1)))
    else Some(cm)
  }

  /** _is_characteristics_table: at least two rows, and the columns are detected. */
  predicate IsCharacteristicsTable(t: Table, pats: HeaderPatterns) {
    |t.rows| >= 2 && DetectColumns(t, pats).Some?
  }

  // ───────────────────────── the scan ─────────────────────────

  /** The scan's state after the hits so far: the columns found and the header rows. */
  function StateOf(h: Hits): ColumnMap {
    ColumnMap(Col(h.itemName), Col(h.itemNumber), Col(h.charName), Col(h.value), Col(h.unit), HeaderRowsOf(h))
  }

  /** The column of a role after one more cell: the first matching cell sets it. */
  function Take(col: Option<nat>, hit: bool, colIdx: nat): Option<nat> {
    if col.None? && hit then Some(colIdx) else col
  }

  /** Some role took the cell. */
  predicate AnyTaken(cm: ColumnMap, cm': ColumnMap) {
    cm'.itemName != cm.itemName || cm'.itemNumber != cm.itemNumber || cm'.charName != cm.charName
    || cm'.value != cm.value || cm'.unit != cm.unit
  }

  /** The five role tests on one non-empty header cell. */
  method ScanCell(cm: ColumnMap, rowIdx: nat, colIdx: nat, cellText: string, pats: HeaderPatterns) returns (cm': ColumnMap)
    ensures cm'.itemName == Take(cm.itemName, MatchAny(cellText, pats.itemName), colIdx)
    ensures cm'.itemNumber == Take(cm.itemNumber, MatchAny(cellText, pats.itemNumber), colIdx)
    ensures cm'.charName == Take(cm.charName, MatchAny(cellText, pats.charName), colIdx)
    ensures cm'.value == Take(cm.value, MatchAny(cellText, pats.value), colIdx)
    ensures cm'.unit == Take(cm.unit, MatchAny(cellText, pats.unit), colIdx)
    ensures cm'.headerRows == if AnyTaken(cm, cm') then Max(cm.headerRows, rowIdx + 1) else cm.headerRows
  {
    cm' := cm;
    if cm'.itemName.None? && MatchAny(cellText, pats.itemName) {
      cm' := cm'.(itemName := Some(colIdx), headerRows := Max(cm'.headerRows, rowIdx + 1));
    }
    if cm'.itemNumber.None? && MatchAny(cellText, pats.itemNumber) {
      cm' := cm'.(itemNumber := Some(colIdx), headerRows := Max(cm'.headerRows, rowIdx + 1));
    }
    if cm'.charName.None? && MatchAny(cellText, pats.charName) {
      cm' := cm'.(charName := Some(colIdx), headerRows := Max(cm'.headerRows, rowIdx + 1));
    }
    if cm'.value.None? && MatchAny(cellText, pats.value) {
      cm' := cm'.(value := Some(colIdx), headerRows := Max(cm'.headerRows, rowIdx + 1));
    }
    if cm'.unit.None? && MatchAny(cellText, pats.unit) {
      cm' := cm'.(unit := Some(colIdx), headerRows := Max(cm'.headerRows, rowIdx + 1));
    }
  }

  /** The inner loop over the cells of one header row. */
  method ScanRow(cm: ColumnMap, rows: seq<seq<string>>, row: seq<string>, pats: HeaderPatterns) returns (cm': ColumnMap)
    requires cm == StateOf(HitsOf(rows, pats))
    ensures cm' == StateOf(HitsOf(rows + [row], pats))
  {
    cm' := cm;
    HitsOfEmptyRow(rows, pats);
    assert row[..0] == [];
    for colIdx := 0 to |row|
      invariant cm' == StateOf(HitsOf(rows + [row[..colIdx]], pats))
    {
      var cellText := Strip(row[colIdx]);
      ghost var before := cm';
      if cellText != "" {
        cm' := ScanCell(cm', |rows|, colIdx, cellText, pats);
      }
      CellStep(rows, row, colIdx, pats, before, cm');
    }
    assert row[..|row|] == row;
  }

  /** _detect_characteristics_columns: the scan over the header rows, then the value-column fallback. */
  method DetectCharacteristicsColumns(t: Table, pats: HeaderPatterns) returns (r: Option<ColumnMap>)
    ensures r == DetectColumns(t, pats)
  {
    var cm := ColumnMap(None, None, None, None, None, 1);
    var area := HeaderArea(t);
    for rowIdx := 0 to |area|
      invariant cm == StateOf(HitsOf(area[..rowIdx], pats))
    {
      cm := ScanRow(cm, area[..rowIdx], area[rowIdx], pats);
      PrefixSnoc(area, rowIdx);
    }
    assert area[..|area|] == area;
    assert DetectColumns(t, pats) == Finish(cm, t.columnCount);
    if cm.charName.None? || cm.value.None? {
      if cm.charName.Some? && cm.value.None? {
        var fallbackValue := cm.charName.value + 1;
        if fallbackValue < t.columnCount {
          cm := cm.(value := Some(fallbackValue));
        }
      } else {
        return None;
      }
    }
    r := Some(cm);
  }

  lemma PrefixSnoc<T>(xs: seq<T>, i: nat)
    requires i < |xs|
    ensures xs[..i] + [xs[i]] == xs[..i + 1]
  {
  }

  // ───────────────────────── step lemmas ─────────────────────────

  /** One cell of the scan: the state the five role tests leave is the state of the hits after the cell. */
  lemma CellStep(rows: seq<seq<string>>, row: seq<string>, c: nat, pats: HeaderPatterns, cm: ColumnMap, cm': ColumnMap)
    requires c < |row|
    requires cm == StateOf(HitsOf(rows + [row[..c]], pats))
    requires Strip(row[c]) == "" ==> cm' == cm
    requires Strip(row[c]) != "" ==>
      var cellText := Strip(row[c]);
      && cm'.itemName == Take(cm.itemName, MatchAny(cellText, pats.itemName), c)
      && cm'.itemNumber == Take(cm.itemNumber, MatchAny(cellText, pats.itemNumber), c)
      && cm'.charName == Take(cm.charName, MatchAny(cellText, pats.charName), c)
      && cm'.value == Take(cm.value, MatchAny(cellText, pats.value), c)
      && cm'.unit == Take(cm.unit, MatchAny(cellText, pats.unit), c)
      && cm'.headerRows == if AnyTaken(cm, cm') then Max(cm.headerRows, |rows| + 1) else cm.headerRows
    ensures cm' == StateOf(HitsOf(rows + [row[..c + 1]], pats))
  {
    HitsStep(rows, row, c, pats);
    HitsBounded(rows + [row[..c]], pats);
    StateStep(HitsOf(rows + [row[..c]], pats), HitsOf(rows + [row[..c + 1]], pats), |rows|, c, row[c], pats, cm, cm');
  }

  /** The same step on the hits alone: the role tests applied to the state give the state of the new hits. */
  lemma StateStep(before: Hits, after: Hits, r: nat, c: nat, cell: string, pats: HeaderPatterns, cm: ColumnMap, cm': ColumnMap)
    requires cm == StateOf(before)
    requires RowEnd(before.itemName) <= r + 1 && RowEnd(before.itemNumber) <= r + 1 && RowEnd(before.charName) <= r + 1
    requires RowEnd(before.value) <= r + 1 && RowEnd(before.unit) <= r + 1
    requires after.itemName == (if before.itemName.None? && Claims(cell, pats.itemName) then Some((r, c)) else before.itemName)
    requires after.itemNumber == (if before.itemNumber.None? && Claims(cell, pats.itemNumber) then Some((r, c)) else before.itemNumber)
    requires after.charName == (if before.charName.None? && Claims(cell, pats.charName) then Some((r, c)) else before.charName)
    requires after.value == (if before.value.None? && Claims(cell, pats.value) then Some((r, c)) else before.value)
    requires after.unit == (if before.unit.None? && Claims(cell, pats.unit) then Some((r, c)) else before.unit)
    requires Strip(cell) == "" ==> cm' == cm
    requires Strip(cell) != "" ==>
      var cellText := Strip(cell);
      && cm'.itemName == Take(cm.itemName, MatchAny(cellText, pats.itemName), c)
      && cm'.itemNumber == Take(cm.itemNumber, MatchAny(cellText, pats.itemNumber), c)
      && cm'.charName == Take(cm.charName, MatchAny(cellText, pats.charName), c)
      && cm'.value == Take(cm.value, MatchAny(cellText, pats.value), c)
      && cm'.unit == Take(cm.unit, MatchAny(cellText, pats.unit), c)
      && cm'.headerRows == if AnyTaken(cm, cm') then Max(cm.headerRows, r + 1) else cm.headerRows
    ensures cm' == StateOf(after)
  {
    HeaderRowsGrow(before, after, r + 1);
  }

  /** Every hit lies in the rows scanned. */
  lemma HitsBounded(rows: seq<seq<string>>, pats: HeaderPatterns)
    ensures var h := HitsOf(rows, pats);
      && RowEnd(h.itemName) <= |rows| && RowEnd(h.itemNumber) <= |rows| && RowEnd(h.charName) <= |rows|
      && RowEnd(h.value) <= |rows| && RowEnd(h.unit) <= |rows|
  {
  }

  /** Roles that newly hit in row k - 1 raise the header rows to at least k. */
  lemma HeaderRowsGrow(b: Hits, a: Hits, k: nat)
    requires Grows(b.itemName, a.itemName, k) && Grows(b.itemNumber, a.itemNumber, k) && Grows(b.charName, a.charName, k)
    requires Grows(b.value, a.value, k) && Grows(b.unit, a.unit, k)
    ensures HeaderRowsOf(a) == if a != b then Max(HeaderRowsOf(b), k) else HeaderRowsOf(b)
  {
    var b1, a1 := Max(1, RowEnd(b.itemName)), Max(1, RowEnd(a.itemName));
    MaxStep(1, 1, RowEnd(b.itemName), RowEnd(a.itemName), k, false);
    var c1 := a.itemName != b.itemName;
    MaxStep(b1, a1, RowEnd(b.itemNumber), RowEnd(a.itemNumber), k, c1);
    var b2, a2 := Max(b1, RowEnd(b.itemNumber)), Max(a1, RowEnd(a.itemNumber));
    var c2 := c1 || a.itemNumber != b.itemNumber;
    MaxStep(b2, a2, RowEnd(b.charName), RowEnd(a.charName), k, c2);
    var b3, a3 := Max(b2, RowEnd(b.charName)), Max(a2, RowEnd(a.charName));
    var c3 := c2 || a.charName != b.charName;
    MaxStep(b3, a3, RowEnd(b.value), RowEnd(a.value), k, c3);
    var b4, a4 := Max(b3, RowEnd(b.value)), Max(a3, RowEnd(a.value));
    var c4 := c3 || a.value != b.value;
    MaxStep(b4, a4, RowEnd(b.unit), RowEnd(a.unit), k, c4);
    assert a != b <==> c4 || a.unit != b.unit;
  }

  /** One more role in the maximum: a role that newly hit in row k - 1 brings k into it. */
  lemma MaxStep(m: nat, m': nat, e: nat, e': nat, k: nat, changed: bool)
    requires m' == if changed then Max(m, k) else m
    requires e' == e || (e == 0 && e' == k)
    ensures Max(m', e') == if changed || e' != e then Max(Max(m, e), k) else Max(m, e)
  {
  }

  predicate Grows(b: Option<(nat, nat)>, a: Option<(nat, nat)>, k: nat) {
    a == b || (b.None? && a.Some? && a.value.0 + 1 == k)
  }

  lemma HitsOfEmptyRow(rows: seq<seq<string>>, pats: HeaderPatterns)
    ensures HitsOf(rows + [[]], pats) == HitsOf(rows, pats)
  {
    var q1, q2, q3, q4, q5 := Claimer(pats.itemName), Claimer(pats.itemNumber), Claimer(pats.charName),
                              Claimer(pats.value), Claimer(pats.unit);
    FirstHitSnoc(rows, [], q1);
    FirstHitSnoc(rows, [], q2);
    FirstHitSnoc(rows, [], q3);
    FirstHitSnoc(rows, [], q4);
    FirstHitSnoc(rows, [], q5);
  }

  /** One more cell of the current row: a role without a hit takes this cell if it claims it. */
  lemma FirstHitStep<T>(rows: seq<seq<T>>, row: seq<T>, c: nat, q: T -> bool)
    requires c < |row|
    ensures FirstHit(rows + [row[..c + 1]], q) ==
      if FirstHit(rows + [row[..c]], q).Some? then FirstHit(rows + [row[..c]], q)
      else if q(row[c]) then Some((|rows|, c))
      else None
  {
    FirstHitSnoc(rows, row[..c], q);
    FirstHitSnoc(rows, row[..c + 1], q);
    FirstWhereStep(row, c, q);
  }

  lemma FirstHitSnoc<T>(rows: seq<seq<T>>, last: seq<T>, q: T -> bool)
    ensures FirstHit(rows + [last], q) ==
      if FirstHit(rows, q).Some? then FirstHit(rows, q)
      else if FirstWhere(last, q).Some? then Some((|rows|, FirstWhere(last, q).value))
      else None
  {
    assert (rows + [last])[..|rows|] == rows && (rows + [last])[|rows|] == last;
  }

  lemma FirstWhereStep<T>(row: seq<T>, c: nat, q: T -> bool)
    requires c < |row|
    ensures FirstWhere(row[..c + 1], q) ==
      if FirstWhere(row[..c], q).Some? then FirstWhere(row[..c], q)
      else if q(row[c]) then Some(c)
      else None
  {
    assert row[..c + 1][..c] == row[..c] && row[..c + 1][c] == row[c];
  }

  lemma HitsStep(rows: seq<seq<string>>, row: seq<string>, c: nat, pats: HeaderPatterns)
    requires c < |row|
    ensures var before := HitsOf(rows + [row[..c]], pats);
      var after := HitsOf(rows + [row[..c + 1]], pats);
      && after.itemName == (if before.itemName.None? && Claims(row[c], pats.itemName) then Some((|rows|, c)) else before.itemName)
      && after.itemNumber == (if before.itemNumber.None? && Claims(row[c], pats.itemNumber) then Some((|rows|, c)) else before.itemNumber)
      && after.charName == (if before.charName.None? && Claims(row[c], pats.charName) then Some((|rows|, c)) else before.charName)
      && after.value == (if before.value.None? && Claims(row[c], pats.value) then Some((|rows|, c)) else before.value)
      && after.unit == (if before.unit.None? && Claims(row[c], pats.unit) then Some((|rows|, c)) else before.unit)
  {
    FirstHitStep(rows, row, c, Claimer(pats.itemName));
    FirstHitStep(rows, row, c, Claimer(pats.itemNumber));
    FirstHitStep(rows, row, c, Claimer(pats.charName));
    FirstHitStep(rows, row, c, Claimer(pats.value));
    FirstHitStep(rows, row, c, Claimer(pats.unit));
  }

  // ───────────────────────── properties ─────────────────────────

  /** Columns are detected exactly when some cell of the first three rows is a characteristic-name header. */
  lemma DetectIff(t: Table, pats: HeaderPatterns)
    ensures DetectColumns(t, pats).Some? <==>
      exists r, c | 0 <= r < |HeaderArea(t)| && 0 <= c < |HeaderArea(t)[r]| :: Claims(HeaderArea(t)[r][c], pats.charName)
  {
    var area := HeaderArea(t);
    var h := FirstHit(area, Claimer(pats.charName));
    if h.Some? {
      var r, c := h.value.0, h.value.1;
      assert Claims(area[r][c], pats.charName);
    } else {
      forall r, c | 0 <= r < |area| && 0 <= c < |area[r]| ensures !Claims(area[r][c], pats.charName) {
        assert FirstWhere(area[r], Claimer(pats.charName)).None?;
      }
    }
  }

  /** A table is a characteristics table exactly when it has two rows and a characteristic-name header
      among its first three rows. */
  lemma CharacteristicsTableIff(t: Table, pats: HeaderPatterns)
    ensures IsCharacteristicsTable(t, pats) <==> (|t.rows| >= 2
      && exists r, c | 0 <= r < |HeaderArea(t)| && 0 <= c < |HeaderArea(t)[r]| :: Claims(HeaderArea(t)[r][c], pats.charName))
  {
    DetectIff(t, pats);
  }

  /** The characteristic-name column is that of the first header cell in row-major order. */
  lemma DetectedCharIsFirst(t: Table, pats: HeaderPatterns)
    requires DetectColumns(t, pats).Some?
    ensures exists r | 0 <= r < |HeaderArea(t)| ::
      var c := DetectColumns(t, pats).value.charName.value;
      && c < |HeaderArea(t)[r]| && Claims(HeaderArea(t)[r][c], pats.charName)
      && (forall j | 0 <= j < c :: !Claims(HeaderArea(t)[r][j], pats.charName))
      && (forall r', j | 0 <= r' < r && 0 <= j < |HeaderArea(t)[r']| :: !Claims(HeaderArea(t)[r'][j], pats.charName))
  {
    var area := HeaderArea(t);
    var h := FirstHit(area, Claimer(pats.charName));
    var r := h.value.0;
    forall r', j | 0 <= r' < r && 0 <= j < |area[r']| ensures !Claims(area[r'][j], pats.charName) {
      assert FirstWhere(area[r'], Claimer(pats.charName)).None?;
    }
  }

  /** The header rows lie between 1 and the number of rows searched (at most three). */
  lemma HeaderRowsBounded(t: Table, pats: HeaderPatterns)
    requires DetectColumns(t, pats).Some?
    ensures 1 <= DetectColumns(t, pats).value.headerRows <= HeaderScanRows
    ensures DetectColumns(t, pats).value.headerRows <= |t.rows|
  {
    HitsBounded(HeaderArea(t), pats);
  }

  /** The value column is missing only when no value header was found and the grid ends after
      the characteristic-name column. */
  lemma ValueColumnFallback(t: Table, pats: HeaderPatterns)
    requires DetectColumns(t, pats).Some?
    ensures var cm := DetectColumns(t, pats).value;
      cm.value.None? <==>
        (forall r, c | 0 <= r < |HeaderArea(t)| && 0 <= c < |HeaderArea(t)[r]| :: !Claims(HeaderArea(t)[r][c], pats.value))
        && cm.charName.value + 1 >= t.columnCount
  {
    var area := HeaderArea(t);
    var h := FirstHit(area, Claimer(pats.value));
    if h.Some? {
      var r, c := h.value.0, h.value.1;
      assert Claims(area[r][c], pats.value);
    } else {
      forall r, c | 0 <= r < |area| && 0 <= c < |area[r]| ensures !Claims(area[r][c], pats.value) {
        assert FirstWhere(area[r], Claimer(pats.value)).None?;
      }
    }
  }
}
